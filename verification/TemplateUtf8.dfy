/** Sanitising of template output (luci/modules/luci-base/src/template_utils.c:22-369): UTF-8 sequences are
    checked, and for XML the control bytes are dropped and the markup escaped. */
module TemplateUtf8 {
  import opened Bytes

  const QUESTION: Byte := 0x3F

  // ------------------------------------------------------ multi-byte tests

  /** mb_num_chars: the length a first byte announces; a mask of leading bits is a
      quotient. */
  function NumChars(c: Byte): (n: nat)
    ensures 1 <= n <= 6
  {
    if c / 32 == 6 then 2
    else if c / 16 == 14 then 3
    else if c / 8 == 30 then 4
    else if c / 4 == 62 then 5
    else if c / 2 == 126 then 6
    else 1
  }

  /** mb_is_cont */
  predicate IsCont(c: Byte) { 0x80 <= c <= 0xBF }

  /** mb_is_shortest, for the lengths that can be copied */
  predicate IsShortest(s: seq<Byte>, n: nat)
    requires |s| >= n
  {
    if n == 2 then !(s[0] / 2 == 0x60 && s[1] / 64 == 2)
    else if n == 3 then !(s[0] == 0xE0 && s[1] / 32 == 4 && s[2] / 64 == 2)
    else if n == 4 then !(s[0] == 0xF0 && s[1] / 16 == 8 && s[2] / 64 == 2 && s[3] / 64 == 2)
    else true
  }

  /** mb_is_surrogate */
  predicate IsSurrogate(s: seq<Byte>, n: nat)
    requires |s| >= n
  {
    n == 3 && s[0] == 0xED && 0xA0 <= s[1] <= 0xBF
  }

  /** mb_is_illegal */
  predicate IsIllegal(s: seq<Byte>, n: nat)
    requires |s| >= n
  {
    n == 3 && s[0] == 0xEF && s[1] == 0xBF && 0xBE <= s[2] <= 0xBF
  }

  /** The first n bytes of s are a sequence that is copied. */
  predicate Legal(s: seq<Byte>, n: nat) {
    && 2 <= n <= 4 && |s| >= n && NumChars(s[0]) == n
    && (forall i :: 1 <= i < n ==> IsCont(s[i]))
    && IsShortest(s, n) && !IsSurrogate(s, n) && !IsIllegal(s, n)
  }

  /** The code point that a sequence of n bytes encodes (section 3 of RFC 3629). */
  function CodePoint(s: seq<Byte>, n: nat): int
    requires 2 <= n <= 4 && |s| >= n
  {
    var a: int, b: int := s[0], s[1];
    if n == 2 then (a - 0xC0) * 64 + (b - 0x80)
    else
      var c: int := s[2];
      if n == 3 then (a - 0xE0) * 4096 + (b - 0x80) * 64 + (c - 0x80)
      else
        var d: int := s[3];
        (a - 0xF0) * 262144 + (b - 0x80) * 4096 + (c - 0x80) * 64 + (d - 0x80)
  }

  function SmallestOf(n: nat): int { if n == 2 then 0x80 else if n == 3 then 0x800 else 0x1_0000 }

  /** What the byte tests mean: shortest form, no surrogate, not U+FFFE or U+FFFF.  There is no
      upper bound, so four bytes reach beyond U+10FFFF. */
  lemma LegalMeans(s: seq<Byte>, n: nat)
    requires 2 <= n <= 4 && |s| >= n && NumChars(s[0]) == n && forall i :: 1 <= i < n ==> IsCont(s[i])
    ensures Legal(s, n) <==>
            var c := CodePoint(s, n); c >= SmallestOf(n) && !(0xD800 <= c <= 0xDFFF) && c != 0xFFFE && c != 0xFFFF
  {
    assert IsCont(s[1]);
    if n >= 3 { assert IsCont(s[2]); }
    if n >= 4 { assert IsCont(s[3]); }
  }

  // ----------------------------------------------------------- the meaning

  /** How many bytes from the first one on belong together: it stops at the first one that is
      no continuation, and after one more than announced. */
  function Run(s: seq<Byte>, v: nat, n: nat): (r: nat)
    requires 1 <= v <= n + 1 && v <= |s|
    ensures v <= r <= n + 1 && r <= |s|
    ensures forall i :: v <= i < r ==> IsCont(s[i])
    ensures r <= n && r < |s| ==> !IsCont(s[r])
    decreases n + 1 - v
  {
    if v <= n && v < |s| && IsCont(s[v]) then Run(s, v + 1, n) else v
  }

  predicate IsAscii(c: Byte) { 0x01 <= c <= 0x7F }

  /** _validate_utf8: what is emitted for the bytes at the front of s, and how many they
      are. */
  function Validated(s: seq<Byte>): (r: (seq<Byte>, nat))
    requires s != []
    ensures 1 <= r.1 <= |s| && r.0 != []
  {
    if IsAscii(s[0]) then ([s[0]], 1)
    else
      var n := NumChars(s[0]);
      if n == 1 then ([QUESTION], 1)
      else
        var v := Run(s, 1, n);
        if v == n && Legal(s, n) then (s[..n], v) else ([QUESTION], v)
  }

  /** utf8 */
  function Sanitized(s: seq<Byte>): seq<Byte> {
    if s == [] then [] else Validated(s).0 + Sanitized(s[Validated(s).1..])
  }

  /** Only ASCII without NUL, and legal sequences. */
  predicate Clean(s: seq<Byte>) {
    s == [] || (if IsAscii(s[0]) then Clean(s[1..])
                else Legal(s, NumChars(s[0])) && Clean(s[NumChars(s[0])..]))
  }

  lemma LegalPrefix(s: seq<Byte>, n: nat, rest: seq<Byte>)
    requires Legal(s, n)
    ensures Legal(s[..n] + rest, n) && (s[..n] + rest)[n..] == rest && (s[..n] + rest)[..n] == s[..n]
  {
    var t := s[..n] + rest;
    assert forall i :: 0 <= i < n ==> t[i] == s[i];
  }

  /** The output is clean, whatever the input. */
  lemma {:induction false} SanitizedIsClean(s: seq<Byte>)
    ensures Clean(Sanitized(s))
    decreases |s|
  {
    if s != [] {
      var (out, v) := Validated(s);
      SanitizedIsClean(s[v..]);
      var rest := Sanitized(s[v..]);
      if |out| == 1 {
        assert (out + rest)[1..] == rest && IsAscii(out[0]);
      } else {
        LegalPrefix(s, |out|, rest);
      }
    }
  }

  lemma CleanStart(s: seq<Byte>)
    requires Clean(s) && s != []
    ensures !IsCont(s[0])
  {
  }

  /** A legal sequence before clean text is taken as it is. */
  lemma LegalIsKept(s: seq<Byte>)
    requires s != [] && !IsAscii(s[0]) && Clean(s)
    ensures Validated(s) == (s[..NumChars(s[0])], NumChars(s[0]))
  {
    var n := NumChars(s[0]);
    if |s| > n {
      CleanStart(s[n..]);
      assert s[n..][0] == s[n];
    }
    RunIsWhole(s, 1, n);
  }

  lemma {:induction false} RunIsWhole(s: seq<Byte>, v: nat, n: nat)
    requires 1 <= v <= n <= |s| && (forall i :: 1 <= i < n ==> IsCont(s[i])) && (n < |s| ==> !IsCont(s[n]))
    ensures Run(s, v, n) == n
    decreases n - v
  {
    if v < n { RunIsWhole(s, v + 1, n); }
  }

  /** A sequence is copied exactly when it is legal and no further continuation byte follows:
      one more is counted, and the whole replaced. */
  lemma CopiedExactly(s: seq<Byte>)
    requires s != [] && s[0] >= 0x80
    ensures var n := NumChars(s[0]);
            Validated(s).0 != [QUESTION] <==> Legal(s, n) && (|s| > n ==> !IsCont(s[n]))
  {
    var n := NumChars(s[0]);
    if Legal(s, n) {
      if |s| > n && IsCont(s[n]) {
        RunGoesOn(s, 1, n);
      } else {
        RunIsWhole(s, 1, n);
        assert |s[..n]| == n;
      }
    }
  }

  lemma {:induction false} RunGoesOn(s: seq<Byte>, v: nat, n: nat)
    requires 1 <= v <= n + 1 <= |s| && forall i :: 1 <= i <= n ==> IsCont(s[i])
    ensures Run(s, v, n) == n + 1
    decreases n + 1 - v
  {
    if v <= n { RunGoesOn(s, v + 1, n); }
  }

  /** Clean text stays as it is. */
  lemma {:induction false} CleanIsKept(s: seq<Byte>)
    requires Clean(s)
    ensures Sanitized(s) == s
    decreases |s|
  {
    hide Validated, Legal;
    if s != [] {
      if IsAscii(s[0]) {
        CleanIsKept(s[1..]);
        AsciiIsKept(s);
        assert s == [s[0]] + s[1..];
      } else {
        var n := NumChars(s[0]);
        LegalIsKept(s);
        CleanIsKept(s[n..]);
        assert s == s[..n] + s[n..];
      }
    }
  }

  lemma AsciiIsKept(t: seq<Byte>)
    requires t != [] && IsAscii(t[0])
    ensures Validated(t) == ([t[0]], 1)
  {
  }

  lemma Idempotent(s: seq<Byte>)
    ensures Sanitized(Sanitized(s)) == Sanitized(s)
  {
    SanitizedIsClean(s);
    CleanIsKept(Sanitized(s));
  }

  // ------------------------------------------------------------------ XML

  /** The bytes pcdata drops. */
  predicate IsDropped(c: Byte) { c <= 0x08 || 0x0B <= c <= 0x0C || 0x0E <= c <= 0x1F || c == 0x7F }

  predicate IsMarkup(c: Byte) { c == 0x26 || c == 0x27 || c == 0x22 || c == 0x3C || c == 0x3E }

  /** snprintf "&#%i;" of a byte below 100 */
  function Reference(c: Byte): seq<Byte>
    requires 10 <= c < 100
  {
    [0x26, 0x23, 0x30 + c / 10, 0x30 + c % 10, 0x3B]
  }

  /** pcdata */
  function Escaped(s: seq<Byte>): seq<Byte> {
    if s == [] then []
    else if IsDropped(s[0]) then Escaped(s[1..])
    else if IsMarkup(s[0]) then Reference(s[0]) + Escaped(s[1..])
    else if s[0] <= 0x7F then [s[0]] + Escaped(s[1..])
    else Validated(s).0 + Escaped(s[Validated(s).1..])
  }

  /** An ampersand at position i starts a reference to one of the five markup characters. */
  predicate StartsReference(s: seq<Byte>, i: nat) {
    && i + 5 <= |s| && s[i] == 0x26 && s[i + 1] == 0x23 && s[i + 4] == 0x3B
    && ((s[i + 2] == 0x33 && (s[i + 3] == 0x34 || s[i + 3] == 0x38 || s[i + 3] == 0x39)) // 34, 38, 39
        || (s[i + 2] == 0x36 && (s[i + 3] == 0x30 || s[i + 3] == 0x32))) // 60, 62
  }

  /** No quotation mark, apostrophe or angle bracket; ampersands only in references; and no
      control byte but tab, newline and carriage return. */
  ghost predicate IsEscaped(s: seq<Byte>) {
    forall i :: 0 <= i < |s| ==>
      && s[i] != 0x22 && s[i] != 0x27 && s[i] != 0x3C && s[i] != 0x3E && s[i] != 0x7F
      && (s[i] == 0x26 ==> StartsReference(s, i))
      && (s[i] < 0x20 ==> s[i] == 0x09 || s[i] == 0x0A || s[i] == 0x0D)
  }

  lemma EscapedJoin(a: seq<Byte>, b: seq<Byte>)
    requires IsEscaped(a) && IsEscaped(b)
    ensures IsEscaped(a + b)
  {
    var s := a + b;
    forall i | 0 <= i < |s| && s[i] == 0x26
      ensures StartsReference(s, i)
    {
      if i < |a| {
        assert StartsReference(a, i);
        assert s[i + 1] == a[i + 1] && s[i + 2] == a[i + 2] && s[i + 3] == a[i + 3] && s[i + 4] == a[i + 4];
      } else {
        var j := i - |a|;
        assert s[i] == b[j] && StartsReference(b, j);
        assert s[i + 1] == b[j + 1] && s[i + 2] == b[j + 2] && s[i + 3] == b[j + 3] && s[i + 4] == b[j + 4];
      }
    }
    assert forall i :: 0 <= i < |a| ==> s[i] == a[i];
    assert forall i :: |a| <= i < |s| ==> s[i] == b[i - |a|];
  }

  /** What is emitted for the front of the text is escaped. */
  lemma FrontIsEscaped(s: seq<Byte>)
    requires s != []
    ensures s[0] >= 0x80 ==> IsEscaped(Validated(s).0)
    ensures IsMarkup(s[0]) ==> IsEscaped(Reference(s[0]))
    ensures s[0] <= 0x7F && !IsDropped(s[0]) && !IsMarkup(s[0]) ==> IsEscaped([s[0]])
  {
    if IsMarkup(s[0]) { assert StartsReference(Reference(s[0]), 0); }
  }

  /** The output of pcdata holds no markup, whatever the input. */
  lemma {:induction false} OutputIsEscaped(s: seq<Byte>)
    ensures IsEscaped(Escaped(s))
    decreases |s|
  {
    hide Validated, IsDropped, Reference, StartsReference, IsEscaped;
    if s == [] {
      NothingEscaped();
    } else {
      FrontIsEscaped(s);
      if IsDropped(s[0]) {
        OutputIsEscaped(s[1..]);
      } else if IsMarkup(s[0]) {
        OutputIsEscaped(s[1..]);
        EscapedJoin(Reference(s[0]), Escaped(s[1..]));
      } else if s[0] <= 0x7F {
        OutputIsEscaped(s[1..]);
        EscapedJoin([s[0]], Escaped(s[1..]));
      } else {
        OutputIsEscaped(s[Validated(s).1..]);
        EscapedJoin(Validated(s).0, Escaped(s[Validated(s).1..]));
      }
    }
  }

  lemma NothingEscaped()
    ensures IsEscaped([])
  {
  }

  predicate IsDigit(c: Byte) { 0x30 <= c <= 0x39 }

  /** Replaces decimal references of two digits by the bytes they stand for. */
  function Unescaped(s: seq<Byte>): seq<Byte> {
    if s == [] then []
    else if |s| >= 5 && s[0] == 0x26 && s[1] == 0x23 && IsDigit(s[2]) && IsDigit(s[3]) && s[4] == 0x3B then
      [10 * (s[2] - 0x30) + (s[3] - 0x30)] + Unescaped(s[5..])
    else [s[0]] + Unescaped(s[1..])
  }

  function Stripped(s: seq<Byte>): seq<Byte> {
    if s == [] then [] else (if IsDropped(s[0]) then [] else [s[0]]) + Stripped(s[1..])
  }

  lemma {:induction false} StrippedConcat(a: seq<Byte>, b: seq<Byte>)
    ensures Stripped(a + b) == Stripped(a) + Stripped(b)
  {
    if a == [] {
      assert a + b == b;
    } else {
      assert (a + b)[1..] == a[1..] + b;
      StrippedConcat(a[1..], b);
    }
  }

  /** Bytes that are neither dropped nor an ampersand pass both ways. */
  lemma {:induction false} PlainBytes(a: seq<Byte>, b: seq<Byte>)
    requires forall i :: 0 <= i < |a| ==> !IsDropped(a[i]) && a[i] != 0x26
    ensures Stripped(a) == a && Unescaped(a + b) == a + Unescaped(b)
  {
    hide Unescaped;
    if a == [] {
      assert a + b == b && [] + Unescaped(b) == Unescaped(b);
    } else {
      PlainBytes(a[1..], b);
      PlainByte(a[0], a[1..] + b);
      assert a == [a[0]] + a[1..];
      assert a + b == [a[0]] + (a[1..] + b);
      assert a + Unescaped(b) == [a[0]] + (a[1..] + Unescaped(b));
    }
  }

  lemma PlainByte(x: Byte, rest: seq<Byte>)
    requires x != 0x26
    ensures Unescaped([x] + rest) == [x] + Unescaped(rest)
  {
    assert ([x] + rest)[1..] == rest;
  }

  lemma ReferenceIsUndone(c: Byte, rest: seq<Byte>)
    requires 10 <= c < 100
    ensures Unescaped(Reference(c) + rest) == [c] + Unescaped(rest)
  {
    var s := Reference(c) + rest;
    assert s[5..] == rest;
    assert 10 * (c / 10) + c % 10 == c;
  }

  /** What is emitted for a sequence holds nothing to drop or to escape. */
  lemma SequenceIsPlain(s: seq<Byte>)
    requires s != [] && s[0] >= 0x80
    ensures var out := Validated(s).0; forall i :: 0 <= i < |out| ==> !IsDropped(out[i]) && out[i] != 0x26
  {
  }

  function Nuls(s: seq<Byte>): nat { if s == [] then 0 else (if s[0] == 0 then 1 else 0) + Nuls(s[1..]) }

  lemma {:induction false} NoNuls(s: seq<Byte>, v: nat)
    requires v <= |s| && forall i :: 0 <= i < v ==> s[i] != 0
    ensures Nuls(s) == Nuls(s[v..])
  {
    if v > 0 {
      assert s[v..] == s[1..][v - 1..];
      NoNuls(s[1..], v - 1);
    }
  }

  lemma StrippedOne(c: Byte)
    ensures Stripped([c]) == if IsDropped(c) then [] else [c]
  {
    assert [c][1..] == [];
  }

  /** Sanitizing and then stripping, one step further. */
  lemma SanitizedStep(s: seq<Byte>)
    requires s != []
    ensures var (out, v) := Validated(s); Stripped(Sanitized(s)) == Stripped(out) + Stripped(Sanitized(s[v..]))
  {
    var (out, v) := Validated(s);
    StrippedConcat(out, Sanitized(s[v..]));
  }

  /** Escaping and then undoing it, one step further. */
  lemma EscapedStepLow(s: seq<Byte>)
    requires s != [] && s[0] < 0x80
    ensures Unescaped(Escaped(s)) == (if IsDropped(s[0]) then [] else [s[0]]) + Unescaped(Escaped(s[1..]))
  {
    var rest := Escaped(s[1..]);
    hide Unescaped;
    if IsDropped(s[0]) {
      assert Escaped(s) == rest;
    } else if IsMarkup(s[0]) {
      assert Escaped(s) == Reference(s[0]) + rest;
      ReferenceIsUndone(s[0], rest);
    } else {
      assert Escaped(s) == [s[0]] + rest;
      PlainByte(s[0], rest);
    }
  }

  lemma EscapedStepHigh(s: seq<Byte>)
    requires s != [] && s[0] >= 0x80
    ensures var (out, v) := Validated(s);
            Unescaped(Escaped(s)) == Stripped(out) + Unescaped(Escaped(s[v..])) && Nuls(s) == Nuls(s[v..])
  {
    var (out, v) := Validated(s);
    SequenceIsPlain(s);
    PlainBytes(out, Escaped(s[v..]));
    assert forall i :: 0 <= i < v ==> s[i] != 0;
    NoNuls(s, v);
  }

  lemma LowIsOne(s: seq<Byte>)
    requires s != [] && s[0] < 0x80
    ensures Validated(s) == (if s[0] == 0 then [QUESTION] else [s[0]], 1)
  {
  }

  /** The two ways of cleaning, one step further. */
  lemma Step(s: seq<Byte>)
    requires s != []
    ensures var (out, v) := Validated(s);
            && Stripped(Sanitized(s)) == Stripped(out) + Stripped(Sanitized(s[v..]))
            && Unescaped(Escaped(s)) == (if s[0] == 0 then [] else Stripped(out)) + Unescaped(Escaped(s[v..]))
            && Nuls(s) == (if s[0] == 0 then 1 else 0) + Nuls(s[v..])
            && (s[0] == 0 ==> |Stripped(out)| == 1)
  {
    SanitizedStep(s);
    if s[0] < 0x80 {
      LowIsOne(s);
      EscapedStepLow(s);
      StrippedOne(s[0]);
      StrippedOne(QUESTION);
      hide Unescaped, Escaped, Stripped, Sanitized, Validated;
    } else {
      EscapedStepHigh(s);
      hide Unescaped, Escaped, Stripped, Sanitized, Validated, Nuls;
    }
  }

  lemma {:induction false} LengthsDiffer(s: seq<Byte>)
    ensures |Stripped(Sanitized(s))| == |Unescaped(Escaped(s))| + Nuls(s)
    decreases |s|
  {
    hide Unescaped, Escaped, Stripped, Sanitized, Nuls;
    if s == [] {
      NothingToDo();
    } else {
      Step(s);
      LengthsDiffer(s[Validated(s).1..]);
    }
  }

  lemma NothingToDo()
    ensures Stripped(Sanitized([])) == [] && Unescaped(Escaped([])) == [] && Nuls([]) == 0
  {
  }

  lemma {:induction false} SameWithoutNuls(s: seq<Byte>)
    requires Nuls(s) == 0
    ensures Unescaped(Escaped(s)) == Stripped(Sanitized(s))
    decreases |s|
  {
    hide Unescaped, Escaped, Stripped, Sanitized, Nuls;
    if s == [] {
      NothingToDo();
    } else {
      Step(s);
      SameWithoutNuls(s[Validated(s).1..]);
    }
  }

  /** Undoing the references gives what utf8 makes of the input, less the control bytes, if
      and only if there is no NUL byte. */
  lemma EscapedIsSanitized(s: seq<Byte>)
    ensures Unescaped(Escaped(s)) == Stripped(Sanitized(s)) <==> Nuls(s) == 0
  {
    LengthsDiffer(s);
    if Nuls(s) == 0 { SameWithoutNuls(s); }
  }

  /** Dropping the control bytes first is not the same: it can join the halves of a
      sequence. */
  lemma StrippingFirstDiffers()
    ensures Unescaped(Escaped([0xC3, 0x01, 0xA9])) == [QUESTION, QUESTION]
    ensures Sanitized(Stripped([0xC3, 0x01, 0xA9])) == [0xC3, 0xA9]
  {
    hide Unescaped, Escaped, Stripped, Sanitized, Clean;
    HalvesApart();
    HalvesJoined();
    LegalPair();
    CleanIsKept([0xC3, 0xA9]);
  }

  lemma HalvesApart()
    ensures Unescaped(Escaped([0xC3, 0x01, 0xA9])) == [QUESTION, QUESTION]
  {
    hide Unescaped, Escaped, Stripped, Sanitized, Validated;
    var s: seq<Byte>, t: seq<Byte>, u: seq<Byte> := [0xC3, 0x01, 0xA9], [0x01, 0xA9], [0xA9];
    assert s[1..] == t && t[1..] == u && u[1..] == [];
    AloneIsReplaced(s);
    AloneIsReplaced(u);
    NothingToDo();
    EscapedStepHigh(s);
    EscapedStepLow(t);
    EscapedStepHigh(u);
    StrippedOne(QUESTION);
  }

  lemma AloneIsReplaced(s: seq<Byte>)
    requires s != [] && s[0] >= 0x80 && (|s| == 1 || !IsCont(s[1]))
    ensures Validated(s) == ([QUESTION], 1)
  {
  }

  lemma HalvesJoined()
    ensures Stripped([0xC3, 0x01, 0xA9]) == [0xC3, 0xA9]
  {
    hide Stripped;
    StrippedConcat([0xC3], [0x01, 0xA9]);
    StrippedConcat([0x01], [0xA9]);
    StrippedOne(0xC3);
    StrippedOne(0x01);
    StrippedOne(0xA9);
    assert [0xC3] + [0x01, 0xA9] == [0xC3, 0x01, 0xA9] && [0x01] + [0xA9] == [0x01, 0xA9];
  }

  lemma LegalPair()
    ensures Clean([0xC3, 0xA9])
  {
    var s: seq<Byte> := [0xC3, 0xA9];
    assert s[2..] == [];
  }

  // ------------------------------- when the two orders of cleaning agree

  /** Dropped bytes stand between a first byte at i with v - 1 of its continuation bytes, at most
      as many as it announces, and a further continuation byte at j. */
  ghost predicate Splits(s: seq<Byte>, i: nat, v: nat, j: nat) {
    && i + v < j < |s| && 2 <= NumChars(s[i]) && 1 <= v <= NumChars(s[i])
    && (forall x :: i < x < i + v ==> IsCont(s[x])) && (forall x :: i + v <= x < j ==> IsDropped(s[x]))
    && IsCont(s[j])
  }

  ghost predicate DropsInside(s: seq<Byte>) { exists i, v, j :: Splits(s, i, v, j) }

  ghost predicate DropsInFirst(s: seq<Byte>) { exists v, j :: Splits(s, 0, v, j) }

  lemma DropsInsideUnfolds(s: seq<Byte>)
    requires s != []
    ensures DropsInside(s) <==> DropsInFirst(s) || DropsInside(s[1..])
  {
    var t := s[1..];
    if i: nat, v: nat, j: nat :| Splits(s, i, v, j) {
      if i > 0 {
        assert forall x :: 0 <= x < |t| ==> t[x] == s[x + 1];
        assert Splits(t, i - 1, v, j - 1);
      }
    }
    if i: nat, v: nat, j: nat :| Splits(t, i, v, j) {
      forall x | i + 1 + v <= x < j + 1
        ensures IsDropped(s[x])
      {
        assert s[x] == t[x - 1];
      }
      forall x | i + 1 < x < i + 1 + v
        ensures IsCont(s[x])
      {
        assert s[x] == t[x - 1];
      }
      assert Splits(s, i + 1, v, j + 1);
    }
  }

  /** Nothing is split behind a byte that announces nothing. */
  lemma {:induction false} DropsBehind(s: seq<Byte>, k: nat)
    requires k <= |s| && forall i :: 0 <= i < k ==> NumChars(s[i]) == 1
    ensures DropsInside(s) <==> DropsInside(s[k..])
  {
    if k > 0 {
      DropsInsideUnfolds(s);
      assert s[1..][k - 1..] == s[k..];
      DropsBehind(s[1..], k - 1);
    }
  }

  /** What is left after dropping begins with the first byte that is not dropped. */
  lemma {:induction false} StrippedStart(s: seq<Byte>, k: nat)
    requires k < |s| && (forall x :: 0 <= x < k ==> IsDropped(s[x])) && !IsDropped(s[k])
    ensures Stripped(s) == [s[k]] + Stripped(s[k + 1..])
  {
    if k > 0 {
      StrippedStart(s[1..], k - 1);
      assert s[1..][k..] == s[k + 1..];
    }
  }

  lemma {:induction false} FirstKept(s: seq<Byte>) returns (k: nat)
    requires Stripped(s) != []
    ensures k < |s| && (forall x :: 0 <= x < k ==> IsDropped(s[x])) && !IsDropped(s[k])
  {
    k := 0;
    if IsDropped(s[0]) {
      k := FirstKept(s[1..]);
      k := k + 1;
    }
  }

  /** The bytes that belong to the first one are followed, after dropping, by a further
      continuation byte exactly when bytes are dropped inside. */
  lemma DropsInFirstMeans(s: seq<Byte>)
    requires s != [] && s[0] >= 0x80
    ensures var n, v := NumChars(s[0]), Validated(s).1; var t := Stripped(s[v..]);
            DropsInFirst(s) <==> 2 <= n && v <= n && t != [] && IsCont(t[0])
  {
    var n, v := NumChars(s[0]), Validated(s).1;
    var rest := s[v..];
    hide Stripped, Validated;
    FirstRun(s);
    if w: nat, j: nat :| Splits(s, 0, w, j) {
      RunStops(s, 1, n, w);
      assert forall x :: 0 <= x < j - v ==> rest[x] == s[v + x];
      StrippedStart(rest, j - v);
    }
    if 2 <= n && v <= n && Stripped(rest) != [] && IsCont(Stripped(rest)[0]) { var j := SplitFound(s, n, v); }
  }

  lemma SplitFound(s: seq<Byte>, n: nat, v: nat) returns (j: nat)
    requires s != [] && 2 <= n == NumChars(s[0]) && v == Run(s, 1, n) <= n
    requires Stripped(s[v..]) != [] && IsCont(Stripped(s[v..])[0])
    ensures Splits(s, 0, v, j)
  {
    hide Stripped, NumChars, Run;
    var rest := s[v..];
    var k := FirstKept(rest);
    StrippedStart(rest, k);
    j := v + k;
    assert rest[k] == s[j];
    assert forall x :: v <= x < j ==> s[x] == rest[x - v];
  }

  lemma FirstRun(s: seq<Byte>)
    requires s != [] && s[0] >= 0x80
    ensures var (out, v) := Validated(s);
            && v == (if NumChars(s[0]) == 1 then 1 else Run(s, 1, NumChars(s[0])))
            && (out == [QUESTION] || (v == NumChars(s[0]) <= 4 && out == s[..v]))
  {
  }

  lemma {:induction false} RunStops(s: seq<Byte>, v: nat, n: nat, w: nat)
    requires 1 <= v <= w <= n && w < |s| && (forall x :: 1 <= x < w ==> IsCont(s[x])) && !IsCont(s[w])
    ensures Run(s, v, n) == w
    decreases w - v
  {
    if v < w { RunStops(s, v + 1, n, w); }
  }

  /** A weight that falls when continuation bytes join what stands before them. */
  function Weight(s: seq<Byte>): nat {
    if s == [] then 0 else (if s[0] >= 0x80 then 1 else 5) + Weight(s[1..])
  }

  lemma {:induction false} WeightConcat(a: seq<Byte>, b: seq<Byte>)
    ensures Weight(a + b) == Weight(a) + Weight(b)
  {
    if a == [] {
      assert a + b == b;
    } else {
      assert (a + b)[1..] == a[1..] + b;
      WeightConcat(a[1..], b);
    }
  }

  lemma {:induction false} WeightBounds(s: seq<Byte>)
    ensures s != [] ==> Weight(s) >= 1
    ensures (forall x :: 0 <= x < |s| ==> s[x] >= 0x80) ==> Weight(s) == |s|
  {
    if s != [] { WeightBounds(s[1..]); }
  }

  lemma QuestionWeight()
    ensures Weight([QUESTION]) == 5
  {
    assert [QUESTION][1..] == [];
  }

  /** Continuation bytes on their own are replaced one by one. */
  lemma {:induction false} AloneWeight(t: seq<Byte>, j: nat)
    requires j <= |t| && forall x :: 0 <= x < j ==> IsCont(t[x])
    ensures Weight(Sanitized(t)) == 5 * j + Weight(Sanitized(t[j..]))
  {
    if j == 0 {
      assert t[0..] == t;
    } else {
      assert Validated(t) == ([QUESTION], 1);
      SanitizedUnfolds(t);
      QuestionWeight();
      hide Validated, Sanitized, Weight;
      WeightConcat([QUESTION], Sanitized(t[1..]));
      AloneWeight(t[1..], j - 1);
      assert t[1..][j - 1..] == t[j..];
    }
  }

  /** The bytes s[..v] followed by others */
  lemma {:induction false} RunAgain(s: seq<Byte>, v: nat, t: seq<Byte>, k: nat, n: nat)
    requires 1 <= k <= v <= n + 1 && v <= |s| && forall x :: 1 <= x < v ==> IsCont(s[x])
    ensures v == n + 1 || t == [] || !IsCont(t[0]) ==> Run(s[..v] + t, k, n) == v
    ensures v <= n && t != [] && IsCont(t[0]) ==> Run(s[..v] + t, k, n) > v
    decreases v - k
  {
    if k < v { RunAgain(s, v, t, k + 1, n); }
  }

  /** What follows does not matter unless a continuation byte can join. */
  lemma NothingJoins(s: seq<Byte>, t: seq<Byte>)
    requires s != [] && s[0] >= 0x80
    requires NumChars(s[0]) == 1 || Validated(s).1 == NumChars(s[0]) + 1 || t == [] || !IsCont(t[0])
    ensures var (out, v) := Validated(s); Validated(s[..v] + t) == (out, v) && (s[..v] + t)[v..] == t
  {
    var n, v := NumChars(s[0]), Validated(s).1;
    var u := s[..v] + t;
    FirstRun(s);
    assert u[v..] == t && u[0] == s[0];
    if n > 1 {
      RunAgain(s, v, t, 1, n);
      if v == n {
        assert u[..n] == s[..n];
        LegalAlike(s, u, n);
      }
    }
  }

  lemma LegalAlike(s: seq<Byte>, u: seq<Byte>, n: nat)
    requires n <= |s| && n <= |u| && s[..n] == u[..n]
    ensures Legal(s, n) <==> Legal(u, n)
  {
    assert forall x :: 0 <= x < n ==> s[x] == s[..n][x] && u[x] == u[..n][x];
  }

  lemma RunJoins(s: seq<Byte>, t: seq<Byte>, v: nat, n: nat)
    requires s != [] && 1 <= v <= n && v <= |s| && t != [] && IsCont(t[0]) && forall x :: 1 <= x < v ==> IsCont(s[x])
    ensures var u := s[..v] + t; var w := Run(u, 1, n);
            && v < w <= |u| && u[w..] == t[w - v..] && (forall x :: 0 <= x < w - v ==> IsCont(t[x]))
  {
    var u := s[..v] + t;
    RunAgain(s, v, t, 1, n);
    assert forall x :: 0 <= x < |t| ==> t[x] == u[v + x];
  }

  /** What is emitted for one sequence weighs no more than what replaces it. */
  lemma Light(u: seq<Byte>)
    requires u != [] && u[0] >= 0x80
    ensures Weight(Validated(u).0) <= 5
  {
    FirstRun(u);
    hide Weight;
    QuestionWeight();
    if Validated(u).0 != [QUESTION] { WeightBounds(Validated(u).0); }
  }

  /** What joins is replaced or copied together with what stands before it. */
  lemma Joins(s: seq<Byte>, t: seq<Byte>) returns (j: nat)
    requires s != [] && s[0] >= 0x80 && 2 <= NumChars(s[0]) && Validated(s).1 <= NumChars(s[0])
    requires t != [] && IsCont(t[0])
    ensures 1 <= j <= |t| && forall x :: 0 <= x < j ==> IsCont(t[x])
    ensures var v := Validated(s).1; var (out, w) := Validated(s[..v] + t);
            w == v + j && (s[..v] + t)[w..] == t[j..] && Weight(out) <= 5
  {
    hide Validated, Weight, NumChars, IsCont;
    var n, v := NumChars(s[0]), Validated(s).1;
    FirstRun(s);
    RunJoins(s, t, v, n);
    FirstRun(s[..v] + t);
    Light(s[..v] + t);
    j := Validated(s[..v] + t).1 - v;
  }

  lemma StrippedHigh(s: seq<Byte>)
    requires s != [] && s[0] >= 0x80
    ensures var v := Validated(s).1; Stripped(s) == s[..v] + Stripped(s[v..])
    ensures Unescaped(Escaped(s)) == Validated(s).0 + Unescaped(Escaped(s[Validated(s).1..]))
  {
    hide Validated, Stripped, Unescaped, Escaped, IsDropped;
    var (out, v) := Validated(s);
    EscapedStepHigh(s);
    SequenceIsPlain(s);
    RunIsPlain(s);
    PlainStays(out);
    PlainStays(s[..v]);
    StrippedConcat(s[..v], s[v..]);
    assert s == s[..v] + s[v..];
  }

  lemma PlainStays(a: seq<Byte>)
    requires forall i :: 0 <= i < |a| ==> !IsDropped(a[i]) && a[i] != 0x26
    ensures Stripped(a) == a
  {
    PlainBytes(a, []);
  }

  lemma RunIsPlain(s: seq<Byte>)
    requires s != [] && s[0] >= 0x80
    ensures forall x :: 0 <= x < Validated(s).1 ==> !IsDropped(s[x]) && s[x] != 0x26
  {
    FirstRun(s);
  }

  /** One step of both orders over bytes that stay together. */
  lemma OrdersHigh(s: seq<Byte>)
    requires s != [] && s[0] >= 0x80
    ensures var (out, v) := Validated(s); var t := Stripped(s[v..]);
            && Unescaped(Escaped(s)) == out + Unescaped(Escaped(s[v..]))
            && (!DropsInFirst(s) ==> Sanitized(Stripped(s)) == out + Sanitized(t))
            && (DropsInFirst(s) ==> Weight(Sanitized(Stripped(s))) < Weight(out) + Weight(Sanitized(t)))
            && (DropsInside(s) <==> DropsInFirst(s) || DropsInside(s[v..]))
  {
    hide Validated, Stripped, Unescaped, Escaped, Sanitized, Weight, DropsInside, DropsInFirst, Legal;
    var (out, v) := Validated(s);
    var t := Stripped(s[v..]);
    StrippedHigh(s);
    DropsInFirstMeans(s);
    FirstRun(s);
    SanitizedUnfolds(s[..v] + t);
    DropsInsideUnfolds(s);
    DropsBehind(s[1..], v - 1);
    assert s[1..][v - 1..] == s[v..];
    if DropsInFirst(s) {
      var j := Joins(s, t);
      var joined := Validated(s[..v] + t).0;
      AloneWeight(t, j);
      WeightConcat(joined, Sanitized(t[j..]));
      WeightBounds(out);
    } else {
      NothingJoins(s, t);
    }
  }

  /** One step of both orders over an ASCII byte. */
  lemma OrdersLow(s: seq<Byte>)
    requires s != [] && s[0] < 0x80
    ensures var out := if IsDropped(s[0]) then [] else [s[0]];
            && Unescaped(Escaped(s)) == out + Unescaped(Escaped(s[1..]))
            && Sanitized(Stripped(s)) == out + Sanitized(Stripped(s[1..]))
            && (DropsInside(s) <==> DropsInside(s[1..]))
  {
    hide Unescaped, Escaped, Stripped, Sanitized, DropsInside;
    EscapedStepLow(s);
    DropsBehind(s, 1);
    StrippedUnfolds(s);
    var t := Stripped(s[1..]);
    if IsDropped(s[0]) {
      assert [] + Sanitized(t) == Sanitized(t) && [] + t == t;
    } else {
      AsciiFirst(s[0], t);
    }
  }

  lemma StrippedUnfolds(s: seq<Byte>)
    requires s != []
    ensures Stripped(s) == (if IsDropped(s[0]) then [] else [s[0]]) + Stripped(s[1..])
  {
  }

  lemma AsciiFirst(c: Byte, t: seq<Byte>)
    requires IsAscii(c)
    ensures Sanitized([c] + t) == [c] + Sanitized(t)
  {
    hide Validated;
    AsciiIsKept([c] + t);
    assert ([c] + t)[1..] == t;
  }

  lemma {:induction false} OrdersCompared(s: seq<Byte>)
    ensures !DropsInside(s) ==> Unescaped(Escaped(s)) == Sanitized(Stripped(s))
    ensures Weight(Unescaped(Escaped(s))) >= Weight(Sanitized(Stripped(s)))
    ensures DropsInside(s) ==> Weight(Unescaped(Escaped(s))) > Weight(Sanitized(Stripped(s)))
    decreases |s|
  {
    if s == [] {
    } else if s[0] < 0x80 {
      hide Validated, Stripped, Unescaped, Escaped, Sanitized, Weight, DropsInside;
      OrdersLow(s);
      OrdersCompared(s[1..]);
      var out := if IsDropped(s[0]) then [] else [s[0]];
      WeightConcat(out, Unescaped(Escaped(s[1..])));
      WeightConcat(out, Sanitized(Stripped(s[1..])));
    } else {
      hide Validated, Stripped, Unescaped, Escaped, Sanitized, Weight, DropsInside, DropsInFirst;
      var (out, v) := Validated(s);
      OrdersHigh(s);
      OrdersCompared(s[v..]);
      WeightConcat(out, Unescaped(Escaped(s[v..])));
      WeightConcat(out, Sanitized(Stripped(s[v..])));
    }
  }

  /** Dropping the control bytes before utf8 gives what undoing the references of pcdata gives,
      if and only if no bytes are dropped between a first byte, with at most as many bytes as it
      announces, and a continuation byte. */
  lemma StrippingFirstAgrees(s: seq<Byte>)
    ensures Unescaped(Escaped(s)) == Sanitized(Stripped(s)) <==> !DropsInside(s)
  {
    OrdersCompared(s);
  }

  /** So they can only differ where a dropped byte stands immediately before a continuation
      byte. */
  lemma DroppedBeforeContinuation(s: seq<Byte>)
    requires Unescaped(Escaped(s)) != Sanitized(Stripped(s))
    ensures exists x :: 0 <= x < |s| - 1 && IsDropped(s[x]) && IsCont(s[x + 1])
  {
    hide Unescaped, Escaped, Sanitized, Stripped;
    StrippingFirstAgrees(s);
    var i: nat, v: nat, j: nat :| Splits(s, i, v, j);
    assert IsDropped(s[j - 1]) && IsCont(s[j - 1 + 1]);
  }

  // ----------------------------------------------------- text by its code points

  /** The encoding of a code point (section 3 of RFC 3629). */
  function Encoded(c: int): (s: seq<Byte>)
    requires 0 <= c < 0x11_0000
    ensures s != []
  {
    if c < 0x80 then [c]
    else if c < 0x800 then [0xC0 + c / 64, 0x80 + c % 64]
    else if c < 0x1_0000 then [0xE0 + c / 4096, 0x80 + c / 64 % 64, 0x80 + c % 64]
    else [0xF0 + c / 262144, 0x80 + c / 4096 % 64, 0x80 + c / 64 % 64, 0x80 + c % 64]
  }

  /** A code point that is no NUL, no surrogate and not U+FFFE or U+FFFF */
  predicate IsCharacter(c: int) {
    1 <= c < 0x11_0000 && !(0xD800 <= c <= 0xDFFF) && c != 0xFFFE && c != 0xFFFF
  }

  ghost predicate AreCharacters(t: seq<int>) { forall i :: 0 <= i < |t| ==> IsCharacter(t[i]) }

  function EncodedText(t: seq<int>): seq<Byte>
    requires AreCharacters(t)
  {
    if t == [] then [] else Encoded(t[0]) + EncodedText(t[1..])
  }

  lemma EncodedStart(t: seq<int>)
    requires AreCharacters(t) && t != []
    ensures EncodedText(t) != [] && (EncodedText(t)[0] < 0x80 || EncodedText(t)[0] >= 0xC2)
  {
  }

  lemma EncodedShape(c: int)
    requires 0x80 <= c < 0x11_0000
    ensures var s := Encoded(c); var n := |s|;
            && 2 <= n <= 4 && s[0] >= 0xC2 && c >= SmallestOf(n) && NumChars(s[0]) == n
            && (forall i :: 1 <= i < n ==> IsCont(s[i]))
  {
  }

  lemma EncodedCodePoint(c: int)
    requires 0x80 <= c < 0x11_0000
    ensures 2 <= |Encoded(c)| <= 4 && CodePoint(Encoded(c), |Encoded(c)|) == c
  {
    assert c / 4096 == c / 64 / 64 && c / 262144 == c / 4096 / 64;
  }

  lemma EncodedIsLegal(c: int)
    requires IsCharacter(c) && c >= 0x80
    ensures Legal(Encoded(c), |Encoded(c)|) && NumChars(Encoded(c)[0]) == |Encoded(c)| && Encoded(c)[0] >= 0xC2
  {
    hide Encoded, CodePoint, Legal, NumChars;
    EncodedShape(c);
    EncodedCodePoint(c);
    LegalMeans(Encoded(c), |Encoded(c)|);
  }

  /** An encoded character in front of others is taken as a whole. */
  lemma EncodedFront(c: int, rest: seq<Byte>)
    requires IsCharacter(c) && (rest == [] || rest[0] < 0x80 || rest[0] >= 0xC2)
    ensures Validated(Encoded(c) + rest) == (Encoded(c), |Encoded(c)|)
  {
    var s, n := Encoded(c) + rest, |Encoded(c)|;
    if c < 0x80 {
      AsciiIsKept(s);
    } else {
      EncodedIsLegal(c);
      LegalPrefix(Encoded(c), n, rest);
      LegalFront(Encoded(c), rest, n);
    }
  }

  lemma LegalFront(e: seq<Byte>, rest: seq<Byte>, n: nat)
    requires |e| == n && Legal(e, n) && Legal(e + rest, n) && e[0] >= 0x80 && NumChars(e[0]) == n
    requires rest == [] || rest[0] < 0x80 || rest[0] >= 0xC2
    ensures Validated(e + rest) == (e, n)
  {
    var s := e + rest;
    RunIsWhole(s, 1, n);
    assert s[..n] == e;
    hide Legal, NumChars;
  }

  /** Text that is well encoded is returned as it is. */
  lemma {:induction false} EncodedIsKept(t: seq<int>)
    requires AreCharacters(t)
    ensures Sanitized(EncodedText(t)) == EncodedText(t)
  {
    hide Validated;
    if t != [] {
      var rest := EncodedText(t[1..]);
      if t[1..] != [] { EncodedStart(t[1..]); }
      EncodedFront(t[0], rest);
      assert (Encoded(t[0]) + rest)[|Encoded(t[0])|..] == rest;
      EncodedIsKept(t[1..]);
    }
  }

  /** What pcdata writes for a character: nothing for a control character, the decimal
      reference for one of the five of the markup, and otherwise the character itself. */
  function Rewritten(c: int): (s: seq<Byte>)
    requires IsCharacter(c)
  {
    if c == 0x22 then [0x26, 0x23, 0x33, 0x34, 0x3B]
    else if c == 0x26 then [0x26, 0x23, 0x33, 0x38, 0x3B]
    else if c == 0x27 then [0x26, 0x23, 0x33, 0x39, 0x3B]
    else if c == 0x3C then [0x26, 0x23, 0x36, 0x30, 0x3B]
    else if c == 0x3E then [0x26, 0x23, 0x36, 0x32, 0x3B]
    else if c == 0x7F || (c < 0x20 && c != 0x09 && c != 0x0A && c != 0x0D) then []
    else Encoded(c)
  }

  function RewrittenText(t: seq<int>): seq<Byte>
    requires AreCharacters(t)
  {
    if t == [] then [] else Rewritten(t[0]) + RewrittenText(t[1..])
  }

  lemma EscapedFront(c: int, rest: seq<Byte>)
    requires IsCharacter(c) && (rest == [] || rest[0] < 0x80 || rest[0] >= 0xC2)
    ensures Escaped(Encoded(c) + rest) == Rewritten(c) + Escaped(rest)
  {
    hide Validated, Escaped;
    var s, n := Encoded(c) + rest, |Encoded(c)|;
    EscapedUnfolds(s);
    assert s[n..] == rest && [] + Escaped(rest) == Escaped(rest);
    if c >= 0x80 {
      EncodedFront(c, rest);
      EncodedShape(c);
    } else {
      assert s[0] == c as Byte;
      if IsMarkup(c as Byte) { ReferenceOf(c); }
    }
  }

  lemma ReferenceOf(c: int)
    requires IsCharacter(c) && c < 0x80 && IsMarkup(c as Byte)
    ensures Reference(c as Byte) == Rewritten(c)
  {
  }

  /** Well encoded text is escaped character by character. */
  lemma {:induction false} TextIsEscaped(t: seq<int>)
    requires AreCharacters(t)
    ensures Escaped(EncodedText(t)) == RewrittenText(t)
  {
    hide Escaped, Encoded, Rewritten;
    if t == [] {
      EscapedUnfolds([]);
    } else {
      if t[1..] != [] { EncodedStart(t[1..]); }
      EscapedFront(t[0], EncodedText(t[1..]));
      TextIsEscaped(t[1..]);
      Regroup([], Rewritten(t[0]), RewrittenText(t[1..]));
    }
  }

  /** The front is v bytes: a first byte and as many continuation bytes as there are, up to n.
      A mark stands for them unless they are copied, and only n bytes can be. */
  predicate TakesUpTo(s: seq<Byte>, n: nat) {
    s != [] && var (out, v) := Validated(s);
    && v <= |s| && v <= n + 1 && (forall i :: 1 <= i < v ==> 0x80 <= s[i] <= 0xBF)
    && (v <= n && v < |s| ==> s[v] < 0x80 || s[v] > 0xBF)
    && (out == [QUESTION] || (v == n && n <= 4 && out == s[..v]))
  }

  /** How many bytes the first one takes with it, by its range. */
  lemma ConsumedExactly(s: seq<Byte>)
    requires s != [] && s[0] >= 0x80
    ensures s[0] < 0xC0 || s[0] >= 0xFE ==> Validated(s) == ([QUESTION], 1)
    ensures 0xC0 <= s[0] < 0xE0 ==> TakesUpTo(s, 2)
    ensures 0xE0 <= s[0] < 0xF0 ==> TakesUpTo(s, 3)
    ensures 0xF0 <= s[0] < 0xF8 ==> TakesUpTo(s, 4)
    ensures 0xF8 <= s[0] < 0xFC ==> TakesUpTo(s, 5)
    ensures 0xFC <= s[0] < 0xFE ==> TakesUpTo(s, 6)
  {
  }

  // ------------------------------------------------------------ the buffer

  /** struct template_buffer: a terminated string that grows; `fill` also stands for dptr. */
  class Buffer {
    var data: array<Byte>
    var fill: nat

    /** The terminator is always inside. */
    ghost predicate Valid()
      reads this, data
    {
      fill < data.Length && data[fill] == 0
    }

    ghost function Contents(): seq<Byte>
      requires Valid()
      reads this, data
    {
      data[..fill]
    }

    /** buf_init */
    constructor (size: int)
      ensures Valid() && Contents() == [] && fresh(data)
    {
      data := new Byte[if size <= 0 then 1024 else size](i => 0);
      fill := 0;
    }

    /** buf_grow */
    method Grow(size: int)
      requires Valid()
      modifies this`data
      ensures Valid() && Contents() == old(Contents()) && fresh(data)
      ensures data.Length == old(data.Length) + if size <= 0 then 1024 else size
    {
      var more := new Byte[data.Length + if size <= 0 then 1024 else size](i => 0);
      for i := 0 to data.Length
        invariant data == old(data) && more[..i] == data[..i]
      {
        more[i] := data[i];
      }
      assert more[..data.Length][..fill] == data[..fill] && more[..data.Length][fill] == data[fill];
      data := more;
    }

    /** buf_putchar */
    method PutChar(c: Byte)
      requires Valid()
      modifies this, data
      ensures Valid() && Contents() == old(Contents()) + [c] && (data == old(data) || fresh(data))
    {
      if fill + 1 >= data.Length { Grow(0); }
      data[fill] := c;
      data[fill + 1] := 0;
      fill := fill + 1;
    }

    /** buf_append */
    method Append(s: seq<Byte>)
      requires Valid()
      modifies this, data
      ensures Valid() && Contents() == old(Contents()) + s && (data == old(data) || fresh(data))
    {
      if fill + |s| + 1 >= data.Length { Grow(|s| + 1); }
      CopyInto(data, fill, s);
      assert data[..fill + |s|] == old(Contents()) + s;
      fill := fill + |s|;
      data[fill] := 0;
    }
  }

  /** The bytes buf_destroy hands over: a string with its terminator. */
  method Destroy(buf: Buffer) returns (s: seq<Byte>)
    requires buf.Valid()
    ensures s == buf.Contents()
  {
    s := buf.data[..buf.fill];
  }

  // ------------------------------------------------------------- the loops

  /** _validate_utf8 at position p */
  method Validate(s: seq<Byte>, p: nat, buf: Buffer) returns (v: nat)
    requires p < |s| && buf.Valid()
    modifies buf, buf.data
    ensures buf.Valid() && (buf.data == old(buf.data) || fresh(buf.data))
    ensures v == Validated(s[p..]).1 && buf.Contents() == old(buf.Contents()) + Validated(s[p..]).0
  {
    ghost var t := s[p..];
    if IsAscii(s[p]) {
      buf.PutChar(s[p]);
      return 1;
    }
    var n := NumChars(s[p]);
    if n == 1 {
      buf.PutChar(QUESTION);
      return 1;
    }
    v := 1;
    while v <= n && p + v < |s| && IsCont(s[p + v])
      invariant 1 <= v <= n + 1 && p + v <= |s| && Run(t, 1, n) == Run(t, v, n)
      invariant forall i :: 1 <= i < v ==> IsCont(t[i])
    {
      v := v + 1;
    }
    if n != 5 && n != 6 && v == n && IsShortest(s[p..], n) && !IsSurrogate(s[p..], n) && !IsIllegal(s[p..], n) {
      buf.Append(s[p..p + n]);
      assert t[..n] == s[p..p + n];
    } else {
      buf.PutChar(QUESTION);
    }
  }

  /** One round of the loop of utf8 */
  method SanitizeOne(s: seq<Byte>, o: nat, buf: Buffer) returns (v: nat)
    requires o < |s| && buf.Valid()
    modifies buf, buf.data
    ensures buf.Valid() && (buf.data == old(buf.data) || fresh(buf.data))
    ensures v == Validated(s[o..]).1 && buf.Contents() == old(buf.Contents()) + Validated(s[o..]).0
  {
    if IsAscii(s[o]) {
      AsciiIsKept(s[o..]);
      buf.PutChar(s[o]);
      v := 1;
    } else {
      v := Validate(s, o, buf);
    }
  }

  /** utf8 */
  method Utf8(s: seq<Byte>) returns (r: seq<Byte>)
    ensures r == Sanitized(s)
  {
    hide Validated, Sanitized;
    var buf := new Buffer(|s|);
    var o := 0;
    assert s[0..] == s && [] + Sanitized(s) == Sanitized(s);
    while o < |s|
      invariant o <= |s| && buf.Valid() && fresh(buf) && fresh(buf.data)
      invariant buf.Contents() + Sanitized(s[o..]) == Sanitized(s)
    {
      ghost var t, done := s[o..], buf.Contents();
      SanitizedUnfolds(t);
      var v := SanitizeOne(s, o, buf);
      assert t[v..] == s[o + v..];
      Regroup(done, Validated(t).0, Sanitized(t[v..]));
      o := o + v;
    }
    SanitizedUnfolds(s[|s|..]);
    assert s[|s|..] == [] && buf.Contents() + [] == buf.Contents();
    r := Destroy(buf);
  }

  lemma Regroup(a: seq<Byte>, b: seq<Byte>, c: seq<Byte>)
    ensures a + (b + c) == (a + b) + c
  {
  }

  lemma SanitizedUnfolds(s: seq<Byte>)
    ensures Sanitized(s) == if s == [] then [] else Validated(s).0 + Sanitized(s[Validated(s).1..])
  {
  }

  lemma EscapedUnfolds(s: seq<Byte>)
    ensures Escaped([]) == []
    ensures s != [] ==>
      Escaped(s) == if IsDropped(s[0]) then Escaped(s[1..])
                    else if IsMarkup(s[0]) then Reference(s[0]) + Escaped(s[1..])
                    else if s[0] <= 0x7F then [s[0]] + Escaped(s[1..])
                    else Validated(s).0 + Escaped(s[Validated(s).1..])
  {
  }

  /** pcdata */
  method Pcdata(s: seq<Byte>) returns (r: seq<Byte>)
    ensures r == Escaped(s) && IsEscaped(r)
  {
    hide Validated, Escaped, Reference, IsEscaped;
    var buf := new Buffer(|s|);
    var o := 0;
    while o < |s|
      invariant o <= |s| && buf.Valid() && fresh(buf) && fresh(buf.data)
      invariant buf.Contents() + Escaped(s[o..]) == Escaped(s)
    {
      ghost var t, done := s[o..], buf.Contents();
      assert t[1..] == s[o + 1..];
      EscapedUnfolds(t);
      if IsDropped(s[o]) {
        o := o + 1;
      } else if IsMarkup(s[o]) {
        Regroup(done, Reference(s[o]), Escaped(t[1..]));
        buf.Append(Reference(s[o]));
        o := o + 1;
      } else if s[o] <= 0x7F {
        Regroup(done, [s[o]], Escaped(t[1..]));
        buf.PutChar(s[o]);
        o := o + 1;
      } else {
        var v := Validate(s, o, buf);
        assert t[v..] == s[o + v..];
        Regroup(done, Validated(t).0, Escaped(t[v..]));
        o := o + v;
      }
    }
    EscapedUnfolds(s[|s|..]);
    assert s[|s|..] == [] && buf.Contents() + [] == buf.Contents();
    OutputIsEscaped(s);
    r := Destroy(buf);
  }
}
