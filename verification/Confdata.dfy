/** The configuration file: what is written for a symbol (openwrt/scripts/config/confdata.c:491-511, 632-651,
    symbol.c:920-961) and what is made of it when read back (confdata.c:126-194, 323-378,
    symbol.c:557-598). */
module KConfdata {
  import opened KExpr

  const PREFIX: string := "CONFIG_"

  // -------------------------------------------------------------- texts

  predicate Special(c: char) { c == '"' || c == '\\' }

  function EscapedBody(s: string): string {
    if s == [] then [] else (if Special(s[0]) then ['\\', s[0]] else [s[0]]) + EscapedBody(s[1..])
  }

  function Escaped(s: string): string { ['"'] + EscapedBody(s) + ['"'] }

  /** How many characters need a backslash. */
  function Specials(s: string): nat {
    if s == [] then 0 else (if Special(s[0]) then 1 else 0) + Specials(s[1..])
  }

  lemma {:induction false} EscapedConcat(a: string, b: string)
    ensures EscapedBody(a + b) == EscapedBody(a) + EscapedBody(b) && Specials(a + b) == Specials(a) + Specials(b)
  {
    if a == [] {
      assert a + b == b;
    } else {
      assert (a + b)[1..] == a[1..] + b;
      EscapedConcat(a[1..], b);
    }
  }

  lemma {:induction false} NothingSpecial(s: string)
    requires forall i :: 0 <= i < |s| ==> !Special(s[i])
    ensures EscapedBody(s) == s && Specials(s) == 0
  {
    if s != [] { NothingSpecial(s[1..]); }
  }

  /** strcspn(p, "\"\\") */
  method PlainLength(s: string, p: nat) returns (l: nat)
    requires p <= |s|
    ensures p + l <= |s| && (forall i :: p <= i < p + l ==> !Special(s[i])) && (p + l < |s| ==> Special(s[p + l]))
  {
    l := 0;
    while p + l < |s| && !Special(s[p + l])
      invariant p + l <= |s| && forall i :: p <= i < p + l ==> !Special(s[i])
    {
      l := l + 1;
    }
  }

  lemma PlainThenSpecial(s: string, p: nat, l: nat)
    requires p + l <= |s| && forall i :: p <= i < p + l ==> !Special(s[i])
    ensures EscapedBody(s[..p + l]) == EscapedBody(s[..p]) + s[p..p + l] && Specials(s[..p + l]) == Specials(s[..p])
    ensures p + l < |s| && Special(s[p + l]) ==>
      && EscapedBody(s[..p + l + 1]) == EscapedBody(s[..p + l]) + ['\\', s[p + l]]
      && Specials(s[..p + l + 1]) == Specials(s[..p]) + 1
  {
    NothingSpecial(s[p..p + l]);
    assert s[..p + l] == s[..p] + s[p..p + l];
    EscapedConcat(s[..p], s[p..p + l]);
    if p + l < |s| {
      var one := [s[p + l]];
      assert s[..p + l + 1] == s[..p + l] + one;
      assert one[1..] == [];
      EscapedConcat(s[..p + l], one);
    }
  }

  /** The first loop of sym_escape_string_value: the size to allocate */
  method EscapeLength(s: string) returns (reslen: nat)
    ensures reslen == |s| + 3 + Specials(s)
  {
    hide Special, EscapedBody;
    reslen := |s| + 2 + 1;
    var p := 0;
    while true
      invariant p <= |s| && reslen == |s| + 3 + Specials(s[..p])
      decreases |s| - p
    {
      var l := PlainLength(s, p);
      PlainThenSpecial(s, p, l);
      p := p + l;
      if p == |s| { break; }
      reslen, p := reslen + 1, p + 1;
    }
    assert s[..|s|] == s;
  }

  /** sym_escape_string_value: the allocated size is exactly what the result and its
      terminator need. */
  method Escape(s: string) returns (res: string, reslen: nat)
    ensures res == Escaped(s) && reslen == |res| + 1
  {
    hide Special, EscapedBody, Specials;
    reslen := EscapeLength(s);
    res := ['"'];
    var p := 0;
    EmptyEscaped(s);
    while true
      invariant p <= |s| && res == ['"'] + EscapedBody(s[..p])
      decreases |s| - p
    {
      var l := PlainLength(s, p);
      PlainThenSpecial(s, p, l);
      res := res + s[p..p + l];
      p := p + l;
      assert res == ['"'] + EscapedBody(s[..p]);
      if p == |s| { break; }
      res := res + ['\\'];
      res := res + [s[p]];
      p := p + 1;
      assert res == ['"'] + EscapedBody(s[..p]);
    }
    EscapedSize(s);
    assert s[..|s|] == s;
    res := res + ['"'];
  }

  lemma EmptyEscaped(s: string)
    ensures EscapedBody(s[..0]) == []
  {
  }

  lemma {:induction false} EscapedSize(s: string)
    ensures |EscapedBody(s)| == |s| + Specials(s)
  {
    if s != [] { EscapedSize(s[1..]); }
  }

  // -------------------------------------------------- reading a string back

  /** What the reader finds after the opening quote: a closed string, or no closing quote. */
  datatype Quoted = Closed(text: string) | Open

  function Unescaped(s: string): Quoted {
    if s == [] then Open
    else if s[0] == '"' then Closed([])
    else if s[0] == '\\' then
      if |s| == 1 then Open
      else match Unescaped(s[2..]) case Closed(t) => Closed([s[1]] + t) case Open => Open
    else match Unescaped(s[1..]) case Closed(t) => Closed([s[0]] + t) case Open => Open
  }

  function Prepend(a: string, q: Quoted): Quoted { if q.Closed? then Closed(a + q.text) else q }

  /** Every string comes back as it was. */
  lemma {:induction false} EscapeRoundTrip(s: string, rest: string)
    ensures Unescaped(EscapedBody(s) + ['"'] + rest) == Closed(s)
  {
    var e := EscapedBody(s) + ['"'] + rest;
    if s == [] {
      assert e[0] == '"';
    } else {
      EscapeRoundTrip(s[1..], rest);
      var tail := EscapedBody(s[1..]) + ['"'] + rest;
      if Special(s[0]) {
        assert e[0] == '\\' && e[1] == s[0] && e[2..] == tail;
        UnescapedStep(e);
      } else {
        assert e[0] == s[0] && e[1..] == tail;
      }
      assert [s[0]] + s[1..] == s;
    }
  }

  /** How many backslashes stand before position i. */
  function Backslashes(s: string, i: nat): (n: nat)
    requires i <= |s|
    ensures n <= i
  {
    if i > 0 && s[i - 1] == '\\' then 1 + Backslashes(s, i - 1) else 0
  }

  /** Whether a backslash takes the character at i. */
  predicate Taken(s: string, i: nat)
    requires i <= |s|
  {
    Backslashes(s, i) % 2 == 1
  }

  ghost predicate QuotesTaken(s: string) { forall i :: 0 <= i < |s| && s[i] == '"' ==> Taken(s, i) }

  lemma {:induction false} BackslashesBehind(s: string, k: nat, i: nat)
    requires k <= i <= |s|
    ensures Backslashes(s, i) == if Backslashes(s[k..], i - k) < i - k then Backslashes(s[k..], i - k)
                                 else i - k + Backslashes(s, k)
  {
    if i > k {
      assert s[k..][i - k - 1] == s[i - 1];
      BackslashesBehind(s, k, i - 1);
    }
  }

  /** Behind a plain character, or behind a pair, the count starts anew. */
  lemma TakenBehind(s: string, i: nat)
    ensures 1 <= i <= |s| && s[0] != '\\' ==> (Taken(s, i) <==> Taken(s[1..], i - 1))
    ensures 2 <= i <= |s| && s[0] == '\\' ==> (Taken(s, i) <==> Taken(s[2..], i - 2))
  {
    if 1 <= i <= |s| && s[0] != '\\' {
      BackslashesBehind(s, 1, i);
    }
    if 2 <= i <= |s| && s[0] == '\\' {
      BackslashesBehind(s, 2, i);
      PairBefore(s);
    }
  }

  lemma PairBefore(s: string)
    requires |s| >= 2 && s[0] == '\\'
    ensures Backslashes(s, 1) == 1 && (Backslashes(s, 2) == 0 || Backslashes(s, 2) == 2)
  {
  }

  /** A string is closed exactly by a quote that no backslash takes. */
  lemma {:induction false} UnescapedExactly(s: string)
    ensures Unescaped(s).Closed? <==> !QuotesTaken(s)
  {
    if s == [] {
    } else if s[0] == '"' {
      assert !Taken(s, 0);
    } else if s[0] != '\\' {
      UnescapedExactly(s[1..]);
      Tail(s, 1);
    } else if |s| > 1 {
      UnescapedExactly(s[2..]);
      PairBefore(s);
      Tail(s, 2);
    }
  }

  /** The rest of the text says the same. */
  lemma Tail(s: string, k: nat)
    requires k <= |s| && s != [] && s[0] != '"' && k == (if s[0] == '\\' then 2 else 1)
    ensures QuotesTaken(s) <==> QuotesTaken(s[k..])
  {
    if s[0] == '\\' { PairBefore(s); }
    assert k == 2 ==> Taken(s, 1);
    hide Taken, Backslashes;
    var t := s[k..];
    if QuotesTaken(s) {
      forall j | 0 <= j < |t| && t[j] == '"'
        ensures Taken(t, j)
      {
        TakenBehind(s, j + k);
        assert s[j + k] == '"';
      }
    }
    if QuotesTaken(t) {
      forall i | 0 <= i < |s| && s[i] == '"'
        ensures Taken(s, i)
      {
        if i >= k {
          TakenBehind(s, i);
          assert t[i - k] == '"';
        }
      }
    }
  }

  // ------------------------------------------------- the line, in place

  /** The text at p in a buffer, up to its terminator at `end`. */
  ghost predicate Text(buf: array<char>, p: nat, end: nat)
    reads buf
  {
    p <= end < buf.Length && buf[end] == '\0' && forall i :: p <= i < end ==> buf[i] != '\0'
  }

  /** memmove(p2, p2 + 1, strlen(p2)): the text loses its first character; the old terminator
      stays where it was. */
  method DropFirst(buf: array<char>, p2: nat, ghost end: nat)
    requires Text(buf, p2, end) && p2 < end
    modifies buf
    ensures Text(buf, p2, end - 1) && buf[p2..end - 1] == old(buf[p2 + 1..end]) && buf[..p2] == old(buf[..p2])
    ensures forall k :: end <= k < buf.Length ==> buf[k] == old(buf[k])
  {
    var i := p2;
    while buf[i] != '\0'
      invariant p2 <= i <= end && buf[..p2] == old(buf[..p2])
      invariant forall k :: p2 <= k < i ==> buf[k] == old(buf[k + 1])
      invariant forall k :: i <= k < buf.Length ==> buf[k] == old(buf[k])
      decreases end - i
    {
      buf[i] := buf[i + 1];
      i := i + 1;
    }
    ghost var after, before := buf[p2..end - 1], old(buf[p2 + 1..end]);
    forall k | 0 <= k < |after|
      ensures after[k] == before[k]
    {
      assert buf[p2 + k] == old(buf[p2 + k + 1]);
    }
  }

  /** strpbrk(p2, "\"\\") */
  method FindSpecial(buf: array<char>, p2: nat, ghost end: nat) returns (q: nat)
    requires Text(buf, p2, end)
    ensures p2 <= q <= end && (forall i :: p2 <= i < q ==> !Special(buf[i])) && (q < end ==> Special(buf[q]))
  {
    q := p2;
    while buf[q] != '\0' && !Special(buf[q])
      invariant p2 <= q <= end && forall i :: p2 <= i < q ==> !Special(buf[i])
      decreases end - q
    {
      q := q + 1;
    }
  }

  lemma {:induction false} UnescapedPlain(x: string, y: string)
    requires forall i :: 0 <= i < |x| ==> !Special(x[i])
    ensures Unescaped(x + y) == Prepend(x, Unescaped(y))
  {
    if x == [] {
      assert x + y == y;
      NothingDone(Unescaped(y));
    } else {
      assert (x + y)[0] == x[0] && (x + y)[1..] == x[1..] + y;
      UnescapedPlain(x[1..], y);
      PrependTwice([x[0]], x[1..], Unescaped(y));
      assert [x[0]] + x[1..] == x;
    }
  }

  lemma PrependTwice(a: string, b: string, q: Quoted)
    ensures Prepend(a, Prepend(b, q)) == Prepend(a + b, q)
  {
    if q.Closed? { assert a + (b + q.text) == (a + b) + q.text; }
  }

  lemma UnescapedStep(z: string)
    requires |z| >= 2 && z[0] == '\\'
    ensures Unescaped(z) == Prepend([z[1]], Unescaped(z[2..]))
  {
  }

  /** One round of that loop from p2, up to the special character at q. */
  lemma UpToSpecial(done: string, z: string, l: nat)
    requires l <= |z| && forall i :: 0 <= i < l ==> !Special(z[i])
    ensures Prepend(done, Unescaped(z)) == Prepend(done + z[..l], Unescaped(z[l..]))
    ensures |z| >= l + 2 && z[l] == '\\' ==>
      Prepend(done, Unescaped(z)) == Prepend(done + z[..l] + [z[l + 1]], Unescaped(z[l + 2..]))
  {
    assert z == z[..l] + z[l..];
    UnescapedPlain(z[..l], z[l..]);
    PrependTwice(done, z[..l], Unescaped(z[l..]));
    if |z| >= l + 2 && z[l] == '\\' {
      UnescapedStep(z[l..]);
      assert z[l..][2..] == z[l + 2..];
      PrependTwice(done + z[..l], [z[l + 1]], Unescaped(z[l + 2..]));
    }
  }

  /** The loop of conf_set_sym_val that takes the backslashes out of a quoted string and ends
      it at the closing quote.  It stays at or before the terminator the text had, which may be
      the last character of the buffer: a backslash at the end leaves two terminators, and the
      loop goes on at the old one. */
  method UnescapeInPlace(buf: array<char>, p: nat, ghost end: nat) returns (r: Quoted)
    requires Text(buf, p, end)
    modifies buf
    ensures r == Unescaped(old(buf[p..end]))
    ensures r.Closed? ==> p + |r.text| <= end && buf[p..p + |r.text|] == r.text && buf[p + |r.text|] == '\0'
    ensures buf[..p] == old(buf[..p]) && forall k :: end <= k < buf.Length ==> buf[k] == old(buf[k])
  {
    hide Unescaped, Prepend, Special;
    SpecialCharacters();
    ghost var all, e := Unescaped(buf[p..end]), end;
    var p2 := p;
    NothingDone(Unescaped(buf[p..end]));
    assert buf[p..p] == [];
    while true
      invariant p <= p2 <= e <= end && Text(buf, p2, e) && buf[..p] == old(buf[..p])
      invariant forall k :: end <= k < buf.Length ==> buf[k] == old(buf[k])
      invariant all == Prepend(buf[p..p2], Unescaped(buf[p2..e]))
      decreases e - p2
    {
      var q := FindSpecial(buf, p2, e);
      Cut(buf[..], p, p2, q, e);
      UpToSpecial(buf[p..p2], buf[p2..e], q - p2);
      SpecialEnds(buf[q..e]);
      PrependEnds(buf[p..q]);
      if buf[q] == '\0' { return Open; }
      if buf[q] == '"' {
        r := Closed(buf[p..q]);
        buf[q] := '\0';
        return;
      }
      assert q + 1 == e ==> all == Open;
      KeepEscaped(buf, p, p2, q, e);
      if q + 1 < e {
        e := e - 1;
      } else {
        NothingLeft(buf[p..e]);
        assert buf[q + 1..e] == [];
      }
      p2 := q + 1;
    }
  }

  /** The backslash at q goes, and the character after it stays. */
  method KeepEscaped(buf: array<char>, ghost p: nat, ghost p2: nat, q: nat, ghost e: nat)
    requires p <= p2 <= q < e && Text(buf, p2, e)
    modifies buf
    ensures buf[..p] == old(buf[..p]) && forall k :: e <= k < buf.Length ==> buf[k] == old(buf[k])
    ensures q + 1 < e ==>
      && Text(buf, q + 1, e - 1) && buf[q + 1..e - 1] == old(buf[q + 2..e])
      && buf[p..q + 1] == old(buf[p..q] + [buf[q + 1]])
  {
    DropFirst(buf, q, e);
    assert buf[..p] == buf[..q][..p] && old(buf[..p]) == old(buf[..q])[..p];
    if q + 1 < e {
      assert buf[q..e - 1][0] == buf[q] && old(buf[q + 1..e])[0] == old(buf[q + 1]);
      assert buf[q..e - 1][1..] == buf[q + 1..e - 1] && old(buf[q + 1..e])[1..] == old(buf[q + 2..e]);
      assert buf[p..q] == buf[..q][p..] && old(buf[p..q]) == old(buf[..q])[p..];
      assert buf[p..q + 1] == buf[p..q] + [buf[q]];
    }
  }

  lemma NothingLeft(a: string)
    ensures Prepend(a, Unescaped([])) == Open
  {
  }

  lemma Cut(s: string, p: nat, p2: nat, q: nat, e: nat)
    requires p <= p2 <= q <= e <= |s|
    ensures s[p..p2] + s[p2..e][..q - p2] == s[p..q] && s[p2..e][q - p2..] == s[q..e]
    ensures q + 1 < e ==> s[p2..e][q + 1 - p2] == s[q + 1] && s[p2..e][q + 2 - p2..] == s[q + 2..e]
    ensures q < e ==> s[p2..e][q - p2] == s[q]
  {
  }

  lemma NothingDone(q: Quoted)
    ensures Prepend([], q) == q
  {
    if q.Closed? { assert [] + q.text == q.text; }
  }

  lemma PrependEnds(a: string)
    ensures Prepend(a, Open) == Open && Prepend(a, Closed([])) == Closed(a)
  {
    assert a + [] == a;
  }

  lemma SpecialCharacters()
    ensures forall c :: Special(c) ==> c == '"' || c == '\\'
  {
  }

  lemma SpecialEnds(z: string)
    ensures z == [] ==> Unescaped(z) == Open
    ensures z != [] && z[0] == '"' ==> Unescaped(z) == Closed([])
    ensures |z| == 1 && z[0] == '\\' ==> Unescaped(z) == Open
  {
  }

  // ------------------------------------------------------ valid values

  predicate IsDigit(c: char) { '0' <= c <= '9' }

  predicate IsXDigit(c: char) { IsDigit(c) || 'a' <= c <= 'f' || 'A' <= c <= 'F' }

  function SignSkip(s: string): (n: nat)
    ensures n <= |s|
  {
    if s != [] && s[0] == '-' then 1 else 0
  }

  function PrefixSkip(s: string): (n: nat)
    ensures n <= |s|
  {
    if |s| >= 2 && s[0] == '0' && (s[1] == 'x' || s[1] == 'X') then 2 else 0
  }

  /** An optional sign, and a decimal number without leading zeros. */
  predicate ValidInt(s: string) {
    && SignSkip(s) < |s| && (forall i :: SignSkip(s) <= i < |s| ==> IsDigit(s[i]))
    && (s[SignSkip(s)] == '0' ==> |s| == SignSkip(s) + 1)
  }

  /** Hexadecimal digits, with or without 0x. */
  predicate ValidHex(s: string) {
    PrefixSkip(s) < |s| && forall i :: PrefixSkip(s) <= i < |s| ==> IsXDigit(s[i])
  }

  predicate ValidText(kind: SymType, s: string) {
    match kind
    case Str => true
    case Int => ValidInt(s)
    case Hex => ValidHex(s)
    case Boolean | Tristate => s != [] && s[0] in "yYmMnN"
    case Unknown | Other => false
  }

  function Digit(d: nat): (c: char)
    requires d < 10
    ensures IsDigit(c)
  {
    ('0' as int + d) as char
  }

  /** A number in decimal */
  function Decimal(n: nat): (s: string)
    ensures s != []
  {
    if n < 10 then [Digit(n)] else Decimal(n / 10) + [Digit(n % 10)]
  }

  lemma {:induction false} DecimalDigits(n: nat)
    ensures forall i :: 0 <= i < |Decimal(n)| ==> IsDigit(Decimal(n)[i])
    ensures n > 0 ==> Decimal(n)[0] != '0'
  {
    if n >= 10 { DecimalDigits(n / 10); }
  }

  /** Digits without a leading zero are the decimal form of a number. */
  lemma {:induction false} DigitsAreDecimal(s: string) returns (n: nat)
    requires s != [] && (forall i :: 0 <= i < |s| ==> IsDigit(s[i])) && (s[0] == '0' ==> |s| == 1)
    ensures Decimal(n) == s && (s[0] != '0' ==> n > 0)
  {
    var d := s[|s| - 1] as int - '0' as int;
    if |s| == 1 {
      n := d;
    } else {
      var front := s[..|s| - 1];
      n := DigitsAreDecimal(front);
      assert s == front + [Digit(d)];
      n := 10 * n + d;
    }
  }

  function Signed(neg: bool): string { if neg then "-" else "" }

  /** Whole numbers are valid in decimal form, with or without a minus sign, and nothing else
      is; the sign is accepted before a zero too. */
  lemma ValidIntExactly(s: string)
    ensures ValidText(Int, s) <==> exists neg, n: nat :: s == Signed(neg) + Decimal(n)
  {
    if ValidInt(s) {
      var k := SignSkip(s);
      var n := DigitsAreDecimal(s[k..]);
      assert s == Signed(k == 1) + Decimal(n);
    }
    if neg, n: nat :| s == Signed(neg) + Decimal(n) {
      DecimalDigits(n);
      var t := Decimal(n);
      assert s[|Signed(neg)|..] == t;
      assert !neg ==> s == t;
      assert t[0] == '0' ==> n == 0;
      assert neg ==> s[0] == '-' && forall i :: 0 <= i < |t| ==> s[i + 1] == t[i];
      assert SignSkip(s) == |Signed(neg)|;
    }
  }

  const HEX_DIGITS: set<char> :=
    {'0', '1', '2', '3', '4', '5', '6', '7', '8', '9',
     'a', 'b', 'c', 'd', 'e', 'f', 'A', 'B', 'C', 'D', 'E', 'F'}

  lemma HexDigit(c: char)
    ensures IsXDigit(c) <==> c in HEX_DIGITS
  {
  }

  ghost predicate HexDigits(s: string) { s != [] && forall i :: 0 <= i < |s| ==> s[i] in HEX_DIGITS }

  /** Hexadecimal digits are valid, on their own or behind 0x or 0X, and nothing else is. */
  lemma ValidHexExactly(s: string)
    ensures ValidText(Hex, s) <==>
              HexDigits(s) || (|s| > 2 && (s[..2] == "0x" || s[..2] == "0X") && HexDigits(s[2..]))
  {
    forall c: char
      ensures IsXDigit(c) <==> c in HEX_DIGITS
    {
      HexDigit(c);
    }
    hide IsXDigit, HEX_DIGITS;
    assert 'x' !in HEX_DIGITS && 'X' !in HEX_DIGITS by { NoHexDigit(); }
    if PrefixSkip(s) == 2 {
      assert s[..2] == ['0', s[1]];
      assert !HexDigits(s);
    }
  }

  lemma NoHexDigit()
    ensures 'x' !in HEX_DIGITS && 'X' !in HEX_DIGITS
  {
  }

  /** sym_string_valid, character by character up to the terminator */
  method StringValid(kind: SymType, buf: array<char>, p: nat, ghost end: nat) returns (ok: bool)
    requires Text(buf, p, end)
    ensures ok <==> ValidText(kind, buf[p..end])
  {
    ghost var s := buf[p..end];
    match kind
    case Str => ok := true;
    case Int =>
      var q := p;
      if buf[q] == '-' { q := q + 1; }
      assert q - p == SignSkip(s) && forall i :: p <= i < end ==> buf[i] == s[i - p];
      ok := IsDigit(buf[q]) && !(buf[q] == '0' && buf[q + 1] != '\0');
      if ok { ok := AllFrom(IsDigit, buf, q, end); }
    case Hex =>
      var q := p;
      if buf[q] == '0' && (buf[q + 1] == 'x' || buf[q + 1] == 'X') { q := q + 2; }
      assert q - p == PrefixSkip(s) && forall i :: p <= i < end ==> buf[i] == s[i - p];
      ok := IsXDigit(buf[q]);
      if ok { ok := AllFrom(IsXDigit, buf, q, end); }
    case Boolean | Tristate =>
      ok := buf[p] in "yYmMnN";
    case Unknown | Other => ok := false;
  }

  method AllFrom(good: char -> bool, buf: array<char>, p: nat, ghost end: nat) returns (ok: bool)
    requires Text(buf, p, end)
    ensures ok <==> forall i :: p <= i < end ==> good(buf[i])
  {
    var q := p;
    while buf[q] != '\0'
      invariant p <= q <= end && forall i :: p <= i < q ==> good(buf[i])
      decreases end - q
    {
      if !good(buf[q]) { return false; }
      q := q + 1;
    }
    ok := true;
  }

  // ------------------------------------------------------ storing a value

  datatype Stored = StoredTri(tri: Tri) | StoredText(text: string)

  /** What a line does: the user's value of a symbol is set, or the line is refused, or it has
      no effect, or it names no symbol. */
  datatype Outcome = Set(name: string, value: Stored) | Refused | NoEffect | NoSymbol

  /** conf_set_sym_val of a user's value */
  function SetValue(name: string, kind: SymType, p: string): Outcome {
    match kind
    case Boolean | Tristate =>
      if p == [] then Refused
      else if p[0] == 'm' && kind.Tristate? then Set(name, StoredTri(MOD))
      else if p[0] == 'y' then Set(name, StoredTri(YES))
      else if p[0] == 'n' then Set(name, StoredTri(NO))
      else Refused
    case Str =>
      if p == [] || p[0] != '"' then NoEffect
      else
        (match Unescaped(p[1..])
         case Closed(t) => Set(name, StoredText(t))
         case Open => Refused)
    case Int | Hex => if ValidText(kind, p) then Set(name, StoredText(p)) else Refused
    case Other | Unknown => NoEffect
  }

  /** conf_set_sym_val, on the line buffer */
  method SetSymVal(name: string, kind: SymType, buf: array<char>, p: nat, ghost end: nat) returns (r: Outcome)
    requires Text(buf, p, end)
    modifies buf
    ensures r == SetValue(name, kind, old(buf[p..end]))
    ensures buf[..p] == old(buf[..p]) && forall k :: end <= k < buf.Length ==> buf[k] == old(buf[k])
  {
    if kind.Tristate? && buf[p] == 'm' { return Set(name, StoredTri(MOD)); }
    if kind.Tristate? || kind.Boolean? {
      if buf[p] == 'y' { return Set(name, StoredTri(YES)); }
      if buf[p] == 'n' { return Set(name, StoredTri(NO)); }
      return Refused;
    }
    if kind.Str? {
      if buf[p] != '"' { return NoEffect; }
      assert buf[p..end][1..] == buf[p + 1..end];
      var q := UnescapeInPlace(buf, p + 1, end);
      if q.Open? { return Refused; }
      return Set(name, StoredText(q.text));
    }
    if kind.Int? || kind.Hex? {
      var ok := StringValid(kind, buf, p, end);
      if !ok { return Refused; }
      var text := ReadText(buf, p, end);
      return Set(name, StoredText(text));
    }
    return NoEffect;
  }

  /** strdup */
  method ReadText(buf: array<char>, p: nat, ghost end: nat) returns (s: string)
    requires Text(buf, p, end)
    ensures s == buf[p..end]
  {
    var q := p;
    s := [];
    while buf[q] != '\0'
      invariant p <= q <= end && s == buf[p..q]
      decreases end - q
    {
      s := s + [buf[q]];
      q := q + 1;
    }
  }

  // ------------------------------------------------------ writing a line

  /** kconfig_print_symbol */
  function LineOf(kind: SymType, name: string, value: string): string {
    if (kind.Boolean? || kind.Tristate?) && value != [] && value[0] == 'n' then
      "# " + PREFIX + name + " is not set\n"
    else PREFIX + name + "=" + value + "\n"
  }

  /** conf_write_symbol: strings are quoted, the other values written as they are. */
  function Written(kind: SymType, name: string, value: Stored): string {
    if kind.Unknown? || kind.Other? then []
    else if value.StoredTri? then LineOf(kind, name, TriText(value.tri))
    else LineOf(kind, name, if kind.Str? then Escaped(value.text) else value.text)
  }

  // ------------------------------------------------------ reading a line

  /** strchr(line + i, c) */
  function IndexOf(line: string, i: nat, c: char): (k: nat)
    requires i <= |line|
    ensures i <= k <= |line| && (k < |line| ==> line[k] == c) && forall j :: i <= j < k ==> line[j] != c
    decreases |line| - i
  {
    if i == |line| || line[i] == c then i else IndexOf(line, i + 1, c)
  }

  predicate Matches(line: string, i: nat, t: string) { i + |t| <= |line| && line[i..i + |t|] == t }

  /** The value of an assignment: up to the newline, without a carriage return. */
  function Chomp(p: string): string {
    var v := p[..IndexOf(p, 0, '\n')];
    if |v| < |p| && v != [] && v[|v| - 1] == '\r' then v[..|v| - 1] else v
  }

  /** "# CONFIG_... is not set" */
  function ReadComment(kinds: map<string, SymType>, line: string): Outcome {
    if !Matches(line, 2, PREFIX) then NoEffect
    else
      var p := IndexOf(line, 9, ' ');
      if p == |line| || !Matches(line, p + 1, "is not set") then NoEffect
      else if line[9..p] !in kinds then NoSymbol
      else
        var kind := kinds[line[9..p]];
        if kind.Boolean? || kind.Tristate? then Set(line[9..p], StoredTri(NO)) else NoEffect
  }

  /** "CONFIG_...=..." */
  function ReadAssignment(kinds: map<string, SymType>, line: string): Outcome {
    if !Matches(line, 0, PREFIX) then NoEffect
    else
      var p := IndexOf(line, 7, '=');
      if p == |line| then NoEffect
      else if line[7..p] !in kinds then NoSymbol
      else SetValue(line[7..p], kinds[line[7..p]], Chomp(line[p + 1..]))
  }

  /** One round of the loop of conf_read_simple, for the user's configuration. */
  function ReadLine(kinds: map<string, SymType>, line: string): Outcome {
    if line == [] then NoEffect
    else if line[0] == '#' then ReadComment(kinds, line)
    else ReadAssignment(kinds, line)
  }

  /** A quoted value is refused exactly when every quote in it is taken by a backslash, whatever
      it ends in. */
  lemma QuotedRefusedExactly(name: string, p: string)
    requires p != [] && p[0] == '"'
    ensures SetValue(name, Str, p) == Refused <==> QuotesTaken(p[1..])
  {
    UnescapedExactly(p[1..]);
  }

  // ------------------------------------------------------- the round trip

  /** Names of configuration symbols. */
  predicate PlainName(name: string) { ' ' !in name && '=' !in name }

  /** Values a symbol of this kind can have. */
  predicate Fits(kind: SymType, value: Stored) {
    if kind.Boolean? then value.StoredTri? && value.tri != MOD
    else if kind.Tristate? then value.StoredTri?
    else if kind.Int? || kind.Hex? then value.StoredText? && ValidText(kind, value.text)
    else kind.Str? && value.StoredText?
  }

  lemma IndexAfter(pre: string, mid: string, c: char, post: string)
    requires c !in mid
    ensures IndexOf(pre + mid + [c] + post, |pre|, c) == |pre| + |mid|
  {
    var line := pre + mid + [c] + post;
    assert line[|pre| + |mid|] == c;
    forall j | |pre| <= j < |pre| + |mid|
      ensures line[j] != c
    {
      assert line[j] == mid[j - |pre|] && mid[j - |pre|] in mid;
    }
  }

  /** Whatever follows, and also at the end of the file. */
  lemma UnsetLine(kinds: map<string, SymType>, name: string, rest: string)
    requires PlainName(name) && name in kinds && (kinds[name].Boolean? || kinds[name].Tristate?)
    ensures ReadLine(kinds, "# " + PREFIX + name + " is not set" + rest) == Set(name, StoredTri(NO))
  {
    var line := "# " + PREFIX + name + " is not set" + rest;
    var p := 9 + |name|;
    assert line == ("# " + PREFIX) + name + [' '] + ("is not set" + rest);
    IndexAfter("# " + PREFIX, name, ' ', "is not set" + rest);
    assert line[2..9] == PREFIX && line[9..p] == name && line[p] == ' ';
    assert line[p + 1..p + 11] == "is not set";
  }

  lemma AssignLine(kinds: map<string, SymType>, name: string, value: string)
    requires PlainName(name) && name in kinds
    ensures ReadLine(kinds, PREFIX + name + "=" + value + "\n") == SetValue(name, kinds[name], Chomp(value + "\n"))
  {
    var line := PREFIX + name + "=" + value + "\n";
    var p := 7 + |name|;
    assert line == PREFIX + name + ['='] + (value + "\n");
    IndexAfter(PREFIX, name, '=', value + "\n");
    assert line[0..7] == PREFIX && line[7..p] == name && line[p] == '=';
    assert line[p + 1..] == value + "\n";
  }

  lemma ChompAdds(value: string)
    requires '\n' !in value && (value != [] ==> value[|value| - 1] != '\r')
    ensures Chomp(value + "\n") == value
  {
    var p := value + "\n";
    assert p == [] + value + ['\n'] + [];
    IndexAfter([], value, '\n', []);
    assert p[..|value|] == value;
  }

  /** The end of a line is taken off in either form; without one nothing is. */
  lemma LineEndings(value: string, rest: string)
    requires '\n' !in value
    ensures Chomp(value) == value && Chomp(value + "\r\n" + rest) == value
    ensures value == [] || value[|value| - 1] != '\r' ==> Chomp(value + "\n" + rest) == value
  {
    assert IndexOf(value, 0, '\n') == |value|;
    var p := value + "\r\n" + rest;
    assert p == [] + (value + "\r") + ['\n'] + rest;
    IndexAfter([], value + "\r", '\n', rest);
    assert p[..|value| + 1] == value + "\r";
    var q := value + "\n" + rest;
    assert q == [] + value + ['\n'] + rest;
    IndexAfter([], value, '\n', rest);
    assert q[..|value|] == value;
  }

  /** What the value of an assignment does to a boolean or tristate symbol: only its first
      character counts. */
  lemma TriLine(kinds: map<string, SymType>, name: string, value: string)
    requires PlainName(name) && name in kinds && (kinds[name].Boolean? || kinds[name].Tristate?)
    requires '\n' !in value && (value != [] ==> value[|value| - 1] != '\r')
    ensures var r := ReadLine(kinds, PREFIX + name + "=" + value + "\n");
            && (value != [] && value[0] == 'y' ==> r == Set(name, StoredTri(YES)))
            && (value != [] && value[0] == 'n' ==> r == Set(name, StoredTri(NO)))
            && (value != [] && value[0] == 'm' ==>
                  r == if kinds[name].Tristate? then Set(name, StoredTri(MOD)) else Refused)
            && (value == [] || value[0] !in {'y', 'm', 'n'} ==> r == Refused)
  {
    hide ReadLine, Chomp;
    AssignLine(kinds, name, value);
    ChompAdds(value);
  }

  lemma {:induction false} EscapedNewline(s: string)
    ensures '\n' in EscapedBody(s) <==> '\n' in s
  {
    if s != [] {
      EscapedNewline(s[1..]);
      assert s == [s[0]] + s[1..];
    }
  }

  lemma DigitsAreOneLine(kind: SymType, s: string)
    requires (kind.Int? || kind.Hex?) && ValidText(kind, s)
    ensures s != [] && '\n' !in s && s[|s| - 1] != '\r'
  {
    forall i | 0 <= i < |s|
      ensures s[i] != '\n' && s[i] != '\r'
    {
    }
  }

  /** An escaped text with no quote behind it is never closed. */
  lemma {:induction false} NeverClosed(s: string)
    ensures Unescaped(EscapedBody(s)) == Open
  {
    if s != [] {
      NeverClosed(s[1..]);
      var e := EscapedBody(s[1..]);
      if Special(s[0]) {
        assert (['\\', s[0]] + e)[2..] == e;
      } else {
        assert ([s[0]] + e)[1..] == e;
      }
    }
  }

  /** Up to its first newline, an escaped text is an escaped text. */
  lemma CutAtNewline(s: string, n: nat)
    requires n < |s| && s[n] == '\n' && forall i :: 0 <= i < n ==> s[i] != '\n'
    ensures EscapedBody(s) == EscapedBody(s[..n]) + ['\n'] + EscapedBody(s[n + 1..])
    ensures '\n' !in EscapedBody(s[..n])
  {
    hide EscapedBody, Specials, Special;
    var front, rest := s[..n], s[n + 1..];
    assert '\n' !in front;
    EscapedNewline(front);
    CutApart(s, n);
    NewlineIsPlain();
    EscapedConcat(front, ['\n'] + rest);
    EscapedConcat(['\n'], rest);
    Associate(EscapedBody(front), ['\n'], EscapedBody(rest));
  }

  lemma CutApart(s: string, n: nat)
    requires n < |s|
    ensures s == s[..n] + ([s[n]] + s[n + 1..])
  {
  }

  lemma Associate(a: string, b: string, c: string)
    ensures a + (b + c) == a + b + c
  {
  }

  lemma NewlineIsPlain()
    ensures EscapedBody(['\n']) == ['\n']
  {
    assert ['\n'][1..] == [];
  }

  /** A carriage return at its end is the text's own. */
  lemma LastEscaped(x: string)
    requires x != []
    ensures EscapedBody(x) != [] && EscapedBody(x)[|EscapedBody(x)| - 1] == x[|x| - 1]
    ensures x[|x| - 1] == '\r' ==> EscapedBody(x) == EscapedBody(x[..|x| - 1]) + ['\r']
  {
    var one := [x[|x| - 1]];
    assert x == x[..|x| - 1] + one;
    assert one[1..] == [];
    EscapedConcat(x[..|x| - 1], one);
  }

  /** What is written for a symbol's value and read back sets that value. */
  lemma RoundTrip(kinds: map<string, SymType>, name: string, value: Stored)
    requires PlainName(name) && name in kinds && Fits(kinds[name], value)
    ensures value.StoredText? && '\n' in value.text ==> ReadLine(kinds, Written(kinds[name], name, value)) == Refused
    ensures !(value.StoredText? && '\n' in value.text) ==>
      ReadLine(kinds, Written(kinds[name], name, value)) == Set(name, value)
  {
    hide ReadLine, Written, ValidText;
    if value.StoredTri? {
      TriRoundTrip(kinds, name, value.tri);
    } else if kinds[name].Str? {
      hide Escaped, Chomp;
      AssignLine(kinds, name, Escaped(value.text));
      StringRoundTrip(name, value.text);
      WrittenText(Str, name, value.text);
    } else {
      NumberRoundTrip(kinds, name, value.text);
    }
  }

  lemma TriRoundTrip(kinds: map<string, SymType>, name: string, tri: Tri)
    requires PlainName(name) && name in kinds && Fits(kinds[name], StoredTri(tri))
    ensures ReadLine(kinds, Written(kinds[name], name, StoredTri(tri))) == Set(name, StoredTri(tri))
  {
    hide ReadLine, Chomp;
    if tri == NO {
      UnsetLine(kinds, name, "\n");
      assert "# " + PREFIX + name + " is not set\n" == "# " + PREFIX + name + " is not set" + "\n";
    } else {
      AssignLine(kinds, name, TriText(tri));
      ChompAdds(TriText(tri));
    }
  }

  lemma WrittenText(kind: SymType, name: string, text: string)
    requires kind.Str? || kind.Int? || kind.Hex?
    ensures Written(kind, name, StoredText(text))
         == PREFIX + name + "=" + (if kind.Str? then Escaped(text) else text) + "\n"
  {
  }

  lemma NumberRoundTrip(kinds: map<string, SymType>, name: string, text: string)
    requires PlainName(name) && name in kinds && (kinds[name].Int? || kinds[name].Hex?) && ValidText(kinds[name], text)
    ensures '\n' !in text
    ensures ReadLine(kinds, Written(kinds[name], name, StoredText(text))) == Set(name, StoredText(text))
  {
    hide ReadLine, Chomp, ValidText, Written;
    DigitsAreOneLine(kinds[name], text);
    AssignLine(kinds, name, text);
    ChompAdds(text);
    WrittenText(kinds[name], name, text);
  }

  lemma CutString(name: string, s: string)
    requires '\n' in s
    ensures SetValue(name, Str, Chomp(Escaped(s) + "\n")) == Refused
  {
    hide Unescaped, EscapedBody;
    var n := IndexOf(s, 0, '\n');
    CutAtNewline(s, n);
    NeverClosed(s[..n]);
    var cut, post := EscapedBody(s[..n]), EscapedBody(s[n + 1..]) + ['"'] + "\n";
    var line, quoted := Escaped(s) + "\n", ['"'] + cut;
    assert line == [] + quoted + ['\n'] + post;
    IndexAfter([], quoted, '\n', post);
    assert line[..|quoted|] == quoted;
    EmptyEscaped(s);
    if n > 0 { LastEscaped(s[..n]); }
    if quoted[|quoted| - 1] == '\r' {
      NeverClosed(s[..n - 1]);
      assert s[..n][..n - 1] == s[..n - 1];
      assert quoted[..|quoted| - 1] == ['"'] + EscapedBody(s[..n - 1]);
      assert (['"'] + EscapedBody(s[..n - 1]))[1..] == EscapedBody(s[..n - 1]);
    } else {
      assert quoted[1..] == cut;
    }
  }

  lemma StringRoundTrip(name: string, s: string)
    ensures SetValue(name, Str, Chomp(Escaped(s) + "\n")) == if '\n' in s then Refused else Set(name, StoredText(s))
  {
    hide Unescaped, EscapedBody, Chomp;
    if '\n' in s {
      CutString(name, s);
    } else {
      EscapedNewline(s);
      ChompAdds(Escaped(s));
      EscapeRoundTrip(s, []);
      assert Escaped(s)[1..] == EscapedBody(s) + ['"'] + [];
    }
  }

  // ------------------------------------------------------- the whole file

  /** Symbols with their values, in the order in which they are written. */
  function WriteAll(kinds: map<string, SymType>, syms: seq<(string, Stored)>): string
    requires forall i :: 0 <= i < |syms| ==> syms[i].0 in kinds
  {
    if syms == [] then []
    else Written(kinds[syms[0].0], syms[0].0, syms[0].1) + WriteAll(kinds, syms[1..])
  }

  function Applied(values: map<string, Stored>, r: Outcome): map<string, Stored> {
    if r.Set? then values[r.name := r.value] else values
  }

  /** The loop of conf_read_simple over the lines of a file. */
  function ReadAll(kinds: map<string, SymType>, text: string, values: map<string, Stored>): map<string, Stored>
    decreases |text|
  {
    if text == [] then values
    else
      var k := IndexOf(text, 0, '\n');
      var end := if k < |text| then k + 1 else k;
      ReadAll(kinds, text[end..], Applied(values, ReadLine(kinds, text[..end])))
  }

  function StoreAll(values: map<string, Stored>, syms: seq<(string, Stored)>): map<string, Stored>
    decreases |syms|
  {
    if syms == [] then values else StoreAll(values[syms[0].0 := syms[0].1], syms[1..])
  }

  /** A symbol whose line can be read back. */
  ghost predicate Writable(kinds: map<string, SymType>, sym: (string, Stored))
    requires sym.0 in kinds
  {
    && PlainName(sym.0) && '\n' !in sym.0 && Fits(kinds[sym.0], sym.1)
    && (sym.1.StoredText? ==> '\n' !in sym.1.text)
  }

  lemma WrittenIsOneLine(kinds: map<string, SymType>, sym: (string, Stored)) returns (body: string)
    requires sym.0 in kinds && Writable(kinds, sym)
    ensures Written(kinds[sym.0], sym.0, sym.1) == body + "\n" && '\n' !in body
  {
    var kind, name := kinds[sym.0], sym.0;
    if sym.1.StoredTri? {
      var t := TriText(sym.1.tri);
      body := if t == "n" then "# " + PREFIX + name + " is not set" else PREFIX + name + "=" + t;
    } else {
      var text := sym.1.text;
      EscapedNewline(text);
      body := PREFIX + name + "=" + if kind.Str? then Escaped(text) else text;
    }
  }

  /** Writing any list of symbols and reading the file gives every symbol the value it was
      written with last. */
  lemma {:induction false} FileRoundTrip(kinds: map<string, SymType>, syms: seq<(string, Stored)>,
                                         values: map<string, Stored>)
    requires forall i :: 0 <= i < |syms| ==> syms[i].0 in kinds && Writable(kinds, syms[i])
    ensures ReadAll(kinds, WriteAll(kinds, syms), values) == StoreAll(values, syms)
    decreases |syms|
  {
    hide ReadLine, Written, Fits, PlainName;
    if syms != [] {
      var (name, value) := syms[0];
      assert Writable(kinds, syms[0]);
      var line, rest := Written(kinds[name], name, value), WriteAll(kinds, syms[1..]);
      var body := WrittenIsOneLine(kinds, syms[0]);
      RoundTrip(kinds, name, value);
      assert line + rest == [] + body + ['\n'] + rest;
      IndexAfter([], body, '\n', rest);
      assert (line + rest)[..|body| + 1] == line && (line + rest)[|body| + 1..] == rest;
      FileRoundTrip(kinds, syms[1..], values[name := value]);
    }
  }
}
