/** The canonical form of a translation key (luci/modules/luci-base/src/template_lmo.c:72-98):
    keys that differ in white space only are looked up under the same hash. */
module LmoKey {
  import opened Bytes

  const SPACE: Byte := 0x20

  /** isspace */
  predicate IsSpace(c: Byte) { c == 0x20 || 0x09 <= c <= 0x0D }

  // ---------------------------------------------------------------- words

  function WordLength(s: seq<Byte>): (n: nat)
    ensures n <= |s| && (forall i :: 0 <= i < n ==> !IsSpace(s[i])) && (n < |s| ==> IsSpace(s[n]))
  {
    if s == [] || IsSpace(s[0]) then 0 else 1 + WordLength(s[1..])
  }

  function Words(s: seq<Byte>): seq<seq<Byte>>
    decreases |s|
  {
    if s == [] then []
    else if IsSpace(s[0]) then Words(s[1..])
    else [s[..WordLength(s)]] + Words(s[WordLength(s)..])
  }

  /** Words with one space between each two. */
  function Joined(ws: seq<seq<Byte>>): seq<Byte> {
    if ws == [] then [] else if |ws| == 1 then ws[0] else ws[0] + [SPACE] + Joined(ws[1..])
  }

  // ------------------------------------------------------------- the scan

  /** What the loop writes, after the character `prev`. */
  function Scanned(s: seq<Byte>, prev: Byte): seq<Byte> {
    if s == [] then []
    else Emitted(s[0], prev) + Scanned(s[1..], s[0])
  }

  function Trimmed(r: seq<Byte>): seq<Byte> { if r != [] && IsSpace(r[|r| - 1]) then r[..|r| - 1] else r }

  lemma ScannedStep(s: seq<Byte>, prev: Byte)
    requires s != []
    ensures Scanned(s, prev) == Emitted(s[0], prev) + Scanned(s[1..], s[0])
  {
  }

  /** What is written for one character. */
  function Emitted(c: Byte, prev: Byte): seq<Byte> {
    if !IsSpace(c) then [c] else if !IsSpace(prev) then [SPACE] else []
  }

  lemma Regroup(a: seq<Byte>, b: seq<Byte>, c: seq<Byte>)
    ensures a + (b + c) == (a + b) + c
  {
  }

  /** One round of the loop */
  method Emit(c: Byte, prev: Byte, res: array<Byte>, ptr: nat) returns (next: nat)
    requires ptr < res.Length
    modifies res
    ensures ptr <= next <= ptr + 1 && res[..next] == old(res[..ptr]) + Emitted(c, prev)
  {
    next := ptr;
    if IsSpace(c) {
      if !IsSpace(prev) {
        res[next] := SPACE;
        next := next + 1;
      }
    } else {
      res[next] := c;
      next := next + 1;
    }
  }

  /** The scan of lmo_canon_hash, into a buffer that is large enough */
  method Canonicalize(s: seq<Byte>, res: array<Byte>) returns (length: nat)
    requires |s| < res.Length
    modifies res
    ensures length <= |s| && res[..length] == Trimmed(Scanned(s, SPACE))
  {
    hide IsSpace, Scanned, Emitted;
    var prev, ptr, off := SPACE, 0, 0;
    assert s[0..] == s && [] + Scanned(s, SPACE) == Scanned(s, SPACE);
    while off < |s|
      invariant ptr <= off <= |s|
      invariant res[..ptr] + Scanned(s[off..], prev) == Scanned(s, SPACE)
    {
      ghost var done, t := res[..ptr], s[off..];
      ScannedStep(t, prev);
      assert t[1..] == s[off + 1..];
      Regroup(done, Emitted(s[off], prev), Scanned(t[1..], s[off]));
      ptr := Emit(s[off], prev, res, ptr);
      prev := s[off];
      off := off + 1;
    }
    NothingScanned(prev);
    assert s[|s|..] == [] && res[..ptr] + [] == res[..ptr];
    if ptr > 0 && IsSpace(res[ptr - 1]) {
      assert res[..ptr][..ptr - 1] == res[..ptr - 1];
      ptr := ptr - 1;
    }
    length := ptr;
  }

  lemma NothingScanned(prev: Byte)
    ensures Scanned([], prev) == []
  {
  }

  // -------------------------------------------------- what it amounts to

  lemma {:induction false} ScannedWord(s: seq<Byte>, prev: Byte, n: nat)
    requires 0 < n <= |s| && forall i :: 0 <= i < n ==> !IsSpace(s[i])
    ensures Scanned(s, prev) == s[..n] + Scanned(s[n..], s[n - 1])
    decreases n
  {
    if n == 1 {
      assert s[..1] == [s[0]];
    } else {
      ScannedWord(s[1..], s[0], n - 1);
      assert s[1..][n - 1..] == s[n..] && s[..n] == [s[0]] + s[1..][..n - 1];
    }
  }

  function Trail(s: seq<Byte>): seq<Byte> {
    if s != [] && IsSpace(s[|s| - 1]) && Words(s) != [] then [SPACE] else []
  }

  /** The scan leaves the words with single spaces, and at most one space at the end. */
  lemma {:induction false} ScannedIsJoined(s: seq<Byte>, prev: Byte)
    requires IsSpace(prev)
    ensures Scanned(s, prev) == Joined(Words(s)) + Trail(s)
    decreases |s|
  {
    if s != [] {
      if IsSpace(s[0]) {
        ScannedIsJoined(s[1..], s[0]);
        SpacesHaveNoWords(s);
      } else {
        AfterWord(s, prev);
      }
    }
  }

  lemma {:induction false} SpacesHaveNoWords(s: seq<Byte>)
    requires s != [] && IsSpace(s[0])
    ensures Trail(s) == Trail(s[1..])
  {
    if |s| > 1 {
      assert s[1..][|s| - 2] == s[|s| - 1];
    } else {
      assert s[1..] == [] && Words(s) == Words(s[1..]);
    }
  }

  lemma {:induction false} NoWords(s: seq<Byte>)
    requires Words(s) == []
    ensures forall i :: 0 <= i < |s| ==> IsSpace(s[i])
  {
    if s != [] {
      assert IsSpace(s[0]);
      NoWords(s[1..]);
      forall i | 0 <= i < |s|
        ensures IsSpace(s[i])
      {
        if i > 0 { assert s[i] == s[1..][i - 1]; }
      }
    }
  }

  /** A word and the white space behind it */
  lemma WordThenSpaces(s: seq<Byte>, n: nat)
    requires 0 < n == WordLength(s) < |s|
    ensures Words(s) == [s[..n]] + Words(s[n + 1..])
    ensures Words(s[n + 1..]) == [] ==> Trail(s) == [SPACE] && Trail(s[n + 1..]) == []
    ensures Words(s[n + 1..]) != [] ==> Trail(s) == Trail(s[n + 1..])
  {
    var rest := s[n..];
    assert rest[1..] == s[n + 1..] && rest[|rest| - 1] == s[|s| - 1];
    if Words(s[n + 1..]) == [] {
      NoWords(rest);
    } else {
      assert s[n + 1..][|s| - n - 2] == s[|s| - 1];
    }
  }

  lemma {:induction false} AfterWord(s: seq<Byte>, prev: Byte)
    requires s != [] && !IsSpace(s[0])
    ensures Scanned(s, prev) == Joined(Words(s)) + Trail(s)
    decreases |s|, 0
  {
    var n := WordLength(s);
    var w := s[..n];
    ScannedWord(s, prev, n);
    if n == |s| {
      assert s[n..] == [] && Words(s) == [w];
      assert w + [] == w;
    } else {
      var rest := s[n + 1..];
      assert s[n..][1..] == rest;
      ScannedStep(s[n..], s[n - 1]);
      ScannedIsJoined(rest, s[n]);
      WordThenSpaces(s, n);
      JoinedAfter(w, Words(rest), Trail(rest));
    }
  }

  lemma JoinedAfter(w: seq<Byte>, ws: seq<seq<Byte>>, trail: seq<Byte>)
    ensures ws == [] && trail == [] ==> w + ([SPACE] + (Joined(ws) + trail)) == Joined([w] + ws) + [SPACE]
    ensures ws != [] ==> w + ([SPACE] + (Joined(ws) + trail)) == Joined([w] + ws) + trail
  {
    if ws == [] {
      assert [w] + ws == [w];
    } else {
      assert ([w] + ws)[1..] == ws;
    }
  }

  // ------------------------------------------------------- what it is for

  function Canonical(s: seq<Byte>): seq<Byte> { Trimmed(Scanned(s, SPACE)) }

  ghost predicate AreWords(ws: seq<seq<Byte>>) {
    forall i :: 0 <= i < |ws| ==> ws[i] != [] && forall k :: 0 <= k < |ws[i]| ==> !IsSpace(ws[i][k])
  }

  lemma {:induction false} WordsAreWords(s: seq<Byte>)
    ensures AreWords(Words(s))
    decreases |s|
  {
    if s != [] {
      if IsSpace(s[0]) {
        WordsAreWords(s[1..]);
      } else {
        WordsAreWords(s[WordLength(s)..]);
      }
    }
  }

  lemma {:induction false} JoinedEnds(ws: seq<seq<Byte>>)
    requires AreWords(ws) && ws != []
    ensures Joined(ws) != [] && !IsSpace(Joined(ws)[|Joined(ws)| - 1])
  {
    if |ws| > 1 {
      assert forall i :: 0 <= i < |ws| - 1 ==> ws[1..][i] == ws[i + 1];
      JoinedEnds(ws[1..]);
    }
  }

  /** The canonical form is the words, joined by single spaces. */
  lemma CanonicalIsJoined(s: seq<Byte>)
    ensures Canonical(s) == Joined(Words(s))
  {
    ScannedIsJoined(s, SPACE);
    WordsAreWords(s);
    var j := Joined(Words(s));
    if Words(s) != [] { JoinedEnds(Words(s)); }
    if Trail(s) == [] {
      assert j + [] == j;
    } else {
      assert (j + [SPACE])[..|j|] == j;
    }
  }

  lemma {:induction false} LengthOfWord(w: seq<Byte>, rest: seq<Byte>)
    requires (forall k :: 0 <= k < |w| ==> !IsSpace(w[k])) && (rest != [] ==> IsSpace(rest[0]))
    ensures WordLength(w + rest) == |w|
  {
    var s := w + rest;
    assert forall i :: 0 <= i < |w| ==> s[i] == w[i];
    assert rest != [] ==> s[|w|] == rest[0];
  }

  /** Words can be told apart again. */
  lemma {:induction false} WordsOfJoined(ws: seq<seq<Byte>>)
    requires AreWords(ws)
    ensures Words(Joined(ws)) == ws
  {
    if ws != [] {
      var w, s := ws[0], Joined(ws);
      if |ws| == 1 {
        LengthOfWord(w, []);
        assert w + [] == s && s[|w|..] == [] && s[..|w|] == w && ws == [w];
      } else {
        var tail := Joined(ws[1..]);
        assert forall i :: 0 <= i < |ws| - 1 ==> ws[1..][i] == ws[i + 1];
        WordsOfJoined(ws[1..]);
        LengthOfWord(w, [SPACE] + tail);
        assert s == w + ([SPACE] + tail);
        assert s[|w|..] == [SPACE] + tail && s[..|w|] == w && ([SPACE] + tail)[1..] == tail;
        assert ws == [w] + ws[1..];
      }
    }
  }

  /** Keys have the same canonical form, and so the same hash, if and only if they consist of
      the same words. */
  lemma SameWordsSameKey(a: seq<Byte>, b: seq<Byte>)
    ensures Canonical(a) == Canonical(b) <==> Words(a) == Words(b)
    ensures Canonical(Canonical(a)) == Canonical(a)
  {
    hide Canonical, Joined, Words;
    CanonicalIsJoined(a);
    CanonicalIsJoined(b);
    WordsAreWords(a);
    WordsAreWords(b);
    WordsOfJoined(Words(a));
    WordsOfJoined(Words(b));
    CanonicalIsJoined(Canonical(a));
  }

  /** White space is single spaces, each between two words. */
  ghost predicate SingleSpaced(s: seq<Byte>) {
    forall i :: 0 <= i < |s| && IsSpace(s[i]) ==> s[i] == SPACE && 0 < i < |s| - 1 && !IsSpace(s[i + 1])
  }

  lemma {:induction false} SingleSpacedIsScanned(s: seq<Byte>, prev: Byte)
    requires forall i :: 0 <= i < |s| && IsSpace(s[i]) ==> s[i] == SPACE && i < |s| - 1 && !IsSpace(s[i + 1])
    requires s != [] && IsSpace(s[0]) ==> !IsSpace(prev)
    ensures Scanned(s, prev) == s
  {
    if s != [] {
      var t := s[1..];
      forall i | 0 <= i < |t| && IsSpace(t[i])
        ensures t[i] == SPACE && i < |t| - 1 && !IsSpace(t[i + 1])
      {
        assert t[i] == s[i + 1];
      }
      SingleSpacedIsScanned(t, s[0]);
      assert s == [s[0]] + t;
    }
  }

  lemma {:induction false} JoinedIsSingleSpaced(ws: seq<seq<Byte>>)
    requires AreWords(ws)
    ensures SingleSpaced(Joined(ws)) && (ws != [] ==> Joined(ws) != [] && !IsSpace(Joined(ws)[0]))
  {
    if |ws| > 1 {
      var w, rest := ws[0], Joined(ws[1..]);
      assert forall i :: 0 <= i < |ws| - 1 ==> ws[1..][i] == ws[i + 1];
      JoinedIsSingleSpaced(ws[1..]);
      var s := Joined(ws);
      assert forall k :: 0 <= k < |w| ==> s[k] == w[k];
      forall i | 0 <= i < |s| && IsSpace(s[i])
        ensures s[i] == SPACE && 0 < i < |s| - 1 && !IsSpace(s[i + 1])
      {
        if i > |w| {
          assert s[i] == rest[i - |w| - 1];
          assert s[i + 1] == rest[i - |w|];
        } else {
          assert s[|w| + 1] == rest[0];
        }
      }
    }
  }

  /** A key is in canonical form exactly when its words have single spaces between them. */
  lemma CanonicalFixpoints(s: seq<Byte>)
    ensures Canonical(s) == s <==> SingleSpaced(s)
  {
    if SingleSpaced(s) {
      SingleSpacedIsScanned(s, SPACE);
    }
    if Canonical(s) == s {
      CanonicalIsJoined(s);
      WordsAreWords(s);
      JoinedIsSingleSpaced(Words(s));
    }
  }

  // ------------------------------------------------------ byte for byte

  /** The six white space characters of the C locale */
  ghost predicate IsBlank(c: Byte) { c in {0x20, 0x09, 0x0A, 0x0B, 0x0C, 0x0D} }

  /** The bytes that are no white space, in order */
  function Dense(s: seq<Byte>): seq<Byte> {
    if s == [] then [] else (if s[0] == 0x20 || 0x09 <= s[0] <= 0x0D then [] else [s[0]]) + Dense(s[1..])
  }

  lemma {:induction false} DenseConcat(a: seq<Byte>, b: seq<Byte>)
    ensures Dense(a + b) == Dense(a) + Dense(b)
  {
    if a == [] {
      assert a + b == b;
    } else {
      assert (a + b)[1..] == a[1..] + b;
      DenseConcat(a[1..], b);
    }
  }

  lemma {:induction false} DenseScanned(s: seq<Byte>, prev: Byte)
    ensures Dense(Scanned(s, prev)) == Dense(s)
    ensures forall i :: 0 <= i < |Scanned(s, prev)| ==> Scanned(s, prev)[i] == SPACE || !IsBlank(Scanned(s, prev)[i])
  {
    if s != [] {
      DenseScanned(s[1..], s[0]);
      DenseConcat(Emitted(s[0], prev), Scanned(s[1..], s[0]));
      assert Emitted(s[0], prev) != [] ==> Emitted(s[0], prev)[1..] == [];
    }
  }

  /** White space only comes as a space, and every other byte is kept, in its place. */
  lemma CanonicalKeepsTheRest(s: seq<Byte>)
    ensures Dense(Canonical(s)) == Dense(s)
    ensures forall i :: 0 <= i < |Canonical(s)| ==> Canonical(s)[i] == SPACE || !IsBlank(Canonical(s)[i])
  {
    hide Dense, Scanned;
    var r := Scanned(s, SPACE);
    DenseScanned(s, SPACE);
    if r != [] && IsSpace(r[|r| - 1]) {
      assert r == r[..|r| - 1] + [r[|r| - 1]];
      DenseConcat(r[..|r| - 1], [r[|r| - 1]]);
      DenseBlank(r[|r| - 1]);
    }
  }

  lemma DenseBlank(c: Byte)
    requires IsSpace(c)
    ensures Dense([c]) == []
  {
    assert [c][1..] == [];
  }
}
