/** Translation archives: what the converter writes (luci/modules/luci-base/src/po2lmo.c:98-117, 195-241) and what
    the reader finds in it (template_lmo.c:100-152, 244-302). */
module Lmo {
  import opened Bytes
  import C = Cidr
  import K = LmoKey

  const LIMIT: nat := 0x1_0000_0000

  // ------------------------------------------------------------- writing

  /** A translation: the hash of its key, the hash of its value, and the value. */
  datatype Message = Message(keyId: nat, valId: nat, value: seq<Byte>)

  /** lmo_entry_t */
  datatype Entry = Entry(keyId: nat, valId: nat, offset: nat, length: nat)

  predicate Fits(m: Message) { m.keyId < LIMIT && m.valId < LIMIT && m.value != [] }

  /** A value with zero bytes up to a multiple of four. */
  function Padded(v: seq<Byte>): (p: seq<Byte>)
    ensures |v| <= |p| < |v| + 4 && p[..|v|] == v && |p| % 4 == 0 && forall i :: |v| <= i < |p| ==> p[i] == 0
  {
    v + Zeros((4 - |v| % 4) % 4)
  }

  /** The values, one after the other. */
  function Values(ms: seq<Message>): seq<Byte> {
    if ms == [] then [] else Values(ms[..|ms| - 1]) + Padded(ms[|ms| - 1].value)
  }

  /** The entries in the order of the messages. */
  function Entries(ms: seq<Message>): (es: seq<Entry>)
    ensures |es| == |ms|
  {
    if ms == [] then []
    else
      var m := ms[|ms| - 1];
      Entries(ms[..|ms| - 1]) + [Entry(m.keyId, m.valId, |Values(ms[..|ms| - 1])|, |m.value|)]
  }

  /** Every entry's slice of the data is the value of its message, padding or not. */
  lemma {:induction false} SliceIsValue(ms: seq<Message>, i: nat)
    requires i < |ms|
    ensures var e := Entries(ms)[i];
            && e.keyId == ms[i].keyId && e.valId == ms[i].valId && e.length == |ms[i].value|
            && e.offset + e.length <= |Values(ms)| && Values(ms)[e.offset..e.offset + e.length] == ms[i].value
  {
    var init, m := ms[..|ms| - 1], ms[|ms| - 1];
    if i < |init| {
      SliceIsValue(init, i);
      var e := Entries(init)[i];
      assert Values(ms)[e.offset..e.offset + e.length] == Values(init)[e.offset..e.offset + e.length];
    } else {
      var o := |Values(init)|;
      assert Values(ms)[o..] == Padded(m.value);
      assert Values(ms)[o..o + |m.value|] == Padded(m.value)[..|m.value|];
    }
  }

  predicate SortedById(es: seq<Entry>) { forall i, j :: 0 <= i < j < |es| ==> es[i].keyId <= es[j].keyId }

  predicate EntryFits(e: Entry) { e.keyId < LIMIT && e.valId < LIMIT && e.offset < LIMIT && e.length < LIMIT }

  /** print_index for one entry */
  function EntryBytes(e: Entry): (b: seq<Byte>)
    requires EntryFits(e)
    ensures |b| == 16
  {
    C.WordBytes(e.keyId) + C.WordBytes(e.valId) + C.WordBytes(e.offset) + C.WordBytes(e.length)
  }

  function IndexBytes(es: seq<Entry>): (b: seq<Byte>)
    requires forall i :: 0 <= i < |es| ==> EntryFits(es[i])
    ensures |b| == 16 * |es|
  {
    if es == [] then [] else IndexBytes(es[..|es| - 1]) + EntryBytes(es[|es| - 1])
  }

  /** The messages and their entries as qsort leaves them: the file is not too large for its
      own offsets. */
  ghost predicate Archivable(ms: seq<Message>, index: seq<Entry>) {
    && ms != [] && (forall i :: 0 <= i < |ms| ==> Fits(ms[i]))
    && SortedById(index) && multiset(index) == multiset(Entries(ms))
    && |Values(ms)| + 16 * |ms| + 4 < LIMIT
  }

  /** The whole file. */
  ghost function File(ms: seq<Message>, index: seq<Entry>): seq<Byte>
    requires Archivable(ms, index)
  {
    IndexFits(ms, index);
    Values(ms) + IndexBytes(index) + C.WordBytes(|Values(ms)|)
  }

  lemma IndexFits(ms: seq<Message>, index: seq<Entry>)
    requires Archivable(ms, index)
    ensures |index| == |ms|
    ensures forall e :: e in index ==> EntryFits(e) && exists i :: 0 <= i < |ms| && e == Entries(ms)[i]
    ensures forall i :: 0 <= i < |ms| ==> Entries(ms)[i] in index
  {
    assert |multiset(index)| == |multiset(Entries(ms))|;
    forall e | e in index
      ensures EntryFits(e) && exists i :: 0 <= i < |ms| && e == Entries(ms)[i]
    {
      assert e in multiset(index) && e in Entries(ms);
      var i :| 0 <= i < |ms| && Entries(ms)[i] == e;
      SliceIsValue(ms, i);
    }
    forall i | 0 <= i < |ms|
      ensures Entries(ms)[i] in index
    {
      assert Entries(ms)[i] in multiset(Entries(ms));
    }
  }

  /** The loop of main over the messages (those whose key and value hash alike are left out
      before): the values are written, the entries collected. */
  method Collect(ms: seq<Message>) returns (out: seq<Byte>, entries: seq<Entry>, offset: nat)
    ensures out == Values(ms) && entries == Entries(ms) && offset == |out|
  {
    out, entries, offset := [], [], 0;
    for i := 0 to |ms|
      invariant out == Values(ms[..i]) && entries == Entries(ms[..i]) && offset == |out|
    {
      var m := ms[i];
      entries := entries + [Entry(m.keyId, m.valId, offset, |m.value|)];
      var length := |m.value| + (4 - |m.value| % 4) % 4;
      out := out + Padded(m.value);
      offset := offset + length;
      assert ms[..i + 1][..i] == ms[..i];
    }
    assert ms[..|ms|] == ms;
  }

  /** print_index and the trailer, after the values */
  method Finish(values: seq<Byte>, index: seq<Entry>, offset: nat) returns (file: seq<Byte>)
    requires offset < LIMIT && forall i :: 0 <= i < |index| ==> EntryFits(index[i])
    ensures file == values + IndexBytes(index) + C.WordBytes(offset)
  {
    var out: seq<Byte> := [];
    for i := 0 to |index|
      invariant out == IndexBytes(index[..i])
    {
      out := out + C.WordBytes(index[i].keyId) + C.WordBytes(index[i].valId)
           + C.WordBytes(index[i].offset) + C.WordBytes(index[i].length);
      assert index[..i + 1][..i] == index[..i];
    }
    assert index[..|index|] == index;
    file := values + out + C.WordBytes(offset);
  }

  // ------------------------------------------------------------- reading

  /** ntohl of the word at p */
  function WordAt(file: seq<Byte>, p: nat): nat
    requires p + 4 <= |file|
  {
    C.Val(file[p..p + 4])
  }

  function EntryAt(file: seq<Byte>, p: nat): Entry
    requires p + 16 <= |file|
  {
    Entry(WordAt(file, p), WordAt(file, p + 4), WordAt(file, p + 8), WordAt(file, p + 12))
  }

  /** lmo_archive_t: the mapped file, where its index starts, and how many entries that has. */
  datatype Archive = Archive(file: seq<Byte>, index: nat, length: int)

  datatype Opened = Failed | Opened(ar: Archive)

  /** What lmo_open makes of a file.  With an index offset in the last three bytes the unsigned
      difference wraps and the number of entries comes out as -1. */
  function ArchiveOf(file: seq<Byte>): Archive
    requires |file| >= 4
  {
    var at := WordAt(file, |file| - 4);
    Archive(file, at, if at + 4 <= |file| then (|file| - at - 4) / 16 else -1)
  }

  /** lmo_open */
  method Open(file: seq<Byte>) returns (r: Opened)
    requires |file| < LIMIT
    ensures r == if |file| < 4 || WordAt(file, |file| - 4) >= |file| then Failed else Opened(ArchiveOf(file))
  {
    if |file| < 4 { return Failed; }
    var at := WordAt(file, |file| - 4);
    if at >= |file| { return Failed; }
    r := Opened(Archive(file, at, if |file| - at >= 4 then (|file| - at - 4) / 16 else -1));
  }

  /** Entry i of the index of an archive. */
  function Indexed(ar: Archive, i: nat): Entry
    requires i < ar.length && ar.index + 16 * ar.length <= |ar.file|
  {
    EntryAt(ar.file, ar.index + 16 * i)
  }

  /** Every archive that lmo_open makes: of its entries, if there are any, all are in the file. */
  predicate Mapped(ar: Archive) {
    -1 <= ar.length && |ar.file| < LIMIT && (ar.length >= 1 ==> ar.index + 16 * ar.length <= |ar.file|)
  }

  ghost predicate SortedIndex(ar: Archive)
    requires Mapped(ar)
  {
    forall i, j :: 0 <= i < j < ar.length ==> Indexed(ar, i).keyId <= Indexed(ar, j).keyId
  }

  /** A file has an entry to look at exactly when its last sixteen bytes before the trailer are
      behind the start of the index. */
  lemma OpenedIsMapped(file: seq<Byte>)
    requires 4 <= |file| < LIMIT && WordAt(file, |file| - 4) < |file|
    ensures Mapped(ArchiveOf(file)) && (ArchiveOf(file).length >= 1 <==> WordAt(file, |file| - 4) + 20 <= |file|)
  {
  }

  /** l + ((r - l) / 2) in unsigned arithmetic */
  function Middle(l: nat, r: nat): nat { (l + (r - l) % LIMIT / 2) % LIMIT }

  lemma MiddleIsBetween(l: nat, r: nat)
    requires l <= r < LIMIT / 2
    ensures l <= Middle(l, r) <= r
  {
  }

  /** What a search comes to; `Outside` when it reads behind the end of the file. */
  datatype Search = Found(at: nat) | Missing | Outside

  /** lmo_find_entry, in unsigned arithmetic: it ends; it reads outside the file if and only if
      the archive has no entries; otherwise, in a sorted index, it finds an entry with the hash
      if and only if there is one. */
  method FindEntry(ar: Archive, hash: nat) returns (s: Search)
    requires Mapped(ar)
    ensures s.Outside? <==> ar.length < 1
    ensures s.Found? ==> s.at < ar.length && Indexed(ar, s.at).keyId == hash
    ensures s.Missing? && SortedIndex(ar) ==> forall i :: 0 <= i < ar.length ==> Indexed(ar, i).keyId != hash
  {
    hide Middle, EntryAt, WordAt;
    var l: nat, r: nat := 0, (ar.length - 1) % LIMIT;
    while true
      invariant ar.length < 1 ==> l == 0 && r == (ar.length - 1) % LIMIT
      invariant ar.length >= 1 ==> l <= r + 1 && r < ar.length
      invariant SortedIndex(ar) ==>
                  forall i :: 0 <= i < ar.length && Indexed(ar, i).keyId == hash ==> l <= i <= r
      decreases r + 1 - l
    {
      var m := Middle(l, r);
      if r < l { break; }
      if ar.length < 1 { FirstProbe(ar.length); }
      if ar.length >= 1 { MiddleIsBetween(l, r); }
      if ar.index + 16 * m + 4 > |ar.file| { return Outside; }
      var k := KeyAt(ar, m);
      if k == hash { return Found(m); }
      if k > hash {
        if m == 0 { break; }
        r := m - 1;
      } else {
        l := m + 1;
      }
    }
    s := Missing;
  }

  /** Two files that lmo_open accepts and that have no entries: the trailer alone, and one whose
      index starts inside the trailer. */
  method SearchEmpty(hash: nat) returns (r1: Opened, r2: Opened, s1: Search, s2: Search)
    ensures r1.Opened? && r1.ar.file == [0, 0, 0, 0] && r1.ar.length == 0 && s1.Outside?
    ensures r2.Opened? && r2.ar.file == [0, 0, 0, 1] && r2.ar.length == -1 && s2.Outside?
  {
    hide Indexed, SortedIndex, WordAt;
    var bare: seq<Byte>, inside: seq<Byte> := [0, 0, 0, 0], [0, 0, 0, 1];
    SmallFile(0);
    SmallFile(1);
    r1 := Open(bare);
    s1 := FindEntry(r1.ar, hash);
    r2 := Open(inside);
    s2 := FindEntry(r2.ar, hash);
  }

  lemma SmallFile(b: Byte)
    ensures WordAt([0, 0, 0, b], 0) == b as nat
  {
    var file: seq<Byte> := [0, 0, 0, b];
    assert file[0..4] == file && file[1..] == [0, 0, b] && file[1..][1..] == [0, b] && file[1..][1..][1..] == [b];
    assert [b][1..] == [];
    assert C.Val([b]) == b as nat;
    assert C.Val([0, b]) == C.Val([b]);
    assert C.Val([0, 0, b]) == C.Val([0, b]);
  }

  /** Without entries the upper end wraps around. */
  lemma FirstProbe(length: int)
    requires -1 <= length < 1
    ensures Middle(0, (length - 1) % LIMIT) == 0x7FFF_FFFF
  {
  }

  /** ntohl(ar->index[m].key_id) */
  function KeyAt(ar: Archive, m: nat): (k: nat)
    requires m < ar.length && ar.index + 16 * ar.length <= |ar.file|
    ensures k == Indexed(ar, m).keyId
  {
    WordAt(ar.file, ar.index + 16 * m)
  }

  // --------------------------------------------------- reading what is written

  lemma EntryRoundTrip(e: Entry, pre: seq<Byte>, post: seq<Byte>)
    requires EntryFits(e)
    ensures EntryAt(pre + EntryBytes(e) + post, |pre|) == e
  {
    var b := pre + EntryBytes(e) + post;
    C.WordRoundTrip(e.keyId);
    C.WordRoundTrip(e.valId);
    C.WordRoundTrip(e.offset);
    C.WordRoundTrip(e.length);
    var p := |pre|;
    assert b[p..p + 4] == C.WordBytes(e.keyId) && b[p + 4..p + 8] == C.WordBytes(e.valId);
    assert b[p + 8..p + 12] == C.WordBytes(e.offset) && b[p + 12..p + 16] == C.WordBytes(e.length);
  }

  lemma {:induction false} IndexRoundTrip(es: seq<Entry>, i: nat, pre: seq<Byte>, post: seq<Byte>)
    requires i < |es| && forall k :: 0 <= k < |es| ==> EntryFits(es[k])
    ensures EntryAt(pre + IndexBytes(es) + post, |pre| + 16 * i) == es[i]
  {
    hide EntryAt, EntryBytes;
    var init, last := es[..|es| - 1], es[|es| - 1];
    var front, b := IndexBytes(init), EntryBytes(last);
    assert IndexBytes(es) == front + b;
    Join4(pre, front, b, post);
    if i < |init| {
      IndexRoundTrip(init, i, pre, b + post);
    } else {
      EntryRoundTrip(last, pre + front, post);
    }
  }

  lemma Join4(a: seq<Byte>, b: seq<Byte>, c: seq<Byte>, d: seq<Byte>)
    ensures a + (b + c) + d == a + b + (c + d) == (a + b) + c + d
  {
  }

  /** The trailer of a written file says where its index starts, and the rest of the size how
      many entries that has. */
  lemma {:induction false} TrailerOf(ms: seq<Message>, index: seq<Entry>)
    requires Archivable(ms, index)
    ensures |File(ms, index)| == |Values(ms)| + 16 * |ms| + 4
    ensures WordAt(File(ms, index), |Values(ms)| + 16 * |ms|) == |Values(ms)|
    ensures File(ms, index)[..|Values(ms)|] == Values(ms)
  {
    IndexFits(ms, index);
    var v := Values(ms);
    var last, idx := C.WordBytes(|v|), IndexBytes(index);
    C.WordRoundTrip(|v|);
    hide Values, IndexBytes, Entries, C.WordBytes, C.Val, WordAt, Archivable;
    Trailer(v + idx, last);
    Front(v, idx, last);
  }

  /** Its entries can be read back. */
  lemma {:induction false} EntryOf(ms: seq<Message>, index: seq<Entry>, i: nat)
    requires Archivable(ms, index) && i < |ms|
    ensures |index| == |ms| && |File(ms, index)| == |Values(ms)| + 16 * |ms| + 4
    ensures EntryAt(File(ms, index), |Values(ms)| + 16 * i) == index[i]
  {
    IndexFits(ms, index);
    hide EntryAt;
    IndexRoundTrip(index, i, Values(ms), C.WordBytes(|Values(ms)|));
  }

  lemma Front(a: seq<Byte>, b: seq<Byte>, c: seq<Byte>)
    ensures (a + b + c)[..|a|] == a
  {
  }

  lemma Trailer(front: seq<Byte>, last: seq<Byte>)
    requires |last| == 4
    ensures WordAt(front + last, |front|) == C.Val(last)
  {
    assert (front + last)[|front|..|front| + 4] == last;
  }

  /** lmo_translate in a written archive: some value with the key's hash, if and only if there
      is one. */
  method Translate(ms: seq<Message>, index: seq<Entry>, hash: nat) returns (found: bool, out: seq<Byte>)
    requires Archivable(ms, index)
    ensures found ==> exists i :: 0 <= i < |ms| && ms[i].keyId == hash && ms[i].value == out
    ensures !found ==> forall i :: 0 <= i < |ms| ==> ms[i].keyId != hash
  {
    hide Values, Entries, IndexBytes, EntryAt, WordAt, Fits;
    var values, entries, offset := Collect(ms);
    IndexFits(ms, index);
    TrailerOf(ms, index);
    var file := Finish(values, index, offset);
    var r := Open(file);
    OpenedIsMapped(file);
    var ar := r.ar;
    assert ar.length == |ms|;
    forall i | 0 <= i < ar.length
      ensures Indexed(ar, i) == index[i]
    {
      EntryOf(ms, index, i);
    }
    var search := FindEntry(ar, hash);
    found := search.Found?;
    var at := if found then search.at else 0;
    out := [];
    if found {
      var e := index[at];
      assert e in index;
      ghost var i :| 0 <= i < |ms| && e == Entries(ms)[i];
      SliceIsValue(ms, i);
      out := file[e.offset..e.offset + e.length];
      assert out == file[..|values|][e.offset..e.offset + e.length];
    } else {
      forall i | 0 <= i < |ms|
        ensures ms[i].keyId != hash
      {
        SliceIsValue(ms, i);
        var k :| 0 <= k < |index| && index[k] == Entries(ms)[i];
        assert Indexed(ar, k) == index[k];
      }
    }
  }

  // ---------------------------------------------------------- by the key

  /** A translation as the converter reads it. */
  datatype Text = Text(key: seq<Byte>, value: seq<Byte>)

  /** The ones that are written */
  predicate Kept(hash: seq<Byte> -> nat, t: Text) { t.key != [] && t.value != [] && hash(t.key) != hash(t.value) }

  function Messages(hash: seq<Byte> -> nat, ts: seq<Text>): seq<Message> {
    if ts == [] then []
    else
      var t := ts[|ts| - 1];
      Messages(hash, ts[..|ts| - 1])
      + if Kept(hash, t) then [Message(hash(t.key), hash(t.value), t.value)] else []
  }

  lemma {:induction false} MessagesAreKept(hash: seq<Byte> -> nat, ts: seq<Text>)
    ensures forall m :: m in Messages(hash, ts) <==>
              exists t :: && t in ts && t.key != [] && t.value != [] && hash(t.key) != hash(t.value)
                          && m == Message(hash(t.key), hash(t.value), t.value)
  {
    if ts != [] {
      var init, last := ts[..|ts| - 1], ts[|ts| - 1];
      MessagesAreKept(hash, init);
      assert ts == init + [last];
    }
  }

  const KEY_LIMIT: nat := 4096

  /** The hash under which a key is looked up: of its canonical form, but 0 for long keys. */
  function CanonHash(hash: seq<Byte> -> nat, key: seq<Byte>): nat {
    if |key| >= KEY_LIMIT then 0 else hash(K.Canonical(key))
  }

  /** lmo_canon_hash */
  method HashKey(hash: seq<Byte> -> nat, key: seq<Byte>) returns (h: nat)
    ensures h == CanonHash(hash, key)
  {
    if |key| >= KEY_LIMIT { return 0; }
    var res := new Byte[KEY_LIMIT];
    var length := K.Canonicalize(key, res);
    h := hash(res[..length]);
  }

  /** lmo_translate of a key, in an archive made from `ts`: the hash of the stored key as it
      is, against the hash of the canonical form of the one asked for. */
  method TranslateKey(hash: seq<Byte> -> nat, ts: seq<Text>, index: seq<Entry>, key: seq<Byte>)
    returns (found: bool, out: seq<Byte>)
    requires Archivable(Messages(hash, ts), index)
    ensures found ==> exists t :: t in ts && Kept(hash, t) && hash(t.key) == CanonHash(hash, key) && t.value == out
    ensures !found ==> forall t :: t in ts && Kept(hash, t) ==> hash(t.key) != CanonHash(hash, key)
  {
    hide Messages, Archivable, CanonHash;
    var h := HashKey(hash, key);
    MessagesAreKept(hash, ts);
    var ms := Messages(hash, ts);
    found, out := Translate(ms, index, h);
    if found {
      ghost var i :| 0 <= i < |ms| && ms[i].keyId == h && ms[i].value == out;
      assert ms[i] in ms;
    } else {
      forall t | t in ts && Kept(hash, t)
        ensures hash(t.key) != h
      {
        assert Message(hash(t.key), hash(t.value), t.value) in ms;
      }
    }
  }

  /** Some translation is stored under the hash with which `key` is looked up. */
  ghost predicate Answered(hash: seq<Byte> -> nat, ts: seq<Text>, key: seq<Byte>) {
    exists t :: t in ts && Kept(hash, t) && hash(t.key) == CanonHash(hash, key)
  }

  /** A stored key that has single spaces only between words is always answered (it is looked
      up under its own id: in general one is when it and its canonical form hash alike).  Where
      the hash tells texts apart, a key is answered exactly when its canonical form is itself a
      stored key. */
  lemma StoredKeyAnswered(hash: seq<Byte> -> nat, ts: seq<Text>, key: seq<Byte>)
    requires |key| < KEY_LIMIT
    ensures K.SingleSpaced(key) && (exists t :: t in ts && Kept(hash, t) && t.key == key) ==> Answered(hash, ts, key)
    ensures (forall t :: t in ts && hash(t.key) == hash(K.Canonical(key)) ==> t.key == K.Canonical(key)) ==>
              (Answered(hash, ts, key) <==> exists t :: t in ts && Kept(hash, t) && t.key == K.Canonical(key))
  {
    K.CanonicalFixpoints(key);
    hide K.Canonical, K.SingleSpaced;
  }
}
