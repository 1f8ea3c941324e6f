/** The body of a .subtreeMeta stream (model/subtree_meta_reader.go): the buffered decoder
    that parses whole entries straight from the read buffer and cuts their hashes and vout
    words from shared slabs, against a decoder that takes one entry at a time. A slab is
    the sequence of what has been cut from it so far, so an entry's slice is a slab number
    and a range. */
module SubtreeMeta {
  import opened Common
  import opened Bytes

  type Hash = seq<Byte>

  const HASH_SIZE: nat := 32
  const META_HASH_SLAB: nat := 0x1_0000
  const META_WORD_SLAB: nat := 0x4_0000

  /** Little-endian. */
  function U32(b: seq<Byte>, at: nat): nat
    requires at + 4 <= |b|
  {
    var b0: int, b1: int, b2: int, b3: int := b[at], b[at + 1], b[at + 2], b[at + 3];
    b0 + 0x100 * b1 + 0x1_0000 * b2 + 0x100_0000 * b3
  }

  // ------------------------------------------------------------ one entry at a time

  /** A transaction's parents, and per parent the outputs it spends. */
  datatype Entry = Entry(hashes: seq<Hash>, vouts: seq<seq<nat>>)

  datatype Lists = Lists(lists: seq<seq<nat>>, end: nat)

  datatype Parsed = Parsed(entry: Entry, size: nat)

  function ReadWords(b: seq<Byte>, at: nat, n: nat): seq<nat>
    requires at + 4 * n <= |b|
  {
    seq(n, i requires 0 <= i < n => U32(b, at + 4 * i))
  }

  /** k vout lists from position `at`: each a count and that many outputs. */
  function ReadLists(b: seq<Byte>, at: nat, k: nat): Option<Lists>
    decreases k
  {
    if k == 0 then Some(Lists([], at))
    else if at + 4 > |b| then None
    else
      var n := U32(b, at);
      if at + 4 + 4 * n > |b| then None
      else
        var rest := ReadLists(b, at + 4 + 4 * n, k - 1);
        if rest.None? then None else Some(Lists([ReadWords(b, at + 4, n)] + rest.value.lists, rest.value.end))
  }

  function ReadHashes(b: seq<Byte>, at: nat, n: nat): seq<Hash>
    requires at + HASH_SIZE * n <= |b|
  {
    seq(n, i requires 0 <= i < n => b[at + HASH_SIZE * i..at + HASH_SIZE * i + HASH_SIZE])
  }

  /** The entry at the start of b, or None if b ends before it does. */
  function ParseEntry(b: seq<Byte>): Option<Parsed> {
    if |b| < 4 then None
    else
      var p := U32(b, 0);
      var end := 4 + HASH_SIZE * p;
      if end > |b| then None
      else
        var lists := ReadLists(b, end, p);
        if lists.None? then None
        else Some(Parsed(Entry(ReadHashes(b, 4, p), lists.value.lists), lists.value.end))
  }

  lemma {:induction false} ListsEnd(b: seq<Byte>, at: nat, k: nat)
    requires at <= |b|
    ensures
      var r := ReadLists(b, at, k);
      r.Some? ==> at <= r.value.end <= |b| && |r.value.lists| == k
    decreases k
  {
    if k > 0 && at + 4 <= |b| && at + 4 + 4 * U32(b, at) <= |b| {
      ListsEnd(b, at + 4 + 4 * U32(b, at), k - 1);
    }
  }

  lemma {:induction false} ParsedSize(b: seq<Byte>)
    ensures ParseEntry(b).Some? ==> 4 <= ParseEntry(b).value.size <= |b|
  {
    if |b| >= 4 {
      var p := U32(b, 0);
      if 4 + HASH_SIZE * p <= |b| {
        ListsEnd(b, 4 + HASH_SIZE * p, p);
      }
    }
  }

  /** The reference decoder: n entries, each parsed from what the ones before it left. */
  function DecodeOneByOne(b: seq<Byte>, n: nat): Option<seq<Entry>>
    decreases n
  {
    if n == 0 then Some([])
    else
      var first := ParseEntry(b);
      if first.None? then None
      else
        ParsedSize(b);
        var rest := DecodeOneByOne(b[first.value.size..], n - 1);
        if rest.None? then None else Some([first.value.entry] + rest.value)
  }

  // ------------------------------------------------------------ the wire format

  const WORD_LIMIT: nat := 0x1_0000_0000

  function WordsBytes(words: seq<nat>): seq<Byte> {
    if words == [] then [] else LittleEndian(words[0], 4) + WordsBytes(words[1..])
  }

  function ListsBytes(lists: seq<seq<nat>>): seq<Byte> {
    if lists == [] then [] else LittleEndian(|lists[0]|, 4) + WordsBytes(lists[0]) + ListsBytes(lists[1..])
  }

  function HashesBytes(hashes: seq<Hash>): seq<Byte> {
    if hashes == [] then [] else hashes[0] + HashesBytes(hashes[1..])
  }

  /** How an entry is written: the number of parents, their hashes, and per parent the number of outputs it spends
      and those outputs, all numbers little-endian in four bytes. */
  function EntryBytes(e: Entry): seq<Byte> {
    LittleEndian(|e.hashes|, 4) + HashesBytes(e.hashes) + ListsBytes(e.vouts)
  }

  function EntriesBytes(es: seq<Entry>): seq<Byte> {
    if es == [] then [] else EntryBytes(es[0]) + EntriesBytes(es[1..])
  }

  ghost predicate WordsFit(words: seq<nat>) {
    |words| < WORD_LIMIT && forall i :: 0 <= i < |words| ==> words[i] < WORD_LIMIT
  }

  ghost predicate ListsFit(lists: seq<seq<nat>>) {
    forall i :: 0 <= i < |lists| ==> WordsFit(lists[i])
  }

  ghost predicate HashesFit(hashes: seq<Hash>) {
    forall i :: 0 <= i < |hashes| ==> |hashes[i]| == HASH_SIZE
  }

  /** One list of outputs per parent, and every number within 32 bits. */
  ghost predicate Writable(e: Entry) {
    |e.hashes| == |e.vouts| < WORD_LIMIT && HashesFit(e.hashes) && ListsFit(e.vouts)
  }

  ghost predicate AllWritable(es: seq<Entry>) {
    forall i :: 0 <= i < |es| ==> Writable(es[i])
  }

  /** The four bytes at `at` are the little-endian bytes of the number read there. */
  lemma {:induction false} WordAt(b: seq<Byte>, at: nat)
    requires at + 4 <= |b|
    ensures U32(b, at) < WORD_LIMIT && LittleEndian(U32(b, at), 4) == b[at..at + 4]
  {
    var w := b[at..at + 4];
    FourBytes(w);
    assert U32(b, at) == U32(w, 0);
    WriteRead(w);
    Powers();
  }

  lemma {:induction false} FourBytes(w: seq<Byte>)
    requires |w| == 4
    ensures U32(w, 0) == FromLittleEndian(w)
  {
    assert FromLittleEndian(w) == w[0] + 256 * FromLittleEndian(w[1..]);
    assert FromLittleEndian(w[1..]) == w[1] + 256 * FromLittleEndian(w[1..][1..]);
    assert w[1..][1..] == w[2..];
    assert FromLittleEndian(w[2..]) == w[2] + 256 * FromLittleEndian(w[2..][1..]);
    assert w[2..][1..] == w[3..];
    assert FromLittleEndian(w[3..]) == w[3] + 256 * FromLittleEndian(w[3..][1..]);
    assert w[3..][1..] == [];
  }

  lemma {:induction false} WordReads(n: nat, b: seq<Byte>, at: nat)
    requires n < WORD_LIMIT && at + 4 <= |b| && b[at..at + 4] == LittleEndian(n, 4)
    ensures U32(b, at) == n
  {
    WordAt(b, at);
    Powers();
    ReadWritten(n, 4);
    ReadWritten(U32(b, at), 4);
  }

  lemma {:induction false} WordsSize(words: seq<nat>)
    ensures |WordsBytes(words)| == 4 * |words|
  {
    if words != [] {
      WordsSize(words[1..]);
    }
  }

  /** Words that are written at `at` are read there, and only they. */
  lemma {:induction false} WordsRead(b: seq<Byte>, at: nat, words: seq<nat>, end: nat)
    requires end == at + 4 * |words| <= |b| && (forall i :: 0 <= i < |words| ==> words[i] < WORD_LIMIT)
    ensures b[at..end] == WordsBytes(words) <==> ReadWords(b, at, |words|) == words
    decreases |words|
  {
    if words != [] {
      var next := at + 4;
      var rest := words[1..];
      WordsRead(b, next, rest, end);
      WordAt(b, at);
      assert b[at..end] == b[at..next] + b[next..end];
      WordsSplit(b, at, 1, |rest|);
      assert ReadWords(b, at, 1) == [U32(b, at)];
      assert words == [words[0]] + rest;
      FrontsAgree(LittleEndian(words[0], 4), WordsBytes(rest), b[at..next], b[next..end]);
      FrontsAgree([words[0]], rest, [U32(b, at)], ReadWords(b, next, |rest|));
      if LittleEndian(words[0], 4) == b[at..next] {
        WordReads(words[0], b, at);
      }
    } else {
      assert ReadWords(b, at, 0) == [];
    }
  }

  lemma {:induction false} FrontsAgree<T>(a: seq<T>, rest: seq<T>, a': seq<T>, rest': seq<T>)
    requires |a| == |a'|
    ensures a + rest == a' + rest' <==> a == a' && rest == rest'
  {
    if a + rest == a' + rest' {
      assert (a + rest)[..|a|] == a && (a' + rest')[..|a|] == a';
      assert (a + rest)[|a|..] == rest && (a' + rest')[|a|..] == rest';
    }
  }

  /** Lists that are written at `at` are read there... */
  lemma {:induction false} ListsRead(b: seq<Byte>, at: nat, lists: seq<seq<nat>>, end: nat)
    requires ListsFit(lists) && at <= end <= |b| && b[at..end] == ListsBytes(lists)
    ensures ReadLists(b, at, |lists|) == Some(Lists(lists, end))
    decreases |lists|
  {
    if lists != [] {
      var words, rest := lists[0], lists[1..];
      assert WordsFit(words);
      var start := at + 4;
      var next := start + 4 * |words|;
      FirstListRead(b, at, start, next, end, words, ListsBytes(rest));
      ListsRead(b, next, rest, end);
      OneMoreRead(b, at, start, next, lists, end);
    }
  }

  lemma {:induction false} OneMoreRead(b: seq<Byte>, at: nat, start: nat, next: nat, lists: seq<seq<nat>>, end: nat)
    requires lists != [] && start == at + 4 && next == start + 4 * |lists[0]| <= |b|
    requires U32(b, at) == |lists[0]| && ReadWords(b, start, |lists[0]|) == lists[0]
    requires ReadLists(b, next, |lists| - 1) == Some(Lists(lists[1..], end))
    ensures ReadLists(b, at, |lists|) == Some(Lists(lists, end))
  {
    assert [lists[0]] + lists[1..] == lists;
  }

  lemma {:induction false} FirstListRead(b: seq<Byte>, at: nat, start: nat, next: nat, end: nat, words: seq<nat>,
        rest: seq<Byte>)
    requires WordsFit(words) && start == at + 4 && next == start + 4 * |words| && at <= end <= |b|
    requires b[at..end] == LittleEndian(|words|, 4) + WordsBytes(words) + rest
    ensures next <= end && U32(b, at) == |words| && ReadWords(b, start, |words|) == words && b[next..end] == rest
  {
    WordsSize(words);
    Pieces(b, at, start, next, end, LittleEndian(|words|, 4), WordsBytes(words), rest);
    WordReads(|words|, b, at);
    WordsRead(b, start, words, next);
  }

  /** The lists are written from `at` on. */
  ghost predicate ListsAt(b: seq<Byte>, at: nat, r: Lists) {
    ListsFit(r.lists) && at <= r.end <= |b| && b[at..r.end] == ListsBytes(r.lists)
  }

  /** ...and only they. */
  lemma {:induction false} ListsWritten(b: seq<Byte>, at: nat, k: nat)
    requires at <= |b| && ReadLists(b, at, k).Some?
    ensures ListsAt(b, at, ReadLists(b, at, k).value)
    decreases k
  {
    if k > 0 {
      var n := U32(b, at);
      var start := at + 4;
      var next := start + 4 * n;
      ListsWritten(b, next, k - 1);
      var rest := ReadLists(b, next, k - 1).value;
      OneMoreList(b, at, start, n, next, rest);
    }
  }

  lemma {:induction false} OneMoreList(b: seq<Byte>, at: nat, start: nat, n: nat, next: nat, rest: Lists)
    requires start == at + 4 <= |b| && n == U32(b, at) && next == start + 4 * n <= |b| && ListsAt(b, next, rest)
    ensures ListsAt(b, at, Lists([ReadWords(b, start, n)] + rest.lists, rest.end))
  {
    var words := ReadWords(b, start, n);
    var lists := [words] + rest.lists;
    ReadListWritten(b, at, start, n, next);
    assert lists[1..] == rest.lists;
    Joined(b, at, start, next, rest.end, LittleEndian(n, 4), WordsBytes(words), ListsBytes(rest.lists));
  }

  lemma {:induction false} ReadListWritten(b: seq<Byte>, at: nat, start: nat, n: nat, next: nat)
    requires start == at + 4 <= |b| && n == U32(b, at) && next == start + 4 * n <= |b|
    ensures n < WORD_LIMIT && b[at..start] == LittleEndian(n, 4)
    ensures WordsFit(ReadWords(b, start, n)) && b[start..next] == WordsBytes(ReadWords(b, start, n))
  {
    WordAt(b, at);
    var words := ReadWords(b, start, n);
    forall i | 0 <= i < n ensures words[i] < WORD_LIMIT {
      WordAt(b, start + 4 * i);
    }
    WordsRead(b, start, words, next);
  }

  lemma {:induction false} Joined(b: seq<Byte>, at: nat, start: nat, next: nat, end: nat, x: seq<Byte>, y: seq<Byte>,
        z: seq<Byte>)
    requires at <= start <= next <= end <= |b| && b[at..start] == x && b[start..next] == y && b[next..end] == z
    ensures b[at..end] == x + y + z
  {
    assert b[at..end] == b[at..start] + b[start..next] + b[next..end];
  }

  /** Three pieces of a range. */
  lemma {:induction false} Pieces(b: seq<Byte>, at: nat, start: nat, next: nat, end: nat, x: seq<Byte>, y: seq<Byte>,
        z: seq<Byte>)
    requires at <= end <= |b| && b[at..end] == x + y + z && start == at + |x| && next == start + |y|
    ensures next <= end && b[at..start] == x && b[start..next] == y && b[next..end] == z
  {
    assert |b[at..end]| == |x| + |y| + |z|;
    assert b[at..end] == b[at..start] + b[start..end];
    assert x + y + z == x + (y + z);
    FrontsAgree(x, y + z, b[at..start], b[start..end]);
    assert b[start..end] == b[start..next] + b[next..end];
    FrontsAgree(y, z, b[start..next], b[next..end]);
  }

  lemma {:induction false} HashesSize(hashes: seq<Hash>)
    requires HashesFit(hashes)
    ensures |HashesBytes(hashes)| == HASH_SIZE * |hashes|
  {
    if hashes != [] {
      HashesSize(hashes[1..]);
    }
  }

  /** Hashes that are written at `at` are read there, and only they. */
  lemma {:induction false} HashesRead(b: seq<Byte>, at: nat, hashes: seq<Hash>, end: nat)
    requires HashesFit(hashes) && end == at + HASH_SIZE * |hashes| <= |b|
    ensures b[at..end] == HashesBytes(hashes) <==> ReadHashes(b, at, |hashes|) == hashes
    decreases |hashes|
  {
    if hashes != [] {
      var next := at + HASH_SIZE;
      var rest := hashes[1..];
      HashesRead(b, next, rest, end);
      assert b[at..end] == b[at..next] + b[next..end];
      HashesSplit(b, at, next, |hashes|);
      assert hashes == [hashes[0]] + rest;
      FrontsAgree(hashes[0], HashesBytes(rest), b[at..next], b[next..end]);
      FrontsAgree([hashes[0]], rest, [b[at..next]], ReadHashes(b, next, |rest|));
    } else {
      assert ReadHashes(b, at, 0) == [];
    }
  }

  lemma {:induction false} HashesSplit(b: seq<Byte>, at: nat, next: nat, n: nat)
    requires n > 0 && next == at + HASH_SIZE && at + HASH_SIZE * n <= |b|
    ensures ReadHashes(b, at, n) == [b[at..next]] + ReadHashes(b, next, n - 1)
  {
    var whole, back := ReadHashes(b, at, n), ReadHashes(b, next, n - 1);
    forall i | 1 <= i < n ensures whole[i] == back[i - 1] {
      assert at + HASH_SIZE * i == next + HASH_SIZE * (i - 1);
    }
  }

  /** What is written is read back, whatever follows it... */
  lemma {:induction false} EntryReads(e: Entry, rest: seq<Byte>)
    requires Writable(e)
    ensures ParseEntry(EntryBytes(e) + rest) == Some(Parsed(e, |EntryBytes(e)|))
  {
    var b, size, n := EntryBytes(e) + rest, |EntryBytes(e)|, |e.hashes|;
    HashesSize(e.hashes);
    var end := 4 + HASH_SIZE * n;
    assert b[0..size] == EntryBytes(e);
    Pieces(b, 0, 4, end, size, LittleEndian(n, 4), HashesBytes(e.hashes), ListsBytes(e.vouts));
    WordReads(n, b, 0);
    HashesRead(b, 4, e.hashes, end);
    ListsRead(b, end, e.vouts, size);
  }

  /** ...and whatever is read is the start of the bytes as it would be written. */
  lemma {:induction false} EntryWritten(b: seq<Byte>)
    requires ParseEntry(b).Some?
    ensures
      var p := ParseEntry(b).value;
      Writable(p.entry) && p.size == |EntryBytes(p.entry)| <= |b| && b[..p.size] == EntryBytes(p.entry)
  {
    var n := U32(b, 0);
    var end := 4 + HASH_SIZE * n;
    var hashes, lists := ReadHashes(b, 4, n), ReadLists(b, end, n).value;
    assert ParseEntry(b).value == Parsed(Entry(hashes, lists.lists), lists.end);
    ListsEnd(b, end, n);
    ListsWritten(b, end, n);
    HeadWritten(b, n, end, hashes);
    Joined(b, 0, 4, end, lists.end, LittleEndian(n, 4), HashesBytes(hashes), ListsBytes(lists.lists));
    assert b[..lists.end] == b[0..lists.end];
  }

  lemma {:induction false} HeadWritten(b: seq<Byte>, n: nat, end: nat, hashes: seq<Hash>)
    requires 4 <= |b| && n == U32(b, 0) && end == 4 + HASH_SIZE * n <= |b| && hashes == ReadHashes(b, 4, n)
    ensures n < WORD_LIMIT && HashesFit(hashes)
    ensures b[0..4] == LittleEndian(n, 4) && b[4..end] == HashesBytes(hashes)
  {
    WordAt(b, 0);
    HashesRead(b, 4, hashes, end);
  }

  /** The reference decoder gives back the entries a stream starts with... */
  lemma {:induction false} EntriesRead(es: seq<Entry>, rest: seq<Byte>)
    requires AllWritable(es)
    ensures DecodeOneByOne(EntriesBytes(es) + rest, |es|) == Some(es)
    decreases |es|
  {
    if es != [] {
      var tail := EntriesBytes(es[1..]) + rest;
      assert EntriesBytes(es) + rest == EntryBytes(es[0]) + tail;
      EntriesRead(es[1..], rest);
      FirstRead(es[0], tail, |es| - 1, es[1..]);
      assert [es[0]] + es[1..] == es;
    }
  }

  lemma {:induction false} FirstRead(e: Entry, tail: seq<Byte>, n: nat, rest: seq<Entry>)
    requires Writable(e) && DecodeOneByOne(tail, n) == Some(rest)
    ensures DecodeOneByOne(EntryBytes(e) + tail, n + 1) == Some([e] + rest)
  {
    var b := EntryBytes(e) + tail;
    EntryReads(e, tail);
    assert b[|EntryBytes(e)|..] == tail;
  }

  /** ...and decodes nothing else. */
  lemma {:induction false} EntriesWritten(b: seq<Byte>, n: nat)
    requires DecodeOneByOne(b, n).Some?
    ensures
      var es := DecodeOneByOne(b, n).value;
      |es| == n && AllWritable(es) && EntriesBytes(es) <= b
    decreases n
  {
    if n > 0 {
      var first := ParseEntry(b).value;
      EntryWritten(b);
      EntriesWritten(b[first.size..], n - 1);
      OneMoreWritten(b, first, DecodeOneByOne(b[first.size..], n - 1).value);
    }
  }

  lemma {:induction false} OneMoreWritten(b: seq<Byte>, first: Parsed, rest: seq<Entry>)
    requires Writable(first.entry) && first.size <= |b| && b[..first.size] == EntryBytes(first.entry)
    requires AllWritable(rest) && EntriesBytes(rest) <= b[first.size..]
    ensures AllWritable([first.entry] + rest) && EntriesBytes([first.entry] + rest) <= b
  {
    var es := [first.entry] + rest;
    assert es[1..] == rest;
    PrefixJoins(b, first.size, EntryBytes(first.entry), EntriesBytes(rest));
  }

  lemma {:induction false} PrefixJoins(b: seq<Byte>, k: nat, x: seq<Byte>, y: seq<Byte>)
    requires k <= |b| && b[..k] == x && y <= b[k..]
    ensures x + y <= b
  {
    assert b == b[..k] + b[k..];
  }

  /** A stream of n entries, and the entries it starts with. */
  ghost predicate StartsWith(stream: seq<Byte>, n: nat, es: seq<Entry>) {
    |es| == n && AllWritable(es) && EntriesBytes(es) <= stream
  }

  /** Decoding one by one finds n entries exactly when the stream starts with n written ones, and finds those. */
  lemma {:induction false} DecodesWritten(stream: seq<Byte>, n: nat)
    ensures DecodeOneByOne(stream, n).Some? <==> exists es :: StartsWith(stream, n, es)
    ensures forall es :: StartsWith(stream, n, es) ==> DecodeOneByOne(stream, n) == Some(es)
  {
    forall es | StartsWith(stream, n, es) ensures DecodeOneByOne(stream, n) == Some(es) {
      var rest := stream[|EntriesBytes(es)|..];
      assert stream == EntriesBytes(es) + rest;
      EntriesRead(es, rest);
    }
    if DecodeOneByOne(stream, n).Some? {
      EntriesWritten(stream, n);
      assert StartsWith(stream, n, DecodeOneByOne(stream, n).value);
    }
  }

  // ------------------------------------------------------------ what is in the buffer

  lemma {:induction false} WordsInPrefix(b: seq<Byte>, more: seq<Byte>, at: nat, n: nat)
    requires at + 4 * n <= |b|
    ensures ReadWords(b + more, at, n) == ReadWords(b, at, n)
  {
    forall i | 0 <= i < n ensures U32(b + more, at + 4 * i) == U32(b, at + 4 * i) {
    }
  }

  lemma {:induction false} ListsInPrefix(b: seq<Byte>, more: seq<Byte>, at: nat, k: nat)
    requires at <= |b| && ReadLists(b, at, k).Some?
    ensures ReadLists(b + more, at, k) == ReadLists(b, at, k)
    decreases k
  {
    if k > 0 {
      var n := U32(b, at);
      assert U32(b + more, at) == n;
      WordsInPrefix(b, more, at + 4, n);
      ListsInPrefix(b, more, at + 4 + 4 * n, k - 1);
    }
  }

  /** An entry that is whole in the buffer is the next entry of the stream. */
  lemma {:induction false} EntryInPrefix(b: seq<Byte>, more: seq<Byte>)
    requires ParseEntry(b).Some?
    ensures ParseEntry(b + more) == ParseEntry(b)
  {
    var p := U32(b, 0);
    assert U32(b + more, 0) == p;
    var end := 4 + HASH_SIZE * p;
    ListsInPrefix(b, more, end, p);
    HashesInPrefix(b, more, 4, p);
  }

  lemma {:induction false} HashesInPrefix(b: seq<Byte>, more: seq<Byte>, at: nat, n: nat)
    requires at + HASH_SIZE * n <= |b|
    ensures ReadHashes(b + more, at, n) == ReadHashes(b, at, n)
  {
    forall i | 0 <= i < n ensures ReadHashes(b + more, at, n)[i] == ReadHashes(b, at, n)[i] {
      var from := at + HASH_SIZE * i;
      assert (b + more)[from..from + HASH_SIZE] == b[from..from + HASH_SIZE];
    }
  }

  // ------------------------------------------------------------ the packed layout

  /** Count-prefixed vout lists, as TxInpoints keeps them. */
  function Pack(lists: seq<seq<nat>>): seq<nat> {
    if lists == [] then [] else [|lists[0]|] + lists[0] + Pack(lists[1..])
  }

  lemma {:induction false} WordsSplit(b: seq<Byte>, at: nat, m: nat, n: nat)
    requires at + 4 * (m + n) <= |b|
    ensures ReadWords(b, at, m + n) == ReadWords(b, at, m) + ReadWords(b, at + 4 * m, n)
  {
    var whole, front, back := ReadWords(b, at, m + n), ReadWords(b, at, m), ReadWords(b, at + 4 * m, n);
    forall i | 0 <= i < m + n ensures whole[i] == (front + back)[i] {
      if i >= m {
        assert at + 4 * m + 4 * (i - m) == at + 4 * i;
      }
    }
  }

  lemma {:induction false} PackedStep(b: seq<Byte>, at: nat, n: nat, tail: seq<nat>)
    requires at + 4 + 4 * (n + |tail|) <= |b| && n == U32(b, at)
    requires ReadWords(b, at + 4 + 4 * n, |tail|) == tail
    ensures ReadWords(b, at, |[n] + ReadWords(b, at + 4, n) + tail|) == [n] + ReadWords(b, at + 4, n) + tail
  {
    WordsSplit(b, at + 4, n, |tail|);
    WordsSplit(b, at, 1, n + |tail|);
    assert ReadWords(b, at, 1) == [n];
    assert [n] + (ReadWords(b, at + 4, n) + tail) == [n] + ReadWords(b, at + 4, n) + tail;
  }

  /** The wire holds the packed layout: reading the words straight off gives the lists packed. */
  lemma {:induction false} WordsArePacked(b: seq<Byte>, at: nat, k: nat)
    requires at <= |b| && ReadLists(b, at, k).Some?
    ensures
      var r := ReadLists(b, at, k).value;
      && r.end == at + 4 * |Pack(r.lists)| && r.end <= |b|
      && ReadWords(b, at, |Pack(r.lists)|) == Pack(r.lists)
    decreases k
  {
    if k > 0 {
      var n := U32(b, at);
      var next := at + 4 + 4 * n;
      WordsArePacked(b, next, k - 1);
      var rest := ReadLists(b, next, k - 1).value;
      var r := ReadLists(b, at, k).value;
      assert r.lists[0] == ReadWords(b, at + 4, n) && r.lists[1..] == rest.lists;
      PackedStep(b, at, n, Pack(rest.lists));
    } else {
      assert ReadWords(b, at, 0) == [];
    }
  }

  // ------------------------------------------------------------ metaEntryShape

  /** The number of packed words of k lists from `at`, None if b ends before they do. */
  function CountWords(b: seq<Byte>, at: nat, k: nat): Option<nat> {
    var r := ReadLists(b, at, k);
    if r.None? then None else Some(|Pack(r.value.lists)|)
  }

  lemma {:induction false} CountWordsNext(b: seq<Byte>, at: nat, k: nat)
    requires k > 0 && at + 4 <= |b| && at + 4 + 4 * U32(b, at) <= |b|
    ensures
      var next := CountWords(b, at + 4 + 4 * U32(b, at), k - 1);
      && CountWords(b, at, k) == (if next.None? then None else Some(1 + U32(b, at) + next.value))
      && (ReadLists(b, at, k).Some? <==> next.Some?)
      && (next.Some? ==> ReadLists(b, at, k).value.end == ReadLists(b, at + 4 + 4 * U32(b, at), k - 1).value.end)
  {
    var n := U32(b, at);
    var rest := ReadLists(b, at + 4 + 4 * n, k - 1);
    if rest.Some? {
      var r := ReadLists(b, at, k).value;
      assert r.lists[0] == ReadWords(b, at + 4, n) && r.lists[1..] == rest.value.lists;
    }
  }

  /** Measures the entry at the start of b: ok exactly when all of it is there. */
  method MetaEntryShape(b: seq<Byte>) returns (size: nat, parents: nat, nWords: nat, ok: bool)
    ensures ok <==> ParseEntry(b).Some?
    ensures ok ==>
      var p := ParseEntry(b).value;
      && size == p.size && parents == |p.entry.hashes| && nWords == |Pack(p.entry.vouts)|
      && size == 4 + HASH_SIZE * parents + 4 * nWords
  {
    if |b| < 4 {
      return 0, 0, 0, false;
    }
    var p := U32(b, 0);
    var end := 4 + HASH_SIZE * p;
    if end > |b| {
      return 0, 0, 0, false;
    }
    ghost var start := end;
    var words := 0;
    for k := 0 to p
      invariant start <= end <= |b|
      invariant ReadLists(b, start, p).Some? <==> ReadLists(b, end, p - k).Some?
      invariant ReadLists(b, start, p).Some? ==>
        && CountWords(b, start, p) == Some(words + CountWords(b, end, p - k).value)
        && ReadLists(b, start, p).value.end == ReadLists(b, end, p - k).value.end
    {
      if end + 4 > |b| {
        return 0, 0, 0, false;
      }
      var vouts := U32(b, end);
      if end + 4 + 4 * vouts > |b| {
        return 0, 0, 0, false;
      }
      CountWordsNext(b, end, p - k);
      words := words + 1 + vouts;
      end := end + 4 + 4 * vouts;
    }
    WordsArePacked(b, start, p);
    return end, p, words, true;
  }

  // ------------------------------------------------------------ slabs

  datatype Slice = Slice(slab: nat, lo: nat, hi: nat)

  /** What the decoder stores for a transaction: nothing for one without parents. */
  datatype Packed = NoParents | Packed(hashes: Slice, words: Slice)

  /** The slabs of each kind, and how many items each was allocated for. */
  datatype Slabs = Slabs(hashes: seq<seq<Hash>>, hashCaps: seq<nat>, words: seq<seq<nat>>, wordCaps: seq<nat>)

  /** No slab holds more than it was allocated for, so no slice reaches past its array. */
  ghost predicate WithinCaps<T>(slabs: seq<seq<T>>, caps: seq<nat>) {
    |slabs| == |caps| && forall i :: 0 <= i < |slabs| ==> |slabs[i]| <= caps[i]
  }

  predicate InSlabs<T>(s: Slice, slabs: seq<seq<T>>) {
    s.slab < |slabs| && s.lo <= s.hi <= |slabs[s.slab]|
  }

  function Cut<T>(s: Slice, slabs: seq<seq<T>>): seq<T>
    requires InSlabs(s, slabs)
  {
    slabs[s.slab][s.lo..s.hi]
  }

  predicate Apart(a: Slice, b: Slice) {
    a.slab != b.slab || a.hi <= b.lo || b.hi <= a.lo
  }

  /** The stored form stands for the entry. */
  ghost predicate Stands(p: Packed, slabs: Slabs, e: Entry) {
    match p
    case NoParents => e.hashes == []
    case Packed(hashes, words) =>
      && e.hashes != [] && InSlabs(hashes, slabs.hashes) && InSlabs(words, slabs.words)
      && Cut(hashes, slabs.hashes) == e.hashes && Cut(words, slabs.words) == Pack(e.vouts)
  }

  ghost predicate AllApart(ps: seq<Packed>) {
    forall i, j :: 0 <= i < j < |ps| && ps[i].Packed? && ps[j].Packed? ==>
      Apart(ps[i].hashes, ps[j].hashes) && Apart(ps[i].words, ps[j].words)
  }

  ghost predicate AllStand(ps: seq<Packed>, slabs: Slabs, es: seq<Entry>) {
    && |ps| == |es|
    && (forall i :: 0 <= i < |ps| ==> Stands(ps[i], slabs, es[i]))
  }

  /** A slab only ever grows at its end. */
  ghost predicate Extends<T>(slabs: seq<seq<T>>, slabs': seq<seq<T>>) {
    |slabs| <= |slabs'| && forall i :: 0 <= i < |slabs| ==> slabs[i] <= slabs'[i]
  }

  lemma {:induction false} StillStands(p: Packed, slabs: Slabs, slabs': Slabs, e: Entry)
    requires Stands(p, slabs, e) && Extends(slabs.hashes, slabs'.hashes) && Extends(slabs.words, slabs'.words)
    ensures Stands(p, slabs', e)
  {
    if p.Packed? {
      CutStays(p.hashes, slabs.hashes, slabs'.hashes);
      CutStays(p.words, slabs.words, slabs'.words);
    }
  }

  lemma {:induction false} CutStays<T>(s: Slice, slabs: seq<seq<T>>, slabs': seq<seq<T>>)
    requires InSlabs(s, slabs) && Extends(slabs, slabs')
    ensures InSlabs(s, slabs') && Cut(s, slabs') == Cut(s, slabs)
  {
    var a, b := slabs[s.slab], slabs'[s.slab];
    assert a <= b;
    assert b[s.lo..s.hi] == a[s.lo..s.hi];
  }

  /** The room left in the slab in use. */
  ghost predicate RoomLeft<T>(slabs: seq<seq<T>>, caps: seq<nat>, cur: nat, room: nat) {
    room > 0 ==> cur < |slabs| == |caps| && room == caps[cur] - |slabs[cur]|
  }

  /** Takes items from slab `cur` if it has room for them, from a new slab of `size` otherwise. */
  method Take<T>(slabs: seq<seq<T>>, caps: seq<nat>, cur: nat, room: nat, items: seq<T>, size: nat)
    returns (slabs': seq<seq<T>>, caps': seq<nat>, slice: Slice, cur': nat, room': nat)
    requires WithinCaps(slabs, caps) && RoomLeft(slabs, caps, cur, room)
    requires 0 < |items| <= size
    ensures WithinCaps(slabs', caps') && RoomLeft(slabs', caps', cur', room')
    ensures Extends(slabs, slabs') && InSlabs(slice, slabs') && Cut(slice, slabs') == items
    ensures cur' < |slabs'| && slice.slab == cur'
    ensures slice.slab < |slabs| ==> slice.lo == |slabs[slice.slab]|
    ensures cur' == (if room < |items| then |slabs| else cur)
    ensures |slabs'| == if room < |items| then |slabs| + 1 else |slabs|
  {
    if room < |items| {
      cur' := |slabs|;
      slabs', caps' := slabs + [items], caps + [size];
      slice := Slice(cur', 0, |items|);
      room' := size - |items|;
      assert items[0..|items|] == items;
    } else {
      cur' := cur;
      slabs', caps' := slabs[cur := slabs[cur] + items], caps;
      slice := Slice(cur, |slabs[cur]|, |slabs[cur]| + |items|);
      room' := room - |items|;
    }
  }

  // ------------------------------------------------------------ the decoder

  /** What has been decoded: one stored form per entry and the slabs they are cut from, with the shared
      slab of each kind in use and the room left in it. */
  datatype Store = Store(entries: seq<Packed>, slabs: Slabs, hashSlab: nat, hashRoom: nat, wordSlab: nat, wordRoom: nat)

  ghost predicate StoreOk(st: Store, es: seq<Entry>) {
    && AllStand(st.entries, st.slabs, es) && AllApart(st.entries)
    && WithinCaps(st.slabs.hashes, st.slabs.hashCaps) && WithinCaps(st.slabs.words, st.slabs.wordCaps)
    && RoomLeft(st.slabs.hashes, st.slabs.hashCaps, st.hashSlab, st.hashRoom)
    && RoomLeft(st.slabs.words, st.slabs.wordCaps, st.wordSlab, st.wordRoom)
  }

  lemma {:induction false} NewSliceApart<T>(old_: Slice, s: Slice, slabs: seq<seq<T>>)
    requires InSlabs(old_, slabs) && (s.slab < |slabs| ==> s.lo == |slabs[s.slab]|)
    ensures Apart(old_, s)
  {
  }

  lemma {:induction false} StoreNext(st: Store, es: seq<Entry>, p: Packed, slabs': Slabs, e: Entry)
    requires StoreOk(st, es) && Stands(p, slabs', e)
    requires Extends(st.slabs.hashes, slabs'.hashes) && Extends(st.slabs.words, slabs'.words)
    requires p.Packed? ==>
      && (p.hashes.slab < |st.slabs.hashes| ==> p.hashes.lo == |st.slabs.hashes[p.hashes.slab]|)
      && (p.words.slab < |st.slabs.words| ==> p.words.lo == |st.slabs.words[p.words.slab]|)
    ensures AllStand(st.entries + [p], slabs', es + [e]) && AllApart(st.entries + [p])
  {
    var ps, es' := st.entries + [p], es + [e];
    forall i | 0 <= i < |ps| ensures Stands(ps[i], slabs', es'[i]) {
      if i < |st.entries| {
        StillStands(st.entries[i], st.slabs, slabs', es[i]);
      }
    }
    forall i | 0 <= i < |st.entries| && st.entries[i].Packed? && p.Packed?
      ensures Apart(st.entries[i].hashes, p.hashes) && Apart(st.entries[i].words, p.words)
    {
      assert Stands(st.entries[i], st.slabs, es[i]);
      NewSliceApart(st.entries[i].hashes, p.hashes, st.slabs.hashes);
      NewSliceApart(st.entries[i].words, p.words, st.slabs.words);
    }
  }

  /** Copies the parent hashes of an entry out of the buffer. */
  method CopyHashes(b: seq<Byte>, parents: nat) returns (hashes: seq<Hash>)
    requires 4 + HASH_SIZE * parents <= |b|
    ensures hashes == ReadHashes(b, 4, parents)
  {
    hashes := [];
    for k := 0 to parents
      invariant |hashes| == k && forall j :: 0 <= j < k ==> hashes[j] == ReadHashes(b, 4, parents)[j]
    {
      hashes := hashes + [b[4 + HASH_SIZE * k..4 + HASH_SIZE * k + HASH_SIZE]];
    }
  }

  method CopyWords(b: seq<Byte>, at: nat, n: nat) returns (words: seq<nat>)
    requires at + 4 * n <= |b|
    ensures words == ReadWords(b, at, n)
  {
    words := [];
    for k := 0 to n
      invariant |words| == k && forall j :: 0 <= j < k ==> words[j] == ReadWords(b, at, n)[j]
    {
      words := words + [U32(b, at + 4 * k)];
    }
  }

  function Max(a: nat, b: nat): nat { if a > b then a else b }
  function Min(a: nat, b: nat): nat { if a < b then a else b }

  /** Stores the entry at the start of b, whole in the buffer, in the shared slabs. */
  method StoreShared(st: Store, ghost es: seq<Entry>, b: seq<Byte>, parents: nat, nWords: nat) returns (st': Store)
    requires StoreOk(st, es) && ParseEntry(b).Some?
    requires parents == |ParseEntry(b).value.entry.hashes| && nWords == |Pack(ParseEntry(b).value.entry.vouts)|
    ensures StoreOk(st', es + [ParseEntry(b).value.entry])
  {
    ghost var e := ParseEntry(b).value.entry;
    if parents == 0 {
      StoreNext(st, es, NoParents, st.slabs, e);
      return st.(entries := st.entries + [NoParents]);
    }
    PackedOfEntry(b);
    var hashes := CopyHashes(b, parents);
    var words := CopyWords(b, 4 + HASH_SIZE * parents, nWords);
    var hashSlabs, hashCaps, hashSlice, hashSlab, hashRoom :=
      Take(st.slabs.hashes, st.slabs.hashCaps, st.hashSlab, st.hashRoom, hashes,
           Max(parents, Min(META_HASH_SLAB, |b| / (HASH_SIZE + 4))));
    var wordSlabs, wordCaps, wordSlice, wordSlab, wordRoom :=
      Take(st.slabs.words, st.slabs.wordCaps, st.wordSlab, st.wordRoom, words,
           Max(nWords, Min(META_WORD_SLAB, |b| / 4)));
    var slabs' := Slabs(hashSlabs, hashCaps, wordSlabs, wordCaps);
    StoreNext(st, es, Packed(hashSlice, wordSlice), slabs', e);
    st' := Store(st.entries + [Packed(hashSlice, wordSlice)], slabs', hashSlab, hashRoom, wordSlab, wordRoom);
  }

  lemma {:induction false} PackedOfEntry(b: seq<Byte>)
    requires ParseEntry(b).Some?
    ensures
      var p := ParseEntry(b).value;
      var n, w := |p.entry.hashes|, |Pack(p.entry.vouts)|;
      && 4 + HASH_SIZE * n + 4 * w == p.size <= |b|
      && p.entry.hashes == ReadHashes(b, 4, n) && Pack(p.entry.vouts) == ReadWords(b, 4 + HASH_SIZE * n, w)
      && (n > 0 ==> w > 0)
  {
    var n := U32(b, 0);
    WordsArePacked(b, 4 + HASH_SIZE * n, n);
    ListsEnd(b, 4 + HASH_SIZE * n, n);
  }

  /** Stores an entry decoded by the plain reader, with arrays of its own. */
  method StoreOwn(st: Store, ghost es: seq<Entry>, e: Entry) returns (st': Store)
    requires StoreOk(st, es)
    ensures StoreOk(st', es + [e])
  {
    if |e.hashes| == 0 {
      StoreNext(st, es, NoParents, st.slabs, e);
      return st.(entries := st.entries + [NoParents]);
    }
    var words := Pack(e.vouts);
    var p := Packed(Slice(|st.slabs.hashes|, 0, |e.hashes|), Slice(|st.slabs.words|, 0, |words|));
    var slabs' := Slabs(st.slabs.hashes + [e.hashes], st.slabs.hashCaps + [|e.hashes|],
                        st.slabs.words + [words], st.slabs.wordCaps + [|words|]);
    assert e.hashes[0..|e.hashes|] == e.hashes && words[0..|words|] == words;
    StoreNext(st, es, p, slabs', e);
    // the arrays are the entry's own: the shared slabs in use stay the same
    st' := st.(entries := st.entries + [p], slabs := slabs');
  }

  /** After some entries es, what is left of the stream decides the rest of the outcome. */
  ghost predicate Progress(stream: seq<Byte>, count: nat, es: seq<Entry>, rest: seq<Byte>) {
    && |es| <= count
    && var tail := DecodeOneByOne(rest, count - |es|);
       DecodeOneByOne(stream, count) == if tail.None? then None else Some(es + tail.value)
  }

  lemma {:induction false} ProgressNext(stream: seq<Byte>, count: nat, es: seq<Entry>, rest: seq<Byte>)
    requires Progress(stream, count, es, rest) && |es| < count && ParseEntry(rest).Some?
    ensures ParseEntry(rest).value.size <= |rest|
    ensures Progress(stream, count, es + [ParseEntry(rest).value.entry], rest[ParseEntry(rest).value.size..])
  {
    ParsedSize(rest);
    var first := ParseEntry(rest).value;
    var tail := DecodeOneByOne(rest[first.size..], count - |es| - 1);
    if tail.Some? {
      assert es + ([first.entry] + tail.value) == es + [first.entry] + tail.value;
    }
  }

  /** One round over the buffer: stores every entry that is whole in it. */
  method DecodeBuffered(st: Store, ghost es: seq<Entry>, ghost stream: seq<Byte>, count: nat, rest: seq<Byte>,
        buf: seq<Byte>)
    returns (st': Store, ghost es': seq<Entry>, pos: nat)
    requires StoreOk(st, es) && Progress(stream, count, es, rest) && buf <= rest && |es| < count
    ensures pos <= |buf| && StoreOk(st', es') && Progress(stream, count, es', rest[pos..])
    ensures |es| <= |es'| && (pos > 0 <==> |es'| > |es|)
    ensures |es'| < count ==> ParseEntry(buf[pos..]).None?
  {
    st', es', pos := st, es, 0;
    assert rest[0..] == rest;
    while |st'.entries| < count
      invariant pos <= |buf| && StoreOk(st', es') && |es'| <= count && Progress(stream, count, es', rest[pos..])
      invariant |es| <= |es'| && (pos > 0 <==> |es'| > |es|)
      decreases count - |es'|
    {
      var ok;
      st', es', pos, ok := DecodeOneBuffered(st', es', stream, count, rest, buf, pos);
      if !ok {
        break;
      }
    }
  }

  /** Stores the entry at `pos` if all of it is in the buffer. */
  method DecodeOneBuffered(st: Store, ghost es: seq<Entry>, ghost stream: seq<Byte>, count: nat, rest: seq<Byte>,
        buf: seq<Byte>, pos: nat)
    returns (st': Store, ghost es': seq<Entry>, pos': nat, ok: bool)
    requires StoreOk(st, es) && |es| < count && buf <= rest && pos <= |buf| && Progress(stream, count, es, rest[pos..])
    ensures ok ==> |es'| == |es| + 1 && pos < pos' <= |buf|
    ensures !ok ==> es' == es && pos' == pos && ParseEntry(buf[pos..]).None?
    ensures StoreOk(st', es') && pos' <= |buf| && Progress(stream, count, es', rest[pos'..])
  {
    var size, parents, nWords;
    size, parents, nWords, ok := MetaEntryShape(buf[pos..]);
    if !ok {
      return st, es, pos, false;
    }
    pos' := pos + size;
    ghost var e := ParseEntry(buf[pos..]).value.entry;
    BufferedProgress(stream, count, es, rest, buf, pos, e, pos');
    es' := es + [e];
    st' := StoreShared(st, es, buf[pos..], parents, nWords);
  }

  lemma {:induction false} BufferedProgress(stream: seq<Byte>, count: nat, es: seq<Entry>, rest: seq<Byte>,
        buf: seq<Byte>, pos: nat, e: Entry, next: nat)
    requires buf <= rest && pos <= |buf| && ParseEntry(buf[pos..]).Some? && |es| < count
    requires Progress(stream, count, es, rest[pos..])
    requires e == ParseEntry(buf[pos..]).value.entry && next == pos + ParseEntry(buf[pos..]).value.size
    ensures pos < next <= |buf| && Progress(stream, count, es + [e], rest[next..])
  {
    var size := ParseEntry(buf[pos..]).value.size;
    BufferedEntry(rest, buf, pos);
    ParsedSize(buf[pos..]);
    ProgressNext(stream, count, es, rest[pos..]);
    assert rest[pos..][size..] == rest[next..];
  }

  lemma {:induction false} BufferedEntry(rest: seq<Byte>, buf: seq<Byte>, pos: nat)
    requires buf <= rest && pos <= |buf| && ParseEntry(buf[pos..]).Some?
    ensures ParseEntry(rest[pos..]) == ParseEntry(buf[pos..])
  {
    var more := rest[|buf|..];
    assert rest[pos..] == buf[pos..] + more;
    EntryInPrefix(buf[pos..], more);
  }

  lemma {:induction false} PaddingKeeps(st: Store, es: seq<Entry>, padded: seq<Packed>, count: nat)
    requires StoreOk(st, es) && count == |st.entries| <= |padded| && st.entries <= padded
    requires forall i :: count <= i < |padded| ==> padded[i] == NoParents
    ensures AllStand(padded[..count], st.slabs, es) && AllApart(padded)
  {
    assert padded[..count] == st.entries;
  }

  /** decodeSubtreeMetaBody: for every stream, entry count and buffer size, exactly what decoding one
      entry at a time gives, which is the entries whose bytes the stream starts with. It fails exactly when there
      are no such entries or the count exceeds the subtree's capacity; the slices of different entries never
      overlap; and every round takes an entry or fails, so it terminates. */
  method DecodeBody(capacity: nat, count: nat, stream: seq<Byte>, bufSize: nat) returns (r: Option<Store>)
    ensures r.Some? <==> count <= capacity && DecodeOneByOne(stream, count).Some?
    ensures r.Some? <==> count <= capacity && exists es :: StartsWith(stream, count, es)
    ensures r.Some? ==>
      && |r.value.entries| == capacity
      && (forall es :: StartsWith(stream, count, es) ==> AllStand(r.value.entries[..count], r.value.slabs, es))
      && AllStand(r.value.entries[..count], r.value.slabs, DecodeOneByOne(stream, count).value)
      && AllApart(r.value.entries)
      && WithinCaps(r.value.slabs.hashes, r.value.slabs.hashCaps)
      && WithinCaps(r.value.slabs.words, r.value.slabs.wordCaps)
      && (forall i :: count <= i < capacity ==> r.value.entries[i] == NoParents)
  {
    DecodesWritten(stream, count);
    if count > capacity {
      return None;
    }
    var st := Store([], Slabs([], [], [], []), 0, 0, 0, 0);
    ghost var es: seq<Entry> := [];
    var rest := stream;
    EmptyProgress(stream, count);
    while |st.entries| < count
      invariant StoreOk(st, es) && |es| <= count && Progress(stream, count, es, rest)
      decreases count - |es|
    {
      var buf := rest[..Min(bufSize, |rest|)];
      var peekFailed := |rest| < bufSize;
      var pos;
      ghost var before := es;
      st, es, pos := DecodeBuffered(st, es, stream, count, rest, buf);
      rest := rest[pos..];
      if |st.entries| == count || pos > 0 {
        continue;
      }
      assert buf[pos..] == buf;
      if peekFailed {
        assert buf == rest;
        return None;
      }
      var next := ParseEntry(rest);
      if next.None? {
        return None;
      }
      ProgressNext(stream, count, es, rest);
      st := StoreOwn(st, es, next.value.entry);
      es := es + [next.value.entry];
      rest := rest[next.value.size..];
    }
    assert DecodeOneByOne(rest, 0) == Some([]) && es + [] == es;
    var padded := st.entries + seq(capacity - count, _ => NoParents);
    PaddingKeeps(st, es, padded, count);
    r := Some(st.(entries := padded));
  }

  lemma {:induction false} EmptyProgress(stream: seq<Byte>, count: nat)
    ensures Progress(stream, count, [], stream)
  {
    var tail := DecodeOneByOne(stream, count);
    if tail.Some? {
      assert [] + tail.value == tail.value;
    }
  }
}
