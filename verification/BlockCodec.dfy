/** The byte form of a block (model/Block.go, model/BlockHeader.go): the header, the counts and the
    height as variable-length integers, the subtree hashes, the coinbase and its BUMP. */
module BlockCodec {
  import opened Common
  import opened Bytes

  /** What a read from the stream gives: nothing was left, an error, or a value and the rest. */
  datatype Read<T> = Eof | Bad | Got(value: T, rest: seq<Byte>)

  // ------------------------------------------------------------ variable-length integers

  const TWO_64 := 0x1_0000_0000_0000_0000
  const TWO_32 := 0x1_0000_0000

  function VarInt(n: nat): seq<Byte> {
    if n < 0xfd then [n]
    else if n <= 0xffff then [0xfd] + LittleEndian(n, 2)
    else if n <= 0xffff_ffff then [0xfe] + LittleEndian(n, 4)
    else [0xff] + LittleEndian(n, 8)
  }

  /** The bytes after the first, by the first. */
  function Width(first: Byte): nat {
    if first == 0xfd then 2 else if first == 0xfe then 4 else if first == 0xff then 8 else 0
  }

  /** The least number that needs this many bytes. */
  function Least(width: nat): nat {
    if width == 2 then 0xfd else if width == 4 then 0x1_0000 else if width == 8 then 0x1_0000_0000 else 0
  }

  function ReadVarInt(bs: seq<Byte>): Read<nat> {
    if bs == [] then Eof
    else
      var width := Width(bs[0]);
      if width == 0 then Got(bs[0], bs[1..])
      else if |bs| == 1 then Eof
      else if |bs| < 1 + width then Bad
      else
        var n := FromLittleEndian(bs[1..1 + width]);
        if n < Least(width) then Bad else Got(n, bs[1 + width..])
  }

  lemma {:induction false} VarIntReads(n: nat, rest: seq<Byte>)
    requires n < TWO_64
    ensures ReadVarInt(VarInt(n) + rest) == Got(n, rest)
  {
    var bs := VarInt(n) + rest;
    var width := Width(bs[0]);
    Powers();
    if width == 0 {
      assert bs[1..] == rest;
    } else {
      ReadWritten(n, width);
      assert bs[1..1 + width] == LittleEndian(n, width);
      assert bs[1 + width..] == rest;
    }
  }

  lemma {:induction false} VarIntOnly(bs: seq<Byte>)
    requires ReadVarInt(bs).Got?
    ensures ReadVarInt(bs).value < TWO_64 && bs == VarInt(ReadVarInt(bs).value) + ReadVarInt(bs).rest
  {
    var width := Width(bs[0]);
    if width == 0 {
      assert bs == [bs[0]] + bs[1..];
    } else {
      var digits := bs[1..1 + width];
      Powers();
      WriteRead(digits);
      assert bs == [bs[0]] + digits + bs[1 + width..];
    }
  }

  // ------------------------------------------------------------ header

  const HASH_SIZE := 32
  const HEADER_SIZE := 80

  type Hash = seq<Byte>

  datatype Header = Header(version: nat, prev: Hash, merkleRoot: Hash, timestamp: nat, bits: seq<Byte>, nonce: nat)

  ghost predicate HeaderTyped(h: Header) {
    && h.version < TWO_32 && h.timestamp < TWO_32 && h.nonce < TWO_32
    && |h.prev| == HASH_SIZE && |h.merkleRoot| == HASH_SIZE && |h.bits| == 4
  }

  function HeaderBytes(h: Header): seq<Byte> {
    LittleEndian(h.version, 4) + h.prev + h.merkleRoot + LittleEndian(h.timestamp, 4) + h.bits
      + LittleEndian(h.nonce, 4)
  }

  function HeaderFromBytes(bs: seq<Byte>): Option<Header> {
    if |bs| != HEADER_SIZE then None
    else Some(Header(
      FromLittleEndian(bs[..4]), bs[4..36], bs[36..68], FromLittleEndian(bs[68..72]), bs[72..76],
        FromLittleEndian(bs[76..])))
  }

  lemma {:induction false} HeaderReads(h: Header)
    requires HeaderTyped(h)
    ensures |HeaderBytes(h)| == HEADER_SIZE && HeaderFromBytes(HeaderBytes(h)) == Some(h)
    ensures HeaderBytes(h)[4..36] == h.prev && HeaderBytes(h)[36..68] == h.merkleRoot
    ensures HeaderBytes(h)[68..72] == LittleEndian(h.timestamp, 4) && HeaderBytes(h)[72..76] == h.bits
  {
    var bs := HeaderBytes(h);
    Powers();
    assert bs[..4] == LittleEndian(h.version, 4);
    assert bs[4..36] == h.prev;
    assert bs[36..68] == h.merkleRoot;
    assert bs[68..72] == LittleEndian(h.timestamp, 4);
    assert bs[72..76] == h.bits;
    assert bs[76..] == LittleEndian(h.nonce, 4);
    ReadWritten(h.version, 4);
    ReadWritten(h.timestamp, 4);
    ReadWritten(h.nonce, 4);
  }

  lemma {:induction false} HeaderOnly(bs: seq<Byte>)
    requires |bs| == HEADER_SIZE
    ensures HeaderTyped(HeaderFromBytes(bs).value) && HeaderBytes(HeaderFromBytes(bs).value) == bs
  {
    Powers();
    WriteRead(bs[..4]);
    WriteRead(bs[68..72]);
    WriteRead(bs[76..]);
    assert bs == bs[..4] + bs[4..36] + bs[36..68] + bs[68..72] + bs[72..76] + bs[76..];
  }

  // ------------------------------------------------------------ subtree hashes

  function ZeroHash(): (r: Hash)
    ensures |r| == HASH_SIZE && forall i :: 0 <= i < |r| ==> r[i] == 0
  {
    seq(HASH_SIZE, i => 0)
  }

  ghost predicate HashesTyped(hashes: seq<Hash>) {
    forall i :: 0 <= i < |hashes| ==> |hashes[i]| == HASH_SIZE
  }

  function HashBytes(hashes: seq<Hash>): seq<Byte> {
    if hashes == [] then [] else hashes[0] + HashBytes(hashes[1..])
  }

  function ReadHashes(bs: seq<Byte>, n: nat): Read<seq<Hash>>
    decreases n
  {
    if n == 0 then Got([], bs)
    else if |bs| < HASH_SIZE || bs[..HASH_SIZE] == ZeroHash() then Bad
    else match ReadHashes(bs[HASH_SIZE..], n - 1)
      case Got(hashes, rest) => Got([bs[..HASH_SIZE]] + hashes, rest)
      case _ => Bad
  }

  function Prepend(hashes: seq<Hash>, r: Read<seq<Hash>>): Read<seq<Hash>> {
    match r
    case Got(tail, rest) => Got(hashes + tail, rest)
    case _ => Bad
  }

  /** The subtree loop of readBlockFromReader. */
  method ReadSubtrees(bs: seq<Byte>, n: nat) returns (r: Read<seq<Hash>>)
    ensures r == ReadHashes(bs, n)
  {
    var hashes: seq<Hash> := [];
    var left := bs;
    assert ReadHashes(bs, n).Got? ==> [] + ReadHashes(bs, n).value == ReadHashes(bs, n).value;
    for i := 0 to n
      invariant ReadHashes(bs, n) == Prepend(hashes, ReadHashes(left, n - i))
    {
      if |left| < HASH_SIZE {
        return Bad;
      }
      var hash := left[..HASH_SIZE];
      if hash == ZeroHash() {
        return Bad;
      }
      ghost var next := ReadHashes(left[HASH_SIZE..], n - i - 1);
      assert next.Got? ==> hashes + ([hash] + next.value) == hashes + [hash] + next.value;
      hashes := hashes + [hash];
      left := left[HASH_SIZE..];
    }
    assert hashes + [] == hashes;
    return Got(hashes, left);
  }

  ghost predicate NoZero(hashes: seq<Hash>) {
    forall i :: 0 <= i < |hashes| ==> hashes[i] != ZeroHash()
  }

  lemma {:induction false} HashesRead(hashes: seq<Hash>, rest: seq<Byte>)
    requires HashesTyped(hashes)
    ensures ReadHashes(HashBytes(hashes) + rest, |hashes|) == if NoZero(hashes) then Got(hashes, rest) else Bad
  {
    if hashes == [] {
      assert HashBytes(hashes) + rest == rest;
    } else {
      var tail := hashes[1..];
      var bs := HashBytes(hashes) + rest;
      HashesRead(tail, rest);
      assert bs[..HASH_SIZE] == hashes[0];
      assert bs[HASH_SIZE..] == HashBytes(tail) + rest;
      assert hashes == [hashes[0]] + tail;
      assert NoZero(hashes) <==> hashes[0] != ZeroHash() && NoZero(tail);
    }
  }

  lemma {:induction false} HashesOnly(bs: seq<Byte>, n: nat)
    requires ReadHashes(bs, n).Got?
    ensures
      var r := ReadHashes(bs, n);
      |r.value| == n && HashesTyped(r.value) && NoZero(r.value) && bs == HashBytes(r.value) + r.rest
  {
    if n > 0 {
      HashesOnly(bs[HASH_SIZE..], n - 1);
      var r := ReadHashes(bs, n);
      assert r.value[1..] == ReadHashes(bs[HASH_SIZE..], n - 1).value;
      assert bs == bs[..HASH_SIZE] + bs[HASH_SIZE..];
    }
  }

  // ------------------------------------------------------------ the block

  /** The transaction library: how a transaction is written and read back from a stream, and the empty
      transaction that stands for a missing coinbase. */
  datatype TxCodec<!T> = TxCodec(write: T -> seq<Byte>, read: seq<Byte> -> Read<T>, empty: T)

  /** What is read is what was written, and the shortest transaction is ten bytes. */
  ghost predicate SelfDelimiting<T(!new)>(codec: TxCodec<T>) {
    forall tx, rest :: codec.read(codec.write(tx) + rest) == Got(tx, rest) && |codec.write(tx)| >= 10
  }

  /** Nothing is read but what is written. */
  ghost predicate Canonical<T>(codec: TxCodec<T>) {
    forall bs :: codec.read(bs).Got? ==> bs == codec.write(codec.read(bs).value) + codec.read(bs).rest
  }

  datatype Block<T> = Block(
    header: Header,
    txCount: nat,
    size: nat,
    subtrees: seq<Hash>,
    coinbase: Option<T>,
    height: nat,
    bump: seq<Byte>)

  /** The fields fit their machine types. */
  ghost predicate Typed<T>(b: Block<T>) {
    && HeaderTyped(b.header) && HashesTyped(b.subtrees)
    && b.txCount < TWO_64 && b.size < TWO_64 && |b.subtrees| < TWO_64 && b.height < TWO_32 && |b.bump| < TWO_64
  }

  const MAX_BUMP_SIZE := 0x10_0000
  const MIN_BLOCK_SIZE := 92

  function CoinbaseOf<T>(codec: TxCodec<T>, b: Block<T>): T {
    if b.coinbase.None? then codec.empty else b.coinbase.value
  }

  function BumpBytes(bump: seq<Byte>): seq<Byte> {
    VarInt(|bump|) + bump
  }

  /** All of a block but the BUMP. */
  function BodyBytes<T>(codec: TxCodec<T>, b: Block<T>): seq<Byte> {
    HeaderBytes(b.header)
    + (VarInt(b.txCount)
       + (VarInt(b.size)
          + (VarInt(|b.subtrees|)
             + (HashBytes(b.subtrees)
                + (codec.write(CoinbaseOf(codec, b))
                   + VarInt(b.height))))))
  }

  /** Block.Bytes. */
  function BlockBytes<T>(codec: TxCodec<T>, b: Block<T>): seq<Byte> {
    BodyBytes(codec, b) + BumpBytes(b.bump)
  }

  datatype Result<T> = Ok(block: Block<T>) | Error

  /** The BUMP at the end; the stream may also end before it. */
  function ReadBump(bs: seq<Byte>): Option<seq<Byte>> {
    match ReadVarInt(bs)
    case Eof => Some([])
    case Bad => None
    case Got(n, rest) => if n > MAX_BUMP_SIZE || |rest| < n then None else Some(rest[..n])
  }

  /** From the coinbase on. */
  function ReadTail<T>(codec: TxCodec<T>, b: Block<T>, bs: seq<Byte>): Result<T> {
    match codec.read(bs)
    case Got(tx, afterTx) => (
      match ReadVarInt(afterTx)
      case Got(height, afterHeight) =>
        if height >= TWO_32 then Error
        else (match ReadBump(afterHeight)
              case Some(bump) => Ok(b.(coinbase := Some(tx), height := height, bump := bump))
              case None => Error)
      case _ => Error)
    case _ => Error
  }

  /** From the transaction count on. */
  function ReadBody<T>(codec: TxCodec<T>, header: Header, bs: seq<Byte>): Result<T> {
    match ReadVarInt(bs)
    case Got(txCount, afterCount) => (
      match ReadVarInt(afterCount)
      case Got(size, afterSize) => (
        match ReadVarInt(afterSize)
        case Got(n, afterLength) => (
          match ReadHashes(afterLength, n)
          case Got(subtrees, afterHashes) =>
            ReadTail(codec, Block(header, txCount, size, subtrees, None, 0, []), afterHashes)
          case _ => Error)
        case _ => Error)
      case _ => Error)
    case _ => Error
  }

  function BlockFromBytes<T>(codec: TxCodec<T>, bs: seq<Byte>): Result<T> {
    if |bs| < MIN_BLOCK_SIZE then Error
    else match HeaderFromBytes(bs[..HEADER_SIZE])
      case None => Error
      case Some(header) => ReadBody(codec, header, bs[HEADER_SIZE..])
  }

  /** The coinbase, the height and the BUMP. */
  method ReadCoinbaseOn<T>(codec: TxCodec<T>, b: Block<T>, bs: seq<Byte>) returns (r: Result<T>)
    requires b.bump == []
    ensures r == ReadTail(codec, b, bs)
  {
    var coinbase := codec.read(bs);
    if !coinbase.Got? {
      return Error;
    }
    var height := ReadVarInt(coinbase.rest);
    if !height.Got? || height.value >= TWO_32 {
      return Error;
    }
    var block := b.(coinbase := Some(coinbase.value), height := height.value);
    var bumpLength := ReadVarInt(height.rest);
    if bumpLength.Bad? {
      return Error;
    }
    if bumpLength.Eof? {
      return Ok(block);
    }
    if bumpLength.value > MAX_BUMP_SIZE {
      return Error;
    }
    if bumpLength.value > 0 {
      if |bumpLength.rest| < bumpLength.value {
        return Error;
      }
      block := block.(bump := bumpLength.rest[..bumpLength.value]);
    }
    return Ok(block);
  }

  /** readBlockFromReader. */
  method ReadBlockFromReader<T>(codec: TxCodec<T>, header: Header, bs: seq<Byte>) returns (r: Result<T>)
    ensures r == ReadBody(codec, header, bs)
  {
    var txCount := ReadVarInt(bs);
    if !txCount.Got? {
      return Error;
    }
    var size := ReadVarInt(txCount.rest);
    if !size.Got? {
      return Error;
    }
    var length := ReadVarInt(size.rest);
    if !length.Got? {
      return Error;
    }
    var subtrees := ReadSubtrees(length.rest, length.value);
    if !subtrees.Got? {
      return Error;
    }
    r := ReadCoinbaseOn(codec, Block(header, txCount.value, size.value, subtrees.value, None, 0, []), subtrees.rest);
  }

  // ------------------------------------------------------------ round trip

  /** What reading back what was written can lose: a zero subtree hash and a BUMP over the bound are refused. */
  ghost predicate Storable<T>(b: Block<T>) {
    NoZero(b.subtrees) && |b.bump| <= MAX_BUMP_SIZE
  }

  lemma {:induction false} BumpReads(bump: seq<Byte>, rest: seq<Byte>)
    requires |bump| < TWO_64
    ensures ReadBump(BumpBytes(bump) + rest) == if |bump| <= MAX_BUMP_SIZE then Some(bump) else None
  {
    VarIntReads(|bump|, bump + rest);
    assert BumpBytes(bump) + rest == VarInt(|bump|) + (bump + rest);
    assert (bump + rest)[..|bump|] == bump;
  }

  /** A block with the BUMP that is read from `end`. */
  function WithBump<T>(b: Block<T>, end: seq<Byte>): Result<T> {
    match ReadBump(end)
    case Some(bump) => Ok(b.(bump := bump))
    case None => Error
  }

  lemma {:induction false} TailReads<T(!new)>(codec: TxCodec<T>, b: Block<T>, tx: T, height: nat, end: seq<Byte>)
    requires SelfDelimiting(codec) && height < TWO_32
    ensures ReadTail(codec, b, codec.write(tx) + (VarInt(height) + end)) ==
            WithBump(b.(coinbase := Some(tx), height := height), end)
  {
    VarIntReads(height, end);
  }

  lemma {:induction false} BodyReads<T(!new)>(codec: TxCodec<T>, b: Block<T>, end: seq<Byte>)
    requires SelfDelimiting(codec) && Typed(b)
    ensures
      var afterHashes := codec.write(CoinbaseOf(codec, b)) + (VarInt(b.height) + end);
      ReadBody(codec, b.header,
               VarInt(b.txCount) + (VarInt(b.size) + (VarInt(|b.subtrees|) + (HashBytes(b.subtrees) + afterHashes)))) ==
      if NoZero(b.subtrees) then WithBump(b.(coinbase := Some(CoinbaseOf(codec, b))), end) else Error
  {
    var afterHashes := codec.write(CoinbaseOf(codec, b)) + (VarInt(b.height) + end);
    var afterLength := HashBytes(b.subtrees) + afterHashes;
    var afterSize := VarInt(|b.subtrees|) + afterLength;
    var afterCount := VarInt(b.size) + afterSize;
    VarIntReads(b.txCount, afterCount);
    VarIntReads(b.size, afterSize);
    VarIntReads(|b.subtrees|, afterLength);
    HashesRead(b.subtrees, afterHashes);
    var partial := Block(b.header, b.txCount, b.size, b.subtrees, None, 0, []);
    TailReads(codec, partial, CoinbaseOf(codec, b), b.height, end);
  }

  lemma Regroup(a: seq<Byte>, b: seq<Byte>, c: seq<Byte>)
    ensures (a + b) + c == a + (b + c)
  {
  }

  lemma {:induction false} WrittenPrefix<T>(codec: TxCodec<T>, b: Block<T>, end: seq<Byte>)
    ensures BodyBytes(codec, b) + end ==
            HeaderBytes(b.header)
            + (VarInt(b.txCount)
               + (VarInt(b.size)
                  + (VarInt(|b.subtrees|)
                     + (HashBytes(b.subtrees) + (codec.write(CoinbaseOf(codec, b)) + (VarInt(b.height) + end))))))
  {
    var h := VarInt(b.height);
    var tx := codec.write(CoinbaseOf(codec, b));
    var hashes, length, size, count := HashBytes(b.subtrees), VarInt(|b.subtrees|), VarInt(b.size), VarInt(b.txCount);
    Regroup(HeaderBytes(b.header), count + (size + (length + (hashes + (tx + h)))), end);
    Regroup(count, size + (length + (hashes + (tx + h))), end);
    Regroup(size, length + (hashes + (tx + h)), end);
    Regroup(length, hashes + (tx + h), end);
    Regroup(hashes, tx + h, end);
    Regroup(tx, h, end);
  }

  /** What follows the height decides the BUMP and nothing else. */
  lemma {:induction false} BlockReads<T(!new)>(codec: TxCodec<T>, b: Block<T>, end: seq<Byte>)
    requires SelfDelimiting(codec) && Typed(b)
    ensures BlockFromBytes(codec, BodyBytes(codec, b) + end) ==
            if NoZero(b.subtrees) then WithBump(b.(coinbase := Some(CoinbaseOf(codec, b))), end) else Error
  {
    var bs := BodyBytes(codec, b) + end;
    HeaderReads(b.header);
    WrittenPrefix(codec, b, end);
    BodyReads(codec, b, end);
    assert bs[..HEADER_SIZE] == HeaderBytes(b.header);
    var afterHashes := codec.write(CoinbaseOf(codec, b)) + (VarInt(b.height) + end);
    assert bs[HEADER_SIZE..] ==
      VarInt(b.txCount) + (VarInt(b.size) + (VarInt(|b.subtrees|) + (HashBytes(b.subtrees) + afterHashes)));
  }

  /** NewBlockFromBytes undoes Block.Bytes exactly on the blocks with no zero subtree hash and a BUMP within the
      bound, a missing coinbase becoming the empty transaction; on the others it fails. Bytes after the block
      change nothing. */
  lemma {:induction false} RoundTrip<T(!new)>(codec: TxCodec<T>, b: Block<T>, rest: seq<Byte>)
    requires SelfDelimiting(codec) && Typed(b)
    ensures BlockFromBytes(codec, BlockBytes(codec, b) + rest) ==
            if Storable(b) then Ok(b.(coinbase := Some(CoinbaseOf(codec, b)))) else Error
  {
    Regroup(BodyBytes(codec, b), BumpBytes(b.bump), rest);
    BlockReads(codec, b, BumpBytes(b.bump) + rest);
    BumpReads(b.bump, rest);
  }

  // ------------------------------------------------------------ nothing else is read

  lemma PrefixOfParts(a: seq<Byte>, b: seq<Byte>, n: nat)
    requires n <= |b|
    ensures a + b[..n] <= a + b
  {
  }

  /** What may follow the height: the length and the bytes of a BUMP within the bound, and whatever comes after
      them; or nothing at all, or the first byte of a length of several bytes alone, both for no BUMP. */
  ghost predicate Ends(bump: seq<Byte>, end: seq<Byte>) {
    || (|bump| <= MAX_BUMP_SIZE && BumpBytes(bump) <= end)
    || (bump == [] && (end == [] || (|end| == 1 && end[0] >= 0xfd)))
  }

  lemma {:induction false} BumpExactly(end: seq<Byte>, bump: seq<Byte>)
    ensures ReadBump(end) == Some(bump) <==> Ends(bump, end)
  {
    if |bump| <= MAX_BUMP_SIZE && BumpBytes(bump) <= end {
      var rest := end[|BumpBytes(bump)|..];
      assert end == BumpBytes(bump) + rest;
      BumpReads(bump, rest);
    } else if ReadVarInt(end).Got? {
      VarIntOnly(end);
      var r := ReadVarInt(end);
      if r.value <= |r.rest| {
        PrefixOfParts(VarInt(r.value), r.rest, r.value);
      }
    }
  }

  lemma {:induction false} TailOnly<T>(codec: TxCodec<T>, b: Block<T>, bs: seq<Byte>) returns (end: seq<Byte>)
    requires Canonical(codec) && ReadTail(codec, b, bs).Ok?
    ensures
      var r := ReadTail(codec, b, bs).block;
      r.coinbase.Some? && r.height < TWO_32 && |r.bump| <= MAX_BUMP_SIZE
      && bs == codec.write(CoinbaseOf(codec, r)) + (VarInt(r.height) + end) && Ends(r.bump, end)
  {
    var tx := codec.read(bs);
    VarIntOnly(tx.rest);
    end := ReadVarInt(tx.rest).rest;
    BumpExactly(end, ReadBump(end).value);
  }

  lemma {:induction false} BodyOnly<T>(codec: TxCodec<T>, header: Header, bs: seq<Byte>) returns (end: seq<Byte>)
    requires Canonical(codec) && ReadBody(codec, header, bs).Ok? && HeaderTyped(header)
    ensures
      var b := ReadBody(codec, header, bs).block;
      Typed(b) && Storable(b) && b.coinbase.Some? && b.header == header
      && HeaderBytes(header) + bs == BodyBytes(codec, b) + end && Ends(b.bump, end)
  {
    var count := ReadVarInt(bs);
    VarIntOnly(bs);
    var size := ReadVarInt(count.rest);
    VarIntOnly(count.rest);
    var length := ReadVarInt(size.rest);
    VarIntOnly(size.rest);
    var hashes := ReadHashes(length.rest, length.value);
    HashesOnly(length.rest, length.value);
    end := TailOnly(codec, Block(header, count.value, size.value, hashes.value, None, 0, []), hashes.rest);
    WrittenPrefix(codec, ReadBody(codec, header, bs).block, end);
  }

  /** Whatever NewBlockFromBytes accepts starts with the bytes of the block it answers with, all of them when
      there is a BUMP, and that block can be written and read back. */
  lemma {:induction false} OnlyWrittenIsRead<T>(codec: TxCodec<T>, bs: seq<Byte>) returns (end: seq<Byte>)
    requires Canonical(codec) && BlockFromBytes(codec, bs).Ok?
    ensures
      var b := BlockFromBytes(codec, bs).block;
      Typed(b) && Storable(b) && b.coinbase.Some? && bs == BodyBytes(codec, b) + end && Ends(b.bump, end)
      && BodyBytes(codec, b) <= bs && (b.bump != [] ==> BlockBytes(codec, b) <= bs)
  {
    var header := HeaderFromBytes(bs[..HEADER_SIZE]).value;
    HeaderOnly(bs[..HEADER_SIZE]);
    assert bs == HeaderBytes(header) + bs[HEADER_SIZE..];
    end := BodyOnly(codec, header, bs[HEADER_SIZE..]);
    var b := BlockFromBytes(codec, bs).block;
    if b.bump != [] {
      var bump := BumpBytes(b.bump);
      assert end == bump + end[|bump|..];
      Regroup(BodyBytes(codec, b), bump, end[|bump|..]);
    }
  }

  /** The byte form of the block, with what may follow its height. */
  ghost predicate FormOf<T>(codec: TxCodec<T>, bs: seq<Byte>, b: Block<T>) {
    && Typed(b) && Storable(b) && b.coinbase.Some?
    && exists end :: bs == BodyBytes(codec, b) + end && Ends(b.bump, end)
  }

  /** NewBlockFromBytes answers with a block exactly when the bytes are a form of it. */
  lemma {:induction false} ReadsExactly<T(!new)>(codec: TxCodec<T>, bs: seq<Byte>, b: Block<T>)
    requires SelfDelimiting(codec) && Canonical(codec)
    ensures BlockFromBytes(codec, bs) == Ok(b) <==> FormOf(codec, bs, b)
  {
    if BlockFromBytes(codec, bs) == Ok(b) {
      var end := OnlyWrittenIsRead(codec, bs);
    }
    if FormOf(codec, bs, b) {
      var end :| bs == BodyBytes(codec, b) + end && Ends(b.bump, end);
      BlockReads(codec, b, end);
      BumpExactly(end, b.bump);
      assert b.(coinbase := Some(CoinbaseOf(codec, b))).(bump := b.bump) == b;
    }
  }

  /** NewBlockFromBytes: on the bytes of a block, whatever follows them, it gives that block back or refuses it,
      and it accepts nothing but the forms of a block. */
  method NewBlockFromBytes<T(!new)>(codec: TxCodec<T>, bs: seq<Byte>) returns (r: Result<T>)
    ensures SelfDelimiting(codec) ==>
      forall b: Block<T>, rest :: Typed(b) && bs == BlockBytes(codec, b) + rest ==>
        r == if Storable(b) then Ok(b.(coinbase := Some(CoinbaseOf(codec, b)))) else Error
    ensures SelfDelimiting(codec) && Canonical(codec) ==>
      forall b: Block<T> :: r == Ok(b) <==> FormOf(codec, bs, b)
    ensures Canonical(codec) && r.Ok? ==>
      Typed(r.block) && Storable(r.block) && BodyBytes(codec, r.block) <= bs
    ensures r == BlockFromBytes(codec, bs)
  {
    if |bs| < MIN_BLOCK_SIZE {
      r := Error;
    } else {
      var header := HeaderFromBytes(bs[..HEADER_SIZE]);
      r := ReadBlockFromReader(codec, header.value, bs[HEADER_SIZE..]);
    }
    ReadMeaning(codec, bs);
  }

  lemma {:induction false} ReadMeaning<T(!new)>(codec: TxCodec<T>, bs: seq<Byte>)
    ensures
      var r := BlockFromBytes(codec, bs);
      && (SelfDelimiting(codec) ==>
        forall b: Block<T>, rest :: Typed(b) && bs == BlockBytes(codec, b) + rest ==>
          r == if Storable(b) then Ok(b.(coinbase := Some(CoinbaseOf(codec, b)))) else Error)
      && (SelfDelimiting(codec) && Canonical(codec) ==> forall b: Block<T> :: r == Ok(b) <==> FormOf(codec, bs, b))
      && (Canonical(codec) && r.Ok? ==> Typed(r.block) && Storable(r.block) && BodyBytes(codec, r.block) <= bs)
  {
    var r := BlockFromBytes(codec, bs);
    if SelfDelimiting(codec) {
      forall b: Block<T>, rest | Typed(b) && bs == BlockBytes(codec, b) + rest
        ensures r == if Storable(b) then Ok(b.(coinbase := Some(CoinbaseOf(codec, b)))) else Error
      {
        RoundTrip(codec, b, rest);
      }
    }
    if SelfDelimiting(codec) && Canonical(codec) {
      forall b: Block<T> ensures r == Ok(b) <==> FormOf(codec, bs, b) {
        ReadsExactly(codec, bs, b);
      }
    }
    if Canonical(codec) && r.Ok? {
      var end := OnlyWrittenIsRead(codec, bs);
    }
  }
}
