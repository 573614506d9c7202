/**
 The lazy, cached, seekable keystream of cipher/keystream.go, refined to the infinite stream
 it speeds up. `gen` is the block function; the GenerateBlock methods of ChaCha and Gimli are
 proved equal to such functions.
 */
module Keystream {
  import opened Wrappers
  import opened Modular
  import opened ByteStrings

  type Generator = int -> Bytes

  ghost predicate GoodGenerator(gen: Generator, bs: int) {
    bs > 0 && forall i :: |gen(i)| == bs
  }

  // ------------------------------------------------------------ the stream

  /** Byte p of the infinite keystream. */
  ghost function StreamAt(gen: Generator, bs: int, p: nat): bv8
    requires GoodGenerator(gen, bs)
  {
    gen(p / bs)[p % bs]
  }

  /** Bytes off .. off + len. */
  ghost function Stream(gen: Generator, bs: int, off: nat, len: nat): (r: Bytes)
    requires GoodGenerator(gen, bs)
    ensures |r| == len
  {
    seq(len, i requires 0 <= i < len => StreamAt(gen, bs, off + i))
  }

  function XorBytes(a: Bytes, b: Bytes): (r: Bytes)
    requires |a| == |b|
    ensures |r| == |a|
  {
    seq(|a|, i requires 0 <= i < |a| => a[i] ^ b[i])
  }

  /** data combined with the stream from off on. */
  ghost function Masked(gen: Generator, bs: int, data: Bytes, off: nat): (r: Bytes)
    requires GoodGenerator(gen, bs)
    ensures |r| == |data|
  {
    XorBytes(data, Stream(gen, bs, off, |data|))
  }

  /** Adjacent ranges of the stream join. */
  lemma StreamJoins(gen: Generator, bs: int, off: nat, m: nat, n: nat)
    requires GoodGenerator(gen, bs)
    ensures Stream(gen, bs, off, m) + Stream(gen, bs, off + m, n) == Stream(gen, bs, off, m + n)
  {
    hide StreamAt;
    var joined := Stream(gen, bs, off, m) + Stream(gen, bs, off + m, n);
    forall i | 0 <= i < m + n
      ensures joined[i] == Stream(gen, bs, off, m + n)[i]
    {
      assert i >= m ==> off + m + (i - m) == off + i;
    }
  }

  lemma XorJoins(a: Bytes, b: Bytes, c: Bytes, d: Bytes)
    requires |a| == |b| && |c| == |d|
    ensures XorBytes(a, b) + XorBytes(c, d) == XorBytes(a + c, b + d)
  {
  }

  lemma MaskedJoins(gen: Generator, bs: int, a: Bytes, b: Bytes, off: nat)
    requires GoodGenerator(gen, bs)
    ensures Masked(gen, bs, a, off) + Masked(gen, bs, b, off + |a|) == Masked(gen, bs, a + b, off)
  {
    hide Stream, XorBytes;
    StreamJoins(gen, bs, off, |a|, |b|);
    XorJoins(a, Stream(gen, bs, off, |a|), b, Stream(gen, bs, off + |a|, |b|));
  }

  lemma XorTwice(a: bv8, k: bv8)
    ensures (a ^ k) ^ k == a
  {
  }

  /** Applying the same range of the stream twice restores the data. */
  lemma MaskedTwice(gen: Generator, bs: int, data: Bytes, off: nat)
    requires GoodGenerator(gen, bs)
    ensures Masked(gen, bs, Masked(gen, bs, data, off), off) == data
  {
    hide Stream;
    var key := Stream(gen, bs, off, |data|);
    forall i | 0 <= i < |data|
      ensures XorBytes(XorBytes(data, key), key)[i] == data[i]
    {
      XorTwice(data[i], key[i]);
    }
  }

  function Flatten(chunks: seq<Bytes>): Bytes {
    if chunks == [] then [] else Flatten(Front(chunks)) + Last(chunks)
  }

  /** A generator whose blocks repeat every `period` gives a stream that repeats every bs * period bytes. */
  lemma StreamPeriod(gen: Generator, bs: int, period: nat, p: nat)
    requires GoodGenerator(gen, bs)
    requires forall i :: gen(i + period) == gen(i)
    ensures p + bs * period >= 0
    ensures StreamAt(gen, bs, p + bs * period) == StreamAt(gen, bs, p)
  {
    var b, r := p / bs, p % bs;
    assert p + bs * period == (b + period) * bs + r by {
      assert (b + period) * bs == b * bs + period * bs;
    }
    DivIs(p + bs * period, bs, b + period, r);
  }

  /** Positions inside one block. */
  lemma WithinBlock(bs: int, cur: nat, i: nat)
    requires bs > 0 && cur % bs + i < bs
    ensures (cur + i) / bs == cur / bs && (cur + i) % bs == cur % bs + i
  {
    DivIs(cur + i, bs, cur / bs, cur % bs + i);
  }

  /** A slice of one block is a range of the stream. */
  lemma StreamInBlock(gen: Generator, bs: int, cur: nat, take: nat)
    requires GoodGenerator(gen, bs) && cur % bs + take <= bs
    ensures gen(cur / bs)[cur % bs..cur % bs + take] == Stream(gen, bs, cur, take)
  {
    var slice := gen(cur / bs)[cur % bs..cur % bs + take];
    forall i | 0 <= i < take
      ensures slice[i] == Stream(gen, bs, cur, take)[i]
    {
      WithinBlock(bs, cur, i);
    }
  }

  function Max(a: int, b: int): int {
    if a >= b then a else b
  }

  // ------------------------------------------------------------ sequences of calls

  /** A call on a keystream object. */
  datatype Call =
    | CallGetBytes(offset: nat, length: nat)
    | CallXor(data: Bytes, offset: nat)
    | CallRead(length: nat)
    | CallXorRead(data: Bytes)
    | CallSeek(offset: nat)
    | CallRewind
    | CallClearCache
    | CallSetCacheLimit(limit: int)

  /** What a call at position pos returns, from the infinite stream alone. */
  ghost function OutputOf(gen: Generator, bs: int, pos: nat, call: Call): Bytes
    requires GoodGenerator(gen, bs)
  {
    match call
    case CallGetBytes(offset, length) => Stream(gen, bs, offset, length)
    case CallXor(data, offset) => Masked(gen, bs, data, offset)
    case CallRead(length) => Stream(gen, bs, pos, length)
    case CallXorRead(data) => Masked(gen, bs, data, pos)
    case _ => []
  }

  function Moved(pos: nat, call: Call): nat {
    match call
    case CallRead(length) => pos + length
    case CallXorRead(data) => pos + |data|
    case CallSeek(offset) => offset
    case CallRewind => 0
    case _ => pos
  }

  /** The position after calls made from position pos on. */
  function PositionAfter(pos: nat, calls: seq<Call>): nat {
    if calls == [] then pos else Moved(PositionAfter(pos, Front(calls)), Last(calls))
  }

  ghost function Outputs(gen: Generator, bs: int, pos: nat, calls: seq<Call>): (r: seq<Bytes>)
    requires GoodGenerator(gen, bs)
    ensures |r| == |calls|
  {
    if calls == [] then []
    else Outputs(gen, bs, pos, Front(calls)) + [OutputOf(gen, bs, PositionAfter(pos, Front(calls)), Last(calls))]
  }

  function LimitAfter(limit: int, calls: seq<Call>): int {
    if calls == [] then limit
    else if Last(calls).CallSetCacheLimit? then Last(calls).limit
    else LimitAfter(limit, Front(calls))
  }

  /** No call lowers the cache limit. */
  predicate NeverLowered(limit: int, calls: seq<Call>) {
    calls == []
    || (NeverLowered(limit, Front(calls))
        && (Last(calls).CallSetCacheLimit? ==> Last(calls).limit >= LimitAfter(limit, Front(calls))))
  }

  /** A Seek and then one XorRead for every chunk. */
  function SeekAndXorReads(off: nat, chunks: seq<Bytes>): (r: seq<Call>)
    ensures r != []
  {
    if chunks == [] then [CallSeek(off)] else SeekAndXorReads(off, Front(chunks)) + [CallXorRead(Last(chunks))]
  }

  /** However a message is cut up, the pieces together are the whole message masked at once. */
  lemma {:induction false} ChunkingIrrelevant(gen: Generator, bs: int, pos: nat, off: nat, chunks: seq<Bytes>)
    requires GoodGenerator(gen, bs)
    ensures PositionAfter(pos, SeekAndXorReads(off, chunks)) == off + |Flatten(chunks)|
    ensures Flatten(Outputs(gen, bs, pos, SeekAndXorReads(off, chunks))) == Masked(gen, bs, Flatten(chunks), off)
  {
    hide Masked, GoodGenerator;
    var calls := SeekAndXorReads(off, chunks);
    if chunks == [] {
      EmptyMasked(gen, bs, off);
      var outs := Outputs(gen, bs, pos, calls);
      assert outs == Outputs(gen, bs, pos, Front(calls)) + [[]];
      assert Front(outs) == [] && Last(outs) == [];
    } else {
      ChunkingIrrelevant(gen, bs, pos, off, Front(chunks));
      assert Front(calls) == SeekAndXorReads(off, Front(chunks)) && Last(calls) == CallXorRead(Last(chunks));
      var done := Outputs(gen, bs, pos, Front(calls));
      var piece := Masked(gen, bs, Last(chunks), off + |Flatten(Front(chunks))|);
      assert Outputs(gen, bs, pos, calls) == done + [piece] && Front(done + [piece]) == done;
      MaskedJoins(gen, bs, Flatten(Front(chunks)), Last(chunks), off);
    }
  }

  // ------------------------------------------------------------ slices

  /** A Go slice: a stretch of an array that other slices may share. */
  datatype Slice = Slice(buffer: array<bv8>, start: nat, len: nat) {
    predicate Valid() {
      start + len <= buffer.Length
    }

    ghost function Contents(): (r: Bytes)
      requires Valid()
      reads buffer
      ensures |r| == len
    {
      buffer[start..start + len]
    }

    /** Two states of the array agree outside the slice. */
    ghost predicate OutsideUnchanged(before: Bytes, after: Bytes) {
      && |before| == |after|
      && forall p :: 0 <= p < |after| && !(start <= p < start + len) ==> after[p] == before[p]
    }
  }

  /**
   Bytes are read before they are overwritten by a forward loop: the slices are apart, or the
   output does not start inside the input behind its first byte.
   */
  predicate ReadsAhead(input: Slice, output: Slice) {
    input.buffer != output.buffer || output.start <= input.start || input.start + input.len <= output.start
  }

  // ------------------------------------------------------------ the cached stream

  class LazyKeystream {
    const blockSize: int
    const gen: Generator
    var position: int
    var cachedBlocks: map<int, Bytes>
    var maxCache: int

    ghost predicate Valid()
      reads this
    {
      && blockSize > 0 && GoodGenerator(gen, blockSize)
      && position >= 0
      && forall k :: k in cachedBlocks ==> cachedBlocks[k] == gen(k)
    }

    /** The cache fits its limit (one block is always kept). */
    predicate CacheFits()
      reads this
    {
      |cachedBlocks| <= Max(1, maxCache)
    }

    constructor (blockSize: int, gen: Generator)
      requires GoodGenerator(gen, blockSize)
      ensures Valid() && CacheFits()
      ensures this.blockSize == blockSize && this.gen == gen && position == 0 && maxCache == 64
    {
      this.blockSize := blockSize;
      this.gen := gen;
      position := 0;
      cachedBlocks := map[];
      maxCache := 64;
    }

    /** Dropping one cached block, whichever the map yields first. */
    method EvictOne()
      requires Valid()
      modifies this`cachedBlocks
      ensures Valid()
      ensures |cachedBlocks| == Max(0, old(|cachedBlocks|) - 1)
      ensures cachedBlocks.Keys <= old(cachedBlocks.Keys)
    {
      if cachedBlocks.Keys == {} {
        return;
      }
      var k := AnyElement(cachedBlocks.Keys);
      DropSize(cachedBlocks, k);
      cachedBlocks := cachedBlocks - {k};
    }

    /**
     getBlock. When the cache is full an arbitrary entry is dropped, as ranging over a Go map
     does; the block returned does not depend on which.
     */
    method GetBlock(idx: int) returns (block: Bytes)
      requires Valid()
      modifies this`cachedBlocks
      ensures Valid()
      ensures block == gen(idx) && |block| == blockSize && idx in cachedBlocks
      ensures |cachedBlocks| <= Max(old(|cachedBlocks|), Max(1, maxCache))
    {
      if idx in cachedBlocks {
        return cachedBlocks[idx];
      }
      block := gen(idx);
      if |cachedBlocks| >= maxCache {
        EvictOne();
      }
      InsertSize(cachedBlocks, idx, block);
      cachedBlocks := cachedBlocks[idx := block];
    }

    /** Copying part of a block into the output, `copy(out[at:at+take], block[off:off+take])`. */
    static method CopyInto(out: array<bv8>, at: nat, block: Bytes, off: nat, take: nat)
      requires at + take <= out.Length && off + take <= |block|
      modifies out
      ensures out[..] == old(out[..at]) + block[off..off + take] + old(out[at + take..])
    {
      forall i | 0 <= i < take {
        out[at + i] := block[off + i];
      }
    }

    /** One turn of the GetBytes loop: as much of the current block as is wanted. */
    method CopyStep(out: array<bv8>, outPos: nat, cur: nat) returns (take: nat)
      requires Valid() && outPos < out.Length
      modifies this`cachedBlocks, out
      ensures Valid() && 0 < take <= out.Length - outPos
      ensures out[..] == old(out[..outPos]) + Stream(gen, blockSize, cur, take) + old(out[outPos + take..])
      ensures |cachedBlocks| <= Max(old(|cachedBlocks|), Max(1, maxCache))
    {
      hide Stream, GoodGenerator;
      var blockIdx, off := cur / blockSize, cur % blockSize;
      var block := GetBlock(blockIdx);
      take := blockSize - off;
      if take > out.Length - outPos {
        take := out.Length - outPos;
      }
      StreamInBlock(gen, blockSize, cur, take);
      CopyInto(out, outPos, block, off, take);
    }

    /** GetBytes: exactly that range of the infinite stream. */
    method GetBytes(offset: int, length: int) returns (out: array<bv8>)
      requires Valid() && offset >= 0 && length >= 0
      modifies this`cachedBlocks
      ensures Valid() && fresh(out)
      ensures out[..] == Stream(gen, blockSize, offset, length)
      ensures |cachedBlocks| <= Max(old(|cachedBlocks|), Max(1, maxCache))
    {
      hide Stream, GoodGenerator;
      out := new bv8[length];
      var remaining, outPos, cur := length, 0, offset;
      EmptyStream(gen, blockSize, offset);
      while remaining > 0
        invariant Valid() && fresh(out) && out.Length == length
        invariant 0 <= remaining && outPos == length - remaining && cur == offset + outPos
        invariant out[..outPos] == Stream(gen, blockSize, offset, outPos)
        invariant |cachedBlocks| <= Max(old(|cachedBlocks|), Max(1, maxCache))
      {
        ghost var done := out[..outPos];
        var take := CopyStep(out, outPos, cur);
        assert out[..outPos + take] == done + Stream(gen, blockSize, cur, take);
        StreamJoins(gen, blockSize, offset, outPos, take);
        outPos := outPos + take;
        cur := cur + take;
        remaining := remaining - take;
      }
      assert out[..] == out[..outPos];
    }

    /** The inner loop of XorInto: one block's worth, in place when the slices overlap. */
    method XorBlock(input: Slice, output: Slice, at: nat, block: Bytes, off: nat, take: nat)
      requires input.Valid() && output.Valid() && input.len <= output.len && ReadsAhead(input, output)
      requires at + take <= input.len && off + take <= |block|
      modifies output.buffer
      ensures output.Contents() == old(output.Contents()[..at])
                                   + XorBytes(old(input.Contents()[at..at + take]), block[off..off + take])
                                   + old(output.Contents()[at + take..])
      ensures input.Contents()[at + take..] == old(input.Contents()[at + take..])
      ensures output.OutsideUnchanged(old(output.buffer[..]), output.buffer[..])
    {
      hide XorBytes;
      ghost var before, read, all := input.Contents(), input.buffer[..], output.buffer[..];
      XorLoop(input.buffer, input.start + at, input.start + input.len, output.buffer, output.start + at, block, off,
              take);
      SliceSpliced(output, all, output.buffer[..], before[at..at + take], block[off..off + take], at);
      SuffixKept(read, input.buffer[..], input.start, input.len, at + take);
    }

    /** The loop itself, on array positions: src up to end is not overwritten before it is read. */
    static method XorLoop(input: array<bv8>, src: nat, end: nat, output: array<bv8>, dst: nat, block: Bytes, off: nat,
                          take: nat)
      requires src + take <= end <= input.Length && dst + take <= output.Length && off + take <= |block|
      requires input != output || dst <= src || end <= dst
      modifies output
      ensures forall p :: 0 <= p < output.Length ==>
                output[p] == if dst <= p < dst + take then old(input[src + (p - dst)]) ^ block[off + (p - dst)]
                             else old(output[p])
      ensures forall p :: src + take <= p < end ==> input[p] == old(input[p])
    {
      ghost var before, out := input[..], output[..];
      var i := 0;
      while i < take
        invariant 0 <= i <= take
        invariant forall p :: 0 <= p < output.Length ==>
          output[p] == if dst <= p < dst + i then before[src + (p - dst)] ^ block[off + (p - dst)] else out[p]
        invariant forall p :: src + i <= p < end ==> input[p] == before[p]
      {
        output[dst + i] := input[src + i] ^ block[off + i];
        i := i + 1;
      }
    }

    /** One turn of the XorInto loop. */
    method XorStep(input: Slice, output: Slice, inPos: nat, ksPos: nat) returns (take: nat)
      requires Valid() && input.Valid() && output.Valid() && inPos < input.len <= output.len
      requires ReadsAhead(input, output)
      modifies this`cachedBlocks, output.buffer
      ensures Valid() && 0 < take <= input.len - inPos
      ensures output.Contents() == old(output.Contents()[..inPos])
                                   + Masked(gen, blockSize, old(input.Contents()[inPos..inPos + take]), ksPos)
                                   + old(output.Contents()[inPos + take..])
      ensures input.Contents()[inPos + take..] == old(input.Contents()[inPos + take..])
      ensures output.OutsideUnchanged(old(output.buffer[..]), output.buffer[..])
      ensures |cachedBlocks| <= Max(old(|cachedBlocks|), Max(1, maxCache))
    {
      hide Masked, XorBytes, GoodGenerator, Slice.OutsideUnchanged, Slice.Contents;
      var blockIdx, off := ksPos / blockSize, ksPos % blockSize;
      var block := GetBlock(blockIdx);
      take := blockSize - off;
      if take > input.len - inPos {
        take := input.len - inPos;
      }
      MaskedPiece(gen, blockSize, ksPos, input.Contents()[inPos..inPos + take]);
      XorBlock(input, output, inPos, block, off, take);
    }

    /**
     XorInto: every input byte combined with its stream byte, also when input and output are
     the same slice or overlap with the output in front; bytes past the input are untouched.
     */
    method XorInto(input: Slice, output: Slice, keystreamOffset: int)
      requires Valid() && keystreamOffset >= 0
      requires input.Valid() && output.Valid() && input.len <= output.len && ReadsAhead(input, output)
      modifies this`cachedBlocks, output.buffer
      ensures Valid()
      ensures output.Contents()[..input.len] == Masked(gen, blockSize, old(input.Contents()), keystreamOffset)
      ensures output.Contents()[input.len..] == old(output.Contents()[input.len..])
      ensures output.OutsideUnchanged(old(output.buffer[..]), output.buffer[..])
      ensures |cachedBlocks| <= Max(old(|cachedBlocks|), Max(1, maxCache))
    {
      hide Masked, XorBytes, GoodGenerator, Progress, Slice.Contents;
      ghost var data, rest := input.Contents(), output.Contents();
      var remaining, inPos, ksPos := input.len, 0, keystreamOffset;
      ProgressStarts(gen, blockSize, data, rest, keystreamOffset);
      while remaining > 0
        invariant Valid()
        invariant 0 <= remaining && inPos == input.len - remaining && ksPos == keystreamOffset + inPos
        invariant Progress(gen, blockSize, data, rest, input.Contents(), output.Contents(), keystreamOffset, inPos)
        invariant output.OutsideUnchanged(old(output.buffer[..]), output.buffer[..])
        invariant |cachedBlocks| <= Max(old(|cachedBlocks|), Max(1, maxCache))
      {
        ghost var before, out := input.Contents(), output.Contents();
        var take := XorStep(input, output, inPos, ksPos);
        ProgressStep(gen, blockSize, data, rest, before, out, input.Contents(), output.Contents(), keystreamOffset,
                     inPos, take);
        inPos := inPos + take;
        ksPos := ksPos + take;
        remaining := remaining - take;
      }
      ProgressEnds(gen, blockSize, data, rest, input.Contents(), output.Contents(), keystreamOffset);
    }

    method Xor(data: array<bv8>, keystreamOffset: int) returns (out: array<bv8>)
      requires Valid() && keystreamOffset >= 0
      modifies this`cachedBlocks
      ensures Valid() && fresh(out)
      ensures out[..] == Masked(gen, blockSize, data[..], keystreamOffset)
      ensures |cachedBlocks| <= Max(old(|cachedBlocks|), Max(1, maxCache))
    {
      hide Masked, GoodGenerator;
      out := new bv8[data.Length];
      var source, target := Slice(data, 0, data.Length), Slice(out, 0, out.Length);
      assert source.Contents() == data[..];
      XorInto(source, target, keystreamOffset);
      assert out[..] == target.Contents()[..source.len];
    }

    method Seek(byteOffset: int)
      requires Valid() && byteOffset >= 0
      modifies this`position
      ensures Valid() && position == byteOffset
    {
      position := byteOffset;
    }

    method Rewind()
      requires Valid()
      modifies this`position
      ensures Valid() && position == 0
    {
      position := 0;
    }

    /** Read: the next bytes of the stream; the position moves past them. */
    method Read(length: int) returns (out: array<bv8>)
      requires Valid() && length >= 0
      modifies this`cachedBlocks, this`position
      ensures Valid() && fresh(out)
      ensures out[..] == Stream(gen, blockSize, old(position), length)
      ensures position == old(position) + length
      ensures |cachedBlocks| <= Max(old(|cachedBlocks|), Max(1, maxCache))
    {
      out := GetBytes(position, length);
      position := position + length;
    }

    /** XorRead: data combined with the next bytes of the stream; the position moves past them. */
    method XorRead(data: array<bv8>) returns (out: array<bv8>)
      requires Valid()
      modifies this`cachedBlocks, this`position
      ensures Valid() && fresh(out)
      ensures out[..] == Masked(gen, blockSize, data[..], old(position))
      ensures position == old(position) + data.Length
      ensures |cachedBlocks| <= Max(old(|cachedBlocks|), Max(1, maxCache))
    {
      out := Xor(data, position);
      position := position + data.Length;
    }

    method ClearCache()
      requires Valid()
      modifies this`cachedBlocks
      ensures Valid() && CacheFits() && cachedBlocks == map[]
    {
      cachedBlocks := map[];
    }

    /** SetCacheLimit evicts nothing: the cache still fits unless the limit falls below its size. */
    method SetCacheLimit(n: int)
      requires Valid()
      modifies this`maxCache
      ensures Valid() && maxCache == n
      ensures old(CacheFits()) && n >= old(maxCache) ==> CacheFits()
    {
      maxCache := n;
    }

    // ---------------------------------------------------------- sequences of calls

    /** One call, whatever it is. */
    method Perform(call: Call) returns (out: seq<bv8>)
      requires Valid()
      modifies this`cachedBlocks, this`position, this`maxCache
      ensures Valid() && out == OutputOf(gen, blockSize, old(position), call)
      ensures position == Moved(old(position), call)
      ensures maxCache == LimitAfter(old(maxCache), [call])
      ensures old(CacheFits()) && maxCache >= old(maxCache) ==> CacheFits()
    {
      hide Stream, Masked, GoodGenerator;
      out := [];
      match call {
        case CallGetBytes(offset, length) =>
          var bytes := GetBytes(offset, length);
          out := bytes[..];
        case CallXor(data, offset) =>
          var buffer := ArrayOf(data);
          var bytes := Xor(buffer, offset);
          out := bytes[..];
        case CallRead(length) =>
          var bytes := Read(length);
          out := bytes[..];
        case CallXorRead(data) =>
          var buffer := ArrayOf(data);
          var bytes := XorRead(buffer);
          out := bytes[..];
        case CallSeek(offset) => Seek(offset);
        case CallRewind => Rewind();
        case CallClearCache => ClearCache();
        case CallSetCacheLimit(limit) => SetCacheLimit(limit);
      }
    }

    /**
     Any sequence of calls returns what the infinite stream says, whatever was cached or evicted
     on the way; and the cache keeps fitting its limit as long as no call lowers it.
     */
    method PerformAll(calls: seq<Call>) returns (outs: seq<seq<bv8>>)
      requires Valid()
      modifies this`cachedBlocks, this`position, this`maxCache
      ensures Valid() && outs == Outputs(gen, blockSize, old(position), calls)
      ensures position == PositionAfter(old(position), calls) && maxCache == LimitAfter(old(maxCache), calls)
      ensures old(CacheFits()) && NeverLowered(old(maxCache), calls) ==> CacheFits()
    {
      hide OutputOf, Moved, GoodGenerator;
      outs := [];
      var i := 0;
      while i < |calls|
        invariant 0 <= i <= |calls| && Valid()
        invariant outs == Outputs(gen, blockSize, old(position), calls[..i])
        invariant position == PositionAfter(old(position), calls[..i])
        invariant maxCache == LimitAfter(old(maxCache), calls[..i])
        invariant old(CacheFits()) && NeverLowered(old(maxCache), calls[..i]) ==> CacheFits()
      {
        assert Front(calls[..i + 1]) == calls[..i] && Last(calls[..i + 1]) == calls[i];
        assert Front([calls[i]]) == [];
        var out := Perform(calls[i]);
        outs := outs + [out];
        i := i + 1;
      }
      assert calls[..|calls|] == calls;
    }
  }

  method ArrayOf(data: seq<bv8>) returns (a: array<bv8>)
    ensures fresh(a) && a[..] == data
  {
    a := new bv8[|data|](i requires 0 <= i < |data| => data[i]);
  }

  lemma EmptyStream(gen: Generator, bs: int, off: nat)
    requires GoodGenerator(gen, bs)
    ensures Stream(gen, bs, off, 0) == []
  {
  }

  lemma EmptyMasked(gen: Generator, bs: int, off: nat)
    requires GoodGenerator(gen, bs)
    ensures Masked(gen, bs, [], off) == []
  {
  }

  /** Combining a piece with a slice of one block masks it with the stream. */
  lemma MaskedPiece(gen: Generator, bs: int, cur: nat, piece: Bytes)
    requires GoodGenerator(gen, bs) && cur % bs + |piece| <= bs
    ensures XorBytes(piece, gen(cur / bs)[cur % bs..cur % bs + |piece|]) == Masked(gen, bs, piece, cur)
  {
    hide Stream;
    StreamInBlock(gen, bs, cur, |piece|);
  }

  /** A sequence that differs from out by a combined piece is out with that piece spliced in. */
  lemma XorSpliced(out: Bytes, next: Bytes, piece: Bytes, key: Bytes, at: nat)
    requires |out| == |next| && |piece| == |key| && at + |piece| <= |out|
    requires forall p :: 0 <= p < |out| ==>
               next[p] == if at <= p < at + |piece| then piece[p - at] ^ key[p - at] else out[p]
    ensures next == out[..at] + XorBytes(piece, key) + out[at + |piece|..]
  {
    var spliced := out[..at] + XorBytes(piece, key) + out[at + |piece|..];
    forall p | 0 <= p < |out|
      ensures next[p] == spliced[p]
    {
      assert at <= p < at + |piece| ==> spliced[p] == XorBytes(piece, key)[p - at];
    }
  }

  /** The same, seen through a slice of the array. */
  lemma SliceSpliced(s: Slice, before: Bytes, after: Bytes, piece: Bytes, key: Bytes, at: nat)
    requires s.start + s.len <= |before| == |after| && |piece| == |key| && at + |piece| <= s.len
    requires var dst := s.start + at;
             forall p :: 0 <= p < |after| ==>
               after[p] == if dst <= p < dst + |piece| then piece[p - dst] ^ key[p - dst] else before[p]
    ensures var out := before[s.start..s.start + s.len];
            after[s.start..s.start + s.len] == out[..at] + XorBytes(piece, key) + out[at + |piece|..]
    ensures s.OutsideUnchanged(before, after)
  {
    hide XorBytes;
    XorSpliced(before[s.start..s.start + s.len], after[s.start..s.start + s.len], piece, key, at);
  }

  lemma SuffixKept(before: Bytes, after: Bytes, start: nat, len: nat, at: nat)
    requires start + len <= |before| == |after| && at <= len
    requires forall p :: start + at <= p < start + len ==> after[p] == before[p]
    ensures after[start..start + len][at..] == before[start..start + len][at..]
  {
    assert after[start..start + len][at..] == after[start + at..start + len];
    assert before[start..start + len][at..] == before[start + at..start + len];
  }

  /** How far XorInto has come: the output is masked below `at`, and nothing above is touched. */
  ghost predicate Progress(gen: Generator, bs: int, data: Bytes, rest: Bytes, input: Bytes, output: Bytes, off: nat,
                           at: nat)
    requires GoodGenerator(gen, bs)
  {
    && |input| == |data| <= |output| == |rest| && at <= |data|
    && output[..at] == Masked(gen, bs, data[..at], off)
    && output[at..] == rest[at..] && input[at..] == data[at..]
  }

  lemma ProgressStep(gen: Generator, bs: int, data: Bytes, rest: Bytes, input: Bytes, output: Bytes, input': Bytes,
                     output': Bytes, off: nat, at: nat, take: nat)
    requires GoodGenerator(gen, bs) && Progress(gen, bs, data, rest, input, output, off, at)
    requires at + take <= |data| && |input'| == |input|
    requires output' == output[..at] + Masked(gen, bs, input[at..at + take], off + at) + output[at + take..]
    requires input'[at + take..] == input[at + take..]
    ensures Progress(gen, bs, data, rest, input', output', off, at + take)
  {
    hide Masked, GoodGenerator;
    SliceOfSuffix(input, data, at, take);
    MaskedAdvance(gen, bs, data, at, take, off);
    Splice(output, rest, output', at, Masked(gen, bs, data[at..at + take], off + at));
  }

  lemma ProgressStarts(gen: Generator, bs: int, data: Bytes, rest: Bytes, off: nat)
    requires GoodGenerator(gen, bs) && |data| <= |rest|
    ensures Progress(gen, bs, data, rest, data, rest, off, 0)
  {
    hide Masked;
    EmptyMasked(gen, bs, off);
    assert data[..0] == [];
  }

  lemma ProgressEnds(gen: Generator, bs: int, data: Bytes, rest: Bytes, input: Bytes, output: Bytes, off: nat)
    requires GoodGenerator(gen, bs) && Progress(gen, bs, data, rest, input, output, off, |data|)
    ensures output[..|data|] == Masked(gen, bs, data, off) && output[|data|..] == rest[|data|..]
  {
    hide Masked;
    assert data[..|data|] == data;
  }

  /** A masked prefix grows by a masked piece. */
  lemma MaskedAdvance(gen: Generator, bs: int, data: Bytes, at: nat, take: nat, off: nat)
    requires GoodGenerator(gen, bs) && at + take <= |data|
    ensures Masked(gen, bs, data[..at], off) + Masked(gen, bs, data[at..at + take], off + at)
         == Masked(gen, bs, data[..at + take], off)
  {
    hide Masked;
    MaskedJoins(gen, bs, data[..at], data[at..at + take], off);
    assert data[..at + take] == data[..at] + data[at..at + take];
  }

  lemma SliceOfSuffix(a: Bytes, b: Bytes, at: nat, take: nat)
    requires |a| == |b| && at + take <= |a| && a[at..] == b[at..]
    ensures a[at..at + take] == b[at..at + take] && a[at + take..] == b[at + take..]
  {
    assert a[at..at + take] == a[at..][..take] && b[at..at + take] == b[at..][..take];
    assert a[at + take..] == a[at..][take..] && b[at + take..] == b[at..][take..];
  }

  /** Writing a piece in the middle extends the finished prefix and shortens the untouched rest. */
  lemma Splice(out: Bytes, rest: Bytes, next: Bytes, at: nat, piece: Bytes)
    requires |out| == |rest| && at + |piece| <= |out| && out[at..] == rest[at..]
    requires next == out[..at] + piece + out[at + |piece|..]
    ensures next[..at + |piece|] == out[..at] + piece
    ensures next[at + |piece|..] == rest[at + |piece|..]
  {
    assert next[at + |piece|..] == out[at..][|piece|..];
    assert rest[at + |piece|..] == rest[at..][|piece|..];
  }

  /** The first element a range over a Go map happens to visit. */
  method AnyElement<T>(s: set<T>) returns (x: T)
    requires s != {}
    ensures x in s
  {
    x :| x in s;
  }

  lemma DropSize(m: map<int, Bytes>, k: int)
    requires k in m
    ensures |m - {k}| == |m| - 1
  {
    assert (m - {k}).Keys == m.Keys - {k};
  }

  lemma InsertSize(m: map<int, Bytes>, k: int, v: Bytes)
    requires k !in m
    ensures |m[k := v]| == |m| + 1
  {
    assert m[k := v].Keys == m.Keys + {k};
  }
}
