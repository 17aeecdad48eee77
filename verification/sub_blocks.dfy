/** Data sub-block chains (sections 15 and 16 of GIF89a): a size byte, that
    many payload bytes, repeated until a block of size 0.  The Image Data,
    Application Extension and Comment Extension records of src/gif_parser.cc
    each run this same loop. */
module SubBlocks {
  import opened Bytes

  /** A data sub-block.  Only the size is kept: the source reserves capacity in
      its data vector but never resizes it, so the payload bytes are consumed
      and not retained. */
  datatype SubBlock = SubBlock(size: byte)

  /** `SubBlock::parse`: a size byte, then that many payload bytes unless it is 0. */
  function ReadSubBlock(s: seq<byte>, pos: nat): (r: Result<Parsed<SubBlock>>)
    ensures r.Success? <==> pos < |s| && pos + 1 + s[pos] as int <= |s|
    ensures r.Success? ==>
      && r.value.value.size == s[pos]
      && r.value.next == pos + 1 + s[pos] as int
    ensures r.Success? && s[pos] == 0 ==> r.value.next == pos + 1
  {
    var size :- ReadByte(s, pos);
    if size.value == 0 then
      Success(Parsed(SubBlock(0), size.next))
    else
      var payload :- ReadBytes(s, size.next, size.value as int);
      Success(Parsed(SubBlock(size.value), payload.next))
  }

  /** Bytes a chain occupies: one size byte per block plus its payload. */
  function ChainLength(bs: seq<SubBlock>): nat {
    if bs == [] then 0 else 1 + bs[0].size as int + ChainLength(bs[1..])
  }

  /** Non-empty, ends in the size-0 terminator, and has no earlier terminator. */
  predicate Terminated(bs: seq<SubBlock>) {
    && |bs| >= 1
    && bs[|bs| - 1].size == 0
    && forall i :: 0 <= i < |bs| - 1 ==> bs[i].size != 0
  }

  /** Position of block i's size byte in a chain starting at `pos`. */
  function Offset(pos: nat, bs: seq<SubBlock>, i: nat): nat
    requires i <= |bs|
  {
    pos + ChainLength(bs[..i])
  }

  /** Declarative reading of a chain: `bs` is terminated, fits in the input,
      and block i's size byte sits at `pos` plus the length of blocks 0..i-1. */
  predicate ChainAt(s: seq<byte>, pos: nat, bs: seq<SubBlock>) {
    && Terminated(bs)
    && pos + ChainLength(bs) <= |s|
    && forall i {:trigger SizeByteAt(s, pos, bs, i)} :: 0 <= i < |bs| ==> SizeByteAt(s, pos, bs, i)
  }

  /** Block i's size byte is where the chain's layout puts it. */
  predicate SizeByteAt(s: seq<byte>, pos: nat, bs: seq<SubBlock>, i: nat)
    requires i < |bs|
  {
    Offset(pos, bs, i) < |s| && s[Offset(pos, bs, i)] == bs[i].size
  }

  /** The `while (true) { block.parse(input); push_back(block); if (block.size == 0) break; }`
      loop.  Hitting the end of input before a size-0 block is a failure. */
  function ReadChain(s: seq<byte>, pos: nat): (r: Result<Parsed<seq<SubBlock>>>)
    ensures r.Success? ==>
      && Terminated(r.value.value)
      && r.value.next == pos + ChainLength(r.value.value)
      && r.value.next <= |s|
    decreases |s| - pos
  {
    var block :- ReadSubBlock(s, pos);
    if block.value.size == 0 then
      Success(Parsed([block.value], block.next))
    else
      var rest :- ReadChain(s, block.next);
      var bs := [block.value] + rest.value;
      assert bs[1..] == rest.value;
      Success(Parsed(bs, rest.next))
  }

  /** Block i's size byte in the chain `[b] + rest` at `pos` is block i-1's in
      `rest` at the position just after `b`. */
  lemma ConsOffset(b: SubBlock, rest: seq<SubBlock>, i: nat)
    requires 1 <= i <= |rest|
    ensures forall pos: nat :: Offset(pos, [b] + rest, i) == Offset(pos + 1 + b.size as int, rest, i - 1)
  {
    assert ([b] + rest)[..i] == [b] + rest[..i - 1];
    assert ([b] + rest[..i - 1])[1..] == rest[..i - 1];
  }

  /** A non-terminal block in front of a chain gives a chain. */
  lemma ConsChainAt(s: seq<byte>, pos: nat, b: SubBlock, rest: seq<SubBlock>)
    requires pos < |s| && s[pos] == b.size && b.size != 0
    requires ChainAt(s, pos + 1 + b.size as int, rest)
    ensures ChainAt(s, pos, [b] + rest)
  {
    var bs := [b] + rest;
    assert bs[1..] == rest;
    assert Offset(pos, bs, 0) == pos by { assert bs[..0] == []; }
    assert SizeByteAt(s, pos, bs, 0);
    forall i | 1 <= i < |bs|
      ensures SizeByteAt(s, pos, bs, i)
    {
      assert SizeByteAt(s, pos + 1 + b.size as int, rest, i - 1);
      ConsOffset(b, rest, i);
      assert rest[i - 1] == bs[i];
    }
  }

  /** A chain whose first block is not the terminator continues with a chain. */
  lemma UnconsChainAt(s: seq<byte>, pos: nat, bs: seq<SubBlock>)
    requires ChainAt(s, pos, bs) && bs[0].size != 0
    ensures |bs| >= 2 && s[pos] == bs[0].size
    ensures ChainAt(s, pos + 1 + bs[0].size as int, bs[1..])
  {
    assert Offset(pos, bs, 0) == pos by { assert bs[..0] == []; }
    assert SizeByteAt(s, pos, bs, 0);
    var rest := bs[1..];
    assert bs == [bs[0]] + rest;
    assert ChainLength(bs) == 1 + bs[0].size as int + ChainLength(rest);
    assert Terminated(rest) by {
      assert |bs| >= 2;
      assert forall i :: 0 <= i < |rest| - 1 ==> rest[i] == bs[i + 1];
    }
    var next := pos + 1 + bs[0].size as int;
    forall i | 0 <= i < |rest|
      ensures SizeByteAt(s, next, rest, i)
    {
      assert SizeByteAt(s, pos, bs, i + 1);
      ConsOffset(bs[0], rest, i + 1);
      assert bs[i + 1] == rest[i];
    }
  }

  /** The chain reader succeeds exactly on the chains `ChainAt` describes, and
      consumes exactly their length. */
  lemma ReadChainCharacterization(s: seq<byte>, pos: nat, bs: seq<SubBlock>, e: nat)
    ensures ReadChain(s, pos) == Success(Parsed(bs, e)) <==> ChainAt(s, pos, bs) && e == pos + ChainLength(bs)
  {
    if ReadChain(s, pos) == Success(Parsed(bs, e)) {
      ReadChainSound(s, pos);
    }
    if ChainAt(s, pos, bs) && e == pos + ChainLength(bs) {
      ReadChainComplete(s, pos, bs);
    }
  }

  lemma ReadChainTerminator(s: seq<byte>, pos: nat)
    requires pos < |s| && s[pos] == 0
    ensures ReadChain(s, pos) == Success(Parsed([SubBlock(0)], pos + 1))
  {
  }

  lemma ReadChainCons(s: seq<byte>, pos: nat)
    requires pos < |s| && s[pos] != 0 && pos + 1 + s[pos] as int <= |s|
    ensures ReadChain(s, pos) == match ReadChain(s, pos + 1 + s[pos] as int)
      case Success(rest) => Success(Parsed([SubBlock(s[pos])] + rest.value, rest.next))
      case Failure(e) => Failure(e)
  {
  }

  lemma {:induction false} ReadChainSound(s: seq<byte>, pos: nat)
    requires ReadChain(s, pos).Success?
    ensures ChainAt(s, pos, ReadChain(s, pos).value.value)
    decreases |s| - pos
  {
    assert pos < |s|;
    if s[pos] != 0 {
      var next := pos + 1 + s[pos] as int;
      ReadChainCons(s, pos);
      ReadChainSound(s, next);
      ConsChainAt(s, pos, SubBlock(s[pos]), ReadChain(s, next).value.value);
    } else {
      ReadChainTerminator(s, pos);
      var bs := [SubBlock(0)];
      assert Offset(pos, bs, 0) == pos by { assert bs[..0] == []; }
      assert SizeByteAt(s, pos, bs, 0);
    }
  }

  lemma {:induction false} ReadChainComplete(s: seq<byte>, pos: nat, bs: seq<SubBlock>)
    requires ChainAt(s, pos, bs)
    ensures ReadChain(s, pos) == Success(Parsed(bs, pos + ChainLength(bs)))
    decreases |bs|
  {
    if bs[0].size == 0 {
      ReadChainCompleteLast(s, pos, bs);
    } else {
      UnconsChainAt(s, pos, bs);
      ReadChainComplete(s, pos + 1 + bs[0].size as int, bs[1..]);
      ReadChainCompleteCons(s, pos, bs);
    }
  }

  lemma ReadChainCompleteCons(s: seq<byte>, pos: nat, bs: seq<SubBlock>)
    requires |bs| >= 2 && pos < |s| && s[pos] == bs[0].size && bs[0].size != 0
    requires ReadChain(s, pos + 1 + bs[0].size as int)
          == Success(Parsed(bs[1..], pos + 1 + bs[0].size as int + ChainLength(bs[1..])))
    ensures ReadChain(s, pos) == Success(Parsed(bs, pos + ChainLength(bs)))
  {
    ReadChainCons(s, pos);
    assert bs == [SubBlock(s[pos])] + bs[1..];
  }

  lemma ReadChainCompleteLast(s: seq<byte>, pos: nat, bs: seq<SubBlock>)
    requires ChainAt(s, pos, bs) && bs[0].size == 0
    ensures ReadChain(s, pos) == Success(Parsed(bs, pos + ChainLength(bs)))
  {
    assert Offset(pos, bs, 0) == pos by { assert bs[..0] == []; }
    assert SizeByteAt(s, pos, bs, 0);
    TerminatorIsLast(bs);
    ReadChainTerminator(s, pos);
    assert bs == [SubBlock(0)];
  }

  lemma TerminatorIsLast(bs: seq<SubBlock>)
    requires Terminated(bs) && bs[0].size == 0
    ensures |bs| == 1
  {
  }
}
