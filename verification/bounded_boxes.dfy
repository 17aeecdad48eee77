/** The box decoder with the two defects of src/mp4_parser.cc corrected:
    a container's children are bounded by its declared size, and a declared
    size below the 8 header bytes, or one running past its parent or the
    input, is a StructuralError instead of a wrapped skip. */
module BoundedBoxes {
  import opened Bytes
  import opened Boxes

  /** Sum of the declared sizes of a list of boxes. */
  function SizeSum(bs: seq<Box>): int {
    if bs == [] then 0 else bs[0].header.size as int + SizeSum(bs[1..])
  }

  /** A box whose span `[pos, pos + size)` lies inside `[pos, limit)`: a
      container's children tile its payload exactly, a leaf's payload is skipped. */
  function ParseBoxBounded(s: seq<byte>, pos: nat, limit: nat, level: int): (r: Result<Parsed<Box>>)
    requires limit <= |s|
    ensures r.Success? ==>
      var b := r.value.value;
      && pos + 8 <= limit
      && b.header == ParseBoxHeader(s, pos).value.value
      && b.beginPosition == pos + 1
      && b.endPosition == b.beginPosition + b.header.size as int - 1
      && 8 <= b.header.size as int
      && r.value.next == pos + b.header.size as int <= limit
      && WellLevelled(b, level)
      && (IsContainer(b.header.boxType) ==> SizeSum(b.subBoxes) == b.header.size as int - 8)
      && (!IsContainer(b.header.boxType) ==> b.subBoxes == [])
    decreases limit - pos, 0
  {
    if pos + 8 > limit then
      Failure(StructuralError)
    else
      var h := ParseBoxHeader(s, pos).value;
      var size := h.value.size as int;
      if size < 8 || pos + size > limit then
        Failure(StructuralError)
      else if IsContainer(h.value.boxType) then
        var children :- ParseChildrenBounded(s, h.next, pos + size, level + 1);
        Success(Parsed(Box(h.value, pos + 1, pos + size, level, children.value), pos + size))
      else
        Success(Parsed(Box(h.value, pos + 1, pos + size, level, []), pos + size))
  }

  /** Boxes one after another, ending exactly at `limit`. */
  function ParseChildrenBounded(s: seq<byte>, pos: nat, limit: nat, level: int): (r: Result<Parsed<seq<Box>>>)
    requires pos <= limit <= |s|
    ensures r.Success? ==>
      && r.value.next == limit
      && SizeSum(r.value.value) == limit - pos
      && (forall i :: 0 <= i < |r.value.value| ==> WellLevelled(r.value.value[i], level))
      && InStreamOrder(r.value.value)
      && (r.value.value != [] ==> r.value.value[0].beginPosition == pos + 1)
    ensures pos == limit ==> r == Success(Parsed([], pos))
    decreases limit - pos, 1
  {
    if pos == limit then
      Success(Parsed([], pos))
    else
      var b :- ParseBoxBounded(s, pos, limit, level);
      var rest :- ParseChildrenBounded(s, b.next, limit, level);
      var bs := [b.value] + rest.value;
      assert bs[1..] == rest.value;
      Success(Parsed(bs, rest.next))
  }

  /** The whole input as a list of root boxes. */
  function ParseFileBounded(s: seq<byte>): (r: Result<Parsed<seq<Box>>>)
    ensures r.Success? ==>
      && r.value.next == |s|
      && SizeSum(r.value.value) == |s|
      && (forall i :: 0 <= i < |r.value.value| ==> WellLevelled(r.value.value[i], 0))
      && InStreamOrder(r.value.value)
      && (r.value.value != [] ==> r.value.value[0].beginPosition == 1)
  {
    ParseChildrenBounded(s, 0, |s|, 0)
  }

  /** A declared size below the header's 8 bytes is rejected. */
  lemma SmallSizeRejected(s: seq<byte>, pos: nat, limit: nat, level: int)
    requires pos + 8 <= limit <= |s|
    requires ParseBoxHeader(s, pos).value.value.size as int < 8
    ensures ParseBoxBounded(s, pos, limit, level) == Failure(StructuralError)
  {
  }

  /** The counterpart of `Boxes.EmptyContainerSwallowsNext`: bounded by its
      declared size, the empty container gets no children and the following
      box stays a root box. */
  lemma EmptyContainerKeepsSibling(s: seq<byte>)
    requires 16 <= |s|
    requires var h := ParseBoxHeader(s, 0).value.value; IsContainer(h.boxType) && h.size as int == 8
    requires var h := ParseBoxHeader(s, 8).value.value;
      !IsContainer(h.boxType) && 8 <= h.size as int && 8 + h.size as int == |s|
    ensures var h0 := ParseBoxHeader(s, 0).value.value;
      var h8 := ParseBoxHeader(s, 8).value.value;
      ParseFileBounded(s)
      == Success(Parsed([Box(h0, 1, 8, 0, []), Box(h8, 9, |s|, 0, [])], |s|))
  {
    var h0 := ParseBoxHeader(s, 0).value.value;
    var h8 := ParseBoxHeader(s, 8).value.value;
    BoundedEmptyContainerStep(s, 0, |s|, 0);
    BoundedLeafToLimit(s, 8, |s|, 0);
    BoundedConsChild(s, 0, |s|, 0, Box(h0, 1, 8, 0, []), 8, [Box(h8, 9, |s|, 0, [])]);
    assert [Box(h0, 1, 8, 0, [])] + [Box(h8, 9, |s|, 0, [])] == [Box(h0, 1, 8, 0, []), Box(h8, 9, |s|, 0, [])];
  }

  /** A leaf that fills the rest of its parent is the last child. */
  lemma BoundedLeafToLimit(s: seq<byte>, pos: nat, limit: nat, level: int)
    requires pos + 8 <= limit <= |s|
    requires var h := ParseBoxHeader(s, pos).value.value;
      !IsContainer(h.boxType) && 8 <= h.size as int && pos + h.size as int == limit
    ensures var h := ParseBoxHeader(s, pos).value.value;
      ParseChildrenBounded(s, pos, limit, level) == Success(Parsed([Box(h, pos + 1, limit, level, [])], limit))
  {
    var h := ParseBoxHeader(s, pos).value.value;
    BoundedLeafStep(s, pos, limit, level);
    BoundedLastChild(s, pos, limit, level, Box(h, pos + 1, limit, level, []));
  }

  /** A box that reaches the limit ends the list. */
  lemma BoundedLastChild(s: seq<byte>, pos: nat, limit: nat, level: int, b: Box)
    requires pos < limit <= |s|
    requires ParseBoxBounded(s, pos, limit, level) == Success(Parsed(b, limit))
    ensures ParseChildrenBounded(s, pos, limit, level) == Success(Parsed([b], limit))
  {
    assert ParseChildrenBounded(s, limit, limit, level) == Success(Parsed([], limit));
    assert [b] + [] == [b];
  }

  /** A box in front of a decoded list. */
  lemma BoundedConsChild(s: seq<byte>, pos: nat, limit: nat, level: int, b: Box, next: nat, rest: seq<Box>)
    requires pos < limit <= |s| && next <= limit
    requires ParseBoxBounded(s, pos, limit, level) == Success(Parsed(b, next))
    requires ParseChildrenBounded(s, next, limit, level) == Success(Parsed(rest, limit))
    ensures ParseChildrenBounded(s, pos, limit, level) == Success(Parsed([b] + rest, limit))
  {
  }

  /** A container whose declared size is just its header has no children. */
  lemma BoundedEmptyContainerStep(s: seq<byte>, pos: nat, limit: nat, level: int)
    requires pos + 8 <= limit <= |s|
    requires var h := ParseBoxHeader(s, pos).value.value; IsContainer(h.boxType) && h.size as int == 8
    ensures var h := ParseBoxHeader(s, pos).value.value;
      ParseBoxBounded(s, pos, limit, level)
      == Success(Parsed(Box(h, pos + 1, pos + 8, level, []), pos + 8))
  {
    assert ParseChildrenBounded(s, pos + 8, pos + 8, level + 1) == Success(Parsed([], pos + 8));
  }

  lemma BoundedLeafStep(s: seq<byte>, pos: nat, limit: nat, level: int)
    requires pos + 8 <= limit <= |s|
    requires var h := ParseBoxHeader(s, pos).value.value;
      !IsContainer(h.boxType) && 8 <= h.size as int && pos + h.size as int <= limit
    ensures var h := ParseBoxHeader(s, pos).value.value;
      ParseBoxBounded(s, pos, limit, level)
      == Success(Parsed(Box(h, pos + 1, pos + h.size as int, level, []), pos + h.size as int))
  {
  }

  /** On a leaf whose declared size fits, the two decoders agree. */
  lemma AgreeOnFittingLeaf(s: seq<byte>, pos: nat, level: int)
    requires |s| < TwoTo31
    requires pos + 8 <= |s|
    requires var h := ParseBoxHeader(s, pos).value.value;
      !IsContainer(h.boxType) && 8 <= h.size as int && pos + h.size as int <= |s|
    ensures ParseBoxBounded(s, pos, |s|, level) == ParseBox(s, pos, level)
  {
    FittingLeafStep(s, pos, level);
    BoundedLeafStep(s, pos, |s|, level);
  }

  /** An empty `moov` followed by an 8-byte `free`: the source's decoder makes
      `free` a child of `moov`, the bounded one keeps it a second root box. */
  lemma MoovThenFreeDecoders(s: seq<byte>)
    requires s == [0, 0, 0, 8, 0x6D, 0x6F, 0x6F, 0x76, 0, 0, 0, 8, 0x66, 0x72, 0x65, 0x65]
    ensures ParseFile(s).Success? && |ParseFile(s).value.value| == 1
    ensures |ParseFile(s).value.value[0].subBoxes| == 1
    ensures ParseFileBounded(s).Success? && |ParseFileBounded(s).value.value| == 2
    ensures ParseFileBounded(s).value.value[0].subBoxes == []
  {
    assert s[..8] == [0, 0, 0, 8, 0x6D, 0x6F, 0x6F, 0x76];
    MoovHeader(s);
    assert s[8..16] == [0, 0, 0, 8, 0x66, 0x72, 0x65, 0x65];
    FreeHeader(s);
    EmptyContainerSwallowsNext(s);
    EmptyContainerKeepsSibling(s);
  }
}
