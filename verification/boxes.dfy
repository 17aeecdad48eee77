/** The box decoder of src/mp4_parser.cc (box structure of section 4.2 of
    ISO/IEC 14496-12): an 8-byte header of big-endian size and 4-character
    type, then either child boxes (five container types) or a skipped
    payload, with the loop conditions and integer conversions of the source
    kept as written. */
module Boxes {
  import opened Bytes

  type u32 = bv32

  const TwoTo32: int := 0x1_0000_0000
  const TwoTo31: int := 0x8000_0000

  // ---------------------------------------------------------------------
  // swap_endian and the size field
  // ---------------------------------------------------------------------

  /** `swap_endian`: reverses the byte order of a 32-bit word. */
  function SwapEndian(a: u32): (r: u32)
    ensures r >> 24 == a & 0xff
    ensures (r >> 16) & 0xff == (a >> 8) & 0xff
    ensures (r >> 8) & 0xff == (a >> 16) & 0xff
    ensures r & 0xff == a >> 24
  {
    ((a & 0xff00_0000) >> 24) | ((a & 0x00ff_0000) >> 8)
    | ((a & 0xff00) << 8) | ((a & 0xff) << 24)
  }

  lemma SwapEndianInvolution(a: u32)
    ensures SwapEndian(SwapEndian(a)) == a
  {
  }

  /** The uint32 that `input.read` stores from four bytes in stream order on a
      little-endian host. */
  function HostLoad32(b0: byte, b1: byte, b2: byte, b3: byte): u32 {
    (b0 as u32) | ((b1 as u32) << 8) | ((b2 as u32) << 16) | ((b3 as u32) << 24)
  }

  /** Four bytes read as a big-endian number. */
  function BigEndian32(b0: byte, b1: byte, b2: byte, b3: byte): int {
    b0 as int * 0x100_0000 + b1 as int * 0x1_0000 + b2 as int * 0x100 + b3 as int
  }

  /** Swapping the host load gives the big-endian word. */
  lemma SwapGivesBigEndian(b0: byte, b1: byte, b2: byte, b3: byte)
    ensures SwapEndian(HostLoad32(b0, b1, b2, b3))
         == ((b0 as u32) << 24) | ((b1 as u32) << 16) | ((b2 as u32) << 8) | (b3 as u32)
  {
  }

  /** The big-endian word has the big-endian numeric value. */
  lemma BigEndianWordValue(b0: byte, b1: byte, b2: byte, b3: byte)
    ensures (((b0 as u32) << 24) | ((b1 as u32) << 16) | ((b2 as u32) << 8) | (b3 as u32)) as int
         == BigEndian32(b0, b1, b2, b3)
  {
  }

  // ---------------------------------------------------------------------
  // The type string
  // ---------------------------------------------------------------------

  /** `std::string(ctype)` over the 4 tag bytes and a NUL: the bytes up to
      the first NUL, as characters. */
  function TagString(bs: seq<byte>): (t: string)
    ensures |t| <= |bs|
    ensures forall i :: 0 <= i < |t| ==> bs[i] != 0 && t[i] == bs[i] as char
    ensures |t| < |bs| ==> bs[|t|] == 0
  {
    if bs == [] || bs[0] == 0 then [] else [bs[0] as char] + TagString(bs[1..])
  }

  // ---------------------------------------------------------------------
  // BoxHeader
  // ---------------------------------------------------------------------

  /** Positions as the source records them: `beginPosition` is the 0-based
      offset of the header plus one, `endPosition` the offset just after it. */
  datatype BoxHeader = BoxHeader(size: u32, boxType: string, beginPosition: int, endPosition: int)

  function ParseBoxHeader(s: seq<byte>, pos: nat): (r: Result<Parsed<BoxHeader>>)
    ensures r.Success? <==> pos + 8 <= |s|
    ensures r.Success? ==>
      var h := r.value.value;
      && r.value.next == pos + 8
      && h.size as int == BigEndian32(s[pos], s[pos + 1], s[pos + 2], s[pos + 3])
      && h.boxType == TagString(s[pos + 4..pos + 8])
      && h.beginPosition == pos + 1
      && h.endPosition == pos + 8
  {
    var sizeBytes :- ReadBytes(s, pos, 4);
    var typeBytes :- ReadBytes(s, sizeBytes.next, 4);
    var b := sizeBytes.value;
    var size := SwapEndian(HostLoad32(b[0], b[1], b[2], b[3]));
    SwapGivesBigEndian(b[0], b[1], b[2], b[3]);
    BigEndianWordValue(b[0], b[1], b[2], b[3]);
    Success(Parsed(BoxHeader(size, TagString(typeBytes.value), pos + 1, typeBytes.next), typeBytes.next))
  }

  // ---------------------------------------------------------------------
  // Integer conversions of the Box constructor
  // ---------------------------------------------------------------------

  /** An unsigned 32-bit value stored into an int (two's complement). */
  function ToInt32(x: int): (r: int)
    requires 0 <= x < TwoTo32
    ensures -TwoTo31 <= r < TwoTo31
    ensures (r - x) % TwoTo32 == 0
  {
    if x < TwoTo31 then x else x - TwoTo32
  }

  /** `beginPosition + h.size - 1`: int plus uint32 is computed in uint32. */
  function DeclaredEnd(begin: int, size: u32): (e: int)
    ensures -TwoTo31 <= e < TwoTo31
    ensures (e - (begin + size as int - 1)) % TwoTo32 == 0
  {
    ToInt32((begin + size as int - 1) % TwoTo32)
  }

  /** Without wrap-around the declared end is the last byte the size covers. */
  lemma DeclaredEndNoWrap(begin: int, size: u32)
    requires 0 <= begin + size as int - 1 < TwoTo31
    ensures DeclaredEnd(begin, size) == begin + size as int - 1
  {
  }

  /** `h.size > endPosition - beginPosition`: the int difference is converted
      to uint32 for the comparison. */
  predicate ContainerGuard(size: u32, begin: int, end: int)
    ensures 0 <= end - begin < TwoTo32 ==> (ContainerGuard(size, begin, end) <==> size as int > end - begin)
    ensures end - begin == -1 ==> !ContainerGuard(size, begin, end)
  {
    size as int > (end - begin) % TwoTo32
  }

  /** Neither side of the guard changes inside the loop, and the guard holds
      exactly when the declared size is not 0. */
  lemma ContainerGuardIffNonZero(size: u32, begin: int)
    ensures ContainerGuard(size, begin, DeclaredEnd(begin, size)) <==> size != 0
  {
    var x := (begin + size as int - 1) % TwoTo32;
    var e := DeclaredEnd(begin, size);
    assert (e - x) % TwoTo32 == 0;
    assert (e - begin) % TwoTo32 == (size as int - 1) % TwoTo32 by {
      ModShift(e - begin, size as int - 1, e - x, x - (begin + size as int - 1));
    }
  }

  /** a and b differ by multiples of 2^32 when a - b = c + d and both c and d are. */
  lemma ModShift(a: int, b: int, c: int, d: int)
    requires a - b == c + d
    requires c % TwoTo32 == 0 && d % TwoTo32 == 0
    ensures a % TwoTo32 == b % TwoTo32
  {
    var qc := c / TwoTo32;
    var qd := d / TwoTo32;
    assert c == qc * TwoTo32;
    assert d == qd * TwoTo32;
    assert a == b + (qc + qd) * TwoTo32;
  }

  /** The five container types. */
  predicate IsContainer(t: string)
    ensures IsContainer(t) ==> |t| == 4
  {
    t == "moov" || t == "trak" || t == "mdia" || t == "minf" || t == "stbl"
  }

  /** `input.ignore(h.size - 8)`: the subtraction wraps in uint32, so a size
      below 8 asks to skip more than 2^32 - 9 bytes. */
  function LeafSkip(size: u32): (k: nat)
    ensures var n := size as int;
      && k < TwoTo32
      && (n >= 8 ==> k == n - 8)
      && (n < 8 ==> k >= TwoTo32 - 8)
  {
    WrappingSubEight(size as int)
  }

  /** `n - 8` in uint32 arithmetic, for a uint32 value `n`. */
  function WrappingSubEight(n: int): (k: nat)
    requires 0 <= n < TwoTo32
    ensures k < TwoTo32 && (k - (n - 8)) % TwoTo32 == 0
    ensures n >= 8 ==> k == n - 8
    ensures n < 8 ==> k >= TwoTo32 - 8
  {
    if n >= 8 then n - 8 else n - 8 + TwoTo32
  }

  function Min(a: int, b: int): int {
    if a <= b then a else b
  }

  // ---------------------------------------------------------------------
  // Box trees
  // ---------------------------------------------------------------------

  datatype Box = Box(
    header: BoxHeader,
    beginPosition: int,
    endPosition: int,
    level: int,
    subBoxes: seq<Box>)

  /** A box at `level` whose descendants sit one level deeper per step. */
  predicate WellLevelled(b: Box, level: int)
    decreases b
  {
    && b.level == level
    && forall i :: 0 <= i < |b.subBoxes| ==> WellLevelled(b.subBoxes[i], level + 1)
  }

  /** Boxes in a tree. */
  function BoxCount(b: Box): nat
    decreases b
  {
    1 + ForestCount(b.subBoxes)
  }

  function ForestCount(bs: seq<Box>): nat
    decreases bs
  {
    if bs == [] then 0 else BoxCount(bs[0]) + ForestCount(bs[1..])
  }

  /** Siblings appear in stream order, each at least one header after the last. */
  predicate InStreamOrder(bs: seq<Box>) {
    forall i :: 0 <= i < |bs| - 1 ==> bs[i].beginPosition + 8 <= bs[i + 1].beginPosition
  }

  /** `Box(BoxHeader, istream&, level)`: a container reads children while the
      guard holds and the stream is good; any other type skips its payload,
      stopping at end of input. */
  function ParseBox(s: seq<byte>, pos: nat, level: int): (r: Result<Parsed<Box>>)
    ensures pos + 8 > |s| ==> r == Failure(TruncatedInput)
    ensures r.Success? ==>
      var b := r.value.value;
      && pos + 8 <= r.value.next <= |s|
      && b.header == ParseBoxHeader(s, pos).value.value
      && b.beginPosition == pos + 1
      && b.endPosition == DeclaredEnd(pos + 1, b.header.size)
      && WellLevelled(b, level)
      && 8 * BoxCount(b) <= r.value.next - pos
      && (b.subBoxes != [] ==> IsContainer(b.header.boxType) && r.value.next == |s|)
    decreases |s| - pos, 0
  {
    var h :- ParseBoxHeader(s, pos);
    var begin := h.value.beginPosition;
    var end := DeclaredEnd(begin, h.value.size);
    ContainerGuardIffNonZero(h.value.size, begin);
    if IsContainer(h.value.boxType) then
      if ContainerGuard(h.value.size, begin, end) then
        var children :- ParseSiblings(s, h.next, level + 1);
        Success(Parsed(Box(h.value, begin, end, level, children.value), children.next))
      else
        Success(Parsed(Box(h.value, begin, end, level, []), h.next))
    else
      Success(Parsed(Box(h.value, begin, end, level, []), Min(h.next + LeafSkip(h.value.size), |s|)))
  }

  /** The loop shared by the container body and `main`: read a box, then go on
      while input remains (`input.peek()` then `input.good()`). */
  function ParseSiblings(s: seq<byte>, pos: nat, level: int): (r: Result<Parsed<seq<Box>>>)
    ensures pos + 8 > |s| ==> r == Failure(TruncatedInput)
    ensures r.Success? ==>
      var bs := r.value.value;
      && |bs| >= 1
      && r.value.next == |s|
      && pos + 1 == bs[0].beginPosition
      && InStreamOrder(bs)
      && (forall i :: 0 <= i < |bs| ==> WellLevelled(bs[i], level))
      && 8 * ForestCount(bs) <= |s| - pos
    decreases |s| - pos, 1
  {
    var b :- ParseBox(s, pos, level);
    if b.next < |s| then
      var rest :- ParseSiblings(s, b.next, level);
      var bs := [b.value] + rest.value;
      assert bs[1..] == rest.value;
      Success(Parsed(bs, rest.next))
    else
      assert [b.value][1..] == [];
      Success(Parsed([b.value], b.next))
  }

  /** The top-level loop of `main`: root boxes at level 0 until input ends. */
  function ParseFile(s: seq<byte>): (r: Result<Parsed<seq<Box>>>)
    ensures r.Success? ==>
      && |r.value.value| >= 1
      && r.value.next == |s|
      && (forall i :: 0 <= i < |r.value.value| ==> WellLevelled(r.value.value[i], 0))
      && InStreamOrder(r.value.value)
      && 8 * ForestCount(r.value.value) <= |s|
    ensures |s| < 8 ==> r == Failure(TruncatedInput)
  {
    ParseSiblings(s, 0, 0)
  }

  /** `bs` are the boxes the sibling loop reads from `ps[0]` on: the i-th is
      the one `ParseBox` decodes at `ps[i]`, ending at `ps[i + 1]`; input
      remains after every box but the last, and the last ends the input. */
  predicate BoxesAt(s: seq<byte>, level: int, bs: seq<Box>, ps: seq<nat>) {
    && |bs| >= 1
    && |ps| == |bs| + 1
    && (forall i :: 0 <= i < |bs| ==> BoxAt(s, level, ps[i], bs[i], ps[i + 1]))
    && (forall i :: 0 < i < |bs| ==> ps[i] < |s|)
    && ps[|bs|] == |s|
  }

  /** `ParseBox` at `p` decodes `b` and stops at `q`. */
  predicate BoxAt(s: seq<byte>, level: int, p: nat, b: Box, q: nat) {
    ParseBox(s, p, level).Success? && ParseBox(s, p, level).value == Parsed(b, q)
  }

  /** The sibling loop reads exactly the box sequences that `BoxesAt` describes. */
  lemma ParseSiblingsCharacterization(s: seq<byte>, pos: nat, level: int, bs: seq<Box>, e: nat)
    ensures ParseSiblings(s, pos, level).Success? && ParseSiblings(s, pos, level).value == Parsed(bs, e)
        <==> e == |s| && exists ps :: BoxesAt(s, level, bs, ps) && ps[0] == pos
  {
    if ParseSiblings(s, pos, level).Success? && ParseSiblings(s, pos, level).value == Parsed(bs, e) {
      var ps := ParseSiblingsSound(s, pos, level);
      assert BoxesAt(s, level, bs, ps);
    }
    if e == |s| && exists ps :: BoxesAt(s, level, bs, ps) && ps[0] == pos {
      var ps :| BoxesAt(s, level, bs, ps) && ps[0] == pos;
      ParseSiblingsComplete(s, level, bs, ps);
    }
  }

  lemma {:induction false} ParseSiblingsSound(s: seq<byte>, pos: nat, level: int) returns (ps: seq<nat>)
    requires ParseSiblings(s, pos, level).Success?
    ensures BoxesAt(s, level, ParseSiblings(s, pos, level).value.value, ps) && ps[0] == pos
    decreases |s| - pos
  {
    var b := ParseBox(s, pos, level).value;
    if b.next < |s| {
      var tail := ParseSiblingsSound(s, b.next, level);
      BoxesAtCons(s, level, pos, b.value, ParseSiblings(s, b.next, level).value.value, tail);
      ps := [pos] + tail;
    } else {
      ps := [pos, b.next];
    }
  }

  /** One more box in front of a described run. */
  lemma BoxesAtCons(s: seq<byte>, level: int, p: nat, b: Box, bs: seq<Box>, ps: seq<nat>)
    requires BoxesAt(s, level, bs, ps) && ps[0] < |s|
    requires BoxAt(s, level, p, b, ps[0])
    ensures BoxesAt(s, level, [b] + bs, [p] + ps)
  {
    var bs', ps' := [b] + bs, [p] + ps;
    forall i | 0 <= i < |bs'|
      ensures BoxAt(s, level, ps'[i], bs'[i], ps'[i + 1])
    {
      if i > 0 {
        assert bs'[i] == bs[i - 1] && ps'[i] == ps[i - 1] && ps'[i + 1] == ps[i];
      }
    }
    forall i | 0 < i < |bs'|
      ensures ps'[i] < |s|
    {
      assert ps'[i] == ps[i - 1];
    }
  }

  /** Dropping the first box of a described run of two or more. */
  lemma BoxesAtTail(s: seq<byte>, level: int, bs: seq<Box>, ps: seq<nat>)
    requires BoxesAt(s, level, bs, ps) && |bs| >= 2
    ensures BoxesAt(s, level, bs[1..], ps[1..])
    ensures ps[1] < |s|
  {
    forall i | 0 <= i < |bs| - 1
      ensures BoxAt(s, level, ps[1..][i], bs[1..][i], ps[1..][i + 1])
    {
      assert ps[1..][i] == ps[i + 1] && ps[1..][i + 1] == ps[i + 2] && bs[1..][i] == bs[i + 1];
    }
    forall i | 0 < i < |bs| - 1
      ensures ps[1..][i] < |s|
    {
      assert ps[1..][i] == ps[i + 1];
    }
  }

  lemma {:induction false} ParseSiblingsComplete(s: seq<byte>, level: int, bs: seq<Box>, ps: seq<nat>)
    requires BoxesAt(s, level, bs, ps)
    ensures ParseSiblings(s, ps[0], level).Success?
         && ParseSiblings(s, ps[0], level).value == Parsed(bs, |s|)
    decreases |bs|
  {
    assert BoxAt(s, level, ps[0], bs[0], ps[1]);
    if |bs| >= 2 {
      BoxesAtTail(s, level, bs, ps);
      ParseSiblingsComplete(s, level, bs[1..], ps[1..]);
      SiblingsCons(s, level, ps[0], bs[0], ps[1]);
      assert [bs[0]] + bs[1..] == bs;
    } else {
      LastSiblingStep(s, ps[0], level);
      assert bs == [bs[0]];
    }
  }

  /** A box that leaves input behind is followed by the loop's run from its end. */
  lemma SiblingsCons(s: seq<byte>, level: int, p: nat, b: Box, q: nat)
    requires BoxAt(s, level, p, b, q) && q < |s|
    requires ParseSiblings(s, q, level).Success?
    ensures ParseSiblings(s, p, level).Success?
    ensures ParseSiblings(s, p, level).value
         == Parsed([b] + ParseSiblings(s, q, level).value.value, ParseSiblings(s, q, level).value.next)
  {
  }

  /** The file is exactly a `BoxesAt` run of level-0 boxes from offset 0. */
  lemma ParseFileCharacterization(s: seq<byte>, bs: seq<Box>, e: nat)
    ensures ParseFile(s).Success? && ParseFile(s).value == Parsed(bs, e)
        <==> e == |s| && exists ps :: BoxesAt(s, 0, bs, ps) && ps[0] == 0
  {
    ParseSiblingsCharacterization(s, 0, 0, bs, e);
  }

  // ---------------------------------------------------------------------
  // What a box consumes, by kind
  // ---------------------------------------------------------------------

  /** A box's recorded span is its declared size, not what was consumed:
      `endPosition` is `beginPosition + size - 1` unless that leaves the int range. */
  lemma DeclaredSpan(s: seq<byte>, pos: nat, level: int)
    requires ParseBox(s, pos, level).Success?
    requires pos + 1 + ParseBox(s, pos, level).value.value.header.size as int - 1 < TwoTo31
    ensures var b := ParseBox(s, pos, level).value.value;
      b.endPosition - b.beginPosition + 1 == b.header.size as int
  {
  }

  /** The container loop's guard never changes, so a container of non-zero
      size keeps reading children until the input is exhausted, whatever its
      declared size. */
  lemma ContainerReadsToEnd(s: seq<byte>, pos: nat, level: int)
    requires ParseBox(s, pos, level).Success?
    requires var h := ParseBox(s, pos, level).value.value.header;
      IsContainer(h.boxType) && h.size != 0
    ensures ParseBox(s, pos, level).value.next == |s|
    ensures ParseBox(s, pos, level).value.value.subBoxes != []
  {
    ContainerGuardIffNonZero(ParseBox(s, pos, level).value.value.header.size, pos + 1);
  }

  /** A container of size 0 fails the guard at once: no children and no skip. */
  lemma EmptyContainer(s: seq<byte>, pos: nat, level: int)
    requires ParseBox(s, pos, level).Success?
    requires var h := ParseBox(s, pos, level).value.value.header;
      IsContainer(h.boxType) && h.size == 0
    ensures ParseBox(s, pos, level).value.value.subBoxes == []
    ensures ParseBox(s, pos, level).value.next == pos + 8
  {
    ContainerGuardIffNonZero(0, pos + 1);
  }

  /** A leaf whose declared size fits in the input occupies exactly that many bytes. */
  lemma LeafSpan(s: seq<byte>, pos: nat, level: int)
    requires ParseBox(s, pos, level).Success?
    requires var h := ParseBox(s, pos, level).value.value.header;
      !IsContainer(h.boxType) && 8 <= h.size as int && pos + h.size as int <= |s|
    ensures ParseBox(s, pos, level).value.value.subBoxes == []
    ensures ParseBox(s, pos, level).value.next == pos + ParseBox(s, pos, level).value.value.header.size as int
  {
  }

  /** A leaf declaring fewer than 8 bytes skips to the end of any input shorter
      than 4 GiB, because `size - 8` wraps. */
  lemma SmallLeafSkipsToEnd(s: seq<byte>, pos: nat, level: int)
    requires |s| <= TwoTo32
    requires ParseBox(s, pos, level).Success?
    requires var h := ParseBox(s, pos, level).value.value.header;
      !IsContainer(h.boxType) && h.size as int < 8
    ensures ParseBox(s, pos, level).value.next == |s|
  {
  }

  // ---------------------------------------------------------------------
  // One step of each loop
  // ---------------------------------------------------------------------

  lemma LeafStep(s: seq<byte>, pos: nat, level: int)
    requires pos + 8 <= |s| && !IsContainer(ParseBoxHeader(s, pos).value.value.boxType)
    ensures var h := ParseBoxHeader(s, pos).value.value;
      ParseBox(s, pos, level)
      == Success(Parsed(Box(h, pos + 1, DeclaredEnd(pos + 1, h.size), level, []),
                        Min(pos + 8 + LeafSkip(h.size), |s|)))
  {
    var hp := ParseBoxHeader(s, pos);
    assert hp.Success? && hp.value.next == pos + 8 && hp.value.value.beginPosition == pos + 1;
  }

  /** A leaf whose declared size fits a small input ends where its size says. */
  lemma FittingLeafStep(s: seq<byte>, pos: nat, level: int)
    requires |s| < TwoTo31 && pos + 8 <= |s|
    requires var h := ParseBoxHeader(s, pos).value.value;
      !IsContainer(h.boxType) && 8 <= h.size as int && pos + h.size as int <= |s|
    ensures var h := ParseBoxHeader(s, pos).value.value;
      ParseBox(s, pos, level)
      == Success(Parsed(Box(h, pos + 1, pos + h.size as int, level, []), pos + h.size as int))
  {
    var h := ParseBoxHeader(s, pos).value.value;
    LeafStep(s, pos, level);
    DeclaredEndNoWrap(pos + 1, h.size);
  }

  lemma ContainerStep(s: seq<byte>, pos: nat, level: int)
    requires pos + 8 <= |s|
    requires var h := ParseBoxHeader(s, pos).value.value; IsContainer(h.boxType) && h.size != 0
    ensures var h := ParseBoxHeader(s, pos).value.value;
      ParseBox(s, pos, level)
      == match ParseSiblings(s, pos + 8, level + 1)
         case Success(children) =>
           Success(Parsed(Box(h, pos + 1, DeclaredEnd(pos + 1, h.size), level, children.value), children.next))
         case Failure(e) => Failure(e)
  {
    ContainerGuardIffNonZero(ParseBoxHeader(s, pos).value.value.size, pos + 1);
  }

  lemma LastSiblingStep(s: seq<byte>, pos: nat, level: int)
    requires ParseBox(s, pos, level).Success? && ParseBox(s, pos, level).value.next == |s|
    ensures ParseSiblings(s, pos, level)
         == Success(Parsed([ParseBox(s, pos, level).value.value], |s|))
  {
  }

  // ---------------------------------------------------------------------
  // Worked inputs
  // ---------------------------------------------------------------------

  /** A leaf whose declared size runs exactly to the end of the input is the
      last box of its list. */
  lemma LastLeaf(s: seq<byte>, pos: nat, level: int)
    requires pos + 8 <= |s|
    requires var h := ParseBoxHeader(s, pos).value.value;
      !IsContainer(h.boxType) && 8 <= h.size as int && pos + h.size as int == |s|
    ensures var h := ParseBoxHeader(s, pos).value.value;
      ParseSiblings(s, pos, level)
      == Success(Parsed([Box(h, pos + 1, DeclaredEnd(pos + 1, h.size), level, [])], |s|))
  {
    var h := ParseBoxHeader(s, pos).value.value;
    assert LeafSkip(h.size) == h.size as int - 8;
    LeafStep(s, pos, level);
    LastSiblingStep(s, pos, level);
  }

  /** A lone leaf box whose declared size is exactly the input. */
  lemma LoneLeaf(s: seq<byte>)
    requires 8 <= |s|
    requires var h := ParseBoxHeader(s, 0).value.value; !IsContainer(h.boxType) && h.size as int == |s|
    ensures var h := ParseBoxHeader(s, 0).value.value;
      ParseFile(s) == Success(Parsed([Box(h, 1, DeclaredEnd(1, h.size), 0, [])], |s|))
  {
    LastLeaf(s, 0, 0);
  }

  /** `00 00 00 08 'f' 't' 'y' 'p'`: the header of a lone `ftyp` leaf of size 8. */
  lemma FtypHeader(s: seq<byte>)
    requires s == [0, 0, 0, 8, 0x66, 0x74, 0x79, 0x70]
    ensures ParseBoxHeader(s, 0) == Success(Parsed(BoxHeader(8, "ftyp", 1, 8), 8))
    ensures !IsContainer("ftyp")
  {
    assert s[4..8] == [0x66, 0x74, 0x79, 0x70];
    assert TagString(s[4..8]) == "ftyp";
  }


  /** The whole of `00 00 00 08 'f' 't' 'y' 'p'` decodes to one root leaf. */
  lemma FtypOnly(s: seq<byte>)
    requires s == [0, 0, 0, 8, 0x66, 0x74, 0x79, 0x70]
    ensures ParseFile(s) == Success(Parsed([Box(BoxHeader(8, "ftyp", 1, 8), 1, 8, 0, [])], 8))
  {
    FtypHeader(s);
    DeclaredEndNoWrap(1, 8);
    LoneLeaf(s);
  }

  /** A container declaring size 8 (no payload) followed by one leaf box that
      runs to the end of the input: the guard keeps the container reading past
      its declared 8 bytes, so the leaf becomes its child instead of a second
      root box. */
  lemma EmptyContainerSwallowsNext(s: seq<byte>)
    requires 16 <= |s|
    requires var h := ParseBoxHeader(s, 0).value.value; IsContainer(h.boxType) && h.size as int == 8
    requires var h := ParseBoxHeader(s, 8).value.value;
      !IsContainer(h.boxType) && 8 <= h.size as int && 8 + h.size as int == |s|
    ensures ParseFile(s).Success?
    ensures |ParseFile(s).value.value| == 1
    ensures ParseFile(s).value.value[0].header == ParseBoxHeader(s, 0).value.value
    ensures |ParseFile(s).value.value[0].subBoxes| == 1
    ensures ParseFile(s).value.value[0].subBoxes[0].header == ParseBoxHeader(s, 8).value.value
    ensures ParseFile(s).value.value[0].subBoxes[0].level == 1
  {
    LeafStep(s, 8, 1);
    LastSiblingStep(s, 8, 1);
    ContainerStep(s, 0, 0);
    LastSiblingStep(s, 0, 0);
  }

  /** `00 00 00 08 'm' 'o' 'o' 'v'`: an empty `moov` container. */
  lemma MoovHeader(s: seq<byte>)
    requires 8 <= |s| && s[..8] == [0, 0, 0, 8, 0x6D, 0x6F, 0x6F, 0x76]
    ensures ParseBoxHeader(s, 0).value.value.boxType == "moov"
    ensures ParseBoxHeader(s, 0).value.value.size as int == 8
  {
    assert s[0] == 0 && s[1] == 0 && s[2] == 0 && s[3] == 8;
    SizeEightHeader(s, 0);
    assert s[4..8] == [0x6D, 0x6F, 0x6F, 0x76];
    assert TagString(s[4..8]) == "moov";
  }

  /** `00 00 00 08 'f' 'r' 'e' 'e'` at offset 8: an 8-byte `free` leaf. */
  lemma FreeHeader(s: seq<byte>)
    requires 16 <= |s| && s[8..16] == [0, 0, 0, 8, 0x66, 0x72, 0x65, 0x65]
    ensures ParseBoxHeader(s, 8).value.value.boxType == "free"
    ensures ParseBoxHeader(s, 8).value.value.size as int == 8
  {
    assert s[8] == 0 && s[9] == 0 && s[10] == 0 && s[11] == 8;
    SizeEightHeader(s, 8);
    assert s[12..16] == [0x66, 0x72, 0x65, 0x65];
    assert TagString(s[12..16]) == "free";
  }

  /** Size bytes `00 00 00 08` declare a box of exactly its header. */
  lemma SizeEightHeader(s: seq<byte>, pos: nat)
    requires pos + 8 <= |s| && s[pos] == 0 && s[pos + 1] == 0 && s[pos + 2] == 0 && s[pos + 3] == 8
    ensures ParseBoxHeader(s, pos).value.value.size as int == 8
  {
  }
}
