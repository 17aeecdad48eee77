/** The three packed-field bytes of GIF89a: the Logical Screen Descriptor's
    (section 18), the Image Descriptor's (section 20) and the Graphic Control
    Extension's (section 23), split the way src/gif_parser.cc splits them, and
    the colour-table size that follows from the 3-bit size field. */
module GifPacked {
  import opened Bytes

  /** Bit `k` of `b`, counting from the least significant bit. */
  function Bit(b: byte, k: nat): bool
    requires k < 8
  {
    (b >> k) & 1 == 1
  }

  /** The `width`-bit field of `b` whose lowest bit is bit `lo`. */
  function Field(b: byte, lo: nat, width: nat): byte
    requires lo + width <= 8
  {
    (b >> lo) & (((1 as byte) << width) - 1)
  }

  /** `(1 >> n) - 1` evaluated in int and stored into a uint8_t, for a 3-bit n.
      This is the expression the source uses for ColorResolution and for both
      colour-table size fields. */
  function OneShiftedMinusOne(n: byte): byte
    requires n < 8
  {
    ((1 as byte) >> n) - 1
  }

  lemma OneShiftedMinusOneValues(n: byte)
    requires n < 8
    ensures OneShiftedMinusOne(n) == (if n == 0 then 0 else 255)
  {
  }

  // ---------------------------------------------------------------------
  // Logical Screen Descriptor: flag(1) resolution(3) sort(1) size(3)
  // ---------------------------------------------------------------------

  datatype ScreenFields = ScreenFields(
    globalColorTableFlag: bool,
    colorResolution: byte,
    sortFlag: bool,
    sizeOfGlobalColorTable: byte)

  function ScreenPackedFields(p: byte): (f: ScreenFields)
    ensures f.globalColorTableFlag == Bit(p, 7)
    ensures f.sortFlag == Bit(p, 3)
    ensures f.colorResolution == (if Field(p, 4, 3) == 0 then 0 else 255)
    ensures f.sizeOfGlobalColorTable == (if Field(p, 0, 3) == 0 then 0 else 255)
  {
    OneShiftedMinusOneValues((p & 0x70) >> 4);
    OneShiftedMinusOneValues(p & 0x07);
    ScreenFields(
      globalColorTableFlag := (p & 0x80) >> 7 != 0,
      colorResolution := OneShiftedMinusOne((p & 0x70) >> 4),
      sortFlag := (p & 0x08) >> 3 != 0,
      sizeOfGlobalColorTable := OneShiftedMinusOne(p & 0x07))
  }

  // ---------------------------------------------------------------------
  // Image Descriptor: local(1) interlace(1) sort(1) reserved(2) size(3)
  // ---------------------------------------------------------------------

  datatype ImageFields = ImageFields(
    localColorTableFlag: bool,
    interlaceFlag: bool,
    sortFlag: bool,
    reserved: byte,
    sizeOfLocalColorTable: byte)

  function ImagePackedFields(p: byte): (f: ImageFields)
    ensures f.localColorTableFlag == Bit(p, 7)
    ensures f.interlaceFlag == Bit(p, 6)
    ensures f.sortFlag == Bit(p, 5)
    ensures f.reserved == Field(p, 3, 2) && f.reserved <= 3
    ensures f.sizeOfLocalColorTable == (if Field(p, 0, 3) == 0 then 0 else 255)
  {
    OneShiftedMinusOneValues(p & 0x07);
    ImageFields(
      localColorTableFlag := (p & 0x80) >> 7 != 0,
      interlaceFlag := (p & 0x40) >> 6 != 0,
      sortFlag := (p & 0x20) >> 5 != 0,
      reserved := (p & 0x18) >> 3,
      sizeOfLocalColorTable := OneShiftedMinusOne(p & 0x07))
  }

  function BoolBit(b: bool): byte {
    if b then 1 else 0
  }

  /** The image packed byte rebuilt from the decoded flags, the reserved
      field and the raw size bits: nothing but the size field is lost. */
  lemma ImagePackedRecombine(p: byte)
    ensures var f := ImagePackedFields(p);
      (BoolBit(f.localColorTableFlag) << 7) | (BoolBit(f.interlaceFlag) << 6)
      | (BoolBit(f.sortFlag) << 5) | (f.reserved << 3) | (p & 0x07) == p
  {
  }

  // ---------------------------------------------------------------------
  // Graphic Control Extension: reserved(3) disposal(3) user(1) transparent(1)
  // ---------------------------------------------------------------------

  datatype ControlFields = ControlFields(
    reserved: byte,
    disposalMethod: byte,
    userInputFlag: bool,
    transparentColorFlag: bool)

  function ControlPackedFields(p: byte): (f: ControlFields)
    ensures f.reserved == Field(p, 5, 3) && f.reserved < 8
    ensures f.disposalMethod == Field(p, 2, 3) && f.disposalMethod < 8
    ensures f.userInputFlag == Bit(p, 1)
    ensures f.transparentColorFlag == Bit(p, 0)
  {
    ControlFields(
      reserved := (p & 0xE0) >> 5,
      disposalMethod := (p & 0x1C) >> 2,
      userInputFlag := (p & 0x02) >> 1 != 0,
      transparentColorFlag := p & 0x01 != 0)
  }

  /** `Reserved<<5 | Disposal<<2 | User<<1 | Transp`. */
  function PackControl(f: ControlFields): byte {
    (f.reserved << 5) | (f.disposalMethod << 2)
    | (BoolBit(f.userInputFlag) << 1) | BoolBit(f.transparentColorFlag)
  }

  lemma ControlPackedRoundTrip(p: byte)
    ensures PackControl(ControlPackedFields(p)) == p
  {
  }

  lemma ControlPackedInverse(f: ControlFields)
    requires f.reserved < 8 && f.disposalMethod < 8
    ensures ControlPackedFields(PackControl(f)) == f
  {
  }

  // ---------------------------------------------------------------------
  // Colour-table size
  // ---------------------------------------------------------------------

  /** Which colour-table size the decoder uses: the one the source computes,
      or the 2^(n+1) entries that section 18 of GIF89a prescribes. */
  datatype TableRule = AsWritten | Intended

  /** 2^k, the table size section 18 of GIF89a gives for a size field of k - 1. */
  function Pow2(k: nat): (r: nat)
    ensures r >= 1
  {
    if k == 0 then 1 else 2 * Pow2(k - 1)
  }

  /** Entries in the colour table announced by packed byte `p` (screen or
      image layout; both keep the size field in bits 2..0). */
  function TableEntries(rule: TableRule, p: byte): (k: nat)
    ensures rule == AsWritten ==>
      && k == ScreenPackedFields(p).sizeOfGlobalColorTable as int + 1
      && k == ImagePackedFields(p).sizeOfLocalColorTable as int + 1
  {
    match rule
    case AsWritten => OneShiftedMinusOne(p & 0x07) as int + 1
    case Intended => Pow2((p & 0x07) as int + 1)
  }

  lemma AsWrittenEntries(p: byte)
    ensures TableEntries(AsWritten, p) == (if Field(p, 0, 3) == 0 then 1 else 256)
    ensures 3 * TableEntries(AsWritten, p) == (if Field(p, 0, 3) == 0 then 3 else 768)
  {
  }

  lemma Pow2Bounds(k: nat)
    requires 1 <= k <= 8
    ensures Pow2(k) in {2, 4, 8, 16, 32, 64, 128, 256}
    ensures Pow2(k) == 256 <==> k == 8
  {
    assert Pow2(1) == 2;
    assert Pow2(2) == 4;
    assert Pow2(3) == 8;
    assert Pow2(4) == 16;
    assert Pow2(5) == 32;
    assert Pow2(6) == 64;
    assert Pow2(7) == 128;
    assert Pow2(8) == 256;
    assert k in {1, 2, 3, 4, 5, 6, 7, 8};
  }

  lemma IntendedEntries(p: byte)
    ensures TableEntries(Intended, p) == Pow2(Field(p, 0, 3) as int + 1)
    ensures TableEntries(Intended, p) in {2, 4, 8, 16, 32, 64, 128, 256}
  {
    Pow2Bounds((p & 0x07) as int + 1);
  }

  /** The source's entry count matches section 18 only for a size field of 7. */
  lemma RulesAgreeOnlyAtSeven(p: byte)
    ensures TableEntries(AsWritten, p) == TableEntries(Intended, p) <==> Field(p, 0, 3) == 7
  {
    Pow2Bounds((p & 0x07) as int + 1);
  }

  /** Packed byte 0x81 (flag set, size field 1): the source reads 256 entries
      where section 18 announces 4. */
  lemma AsWrittenTableMismatch()
    ensures TableEntries(AsWritten, 0x81) == 256
    ensures TableEntries(Intended, 0x81) == 4
    ensures ScreenPackedFields(0x81).globalColorTableFlag
  {
  }
}
