/** The fixed-length GIF89a records of src/gif_parser.cc (Header, Logical
    Screen Descriptor, Color, Image Descriptor, Graphic Control Extension) and
    the colour tables whose length a packed byte announces.

    Each parser is paired with an encoder that writes the record's raw fields
    back in stream order; the parser's contract says the record re-encodes to
    exactly the bytes it consumed, so no byte is skipped, reordered or lost. */
module GifRecords {
  import opened Bytes
  import opened GifPacked

  // ---------------------------------------------------------------------
  // Header (section 17): signature and version, 3 bytes each
  // ---------------------------------------------------------------------

  datatype Header = Header(signature: seq<byte>, version: seq<byte>)

  function EncodeHeader(h: Header): seq<byte> {
    h.signature + h.version
  }

  function ParseHeader(s: seq<byte>, pos: nat): (r: Result<Parsed<Header>>)
    ensures r.Success? <==> pos + 6 <= |s|
    ensures r.Success? ==>
      && r.value.next == pos + 6
      && |r.value.value.signature| == 3 && |r.value.value.version| == 3
      && EncodeHeader(r.value.value) == s[pos..pos + 6]
  {
    var signature :- ReadBytes(s, pos, 3);
    var version :- ReadBytes(s, signature.next, 3);
    assert s[pos..pos + 3] + s[pos + 3..pos + 6] == s[pos..pos + 6];
    Success(Parsed(Header(signature.value, version.value), version.next))
  }

  // ---------------------------------------------------------------------
  // Logical Screen Descriptor (section 18): 7 bytes
  // ---------------------------------------------------------------------

  datatype ScreenDescriptor = ScreenDescriptor(
    logicalScreenWidth: u16,
    logicalScreenHeight: u16,
    packedFields: byte,
    backgroundColorIndex: byte,
    pixelAspectRatio: byte,
    fields: ScreenFields)

  function EncodeScreenDescriptor(d: ScreenDescriptor): seq<byte> {
    U16Bytes(d.logicalScreenWidth) + U16Bytes(d.logicalScreenHeight)
    + [d.packedFields, d.backgroundColorIndex, d.pixelAspectRatio]
  }

  function ParseScreenDescriptor(s: seq<byte>, pos: nat): (r: Result<Parsed<ScreenDescriptor>>)
    ensures r.Success? <==> pos + 7 <= |s|
    ensures r.Success? ==>
      && r.value.next == pos + 7
      && EncodeScreenDescriptor(r.value.value) == s[pos..pos + 7]
      && r.value.value.fields == ScreenPackedFields(r.value.value.packedFields)
  {
    var width :- ReadU16(s, pos);
    var height :- ReadU16(s, width.next);
    var packed :- ReadByte(s, height.next);
    var background :- ReadByte(s, packed.next);
    var aspect :- ReadByte(s, background.next);
    var d := ScreenDescriptor(width.value, height.value, packed.value, background.value,
                              aspect.value, ScreenPackedFields(packed.value));
    assert EncodeScreenDescriptor(d) == s[pos..pos + 2] + s[pos + 2..pos + 4] + s[pos + 4..pos + 7];
    assert s[pos..pos + 2] + s[pos + 2..pos + 4] + s[pos + 4..pos + 7] == s[pos..pos + 7];
    Success(Parsed(d, aspect.next))
  }

  // ---------------------------------------------------------------------
  // Colour tables (section 19): 3 bytes per entry
  // ---------------------------------------------------------------------

  datatype Color = Color(red: byte, green: byte, blue: byte)

  function EncodeColors(cs: seq<Color>): (b: seq<byte>)
    ensures |b| == 3 * |cs|
  {
    if cs == [] then [] else [cs[0].red, cs[0].green, cs[0].blue] + EncodeColors(cs[1..])
  }

  function ParseColor(s: seq<byte>, pos: nat): (r: Result<Parsed<Color>>)
    ensures r.Success? <==> pos + 3 <= |s|
    ensures r.Success? ==>
      r.value == Parsed(Color(s[pos], s[pos + 1], s[pos + 2]), pos + 3)
  {
    var red :- ReadByte(s, pos);
    var green :- ReadByte(s, red.next);
    var blue :- ReadByte(s, green.next);
    Success(Parsed(Color(red.value, green.value, blue.value), blue.next))
  }

  /** `ColorTable::parse(input, size)`: `size` colours, read one after another. */
  function ParseColorTable(s: seq<byte>, pos: nat, size: nat): (r: Result<Parsed<seq<Color>>>)
    requires pos <= |s|
    ensures r.Success? <==> pos + 3 * size <= |s|
    ensures r.Success? ==>
      && |r.value.value| == size
      && r.value.next == pos + 3 * size
      && EncodeColors(r.value.value) == s[pos..pos + 3 * size]
    decreases size
  {
    if size == 0 then
      Success(Parsed([], pos))
    else
      var first :- ParseColor(s, pos);
      var rest :- ParseColorTable(s, first.next, size - 1);
      var cs := [first.value] + rest.value;
      assert cs[1..] == rest.value;
      assert s[pos..pos + 3] + s[pos + 3..pos + 3 * size] == s[pos..pos + 3 * size];
      Success(Parsed(cs, rest.next))
  }

  /** Bytes taken by the colour table a packed byte announces, or 0 if its flag is clear. */
  function ColorTableBytes(rule: TableRule, flag: bool, packed: byte): nat {
    if flag then 3 * TableEntries(rule, packed) else 0
  }

  // ---------------------------------------------------------------------
  // <Logical Screen> ::= Logical Screen Descriptor [Global Color Table]
  // ---------------------------------------------------------------------

  datatype LogicScreen = LogicScreen(descriptor: ScreenDescriptor, globalColorTable: seq<Color>)

  function ParseLogicScreen(s: seq<byte>, pos: nat, rule: TableRule): (r: Result<Parsed<LogicScreen>>)
    ensures r.Success? <==>
      pos + 7 <= |s| && pos + 7 + ColorTableBytes(rule, Bit(s[pos + 4], 7), s[pos + 4]) <= |s|
    ensures r.Success? ==>
      var d := r.value.value.descriptor;
      && d == ParseScreenDescriptor(s, pos).value.value
      && EncodeScreenDescriptor(d) == s[pos..pos + 7]
      && r.value.next == pos + 7 + ColorTableBytes(rule, d.fields.globalColorTableFlag, d.packedFields)
      && |r.value.value.globalColorTable|
         == (if d.fields.globalColorTableFlag then TableEntries(rule, d.packedFields) else 0)
      && r.value.next <= |s|
      && EncodeColors(r.value.value.globalColorTable) == s[pos + 7..r.value.next]
  {
    var d :- ParseScreenDescriptor(s, pos);
    assert d.value.packedFields == s[pos + 4] by {
      assert EncodeScreenDescriptor(d.value)[4] == d.value.packedFields;
    }
    if d.value.fields.globalColorTableFlag then
      var table :- ParseColorTable(s, d.next, TableEntries(rule, d.value.packedFields));
      Success(Parsed(LogicScreen(d.value, table.value), table.next))
    else
      Success(Parsed(LogicScreen(d.value, []), d.next))
  }

  /** As written, the logical screen is 7 bytes, or 7 + 3 or 7 + 768 when a
      global colour table follows. */
  lemma LogicScreenLength(s: seq<byte>, pos: nat)
    requires ParseLogicScreen(s, pos, AsWritten).Success?
    ensures var r := ParseLogicScreen(s, pos, AsWritten).value;
      && (!Bit(s[pos + 4], 7) ==> r.next == pos + 7)
      && (Bit(s[pos + 4], 7) && Field(s[pos + 4], 0, 3) == 0 ==> r.next == pos + 10)
      && (Bit(s[pos + 4], 7) && Field(s[pos + 4], 0, 3) != 0 ==> r.next == pos + 775)
  {
    var r := ParseLogicScreen(s, pos, AsWritten).value;
    assert EncodeScreenDescriptor(r.value.descriptor)[4] == r.value.descriptor.packedFields;
    AsWrittenEntries(s[pos + 4]);
  }

  // ---------------------------------------------------------------------
  // Image Descriptor (section 20): 10 bytes
  // ---------------------------------------------------------------------

  datatype ImageDescriptor = ImageDescriptor(
    imageSeparator: byte,
    imageLeftPosition: u16,
    imageTopPosition: u16,
    imageWidth: u16,
    imageHeight: u16,
    packedFields: byte,
    fields: ImageFields)

  function EncodeImageDescriptor(d: ImageDescriptor): seq<byte> {
    [d.imageSeparator] + U16Bytes(d.imageLeftPosition) + U16Bytes(d.imageTopPosition)
    + U16Bytes(d.imageWidth) + U16Bytes(d.imageHeight) + [d.packedFields]
  }

  /** The separator byte is stored, never compared with 0x2C. */
  function ParseImageDescriptor(s: seq<byte>, pos: nat): (r: Result<Parsed<ImageDescriptor>>)
    ensures r.Success? <==> pos + 10 <= |s|
    ensures r.Success? ==>
      && r.value.next == pos + 10
      && EncodeImageDescriptor(r.value.value) == s[pos..pos + 10]
      && r.value.value.fields == ImagePackedFields(r.value.value.packedFields)
  {
    var separator :- ReadByte(s, pos);
    var left :- ReadU16(s, separator.next);
    var top :- ReadU16(s, left.next);
    var width :- ReadU16(s, top.next);
    var height :- ReadU16(s, width.next);
    var packed :- ReadByte(s, height.next);
    var d := ImageDescriptor(separator.value, left.value, top.value, width.value, height.value,
                             packed.value, ImagePackedFields(packed.value));
    SliceConcat(s, pos, pos + 1, pos + 3);
    SliceConcat(s, pos, pos + 3, pos + 5);
    SliceConcat(s, pos, pos + 5, pos + 7);
    SliceConcat(s, pos, pos + 7, pos + 9);
    SliceConcat(s, pos, pos + 9, pos + 10);
    assert [d.imageSeparator] == s[pos..pos + 1];
    assert [d.packedFields] == s[pos + 9..pos + 10];
    Success(Parsed(d, packed.next))
  }

  // ---------------------------------------------------------------------
  // Graphic Control Extension (section 23): 8 bytes
  // ---------------------------------------------------------------------

  datatype GraphicControlExtension = GraphicControlExtension(
    extensionIntroducer: byte,
    graphicControlLabel: byte,
    blockSize: byte,
    packedFields: byte,
    delayTime: u16,
    transparentColorIndex: byte,
    blockTerminator: byte,
    fields: ControlFields)

  function EncodeGraphicControlExtension(g: GraphicControlExtension): seq<byte> {
    [g.extensionIntroducer, g.graphicControlLabel, g.blockSize, g.packedFields]
    + U16Bytes(g.delayTime) + [g.transparentColorIndex, g.blockTerminator]
  }

  /** A decoded extension starts with the introducer and label it was read from. */
  lemma ControlLabels(g: GraphicControlExtension, s: seq<byte>, pos: nat)
    requires pos + 8 <= |s| && EncodeGraphicControlExtension(g) == s[pos..pos + 8]
    ensures g.extensionIntroducer == s[pos] && g.graphicControlLabel == s[pos + 1]
  {
    assert EncodeGraphicControlExtension(g)[0] == s[pos..pos + 8][0];
    assert EncodeGraphicControlExtension(g)[1] == s[pos..pos + 8][1];
  }

  /** Always 8 bytes: the Block Size byte is stored but not used to size the read. */
  function ParseGraphicControlExtension(s: seq<byte>, pos: nat): (r: Result<Parsed<GraphicControlExtension>>)
    ensures r.Success? <==> pos + 8 <= |s|
    ensures r.Success? ==>
      && r.value.next == pos + 8
      && EncodeGraphicControlExtension(r.value.value) == s[pos..pos + 8]
      && r.value.value.fields == ControlPackedFields(r.value.value.packedFields)
      && PackControl(r.value.value.fields) == r.value.value.packedFields
  {
    var introducer :- ReadByte(s, pos);
    var labelByte :- ReadByte(s, introducer.next);
    var size :- ReadByte(s, labelByte.next);
    var packed :- ReadByte(s, size.next);
    var delay :- ReadU16(s, packed.next);
    var transparent :- ReadByte(s, delay.next);
    var terminator :- ReadByte(s, transparent.next);
    var g := GraphicControlExtension(introducer.value, labelByte.value, size.value, packed.value,
                                     delay.value, transparent.value, terminator.value,
                                     ControlPackedFields(packed.value));
    ControlPackedRoundTrip(packed.value);
    assert EncodeGraphicControlExtension(g) == s[pos..pos + 4] + s[pos + 4..pos + 6] + s[pos + 6..pos + 8];
    assert s[pos..pos + 4] + s[pos + 4..pos + 6] + s[pos + 6..pos + 8] == s[pos..pos + 8];
    Success(Parsed(g, terminator.next))
  }
}
