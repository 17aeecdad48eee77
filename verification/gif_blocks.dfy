/** The GIF89a records that end in a data sub-block chain, and the two
    grammar productions that choose between records by looking ahead:
      <Graphic Block>           ::= [Graphic Control Extension] <Graphic-Rendering Block>
      <Graphic-Rendering Block> ::= <Table-Based Image> | Plain Text Extension
      <Table-Based Image>       ::= Image Descriptor [Local Color Table] Image Data
    as src/gif_parser.cc decodes them. */
module GifBlocks {
  import opened Bytes
  import opened GifPacked
  import opened GifRecords
  import opened SubBlocks

  // ---------------------------------------------------------------------
  // Table-Based Image Data (section 22): LZW minimum code size + chain
  // ---------------------------------------------------------------------

  datatype TableBasedImageData = TableBasedImageData(lzwMinimumCodeSize: byte, imageData: seq<SubBlock>)

  function ParseTableBasedImageData(s: seq<byte>, pos: nat): (r: Result<Parsed<TableBasedImageData>>)
    ensures r.Success? <==> pos < |s| && ReadChain(s, pos + 1).Success?
    ensures r.Success? ==>
      && r.value.value.lzwMinimumCodeSize == s[pos]
      && ChainAt(s, pos + 1, r.value.value.imageData)
      && r.value.next == pos + 1 + ChainLength(r.value.value.imageData)
      && r.value.next <= |s|
  {
    var code :- ReadByte(s, pos);
    var chain :- ReadChain(s, code.next);
    ReadChainSound(s, code.next);
    Success(Parsed(TableBasedImageData(code.value, chain.value), chain.next))
  }

  // ---------------------------------------------------------------------
  // <Table-Based Image> ::= Image Descriptor [Local Color Table] Image Data
  // ---------------------------------------------------------------------

  datatype TableBasedImage = TableBasedImage(
    imageDescriptor: ImageDescriptor,
    localColorTable: seq<Color>,
    imageData: TableBasedImageData)

  /** Bytes taken by the local colour table the descriptor announces. */
  function LocalTableBytes(rule: TableRule, d: ImageDescriptor): nat {
    ColorTableBytes(rule, d.fields.localColorTableFlag, d.packedFields)
  }

  /** The optional Local Color Table: read only when the descriptor's flag
      is set, with as many entries as `rule` gives the size field. */
  function ParseLocalTable(s: seq<byte>, pos: nat, rule: TableRule, d: ImageDescriptor): (r: Result<Parsed<seq<Color>>>)
    requires pos <= |s|
    ensures r.Success? <==> pos + LocalTableBytes(rule, d) <= |s|
    ensures r.Success? ==>
      && r.value.next == pos + LocalTableBytes(rule, d)
      && (if d.fields.localColorTableFlag
          then ParseColorTable(s, pos, TableEntries(rule, d.packedFields)).value == r.value
          else r.value.value == [])
  {
    if d.fields.localColorTableFlag then ParseColorTable(s, pos, TableEntries(rule, d.packedFields))
    else Success(Parsed([], pos))
  }

  /** What follows Image Descriptor `d`: its local table, if flagged, then
      the image data, which starts where the table's bytes end. */
  function ParseImageRest(s: seq<byte>, pos: nat, rule: TableRule, d: ImageDescriptor)
    : (r: Result<Parsed<TableBasedImage>>)
    requires pos <= |s|
    ensures r.Success? <==>
      && ParseLocalTable(s, pos, rule, d).Success?
      && ParseTableBasedImageData(s, pos + LocalTableBytes(rule, d)).Success?
    ensures r.Success? ==>
      var img := r.value.value;
      var tableEnd := pos + LocalTableBytes(rule, d);
      && img.imageDescriptor == d
      && tableEnd < r.value.next <= |s|
      && ParseLocalTable(s, pos, rule, d).value == Parsed(img.localColorTable, tableEnd)
      && ParseTableBasedImageData(s, tableEnd).value == Parsed(img.imageData, r.value.next)
  {
    var table :- ParseLocalTable(s, pos, rule, d);
    var data :- ParseTableBasedImageData(s, pos + LocalTableBytes(rule, d));
    Success(Parsed(TableBasedImage(d, table.value, data.value), data.next))
  }

  /** The 10-byte Image Descriptor, then the rest it announces. */
  function ParseTableBasedImage(s: seq<byte>, pos: nat, rule: TableRule): (r: Result<Parsed<TableBasedImage>>)
    ensures r.Success? <==>
      && ParseImageDescriptor(s, pos).Success?
      && ParseImageRest(s, pos + 10, rule, ParseImageDescriptor(s, pos).value.value).Success?
    ensures r.Success? ==>
      && ParseImageDescriptor(s, pos).value == Parsed(r.value.value.imageDescriptor, pos + 10)
      && ParseImageRest(s, pos + 10, rule, r.value.value.imageDescriptor).value == r.value
  {
    var d :- ParseImageDescriptor(s, pos);
    ParseImageRest(s, pos + 10, rule, d.value)
  }

  /** Without the local-table flag (bit 7 of the packed byte, the tenth
      descriptor byte) the image data follows the descriptor directly. */
  lemma NoLocalTableImage(s: seq<byte>, pos: nat, rule: TableRule)
    requires pos + 10 <= |s| && !Bit(s[pos + 9], 7)
    ensures ParseTableBasedImage(s, pos, rule).Success? <==> ParseTableBasedImageData(s, pos + 10).Success?
    ensures ParseTableBasedImage(s, pos, rule).Success? ==>
      && ParseTableBasedImage(s, pos, rule).value.value.localColorTable == []
      && ParseTableBasedImage(s, pos, rule).value.next == ParseTableBasedImageData(s, pos + 10).value.next
  {
    var d := ParseImageDescriptor(s, pos).value.value;
    assert d.packedFields == s[pos + 9] by {
      assert EncodeImageDescriptor(d)[9] == d.packedFields;
    }
    assert LocalTableBytes(rule, d) == 0;
  }

  // ---------------------------------------------------------------------
  // <Graphic-Rendering Block> ::= <Table-Based Image> | Plain Text Extension
  // ---------------------------------------------------------------------

  /** The source keeps a type tag next to both alternatives; only the chosen
      one is ever filled in, so the model keeps just that one. */
  datatype GraphicRenderingBlock =
    | PlainTextExtension
    | TableBased(tableBasedImage: TableBasedImage)

  /** What `get(); get(); unget(); unget();` sees: an Extension Introducer
      followed by the Plain Text Label. */
  predicate PlainTextAhead(s: seq<byte>, pos: nat)
    ensures PlainTextAhead(s, pos) ==> pos + 1 < |s| && s[pos] == 0x21 && s[pos + 1] == 0x01
    ensures pos + 1 < |s| && s[pos] == 0x21 && s[pos + 1] == 0x01 ==> PlainTextAhead(s, pos)
  {
    GetAsByte(s, pos) == 0x21 && GetAsByte(s, pos + 1) == 0x01
  }

  /** The Plain Text Extension alternative consumes nothing; every other
      lookahead pair is decoded as a Table-Based Image starting at the very
      byte the lookahead examined, whose separator is not checked. */
  function ParseGraphicRenderingBlock(s: seq<byte>, pos: nat, rule: TableRule): (r: Result<Parsed<GraphicRenderingBlock>>)
    ensures PlainTextAhead(s, pos) <==> r == Success(Parsed(PlainTextExtension, pos))
    ensures !PlainTextAhead(s, pos) ==>
      match ParseTableBasedImage(s, pos, rule)
      case Success(img) => r == Success(Parsed(TableBased(img.value), img.next))
      case Failure(e) => r == Failure(e)
    ensures r.Success? ==> r.value.next <= |s|
  {
    var extensionIntroducer := GetAsByte(s, pos);
    var extensionLabel := GetAsByte(s, pos + 1);
    if extensionIntroducer == 0x21 && extensionLabel == 0x01 then
      Success(Parsed(PlainTextExtension, pos))
    else
      var img :- ParseTableBasedImage(s, pos, rule);
      Success(Parsed(TableBased(img.value), img.next))
  }

  /** Any byte opens a Table-Based Image: here a separator of 0x00 instead of
      the 0x2C that section 20 prescribes. */
  lemma SeparatorNotChecked()
    ensures var s: seq<byte> := [0x00, 0, 0, 0, 0, 1, 0, 1, 0, 0x00, 0x02, 0x00];
      && ParseGraphicRenderingBlock(s, 0, AsWritten).Success?
      && ParseGraphicRenderingBlock(s, 0, AsWritten).value.value.TableBased?
      && ParseGraphicRenderingBlock(s, 0, AsWritten).value.value.tableBasedImage.imageDescriptor.imageSeparator == 0x00
      && ParseGraphicRenderingBlock(s, 0, AsWritten).value.next == 12
  {
    var s: seq<byte> := [0x00, 0, 0, 0, 0, 1, 0, 1, 0, 0x00, 0x02, 0x00];
    ReadChainTerminator(s, 11);
    assert s[0..10] == [0x00, 0, 0, 0, 0, 1, 0, 1, 0, 0x00];
  }

  // ---------------------------------------------------------------------
  // <Graphic Block> ::= [Graphic Control Extension] <Graphic-Rendering Block>
  // ---------------------------------------------------------------------

  /** The control extension is not optional here: the stream loop only enters
      a graphic block on label 0xF9, and this always reads one first. */
  datatype GraphicBlock = GraphicBlock(
    graphicControlExtension: GraphicControlExtension,
    graphicRenderingBlock: GraphicRenderingBlock)

  function ParseGraphicBlock(s: seq<byte>, pos: nat, rule: TableRule): (r: Result<Parsed<GraphicBlock>>)
    ensures r.Success? ==>
      && pos + 8 <= r.value.next <= |s|
      && r.value.value.graphicControlExtension == ParseGraphicControlExtension(s, pos).value.value
      && EncodeGraphicControlExtension(r.value.value.graphicControlExtension) == s[pos..pos + 8]
      && ParseGraphicRenderingBlock(s, pos + 8, rule)
         == Success(Parsed(r.value.value.graphicRenderingBlock, r.value.next))
    ensures r.Failure? <==>
      pos + 8 > |s| || ParseGraphicRenderingBlock(s, pos + 8, rule).Failure?
  {
    var control :- ParseGraphicControlExtension(s, pos);
    var rendering :- ParseGraphicRenderingBlock(s, control.next, rule);
    Success(Parsed(GraphicBlock(control.value, rendering.value), rendering.next))
  }

  // ---------------------------------------------------------------------
  // Application Extension (section 26): 14 bytes + chain
  // ---------------------------------------------------------------------

  datatype ApplicationExtension = ApplicationExtension(
    extensionIntroducer: byte,
    extensionLabel: byte,
    blockSize: byte,
    applicationIdentifier: seq<byte>,
    applAuthenticationCode: seq<byte>,
    applicationData: seq<SubBlock>)

  function EncodeApplicationHeader(a: ApplicationExtension): seq<byte> {
    [a.extensionIntroducer, a.extensionLabel, a.blockSize]
    + a.applicationIdentifier + a.applAuthenticationCode
  }

  /** A decoded header starts with the introducer and label it was read from. */
  lemma ApplicationHeaderLabels(a: ApplicationExtension, s: seq<byte>, pos: nat)
    requires pos + 14 <= |s| && EncodeApplicationHeader(a) == s[pos..pos + 14]
    ensures a.extensionIntroducer == s[pos] && a.extensionLabel == s[pos + 1]
  {
    assert EncodeApplicationHeader(a)[0] == s[pos..pos + 14][0];
    assert EncodeApplicationHeader(a)[1] == s[pos..pos + 14][1];
  }

  /** `ApplicationExtension::parse` on an object whose applicationData already
      holds `prior`: the fixed fields are overwritten, the new chain is
      appended after `prior`. */
  function ParseApplicationExtension(s: seq<byte>, pos: nat, prior: seq<SubBlock>)
    : (r: Result<Parsed<ApplicationExtension>>)
    ensures r.Success? <==> pos + 14 <= |s| && ReadChain(s, pos + 14).Success?
    ensures r.Success? ==>
      var a := r.value.value;
      && |a.applicationIdentifier| == 8 && |a.applAuthenticationCode| == 3
      && EncodeApplicationHeader(a) == s[pos..pos + 14]
      && |prior| <= |a.applicationData|
      && a.applicationData[..|prior|] == prior
      && ChainAt(s, pos + 14, a.applicationData[|prior|..])
      && r.value.next == pos + 14 + ChainLength(a.applicationData[|prior|..])
      && r.value.next <= |s|
  {
    var introducer :- ReadByte(s, pos);
    var labelByte :- ReadByte(s, introducer.next);
    var blockSize :- ReadByte(s, labelByte.next);
    var identifier :- ReadBytes(s, blockSize.next, 8);
    var authentication :- ReadBytes(s, identifier.next, 3);
    var chain :- ReadChain(s, authentication.next);
    ReadChainSound(s, authentication.next);
    var a := ApplicationExtension(introducer.value, labelByte.value, blockSize.value,
                                  identifier.value, authentication.value, prior + chain.value);
    assert a.applicationData[|prior|..] == chain.value;
    SliceConcat(s, pos, pos + 3, pos + 11);
    SliceConcat(s, pos, pos + 11, pos + 14);
    assert [a.extensionIntroducer, a.extensionLabel, a.blockSize] == s[pos..pos + 3];
    Success(Parsed(a, chain.next))
  }

  /** Parsing into an object that already holds sub-blocks gives the same
      result as parsing into a fresh one, with those sub-blocks in front. */
  lemma ApplicationAppends(s: seq<byte>, pos: nat, prior: seq<SubBlock>)
    ensures ParseApplicationExtension(s, pos, prior)
         == match ParseApplicationExtension(s, pos, [])
            case Success(a) =>
              Success(Parsed(a.value.(applicationData := prior + a.value.applicationData), a.next))
            case Failure(e) => Failure(e)
  {
  }

  /** A NETSCAPE2.0 looping extension: the 14 fixed bytes, one 3-byte
      sub-block and the terminator give two sub-blocks. */
  lemma ApplicationTwoSubBlocks(s: seq<byte>)
    requires s == [0x21, 0xFF, 0x0B, 0x4E, 0x45, 0x54, 0x53, 0x43, 0x41, 0x50, 0x45,
                   0x32, 0x2E, 0x30, 0x03, 0x01, 0x00, 0x00, 0x00]
    ensures ParseApplicationExtension(s, 0, []).Success?
    ensures ParseApplicationExtension(s, 0, []).value.value.applicationData == [SubBlock(3), SubBlock(0)]
    ensures ParseApplicationExtension(s, 0, []).value.next == |s|
  {
    ReadChainTerminator(s, 18);
    ReadChainCons(s, 14);
  }

  // ---------------------------------------------------------------------
  // Comment Extension (section 24): 2 bytes + chain
  // ---------------------------------------------------------------------

  datatype CommentExtension = CommentExtension(
    extensionIntroducer: byte,
    commentLabel: byte,
    commentData: seq<SubBlock>)

  function ParseCommentExtension(s: seq<byte>, pos: nat): (r: Result<Parsed<CommentExtension>>)
    ensures r.Success? <==> pos + 2 <= |s| && ReadChain(s, pos + 2).Success?
    ensures r.Success? ==>
      var c := r.value.value;
      && c.extensionIntroducer == s[pos] && c.commentLabel == s[pos + 1]
      && ChainAt(s, pos + 2, c.commentData)
      && r.value.next == pos + 2 + ChainLength(c.commentData)
      && r.value.next <= |s|
  {
    var introducer :- ReadByte(s, pos);
    var labelByte :- ReadByte(s, introducer.next);
    var chain :- ReadChain(s, labelByte.next);
    ReadChainSound(s, labelByte.next);
    Success(Parsed(CommentExtension(introducer.value, labelByte.value, chain.value), chain.next))
  }
}
