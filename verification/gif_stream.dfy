/** <GIF Data Stream> ::= Header <Logical Screen> <Data>* Trailer, as
    `GifDataStream::parse` in src/gif_parser.cc reads it: a header, a logical
    screen, then a loop that dispatches on a two-byte lookahead, then either
    the trailer or one discarded byte.

    The loop is given twice: `ParseData` fuses reading and storing the way
    the source does, and `ParseBlocks` only lists the blocks in stream order.
    `ParseDataFold` proves the first is the second folded into the stored
    state, from which the ordering and accumulation lemmas follow. */
module GifStream {
  import opened Bytes
  import opened GifPacked
  import opened GifRecords
  import opened SubBlocks
  import opened GifBlocks

  // ---------------------------------------------------------------------
  // Lookahead and dispatch
  // ---------------------------------------------------------------------

  /** The label the loop reads with `uint8_t extensionLabel = input.get()`. */
  function ExtensionLabel(s: seq<byte>, pos: nat): byte {
    GetAsByte(s, pos + 1)
  }

  /** The loop body runs when the next byte is an Extension Introducer and the
      label after it is one of the three it dispatches on. */
  predicate LoopContinues(s: seq<byte>, pos: nat) {
    Peek(s, pos) == 0x21 && ExtensionLabel(s, pos) in {0xFF, 0xFE, 0xF9}
  }

  /** The lookahead in terms of the input: a 0x21 byte followed by one of the
      three labels, or a 0x21 as the last byte, whose label reads as 0xFF. */
  lemma LoopContinuesBytes(s: seq<byte>, pos: nat)
    ensures LoopContinues(s, pos) <==>
      && pos < |s| && s[pos] == 0x21
      && (pos + 1 == |s| || s[pos + 1] in {0xFF, 0xFE, 0xF9})
  {
  }

  /** One iteration's record, before it is stored. */
  datatype DataBlock =
    | Application(application: ApplicationExtension)
    | Comment(comment: CommentExtension)
    | Graphic(graphic: GraphicBlock)

  /** One loop iteration. The lookahead consumes nothing: every record is
      decoded from `pos`, so its own introducer and label are the peeked bytes. */
  function ParseDataBlock(s: seq<byte>, pos: nat, rule: TableRule): (r: Result<Parsed<DataBlock>>)
    requires LoopContinues(s, pos)
    ensures r.Failure? <==>
      if ExtensionLabel(s, pos) == 0xFF then ParseApplicationExtension(s, pos, []).Failure?
      else if ExtensionLabel(s, pos) == 0xFE then ParseCommentExtension(s, pos).Failure?
      else ParseGraphicBlock(s, pos, rule).Failure?
    ensures r.Success? ==> pos < r.value.next <= |s|
    ensures r.Success? ==>
      match r.value.value
      case Application(a) =>
        && ExtensionLabel(s, pos) == 0xFF && a.extensionIntroducer == 0x21 && a.extensionLabel == 0xFF
        && ParseApplicationExtension(s, pos, []).Success?
        && ParseApplicationExtension(s, pos, []).value == Parsed(a, r.value.next)
      case Comment(c) =>
        && ExtensionLabel(s, pos) == 0xFE && c.extensionIntroducer == 0x21 && c.commentLabel == 0xFE
        && ParseCommentExtension(s, pos).Success?
        && ParseCommentExtension(s, pos).value == Parsed(c, r.value.next)
      case Graphic(g) =>
        && ExtensionLabel(s, pos) == 0xF9
        && g.graphicControlExtension.extensionIntroducer == 0x21
        && g.graphicControlExtension.graphicControlLabel == 0xF9
        && ParseGraphicBlock(s, pos, rule).Success?
        && ParseGraphicBlock(s, pos, rule).value == Parsed(g, r.value.next)
  {
    var labelByte := ExtensionLabel(s, pos);
    if labelByte == 0xFF then
      var a :- ParseApplicationExtension(s, pos, []);
      ApplicationHeaderLabels(a.value, s, pos);
      Success(Parsed(Application(a.value), a.next))
    else if labelByte == 0xFE then
      var c :- ParseCommentExtension(s, pos);
      Success(Parsed(Comment(c.value), c.next))
    else
      var g :- ParseGraphicBlock(s, pos, rule);
      ControlLabels(g.value.graphicControlExtension, s, pos);
      Success(Parsed(Graphic(g.value), g.next))
  }

  // ---------------------------------------------------------------------
  // What the loop stores
  // ---------------------------------------------------------------------

  /** The three members the loop writes. The source's single
      `applicationExtension` exists before any is read; `None` stands for
      that never-written state. */
  datatype DataState = DataState(
    application: Option<ApplicationExtension>,
    graphicBlocks: seq<GraphicBlock>,
    commentExtensions: seq<CommentExtension>)

  const EmptyData: DataState := DataState(None, [], [])

  /** The sub-blocks the application member holds so far. */
  function PriorApplicationData(st: DataState): seq<SubBlock> {
    if st.application.Some? then st.application.value.applicationData else []
  }

  /** The source's loop: peek, dispatch, store, until the lookahead fails. */
  function ParseData(s: seq<byte>, pos: nat, rule: TableRule, st: DataState): (r: Result<Parsed<DataState>>)
    ensures r.Success? ==> pos <= r.value.next && (r.value.next <= |s| || r.value.next == pos)
    ensures r.Success? ==> !LoopContinues(s, r.value.next)
    ensures !LoopContinues(s, pos) ==> r == Success(Parsed(st, pos))
    decreases |s| - pos
  {
    if !LoopContinues(s, pos) then
      Success(Parsed(st, pos))
    else if ExtensionLabel(s, pos) == 0xFF then
      var a :- ParseApplicationExtension(s, pos, PriorApplicationData(st));
      ParseData(s, a.next, rule, st.(application := Some(a.value)))
    else if ExtensionLabel(s, pos) == 0xFE then
      var c :- ParseCommentExtension(s, pos);
      ParseData(s, c.next, rule, st.(commentExtensions := st.commentExtensions + [c.value]))
    else
      var g :- ParseGraphicBlock(s, pos, rule);
      ParseData(s, g.next, rule, st.(graphicBlocks := st.graphicBlocks + [g.value]))
  }

  /** Storing one record. */
  function Absorb(st: DataState, b: DataBlock): (r: DataState)
    ensures b.Application? ==>
      && r.application.Some?
      && r.application.value.(applicationData := b.application.applicationData)
         == b.application
      && r.application.value.applicationData
         == PriorApplicationData(st) + b.application.applicationData
    ensures !b.Application? ==> r.application == st.application
    ensures r.commentExtensions == st.commentExtensions + (if b.Comment? then [b.comment] else [])
    ensures r.graphicBlocks == st.graphicBlocks + (if b.Graphic? then [b.graphic] else [])
  {
    match b
    case Application(a) =>
      st.(application := Some(a.(applicationData := PriorApplicationData(st) + a.applicationData)))
    case Comment(c) => st.(commentExtensions := st.commentExtensions + [c])
    case Graphic(g) => st.(graphicBlocks := st.graphicBlocks + [g])
  }

  function AbsorbAll(st: DataState, bs: seq<DataBlock>): DataState
    decreases |bs|
  {
    if bs == [] then st else AbsorbAll(Absorb(st, bs[0]), bs[1..])
  }

  /** The records of the loop in stream order, and where the loop stops. */
  function ParseBlocks(s: seq<byte>, pos: nat, rule: TableRule): (r: Result<Parsed<seq<DataBlock>>>)
    ensures r.Success? ==> pos <= r.value.next && !LoopContinues(s, r.value.next)
    ensures r.Success? && r.value.value == [] ==> r.value.next == pos
    decreases |s| - pos
  {
    if !LoopContinues(s, pos) then
      Success(Parsed([], pos))
    else
      var b :- ParseDataBlock(s, pos, rule);
      var rest :- ParseBlocks(s, b.next, rule);
      Success(Parsed([b.value] + rest.value, rest.next))
  }

  /** `bs` are the records the loop reads from `ps[0]` on: the i-th is the
      one `ParseDataBlock` decodes at `ps[i]`, ending at `ps[i + 1]`, and the
      lookahead fails at the last position. */
  predicate BlocksAt(s: seq<byte>, rule: TableRule, bs: seq<DataBlock>, ps: seq<nat>) {
    && |ps| == |bs| + 1
    && (forall i :: 0 <= i < |bs| ==>
          && LoopContinues(s, ps[i])
          && ParseDataBlock(s, ps[i], rule).Success?
          && ParseDataBlock(s, ps[i], rule).value == Parsed(bs[i], ps[i + 1]))
    && !LoopContinues(s, ps[|bs|])
  }

  /** The loop reads exactly the record sequences that `BlocksAt` describes. */
  lemma ParseBlocksCharacterization(s: seq<byte>, pos: nat, rule: TableRule, bs: seq<DataBlock>, e: nat)
    ensures ParseBlocks(s, pos, rule).Success? && ParseBlocks(s, pos, rule).value == Parsed(bs, e)
        <==> exists ps :: BlocksAt(s, rule, bs, ps) && ps[0] == pos && ps[|bs|] == e
  {
    if ParseBlocks(s, pos, rule).Success? && ParseBlocks(s, pos, rule).value == Parsed(bs, e) {
      var ps := ParseBlocksSound(s, pos, rule);
      assert BlocksAt(s, rule, bs, ps);
    }
    if exists ps :: BlocksAt(s, rule, bs, ps) && ps[0] == pos && ps[|bs|] == e {
      var ps :| BlocksAt(s, rule, bs, ps) && ps[0] == pos && ps[|bs|] == e;
      ParseBlocksComplete(s, rule, bs, ps);
    }
  }

  lemma {:induction false} ParseBlocksSound(s: seq<byte>, pos: nat, rule: TableRule) returns (ps: seq<nat>)
    requires ParseBlocks(s, pos, rule).Success?
    ensures var r := ParseBlocks(s, pos, rule).value;
      BlocksAt(s, rule, r.value, ps) && ps[0] == pos && ps[|r.value|] == r.next
    decreases |s| - pos
  {
    if !LoopContinues(s, pos) {
      ps := [pos];
    } else {
      var b := ParseDataBlock(s, pos, rule).value;
      var tail := ParseBlocksSound(s, b.next, rule);
      BlocksAtCons(s, rule, pos, b.value, ParseBlocks(s, b.next, rule).value.value, tail);
      ps := [pos] + tail;
    }
  }

  /** One more record in front of a described run. */
  lemma BlocksAtCons(s: seq<byte>, rule: TableRule, p: nat, b: DataBlock, bs: seq<DataBlock>, ps: seq<nat>)
    requires LoopContinues(s, p) && BlocksAt(s, rule, bs, ps)
    requires ParseDataBlock(s, p, rule).Success? && ParseDataBlock(s, p, rule).value == Parsed(b, ps[0])
    ensures BlocksAt(s, rule, [b] + bs, [p] + ps)
  {
    var bs', ps' := [b] + bs, [p] + ps;
    forall i | 0 <= i < |bs'|
      ensures && LoopContinues(s, ps'[i])
              && ParseDataBlock(s, ps'[i], rule).Success?
              && ParseDataBlock(s, ps'[i], rule).value == Parsed(bs'[i], ps'[i + 1])
    {
      if i > 0 {
        assert bs'[i] == bs[i - 1] && ps'[i] == ps[i - 1] && ps'[i + 1] == ps[i];
      }
    }
  }

  /** Dropping the first record of a described run. */
  lemma BlocksAtTail(s: seq<byte>, rule: TableRule, bs: seq<DataBlock>, ps: seq<nat>)
    requires BlocksAt(s, rule, bs, ps) && bs != []
    ensures BlocksAt(s, rule, bs[1..], ps[1..])
  {
    forall i | 0 <= i < |bs| - 1
      ensures && LoopContinues(s, ps[1..][i])
              && ParseDataBlock(s, ps[1..][i], rule).Success?
              && ParseDataBlock(s, ps[1..][i], rule).value == Parsed(bs[1..][i], ps[1..][i + 1])
    {
      assert ps[1..][i] == ps[i + 1] && ps[1..][i + 1] == ps[i + 2] && bs[1..][i] == bs[i + 1];
    }
  }

  lemma {:induction false} ParseBlocksComplete(s: seq<byte>, rule: TableRule, bs: seq<DataBlock>, ps: seq<nat>)
    requires BlocksAt(s, rule, bs, ps)
    ensures ParseBlocks(s, ps[0], rule).Success? && ParseBlocks(s, ps[0], rule).value == Parsed(bs, ps[|bs|])
    decreases |bs|
  {
    if bs != [] {
      BlocksAtTail(s, rule, bs, ps);
      ParseBlocksComplete(s, rule, bs[1..], ps[1..]);
      assert ps[1..][0] == ps[1];
      BlocksCons(s, rule, ps[0], bs[0], ps[1]);
      assert [bs[0]] + bs[1..] == bs;
    }
  }

  /** An iteration at `p` that stops at `q` is followed by the loop's run from `q`. */
  lemma BlocksCons(s: seq<byte>, rule: TableRule, p: nat, b: DataBlock, q: nat)
    requires LoopContinues(s, p)
    requires ParseDataBlock(s, p, rule).Success? && ParseDataBlock(s, p, rule).value == Parsed(b, q)
    requires ParseBlocks(s, q, rule).Success?
    ensures ParseBlocks(s, p, rule).Success?
    ensures ParseBlocks(s, p, rule).value
         == Parsed([b] + ParseBlocks(s, q, rule).value.value, ParseBlocks(s, q, rule).value.next)
  {
  }

  /** The fused loop is the stream-order list of records, stored one after
      another; both fail on the same inputs with the same error. */
  lemma {:induction false} ParseDataFold(s: seq<byte>, pos: nat, rule: TableRule, st: DataState)
    ensures ParseData(s, pos, rule, st)
         == match ParseBlocks(s, pos, rule)
            case Success(p) => Success(Parsed(AbsorbAll(st, p.value), p.next))
            case Failure(e) => Failure(e)
    decreases |s| - pos
  {
    if LoopContinues(s, pos) {
      match ParseDataBlock(s, pos, rule)
      case Failure(e) =>
        if ExtensionLabel(s, pos) == 0xFF {
          ApplicationAppends(s, pos, PriorApplicationData(st));
        }
      case Success(b) =>
        if ExtensionLabel(s, pos) == 0xFF {
          ApplicationAppends(s, pos, PriorApplicationData(st));
        }
        ParseDataFold(s, b.next, rule, Absorb(st, b.value));
        match ParseBlocks(s, b.next, rule)
        case Failure(e) =>
        case Success(rest) =>
          assert ([b.value] + rest.value)[1..] == rest.value;
    }
  }

  // ---------------------------------------------------------------------
  // What the stored state holds, in terms of the stream-order list
  // ---------------------------------------------------------------------

  function Comments(bs: seq<DataBlock>): seq<CommentExtension> {
    if bs == [] then []
    else (if bs[0].Comment? then [bs[0].comment] else []) + Comments(bs[1..])
  }

  function Graphics(bs: seq<DataBlock>): seq<GraphicBlock> {
    if bs == [] then []
    else (if bs[0].Graphic? then [bs[0].graphic] else []) + Graphics(bs[1..])
  }

  /** Every application extension's sub-blocks, in stream order. */
  function ApplicationData(bs: seq<DataBlock>): seq<SubBlock> {
    if bs == [] then []
    else (if bs[0].Application? then bs[0].application.applicationData else []) + ApplicationData(bs[1..])
  }

  /** The last application extension in the list, if any. */
  function LastApplication(bs: seq<DataBlock>): Option<ApplicationExtension> {
    if bs == [] then None
    else if LastApplication(bs[1..]).Some? then LastApplication(bs[1..])
    else if bs[0].Application? then Some(bs[0].application)
    else None
  }

  /** Comment extensions are appended in stream order and nothing else. */
  lemma {:induction false} AbsorbAllComments(st: DataState, bs: seq<DataBlock>)
    ensures AbsorbAll(st, bs).commentExtensions == st.commentExtensions + Comments(bs)
    decreases |bs|
  {
    if bs != [] {
      AbsorbAllComments(Absorb(st, bs[0]), bs[1..]);
    }
  }

  /** Graphic blocks are appended in stream order and nothing else. */
  lemma {:induction false} AbsorbAllGraphics(st: DataState, bs: seq<DataBlock>)
    ensures AbsorbAll(st, bs).graphicBlocks == st.graphicBlocks + Graphics(bs)
    decreases |bs|
  {
    if bs != [] {
      AbsorbAllGraphics(Absorb(st, bs[0]), bs[1..]);
    }
  }

  /** The single application member ends up with the fixed fields of the last
      application extension read and the sub-blocks of all of them. */
  lemma {:induction false} AbsorbAllApplication(st: DataState, bs: seq<DataBlock>)
    ensures PriorApplicationData(AbsorbAll(st, bs)) == PriorApplicationData(st) + ApplicationData(bs)
    ensures LastApplication(bs).None? ==> AbsorbAll(st, bs).application == st.application
    ensures LastApplication(bs).Some? ==>
      AbsorbAll(st, bs).application
      == Some(LastApplication(bs).value.(applicationData := PriorApplicationData(st) + ApplicationData(bs)))
    decreases |bs|
  {
    if bs != [] {
      AbsorbAllApplication(Absorb(st, bs[0]), bs[1..]);
      if bs[0].Application? {
        assert PriorApplicationData(st) + bs[0].application.applicationData + ApplicationData(bs[1..])
            == PriorApplicationData(st) + ApplicationData(bs);
      } else {
        assert Absorb(st, bs[0]).application == st.application;
      }
    }
  }

  // ---------------------------------------------------------------------
  // Trailer and the whole stream
  // ---------------------------------------------------------------------

  /** What follows the loop: the 0x3B trailer, or otherwise the one byte the
      source reads and discards (nothing at end of input). */
  datatype Ending = Trailer(trailer: byte) | Unterminated(skipped: Option<byte>)

  function ParseEnding(s: seq<byte>, pos: nat): (r: Parsed<Ending>)
    ensures r.value.Trailer? <==> Peek(s, pos) == 0x3B
    ensures r.value.Trailer? ==> r.value.trailer == 0x3B && r.next == pos + 1
    ensures r.value.Unterminated? && pos < |s| ==> r.value.skipped == Some(s[pos]) && r.next == pos + 1
    ensures pos >= |s| ==> r == Parsed(Unterminated(None), pos)
  {
    if Peek(s, pos) == 0x3B then
      Parsed(Trailer(s[pos]), pos + 1)
    else if pos < |s| then
      Parsed(Unterminated(Some(s[pos])), pos + 1)
    else
      Parsed(Unterminated(None), pos)
  }

  datatype GifDataStream = GifDataStream(
    header: Header,
    logicScreen: LogicScreen,
    data: DataState,
    ending: Ending)

  /** `GifDataStream::parse` from the start of the input. The signature, the
      version and the trailer are not validated. */
  function ParseGifDataStream(s: seq<byte>, rule: TableRule): (r: Result<Parsed<GifDataStream>>)
    ensures r.Success? <==>
      && |s| >= 6
      && ParseLogicScreen(s, 6, rule).Success?
      && ParseBlocks(s, ParseLogicScreen(s, 6, rule).value.next, rule).Success?
    ensures r.Success? ==>
      var g := r.value.value;
      var screen := ParseLogicScreen(s, 6, rule).value;
      var blocks := ParseBlocks(s, screen.next, rule).value;
      && g.header == ParseHeader(s, 0).value.value
      && EncodeHeader(g.header) == s[0..6]
      && g.logicScreen == screen.value
      && g.data == AbsorbAll(EmptyData, blocks.value)
      && ParseEnding(s, blocks.next) == Parsed(g.ending, r.value.next)
  {
    var header :- ParseHeader(s, 0);
    var screen :- ParseLogicScreen(s, header.next, rule);
    ParseDataFold(s, screen.next, rule, EmptyData);
    var data :- ParseData(s, screen.next, rule, EmptyData);
    var ending := ParseEnding(s, data.next);
    Success(Parsed(GifDataStream(header.value, screen.value, data.value, ending.value), ending.next))
  }

  /** The number of frames the program reports is the number of graphic blocks
      in the stream, in stream order. */
  lemma FrameCount(s: seq<byte>, rule: TableRule)
    requires ParseGifDataStream(s, rule).Success?
    ensures var screen := ParseLogicScreen(s, 6, rule).value;
      ParseGifDataStream(s, rule).value.value.data.graphicBlocks
      == Graphics(ParseBlocks(s, screen.next, rule).value.value)
  {
    var screen := ParseLogicScreen(s, 6, rule).value;
    AbsorbAllGraphics(EmptyData, ParseBlocks(s, screen.next, rule).value.value);
  }

  // ---------------------------------------------------------------------
  // Worked inputs
  // ---------------------------------------------------------------------

  /** "GIF89a", a 1x1 screen without a global table, and the trailer. */
  lemma MinimalStream()
    ensures var s: seq<byte> := [0x47, 0x49, 0x46, 0x38, 0x39, 0x61, 1, 0, 1, 0, 0, 0, 0, 0x3B];
      && ParseGifDataStream(s, AsWritten).Success?
      && ParseGifDataStream(s, AsWritten).value.value.ending == Trailer(0x3B)
      && ParseGifDataStream(s, AsWritten).value.value.data == EmptyData
      && ParseGifDataStream(s, AsWritten).value.next == 14
  {
    var s: seq<byte> := [0x47, 0x49, 0x46, 0x38, 0x39, 0x61, 1, 0, 1, 0, 0, 0, 0, 0x3B];
    assert !LoopContinues(s, 13);
  }

  /** An extension label the loop does not know (here Plain Text, 0x01) ends
      the loop without being consumed, and the byte after the loop is then
      read and discarded although it is no trailer. */
  lemma UnknownLabelStopsLoop()
    ensures var s: seq<byte> := [0x47, 0x49, 0x46, 0x38, 0x39, 0x61, 1, 0, 1, 0, 0, 0, 0, 0x21, 0x01];
      && ParseGifDataStream(s, AsWritten).Success?
      && ParseGifDataStream(s, AsWritten).value.value.ending == Unterminated(Some(0x21))
      && ParseGifDataStream(s, AsWritten).value.next == 14
  {
    var s: seq<byte> := [0x47, 0x49, 0x46, 0x38, 0x39, 0x61, 1, 0, 1, 0, 0, 0, 0, 0x21, 0x01];
    assert !LoopContinues(s, 13);
  }

  /** A Table-Based Image with no Graphic Control Extension in front: the
      loop enters only on 0x21, so it stops at the Image Separator 0x2C, which
      is then read and discarded, and the stream holds no graphic block. */
  lemma ImageWithoutControlStops()
    ensures var s: seq<byte> := [0x47, 0x49, 0x46, 0x38, 0x39, 0x61, 1, 0, 1, 0, 0, 0, 0, 0x2C, 0, 0];
      && ParseGifDataStream(s, AsWritten).Success?
      && ParseGifDataStream(s, AsWritten).value.value.data.graphicBlocks == []
      && ParseGifDataStream(s, AsWritten).value.value.ending == Unterminated(Some(0x2C))
      && ParseGifDataStream(s, AsWritten).value.next == 14
  {
    var s: seq<byte> := [0x47, 0x49, 0x46, 0x38, 0x39, 0x61, 1, 0, 1, 0, 0, 0, 0, 0x2C, 0, 0];
    assert !LoopContinues(s, 13);
  }

  /** A lone 0x21 as the last byte: the label read at end of input becomes
      0xFF, so the loop starts an Application Extension that cannot be read. */
  lemma TrailingIntroducerFails()
    ensures var s: seq<byte> := [0x47, 0x49, 0x46, 0x38, 0x39, 0x61, 1, 0, 1, 0, 0, 0, 0, 0x21];
      && LoopContinues(s, 13)
      && ParseGifDataStream(s, AsWritten) == Failure(TruncatedInput)
  {
    var s: seq<byte> := [0x47, 0x49, 0x46, 0x38, 0x39, 0x61, 1, 0, 1, 0, 0, 0, 0, 0x21];
    assert ExtensionLabel(s, 13) == 0xFF;
  }

  /** A loop iteration on label 0xF9 stores one graphic block and carries on
      after it. */
  lemma GraphicStep(s: seq<byte>, pos: nat, rule: TableRule, st: DataState)
    requires LoopContinues(s, pos) && ExtensionLabel(s, pos) == 0xF9
    requires ParseGraphicBlock(s, pos, rule).Success?
    ensures var g := ParseGraphicBlock(s, pos, rule).value;
      ParseData(s, pos, rule, st) == ParseData(s, g.next, rule, st.(graphicBlocks := st.graphicBlocks + [g.value]))
  {
  }

  /** One frame: a Graphic Control Extension, a 1x1 image without a local
      table, image data of one 2-byte sub-block, and the trailer. */
  function OneFrame(): seq<byte> {
    [0x47, 0x49, 0x46, 0x38, 0x39, 0x61, 1, 0, 1, 0, 0, 0, 0,
     0x21, 0xF9, 0x04, 0, 0, 0, 0, 0,
     0x2C, 0, 0, 0, 0, 1, 0, 1, 0, 0,
     0x02, 0x02, 0x4C, 0x01, 0x00,
     0x3B]
  }

  lemma OneFrameImage()
    ensures ParseTableBasedImage(OneFrame(), 21, AsWritten).Success?
    ensures ParseTableBasedImage(OneFrame(), 21, AsWritten).value.next == 36
  {
    var s := OneFrame();
    assert s[30] == 0 && !Bit(s[30], 7);
    ReadChainTerminator(s, 35);
    ReadChainCons(s, 32);
    assert ReadChain(s, 32).value.next == 36;
    assert ParseTableBasedImageData(s, 31).value.next == 36;
    NoLocalTableImage(s, 21, AsWritten);
  }

  lemma OneFrameBlock()
    ensures ParseGraphicBlock(OneFrame(), 13, AsWritten).Success?
    ensures ParseGraphicBlock(OneFrame(), 13, AsWritten).value.next == 36
  {
    var s := OneFrame();
    assert |s| == 37 && s[21] == 0x2C;
    OneFrameImage();
    assert !PlainTextAhead(s, 21);
    assert ParseGraphicRenderingBlock(s, 21, AsWritten).value.next == 36;
    assert ParseGraphicControlExtension(s, 13).value.next == 21;
  }

  /** A stream whose only record is one Graphic Block, followed by the trailer. */
  lemma SingleGraphicStream(s: seq<byte>, rule: TableRule, p: nat, q: nat)
    requires |s| >= 6 && ParseLogicScreen(s, 6, rule).Success? && ParseLogicScreen(s, 6, rule).value.next == p
    requires LoopContinues(s, p) && ExtensionLabel(s, p) == 0xF9
    requires ParseGraphicBlock(s, p, rule).Success? && ParseGraphicBlock(s, p, rule).value.next == q
    requires q < |s| && s[q] == 0x3B
    ensures ParseGifDataStream(s, rule).Success?
    ensures |ParseGifDataStream(s, rule).value.value.data.graphicBlocks| == 1
    ensures ParseGifDataStream(s, rule).value.value.ending == Trailer(0x3B)
    ensures ParseGifDataStream(s, rule).value.next == q + 1
  {
    var st := EmptyData.(graphicBlocks := [ParseGraphicBlock(s, p, rule).value.value]);
    assert ParseData(s, q, rule, st) == Success(Parsed(st, q));
    GraphicStep(s, p, rule, EmptyData);
  }

  lemma OneFrameStream()
    ensures ParseGifDataStream(OneFrame(), AsWritten).Success?
    ensures |ParseGifDataStream(OneFrame(), AsWritten).value.value.data.graphicBlocks| == 1
    ensures ParseGifDataStream(OneFrame(), AsWritten).value.value.ending == Trailer(0x3B)
    ensures ParseGifDataStream(OneFrame(), AsWritten).value.next == |OneFrame()|
  {
    var s := OneFrame();
    assert |s| == 37 && s[10] == 0 && !Bit(s[10], 7);
    assert s[13] == 0x21 && s[14] == 0xF9 && s[36] == 0x3B;
    LogicScreenLength(s, 6);
    OneFrameBlock();
    SingleGraphicStream(s, AsWritten, 13, 36);
  }
}
