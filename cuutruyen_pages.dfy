/** The row-layout string CuuTruyen pages carry in their `base64` field (`parse_page_list`): one
    descrambling object per row block, in a JSON array. A reader of that array is given as its partner. */
module CuuTruyenPages {
  import opened Wrappers
  import opened Text
  import opened Decimal
  import opened CuuTruyenParser

  /** The front of every object, up to the `dy` value. */
  const ObjectHead: string := "{\"sx\":0,\"sy\":-1,\"dx\":0,\"dy\":"

  /** Between the `dy` and `height` values. */
  const ObjectMiddle: string := ",\"width\":0,\"height\":"

  /** The object `format!` writes for one block. */
  function BlockJson(b: RowBlock): string
  {
    ObjectHead + FormatInt(b.dy) + ObjectMiddle + FormatInt(b.height) + "}"
  }

  /** `f` applied to every block, in order. */
  function MapBlocks(f: RowBlock -> string, blocks: seq<RowBlock>): (r: seq<string>)
    ensures |r| == |blocks|
  {
    seq(|blocks|, k requires 0 <= k < |blocks| => f(blocks[k]))
  }

  /** Mapping one more block adds its image at the end. */
  lemma MapSnoc(f: RowBlock -> string, blocks: seq<RowBlock>, i: nat)
    requires i < |blocks|
    ensures MapBlocks(f, blocks[..i + 1]) == MapBlocks(f, blocks[..i]) + [f(blocks[i])]
  {
    var longer := MapBlocks(f, blocks[..i + 1]);
    var extended := MapBlocks(f, blocks[..i]) + [f(blocks[i])];
    forall k | 0 <= k < i + 1 ensures longer[k] == extended[k] {
      if k < i {
        assert extended[k] == MapBlocks(f, blocks[..i])[k];
      }
    }
  }

  /** The image of the first block, then the images of the others. */
  lemma MapFront(f: RowBlock -> string, blocks: seq<RowBlock>)
    requires blocks != []
    ensures MapBlocks(f, blocks)[0] == f(blocks[0])
    ensures MapBlocks(f, blocks)[1..] == MapBlocks(f, blocks[1..])
  {
  }

  /** The objects of `blocks`, in order. */
  function Objects(blocks: seq<RowBlock>): (objects: seq<string>)
    ensures |objects| == |blocks|
  {
    MapBlocks(BlockJson, blocks)
  }

  /** The objects of one more block end with its object. */
  lemma ObjectsSnoc(blocks: seq<RowBlock>, i: nat)
    requires i < |blocks|
    ensures Objects(blocks[..i + 1]) == Objects(blocks[..i]) + [BlockJson(blocks[i])]
  {
    MapSnoc(BlockJson, blocks, i);
  }

  /** The string the loop builds: `[`, the objects separated by commas, `]`. */
  function BlocksJson(blocks: seq<RowBlock>): string
  {
    if blocks == [] then "[]" else "[" + JoinWith(Objects(blocks), ',') + "]"
  }

  /** One step of the loop: a comma unless nothing has been written yet, then the block's object. */
  method PushObject(s: string, ghost objects: seq<string>, b: RowBlock, first: bool)
      returns (s': string, ghost objects': seq<string>)
    requires first <==> objects == []
    requires objects == [] ==> s == "["
    requires objects != [] ==> s == "[" + JoinWith(objects, ',')
    ensures objects' == objects + [BlockJson(b)]
    ensures s' == "[" + JoinWith(objects', ',')
  {
    var item := BlockJson(b);
    objects' := objects + [item];
    if first {
      s' := s + item;
    } else {
      JoinWithSnoc(objects, item, ',');
      s' := s + "," + item;
    }
  }

  /** The serialising loop of `parse_page_list`: a comma before every object but the first. */
  method SerializeBlocks(blocks: seq<RowBlock>) returns (s: string)
    ensures s == BlocksJson(blocks)
  {
    s := "[";
    ghost var objects: seq<string> := [];
    for i := 0 to |blocks|
      invariant objects == Objects(blocks[..i])
      invariant i == 0 ==> s == "["
      invariant i > 0 ==> s == "[" + JoinWith(objects, ',')
    {
      s, objects := PushObject(s, objects, blocks[i], i == 0);
      ObjectsSnoc(blocks, i);
    }
    assert blocks[..|blocks|] == blocks;
    s := s + "]";
  }

  /** No blocks give `[]`. */
  lemma NoBlocksJson()
    ensures BlocksJson([]) == "[]"
  {
  }

  /** What a page gets from its `drm_data` (`parse_page_list`, line 167): line breaks and surrounding
      whitespace removed, the descriptor decoded with `unwrap`, and the blocks serialised. A descriptor
      without the magic panics here. */
  const UnwrapErrPanic: string := "called `Result::unwrap()` on an `Err` value"

  function PageLayout(drmData: string): (r: Exec<string>)
    ensures r.Done? ==> DrmDecoded(Trim(RemoveChar(drmData, '\n'))).Done?
  {
    match DrmDecoded(Trim(RemoveChar(drmData, '\n')))
    case Panic(m) => Panic(m)
    case Done(Err(_)) => Panic(UnwrapErrPanic)
    case Done(Ok(blocks)) => Done(BlocksJson(blocks))
  }

  /** `parse_page_list`'s treatment of one page's `drm_data`. */
  method PageLayoutOf(drmData: string) returns (r: Exec<string>)
    ensures r == PageLayout(drmData)
  {
    var blocks := DecodeDrm(Trim(RemoveChar(drmData, '\n')));
    match blocks {
      case Panic(m) => r := Panic(m);
      case Done(Err(_)) => r := Panic(UnwrapErrPanic);
      case Done(Ok(bs)) =>
        var json := SerializeBlocks(bs);
        r := Done(json);
    }
  }

  // ---------------------------------------------------------------------------------------------------------
  // Reading the array back

  /** An `i32` written up to the first `stop`, and the text from `stop` on. */
  function ReadNumber(s: string, stop: char): (r: Option<(int, string)>)
    ensures r.Some? ==> |r.value.1| <= |s| && r.value.1 != [] && r.value.1[0] == stop
  {
    match FirstIn(s, {stop})
    case None => None
    case Some(k) =>
      match ParseI32(s[..k])
      case None => None
      case Some(n) => Some((n, s[k..]))
  }

  /** One object at the front of `s`, and what follows it. */
  function ReadBlock(s: string): (r: Option<(RowBlock, string)>)
    ensures r.Some? ==> |r.value.1| < |s|
  {
    match StripPrefix(s, ObjectHead)
    case None => None
    case Some(s1) =>
      match ReadNumber(s1, ',')
      case None => None
      case Some((dy, s2)) =>
        match StripPrefix(s2, ObjectMiddle)
        case None => None
        case Some(s3) =>
          match ReadNumber(s3, '}')
          case None => None
          case Some((height, s4)) => Some((RowBlock(dy, height), s4[1..]))
  }

  /** One or more comma-separated objects closed by `]`. */
  function ReadObjects(s: string): Option<seq<RowBlock>>
    decreases |s|
  {
    match ReadBlock(s)
    case None => None
    case Some((b, rest)) =>
      if rest == "]" then Some([b])
      else if rest != [] && rest[0] == ',' then
        match ReadObjects(rest[1..])
        case None => None
        case Some(bs) => Some([b] + bs)
      else None
  }

  /** The blocks of a layout array. */
  function ParseBlocksJson(s: string): Option<seq<RowBlock>>
  {
    if s == "[]" then Some([])
    else if s != [] && s[0] == '[' then ReadObjects(s[1..])
    else None
  }

  /** Both numbers are `i32`s. */
  predicate InRange(b: RowBlock) {
    IsI32(b.dy) && IsI32(b.height)
  }

  /** A number followed by text that starts with `stop`, which is neither a digit nor `-`, is read back. */
  lemma ReadNumberOf(n: int, stop: char, tail: string)
    requires IsI32(n) && !IsDigit(stop) && stop != '-'
    requires tail != [] && tail[0] == stop
    ensures ReadNumber(FormatInt(n) + tail, stop) == Some((n, tail))
  {
    var f := FormatInt(n);
    var s := f + tail;
    assert s[|f|] == stop;
    var k := FirstIn(s, {stop}).value;
    assert k == |f|;
    assert s[..k] == f;
    assert s[k..] == tail;
    ParseFormat(n);
  }

  /** The object of `b` followed by `rest`, cut where the reader cuts it. */
  lemma BlockJsonParts(b: RowBlock, rest: string)
    ensures BlockJson(b) + rest
         == ObjectHead + (FormatInt(b.dy) + (ObjectMiddle + (FormatInt(b.height) + ("}" + rest))))
  {
    var head, dy, middle, height, close := ObjectHead, FormatInt(b.dy), ObjectMiddle, FormatInt(b.height), "}";
    Assoc(head + dy + middle + height, close, rest);
    Assoc(head + dy + middle, height, close + rest);
    Assoc(head + dy, middle, height + (close + rest));
    Assoc(head, dy, middle + (height + (close + rest)));
  }

  lemma Assoc(a: string, b: string, c: string)
    ensures (a + b) + c == a + (b + c)
  {
  }

  /** The reader's four steps, each succeeding, read one object. */
  lemma ReadBlockSteps(s: string, s1: string, dy: int, s2: string, s3: string, height: int, s4: string)
    requires StripPrefix(s, ObjectHead) == Some(s1) && ReadNumber(s1, ',') == Some((dy, s2))
    requires StripPrefix(s2, ObjectMiddle) == Some(s3) && ReadNumber(s3, '}') == Some((height, s4))
    ensures ReadBlock(s) == Some((RowBlock(dy, height), s4[1..]))
  {
  }

  /** An object is read back, whatever follows it. */
  lemma ReadBlockOf(b: RowBlock, rest: string)
    requires InRange(b)
    ensures ReadBlock(BlockJson(b) + rest) == Some((b, rest))
  {
    var s4 := "}" + rest;
    var s3 := FormatInt(b.height) + s4;
    var s2 := ObjectMiddle + s3;
    var s1 := FormatInt(b.dy) + s2;
    BlockJsonParts(b, rest);
    StripPrefixOf(ObjectHead, s1);
    ReadNumberOf(b.dy, ',', s2);
    StripPrefixOf(ObjectMiddle, s3);
    ReadNumberOf(b.height, '}', s4);
    ReadBlockSteps(BlockJson(b) + rest, s1, b.dy, s2, s3, b.height, s4);
    assert s4[1..] == rest;
  }

  /** The reader stops after an object followed by `]`, ... */
  lemma ReadObjectsLast(s: string, b: RowBlock)
    requires ReadBlock(s) == Some((b, "]"))
    ensures ReadObjects(s) == Some([b])
  {
  }

  /** ... and goes on after an object followed by a comma. */
  lemma ReadObjectsMore(s: string, b: RowBlock, tail: string, blocks: seq<RowBlock>)
    requires ReadBlock(s) == Some((b, "," + tail)) && ReadObjects(tail) == Some(blocks)
    ensures ReadObjects(s) == Some([b] + blocks)
  {
    assert ("," + tail)[1..] == tail;
  }

  /** An object in range, a comma and objects that are read back are read back. */
  lemma ReadObjectsCons(b: RowBlock, tail: string, rest: seq<RowBlock>)
    requires InRange(b) && ReadObjects(tail) == Some(rest)
    ensures ReadObjects(BlockJson(b) + ("," + tail)) == Some([b] + rest)
  {
    ReadBlockOf(b, "," + tail);
    ReadObjectsMore(BlockJson(b) + ("," + tail), b, tail, rest);
  }

  /** The objects of several blocks are the first one's, a comma and the rest's. */
  lemma ObjectsFront(blocks: seq<RowBlock>)
    requires |blocks| >= 2
    ensures JoinWith(Objects(blocks), ',') + "]"
         == BlockJson(blocks[0]) + ("," + (JoinWith(Objects(blocks[1..]), ',') + "]"))
  {
    MapFront(BlockJson, blocks);
    JoinFront(Objects(blocks));
  }

  /** Several pieces joined by commas and closed by `]`: the first, a comma, and the rest closed. */
  lemma JoinFront(objects: seq<string>)
    requires |objects| >= 2
    ensures JoinWith(objects, ',') + "]" == objects[0] + ("," + (JoinWith(objects[1..], ',') + "]"))
  {
    var first, rest := objects[0], JoinWith(objects[1..], ',');
    assert JoinWith(objects, ',') == first + [','] + rest;
    Assoc(first + [','], rest, "]");
    Assoc(first, [','], rest + "]");
  }

  /** One object closed by `]` is read back ... */
  lemma ReadOneObject(b: RowBlock)
    requires InRange(b)
    ensures ReadObjects(JoinWith(Objects([b]), ',') + "]") == Some([b])
  {
    assert JoinWith(Objects([b]), ',') == BlockJson(b);
    ReadBlockOf(b, "]");
    ReadObjectsLast(BlockJson(b) + "]", b);
  }

  /** ... and so is an object followed by a comma and objects that are read back. */
  lemma ReadMoreObjects(blocks: seq<RowBlock>)
    requires |blocks| >= 2 && InRange(blocks[0])
    requires ReadObjects(JoinWith(Objects(blocks[1..]), ',') + "]") == Some(blocks[1..])
    ensures ReadObjects(JoinWith(Objects(blocks), ',') + "]") == Some(blocks)
  {
    var b := blocks[0];
    var tail := JoinWith(Objects(blocks[1..]), ',') + "]";
    FrontAndRest(blocks);
    ObjectsFront(blocks);
    ReadObjectsCons(b, tail, blocks[1..]);
  }

  lemma FrontAndRest(blocks: seq<RowBlock>)
    requires blocks != []
    ensures [blocks[0]] + blocks[1..] == blocks
  {
  }

  /** The comma-separated objects of blocks in range, closed by `]`, are read back. */
  lemma {:induction false} ReadObjectsOf(blocks: seq<RowBlock>)
    requires blocks != [] && forall k :: 0 <= k < |blocks| ==> InRange(blocks[k])
    ensures ReadObjects(JoinWith(Objects(blocks), ',') + "]") == Some(blocks)
    decreases |blocks|
  {
    if |blocks| == 1 {
      ReadOneObject(blocks[0]);
      assert [blocks[0]] == blocks;
    } else {
      ReadObjectsOf(blocks[1..]);
      ReadMoreObjects(blocks);
    }
  }

  /** `[` before objects that are read back reads as an array of them. */
  lemma ReadArray(t: string, blocks: seq<RowBlock>)
    requires ReadObjects(t) == Some(blocks)
    ensures ParseBlocksJson("[" + t) == Some(blocks)
  {
    assert ("[" + t)[1..] == t;
  }

  /** Reading the serialised array gives back the blocks, in order. */
  lemma BlocksJsonRoundTrip(blocks: seq<RowBlock>)
    requires forall k :: 0 <= k < |blocks| ==> InRange(blocks[k])
    ensures ParseBlocksJson(BlocksJson(blocks)) == Some(blocks)
  {
    if blocks != [] {
      NonEmptyRoundTrip(blocks);
    }
  }

  lemma NonEmptyRoundTrip(blocks: seq<RowBlock>)
    requires blocks != [] && forall k :: 0 <= k < |blocks| ==> InRange(blocks[k])
    ensures ParseBlocksJson(BlocksJson(blocks)) == Some(blocks)
  {
    var body := JoinWith(Objects(blocks), ',');
    ReadObjectsOf(blocks);
    ReadArray(body + "]", blocks);
    Assoc("[", body, "]");
  }

  /** A page whose `drm_data` is what the server produces for a well-formed descriptor gets exactly the
      descriptor's blocks, serialised. */
  lemma PageLayoutOfProtected(text: string)
    requires Descriptor(text).Done? && Descriptor(text).value.Ok?
    ensures PageLayout(Protected(text)) == Done(BlocksJson(Descriptor(text).value.value))
    ensures ParseBlocksJson(PageLayout(Protected(text)).value) == Some(Descriptor(text).value.value)
  {
    var drmData := Protected(text);
    RemoveCharAbsent(drmData, '\n');
    TrimNoWhitespace(drmData);
    DrmRoundTrip(text);
    var fields := Fields(text);
    BlocksShape(fields, |fields|);
    BlocksJsonRoundTrip(Descriptor(text).value.value);
  }
}
