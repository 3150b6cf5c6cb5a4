/** Turning uploaded files and a typed prompt into one human message (`to_markdown`,
    `as_content_block` and `as_human_message` in main.py). */
module Messages {
  import opened Wrappers
  import Ascii
  import PurePath
  import Base64

  /** An uploaded file: the name the browser sent and the file's bytes. */
  datatype Attachment = Attachment(name: string, data: seq<Base64.byte>)

  /** A content block. `extras` is the text block's metadata dictionary; a block made from a
      converted document carries the key "file", the prompt block carries no entry. */
  datatype ContentBlock =
    | TextBlock(text: string, extras: map<string, string>)
    | ImageBlock(mimeType: string, base64: string)

  datatype Role = Human | Ai

  datatype Message = Message(role: Role, blocks: seq<ContentBlock>)

  /** The failures that reach the caller of `as_human_message`. */
  datatype Error =
    | UnknownImageType            // the ValueError raised for an unsupported suffix
    | ConversionFailed(cause: string)  // an error raised by the document converter

  /** The document converter: from a file name and its bytes to markdown text, or the cause
      of its failure. Its internals are outside this model. */
  type Converter = (string, seq<Base64.byte>) -> Result<string, string>

  /** How an attachment is handled, chosen from its suffix. */
  datatype Kind = Document | Image(mime: string)

  const DocumentSuffixes: set<string> := {".pdf", ".doc", ".docx", ".odt"}
  const JpegSuffixes: set<string> := {".jpg", ".jpeg"}
  const PngSuffix: string := ".png"

  /** No suffix appears twice in the table. */
  lemma SuffixTablesDisjoint()
    ensures DocumentSuffixes !! JpegSuffixes
    ensures PngSuffix !in DocumentSuffixes && PngSuffix !in JpegSuffixes
  {
  }

  /** The static suffix table: the kind an already lower-cased suffix selects, if any. */
  function KindOf(ext: string): (k: Option<Kind>)
    ensures k == Some(Document) <==> ext in DocumentSuffixes
    ensures k == Some(Image("image/jpeg")) <==> ext in JpegSuffixes
    ensures k == Some(Image("image/png")) <==> ext == PngSuffix
    ensures k == None <==> ext !in DocumentSuffixes && ext !in JpegSuffixes && ext != PngSuffix
    ensures k.Some? ==> |ext| >= 4
  {
    SuffixTablesDisjoint();
    if ext in DocumentSuffixes then Some(Document)
    else if ext in JpegSuffixes then Some(Image("image/jpeg"))
    else if ext == PngSuffix then Some(Image("image/png"))
    else None
  }

  /** The `match` on the lower-cased suffix of the attachment's name. A name without a suffix
      is not classified. */
  function Classify(name: string): (k: Option<Kind>)
    ensures PurePath.Suffix(name) == "" ==> k.None?
  {
    var ext := Ascii.Lower(PurePath.Suffix(name));
    assert |ext| == |PurePath.Suffix(name)|;
    KindOf(ext)
  }

  /** Names that differ only in the case of their letters are classified alike. */
  lemma ClassifyIgnoresCase(name1: string, name2: string)
    requires Ascii.Lower(name1) == Ascii.Lower(name2)
    ensures Classify(name1) == Classify(name2)
  {
    PurePath.SuffixIgnoresCase(name1, name2);
  }

  /** `to_markdown`: the converter's text, tagged with the attachment's name. */
  function ToMarkdown(a: Attachment, convert: Converter): (r: Result<ContentBlock, Error>)
    ensures r.Ok? <==> convert(a.name, a.data).Ok?
    ensures r.Ok? ==> r.value == TextBlock(convert(a.name, a.data).value, map["file" := a.name])
    ensures r.Err? ==> r.error == ConversionFailed(convert(a.name, a.data).error)
  {
    match convert(a.name, a.data)
    case Ok(text) => Ok(TextBlock(text, map["file" := a.name]))
    case Err(cause) => Err(ConversionFailed(cause))
  }

  /** An image block: the mime type and the base64 text of the raw bytes. */
  function EncodeImage(mime: string, data: seq<Base64.byte>): (b: ContentBlock)
    ensures b.ImageBlock? && b.mimeType == mime
    ensures Base64.Decode(b.base64) == Some(data)
    ensures |b.base64| == 4 * ((|data| + 2) / 3)
  {
    Base64.EncodeDecode(data);
    ImageBlock(mime, Base64.Encode(data))
  }

  /** `as_content_block`: one attachment as one block, or the error it raises. Documents go
      through the converter, JPEG and PNG images become base64 image blocks that decode back
      to the file's bytes, and every other suffix, a missing one included, is rejected. */
  function AsContentBlock(a: Attachment, convert: Converter): (r: Result<ContentBlock, Error>)
    ensures var ext := Ascii.Lower(PurePath.Suffix(a.name));
      && (ext in DocumentSuffixes ==> r == ToMarkdown(a, convert))
      && (ext in JpegSuffixes ==> r.Ok? && r.value.ImageBlock? && r.value.mimeType == "image/jpeg")
      && (ext == PngSuffix ==> r.Ok? && r.value.ImageBlock? && r.value.mimeType == "image/png")
      && (ext !in DocumentSuffixes && ext !in JpegSuffixes && ext != PngSuffix ==>
            r == Err(UnknownImageType))
    ensures PurePath.Suffix(a.name) == "" ==> r == Err(UnknownImageType)
    ensures r.Ok? && r.value.ImageBlock? ==>
      Base64.Decode(r.value.base64) == Some(a.data) &&
      |r.value.base64| == 4 * ((|a.data| + 2) / 3)
  {
    var ext := Ascii.Lower(PurePath.Suffix(a.name));
    var kind := Classify(a.name);
    assert kind == KindOf(ext);
    SuffixTablesDisjoint();
    match kind
    case None => Err(UnknownImageType)
    case Some(Document) => ToMarkdown(a, convert)
    case Some(Image(mime)) => Ok(EncodeImage(mime, a.data))
  }

  /** Applies `f` to the elements in order and collects the results; the first error aborts
      the whole sequence, as an exception raised inside a generator expression does. */
  function MapUntilError<A, B, E>(xs: seq<A>, f: A -> Result<B, E>): (r: Result<seq<B>, E>)
    ensures r.Ok? <==> forall i :: 0 <= i < |xs| ==> f(xs[i]).Ok?
    ensures r.Ok? ==> |r.value| == |xs|
    ensures r.Ok? ==> forall i :: 0 <= i < |xs| ==> f(xs[i]) == Ok(r.value[i])
    ensures r.Err? ==> exists i :: 0 <= i < |xs| && FirstError(xs, f, i) && f(xs[i]) == Err(r.error)
  {
    if xs == [] then Ok([])
    else
      var tail := xs[1..];
      assert forall i :: 1 <= i < |xs| ==> xs[i] == tail[i - 1];
      match f(xs[0])
      case Err(e) =>
        assert FirstError(xs, f, 0);
        Err(e)
      case Ok(b) =>
        match MapUntilError(tail, f)
        case Err(e) =>
          FirstErrorCons(xs, f, e);
          Err(e)
        case Ok(bs) =>
          var r := [b] + bs;
          assert forall i :: 1 <= i < |xs| ==> r[i] == bs[i - 1];
          Ok(r)
  }

  /** Element `i` fails and every element before it succeeds. */
  ghost predicate FirstError<A, B, E>(xs: seq<A>, f: A -> Result<B, E>, i: int)
    requires 0 <= i < |xs|
  {
    f(xs[i]).Err? && forall j :: 0 <= j < i ==> f(xs[j]).Ok?
  }

  /** A first error in the tail of a sequence whose head succeeds is a first error of it. */
  lemma FirstErrorCons<A, B, E>(xs: seq<A>, f: A -> Result<B, E>, e: E)
    requires |xs| > 0 && f(xs[0]).Ok?
    requires exists j :: 0 <= j < |xs| - 1 && FirstError(xs[1..], f, j) && f(xs[1..][j]) == Err(e)
    ensures exists i :: 0 <= i < |xs| && FirstError(xs, f, i) && f(xs[i]) == Err(e)
  {
    var j :| 0 <= j < |xs| - 1 && FirstError(xs[1..], f, j) && f(xs[1..][j]) == Err(e);
    assert FirstError(xs, f, j + 1);
  }

  /** `as_human_message`: the attachment blocks in upload order followed by exactly one text
      block holding the prompt verbatim and no extras; fails, with no message, exactly when
      some attachment fails, and then with the error of the first one that does. */
  function AsHumanMessage(text: string, files: seq<Attachment>, convert: Converter): (r: Result<Message, Error>)
    ensures r.Ok? <==> forall i :: 0 <= i < |files| ==> AsContentBlock(files[i], convert).Ok?
    ensures r.Ok? ==>
      r.value.role == Human && |r.value.blocks| == |files| + 1 &&
      r.value.blocks[|files|] == TextBlock(text, map[]) &&
      forall i :: 0 <= i < |files| ==> AsContentBlock(files[i], convert) == Ok(r.value.blocks[i])
    ensures r.Err? ==> exists i :: 0 <= i < |files| && AsContentBlock(files[i], convert) == Err(r.error) &&
                                   forall j :: 0 <= j < i ==> AsContentBlock(files[j], convert).Ok?
  {
    var block := (a: Attachment) => AsContentBlock(a, convert);
    match MapUntilError(files, block)
    case Err(e) => Err(e)
    case Ok(blocks) => Ok(Message(Human, blocks + [TextBlock(text, map[])]))
  }
}
