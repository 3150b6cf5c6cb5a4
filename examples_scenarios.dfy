/** Concrete submissions worked through the model. The names are parameters fixed by a
    precondition, which keeps the verifier from unfolding every function on the literals. */
module Scenarios {
  import opened Wrappers
  import Ascii
  import PurePath
  import Base64
  import opened Messages

  /** The entries of the suffix table used below. */
  lemma TableEntries()
    ensures KindOf(".jpg") == Some(Image("image/jpeg"))
    ensures KindOf(".png") == Some(Image("image/png"))
    ensures KindOf(".pdf") == Some(Document)
    ensures KindOf(".txt") == None
  {
    SuffixTablesDisjoint();
  }

  /** The suffixes used below are already in lower case. */
  lemma LowerCaseSuffixes()
    ensures Ascii.Lower(".jpg") == ".jpg" && Ascii.Lower(".png") == ".png"
    ensures Ascii.Lower(".pdf") == ".pdf" && Ascii.Lower(".txt") == ".txt"
  {
  }

  /** A name whose suffix is already in lower case is classified by that suffix. */
  lemma ClassifiedBy(name: string, ext: string)
    requires PurePath.Suffix(name) == ext && Ascii.Lower(ext) == ext
    ensures Classify(name) == KindOf(ext)
  {
  }

  /** An attachment classified as an image becomes the image block of its bytes. */
  lemma ImageAttachment(f: Attachment, convert: Converter, mime: string)
    requires Classify(f.name) == Some(Image(mime))
    ensures AsContentBlock(f, convert) == Ok(ImageBlock(mime, Base64.Encode(f.data)))
  {
  }

  /** An attachment classified as a document becomes the converter's text tagged with its name. */
  lemma DocumentAttachment(f: Attachment, convert: Converter)
    requires Classify(f.name) == Some(Document) && convert(f.name, f.data).Ok?
    ensures AsContentBlock(f, convert) == Ok(TextBlock(convert(f.name, f.data).value, map["file" := f.name]))
  {
  }

  /** A plain name whose only dot is its first character, such as ".png", has no suffix. */
  lemma LeadingDotOnly(name: string)
    requires '/' !in name && |name| > 0 && name[0] == '.' && '.' !in name[1..]
    ensures PurePath.Suffix(name) == "" && Classify(name) == None
  {
    PurePath.SuffixNonEmptyIff(name);
    forall i | 0 < i < |name|
      ensures name[i] != '.'
    {
      assert name[i] == name[1..][i - 1];
    }
  }

  /** A plain name whose only dot is its last character, such as "a.", has no suffix. */
  lemma TrailingDotOnly(name: string)
    requires '/' !in name && |name| > 0 && name[|name| - 1] == '.' && '.' !in name[..|name| - 1]
    ensures PurePath.Suffix(name) == "" && Classify(name) == None
  {
    PurePath.SuffixNonEmptyIff(name);
    forall i | 0 <= i < |name| - 1
      ensures name[i] != '.'
    {
      assert name[i] == name[..|name| - 1][i];
    }
  }

  /** A plain name without a dot, such as "README", has no suffix. */
  lemma NoDot(name: string)
    requires '/' !in name && '.' !in name
    ensures PurePath.Suffix(name) == "" && Classify(name) == None
  {
    PurePath.SuffixNonEmptyIff(name);
  }

  /** "foo.jpg" has the suffix ".jpg". */
  lemma JpgSuffix(name: string)
    requires name == "foo.jpg"
    ensures PurePath.Suffix(name) == ".jpg"
  {
    PurePath.SuffixOfPlainName(name, 3);
  }

  /** "notes.txt" has the suffix ".txt". */
  lemma TxtSuffix(name: string)
    requires name == "notes.txt"
    ensures PurePath.Suffix(name) == ".txt"
  {
    PurePath.SuffixOfPlainName(name, 5);
  }

  /** "a.png" has the suffix ".png". */
  lemma PngSuffix(name: string)
    requires name == "a.png"
    ensures PurePath.Suffix(name) == ".png"
  {
    PurePath.SuffixOfPlainName(name, 1);
  }

  /** "b.pdf" has the suffix ".pdf". */
  lemma PdfSuffix(name: string)
    requires name == "b.pdf"
    ensures PurePath.Suffix(name) == ".pdf"
  {
    PurePath.SuffixOfPlainName(name, 1);
  }

  /** "FOO.JPG" and "foo.jpg" are both JPEG images. */
  lemma JpegNameInAnyCase(upper: string, lower: string)
    requires upper == "FOO.JPG" && lower == "foo.jpg"
    ensures Classify(upper) == Classify(lower) == Some(Image("image/jpeg"))
  {
    JpgSuffix(lower);
    LowerCaseSuffixes();
    ClassifiedBy(lower, ".jpg");
    TableEntries();
    assert Ascii.Lower(upper) == Ascii.Lower(lower);
    ClassifyIgnoresCase(upper, lower);
  }

  /** A ".txt" attachment aborts the whole message with the unknown-type error. */
  lemma TextFileRejected(name: string, prompt: string, data: seq<Base64.byte>, convert: Converter)
    requires name == "notes.txt"
    ensures AsHumanMessage(prompt, [Attachment(name, data)], convert) == Err(UnknownImageType)
  {
    TxtSuffix(name);
    LowerCaseSuffixes();
    ClassifiedBy(name, ".txt");
    TableEntries();
    var files := [Attachment(name, data)];
    assert AsContentBlock(files[0], convert) == Err(UnknownImageType);
  }

  /** An image and a document, in that order, give their two blocks in that order and then the
      prompt. */
  lemma ImageThenDocument(img: Attachment, doc: Attachment, prompt: string, convert: Converter)
    requires Classify(img.name) == Some(Image("image/png")) && Classify(doc.name) == Some(Document)
    requires convert(doc.name, doc.data).Ok?
    ensures var r := AsHumanMessage(prompt, [img, doc], convert);
      r.Ok? &&
      r.value.blocks == [ImageBlock("image/png", Base64.Encode(img.data)),
                         TextBlock(convert(doc.name, doc.data).value, map["file" := doc.name]),
                         TextBlock(prompt, map[])]
  {
    var files := [img, doc];
    ImageAttachment(files[0], convert, "image/png");
    DocumentAttachment(files[1], convert);
  }

  /** Files "a.png" and "b.pdf" give an image block, a text block tagged "b.pdf", and the
      prompt block, in that order. */
  lemma AttachmentOrder(a: string, b: string, prompt: string, png: seq<Base64.byte>, pdf: seq<Base64.byte>,
                        convert: Converter)
    requires a == "a.png" && b == "b.pdf" && convert(b, pdf).Ok?
    ensures var r := AsHumanMessage(prompt, [Attachment(a, png), Attachment(b, pdf)], convert);
      r.Ok? &&
      r.value.blocks == [ImageBlock("image/png", Base64.Encode(png)),
                         TextBlock(convert(b, pdf).value, map["file" := b]),
                         TextBlock(prompt, map[])]
  {
    PngSuffix(a);
    PdfSuffix(b);
    LowerCaseSuffixes();
    ClassifiedBy(a, ".png");
    ClassifiedBy(b, ".pdf");
    TableEntries();
    ImageThenDocument(Attachment(a, png), Attachment(b, pdf), prompt, convert);
  }
}
