# Attachment-to-message pipeline of the AI & Archives lab chat

This project models the only logic in the lab's chat front-end (`main.py`): how a submitted
prompt and its uploaded files become one human message, and how one chat turn records that
message and the model's reply in the session's history.

- **Classifier** (`as_content_block`, `main.py:56-80`). The file name's suffix is
  lower-cased and looked up in a fixed table. `.pdf`, `.doc`, `.docx` and `.odt` go to the
  document converter. `.jpg` and `.jpeg` become `image/jpeg` image blocks. `.png` becomes an
  `image/png` image block. Any other suffix raises `ValueError("unknown image type")`. That
  includes a missing suffix. The suffix follows `pathlib.PurePath.suffix`: it is taken from the
  final path component, starts at the last dot, and is empty when that dot is the first or the
  last character of the name. This is pathlib's rule up to Python 3.13. Later versions give "."
  for a name ending in a single dot; "." is in no table entry, so classification is the same.
- **Document wrapping** (`to_markdown`, `main.py:49-54`). The converter's markdown becomes a
  text block whose `extras` map `"file"` to the attachment's name. The converter itself is a
  parameter (`Messages.Converter`). Its failures propagate as `ConversionFailed`.
- **Image encoding** (`main.py:63-78`). The file's bytes are encoded with standard base64,
  section 4 of RFC 4648. `Base64.Encode` writes that encoding out. A strict `Base64.Decode` is
  its partner. The model proves that decoding the block's text gives back exactly the file's
  bytes. It proves that the text is 4·⌈n/3⌉ characters long. It also proves the converse:
  whatever the decoder accepts is the encoding of what it returns.
- **Message assembly** (`as_human_message`, `main.py:83-89`). One block per attachment, in
  upload order, then exactly one text block holding the prompt verbatim (even when empty) with
  no extras. If any attachment raises, no message is produced. The error is that of the first
  failing attachment, because the generator is consumed in order.
- **Chat turn** (`main`, `main.py:122-140`). The history is a `History` object holding a
  sequence of messages, appended to in place. The session's `"messages"` entry is a nullable
  reference: null means the entry is absent. `Session.Submit` reproduces the source's order of
  effects:
  - it takes the stored list, or a fresh empty one;
  - it assembles the message and appends it;
  - it calls the model with `[*hist, msg]`, so the model receives the old history followed by
    the human message **twice**;
  - it appends the reply and stores the list.

  Consequences that the contract states:
  - a failed assembly changes nothing;
  - a successful turn adds exactly the human message and the reply;
  - a failed model call leaves the human message recorded when the session already held a
    list (it was appended in place), but leaves the entry absent on a first turn (the fresh
    list was never stored).

Two details of the code are easy to misread:
- the unknown-suffix error names no extension (it is `UnknownImageType`);
- a failed model call on a first turn leaves nothing recorded, so the human message does not
  always stay in the history.

Modules: `Wrappers` (Option/Result), `Ascii`, `PurePath`, `Base64`, `Messages`, `Chat`, and
`Scenarios` (concrete submissions worked through the model).

## Model

| member | source | states |
|---|---|---|
| `Ascii.Lower` | main.py:60 | lower-casing keeps the length and maps each character by the ASCII case mapping |
| `Ascii.LowerIdempotent` | main.py:60 | lower-casing twice is lower-casing once |
| `PurePath.LastIndexOf` | main.py:59 | the result is -1 or an index of the character, and no later position holds it |
| `PurePath.Name` | main.py:59 | the final component holds no '/' and is no longer than the path |
| `PurePath.NameIsFinalComponent` | main.py:59 | the path is its directory part followed by the final component; a non-empty directory part ends with '/' |
| `PurePath.Extension` | main.py:59-60 | the extension is empty, or is shorter than the name, starts with a dot, is at least two characters long and holds no other dot |
| `PurePath.ExtensionFromLastDot` | main.py:59-60 | a name has an extension exactly when its last dot is neither first nor last, and the extension is then the name's tail from that dot |
| `PurePath.Suffix` | main.py:59-60 | the suffix holds no '/' |
| `PurePath.SuffixNonEmptyIff` | main.py:59-60 | a plain name has a suffix exactly when its last dot is neither its first nor its last character |
| `PurePath.SuffixOfPlainName` | main.py:59-60 | for a name without '/', the suffix starts at the last dot when that dot is neither first nor last |
| `PurePath.LastIndexOfLower` | main.py:59-60 | lower-casing does not move the last '.' or '/' |
| `PurePath.SuffixLower` | main.py:59-60 | taking the suffix commutes with lower-casing |
| `PurePath.SuffixIgnoresCase` | main.py:59-60 | paths equal up to letter case have suffixes equal up to letter case |
| `Base64.EncodeDigit` | main.py:65 | each 6-bit value maps to an alphabet character that decodes back to it |
| `Base64.DecodeDigit` | main.py:65 | decoded values are 6-bit, and the pad character is not a digit |
| `Base64.DecodeDigitInverse` | main.py:65 | every accepted character is the encoding of its value |
| `Base64.Encode` | main.py:65 | the output has 4·⌈n/3⌉ characters, all from the alphabet, with '=' only in the last two positions |
| `Base64.Decode` | main.py:65 | the round-trip partner of the encoding, which the source never calls: an accepted string has 4·⌈n/3⌉ characters for the n bytes it yields |
| `Base64.GroupRoundTrip` | main.py:65 | a full 3-byte group decodes back to its bytes |
| `Base64.Tail1RoundTrip` | main.py:65 | a padded 1-byte final group decodes back to its byte |
| `Base64.Tail2RoundTrip` | main.py:65 | a padded 2-byte final group decodes back to its bytes |
| `Base64.EncodeDecode` | main.py:65 | decoding the encoding of any bytes gives back exactly those bytes |
| `Base64.JoinSplit` | main.py:65 | joining four 6-bit values into three bytes and splitting them again is the identity |
| `Base64.GroupInverse` | main.py:65 | a group that decodes re-encodes to the same four characters |
| `Base64.Tail1Inverse` | main.py:65 | a padded 1-byte group that decodes re-encodes to itself |
| `Base64.Tail2Inverse` | main.py:65 | a padded 2-byte group that decodes re-encodes to itself |
| `Base64.LastInverse` | main.py:65 | whatever the final four characters decode to re-encodes to them |
| `Base64.DecodeEncode` | main.py:65 | whatever the decoder accepts is the encoding of what it returns |
| `Base64.DecodeIffEncode` | main.py:65 | a string decodes to some bytes exactly when it is the encoding of those bytes |
| `Messages.SuffixTablesDisjoint` | main.py:61-71 | no suffix appears under two cases of the match |
| `Messages.KindOf` | main.py:60-80 | a suffix selects the converter exactly when it is `.pdf`, `.doc`, `.docx` or `.odt`; `image/jpeg` exactly when it is `.jpg` or `.jpeg`; `image/png` exactly when it is `.png`; and nothing exactly when it is none of these |
| `Messages.Classify` | main.py:59-60 | a name without a suffix selects no handler |
| `Messages.ClassifyIgnoresCase` | main.py:59-60 | names equal up to letter case select the same handler and mime type |
| `Messages.ToMarkdown` | main.py:49-54 | succeeds exactly when the converter does; the block is the converter's text with extras `{"file": name}`; a converter error is passed on |
| `Messages.EncodeImage` | main.py:64-78 | an image block with the given mime type whose base64 text decodes to the bytes and has 4·⌈n/3⌉ characters |
| `Messages.AsContentBlock` | main.py:56-80 | document suffixes go to the converter; `.jpg`/`.jpeg` give `image/jpeg` and `.png` gives `image/png` image blocks; every other suffix, a missing one included, raises the unknown-type error; an image block's text decodes to the file's bytes and has 4·⌈n/3⌉ characters |
| `Messages.MapUntilError` | main.py:86-87 | succeeds exactly when every element does; the i-th result is the i-th element's block; on failure the error is that of the first failing element |
| `Messages.FirstErrorCons` | main.py:86-87 | a first failure in the tail after a successful head is the first failure of the list |
| `Messages.AsHumanMessage` | main.py:83-89 | succeeds exactly when every attachment does; then it holds |files|+1 blocks: block i is attachment i's block, and the last is the prompt verbatim with no extras; otherwise it fails with the first failing attachment's error |
| `Chat.History.constructor` | main.py:122 | a new history is empty |
| `Chat.History.Append` | main.py:124 | appends one message at the end and changes nothing else |
| `Chat.Session.constructor` | main.py:122 | a new session has no stored history |
| `Chat.Session.Transcript` | main.py:122 | an absent entry reads as the empty history |
| `Chat.Session.Submit` | main.py:122-140 | the history only grows. A failed assembly changes nothing. The model is called with the old history plus the human message twice. On success the history gains exactly the human message and the reply. On a model failure, a stored history keeps the human message and the entry stays as it was |
| `Scenarios.TableEntries` | main.py:61-80 | `.jpg`, `.png` and `.pdf` select their handlers; `.txt` selects none |
| `Scenarios.LowerCaseSuffixes` | main.py:60 | the example suffixes are already lower case |
| `Scenarios.ClassifiedBy` | main.py:59-60 | a name whose suffix is already lower case is classified by that suffix |
| `Scenarios.ImageAttachment` | main.py:71-78 | an attachment classified as an image becomes the image block of its bytes |
| `Scenarios.DocumentAttachment` | main.py:61-62 | an attachment classified as a document becomes the converter's text tagged with its name |
| `Scenarios.LeadingDotOnly` | main.py:59-60 | a plain name whose only dot comes first, such as ".png", has no suffix and selects no handler |
| `Scenarios.TrailingDotOnly` | main.py:59-60 | a plain name whose only dot comes last, such as "a.", has no suffix and selects no handler |
| `Scenarios.NoDot` | main.py:59-60 | a plain name without a dot, such as "README", has no suffix and selects no handler |
| `Scenarios.JpgSuffix` | main.py:59-60 | "foo.jpg" has suffix ".jpg" |
| `Scenarios.TxtSuffix` | main.py:59-60 | "notes.txt" has suffix ".txt" |
| `Scenarios.PngSuffix` | main.py:59-60 | "a.png" has suffix ".png" |
| `Scenarios.PdfSuffix` | main.py:59-60 | "b.pdf" has suffix ".pdf" |
| `Scenarios.JpegNameInAnyCase` | main.py:59-70 | "FOO.JPG" and "foo.jpg" are both `image/jpeg` |
| `Scenarios.TextFileRejected` | main.py:79-80 | a ".txt" attachment makes the whole message fail with the unknown-type error |
| `Scenarios.ImageThenDocument` | main.py:83-89 | a PNG then a document give the image block, the tagged text block and the prompt block, in that order |
| `Scenarios.AttachmentOrder` | main.py:83-89 | files "a.png" and "b.pdf" give the image block, the text block tagged "b.pdf" and the prompt, in that order |

## Left out

- Streamlit UI: `page_header`, `render_session` and the rendering loops of `main`
  (`main.py:25-47`, `91-107`, `126-135`, `141`). They only draw widgets and text.
- The file-type filter of `st.chat_input` (`main.py:120`) is a UI-side check. The model
  classifies any name it is given.
- Model selection (`main.py:40-45`) and `settings.py`. They read `settings.models` and
  `model.model`, which the `Settings` and `ModelConfig` classes do not define. The model
  client is instead a parameter (`Chat.Gateway`) of `Session.Submit`.
- `load_dotenv` and environment access (`main.py:23`): I/O.
- Docling's document conversion (`main.py:50-53`) is an external library. It is the
  `Converter` parameter: a function from (name, bytes) to markdown or a failure cause.
  Creating a converter per call and reading the upload stream are not modelled.
- `model.invoke` (`main.py:138`) is the external model client. It is a function parameter;
  latency, retries and exception types are not modelled.
- `Ascii.Lower`: models Python's `str.lower()` by ASCII case mapping only. Non-ASCII
  characters are left unchanged, because every suffix in the table is ASCII.
- `PurePath.Name`: takes the text after the last '/'. It does not model pathlib's
  normalisation of trailing separators or "." components, because uploaded file names are
  plain base names.
- Python exception types are reduced to the `Error` and `TurnError` cases. The converter's
  and the model's exceptions keep only a cause string.
- `Base64.Decode` is the partner used to state the round trip; the source never decodes. It
  is strict: it rejects characters outside the alphabet, bad lengths, misplaced padding and
  non-zero pad bits. Python's default `b64decode` is more lenient.
- The `bytes.decode("utf8")` of the encoded output (`main.py:69`, `77`) is the identity on
  base64 text, which is ASCII. The model builds the string directly.
