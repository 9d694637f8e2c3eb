/** The summarization route (frontend/app/api/summarize/route.ts): how each
    uploaded file becomes an image or document block of a Bedrock Converse
    request, how the request message is assembled, and how the reply text is
    picked out of the response. */
module Summarize {
  import opened Wrap
  import opened Text

  /** The document formats the route can produce. */
  datatype DocumentFormat = Pdf | Txt | Html | Docx | Xlsx | Csv | Xls | Doc

  datatype ImageFormat = Jpeg | Png | Webp | Gif

  /** A byte of a `Uint8Array`. */
  type Byte = b: int | 0 <= b < 256

  /** One file of the request body: its name, declared media type and bytes
      as a JSON array of numbers. */
  datatype FileContent = FileContent(name: string, fileType: string, content: seq<int>)

  /** A content block of a Converse message. */
  datatype ContentBlock =
    | Text(text: string)
    | Image(imageFormat: ImageFormat, bytes: seq<Byte>)
    | Document(documentFormat: DocumentFormat, docName: string, bytes: seq<Byte>)

  datatype Role = User | Assistant

  datatype Message = Message(role: Role, content: seq<ContentBlock>)

  // ---------------------------------------------------------------------------
  // Media types

  /** `fileType.split("/")[1]`: the text between the first and the second
      slash, or nothing when there is no slash. */
  function Subtype(fileType: string): (r: Option<string>)
    ensures r.None? <==> '/' !in fileType
    ensures r.Some? ==> '/' !in r.value
  {
    SplitHasSecond(fileType, '/');
    var parts := Split(fileType, '/');
    if |parts| < 2 then None else Some(parts[1])
  }

  /** The `switch` of `getDocumentFormat` on a lower-cased subtype. */
  function DocumentFormatOf(subtype: string): DocumentFormat
  {
    if subtype == "pdf" then Pdf
    else if subtype == "txt" then Txt
    else if subtype == "html" then Html
    else if subtype == "docx" then Docx
    else if subtype == "xlsx" then Xlsx
    else if subtype == "csv" then Csv
    else if subtype == "xls" then Xls
    else if subtype == "doc" then Doc
    else Txt
  }

  /** The `switch` of `getImageFormat` on a lower-cased subtype. */
  function ImageFormatOf(subtype: string): ImageFormat
  {
    if subtype == "jpeg" then Jpeg
    else if subtype == "png" then Png
    else if subtype == "webp" then Webp
    else if subtype == "gif" then Gif
    else Jpeg
  }

  /** `getDocumentFormat`: calling `toLowerCase` on a missing subtype throws. */
  function GetDocumentFormat(fileType: string): (r: Completion<DocumentFormat>)
    ensures r.Threw? <==> '/' !in fileType
  {
    match Subtype(fileType)
    case None => Threw
    case Some(sub) => Returned(DocumentFormatOf(Lower(sub)))
  }

  /** `getImageFormat` */
  function GetImageFormat(fileType: string): (r: Completion<ImageFormat>)
    ensures r.Threw? <==> '/' !in fileType
  {
    match Subtype(fileType)
    case None => Threw
    case Some(sub) => Returned(ImageFormatOf(Lower(sub)))
  }

  /** The subtype each document format is chosen for. */
  function DocumentSubtypeName(f: DocumentFormat): string
  {
    match f
    case Pdf => "pdf" case Txt => "txt" case Html => "html" case Docx => "docx"
    case Xlsx => "xlsx" case Csv => "csv" case Xls => "xls" case Doc => "doc"
  }

  /** The subtype each image format is chosen for. */
  function ImageSubtypeName(f: ImageFormat): string
  {
    match f
    case Jpeg => "jpeg" case Png => "png" case Webp => "webp" case Gif => "gif"
  }

  /** Each document format is chosen for its own subtype, and a format other
      than TXT only for that subtype: everything unlisted falls back to TXT. */
  lemma DocumentFormatTable(subtype: string, f: DocumentFormat)
    ensures DocumentFormatOf(DocumentSubtypeName(f)) == f
    ensures DocumentFormatOf(subtype) != Txt ==> subtype == DocumentSubtypeName(DocumentFormatOf(subtype))
    ensures DocumentFormatOf(subtype) == Txt <==> subtype !in {"pdf", "html", "docx", "xlsx", "csv", "xls", "doc"}
  {
  }

  /** Each image format is chosen for its own subtype, and a format other
      than JPEG only for that subtype: everything else, "jpg" included, is JPEG. */
  lemma ImageFormatTable(subtype: string, f: ImageFormat)
    ensures ImageFormatOf(ImageSubtypeName(f)) == f
    ensures ImageFormatOf(subtype) != Jpeg ==> subtype == ImageSubtypeName(ImageFormatOf(subtype))
    ensures ImageFormatOf(subtype) == Jpeg <==> subtype !in {"png", "webp", "gif"}
  {
  }

  /** Only the lower-cased subtype matters, so the letter case of the media
      type never changes the format. */
  lemma FormatsIgnoreCase(fileType: string)
    ensures GetDocumentFormat(Lower(fileType)) == GetDocumentFormat(fileType)
    ensures GetImageFormat(Lower(fileType)) == GetImageFormat(fileType)
  {
    SplitLower(fileType, '/');
    SplitHasSecond(fileType, '/');
    SplitHasSecond(Lower(fileType), '/');
    if '/' in fileType {
      LowerIdempotent(Split(fileType, '/')[1]);
    }
  }

  /** The subtype of `main/sub` is `sub`. */
  lemma SubtypeOfType(mainType: string, subtype: string)
    requires '/' !in mainType && '/' !in subtype
    ensures Subtype(mainType + "/" + subtype) == Some(subtype)
  {
    assert Split(mainType + "/" + subtype, '/') == [mainType, subtype] by {
      SplitFirst(mainType, '/', subtype);
    }
  }

  /** Anything after a second slash plays no part in the subtype. */
  lemma SubtypeIgnoresRest(mainType: string, subtype: string, rest: string)
    requires '/' !in mainType && '/' !in subtype
    ensures Subtype(mainType + "/" + subtype + "/" + rest) == Some(subtype)
  {
    var tail := subtype + "/" + rest;
    assert Split(tail, '/')[0] == subtype by { SplitFirst(subtype, '/', rest); }
    assert Split(mainType + "/" + tail, '/')[1] == Split(tail, '/')[0] by {
      SplitFirst(mainType, '/', tail);
    }
    assert mainType + "/" + subtype + "/" + rest == mainType + "/" + tail;
  }

  /** A subtype longer than four characters is in neither table, so it falls
      back to TXT for documents and to JPEG for images, whatever its case: the
      registered DOCX type `application/vnd.openxmlformats-...` is sent as TXT,
      `image/svg+xml` as JPEG. */
  lemma LongSubtypesFallBack(mainType: string, subtype: string)
    requires '/' !in mainType && '/' !in subtype && |subtype| > 4
    ensures GetDocumentFormat(mainType + "/" + subtype) == Returned(Txt)
    ensures GetImageFormat(mainType + "/" + subtype) == Returned(Jpeg)
  {
    SubtypeOfType(mainType, subtype);
    assert |Lower(subtype)| > 4;
  }

  // ---------------------------------------------------------------------------
  // File names

  /** `/\.[^/.]+$/` matches at `i`: a dot followed, up to the end, by at least
      one character that is neither a slash nor a dot. */
  predicate ExtensionAt(s: string, i: int)
  {
    0 <= i < |s| - 1 && s[i] == '.' && forall k :: i < k < |s| ==> s[k] != '/' && s[k] != '.'
  }

  /** The leftmost position at or after `i` where the pattern matches. */
  function FirstMatchFrom(s: string, i: nat): (r: Option<nat>)
    ensures r.Some? ==> i <= r.value && ExtensionAt(s, r.value)
    ensures r.None? ==> forall k :: i <= k < |s| ==> !ExtensionAt(s, k)
    decreases |s| - i
  {
    if i >= |s| then None
    else if ExtensionAt(s, i) then Some(i)
    else FirstMatchFrom(s, i + 1)
  }

  /** `removeFileExtension`: `filename.replace(/\.[^/.]+$/, "")`. */
  function RemoveFileExtension(filename: string): (r: string)
    ensures |r| <= |filename| && r == filename[..|r|]
  {
    match FirstMatchFrom(filename, 0)
    case None => filename
    case Some(i) => filename[..i]
  }

  /** Position of the last `c` in `s`, if any. */
  function LastIndexOf(s: string, c: char): (r: Option<nat>)
    ensures r.None? <==> c !in s
    ensures r.Some? ==> r.value < |s| && s[r.value] == c
    ensures r.Some? ==> forall k :: r.value < k < |s| ==> s[k] != c
  {
    if s == [] then None
    else if s[|s| - 1] == c then Some(|s| - 1)
    else LastIndexOf(s[..|s| - 1], c)
  }

  /** Any match of the pattern sits on the last dot of the name. */
  lemma MatchIsLastDot(s: string, i: nat)
    requires ExtensionAt(s, i)
    ensures LastIndexOf(s, '.') == Some(i)
  {
    assert s[i] == '.';
  }

  /** The last dot is a match when something follows it and no slash does. */
  lemma LastDotMatches(s: string)
    ensures var last := LastIndexOf(s, '.');
      last.Some? && last.value < |s| - 1 && '/' !in s[last.value + 1..] ==> ExtensionAt(s, last.value)
  {
    var last := LastIndexOf(s, '.');
    if last.Some? && last.value < |s| - 1 && '/' !in s[last.value + 1..] {
      var d := last.value;
      forall k | d < k < |s| ensures s[k] != '/' {
        assert s[k] == s[d + 1..][k - d - 1];
      }
    }
  }

  /** The regular expression drops the last dot and what follows it exactly
      when at least one character follows and none of them is a slash;
      otherwise the name is returned unchanged. */
  lemma RemoveFileExtensionAtLastDot(filename: string)
    ensures RemoveFileExtension(filename) ==
      match LastIndexOf(filename, '.')
      case Some(d) => if d < |filename| - 1 && '/' !in filename[d + 1..] then filename[..d] else filename
      case None => filename
  {
    match FirstMatchFrom(filename, 0)
    case Some(i) =>
      MatchIsLastDot(filename, i);
      var tail := filename[i + 1..];
      forall k | 0 <= k < |tail| ensures tail[k] != '/' {
        assert tail[k] == filename[i + 1 + k];
      }
    case None =>
      LastDotMatches(filename);
  }

  /** `file.name.split(".").pop()?.toLowerCase()`: the lower-cased text after
      the last dot, or the whole lower-cased name when it has no dot. */
  function Extension(name: string): string
  {
    var parts := Split(name, '.');
    Lower(parts[|parts| - 1])
  }

  const ImageExtensions: seq<string> := ["gif", "jpeg", "png", "webp", "jpg"]

  /** The test `extension && imageExtensions.includes(extension)`. */
  predicate IsImageName(name: string)
  {
    Extension(name) != "" && Extension(name) in ImageExtensions
  }

  /** `new Uint8Array(numbers)` for integral numbers: each is taken modulo 256. */
  function ToBytes(content: seq<int>): (bytes: seq<Byte>)
    ensures |bytes| == |content|
    ensures forall i :: 0 <= i < |content| ==> bytes[i] == content[i] % 256
  {
    seq(|content|, i requires 0 <= i < |content| => content[i] % 256)
  }

  /** Numbers that already are bytes are copied unchanged. */
  lemma ToBytesKeepsBytes(content: seq<int>)
    requires forall i :: 0 <= i < |content| ==> 0 <= content[i] < 256
    ensures ToBytes(content) == content
  {
  }

  /** `getFileContent` */
  function GetFileContent(file: FileContent): (r: Completion<ContentBlock>)
    ensures r.Threw? <==> '/' !in file.fileType
  {
    if IsImageName(file.name) then
      match GetImageFormat(file.fileType)
      case Threw => Threw
      case Returned(f) => Returned(Image(f, ToBytes(file.content)))
    else
      match GetDocumentFormat(file.fileType)
      case Threw => Threw
      case Returned(f) => Returned(Document(f, RemoveFileExtension(file.name), ToBytes(file.content)))
  }

  /** A file whose name ends in an image extension becomes an image block whose
      format comes from the media type, never from the name; any other file
      becomes a document block named without its extension. */
  lemma FileContentShape(file: FileContent)
    ensures var r := GetFileContent(file);
      r.Returned? ==> (
        var sub := Lower(Subtype(file.fileType).value);
        if IsImageName(file.name) then r.value == Image(ImageFormatOf(sub), ToBytes(file.content))
        else r.value == Document(DocumentFormatOf(sub), RemoveFileExtension(file.name), ToBytes(file.content)))
  {
  }

  /** A position holding `c` with no `c` after it is the last one. */
  lemma LastIndexOfAt(s: string, c: char, x: nat)
    requires x < |s| && s[x] == c
    requires forall k :: x < k < |s| ==> s[k] != c
    ensures LastIndexOf(s, c) == Some(x)
  {
    assert c in s;
  }

  /** The last `c` of `s` is the last `c` after position `i`, or `i` itself
      when `c` holds there and nowhere later. */
  lemma LastIndexOfAfter(s: string, c: char, i: nat)
    requires i < |s| && s[i] == c
    ensures LastIndexOf(s, c) ==
      match LastIndexOf(s[i + 1..], c)
      case Some(d) => Some(i + 1 + d)
      case None => Some(i)
  {
    var t := s[i + 1..];
    match LastIndexOf(t, c)
    case Some(d) =>
      assert s[i + 1 + d] == t[d];
      forall k | i + 1 + d < k < |s| ensures s[k] != c {
        assert s[k] == t[k - i - 1];
      }
      LastIndexOfAt(s, c, i + 1 + d);
    case None =>
      forall k | i < k < |s| ensures s[k] != c {
        assert s[k] == t[k - i - 1];
      }
      LastIndexOfAt(s, c, i);
  }

  /** The text after the last `c`, or all of `s` when it holds no `c`. */
  function AfterLast(s: string, c: char): string
  {
    match LastIndexOf(s, c)
    case Some(d) => s[d + 1..]
    case None => s
  }

  /** The text after the last `c` is unchanged by dropping everything up to
      and including any one `c`. */
  lemma AfterLastStep(s: string, c: char, i: nat)
    requires i < |s| && s[i] == c
    ensures AfterLast(s, c) == AfterLast(s[i + 1..], c)
  {
    var t := s[i + 1..];
    LastIndexOfAfter(s, c, i);
    if LastIndexOf(t, c).Some? {
      var d := LastIndexOf(t, c).value;
      assert t[d + 1..] == s[i + 1 + d + 1..];
    }
  }

  /** The last piece of a split, i.e. `split(sep).pop()`. */
  function LastPiece(parts: seq<string>): string
    requires |parts| >= 1
  {
    parts[|parts| - 1]
  }

  /** Splitting at the first separator keeps the last piece of the rest. */
  lemma SplitLastStep(s: string, sep: char)
    requires sep in s
    ensures LastPiece(Split(s, sep)) == LastPiece(Split(s[IndexOf(s, sep) + 1..], sep))
  {
    var i := IndexOf(s, sep);
    assert Split(s, sep) == [s[..i]] + Split(s[i + 1..], sep);
  }

  /** `split(sep).pop()` is the text after the last separator. */
  lemma {:induction false} SplitLastPiece(s: string, sep: char)
    ensures LastPiece(Split(s, sep)) == AfterLast(s, sep)
    decreases |s|
  {
    if sep !in s {
      assert LastPiece(Split(s, sep)) == s by { assert Split(s, sep) == [s]; }
      assert AfterLast(s, sep) == s by { assert LastIndexOf(s, sep).None?; }
    } else {
      var i := IndexOf(s, sep);
      var t := s[i + 1..];
      assert LastPiece(Split(s, sep)) == LastPiece(Split(t, sep)) by { SplitLastStep(s, sep); }
      assert AfterLast(s, sep) == AfterLast(t, sep) by { AfterLastStep(s, sep, i); }
      SplitLastPiece(t, sep);
    }
  }

  /** A name counts as an image exactly when the lower-cased text after its
      last dot, or the whole lower-cased name when it has no dot, is one of
      the five image extensions. */
  lemma ImageNames(name: string)
    ensures IsImageName(name) <==> Lower(AfterLast(name, '.')) in {"gif", "jpeg", "png", "webp", "jpg"}
  {
    SplitLastPiece(name, '.');
    assert Extension(name) == Lower(AfterLast(name, '.'));
  }

  // ---------------------------------------------------------------------------
  // The request and the reply

  /** `files.map(getFileContent)`: throws as soon as one file throws. */
  function FileBlocks(files: seq<FileContent>): (r: Completion<seq<ContentBlock>>)
    ensures r.Returned? ==> |r.value| == |files|
  {
    if files == [] then Returned([])
    else
      match (GetFileContent(files[0]), FileBlocks(files[1..]))
      case (Returned(b), Returned(bs)) => Returned([b] + bs)
      case _ => Threw
  }

  /** The `messages` array: one user message, prompt first, then the files. */
  function BuildMessages(prompt: string, files: seq<FileContent>): Completion<seq<Message>>
  {
    match FileBlocks(files)
    case Threw => Threw
    case Returned(blocks) => Returned([Message(User, [Text(prompt)] + blocks)])
  }

  /** Assembly succeeds exactly when every media type has a slash; the single
      user message then holds the prompt and one block per file, in order. */
  lemma {:induction false} MessageShape(prompt: string, files: seq<FileContent>)
    ensures BuildMessages(prompt, files).Returned? <==> forall i :: 0 <= i < |files| ==> '/' in files[i].fileType
    ensures BuildMessages(prompt, files).Returned? ==>
      var ms := BuildMessages(prompt, files).value;
      && |ms| == 1 && ms[0].role == User
      && |ms[0].content| == |files| + 1
      && ms[0].content[0] == Text(prompt)
      && forall i :: 0 <= i < |files| ==> ms[0].content[i + 1] == GetFileContent(files[i]).value
  {
    FileBlocksShape(files);
    if BuildMessages(prompt, files).Returned? {
      var blocks := FileBlocks(files).value;
      var content := [Text(prompt)] + blocks;
      forall i | 0 <= i < |files| ensures content[i + 1] == GetFileContent(files[i]).value {
        assert content[i + 1] == blocks[i];
      }
    }
  }

  lemma {:induction false} FileBlocksShape(files: seq<FileContent>)
    ensures FileBlocks(files).Returned? <==> forall i :: 0 <= i < |files| ==> '/' in files[i].fileType
    ensures FileBlocks(files).Returned? ==>
      forall i :: 0 <= i < |files| ==> FileBlocks(files).value[i] == GetFileContent(files[i]).value
  {
    if files != [] {
      FileBlocksShape(files[1..]);
      if forall i :: 0 <= i < |files| ==> '/' in files[i].fileType {
        assert forall i :: 0 <= i < |files| - 1 ==> '/' in files[1..][i].fileType by {
          forall i | 0 <= i < |files| - 1 ensures '/' in files[1..][i].fileType {
            assert files[1..][i] == files[i + 1];
          }
        }
      }
      if FileBlocks(files).Returned? {
        var bs := FileBlocks(files[1..]).value;
        assert FileBlocks(files).value == [GetFileContent(files[0]).value] + bs;
        forall i | 0 <= i < |files| ensures '/' in files[i].fileType && FileBlocks(files).value[i] == GetFileContent(files[i]).value {
          if i > 0 { assert files[1..][i - 1] == files[i]; }
        }
      }
    }
  }

  /** The inference settings of the Converse call. */
  datatype ConverseRequest = ConverseRequest(modelId: string, messages: seq<Message>, maxTokens: nat, temperature: real, topP: real)

  const ModelId := "anthropic.claude-3-haiku-20240307-v1:0"

  function BuildRequest(messages: seq<Message>): ConverseRequest
  {
    ConverseRequest(ModelId, messages, 4096, 0.3, 0.9)
  }

  /** A block of the reply; only blocks with a text part carry one. */
  datatype ReplyBlock = ReplyBlock(text: Option<string>)

  /** `response.output?.message?.content`, absent when any link is missing. */
  datatype ConverseResponse = ConverseResponse(content: Option<seq<ReplyBlock>>)

  const NoResponse := "No response generated."

  /** The reply text: the first block's text if it has one, else the fixed text. */
  function ReplyText(response: ConverseResponse): (r: string)
    ensures (response.content.Some? && |response.content.value| > 0 && response.content.value[0].text.Some?)
      ==> r == response.content.value[0].text.value
    ensures !(response.content.Some? && |response.content.value| > 0 && response.content.value[0].text.Some?)
      ==> r == NoResponse
  {
    match response.content
    case Some(blocks) =>
      if |blocks| > 0 && blocks[0].text.Some? then blocks[0].text.value else NoResponse
    case None => NoResponse
  }

  datatype Body = Summary(summary: string) | Error(error: string)

  datatype Response = Response(status: nat, body: Body)

  /** `POST`: the Bedrock call is a parameter, `send`, standing for what
      `bedrock.send` returns for a request (or that it throws). Building the
      messages happens before the `try`, so a file without a slash in its type
      makes the handler itself throw and nothing is sent. */
  function Post(prompt: string, files: seq<FileContent>, send: ConverseRequest -> Completion<ConverseResponse>): Completion<Response>
  {
    match BuildMessages(prompt, files)
    case Threw => Threw
    case Returned(messages) =>
      match send(BuildRequest(messages))
      case Returned(response) => Returned(Response(200, Summary(ReplyText(response))))
      case Threw => Returned(Response(500, Error("Failed to generate summary")))
  }

  /** The handler answers exactly when the messages could be built; it then
      sends one request, for the Claude 3 Haiku model with at most 4096 tokens,
      temperature 0.3 and top-p 0.9, carrying the single user message, and
      answers 200 with the reply's summary when the call returns, or 500 with a
      fixed error when it throws. */
  lemma PostOutcome(prompt: string, files: seq<FileContent>, send: ConverseRequest -> Completion<ConverseResponse>)
    ensures var r := Post(prompt, files, send);
      && (r.Returned? <==> forall i :: 0 <= i < |files| ==> '/' in files[i].fileType)
      && (r.Returned? ==>
        var request := BuildRequest(BuildMessages(prompt, files).value);
        && request.modelId == ModelId && request.maxTokens == 4096
        && request.temperature == 0.3 && request.topP == 0.9
        && |request.messages| == 1 && request.messages[0].role == User
        && request.messages[0].content[0] == Text(prompt)
        && (r.value.status == 200 <==> send(request).Returned?)
        && (send(request).Returned? ==> r.value.body == Summary(ReplyText(send(request).value)))
        && (send(request).Threw? ==> r.value == Response(500, Error("Failed to generate summary"))))
  {
    MessageShape(prompt, files);
  }
}
