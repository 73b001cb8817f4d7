/**
 The rich-text step of a work item export: `GenerateHtmlForWordEmbedding`
 loads the HTML, replaces every `img` element's `src` by an inline
 `data:image/...;base64,...` URI when the image can be fetched
 (`DownloadAndEmbedImage`, `GetUrlMatches`), optionally strips `style`
 attributes, and serialises the result; any exception becomes an error text.
 */
module ImageEmbedding {
  import opened Wrappers
  import opened Text
  import opened Platform
  import opened HtmlTree

  /** A file attached to the work item. */
  datatype Attachment = Attachment(id: int, extension: string)

  /** Everything the image step needs besides the HTML itself. */
  datatype Context = Context(
    runtime: Runtime,
    store: Store,
    html: HtmlLibrary,
    attachments: seq<Attachment>)

  // ---------------------------------------------------------------------------
  // The attachment reference `FileID=(?<id>\d*)`

  const FileIdLiteral: string := "FileID="

  /** The literal "FileID=" starts at index `i`, compared ignoring case. */
  predicate FileIdAt(src: string, i: int, fold: char -> char) {
    0 <= i && i + |FileIdLiteral| <= |src|
    && FoldCase(fold, src[i..i + |FileIdLiteral|]) == FoldCase(fold, FileIdLiteral)
  }

  /** The longest prefix of `s` made of `\d` characters. */
  function DigitRun(s: string, isDigit: char -> bool): (r: string)
    ensures |r| <= |s| && r == s[..|r|]
    ensures forall i :: 0 <= i < |r| ==> isDigit(r[i])
    ensures |r| == |s| || !isDigit(s[|r|])
  {
    if s != [] && isDigit(s[0]) then [s[0]] + DigitRun(s[1..], isDigit) else []
  }

  /** The leftmost match of the literal at or after `from`, or `|src|` when
      there is none. */
  function FileIdFrom(src: string, fold: char -> char, from: nat): (r: nat)
    requires from <= |src|
    ensures from <= r <= |src|
    ensures forall j :: from <= j < r ==> !FileIdAt(src, j, fold)
    ensures r < |src| ==> FileIdAt(src, r, fold)
    decreases |src| - from
  {
    if |src| < from + |FileIdLiteral| then |src|
    else if FileIdAt(src, from, fold) then from
    else FileIdFrom(src, fold, from + 1)
  }

  /** `i` is where the leftmost match of the literal starts. */
  predicate FirstFileIdAt(src: string, i: int, fold: char -> char) {
    FileIdAt(src, i, fold) && forall j :: 0 <= j < i ==> !FileIdAt(src, j, fold)
  }

  /** `Regex.Match(src, @"FileID=(?<id>\d*)", RegexOptions.IgnoreCase)`: the
      `id` group of the leftmost match, which may be empty. */
  function FileIdMatch(src: string, fold: char -> char, isDigit: char -> bool): (r: Option<string>)
    ensures r.Some? <==> exists i | 0 <= i <= |src| :: FileIdAt(src, i, fold)
    ensures r.Some? ==> exists i | 0 <= i < |src| ::
      FirstFileIdAt(src, i, fold) && r.value == DigitRun(src[i + |FileIdLiteral|..], isDigit)
  {
    var i := FileIdFrom(src, fold, 0);
    if i < |src| then
      assert FirstFileIdAt(src, i, fold);
      Some(DigitRun(src[i + |FileIdLiteral|..], isDigit))
    else
      None
  }

  /** `GetUrlMatches`: the first URL pattern, the second only if the first fails. */
  function GetUrlMatches(src: string, runtime: Runtime): (r: Option<UrlMatch>)
    ensures r.Some? <==> runtime.urlPattern1(src).Some? || runtime.urlPattern2(src).Some?
    ensures runtime.urlPattern1(src).Some? ==> r == runtime.urlPattern1(src)
    ensures runtime.urlPattern1(src).None? ==> r == runtime.urlPattern2(src)
  {
    match runtime.urlPattern1(src)
    case Some(m) => Some(m)
    case None => runtime.urlPattern2(src)
  }

  // ---------------------------------------------------------------------------
  // `Path.GetExtension` of the .NET Framework

  /** Characters for which `Path.GetExtension` throws an ArgumentException. */
  predicate InvalidPathChar(c: char) {
    c == '"' || c == '<' || c == '>' || c == '|' || c < ' '
  }

  /** Directory, alternate directory and volume separators on Windows. */
  predicate PathSeparator(c: char) {
    c == '\\' || c == '/' || c == ':'
  }

  /** The '.' at `d` starts an extension: it is not the last character, and
      neither a dot nor a separator follows it. */
  predicate ExtensionDot(path: string, d: int) {
    && 0 <= d < |path| - 1
    && path[d] == '.'
    && forall k :: d < k < |path| ==> path[k] != '.' && !PathSeparator(path[k])
  }

  /** The backwards scan of `Path.GetExtension`, from index `i` down; the
      characters after `i` are neither dots nor separators. */
  function ExtensionScan(path: string, i: int): (r: string)
    requires -1 <= i < |path|
    requires forall k :: i < k < |path| ==> path[k] != '.' && !PathSeparator(path[k])
    ensures |r| <= |path|
    ensures r != [] <==> exists d | 0 <= d <= i :: ExtensionDot(path, d)
    ensures r != [] ==> ExtensionDot(path, |path| - |r|)
    ensures r != [] ==> |r| >= 2 && r[0] == '.' && r == path[|path| - |r|..]
    ensures r != [] ==> forall k :: 1 <= k < |r| ==> r[k] != '.' && !PathSeparator(r[k])
    decreases i + 1
  {
    if i < 0 then []
    else if path[i] == '.' then
      if i != |path| - 1 then assert ExtensionDot(path, i); path[i..]
      else NoExtensionDotBefore(path, i); []
    else if PathSeparator(path[i]) then NoExtensionDotBefore(path, i); []
    else ExtensionScan(path, i - 1)
  }

  /** A dot or separator at `i` rules out every extension dot up to `i`
      but a dot at `i` itself that is not the last character. */
  lemma NoExtensionDotBefore(path: string, i: int)
    requires 0 <= i < |path|
    requires path[i] == '.' ==> i == |path| - 1
    requires path[i] == '.' || PathSeparator(path[i])
    ensures forall d | 0 <= d <= i :: !ExtensionDot(path, d)
  {
    forall d | 0 <= d <= i
      ensures !ExtensionDot(path, d)
    {
      if d < i {
        assert !(path[i] != '.' && !PathSeparator(path[i]));
      }
    }
  }

  /** `Path.GetExtension(path)`: the text from the last '.' of the file name,
      the dot included; empty when there is none or the dot ends the path;
      `None` when the runtime rejects the path. */
  function GetExtension(path: string): (r: Option<string>)
    ensures r.None? <==> exists k | 0 <= k < |path| :: InvalidPathChar(path[k])
    ensures r.Some? ==> |r.value| <= |path|
    ensures r.Some? && r.value != [] ==>
      && |r.value| >= 2 && r.value[0] == '.' && r.value == path[|path| - |r.value|..]
      && forall k :: 1 <= k < |r.value| ==> r.value[k] != '.' && !PathSeparator(r.value[k])
    ensures r.Some? ==> (r.value != [] <==> exists d | 0 <= d < |path| :: ExtensionDot(path, d))
    ensures r.Some? && r.value != [] ==> ExtensionDot(path, |path| - |r.value|)
  {
    if exists k | 0 <= k < |path| :: InvalidPathChar(path[k]) then None
    else Some(ExtensionScan(path, |path| - 1))
  }

  // ---------------------------------------------------------------------------
  // The `src` decision of `DownloadAndEmbedImage`

  /** The position of the first attachment from `from` on whose id text is
      `id`, or the number of attachments when there is none. */
  function FirstWithId(attachments: seq<Attachment>, id: string, from: nat): (r: nat)
    requires from <= |attachments|
    ensures from <= r <= |attachments|
    ensures forall j :: from <= j < r ==> IntToDecimal(attachments[j].id) != id
    ensures r < |attachments| ==> IntToDecimal(attachments[r].id) == id
    decreases |attachments| - from
  {
    if from == |attachments| then from
    else if IntToDecimal(attachments[from].id) == id then from
    else FirstWithId(attachments, id, from + 1)
  }

  /** `Attachments.FirstOrDefault(a => a.Id.ToString() == id)`. */
  function FindAttachment(attachments: seq<Attachment>, id: string): (r: Option<Attachment>)
    ensures r.None? <==> forall i :: 0 <= i < |attachments| ==> IntToDecimal(attachments[i].id) != id
    ensures r.Some? ==> IntToDecimal(r.value.id) == id
    ensures r.Some? ==> r.value == attachments[FirstWithId(attachments, id, 0)]
  {
    var i := FirstWithId(attachments, id, 0);
    if i < |attachments| then Some(attachments[i]) else None
  }

  /** A fetched image: the extension it is labelled with and its bytes. */
  datatype Fetched = Fetched(extension: string, content: seq<byte>)

  /** An extension with no '.' left at either end. */
  predicate Undotted(extension: string) {
    extension == [] || (extension[0] != '.' && extension[|extension| - 1] != '.')
  }

  /** The attachment branch: the attachment whose id is the matched digits. */
  function FromAttachment(id: string, ctx: Context): (r: Option<Fetched>)
    ensures r.Some? <==>
      FindAttachment(ctx.attachments, id).Some? && ctx.store.downloadFile(FindAttachment(ctx.attachments, id).value.id).Some?
    ensures r.Some? ==>
      var a := FindAttachment(ctx.attachments, id).value;
      r.value == Fetched(TrimChar(a.extension, '.'), ctx.store.downloadFile(a.id).value)
    ensures r.Some? ==> Undotted(r.value.extension)
  {
    match FindAttachment(ctx.attachments, id)
    case None => None
    case Some(attachment) =>
      match ctx.store.downloadFile(attachment.id)
      case None => None
      case Some(content) => Some(Fetched(TrimChar(attachment.extension, '.'), content))
  }

  /** The download of the URL branch: with the session's credentials when it
      has any, otherwise through the store's attachment API. */
  function UrlContent(src: string, m: UrlMatch, store: Store): Option<seq<byte>> {
    if store.hasCredentials then store.downloadUrl(src)
    else store.attachmentContent(m.fileId, m.fileName)
  }

  /** The URL branch: the extension of the matched file name, then the
      download; an exception from either leaves the image alone. */
  function FromUrl(src: string, m: UrlMatch, ctx: Context): (r: Option<Fetched>)
    ensures r.Some? <==> GetExtension(m.fileName).Some? && UrlContent(src, m, ctx.store).Some?
    ensures r.Some? ==>
      r.value == Fetched(TrimChar(GetExtension(m.fileName).value, '.'), UrlContent(src, m, ctx.store).value)
    ensures r.Some? ==> Undotted(r.value.extension)
  {
    match GetExtension(m.fileName)
    case None => None
    case Some(dotted) =>
      match UrlContent(src, m, ctx.store)
      case None => None
      case Some(bytes) => Some(Fetched(TrimChar(dotted, '.'), bytes))
  }

  /** What `DownloadAndEmbedImage` fetches for an image's `src`; `None` when
      it leaves the image as it is (nothing to do, no pattern matched, or the
      fetch threw and was caught). */
  function Resolve(src: string, ctx: Context): (r: Option<Fetched>)
    ensures src == [] || Contains(src, "base64") ==> r.None?
    ensures src != [] && !Contains(src, "base64") ==>
      match FileIdMatch(src, ctx.runtime.regexLower, ctx.runtime.isDigit)
      case Some(id) => r == FromAttachment(id, ctx)
      case None => r == if GetUrlMatches(src, ctx.runtime).Some? then FromUrl(src, GetUrlMatches(src, ctx.runtime).value, ctx) else None
    ensures r.Some? ==> Undotted(r.value.extension)
  {
    if src == [] || Contains(src, "base64") then None
    else
      match FileIdMatch(src, ctx.runtime.regexLower, ctx.runtime.isDigit)
      case Some(id) => FromAttachment(id, ctx)
      case None =>
        match GetUrlMatches(src, ctx.runtime)
        case Some(m) => FromUrl(src, m, ctx)
        case None => None
  }

  /** The `src` of an embedded image: "data:image/", the extension,
      ";base64," and the encoded content, in that order. */
  function DataUri(extension: string, encoded: string): (r: string)
    ensures |r| == 19 + |extension| + |encoded|
    ensures r[..11] == "data:image/" && r[11..11 + |extension|] == extension
    ensures r[11 + |extension|..19 + |extension|] == ";base64," && r[19 + |extension|..] == encoded
  {
    "data:image/" + extension + ";base64," + encoded
  }

  lemma DataUriIsEmbedded(extension: string, encoded: string)
    ensures Contains(DataUri(extension, encoded), "base64")
  {
    assert DataUri(extension, encoded) == ("data:image/" + extension + ";") + "base64" + ("," + encoded);
    ContainsMiddle("data:image/" + extension + ";", "base64", "," + encoded);
  }

  /** The `src` an image has once `DownloadAndEmbedImage` is done with it. */
  function EmbeddedSrc(src: string, ctx: Context): (r: string)
    ensures src == [] || Contains(src, "base64") ==> r == src
    ensures Resolve(src, ctx).None? ==> r == src
    ensures Resolve(src, ctx).Some? ==>
      r == DataUri(Resolve(src, ctx).value.extension, ctx.runtime.base64(Resolve(src, ctx).value.content))
    ensures r != src ==> Resolve(src, ctx).Some? && Contains(r, "base64")
  {
    match Resolve(src, ctx)
    case None => src
    case Some(f) =>
      var r := DataUri(f.extension, ctx.runtime.base64(f.content));
      DataUriIsEmbedded(f.extension, ctx.runtime.base64(f.content));
      r
  }

  /** Embedding is idempotent: a rewritten `src` contains "base64" and is
      left alone the next time. */
  lemma EmbeddedSrcIdempotent(src: string, ctx: Context)
    ensures EmbeddedSrc(EmbeddedSrc(src, ctx), ctx) == EmbeddedSrc(src, ctx)
  {
    var r := EmbeddedSrc(src, ctx);
    if r != src {
      assert Resolve(r, ctx).None?;
    }
  }

  /** The leftmost "FileID=" decides the id: the digits right after it. */
  lemma FirstFileIdDecides(src: string, i: int, fold: char -> char, isDigit: char -> bool)
    requires FirstFileIdAt(src, i, fold)
    ensures FileIdMatch(src, fold, isDigit) == Some(DigitRun(src[i + |FileIdLiteral|..], isDigit))
  {
    var j :| 0 <= j < |src| && FirstFileIdAt(src, j, fold)
      && FileIdMatch(src, fold, isDigit).value == DigitRun(src[j + |FileIdLiteral|..], isDigit);
    FirstFileIdUnique(src, i, j, fold);
  }

  lemma FirstFileIdUnique(src: string, i: int, j: int, fold: char -> char)
    requires FirstFileIdAt(src, i, fold) && FirstFileIdAt(src, j, fold)
    ensures i == j
  {
  }

  /** An image referring to an attachment by its id: once the attachment is
      downloaded, the `src` becomes a data URI labelled with the attachment's
      extension, dots trimmed, holding the downloaded bytes in base64. */
  lemma AttachmentImageEmbedded(src: string, ctx: Context, i: int, a: Attachment, bytes: seq<byte>)
    requires !Contains(src, "base64")
    requires FirstFileIdAt(src, i, ctx.runtime.regexLower)
    requires FindAttachment(ctx.attachments, DigitRun(src[i + |FileIdLiteral|..], ctx.runtime.isDigit)) == Some(a)
    requires ctx.store.downloadFile(a.id) == Some(bytes)
    ensures EmbeddedSrc(src, ctx) == DataUri(TrimChar(a.extension, '.'), ctx.runtime.base64(bytes))
  {
    FirstFileIdDecides(src, i, ctx.runtime.regexLower, ctx.runtime.isDigit);
  }

  /** The label of a file name's extension is the extension without its dot. */
  lemma ExtensionLabel(path: string, ext: string)
    requires GetExtension(path) == Some(ext)
    ensures TrimChar(ext, '.') == if ext == [] then [] else ext[1..]
  {
    if ext != [] {
      assert TrimStartChar(ext[1..], '.') == ext[1..];
      assert TrimStartChar(ext, '.') == ext[1..];
      assert TrimEndChar(ext[1..], '.') == ext[1..];
    }
  }

  /** The URL branch fetches the downloaded bytes, labelled with the
      extension of the matched file name. */
  lemma UrlBranchResolves(src: string, ctx: Context, m: UrlMatch, ext: string, bytes: seq<byte>)
    requires src != [] && !Contains(src, "base64")
    requires FileIdMatch(src, ctx.runtime.regexLower, ctx.runtime.isDigit).None?
    requires GetUrlMatches(src, ctx.runtime) == Some(m)
    requires GetExtension(m.fileName) == Some(ext)
    requires UrlContent(src, m, ctx.store) == Some(bytes)
    ensures Resolve(src, ctx) == Some(Fetched(TrimChar(ext, '.'), bytes))
  {
    assert FromUrl(src, m, ctx) == Some(Fetched(TrimChar(ext, '.'), bytes));
  }

  /** An image matched by a URL pattern and not by "FileID=": once the file
      is downloaded (with the session's credentials when it has any, through
      the attachment API otherwise), the `src` becomes a data URI labelled
      with the file name's extension without its dot. */
  lemma UrlImageEmbedded(src: string, ctx: Context, m: UrlMatch, ext: string, bytes: seq<byte>)
    requires src != [] && !Contains(src, "base64")
    requires FileIdMatch(src, ctx.runtime.regexLower, ctx.runtime.isDigit).None?
    requires GetUrlMatches(src, ctx.runtime) == Some(m)
    requires GetExtension(m.fileName) == Some(ext)
    requires (if ctx.store.hasCredentials then ctx.store.downloadUrl(src)
              else ctx.store.attachmentContent(m.fileId, m.fileName)) == Some(bytes)
    ensures EmbeddedSrc(src, ctx) == DataUri(if ext == [] then [] else ext[1..], ctx.runtime.base64(bytes))
  {
    UrlBranchResolves(src, ctx, m, ext, bytes);
    ExtensionLabel(m.fileName, ext);
  }

  /** A `src` with a "FileID=" reference takes the attachment branch whatever
      follows it: the URL patterns are never consulted. */
  lemma AttachmentBranchIgnoresUrlPatterns(src: string, ctx: Context, p1: string -> Option<UrlMatch>, p2: string -> Option<UrlMatch>)
    requires FileIdMatch(src, ctx.runtime.regexLower, ctx.runtime.isDigit).Some?
    ensures EmbeddedSrc(src, ctx) == EmbeddedSrc(src, ctx.(runtime := ctx.runtime.(urlPattern1 := p1, urlPattern2 := p2)))
  {
  }

  /** The first URL pattern is tried before the second: when it matches, the
      second is never consulted; when it does not, the second decides. */
  lemma UrlPatternOrder(src: string, ctx: Context, p: string -> Option<UrlMatch>)
    requires FileIdMatch(src, ctx.runtime.regexLower, ctx.runtime.isDigit).None?
    ensures ctx.runtime.urlPattern1(src).Some? ==>
      EmbeddedSrc(src, ctx) == EmbeddedSrc(src, ctx.(runtime := ctx.runtime.(urlPattern2 := p)))
    ensures ctx.runtime.urlPattern1(src).None? && ctx.runtime.urlPattern2(src).None? ==>
      EmbeddedSrc(src, ctx) == src
  {
  }

  /** A store whose every download throws. */
  ghost predicate Unreachable(store: Store) {
    && (forall id :: store.downloadFile(id).None?)
    && (forall url :: store.downloadUrl(url).None?)
    && (forall fileId, fileName :: store.attachmentContent(fileId, fileName).None?)
  }

  /** A failed fetch leaves the `src` as it was. */
  lemma FailedFetchKeepsSrc(src: string, ctx: Context)
    requires Unreachable(ctx.store)
    ensures EmbeddedSrc(src, ctx) == src
  {
    if src != [] && !Contains(src, "base64") {
      match FileIdMatch(src, ctx.runtime.regexLower, ctx.runtime.isDigit)
      case Some(id) => {
        match FindAttachment(ctx.attachments, id)
        case None =>
        case Some(a) => assert ctx.store.downloadFile(a.id).None?;
      }
      case None => {
        match GetUrlMatches(src, ctx.runtime)
        case None =>
        case Some(m) =>
          assert ctx.store.downloadUrl(src).None?;
          assert ctx.store.attachmentContent(m.fileId, m.fileName).None?;
          assert FromUrl(src, m, ctx).None?;
      }
    }
    assert Resolve(src, ctx).None?;
  }

  /** No attachment id prints as the empty string or with a leading zero. */
  lemma NoAttachmentNamed(attachments: seq<Attachment>, id: string)
    requires id == [] || (|id| > 1 && id[0] == '0')
    ensures FindAttachment(attachments, id).None?
  {
    forall i | 0 <= i < |attachments|
      ensures IntToDecimal(attachments[i].id) != id
    {
      var n := attachments[i].id;
      if n >= 0 {
        NatToDecimalNoLeadingZero(n);
        if n == 0 {
          assert NatToDecimal(0) == "0";
        }
      }
    }
  }

  /** `\d*` also matches no digits at all: "FileID=" followed by anything but
      a digit, or by a zero-padded number, takes the attachment branch, finds
      no attachment, and leaves the `src` as it was without trying the URL
      patterns. */
  lemma UnnumberedFileIdKeepsSrc(src: string, ctx: Context)
    requires FileIdMatch(src, ctx.runtime.regexLower, ctx.runtime.isDigit).Some?
    requires var id := FileIdMatch(src, ctx.runtime.regexLower, ctx.runtime.isDigit).value;
      id == [] || (|id| > 1 && id[0] == '0')
    ensures EmbeddedSrc(src, ctx) == src
  {
    if src != [] && !Contains(src, "base64") {
      NoAttachmentNamed(ctx.attachments, FileIdMatch(src, ctx.runtime.regexLower, ctx.runtime.isDigit).value);
    }
  }

  // ---------------------------------------------------------------------------
  // The document

  /** `image.GetAttributeValue("src", "")`. */
  function SrcOf(attributes: map<string, string>): string {
    if "src" in attributes then attributes["src"] else ""
  }

  /** One image after `DownloadAndEmbedImage`: `src` is set only when the
      image was fetched, which is exactly when its embedded `src` differs
      from the old one. */
  function EmbedImage(attributes: map<string, string>, ctx: Context): (r: map<string, string>)
    ensures SrcOf(r) == EmbeddedSrc(SrcOf(attributes), ctx)
    ensures r - {"src"} == attributes - {"src"}
  {
    var src := SrcOf(attributes);
    var embedded := EmbeddedSrc(src, ctx);
    if embedded == src then attributes
    else
      var r := attributes["src" := embedded];
      assert r - {"src"} == attributes - {"src"};
      r
  }

  function ImageEdit(ctx: Context): Tag -> map<string, string> {
    (t: Tag) => if t.name == "img" then EmbedImage(t.attributes, ctx) else t.attributes
  }

  /** The image loop: every `img` element is handled on its own, a failure
      with one of them touching no other, and nothing but `src` changes. */
  function EmbedImages(doc: Node, ctx: Context): (r: Node)
    ensures Skeleton(r) == Skeleton(doc)
    ensures |Tags(r)| == |Tags(doc)|
    ensures forall i :: 0 <= i < |Tags(doc)| ==> Tags(r)[i].name == Tags(doc)[i].name
    ensures forall i :: 0 <= i < |Tags(doc)| && Tags(doc)[i].name != "img" ==> Tags(r)[i] == Tags(doc)[i]
    ensures forall i :: 0 <= i < |Tags(doc)| && Tags(doc)[i].name == "img" ==>
      && SrcOf(Tags(r)[i].attributes) == EmbeddedSrc(SrcOf(Tags(doc)[i].attributes), ctx)
      && Tags(r)[i].attributes - {"src"} == Tags(doc)[i].attributes - {"src"}
  {
    EditElements(doc, ImageEdit(ctx))
  }

  /** Embedding the images of an embedded document changes nothing. */
  lemma EmbedImagesIdempotent(doc: Node, ctx: Context)
    ensures EmbedImages(EmbedImages(doc, ctx), ctx) == EmbedImages(doc, ctx)
  {
    var edit := ImageEdit(ctx);
    forall t: Tag
      ensures edit(Tag(t.name, edit(t))) == edit(t)
    {
      if t.name == "img" {
        var src := SrcOf(t.attributes);
        match Resolve(src, ctx)
        case None =>
        case Some(f) =>
          DataUriIsEmbedded(f.extension, ctx.runtime.base64(f.content));
      }
    }
    EditElementsIdempotent(doc, edit);
  }

  /** The document after images and, when asked, `style` attributes are dealt
      with: the tree is unchanged but for image sources and styles, every image
      is as embedded as it can get, and no style is left when fonts are
      normalised. */
  function PrepareDocument(doc: Node, normalizeFont: bool, ctx: Context): (r: Node)
    ensures Skeleton(r) == Skeleton(doc)
    ensures |Tags(r)| == |Tags(doc)|
    ensures forall i :: 0 <= i < |Tags(r)| && Tags(r)[i].name == "img" ==>
      EmbeddedSrc(SrcOf(Tags(r)[i].attributes), ctx) == SrcOf(Tags(r)[i].attributes)
    ensures normalizeFont ==> forall i :: 0 <= i < |Tags(r)| ==> "style" !in Tags(r)[i].attributes
    ensures normalizeFont ==> r == RemoveAttribute(EmbedImages(doc, ctx), "style")
    ensures !normalizeFont ==> r == EmbedImages(doc, ctx)
  {
    var embedded := EmbedImages(doc, ctx);
    forall i | 0 <= i < |Tags(embedded)| && Tags(embedded)[i].name == "img"
      ensures EmbeddedSrc(SrcOf(Tags(embedded)[i].attributes), ctx) == SrcOf(Tags(embedded)[i].attributes)
    {
      EmbeddedSrcIdempotent(SrcOf(Tags(doc)[i].attributes), ctx);
    }
    if normalizeFont then
      var r := RemoveAttribute(embedded, "style");
      forall i | 0 <= i < |Tags(r)|
        ensures SrcOf(Tags(r)[i].attributes) == SrcOf(Tags(embedded)[i].attributes)
      {
        assert Tags(r)[i].attributes == Tags(embedded)[i].attributes - {"style"};
      }
      r
    else embedded
  }

  const ErrorPrefix: string := "Error converting HTML text: "

  /** `GenerateHtmlForWordEmbedding`: never throws.  A failure to load the
      HTML or to remove the line breaks becomes the error prefix followed by
      the exception's message; otherwise the prepared document is serialised. */
  function GenerateHtmlForWordEmbedding(content: string, normalizeFont: bool, ctx: Context): (r: string)
    ensures ctx.html.load(content).Failure? ==> r == ErrorPrefix + ctx.html.load(content).error
    ensures ctx.html.load(content).Success? && !normalizeFont ==>
      r == ctx.html.outerHtml(EmbedImages(ctx.html.load(content).value, ctx))
    ensures ctx.html.load(content).Success? && normalizeFont ==>
      var cleaned := ctx.html.removeBreaks(PrepareDocument(ctx.html.load(content).value, true, ctx));
      r == (if cleaned.Success? then ctx.html.outerHtml(cleaned.value) else ErrorPrefix + cleaned.error)
  {
    match ctx.html.load(content)
    case Failure(message) => ErrorPrefix + message
    case Success(doc) =>
      var prepared := PrepareDocument(doc, normalizeFont, ctx);
      if !normalizeFont then ctx.html.outerHtml(prepared)
      else
        match ctx.html.removeBreaks(prepared)
        case Failure(message) => ErrorPrefix + message
        case Success(cleaned) => ctx.html.outerHtml(cleaned)
  }

  /** A document whose every image is already embedded or has no `src` at
      all comes back as it was loaded when fonts are left alone. */
  lemma GenerateHtmlKeepsEmbeddedImages(content: string, ctx: Context)
    requires ctx.html.load(content).Success?
    requires forall t :: t in Tags(ctx.html.load(content).value) && t.name == "img" ==>
      SrcOf(t.attributes) == [] || Contains(SrcOf(t.attributes), "base64")
    ensures GenerateHtmlForWordEmbedding(content, false, ctx) == ctx.html.outerHtml(ctx.html.load(content).value)
  {
    var doc := ctx.html.load(content).value;
    EmbedImagesKeeps(doc, ctx);
  }

  /** With fonts normalised, such a document without `style` attributes is
      only stripped of its line breaks. */
  lemma GenerateHtmlNormalizesOnlyBreaks(content: string, ctx: Context)
    requires ctx.html.load(content).Success?
    requires forall t :: t in Tags(ctx.html.load(content).value) && t.name == "img" ==>
      SrcOf(t.attributes) == [] || Contains(SrcOf(t.attributes), "base64")
    requires forall t :: t in Tags(ctx.html.load(content).value) ==> "style" !in t.attributes
    ensures var cleaned := ctx.html.removeBreaks(ctx.html.load(content).value);
      GenerateHtmlForWordEmbedding(content, true, ctx)
        == if cleaned.Success? then ctx.html.outerHtml(cleaned.value) else ErrorPrefix + cleaned.error
  {
    var doc := ctx.html.load(content).value;
    EmbedImagesKeeps(doc, ctx);
    RemoveAbsentAttribute(doc, "style");
  }

  /** The image loop leaves a document alone when every image in it is
      already embedded or has no `src`. */
  lemma EmbedImagesKeeps(doc: Node, ctx: Context)
    requires forall t :: t in Tags(doc) && t.name == "img" ==>
      SrcOf(t.attributes) == [] || Contains(SrcOf(t.attributes), "base64")
    ensures EmbedImages(doc, ctx) == doc
  {
    forall t | t in Tags(doc)
      ensures ImageEdit(ctx)(t) == t.attributes
    {
    }
    EditElementsKeeps(doc, ImageEdit(ctx));
  }
}
