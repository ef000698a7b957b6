/** The decisions `ManimRenderer` makes around its one network round trip:
    the configured defaults, the request it sends (URL and payload), and
    what it shows for the response it gets back (a status text, or a video,
    an image or a download link with the MIME type of the decoded blob). */
module ManimRenderer {
  import opened Wrappers
  import opened Text
  import opened InfoString

  // ---------------------------------------------------------------------
  // Configuration (the constructor)

  datatype RenderOptions = RenderOptions(serverUrl: string, defaultFormat: string, defaultQuality: string)

  /** `Partial<RenderOptions>`: each field may be left out. */
  datatype PartialOptions = PartialOptions(serverUrl: Option<string>, defaultFormat: Option<string>, defaultQuality: Option<string>)

  const DefaultServerUrl: string := "http://localhost:8000"
  const DefaultFormat: string := "mp4"
  const DefaultQuality: string := "low"
  const DefaultScene: string := "Scene"

  /** JavaScript's `value || fallback` for a string that may be undefined:
      the empty string is falsy too. */
  function Or(value: Option<string>, fallback: string): (r: string)
    ensures value.Some? && value.value != "" ==> r == value.value
    ensures value.None? || value.value == "" ==> r == fallback
    ensures fallback != "" ==> r != ""
  {
    if value.Some? && value.value != "" then value.value else fallback
  }

  predicate Populated(o: RenderOptions) {
    o.serverUrl != "" && o.defaultFormat != "" && o.defaultQuality != ""
  }

  /** The constructor: `(options && options.x) || default` for each field. */
  function Configure(options: Option<PartialOptions>): (o: RenderOptions)
    ensures Populated(o)
  {
    var given := options.GetOr(PartialOptions(None, None, None));
    RenderOptions(
      Or(given.serverUrl, DefaultServerUrl),
      Or(given.defaultFormat, DefaultFormat),
      Or(given.defaultQuality, DefaultQuality))
  }

  /** Each configured value is the one given when it is non-empty, and the
      built-in default otherwise. */
  lemma ConfigureKeepsGivenValues(given: PartialOptions)
    ensures var o := Configure(Some(given));
      && (o.serverUrl == DefaultServerUrl <== given.serverUrl.None? || given.serverUrl.value == "")
      && (given.serverUrl.Some? && given.serverUrl.value != "" ==> o.serverUrl == given.serverUrl.value)
      && (o.defaultFormat == DefaultFormat <== given.defaultFormat.None? || given.defaultFormat.value == "")
      && (given.defaultFormat.Some? && given.defaultFormat.value != "" ==> o.defaultFormat == given.defaultFormat.value)
      && (o.defaultQuality == DefaultQuality <== given.defaultQuality.None? || given.defaultQuality.value == "")
      && (given.defaultQuality.Some? && given.defaultQuality.value != "" ==> o.defaultQuality == given.defaultQuality.value)
  {
  }

  lemma ConfigureWithoutOptions()
    ensures Configure(None) == RenderOptions("http://localhost:8000", "mp4", "low")
  {
  }

  // ---------------------------------------------------------------------
  // The request

  datatype Payload = Payload(code: string, scene: string, format: string, quality: string)

  datatype Request = Request(url: string, payload: Payload)

  function Lookup(params: map<string, string>, key: string): Option<string> {
    if key in params then Some(params[key]) else None
  }

  /** The payload: parsed options first, then the configured defaults (and
      `"Scene"` for the scene). */
  function BuildPayload(options: RenderOptions, code: string, params: map<string, string>): (p: Payload)
    ensures p.code == code
    ensures p.scene == if "scene" in params && params["scene"] != "" then params["scene"] else DefaultScene
    ensures p.format == if "format" in params && params["format"] != "" then params["format"] else options.defaultFormat
    ensures p.quality == if "quality" in params && params["quality"] != "" then params["quality"] else options.defaultQuality
    ensures Populated(options) ==> p.scene != "" && p.format != "" && p.quality != ""
  {
    Payload(code,
      Or(Lookup(params, "scene"), DefaultScene),
      Or(Lookup(params, "format"), options.defaultFormat),
      Or(Lookup(params, "quality"), options.defaultQuality))
  }

  /** `serverUrl.replace(/\/$/, "")`: one trailing slash, if any, is removed. */
  function StripTrailingSlash(url: string): string {
    if url != [] && url[|url| - 1] == '/' then url[..|url| - 1] else url
  }

  function RequestUrl(serverUrl: string): string {
    StripTrailingSlash(serverUrl) + "/render"
  }

  /** The request `renderCodeBlock` sends for a code block and its info line. */
  function PlanRequest(options: RenderOptions, code: string, info: string): Request {
    Request(RequestUrl(options.serverUrl), BuildPayload(options, code, ParseInfo(info)))
  }

  /** A URL without a trailing slash gets `/render` appended; with one or
      more trailing slashes exactly one of them is dropped first. */
  lemma RequestUrlDropsOneSlash(base: string)
    ensures RequestUrl(base + "/") == base + "/render"
    ensures (base == [] || base[|base| - 1] != '/') ==> RequestUrl(base) == base + "/render"
  {
    assert (base + "/")[..|base|] == base;
  }

  /** Every request carries a non-empty scene, format and quality when the
      renderer was built by its constructor. */
  lemma RequestFieldsPopulated(given: Option<PartialOptions>, code: string, info: string)
    ensures var p := PlanRequest(Configure(given), code, info).payload;
      p.code == code && p.scene != "" && p.format != "" && p.quality != ""
  {
  }

  /** An info line that sets nothing gives `"Scene"` and the configured
      format and quality. */
  lemma RequestDefaults(options: RenderOptions, code: string, info: string)
    requires ParseInfo(info) == map[]
    ensures PlanRequest(options, code, info).payload == Payload(code, "Scene", options.defaultFormat, options.defaultQuality)
  {
  }

  /** What the fence's options line asks for is what is sent: on a line of
      words separated by spaces, the last `scene=X`, `format=X` or
      `quality=X` word with a non-empty `X` puts `X` into that payload field. */
  lemma InfoLineReachesPayload(options: RenderOptions, code: string, ts: seq<string>, j: nat, key: string, value: string)
    requires forall k :: 0 <= k < |ts| ==> ts[k] != [] && NoWhitespace(ts[k])
    requires j < |ts| && ts[j] == key + "=" + value
    requires key in Recognized && '=' !in value && value != ""
    requires forall j' :: j < j' < |ts| ==> !SetsKey(ts[j'], key)
    ensures var p := PlanRequest(options, code, Join(ts, ' ')).payload;
      && (key == "scene" ==> p.scene == value)
      && (key == "format" ==> p.format == value)
      && (key == "quality" ==> p.quality == value)
  {
    var info := Join(ts, ' ');
    LineRecordsPair(ts, j, key, value);
    PayloadTakesOption(options, code, ParseInfo(info), key, value);
  }

  lemma PayloadTakesOption(options: RenderOptions, code: string, params: map<string, string>, key: string, value: string)
    requires key in params && params[key] == value && value != ""
    ensures var p := BuildPayload(options, code, params);
      && (key == "scene" ==> p.scene == value)
      && (key == "format" ==> p.format == value)
      && (key == "quality" ==> p.quality == value)
  {
  }

  /** An empty option (`scene=`) counts as absent: the default is used. */
  lemma EmptyOptionFallsBack(options: RenderOptions, code: string, params: map<string, string>)
    requires "scene" in params && params["scene"] == ""
    ensures BuildPayload(options, code, params).scene == "Scene"
  {
  }

  // ---------------------------------------------------------------------
  // MIME types and extensions

  const OctetStream: string := "application/octet-stream"

  /** `extToMime`: case-insensitive; empty or unknown extensions give
      `application/octet-stream`. */
  function ExtToMime(ext: string): string {
    if ext == "" then OctetStream
    else
      var e := Lower(ext);
      if e == "mp4" then "video/mp4"
      else if e == "webm" then "video/webm"
      else if e == "gif" then "image/gif"
      else if e == "png" then "image/png"
      else if e == "svg" then "image/svg+xml"
      else OctetStream
  }

  /** The MIME types the renderer knows, as a table. */
  const MimeTypes: map<string, string> := map[
    "mp4" := "video/mp4", "webm" := "video/webm",
    "gif" := "image/gif", "png" := "image/png", "svg" := "image/svg+xml"]

  /** `extToMime` agrees with the table on the lower-cased extension, and
      every other extension is an octet stream. */
  lemma ExtToMimeMatchesTable(ext: string)
    ensures ExtToMime(ext) == if Lower(ext) in MimeTypes then MimeTypes[Lower(ext)] else OctetStream
  {
    if ext == "" {
      assert Lower(ext) == "";
    }
  }

  /** Case does not matter. */
  lemma ExtToMimeIgnoresCase(ext: string)
    ensures ExtToMime(ext) == ExtToMime(Lower(ext))
  {
    LowerIsLower(ext);
    assert ext == "" <==> Lower(ext) == "";
  }

  /** `filename.split('.').pop().toLowerCase()`. */
  function ExtOf(filename: string): string {
    Lower(Last(Split(filename, '.')))
  }

  /** The extension is the lower-cased text after the last dot, or the whole
      lower-cased name when there is no dot. */
  lemma ExtensionAfterLastDot(filename: string)
    ensures |ExtOf(filename)| <= |filename|
    ensures var tail := filename[|filename| - |ExtOf(filename)|..];
      && ExtOf(filename) == Lower(tail) && '.' !in tail
      && (|tail| < |filename| ==> filename[|filename| - |tail| - 1] == '.')
      && ('.' !in filename ==> tail == filename)
  {
    LastPiece(filename, '.');
  }

  lemma {:induction false} LastPieceAfterSeparator(a: string, sep: char, b: string)
    ensures Last(Split(a + [sep] + b, sep)) == Last(Split(b, sep))
  {
    var s := a + [sep] + b;
    if a == [] {
      assert s == [sep] + b;
      assert s[1..] == b;
      SplitLastOfTail(s, sep);
    } else {
      assert s[1..] == a[1..] + [sep] + b;
      assert s[1..][|a| - 1] == sep;
      SplitLastOfTail(s, sep);
      LastPieceAfterSeparator(a[1..], sep, b);
    }
  }

  /** `stem.ext` has extension `ext` (lower-cased) whatever the stem holds. */
  lemma ExtOfStemAndExtension(stem: string, ext: string)
    requires '.' !in ext
    ensures ExtOf(stem + "." + ext) == Lower(ext)
  {
    LastPieceAfterSeparator(stem, '.', ext);
    SplitWithoutSeparator(ext, '.');
  }

  /** With a dot at `d` and none after it, the extension is what follows `d`. */
  lemma ExtOfAfterDot(filename: string, d: nat)
    requires d < |filename| && filename[d] == '.' && '.' !in filename[d + 1..]
    ensures ExtOf(filename) == Lower(filename[d + 1..])
  {
    var stem, ext := filename[..d], filename[d + 1..];
    ExtOfStemAndExtension(stem, ext);
    assert stem + "." + ext == filename by {
      assert filename[d..] == "." + ext;
      assert filename == stem + filename[d..];
    }
  }

  // ---------------------------------------------------------------------
  // Presentation

  datatype Element =
    | Video                                       // <video controls>
    | Image                                       // <img>
    | DownloadLink(text: string, download: string)  // <a download=…>

  /** The element chosen for the returned file. */
  function ElementFor(ext: string, filename: string): Element {
    if ext == "mp4" || ext == "webm" then Video
    else if ext == "gif" || ext == "png" || ext == "svg" then Image
    else DownloadLink("Download " + filename, filename)
  }

  /** For a returned file whose name has a non-empty extension, the element
      agrees with the blob's MIME type: a video for `video/…`, an image for
      `image/…`, a download link for an octet stream. */
  lemma ElementMatchesMime(filename: string)
    requires ExtOf(filename) != ""
    ensures var ext := ExtOf(filename);
      && (ElementFor(ext, filename).Video? <==> ExtToMime(ext) in {"video/mp4", "video/webm"})
      && (ElementFor(ext, filename).Image? <==> ExtToMime(ext) in {"image/gif", "image/png", "image/svg+xml"})
      && (ElementFor(ext, filename).DownloadLink? <==> ExtToMime(ext) == OctetStream)
  {
    var tail := Last(Split(filename, '.'));
    LowerIsLower(tail);
  }

  // ---------------------------------------------------------------------
  // The response

  /** The decoded JSON body: `success` is false when absent; `error`,
      `filename` and `data` may be absent. */
  datatype ResponseBody = ResponseBody(success: bool, error: Option<string>, filename: Option<string>, data: Option<string>)

  /** `resp.ok`, `resp.status`, and the body when `resp.json()` resolves to
      an object (`None` when it rejects or gives `null`). */
  datatype HttpResponse = HttpResponse(ok: bool, status: nat, body: Option<ResponseBody>)

  /** What the block ends up showing. */
  datatype Outcome =
    | StatusText(text: string)                                  // the status node, rewritten
    | RenderError                                               // "Render error: " + the exception text
    | Shown(element: Element, mime: string, data: string)         // status removed, media appended
    | Cleared                                                     // status removed, then decoding throws: nothing shown

  function DecimalDigit(d: nat): char
    requires d < 10
  {
    "0123456789"[d]
  }

  /** `${n}` for a non-negative integer. */
  function NatToDecimal(n: nat): (s: string)
    ensures |s| >= 1
    ensures forall i :: 0 <= i < |s| ==> '0' <= s[i] <= '9'
    ensures s[0] == '0' ==> n == 0
  {
    if n < 10 then [DecimalDigit(n)] else NatToDecimal(n / 10) + [DecimalDigit(n % 10)]
  }

  /** The value of a string of decimal digits. */
  function DecimalValue(s: string): nat
    requires forall i :: 0 <= i < |s| ==> '0' <= s[i] <= '9'
  {
    if s == [] then 0 else 10 * DecimalValue(s[..|s| - 1]) + (s[|s| - 1] as int - '0' as int)
  }

  lemma DigitValue(d: nat)
    requires d < 10
    ensures DecimalDigit(d) as int - '0' as int == d
  {
    assert "0123456789"[d] as int == '0' as int + d by {
      assert forall j :: 0 <= j < 10 ==> "0123456789"[j] as int == '0' as int + j;
    }
  }

  /** Reading the printed status code gives the status code back. */
  lemma {:induction false} NatToDecimalRoundTrip(n: nat)
    ensures DecimalValue(NatToDecimal(n)) == n
  {
    var s := NatToDecimal(n);
    if n < 10 {
      DigitValue(n);
      assert s[..0] == [];
    } else {
      var t := NatToDecimal(n / 10);
      NatToDecimalRoundTrip(n / 10);
      DigitValue(n % 10);
      assert s == t + [DecimalDigit(n % 10)];
      assert s[..|s| - 1] == t;
      assert s[|s| - 1] == DecimalDigit(n % 10);
      assert DecimalValue(s) == 10 * DecimalValue(t) + n % 10;
    }
  }

  /** `renderCodeBlock` after the fetch: the requested format is the
      fallback for the MIME type when the file name ends in a dot. A
      success without `data` removes the status node and then fails in
      `atob`; the catch writes its message into the detached node, so the
      block is left empty. */
  function Settle(requestedFormat: string, resp: HttpResponse): Outcome {
    if !resp.ok then
      var error := if resp.body.Some? then resp.body.value.error else None;
      StatusText("Render failed: " + Or(error, "Server returned " + NatToDecimal(resp.status)))
    else if resp.body.None? then RenderError
    else if !resp.body.value.success then StatusText("Render failed: " + Or(resp.body.value.error, "unknown"))
    else if resp.body.value.filename.None? then RenderError
    else if resp.body.value.data.None? then Cleared
    else
      var filename := resp.body.value.filename.value;
      var ext := ExtOf(filename);
      Shown(ElementFor(ext, filename), ExtToMime(if ext != "" then ext else requestedFormat), resp.body.value.data.value)
  }

  /** Media is shown (and the status node removed) exactly for an ok
      response whose body reports success, names a file and carries data;
      without data the status node is removed and nothing replaces it; every
      other response leaves the status node with a failure text. */
  lemma ShownOnlyOnSuccess(requestedFormat: string, resp: HttpResponse)
    ensures Settle(requestedFormat, resp).Shown? <==>
      resp.ok && resp.body.Some? && resp.body.value.success && resp.body.value.filename.Some? && resp.body.value.data.Some?
    ensures Settle(requestedFormat, resp) == Cleared <==>
      resp.ok && resp.body.Some? && resp.body.value.success && resp.body.value.filename.Some? && resp.body.value.data.None?
    ensures Settle(requestedFormat, resp) == RenderError <==>
      resp.ok && (resp.body.None? || (resp.body.value.success && resp.body.value.filename.None?))
    ensures Settle(requestedFormat, resp).StatusText? ==>
      "Render failed: " <= Settle(requestedFormat, resp).text
  {
  }

  /** A non-ok response reports the server's error, or the status code. */
  lemma NonOkMessage(requestedFormat: string, resp: HttpResponse)
    requires !resp.ok
    ensures var error := if resp.body.Some? then resp.body.value.error else None;
      Settle(requestedFormat, resp) == StatusText("Render failed: " +
        if error.Some? && error.value != "" then error.value else "Server returned " + NatToDecimal(resp.status))
  {
  }

  /** An ok response with `success: false` reports the error or "unknown". */
  lemma UnsuccessfulMessage(requestedFormat: string, resp: HttpResponse)
    requires resp.ok && resp.body.Some? && !resp.body.value.success
    ensures Settle(requestedFormat, resp) == StatusText("Render failed: " +
        if resp.body.value.error.Some? && resp.body.value.error.value != "" then resp.body.value.error.value else "unknown")
  {
  }

  lemma SettleNamedFile(format: string, filename: string, data: string)
    requires ExtOf(filename) != ""
    ensures Settle(format, Delivered(filename, Some(data))) == Shown(ElementFor(ExtOf(filename), filename), ExtToMime(ExtOf(filename)), data)
  {
  }

  /** A success without `data` clears the status and shows nothing, whatever
      the file is called. */
  lemma MissingDataClears(format: string, filename: string)
    ensures Settle(format, Delivered(filename, None)) == Cleared
  {
  }

  lemma ExtOfLowerExtension(stem: string, ext: string)
    requires '.' !in ext && IsLower(ext)
    ensures ExtOf(stem + "." + ext) == ext
  {
    ExtOfStemAndExtension(stem, ext);
    LowerOfLower(ext);
  }

  function Delivered(filename: string, data: Option<string>): HttpResponse {
    HttpResponse(true, 200, Some(ResponseBody(true, None, Some(filename), data)))
  }

  /** A returned `name.mp4` or `name.webm` plays as a video. */
  lemma ShowsVideo(format: string, stem: string, ext: string, data: string)
    requires ext == "mp4" || ext == "webm"
    ensures Settle(format, Delivered(stem + "." + ext, Some(data))) == Shown(Video, MimeTypes[ext], data)
  {
    ExtOfLowerExtension(stem, ext);
    SettleNamedFile(format, stem + "." + ext, data);
    LowerOfLower(ext);
  }

  /** A returned `name.gif`, `name.png` or `name.svg` shows as an image. */
  lemma ShowsImage(format: string, stem: string, ext: string, data: string)
    requires ext == "gif" || ext == "png" || ext == "svg"
    ensures Settle(format, Delivered(stem + "." + ext, Some(data))) == Shown(Image, MimeTypes[ext], data)
  {
    ExtOfLowerExtension(stem, ext);
    SettleNamedFile(format, stem + "." + ext, data);
    LowerOfLower(ext);
  }

  /** Any other non-empty extension gives a download link labelled with the
      file name, and an octet-stream blob. */
  lemma ShowsDownloadLink(format: string, stem: string, ext: string, data: string)
    requires ext != "" && '.' !in ext && IsLower(ext) && ext !in MimeTypes
    ensures var filename := stem + "." + ext;
      Settle(format, Delivered(filename, Some(data))) == Shown(DownloadLink("Download " + filename, filename), OctetStream, data)
  {
    ExtOfLowerExtension(stem, ext);
    SettleNamedFile(format, stem + "." + ext, data);
    LowerOfLower(ext);
    ExtToMimeMatchesTable(ext);
  }

  /** The file name picks the element: `scene.mp4` a video, `scene.png` an
      image, `scene.xyz` a link labelled "Download scene.xyz". */
  lemma ExampleVideo(format: string, data: string)
    ensures Settle(format, Delivered("scene.mp4", Some(data))) == Shown(Video, "video/mp4", data)
  {
    ShowsVideo(format, "scene", "mp4", data);
    assert "scene" + "." + "mp4" == "scene.mp4";
  }

  lemma ExampleImage(format: string, data: string)
    ensures Settle(format, Delivered("scene.png", Some(data))) == Shown(Image, "image/png", data)
  {
    ShowsImage(format, "scene", "png", data);
    assert "scene" + "." + "png" == "scene.png";
  }

  lemma ExampleDownloadLink(format: string, data: string)
    ensures Settle(format, Delivered("scene.xyz", Some(data)))
      == Shown(DownloadLink("Download scene.xyz", "scene.xyz"), OctetStream, data)
  {
    var filename := "scene" + "." + "xyz";
    assert filename == "scene.xyz";
    assert "Download " + filename == "Download scene.xyz";
    assert "xyz" !in MimeTypes.Keys;
    assert IsLower("xyz") && '.' !in "xyz";
    ShowsDownloadLink(format, "scene", "xyz", data);
  }

  /** A 500 with `{"error": "boom"}` reports the server's error. */
  lemma ExampleServerError(format: string)
    ensures Settle(format, HttpResponse(false, 500, Some(ResponseBody(false, Some("boom"), None, None))))
      == StatusText("Render failed: boom")
  {
  }

  /** A 200 with `{"success": false}` and no error reports "unknown". */
  lemma ExampleUnknownFailure(format: string)
    ensures Settle(format, HttpResponse(true, 200, Some(ResponseBody(false, None, None, None))))
      == StatusText("Render failed: unknown")
  {
  }
}
