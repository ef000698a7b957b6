/** How the plugin's renderer and the render server meet: the JSON payload
    the renderer sends, the checks the server applies to it, and what the
    renderer shows for each reply the server gives. */
module RenderProtocol {
  import opened Wrappers
  import opened Text
  import opened InfoString
  import opened PosixPath
  import opened ManimServer
  import opened ManimRenderer

  /** `JSON.stringify(payload)` as the server's `get_json` decodes it. */
  function PayloadJson(p: Payload): Json {
    JObject(map["code" := JString(p.code), "scene" := JString(p.scene), "format" := JString(p.format), "quality" := JString(p.quality)])
  }

  /** The server judges a payload with a scene on its code and its
      lower-cased format alone: an empty code is "missing"; otherwise the
      format decides, and the quality becomes its flag. */
  lemma PayloadValidated(p: Payload)
    requires p.scene != ""
    ensures ValidateRequest(Some(PayloadJson(p))) ==
      if p.code == "" then Rejected(400, "missing 'code' or 'scene'")
      else if Lower(p.format) in FormatMap then Accepted(JString(p.code), JString(p.scene), Lower(p.format), QualityFlag(JString(p.quality)))
      else Rejected(400, "unsupported format: " + Lower(p.format))
  {
    var fields := PayloadJson(p).fields;
    assert "code" in fields && fields["code"] == JString(p.code);
    assert "scene" in fields && fields["scene"] == JString(p.scene);
    assert "format" in fields && fields["format"] == JString(p.format);
    assert "quality" in fields && fields["quality"] == JString(p.quality);
  }

  /** A request the renderer builds always has a scene, so an empty code
      block is the only "missing" case. */
  lemma ClientRequestValidated(given: Option<PartialOptions>, code: string, info: string)
    ensures var p := PlanRequest(Configure(given), code, info).payload;
      ValidateRequest(Some(PayloadJson(p))) ==
        if code == "" then Rejected(400, "missing 'code' or 'scene'")
        else if Lower(p.format) in FormatMap then Accepted(JString(code), JString(p.scene), Lower(p.format), QualityFlag(JString(p.quality)))
        else Rejected(400, "unsupported format: " + Lower(p.format))
  {
    var p := PlanRequest(Configure(given), code, info).payload;
    RequestFieldsPopulated(given, code, info);
    PayloadValidated(p);
  }

  /** A default renderer and a code block whose info line sets nothing:
      the server accepts an mp4 render at `-ql`. */
  lemma DefaultRequestAccepted(code: string, info: string)
    requires code != "" && ParseInfo(info) == map[]
    ensures ValidateRequest(Some(PayloadJson(PlanRequest(Configure(None), code, info).payload)))
      == Accepted(JString(code), JString("Scene"), "mp4", "-ql")
  {
    ConfigureWithoutOptions();
    RequestDefaults(Configure(None), code, info);
    ClientRequestValidated(None, code, info);
    LowerOfLower("mp4");
  }

  /** The renderer knows `webm`, the server does not: a code block asking
      for it is turned away. */
  lemma WebmRequestRejected(given: Option<PartialOptions>, code: string, info: string)
    requires code != ""
    requires PlanRequest(Configure(given), code, info).payload.format == "webm"
    ensures ValidateRequest(Some(PayloadJson(PlanRequest(Configure(given), code, info).payload)))
      == Rejected(400, "unsupported format: webm")
  {
    var p := PlanRequest(Configure(given), code, info).payload;
    RequestFieldsPopulated(given, code, info);
    var fields := PayloadJson(p).fields;
    assert "code" in fields && fields["code"] == JString(code);
    assert "scene" in fields && fields["scene"] == JString(p.scene);
    assert "format" in fields && fields["format"] == JString("webm");
    WebmRejected(fields);
  }

  // ---------------------------------------------------------------------
  // Replies

  /** A JSON error reply `{"success": false, "error": …}` with its status. */
  function ErrorReply(status: nat, error: string): HttpResponse {
    HttpResponse(200 <= status < 300, status, Some(ResponseBody(false, Some(error), None, None)))
  }

  /** Flask's own error page: not JSON, so the renderer reads no body. */
  function ErrorPage(status: nat): HttpResponse {
    HttpResponse(200 <= status < 300, status, None)
  }

  /** The HTTP response for what validation decided, when it stops the request. */
  function ValidationResponse(v: Validation): HttpResponse
    requires !v.Accepted?
  {
    match v
    case Rejected(status, error) => ErrorReply(status, error)
    case Aborted(status) => ErrorPage(status)
  }

  /** The HTTP response for the reply after manim has run. */
  function RenderResponse(reply: RenderReply, data: string): HttpResponse {
    match reply
    case Failure(status, error) => ErrorReply(status, error)
    case Success(filename, _) => Delivered(filename, Some(data))
  }

  /** Every request the server stops before rendering ends, on the
      renderer's side, with "Render failed: " and the server's error, or the
      status code when the server answered with its own error page. */
  lemma StoppedRequestReported(format: string, body: Option<Json>)
    requires !ValidateRequest(body).Accepted?
    ensures var v := ValidateRequest(body);
      Settle(format, ValidationResponse(v)) == StatusText("Render failed: " +
        if v.Rejected? then v.error else "Server returned " + NatToDecimal(v.status))
  {
    var v := ValidateRequest(body);
    ValidationOrder(body);
    if v.Rejected? {
      assert v.error != "";
      NonOkMessage(format, ValidationResponse(v));
    }
  }

  /** A failed render shows the server's error text. */
  lemma FailedRenderReported(format: string, status: nat, error: string, data: string)
    requires status == 500 && error in {"manim failed", "rendered file not found"}
    ensures Settle(format, RenderResponse(Failure(status, error), data)) == StatusText("Render failed: " + error)
  {
  }

  /** The extension the renderer reads off a file name is the one the
      server searched for, whenever the server finds one. */
  lemma ExtensionsAgree(name: string)
    requires FileExt(name) != ""
    ensures ExtOf(name) == FileExt(name)
  {
    FileExtAfterLastDot(name);
    var d := LastIndexOf(name, '.').value;
    var tail := name[d + 1..];
    assert FileExt(name) == Lower(tail);
    ExtOfAfterDot(name, d);
    assert ExtOf(name) == Lower(tail);
  }

  /** The renderer displays a file with any of the server's extensions. */
  lemma KnownExtensionDisplayed(format: string, name: string, data: string)
    requires ExtOf(name) in AllExtensions
    ensures Settle(format, Delivered(name, Some(data))) ==
      Shown(if ExtOf(name) == "mp4" then Video else Image, MimeTypes[ExtOf(name)], data)
  {
    var ext := ExtOf(name);
    assert ext != "";
    LowerOfLower(ext);
  }

  /** Any file the server can return is displayed: mp4 as a video, gif, png
      and svg as an image, with the matching MIME type. */
  lemma RenderedFileDisplayed(format: string, name: string, path: string, data: string)
    requires FileExt(name) in AllExtensions
    ensures Settle(format, RenderResponse(Success(name, path), data)) ==
      Shown(if FileExt(name) == "mp4" then Video else Image, MimeTypes[FileExt(name)], data)
  {
    ExtensionsAgree(name);
    KnownExtensionDisplayed(format, name, data);
  }
}
