/** The path operations of Python's `posixpath` that the render server uses. */
module PosixPath {
  import opened Wrappers
  import opened Text

  /** `os.path.join(a, b)`. */
  function JoinPath(a: string, b: string): string {
    if b != [] && b[0] == '/' then b
    else if a == [] || a[|a| - 1] == '/' then a + b
    else a + "/" + b
  }

  /** Joining never shortens the name joined. */
  lemma JoinPathLength(a: string, b: string)
    ensures |JoinPath(a, b)| >= |b|
  {
  }

  /** `os.path.basename(p)`: the text after the last `/`. */
  function Basename(p: string): string {
    match LastIndexOf(p, '/')
    case None => p
    case Some(i) => p[i + 1..]
  }

  /** The base name of a path joined onto a directory is the name joined. */
  lemma BasenameOfJoin(dir: string, name: string)
    requires '/' !in name
    ensures Basename(JoinPath(dir, name)) == name
  {
    var prefix := if dir == [] || dir[|dir| - 1] == '/' then dir else dir + "/";
    assert name == [] || name[0] != '/';
    var p := prefix + name;
    assert JoinPath(dir, name) == p;
    if prefix == [] {
      assert p == name;
    } else {
      assert p[|prefix| - 1] == '/';
      forall j | |prefix| - 1 < j < |p| ensures p[j] != '/' {
        assert p[j] == name[j - |prefix|];
      }
      LastIndexOfAt(p, '/', |prefix| - 1);
      assert p[|prefix|..] == name;
    }
  }

  /** `s.lstrip(c)`. */
  function LStrip(s: string, c: char): (r: string)
    ensures |r| <= |s| && r == s[|s| - |r|..]
    ensures r == [] || r[0] != c
    ensures forall i :: 0 <= i < |s| - |r| ==> s[i] == c
  {
    if s != [] && s[0] == c then
      var r := LStrip(s[1..], c);
      assert s[1..][|s| - 1 - |r|..] == s[|s| - |r|..];
      assert forall i :: 1 <= i < |s| - |r| ==> s[i] == s[1..][i - 1];
      r
    else s
  }

  /** `lstrip` leaves nothing exactly when every character is the one stripped. */
  lemma {:induction false} LStripEmpty(s: string, c: char)
    ensures LStrip(s, c) == [] <==> forall i :: 0 <= i < |s| ==> s[i] == c
  {
    if s != [] && s[0] == c {
      LStripEmpty(s[1..], c);
      assert forall i :: 1 <= i < |s| ==> s[i] == s[1..][i - 1];
    }
  }

  /** The extension `os.path.splitext(p)` splits off: from the last dot on,
      provided the dot is after the last `/` and the last component holds a
      character other than a dot before it; otherwise nothing. */
  function SplitextExt(p: string): string {
    match ExtDot(p)
    case None => ""
    case Some(d) => p[d..]
  }

  /** Where `splitext` splits `p`, if it does: always at the last dot. */
  function ExtDot(p: string): (r: Option<nat>)
    ensures r.Some? ==> r == LastIndexOf(p, '.') && r.value < |p|
  {
    var sepIndex := match LastIndexOf(p, '/') case None => -1 case Some(i) => i;
    var dotIndex := match LastIndexOf(p, '.') case None => -1 case Some(i) => i;
    if dotIndex > sepIndex && LStrip(p[sepIndex + 1..dotIndex], '.') != [] then Some(dotIndex) else None
  }

  /** `os.path.splitext(name)[1].lower().lstrip('.')`. */
  function FileExt(name: string): string {
    LStrip(Lower(SplitextExt(name)), '.')
  }

  /** In a name without `/`, `splitext` splits at the last dot exactly when
      something other than a dot comes before it. */
  lemma SplitextAtLastDot(p: string, d: nat)
    requires '/' !in p && d < |p| && p[d] == '.'
    requires forall i :: d < i < |p| ==> p[i] != '.'
    ensures SplitextExt(p) == if LStrip(p[..d], '.') != [] then p[d..] else ""
  {
    LastIndexOfAt(p, '.', d);
    assert p[0..d] == p[..d];
  }

  /** The shape of `stem.ext`: no `/`, its last dot right after the stem,
      and a stem that is not all dots. */
  lemma StemDotExt(stem: string, ext: string, j: nat)
    requires '/' !in stem && '/' !in ext && '.' !in ext
    requires j < |stem| && stem[j] != '.'
    ensures '/' !in stem + "." + ext && (stem + "." + ext)[|stem|] == '.'
    ensures forall i :: |stem| < i < |stem| + 1 + |ext| ==> (stem + "." + ext)[i] != '.'
    ensures LStrip((stem + "." + ext)[..|stem|], '.') != []
    ensures (stem + "." + ext)[|stem|..] == "." + ext
  {
    var p := stem + "." + ext;
    forall i | |stem| < i < |p| ensures p[i] != '.' {
      assert p[i] == ext[i - |stem| - 1];
    }
    assert p[..|stem|] == stem;
    LStripEmpty(stem, '.');
  }

  /** In `stem.ext`, with a dot-free `ext` and a stem holding a character
      other than a dot, `splitext` splits off `.ext`. */
  lemma SplitextOfStem(stem: string, ext: string, j: nat)
    requires '/' !in stem && '/' !in ext && '.' !in ext
    requires j < |stem| && stem[j] != '.'
    ensures SplitextExt(stem + "." + ext) == "." + ext
  {
    StemDotExt(stem, ext, j);
    SplitextAtLastDot(stem + "." + ext, |stem|);
  }

  /** Lower-casing and stripping the dot of `.tail` leaves `tail` lower-cased. */
  lemma StripDotOfLowered(tail: string)
    requires '.' !in tail
    ensures LStrip(Lower("." + tail), '.') == Lower(tail)
  {
    assert Lower("." + tail) == "." + Lower(tail);
    forall i | 0 <= i < |tail| ensures Lower(tail)[i] != '.' {
      assert tail[i] != '.';
    }
    assert ("." + Lower(tail))[1..] == Lower(tail);
  }

  /** What `splitext` splits off, when anything, starts at the last dot. */
  lemma SplitextStartsAtLastDot(p: string)
    requires SplitextExt(p) != ""
    ensures LastIndexOf(p, '.').Some?
    ensures SplitextExt(p) == "." + p[LastIndexOf(p, '.').value + 1..]
  {
    var d := ExtDot(p).value;
    assert p[d..] == "." + p[d + 1..];
  }

  /** A non-empty extension is the lower-cased text after the last dot. */
  lemma FileExtAfterLastDot(p: string)
    requires FileExt(p) != ""
    ensures LastIndexOf(p, '.').Some?
    ensures FileExt(p) == Lower(p[LastIndexOf(p, '.').value + 1..])
  {
    var e := SplitextExt(p);
    assert FileExt(p) == LStrip(Lower(e), '.');
    assert |Lower(e)| == |e|;
    SplitextStartsAtLastDot(p);
    var d := LastIndexOf(p, '.').value;
    assert e == "." + p[d + 1..];
    StripDotOfLowered(p[d + 1..]);
  }

  /** A name `stem.ext` whose stem holds a character other than a dot has
      extension `ext`, lower-cased. */
  lemma FileExtOfStem(stem: string, ext: string, j: nat)
    requires '/' !in stem && '/' !in ext && '.' !in ext
    requires j < |stem| && stem[j] != '.'
    ensures FileExt(stem + "." + ext) == Lower(ext)
  {
    SplitextOfStem(stem, ext, j);
    StripDotOfLowered(ext);
  }

  /** A name made of dots and then a dot-free `ext` (".mp4", "..mp4") has no
      extension: `splitext` ignores leading dots. */
  lemma FileExtOfDotName(dots: nat, ext: string)
    requires '/' !in ext && '.' !in ext
    ensures FileExt(seq(dots + 1, _ => '.') + ext) == ""
  {
    var prefix := seq(dots + 1, _ => '.');
    var p := prefix + ext;
    assert '/' !in prefix;
    assert '/' !in p;
    forall i | dots < i < |p| ensures p[i] != '.' {
      assert p[i] == ext[i - dots - 1];
    }
    LStripEmpty(p[..dots], '.');
    SplitextAtLastDot(p, dots);
  }
}

/** `manim-server.py`: validating a `/render` request, choosing the quality
    flag, and picking the rendered file among what the media directory walk
    returns. */
module ManimServer {
  import opened Wrappers
  import opened Text
  import opened PosixPath

  // ---------------------------------------------------------------------
  // The request

  /** A JSON value as Flask's `get_json` returns it (numbers as integers). */
  datatype Json =
    | JNull
    | JBool(b: bool)
    | JNumber(n: int)
    | JString(s: string)
    | JArray(items: seq<Json>)
    | JObject(fields: map<string, Json>)

  /** Python's truth value of the decoded JSON value. */
  predicate Truthy(j: Json) {
    match j
    case JNull => false
    case JBool(b) => b
    case JNumber(n) => n != 0
    case JString(s) => s != ""
    case JArray(items) => items != []
    case JObject(fields) => fields != map[]
  }

  /** `payload.get(key, default)`. */
  function Get(fields: map<string, Json>, key: string, default: Json): Json {
    if key in fields then fields[key] else default
  }

  /** The output formats the server accepts and the extensions each one
      searches for. */
  const FormatMap: map<string, set<string>> := map["mp4" := {"mp4"}, "gif" := {"gif"}, "png" := {"png"}, "svg" := {"svg"}]

  /** `set.union(*format_map.values())`. */
  const AllExtensions: set<string> := {"mp4", "gif", "png", "svg"}

  /** `AllExtensions` is the union of the format map's extension sets. */
  lemma AllExtensionsIsUnion()
    ensures forall f :: f in FormatMap ==> FormatMap[f] <= AllExtensions
    ensures forall e :: e in AllExtensions ==> exists f :: f in FormatMap && e in FormatMap[f]
  {
    assert "mp4" in FormatMap && "gif" in FormatMap && "png" in FormatMap && "svg" in FormatMap;
  }

  /** The manim quality flag: `low`, `medium`, `high`, anything else `-ql`. */
  function QualityFlag(quality: Json): string {
    if quality == JString("low") then "-ql"
    else if quality == JString("medium") then "-qm"
    else if quality == JString("high") then "-qh"
    else "-ql"
  }

  /** Only the exact strings "medium" and "high" raise the quality; every
      other value, a missing one ("low" by default) and "HIGH" included,
      gives `-ql`. */
  lemma QualityFlagChoice(quality: Json)
    ensures QualityFlag(quality) in {"-ql", "-qm", "-qh"}
    ensures QualityFlag(quality) == "-qm" <==> quality == JString("medium")
    ensures QualityFlag(quality) == "-qh" <==> quality == JString("high")
  {
  }

  /** What `render` decides before it runs manim. */
  datatype Validation =
    | Rejected(status: nat, error: string)   // a JSON reply `{"success": false, "error": …}`
    | Aborted(status: nat)                   // Flask's own error page
    | Accepted(code: Json, scene: Json, format: string, qualityFlag: string)

  /** `render` up to the temporary directory. `body` is `None` when the
      request body is not JSON at all, which `get_json(force=True)` answers
      with 400. The `.get` on a JSON value that is not an object, and the
      `.lower()` on a format that is not a string, raise outside the `try`:
      Flask answers 500. */
  function ValidateRequest(body: Option<Json>): Validation {
    match body
    case None => Aborted(400)
    case Some(payload) =>
      if !Truthy(payload) then Rejected(400, "invalid json")
      else if !payload.JObject? then Aborted(500)
      else
        var fields := payload.fields;
        var format := Get(fields, "format", JString("mp4"));
        if !format.JString? then Aborted(500)
        else
          var outFormat := Lower(format.s);
          var code := Get(fields, "code", JNull);
          var scene := Get(fields, "scene", JNull);
          var quality := Get(fields, "quality", JString("low"));
          if !Truthy(code) || !Truthy(scene) then Rejected(400, "missing 'code' or 'scene'")
          else if outFormat !in FormatMap then Rejected(400, "unsupported format: " + outFormat)
          else Accepted(code, scene, outFormat, QualityFlag(quality))
  }

  /** The checks come in a fixed order: an empty payload is "invalid json"
      whatever it is; a missing code or scene is reported before the format
      is looked at; an accepted request has a code, a scene and a known
      format. */
  lemma ValidationOrder(body: Option<Json>)
    ensures ValidateRequest(body) == Rejected(400, "invalid json") <==> body.Some? && !Truthy(body.value)
    ensures ValidateRequest(body) == Rejected(400, "missing 'code' or 'scene'") <==>
      body.Some? && body.value.JObject? && Truthy(body.value) &&
      Get(body.value.fields, "format", JString("mp4")).JString? &&
      (!Truthy(Get(body.value.fields, "code", JNull)) || !Truthy(Get(body.value.fields, "scene", JNull)))
    ensures (ValidateRequest(body).Rejected? && ValidateRequest(body).error != "invalid json"
             && ValidateRequest(body).error != "missing 'code' or 'scene'") ==>
      body.Some? && body.value.JObject?
      && Truthy(Get(body.value.fields, "code", JNull)) && Truthy(Get(body.value.fields, "scene", JNull))
    ensures ValidateRequest(body).Accepted? ==>
      var v := ValidateRequest(body);
      Truthy(v.code) && Truthy(v.scene) && v.format in FormatMap && v.qualityFlag in {"-ql", "-qm", "-qh"}
  {
    if body.Some? && body.value.JObject? {
      QualityFlagChoice(Get(body.value.fields, "quality", JString("low")));
      var format := Get(body.value.fields, "format", JString("mp4"));
      if format.JString? {
        assert ("unsupported format: " + Lower(format.s))[0] == 'u';
      }
    }
    assert "missing 'code' or 'scene'"[0] == 'm' && "invalid json"[0] == 'i';
  }

  /** The format is compared lower-cased: exactly mp4, gif, png and svg are
      accepted in any case, and everything else is rejected with its
      lower-cased name, once code and scene are present. */
  lemma FormatDecides(fields: map<string, Json>, format: string)
    requires Truthy(Get(fields, "code", JNull)) && Truthy(Get(fields, "scene", JNull))
    requires Get(fields, "format", JString("mp4")) == JString(format)
    ensures Lower(format) in FormatMap ==>
      ValidateRequest(Some(JObject(fields))).Accepted? && ValidateRequest(Some(JObject(fields))).format == Lower(format)
    ensures Lower(format) !in FormatMap ==>
      ValidateRequest(Some(JObject(fields))) == Rejected(400, "unsupported format: " + Lower(format))
  {
  }

  /** `webm`, which the client can ask for, is not a format the server renders. */
  lemma WebmRejected(fields: map<string, Json>)
    requires Truthy(Get(fields, "code", JNull)) && Truthy(Get(fields, "scene", JNull))
    requires "format" in fields && fields["format"] == JString("webm")
    ensures ValidateRequest(Some(JObject(fields))) == Rejected(400, "unsupported format: webm")
  {
    FormatDecides(fields, "webm");
    LowerOfLower("webm");
  }

  /** A request without a format asks for mp4. */
  lemma AbsentFormatIsMp4(fields: map<string, Json>)
    requires Truthy(Get(fields, "code", JNull)) && Truthy(Get(fields, "scene", JNull))
    requires "format" !in fields
    ensures ValidateRequest(Some(JObject(fields))).Accepted?
    ensures ValidateRequest(Some(JObject(fields))).format == "mp4"
  {
    FormatDecides(fields, "mp4");
    LowerOfLower("mp4");
  }

  /** A format that is present but not a string fails before code and scene
      are checked. */
  lemma NonStringFormatAborts(fields: map<string, Json>)
    requires fields != map[]
    requires "format" in fields && !fields["format"].JString?
    ensures ValidateRequest(Some(JObject(fields))) == Aborted(500)
  {
  }

  // ---------------------------------------------------------------------
  // Finding the rendered file

  /** A file seen by the walk, with the modification time `getmtime` gives. */
  datatype FileEntry = FileEntry(name: string, mtime: real)

  /** One `(root, dirs, files)` triple of `os.walk`. */
  datatype WalkStep = WalkStep(root: string, files: seq<FileEntry>)

  /** A candidate as the source appends it, `(mtime, path)`, with the file
      name it was built from. */
  datatype Candidate = Candidate(mtime: real, path: string, name: string)

  /** A file qualifies when its name contains the scene name and its
      extension is in the whitelist. */
  predicate Qualifies(name: string, scene: string, whitelist: set<string>) {
    Contains(name, scene) && FileExt(name) in whitelist
  }

  /** The filter `find_latest_render` applies to file names. */
  function Wanted(scene: string, whitelist: set<string>): string -> bool {
    name => Qualifies(name, scene, whitelist)
  }

  /** The candidate file `f` of directory `root` yields when `keep` selects it. */
  predicate Yields(root: string, f: FileEntry, keep: string -> bool, c: Candidate) {
    keep(f.name) && c == Candidate(f.mtime, JoinPath(root, f.name), f.name)
  }

  /** What one file adds to the candidates: itself, if it is selected. */
  function FileCandidates(root: string, f: FileEntry, keep: string -> bool): seq<Candidate> {
    if keep(f.name) then [Candidate(f.mtime, JoinPath(root, f.name), f.name)] else []
  }

  /** The candidates of one directory, in the order `os.walk` lists its files. */
  function DirCandidates(root: string, files: seq<FileEntry>, keep: string -> bool): seq<Candidate> {
    if files == [] then []
    else DirCandidates(root, files[..|files| - 1], keep) + FileCandidates(root, files[|files| - 1], keep)
  }

  /** The candidates the walk collects, in walk order. */
  function WalkCandidates(walk: seq<WalkStep>, keep: string -> bool): seq<Candidate> {
    if walk == [] then []
    else
      var d := walk[|walk| - 1];
      WalkCandidates(walk[..|walk| - 1], keep) + DirCandidates(d.root, d.files, keep)
  }

  /** Collecting one more file of a directory. */
  lemma DirCandidatesStep(root: string, files: seq<FileEntry>, k: nat, keep: string -> bool)
    requires k < |files|
    ensures DirCandidates(root, files[..k + 1], keep) == DirCandidates(root, files[..k], keep) + FileCandidates(root, files[k], keep)
  {
    assert files[..k + 1][..k] == files[..k];
  }

  /** Collecting one more directory of the walk. */
  lemma WalkCandidatesStep(walk: seq<WalkStep>, d: nat, keep: string -> bool)
    requires d < |walk|
    ensures WalkCandidates(walk[..d + 1], keep) == WalkCandidates(walk[..d], keep) + DirCandidates(walk[d].root, walk[d].files, keep)
  {
    assert walk[..d + 1][..d] == walk[..d];
  }

  /** The filter, spelled out. */
  lemma WantedFile(root: string, f: FileEntry, scene: string, whitelist: set<string>)
    ensures FileCandidates(root, f, Wanted(scene, whitelist)) ==
      if Contains(f.name, scene) && FileExt(f.name) in whitelist then [Candidate(f.mtime, JoinPath(root, f.name), f.name)] else []
  {
  }

  /** The tuple order `(mtime, path)`: modification time first, then path. */
  predicate Before(a: Candidate, b: Candidate) {
    a.mtime < b.mtime || (a.mtime == b.mtime && StrLess(a.path, b.path))
  }

  predicate NotAfter(a: Candidate, b: Candidate) {
    Before(a, b) || (a.mtime == b.mtime && a.path == b.path)
  }

  lemma BeforeTransitive(a: Candidate, b: Candidate, c: Candidate)
    requires NotAfter(a, b) && Before(b, c)
    ensures NotAfter(a, c)
  {
    if a.mtime == b.mtime && b.mtime == c.mtime && StrLess(a.path, b.path) {
      StrLessTransitive(a.path, b.path, c.path);
    }
  }

  lemma BeforeTotal(a: Candidate, b: Candidate)
    requires !Before(a, b)
    ensures NotAfter(b, a)
  {
    if a.mtime == b.mtime && a.path != b.path {
      StrLessTotal(a.path, b.path);
    }
  }

  /** A candidate of a directory is exactly one of its files that is
      selected, with its joined path and its modification time. */
  lemma {:induction false} DirCandidatesAre(root: string, files: seq<FileEntry>, keep: string -> bool, c: Candidate)
    ensures c in DirCandidates(root, files, keep) <==> exists k :: 0 <= k < |files| && Yields(root, files[k], keep, c)
  {
    if files != [] {
      var n := |files|;
      var init, f := files[..n - 1], files[n - 1];
      DirCandidatesAre(root, init, keep, c);
      assert c in FileCandidates(root, f, keep) <==> Yields(root, f, keep, c);
      if c in DirCandidates(root, init, keep) {
        var k :| 0 <= k < |init| && Yields(root, init[k], keep, c);
        assert files[k] == init[k];
      }
      if k :| 0 <= k < n && Yields(root, files[k], keep, c) {
        if k < n - 1 {
          assert init[k] == files[k];
        }
      }
    }
  }

  /** A candidate of the walk is a candidate of one of its directories. */
  lemma {:induction false} WalkCandidatesAre(walk: seq<WalkStep>, keep: string -> bool, c: Candidate)
    ensures c in WalkCandidates(walk, keep) <==> exists d :: 0 <= d < |walk| && c in DirCandidates(walk[d].root, walk[d].files, keep)
  {
    if walk != [] {
      var n := |walk|;
      var init, last := walk[..n - 1], walk[n - 1];
      WalkCandidatesAre(init, keep, c);
      assert WalkCandidates(walk, keep) == WalkCandidates(init, keep) + DirCandidates(last.root, last.files, keep);
      if c in WalkCandidates(init, keep) {
        var d :| 0 <= d < |init| && c in DirCandidates(init[d].root, init[d].files, keep);
        assert walk[d] == init[d];
      }
      if d :| 0 <= d < n && c in DirCandidates(walk[d].root, walk[d].files, keep) {
        if d < n - 1 {
          assert init[d] == walk[d];
        }
      }
    }
  }

  /** Every candidate of the walk is a walked file that is selected, found
      under its directory's root. */
  lemma CandidateOrigin(walk: seq<WalkStep>, keep: string -> bool, c: Candidate)
    requires c in WalkCandidates(walk, keep)
    ensures keep(c.name)
    ensures exists d, k ::
      0 <= d < |walk| && 0 <= k < |walk[d].files| && walk[d].files[k].name == c.name
      && walk[d].files[k].mtime == c.mtime && c.path == JoinPath(walk[d].root, c.name)
  {
    WalkCandidatesAre(walk, keep, c);
    var d :| 0 <= d < |walk| && c in DirCandidates(walk[d].root, walk[d].files, keep);
    DirCandidatesAre(walk[d].root, walk[d].files, keep, c);
    var k :| 0 <= k < |walk[d].files| && Yields(walk[d].root, walk[d].files[k], keep, c);
  }

  /** Every walked file that is selected is a candidate. */
  lemma SelectedFileIsCandidate(walk: seq<WalkStep>, keep: string -> bool, d: nat, k: nat)
    requires d < |walk| && k < |walk[d].files| && keep(walk[d].files[k].name)
    ensures Candidate(walk[d].files[k].mtime, JoinPath(walk[d].root, walk[d].files[k].name), walk[d].files[k].name)
      in WalkCandidates(walk, keep)
  {
    var f := walk[d].files[k];
    var c := Candidate(f.mtime, JoinPath(walk[d].root, f.name), f.name);
    assert Yields(walk[d].root, f, keep, c);
    DirCandidatesAre(walk[d].root, walk[d].files, keep, c);
    WalkCandidatesAre(walk, keep, c);
  }

  /** A larger whitelist keeps every candidate. */
  lemma CandidatesGrow(walk: seq<WalkStep>, scene: string, small: set<string>, large: set<string>, c: Candidate)
    requires small <= large
    requires c in WalkCandidates(walk, Wanted(scene, small))
    ensures c in WalkCandidates(walk, Wanted(scene, large))
  {
    WalkCandidatesAre(walk, Wanted(scene, small), c);
    var d :| 0 <= d < |walk| && c in DirCandidates(walk[d].root, walk[d].files, Wanted(scene, small));
    DirCandidatesAre(walk[d].root, walk[d].files, Wanted(scene, small), c);
    var k :| 0 <= k < |walk[d].files| && Yields(walk[d].root, walk[d].files[k], Wanted(scene, small), c);
    SelectedFileIsCandidate(walk, Wanted(scene, large), d, k);
  }

  /** The newest candidate: one with the greatest `(mtime, path)`. */
  predicate IsNewest(c: Candidate, candidates: seq<Candidate>) {
    c in candidates && forall other :: other in candidates ==> NotAfter(other, c)
  }

  /** The body of the inner loop of `find_latest_render`: the file is kept
      when its name contains the scene and its extension is wanted. */
  method CollectFile(root: string, f: FileEntry, scene: string, whitelist: set<string>) returns (found: seq<Candidate>)
    ensures found == FileCandidates(root, f, Wanted(scene, whitelist))
  {
    WantedFile(root, f, scene, whitelist);
    found := [];
    if Contains(f.name, scene) {
      var path := JoinPath(root, f.name);
      if FileExt(f.name) in whitelist {
        found := [Candidate(f.mtime, path, f.name)];
      }
    }
  }

  /** The nested loops of `find_latest_render` over the walk. */
  method CollectCandidates(walk: seq<WalkStep>, scene: string, whitelist: set<string>) returns (candidates: seq<Candidate>)
    ensures candidates == WalkCandidates(walk, Wanted(scene, whitelist))
  {
    ghost var keep := Wanted(scene, whitelist);
    candidates := [];
    var d := 0;
    while d < |walk|
      invariant 0 <= d <= |walk|
      invariant candidates == WalkCandidates(walk[..d], keep)
    {
      var root, files := walk[d].root, walk[d].files;
      ghost var before := candidates;
      var k := 0;
      while k < |files|
        invariant 0 <= k <= |files|
        invariant candidates == before + DirCandidates(root, files[..k], keep)
      {
        var found := CollectFile(root, files[k], scene, whitelist);
        DirCandidatesStep(root, files, k, keep);
        candidates := candidates + found;
        k := k + 1;
      }
      assert files[..k] == files;
      assert candidates == before + DirCandidates(root, files, keep);
      WalkCandidatesStep(walk, d, keep);
      d := d + 1;
    }
    assert walk[..d] == walk;
  }

  /** `candidates.sort(reverse=True)` followed by `candidates[0]`: the
      greatest candidate in the `(mtime, path)` order. */
  method Newest(candidates: seq<Candidate>) returns (best: Candidate)
    requires candidates != []
    ensures IsNewest(best, candidates)
  {
    best := candidates[0];
    var i := 1;
    while i < |candidates|
      invariant 1 <= i <= |candidates|
      invariant best in candidates
      invariant forall j :: 0 <= j < i ==> NotAfter(candidates[j], best)
    {
      if Before(best, candidates[i]) {
        forall j | 0 <= j < i ensures NotAfter(candidates[j], candidates[i]) {
          BeforeTransitive(candidates[j], best, candidates[i]);
        }
        best := candidates[i];
      } else {
        BeforeTotal(best, candidates[i]);
      }
      i := i + 1;
    }
    forall other | other in candidates ensures NotAfter(other, best) {
      var j :| 0 <= j < |candidates| && candidates[j] == other;
    }
  }

  /** `find_latest_render`: `media` is the walk of the media directory, or
      `None` when that directory does not exist. */
  method FindLatestRender(media: Option<seq<WalkStep>>, scene: string, whitelist: set<string>) returns (latest: Option<string>)
    ensures media.None? ==> latest.None?
    ensures media.Some? ==> (latest.None? <==> WalkCandidates(media.value, Wanted(scene, whitelist)) == [])
    ensures latest.Some? ==>
      media.Some? && exists c :: IsNewest(c, WalkCandidates(media.value, Wanted(scene, whitelist))) && c.path == latest.value
  {
    if media.None? {
      return None;
    }
    var candidates := CollectCandidates(media.value, scene, whitelist);
    if candidates == [] {
      return None;
    }
    var best := Newest(candidates);
    return Some(best.path);
  }

  // ---------------------------------------------------------------------
  // After manim has run

  /** The reply of `render` once manim has run (the file's base64 contents
      are left out: the reply names the path whose bytes it carries). */
  datatype RenderReply =
    | Failure(status: nat, error: string)
    | Success(filename: string, path: string)

  /** `os.walk` never yields a file name that is empty or holds a `/`. */
  predicate WellFormedWalk(walk: seq<WalkStep>) {
    forall d, k :: 0 <= d < |walk| && 0 <= k < |walk[d].files| ==>
      walk[d].files[k].name != "" && '/' !in walk[d].files[k].name
  }

  lemma {:induction false} ContainsNonEmpty(s: string, sub: string)
    requires sub != [] && Contains(s, sub)
    ensures s != []
  {
  }

  /** A candidate of a search for `scene` has a non-empty path when the
      scene is not empty, and, in a well-formed walk, is named by the
      basename of its path, a name that passed the filter. */
  lemma ReturnedCandidate(walk: seq<WalkStep>, scene: string, whitelist: set<string>, c: Candidate)
    requires c in WalkCandidates(walk, Wanted(scene, whitelist))
    ensures scene != "" ==> c.path != ""
    ensures WellFormedWalk(walk) ==>
      Basename(c.path) == c.name && Contains(c.name, scene) && FileExt(c.name) in whitelist
  {
    CandidateOrigin(walk, Wanted(scene, whitelist), c);
    assert Qualifies(c.name, scene, whitelist);
    var d, k :| 0 <= d < |walk| && 0 <= k < |walk[d].files| && walk[d].files[k].name == c.name
      && walk[d].files[k].mtime == c.mtime && c.path == JoinPath(walk[d].root, c.name);
    if scene != "" {
      ContainsNonEmpty(c.name, scene);
      JoinPathLength(walk[d].root, c.name);
    }
    if WellFormedWalk(walk) {
      CandidateNamed(walk, d, k, c);
    }
  }

  /** A file of a well-formed walk is named by the basename of its path. */
  lemma CandidateNamed(walk: seq<WalkStep>, d: nat, k: nat, c: Candidate)
    requires WellFormedWalk(walk)
    requires d < |walk| && k < |walk[d].files| && walk[d].files[k].name == c.name
    requires c.path == JoinPath(walk[d].root, c.name)
    ensures Basename(c.path) == c.name
  {
    assert '/' !in walk[d].files[k].name;
    BasenameOfJoin(walk[d].root, c.name);
  }

  /** `render` from the manim exit code on: the newest file for the
      requested format, or else the newest of any accepted format. */
  method Respond(scene: string, format: string, returncode: int, media: Option<seq<WalkStep>>) returns (reply: RenderReply)
    requires format in FormatMap
    ensures returncode != 0 ==> reply == Failure(500, "manim failed")
    ensures returncode == 0 && (media.None? || WalkCandidates(media.value, Wanted(scene, AllExtensions)) == []) ==>
      reply == Failure(500, "rendered file not found")
    ensures returncode == 0 && scene != "" && media.Some? && WalkCandidates(media.value, Wanted(scene, FormatMap[format])) != [] ==>
      reply.Success? && exists c :: IsNewest(c, WalkCandidates(media.value, Wanted(scene, FormatMap[format]))) && c.path == reply.path
    ensures (returncode == 0 && scene != "" && media.Some? && WalkCandidates(media.value, Wanted(scene, FormatMap[format])) == [] &&
             WalkCandidates(media.value, Wanted(scene, AllExtensions)) != []) ==>
      reply.Success? && exists c :: IsNewest(c, WalkCandidates(media.value, Wanted(scene, AllExtensions))) && c.path == reply.path
    ensures reply.Success? ==>
      media.Some? && exists c :: c in WalkCandidates(media.value, Wanted(scene, AllExtensions)) && c.path == reply.path && reply.filename == Basename(c.path)
    ensures reply.Success? && WellFormedWalk(media.value) ==>
      Contains(reply.filename, scene) && FileExt(reply.filename) in AllExtensions
  {
    if returncode != 0 {
      return Failure(500, "manim failed");
    }
    AllExtensionsIsUnion();
    var outPath := FindLatestRender(media, scene, FormatMap[format]);
    if outPath.Some? && outPath.value != "" {
      var c :| IsNewest(c, WalkCandidates(media.value, Wanted(scene, FormatMap[format]))) && c.path == outPath.value;
      CandidatesGrow(media.value, scene, FormatMap[format], AllExtensions, c);
    } else {
      if outPath.Some? && scene != "" {
        var c :| IsNewest(c, WalkCandidates(media.value, Wanted(scene, FormatMap[format]))) && c.path == outPath.value;
        ReturnedCandidate(media.value, scene, FormatMap[format], c);
      }
      outPath := FindLatestRender(media, scene, AllExtensions);
      if outPath.Some? && scene != "" {
        var c :| IsNewest(c, WalkCandidates(media.value, Wanted(scene, AllExtensions))) && c.path == outPath.value;
        ReturnedCandidate(media.value, scene, AllExtensions, c);
      }
      if outPath.None? || outPath.value == "" {
        return Failure(500, "rendered file not found");
      }
    }
    var c :| c in WalkCandidates(media.value, Wanted(scene, AllExtensions)) && c.path == outPath.value;
    reply := Success(Basename(outPath.value), outPath.value);
    ReturnedCandidate(media.value, scene, AllExtensions, c);
  }
}
