/**
 * The repository as the server's file handlers see it: a map from paths to
 * the bytes stored there, the path check, the binary sniffing, and the
 * optimistic-concurrency read and save transitions (`get_file`, `save_file`).
 */
module FileStore {
  import opened Wrappers
  import opened Text

  newtype byte = x: int | 0 <= x < 256

  type Bytes = seq<byte>

  /** An entity tag: the hex digest of a file's bytes, or whatever a client sends back. */
  type Etag = string

  /** The repository's files, by full path. */
  type Files = map<string, Bytes>

  /** How many leading bytes `is_binary` inspects. */
  const SniffLength: nat := 8192

  // ---------------------------------------------------------------------
  // is_binary
  // ---------------------------------------------------------------------

  function HasZero(s: Bytes): (b: bool)
    ensures b <==> exists i :: 0 <= i < |s| && s[i] == 0
  {
    if s == [] then false
    else if s[0] == 0 then true
    else
      assert forall i :: 1 <= i < |s| ==> s[1..][i - 1] == s[i];
      HasZero(s[1..])
  }

  /** A file is binary when one of its first `SniffLength` bytes is zero. */
  function IsBinary(data: Bytes): (b: bool)
    ensures b <==> exists i :: 0 <= i < |data| && i < SniffLength && data[i] == 0
  {
    var sniffed := data[..if |data| < SniffLength then |data| else SniffLength];
    assert forall i :: 0 <= i < |sniffed| ==> sniffed[i] == data[i];
    HasZero(sniffed)
  }

  // ---------------------------------------------------------------------
  // Paths
  // ---------------------------------------------------------------------

  predicate IsAbsolute(path: string) {
    |path| > 0 && path[0] == '/'
  }

  /** What `Path::join` puts before a relative path: `root`, with a separator added if it lacks one. */
  function DirPrefix(root: string): (d: string)
    ensures IsPrefix(root, d)
    ensures |d| == |root| + (if root != [] && root[|root| - 1] != '/' then 1 else 0)
    ensures root != [] ==> d[|d| - 1] == '/'
  {
    if root == [] || root[|root| - 1] == '/' then root else root + "/"
  }

  /** `Path::join` on Unix: an absolute `rel` replaces `root`. */
  function Join(root: string, rel: string): (p: string)
    ensures EndsWith(p, rel)
    ensures IsAbsolute(rel) ==> p == rel
    ensures !IsAbsolute(rel) ==> p == DirPrefix(root) + rel
  {
    if IsAbsolute(rel) then rel else DirPrefix(root) + rel
  }

  /** `rel` holds two consecutive dots somewhere. */
  predicate HasDotDot(rel: string) {
    exists i :: 0 <= i < |rel| - 1 && rel[i] == '.' && rel[i + 1] == '.'
  }

  lemma ContainsDotDot(rel: string)
    ensures Contains(rel, "..") <==> HasDotDot(rel)
  {
    if Contains(rel, "..") {
      var k := Find(rel, "..").value;
      assert rel[k..k + 2] == "..";
      assert rel[k] == rel[k..k + 2][0] && rel[k + 1] == rel[k..k + 2][1];
    }
    if HasDotDot(rel) {
      var i :| 0 <= i < |rel| - 1 && rel[i] == '.' && rel[i + 1] == '.';
      assert rel[i..i + 2] == "..";
      assert OccursAt(rel, "..", i);
    }
  }

  /**
   * `safe_path` as written: refuses any `rel` containing "..", and otherwise
   * joins it to `root`.
   */
  function SafePath(root: string, rel: string): (r: Option<string>)
    ensures r.None? <==> HasDotDot(rel)
    ensures r.Some? ==> r.value == Join(root, rel)
  {
    ContainsDotDot(rel);
    if Contains(rel, "..") then None else Some(Join(root, rel))
  }

  /**
   * As written, `safe_path` lets an absolute path through, and `Path::join`
   * then discards the root: the result lies outside the repository.
   */
  lemma SafePathAdmitsAbsolute()
    ensures SafePath("/repo", "/etc/passwd") == Some("/etc/passwd")
    ensures !IsPrefix("/repo", "/etc/passwd")
  {
    var rel := "/etc/passwd";
    assert !HasDotDot(rel) by {
      forall i | 0 <= i < |rel| - 1 ensures !(rel[i] == '.' && rel[i + 1] == '.') {}
    }
    assert "/etc/passwd"[1] != "/repo"[1];
  }

  /**
   * The path check the repository evidently intends: besides "..", an
   * absolute path is refused too, so every accepted path lies under `root`.
   */
  function ConfinedPath(root: string, rel: string): (r: Option<string>)
    ensures r.None? <==> HasDotDot(rel) || IsAbsolute(rel)
    ensures r.Some? ==> r.value == DirPrefix(root) + rel
    ensures r.Some? ==> IsPrefix(root, r.value) && EndsWith(r.value, rel)
  {
    ContainsDotDot(rel);
    if Contains(rel, "..") || IsAbsolute(rel) then None else Some(Join(root, rel))
  }

  /** Where both checks accept a path they agree on it. */
  lemma ConfinedPathRefinesSafePath(root: string, rel: string)
    ensures ConfinedPath(root, rel).Some? ==> SafePath(root, rel) == ConfinedPath(root, rel)
    ensures SafePath(root, rel).Some? && ConfinedPath(root, rel).None? ==> IsAbsolute(rel)
  {
  }

  /** Which path check the handlers use: `safe_path` as written, or the corrected one. */
  datatype PathCheck = AsWritten | Confined

  /** The full path a handler works on, or None when the check refuses `rel`. */
  function Resolve(check: PathCheck, root: string, rel: string): (r: Option<string>)
    ensures r.None? <==> HasDotDot(rel) || (check.Confined? && IsAbsolute(rel))
    ensures r.Some? ==> r.value == Join(root, rel)
  {
    match check
    case AsWritten => SafePath(root, rel)
    case Confined => ConfinedPath(root, rel)
  }

  // ---------------------------------------------------------------------
  // get_file
  // ---------------------------------------------------------------------

  /** The HTTP errors of the file handlers. */
  datatype StatusCode = BadRequest | NotFound | UnsupportedMediaType {
    function Code(): (n: nat)
      ensures 400 <= n < 500
    {
      match this
      case BadRequest => 400
      case NotFound => 404
      case UnsupportedMediaType => 415
    }
  }

  datatype FileResponse = FileResponse(content: Bytes, etag: Etag)

  /**
   * `get_file`: an invalid path is refused first, then a missing file, then a
   * binary one; otherwise the stored bytes come back with their hash as etag.
   */
  function GetFileResponse(files: Files, hash: Bytes -> Etag, check: PathCheck, root: string, rel: string)
    : (r: Result<FileResponse, StatusCode>)
    ensures Resolve(check, root, rel).None? ==> r == Failure(BadRequest)
    ensures Resolve(check, root, rel).Some? ==>
      var p := Resolve(check, root, rel).value;
      && (p !in files ==> r == Failure(NotFound))
      && (p in files && IsBinary(files[p]) ==> r == Failure(UnsupportedMediaType))
      && (r.Success? <==> p in files && !IsBinary(files[p]))
      && (r.Success? ==> r.value.content == files[p] && r.value.etag == hash(files[p]))
  {
    match Resolve(check, root, rel)
    case None => Failure(BadRequest)
    case Some(p) =>
      if p !in files then Failure(NotFound)
      else if IsBinary(files[p]) then Failure(UnsupportedMediaType)
      else Success(FileResponse(files[p], hash(files[p])))
  }

  // ---------------------------------------------------------------------
  // save_file
  // ---------------------------------------------------------------------

  datatype SaveRequest = SaveRequest(path: string, content: Bytes, etag: Etag)

  /** The three answers of `save_file`: refused path (400), conflict, or saved with a new etag. */
  datatype SaveResponse = InvalidPath | Conflict | Saved(newEtag: Etag)

  datatype SaveOutcome = SaveOutcome(response: SaveResponse, files: Files)

  /** A save to `p` with `etag` must be refused: the stored bytes there hash to something else. */
  predicate Stale(files: Files, hash: Bytes -> Etag, p: string, etag: Etag) {
    p in files && hash(files[p]) != etag
  }

  /**
   * `save_file`: a stale etag on an existing file is a conflict and changes
   * nothing; a missing file is written without any etag check; a saved file
   * holds exactly the request's bytes and every other file is untouched.
   */
  function SaveFileResponse(files: Files, hash: Bytes -> Etag, check: PathCheck, root: string, req: SaveRequest)
    : (r: SaveOutcome)
    ensures r.response.InvalidPath? <==> Resolve(check, root, req.path).None?
    ensures !r.response.Saved? ==> r.files == files
    ensures Resolve(check, root, req.path).Some? ==>
      var p := Resolve(check, root, req.path).value;
      && (r.response.Conflict? <==> Stale(files, hash, p, req.etag))
      && (p !in files ==> r.response.Saved?)
      && (r.response.Saved? ==>
            && r.response.newEtag == hash(req.content)
            && r.files.Keys == files.Keys + {p}
            && r.files[p] == req.content
            && (forall q :: q in files && q != p ==> r.files[q] == files[q]))
  {
    match Resolve(check, root, req.path)
    case None => SaveOutcome(InvalidPath, files)
    case Some(p) =>
      if Stale(files, hash, p, req.etag) then SaveOutcome(Conflict, files)
      else SaveOutcome(Saved(hash(req.content)), files[p := req.content])
  }

  // ---------------------------------------------------------------------
  // How reads and saves combine
  // ---------------------------------------------------------------------

  /** After a save, reading the file returns the saved bytes under the new etag. */
  lemma SaveThenGet(files: Files, hash: Bytes -> Etag, check: PathCheck, root: string, req: SaveRequest)
    requires SaveFileResponse(files, hash, check, root, req).response.Saved?
    ensures var out := SaveFileResponse(files, hash, check, root, req);
      GetFileResponse(out.files, hash, check, root, req.path)
        == if IsBinary(req.content) then Failure(UnsupportedMediaType)
           else Success(FileResponse(req.content, out.response.newEtag))
  {
  }

  /** The etag a save returns is accepted by the next save of the same path. */
  lemma ResaveAccepted(files: Files, hash: Bytes -> Etag, check: PathCheck, root: string, req: SaveRequest, next: Bytes)
    requires SaveFileResponse(files, hash, check, root, req).response.Saved?
    ensures var out := SaveFileResponse(files, hash, check, root, req);
      SaveFileResponse(out.files, hash, check, root, SaveRequest(req.path, next, out.response.newEtag)).response.Saved?
  {
  }

  /** The etag a read returns is accepted by a save of the same path. */
  lemma GetThenSaveAccepted(files: Files, hash: Bytes -> Etag, check: PathCheck, root: string, rel: string, content: Bytes)
    requires GetFileResponse(files, hash, check, root, rel).Success?
    ensures var got := GetFileResponse(files, hash, check, root, rel).value;
      SaveFileResponse(files, hash, check, root, SaveRequest(rel, content, got.etag)).response == Saved(hash(content))
  {
  }

  /** Reading a file and saving it back unedited changes neither the store nor the etag. */
  lemma UneditedSaveIsNoOp(files: Files, hash: Bytes -> Etag, check: PathCheck, root: string, rel: string)
    requires GetFileResponse(files, hash, check, root, rel).Success?
    ensures var got := GetFileResponse(files, hash, check, root, rel).value;
      SaveFileResponse(files, hash, check, root, SaveRequest(rel, got.content, got.etag))
        == SaveOutcome(Saved(got.etag), files)
  {
    var p := Resolve(check, root, rel).value;
    assert files[p := files[p]] == files;
  }

  /**
   * If someone else saves different bytes between a client's read and its
   * save, and those bytes hash differently, the client's save is refused and
   * the other writer's bytes stay in place.
   */
  lemma InterveningSaveConflicts(files: Files, hash: Bytes -> Etag, check: PathCheck, root: string, rel: string,
                                 theirs: Bytes, mine: Bytes)
    requires GetFileResponse(files, hash, check, root, rel).Success?
    requires hash(theirs) != GetFileResponse(files, hash, check, root, rel).value.etag
    ensures var got := GetFileResponse(files, hash, check, root, rel).value;
      var other := SaveFileResponse(files, hash, check, root, SaveRequest(rel, theirs, got.etag));
      && other.response.Saved?
      && SaveFileResponse(other.files, hash, check, root, SaveRequest(rel, mine, got.etag))
           == SaveOutcome(Conflict, other.files)
  {
  }

  // ---------------------------------------------------------------------
  // The two path checks at the handlers
  // ---------------------------------------------------------------------

  /**
   * As written, both handlers reach a file outside the repository through an
   * absolute path: `get_file` returns its bytes and `save_file` overwrites it,
   * where the confined check refuses both requests.
   */
  lemma AsWrittenHandlersReachOutside(files: Files, hash: Bytes -> Etag, content: Bytes)
    requires "/etc/passwd" in files && !IsBinary(files["/etc/passwd"])
    ensures !IsPrefix("/repo", "/etc/passwd")
    ensures GetFileResponse(files, hash, AsWritten, "/repo", "/etc/passwd")
      == Success(FileResponse(files["/etc/passwd"], hash(files["/etc/passwd"])))
    ensures GetFileResponse(files, hash, Confined, "/repo", "/etc/passwd") == Failure(BadRequest)
    ensures var req := SaveRequest("/etc/passwd", content, hash(files["/etc/passwd"]));
      SaveFileResponse(files, hash, AsWritten, "/repo", req)
        == SaveOutcome(Saved(hash(content)), files["/etc/passwd" := content])
    ensures var req := SaveRequest("/etc/passwd", content, hash(files["/etc/passwd"]));
      SaveFileResponse(files, hash, Confined, "/repo", req) == SaveOutcome(InvalidPath, files)
  {
    SafePathAdmitsAbsolute();
  }

  /**
   * The two checks differ only on absolute paths: on a relative path both
   * handlers answer alike, and on an absolute one the confined check refuses
   * the request while the store stays as it was.
   */
  lemma ChecksDifferOnlyOnAbsolute(files: Files, hash: Bytes -> Etag, root: string, rel: string, req: SaveRequest)
    ensures !IsAbsolute(rel) ==>
      GetFileResponse(files, hash, AsWritten, root, rel) == GetFileResponse(files, hash, Confined, root, rel)
    ensures !IsAbsolute(req.path) ==>
      SaveFileResponse(files, hash, AsWritten, root, req) == SaveFileResponse(files, hash, Confined, root, req)
    ensures IsAbsolute(rel) ==> GetFileResponse(files, hash, Confined, root, rel) == Failure(BadRequest)
    ensures IsAbsolute(req.path) ==> SaveFileResponse(files, hash, Confined, root, req) == SaveOutcome(InvalidPath, files)
  {
  }
}
