/**
 * The server's shared state (`AppState`): the repository's files and the
 * review checklist, with the handlers that read and update them.
 */
module Server {
  import opened Wrappers
  import opened FileStore
  import opened Checklist

  class AppState {
    /** The canonical repository root every request path is joined to. */
    const repoRoot: string
    /** The path check the handlers apply: `safe_path` as written, or the confined one. */
    const check: PathCheck
    /** `generate_etag`: the hex digest of a byte string. */
    const hash: Bytes -> Etag
    /** The files under the repository, by full path. */
    var files: Files
    /** The review checklist, by request path. */
    var checklist: ChecklistMap

    constructor (repoRoot: string, check: PathCheck, hash: Bytes -> Etag, files: Files, checklist: ChecklistMap)
      ensures this.repoRoot == repoRoot && this.check == check && this.hash == hash
      ensures this.files == files && this.checklist == checklist
    {
      this.repoRoot := repoRoot;
      this.check := check;
      this.hash := hash;
      this.files := files;
      this.checklist := checklist;
    }

    /** GET /api/file: reads change nothing. */
    method GetFile(path: string) returns (r: Result<FileResponse, StatusCode>)
      ensures r == GetFileResponse(files, hash, check, repoRoot, path)
      ensures r.Success? ==> r.value.etag == hash(r.value.content)
    {
      var full := Resolve(check, repoRoot, path);
      if full.None? {
        return Failure(BadRequest);
      }
      var p := full.value;
      if p !in files {
        return Failure(NotFound);
      }
      var bytes := files[p];
      if IsBinary(bytes) {
        return Failure(UnsupportedMediaType);
      }
      r := Success(FileResponse(bytes, hash(bytes)));
    }

    /** POST /api/file: optimistic-concurrency save. */
    method SaveFile(req: SaveRequest) returns (r: SaveResponse)
      modifies this`files
      ensures SaveOutcome(r, files) == SaveFileResponse(old(files), hash, check, repoRoot, req)
      ensures r.Conflict? || r.InvalidPath? ==> files == old(files)
      ensures r.Saved? ==> !Stale(files, hash, Resolve(check, repoRoot, req.path).value, r.newEtag)
    {
      var full := Resolve(check, repoRoot, req.path);
      if full.None? {
        return InvalidPath;
      }
      var p := full.value;
      if p in files {
        var currentEtag := hash(files[p]);
        if currentEtag != req.etag {
          return Conflict;
        }
      }
      files := files[p := req.content];
      r := Saved(hash(req.content));
    }

    /** GET /api/checklist: a copy of the whole checklist. */
    method GetChecklist() returns (m: ChecklistMap)
      ensures m == checklist
    {
      m := checklist;
    }

    /** PATCH /api/checklist: upsert of one item, stamped with `now`. */
    method PatchChecklist(req: Checklist.PatchChecklist, now: u64)
      modifies this`checklist
      ensures checklist == ApplyPatch(old(checklist), req, now)
      ensures req.path in checklist && checklist[req.path].updatedTs == now
      ensures forall k :: k in old(checklist) && k != req.path ==> k in checklist && checklist[k] == old(checklist)[k]
    {
      var item := if req.path in checklist then checklist[req.path] else DefaultItem(now);
      if req.status.Some? {
        item := item.(status := req.status.value);
      }
      if req.note.Some? {
        item := item.(note := req.note.value);
      }
      item := item.(updatedTs := now);
      checklist := checklist[req.path := item];
    }
  }
}
