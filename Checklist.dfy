/**
 * The review checklist: one item per path, with a status, a note and the
 * time it was last touched, and the upsert `patch_checklist` performs.
 */
module Checklist {
  import opened Wrappers

  /** Seconds since the Unix epoch, as `now()` returns them. */
  newtype u64 = x: int | 0 <= x < 0x1_0000_0000_0000_0000

  datatype ChecklistItem = ChecklistItem(status: string, note: string, updatedTs: u64)

  type ChecklistMap = map<string, ChecklistItem>

  /** A patch request: the path it is about, and the fields to replace. */
  datatype PatchChecklist = PatchChecklist(path: string, status: Option<string>, note: Option<string>)

  /** The item `or_insert` creates for a path that has none. */
  function DefaultItem(now: u64): (item: ChecklistItem)
    ensures item.status == "todo" && item.note == "" && item.updatedTs == now
  {
    ChecklistItem("todo", "", now)
  }

  /**
   * The item a patch leaves behind: each supplied field replaces the old
   * value, an absent one keeps it (or the default for a new item), and the
   * time stamp is always `now`.
   */
  function PatchedItem(prior: Option<ChecklistItem>, req: PatchChecklist, now: u64): (item: ChecklistItem)
    ensures item.updatedTs == now
    ensures req.status.Some? ==> item.status == req.status.value
    ensures req.status.None? ==> item.status == (if prior.Some? then prior.value.status else "todo")
    ensures req.note.Some? ==> item.note == req.note.value
    ensures req.note.None? ==> item.note == (if prior.Some? then prior.value.note else "")
  {
    var base := match prior case Some(it) => it case None => DefaultItem(now);
    var withStatus := match req.status case Some(s) => base.(status := s) case None => base;
    var withNote := match req.note case Some(n) => withStatus.(note := n) case None => withStatus;
    withNote.(updatedTs := now)
  }

  /** `patch_checklist` on the map: only the patched path's entry changes, and it exists afterwards. */
  function ApplyPatch(m: ChecklistMap, req: PatchChecklist, now: u64): (m': ChecklistMap)
    ensures m'.Keys == m.Keys + {req.path}
    ensures forall k :: k in m && k != req.path ==> m'[k] == m[k]
    ensures m'[req.path] == PatchedItem(if req.path in m then Some(m[req.path]) else None, req, now)
  {
    m[req.path := PatchedItem(if req.path in m then Some(m[req.path]) else None, req, now)]
  }

  /** A path without an item gets status "todo" and an empty note unless the patch says otherwise. */
  lemma NewItemDefaults(m: ChecklistMap, req: PatchChecklist, now: u64)
    requires req.path !in m
    ensures var item := ApplyPatch(m, req, now)[req.path];
      && item.status == (if req.status.Some? then req.status.value else "todo")
      && item.note == (if req.note.Some? then req.note.value else "")
      && item.updatedTs == now
  {
  }

  /** Applying the same patch twice at the same time is the same as applying it once. */
  lemma PatchIdempotent(m: ChecklistMap, req: PatchChecklist, now: u64)
    ensures ApplyPatch(ApplyPatch(m, req, now), req, now) == ApplyPatch(m, req, now)
  {
    var once := ApplyPatch(m, req, now);
    var twice := ApplyPatch(once, req, now);
    assert twice[req.path] == once[req.path];
  }

  /** Patching the status and then the note is one patch of both, taken at the later time. */
  lemma StatusThenNote(m: ChecklistMap, path: string, s: string, n: string, t1: u64, t2: u64)
    ensures ApplyPatch(ApplyPatch(m, PatchChecklist(path, Some(s), None), t1), PatchChecklist(path, None, Some(n)), t2)
         == ApplyPatch(m, PatchChecklist(path, Some(s), Some(n)), t2)
  {
    var lhs := ApplyPatch(ApplyPatch(m, PatchChecklist(path, Some(s), None), t1), PatchChecklist(path, None, Some(n)), t2);
    var rhs := ApplyPatch(m, PatchChecklist(path, Some(s), Some(n)), t2);
    assert lhs[path] == rhs[path];
  }

  /** Patches of two different paths do not interfere. */
  lemma DistinctPathsCommute(m: ChecklistMap, a: PatchChecklist, b: PatchChecklist, now: u64)
    requires a.path != b.path
    ensures ApplyPatch(ApplyPatch(m, a, now), b, now) == ApplyPatch(ApplyPatch(m, b, now), a, now)
  {
    var ab := ApplyPatch(ApplyPatch(m, a, now), b, now);
    var ba := ApplyPatch(ApplyPatch(m, b, now), a, now);
    assert ab[a.path] == ba[a.path] && ab[b.path] == ba[b.path];
  }
}
