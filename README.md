# Review server core, in Dafny

This project models the core of the review server in `server/src/main.rs`, a
small axum application, and proves properties of that model. The server
offers four services over a repository directory:

- literal code search (`perform_search`), which scans file names and file
  lines with ASCII case folding, a glob suffix filter, a set of ignored directories
  and a cap of 2000 results;
- file reads (`get_file`), which refuse a path containing "..", a missing
  file or a binary file, and return the content with an entity tag (the
  BLAKE3 hex digest of the bytes);
- file saves (`save_file`), with optimistic concurrency: a save whose etag no longer
  matches the stored bytes is a conflict;
- a review checklist (`patch_checklist`, `get_checklist`), an upsert of
  status/note items stamped with the current time.

Modules:

- `Wrappers`: `Option` and `Result`.
- `Text`: the Rust string operations the server uses, on `string`:
  - `to_ascii_lowercase`;
  - `find`/`contains`, with UTF-8 byte offsets;
  - `ends_with`;
  - `trim_start_matches` and `trim_matches`/`trim` (Unicode White_Space);
  - `chars().take(n)`;
  - `str::lines`, following the Rust implementation: a final "\n" does not
    start an empty line, and a "\r" is dropped only before a "\n".
- `FileStore`: the repository as a `map<string, seq<byte>>`, the path check,
  `is_binary`, and the read and save handlers as pure transitions
  (`GetFileResponse`, `SaveFileResponse`), with lemmas about how reads and saves combine.
  The handlers take the path check as a parameter `check: PathCheck`:
  `AsWritten` is `safe_path` as the source writes it (`SafePath`), `Confined`
  the corrected check (`ConfinedPath`). Every lemma about the handlers holds
  for both, and two lemmas say where they differ.
- `Checklist`: the checklist map and the upsert `ApplyPatch`.
- `Server`: `class AppState`, whose fields are the repository files and the
  checklist, with one method per handler (`GetFile`, `SaveFile`,
  `GetChecklist`, `PatchChecklist`). Its `ensures` clauses tie each method
  to the pure transitions. The constant field `check` selects the path check;
  with `AsWritten` the class behaves as the source does.
- `Search`: the walk loop of `perform_search`.
  - `SearchAsWritten` (the walk `ScanAsWritten`) is the loop as the source
    writes it: the cap is checked only at the end of a walk step, so a step
    that leaves by `continue` skips the check.
  - `Search` (the walk `Scan`) is the corrected loop, which also checks the
    cap at the start of every step; see "## Findings".
  - The imperative method `PerformSearch`, with a nested line loop
    (`ScanFileLines`) and a method per walk step (`VisitEntry`), implements
    the corrected loop and is proved equal to `Search`.
  - Both functions are proved sound and complete below the cap against
    `AllHits`, the list of every hit without a cap; only `Search` is bounded.

Foreign parts become parameters:

- BLAKE3 (`generate_etag`) is an uninterpreted `hash: Bytes -> Etag`.
- `String::from_utf8_lossy` in the search is an uninterpreted `decode: Bytes -> string`.
- `now()` is a `now: u64` argument.
- The directory walk is the input `entries: seq<Entry>`, in walk order. Each
  entry gives:
  - whether it is a regular file;
  - its full path and the names of that path's components;
  - its path relative to the root;
  - its bytes, or `None` when reading it fails.

Columns are modelled as Rust computes them:

- `str::find` returns a byte offset, so a hit's column is the UTF-8 width of
  the lower-cased line before the match, plus one.
- `LineHitColumn` proves that this is the byte offset in the original line,
  since ASCII lower-casing keeps every character's width.
- It is the character offset plus one when that prefix is ASCII.

An ignored directory is recognised by comparing path components, and this
includes the components of the root itself. A repository checked out under
a directory named `target` therefore yields no search results. The model
computes exactly that.

With `check == AsWritten` the file handlers reach files outside the
repository through an absolute path; with `Confined` they do not; see
"## Findings".

## Model

| member | source | states |
|---|---|---|
| Text.ToAsciiLower | server/src/main.rs:83 | only 'A'..'Z' change, each to the letter 32 code points higher; every other character is kept |
| Text.Lower | server/src/main.rs:106 | the lower-cased string has the same length and is the character-wise ASCII lower-casing |
| Text.FindFrom | server/src/main.rs:136 | the result from `k` is the first occurrence at or after `k`, and None means none at or after `k` |
| Text.Find | server/src/main.rs:136 | `find` succeeds exactly when the needle occurs, returns an occurrence, and no occurrence lies before it |
| Text.Contains | server/src/main.rs:113 | `contains` holds exactly when the needle occurs somewhere in the text |
| Text.EndsWith | server/src/main.rs:101 | `ends_with` holds exactly when the suffix is no longer than the text and matches its last characters one by one |
| Text.IsWhitespace | server/src/main.rs:147 | among ASCII characters, White_Space holds exactly for tab, line feed, vertical tab, form feed, carriage return and space |
| Text.TrimStartMatches | server/src/main.rs:86 | the result is a suffix of the input, everything removed matches the pattern, and the result does not start with a match |
| Text.SkipStart | server/src/main.rs:147 | the first index from `i` whose character does not match the pattern (or the end), with only matching characters before it |
| Text.SkipEnd | server/src/main.rs:147 | the last cut before `j` (not before `lo`) with only matching characters between it and `j` |
| Text.TrimMatches | server/src/main.rs:147 | the result is a slice of the input with only pattern characters around it, and it neither starts nor ends with one |
| Text.Trim | server/src/main.rs:147 | `trim` removes only White_Space characters, from both ends, and leaves no White_Space character at either end |
| Text.Take | server/src/main.rs:147 | `chars().take(n)` is a prefix of length min(n, length) |
| Text.Utf8Len | server/src/main.rs:136 | a character takes 1 to 4 bytes in UTF-8, and 1 exactly when it is ASCII |
| Text.Utf8Width | server/src/main.rs:136 | a string of n characters takes between n and 4n bytes in UTF-8 |
| Text.AsciiWidth | server/src/main.rs:146 | an ASCII string has as many UTF-8 bytes as characters |
| Text.LowerKeepsWidth | server/src/main.rs:136 | ASCII lower-casing keeps the UTF-8 width, so offsets found in the lower-cased line hold in the original |
| Text.IndexOf | server/src/main.rs:132 | the index of the first line feed, or None when there is none |
| Text.StripCr | server/src/main.rs:132 | a string ending with a carriage return loses exactly that one character; any other string is kept |
| Text.Lines | server/src/main.rs:132 | no line produced by `lines` contains a line feed |
| Text.LinesCount | server/src/main.rs:132 | `lines` yields one line per line feed, plus one for an unterminated last line; a final "\n" adds no empty line |
| Text.LinesRoundTrip | server/src/main.rs:132 | without carriage returns, joining the lines with "\n" gives back the text, with a final "\n" added if it had none |
| Text.LinesRoundTripCrLf | server/src/main.rs:132 | when every line feed follows a carriage return, joining the lines with "\r\n" gives back the text, with a final "\r\n" added if it had no final line feed |
| FileStore.HasZero | server/src/main.rs:172 | true exactly when some byte is zero |
| FileStore.IsBinary | server/src/main.rs:171-173 | binary exactly when some byte at an index below min(8192, length) is zero |
| FileStore.DirPrefix | server/src/main.rs:168 | `Path::join` writes the root followed by exactly one separator, added only when the root does not already end with one, in front of a relative path |
| FileStore.Join | server/src/main.rs:168 | `Path::join` ends with `rel`, is `rel` itself when `rel` is absolute, and is root plus separator plus `rel` otherwise |
| FileStore.ContainsDotDot | server/src/main.rs:167 | `rel.contains("..")` holds exactly when two consecutive dots occur in `rel` |
| FileStore.SafePath | server/src/main.rs:166-169 | `safe_path` as written fails exactly for paths containing "..", and otherwise returns `root.join(rel)` |
| FileStore.SafePathAdmitsAbsolute | server/src/main.rs:166-169 | as written, "/etc/passwd" passes the check and resolves outside the root "/repo" |
| FileStore.ConfinedPath | server/src/main.rs:166-169 | the corrected check fails exactly for paths containing ".." or absolute; an accepted path is the root, a separator and `rel`, and so lies under the root |
| FileStore.ConfinedPathRefinesSafePath | server/src/main.rs:166-169 | where the corrected check accepts, it agrees with `safe_path`; it refuses more only for absolute paths |
| FileStore.Resolve | server/src/main.rs:166-169 | the selected check refuses exactly the paths containing "..", and with the corrected check also the absolute ones; an accepted path resolves to `root.join(rel)` |
| FileStore.StatusCode.Code | server/src/main.rs:194-203 | the handlers' errors are client errors: 400, 404, 415 |
| FileStore.GetFileResponse | server/src/main.rs:190-205 | for the selected path check, errors in order: an invalid path gives 400, then a missing file 404, then a binary file 415; success exactly for a stored text file, returning its bytes with etag hash(bytes) |
| FileStore.SaveFileResponse | server/src/main.rs:207-233 | for the selected path check, an invalid path is refused; a conflict exactly when the file exists and its hash differs from the request's etag; a missing file is written with no etag check; a save stores exactly the content, returns hash(content) and changes no other file; a refused save changes nothing |
| FileStore.SaveThenGet | server/src/main.rs:190-233 | after a save, a read returns the saved bytes with the returned etag, or 415 if they are binary |
| FileStore.ResaveAccepted | server/src/main.rs:224-232 | a re-save with the etag a save returned is accepted |
| FileStore.GetThenSaveAccepted | server/src/main.rs:190-233 | a save carrying the etag a read returned is accepted and returns hash(content) |
| FileStore.UneditedSaveIsNoOp | server/src/main.rs:190-233 | saving back what was read, with its etag, leaves the store as it was and keeps the etag |
| FileStore.InterveningSaveConflicts | server/src/main.rs:211-222 | when another writer saves different-hashing bytes after a read, the reader's save conflicts and the other writer's bytes stay |
| FileStore.AsWrittenHandlersReachOutside | server/src/main.rs:190-233 | as written, with root "/repo", `get_file` returns the bytes of the text file "/etc/passwd", which lies outside the root, and `save_file` overwrites it; the corrected check refuses both with 400 and keeps the store |
| FileStore.ChecksDifferOnlyOnAbsolute | server/src/main.rs:190-233 | on a relative path both handlers answer alike under either check; on an absolute path the corrected check gives 400 and changes nothing |
| Checklist.DefaultItem | server/src/main.rs:245-247 | a new item has status "todo", an empty note and the current time |
| Checklist.PatchedItem | server/src/main.rs:245-250 | a supplied status or note replaces the old value, an absent one keeps it (or the default), and the time stamp is `now` |
| Checklist.ApplyPatch | server/src/main.rs:244-250 | after the upsert the patched path exists with the patched item, and every other key keeps its item |
| Checklist.NewItemDefaults | server/src/main.rs:245-249 | an absent key is created with status "todo" and note "" unless the patch supplies them |
| Checklist.PatchIdempotent | server/src/main.rs:244-250 | the same patch twice at the same time is the same as once |
| Checklist.StatusThenNote | server/src/main.rs:248-250 | patching the status and then the note equals one patch of both at the later time |
| Checklist.DistinctPathsCommute | server/src/main.rs:244-250 | patches of different paths commute |
| Server.AppState.constructor | server/src/main.rs:281-283 | the state starts with the given root, path check, files and checklist |
| Server.AppState.GetFile | server/src/main.rs:190-205 | a read returns the pure read transition for the state's path check on the current files and changes nothing; a success carries hash(content) |
| Server.AppState.SaveFile | server/src/main.rs:207-233 | the new files and the response are the pure save transition, for the state's path check, of the old files; a conflict or a refused path leaves the files unchanged; after a save the stored bytes match the new etag |
| Server.AppState.GetChecklist | server/src/main.rs:235-238 | returns the whole checklist |
| Server.AppState.PatchChecklist | server/src/main.rs:240-251 | the checklist becomes the upsert of the old one; the patched path exists with time stamp `now`; every other item is unchanged |
| Search.GlobSuffix | server/src/main.rs:86 | a glob gives a suffix of itself from which only '*'s were removed, and that does not start with '*' |
| Search.FilenameHit | server/src/main.rs:116-123 | a filename hit names the file, is at line 1, column 1, and previews "FILENAME MATCH: " followed by the path |
| Search.LineHit | server/src/main.rs:143-148 | a line hit names the file, is on line `i + 1`, previews the trimmed line, and its column is the UTF-8 byte offset of the match in the original line plus one, so between k + 1 and 4k + 1 |
| Search.Preview | server/src/main.rs:147 | the preview is the first min(200, length) characters of the trimmed line |
| Search.LineHitColumn | server/src/main.rs:136-146 | when the text before the match is ASCII, the column is the character index of the match plus one |
| Search.LineOutcome | server/src/main.rs:133-148 | a line gives a hit exactly when its lower-cased form contains the lower-cased query, located at the first occurrence |
| Search.LineOutcomes | server/src/main.rs:132-148 | one outcome per line, in line order |
| Search.Classify | server/src/main.rs:89-130 | an entry is skipped exactly when it fails a filter; a kept one gives a filename hit exactly when its path matches, and is line-scanned exactly when it is readable and not binary |
| Search.Passes | server/src/main.rs:88 | one classification per walked entry, in walk order |
| Search.ScanLines | server/src/main.rs:132-151 | the line loop adds a prefix of the file's hits, all of them unless the results exceed the cap; when it stops early, it stops right after the first push past the cap (the exact count is `ScanLinesExact`) |
| Search.ScanLinesExact | server/src/main.rs:132-151 | the line loop leaves exactly min(all, stop) results, where all counts the results so far plus the file's hits and stop is 2001, or one more than it started with if it started over the cap: the `break` at line 149 always ends the loop one push past the cap |
| Search.ScanPass | server/src/main.rs:89-152 | one walk step adds a prefix of the entry's hits, all of them unless over the cap; a step that leaves by `continue` adds all of them |
| Search.ScanPassReachesCheck | server/src/main.rs:127-152 | exactly the passes over readable text files get to the cap check at the end of the loop body |
| Search.ScanAsWritten | server/src/main.rs:88-153 | the walk loop as written returns a prefix of all hits, all of them unless over the cap; the cap bounds it when every visited entry is a text file (`AsWrittenBoundedWithoutContinue`) |
| Search.Scan | server/src/main.rs:88-153 | the corrected walk loop returns a prefix of all hits, all of them unless over the cap, and at most `MaxResults + 2` |
| Search.SearchAsWritten | server/src/main.rs:77-156 | `perform_search` as written returns the walk's hits in order: a prefix of all of them, and all of them unless it holds more than 2000; with only text files kept it holds at most 2002 (`SearchAsWrittenBoundedOnText`) |
| Search.Search | server/src/main.rs:77-156 | the corrected search returns a prefix of all hits, all of them unless it holds more than 2000, and never more than 2002 |
| Search.ScanFileLines | server/src/main.rs:132-151 | the imperative line loop computes `ScanLines` |
| Search.VisitEntry | server/src/main.rs:89-151 | the imperative walk step computes `ScanPass`, including whether it got to the cap check |
| Search.PerformSearch | server/src/main.rs:77-156 | the imperative search computes `Search` |
| Search.ScanStopsOverCap | server/src/main.rs:149-152 | once the results exceed the cap, later entries contribute nothing |
| Search.AsWrittenCutEndsWalk | server/src/main.rs:149-152 | as written, once a pass is cut by the cap check, the passes after it contribute nothing |
| Search.SearchAsWrittenCutEndsWalk | server/src/main.rs:88-153 | as written, once the search of a run of entries stops short of all its hits, entries walked after that run change nothing |
| Search.AsWrittenBoundedWithoutContinue | server/src/main.rs:124-152 | as written, a walk whose every visited pass is over a readable text file reaches the cap check on each pass and returns at most 2002 results |
| Search.SearchAsWrittenBoundedOnText | server/src/main.rs:77-156 | as written, when every entry the filters keep is a readable text file, the search returns at most 2002 results |
| Search.ScanConcat | server/src/main.rs:88-153 | below the cap, a walk over two runs of entries scans the first run completely and then the second |
| Search.AllHitsConcat | server/src/main.rs:88 | all hits of two runs of entries are those of the first followed by those of the second |
| Search.PassesConcat | server/src/main.rs:88 | the classification of two runs of entries is that of each run |
| Search.HitsSpec | server/src/main.rs:132-150 | every hit comes from one line's outcome, and no line's hit is missing |
| Search.HitsOrdered | server/src/main.rs:145 | hits are in strictly increasing line order |
| Search.LineHitsSpec | server/src/main.rs:132-148 | a file's line hits: each is the hit of one of its lines, every matching line gives one, and line numbers strictly increase (at most one hit per line) |
| Search.PassHitsJustified | server/src/main.rs:89-148 | every hit of an entry comes from a kept entry and is its filename hit or a hit of one of its lines |
| Search.PassHitsShape | server/src/main.rs:108-148 | a kept entry contributes its filename hit first, if its path matches, and then its line hits |
| Search.AllHitsSound | server/src/main.rs:89-148 | every hit of the walk comes from a kept entry and is its filename hit or a hit of one of its lines |
| Search.SearchSound | server/src/main.rs:89-102 | for the search as written and the corrected one, every result comes from a walked regular file with no ignored component (".git", "node_modules", "target", "dist", "codeedit") whose path ends with the glob suffix, and is its filename hit or a hit of one of its lines |
| Search.SearchCovers | server/src/main.rs:88-153 | below the cap, every hit of every entry is in the results of both searches |
| Search.SearchFindsNames | server/src/main.rs:108-123 | below the cap, every kept entry whose relative path contains the query (ignoring ASCII case) has its filename hit in the results of both searches |
| Search.SearchFindsLines | server/src/main.rs:132-148 | below the cap, every line of a kept text file that contains the query has its hit in the results of both searches |
| Search.AsWrittenKeepsNoTextPasses | server/src/main.rs:127-128 | as written, steps that leave by `continue` are never cut off by the cap |
| Search.AsWrittenUnboundedWithoutText | server/src/main.rs:127-152 | as written, a walk without readable text files returns every filename hit, however many |
| Search.AsWrittenScansPastCap | server/src/main.rs:127-152 | as written, a binary file that takes the results over the cap does not stop the walk: the next file's line hit is added; the corrected scan stops after the binary file |

## Left out

- The regular-expression branch (`use_regex`, lines 80-82, 110-111, 133-134): it depends on the `regex` crate. The model is the literal search, which is what `use_regex = false` selects.
- The `search` handler's query parsing (lines 177-188): the model starts inside `perform_search`.
- The directory walk (`WalkDir`, with errored entries skipped): it is I/O, so the walk is the `entries` input, in walk order, with unreadable files as `None`.
- `String::from_utf8_lossy`:
  - In the search it is the uninterpreted `decode`.
  - In `get_file` and `save_file` the content stays as bytes: the model does not re-encode a lossy decode. A non-UTF-8 text file read and saved back changes on disk, and the model does not capture that.
- BLAKE3 is the uninterpreted `hash`. Lemmas that need two contents to hash differently say so in their `requires`.
- `save_file` I/O:
  - The read, write and rename failures (HTTP 500) are not modelled.
  - An existing path that is a directory is not modelled.
  - The write through the temporary file `path.with_extension("tmp_save")` and the rename are one map update. The model does not capture that a sibling file with that name (for `a.rs`, the file `a.tmp_save`) is overwritten and then lost.
- Path aliasing: full paths are strings. Two spellings of the same file (`src//a.rs` and `src/a.rs`, or a path through a symbolic link) are different keys in the model.
- Checklist persistence:
  - The JSON file written after every patch, with its errors ignored (lines 252-254), is not modelled.
  - Loading the checklist at start-up (lines 275-279) is not modelled; the constructor takes the initial checklist.
  - The `checklist_path` field of `AppState` exists only for this persistence, so the class does not have it.
- Checklist.DefaultItem: `or_insert` reads the clock separately from the final stamp. The model uses one `now` for both; the default time stamp is overwritten anyway.
- `now()` panicking before the Unix epoch: the clock is a `u64` argument.
- `usize` overflow of line and column numbers: they are unbounded `nat`s; the overflow cannot happen for files that fit in memory.
- Concurrency: each model method is one atomic transition, which the source does not guarantee for the file handlers. The `RwLock` (line 25) guards only the checklist; `get_file` and `save_file` take no lock, so two saves with the same etag can both pass the check at lines 213-216 before either write at lines 224-230, and the second overwrites the first without a conflict. The model does not capture such interleavings. `Arc`, tokio, axum routing, CORS, the static file service and `main` are not modelled.
- The web client is not part of this model.

## Findings

| source | as written | input that shows it | evidently intended | confidence | as-written member | corrected member |
|---|---|---|---|---|---|---|
| server/src/main.rs:127-152 | the cap check at line 152 sits at the end of the walk loop's body, and the `continue`s at lines 127-128 (unreadable or binary file) jump past it | 2000 earlier hits, then a binary file `a.bin` and a text file `b` holding "a", query "a": the binary file's filename hit makes 2001 and `b` is still scanned (2002 results); with only binary files the result count has no bound | no entry is examined once more than 2000 results exist | not executed | Search.AsWrittenScansPastCap | Search.PerformSearch |
| server/src/main.rs:166-169 | `safe_path` refuses only paths containing "..", and `Path::join` with an absolute path discards the root | `rel = "/etc/passwd"` with root "/repo" gives "/etc/passwd", and `get_file`/`save_file` read or overwrite it | every accepted path lies inside the repository | not executed | FileStore.AsWrittenHandlersReachOutside | FileStore.ConfinedPath |
