/**
 * Literal search over the repository (`perform_search` without its regular
 * expression branch). The directory walk is an input: the sequence of entries
 * it yields, in order. `decode` stands for `String::from_utf8_lossy`.
 */
module Search {
  import opened Wrappers
  import opened Text
  import opened FileStore

  /** Once the scan holds more results than this, it stops. */
  const MaxResults: nat := 2000

  /** Path components whose files are never searched. */
  const IgnoredDirs: set<string> := {".git", "node_modules", "target", "dist", "codeedit"}

  const FilenamePrefix: string := "FILENAME MATCH: "

  /** How many characters of a trimmed line the preview keeps. */
  const PreviewLength: nat := 200

  /**
   * One item of the walk: whether it is a regular file, its full path as
   * text, the names of the components of that full path, the path relative
   * to the root, and its bytes (None when reading it fails).
   */
  datatype Entry = Entry(isFile: bool, path: string, components: seq<string>, relPath: string,
                         content: Option<Bytes>)

  datatype SearchResult = SearchResult(file: string, line: nat, column: nat, preview: string)

  // ---------------------------------------------------------------------
  // Filters and single hits
  // ---------------------------------------------------------------------

  predicate HasIgnoredComponent(components: seq<string>) {
    exists i :: 0 <= i < |components| && components[i] in IgnoredDirs
  }

  /** `glob.map(|g| g.trim_start_matches('*'))`: the suffix a searched path must end with. */
  function GlobSuffix(glob: Option<string>): (r: Option<string>)
    ensures r.Some? <==> glob.Some?
    ensures r.Some? ==> EndsWith(glob.value, r.value) && (r.value == [] || r.value[0] != '*')
    ensures r.Some? ==> forall i :: 0 <= i < |glob.value| - |r.value| ==> glob.value[i] == '*'
  {
    match glob
    case None => None
    case Some(g) => Some(TrimStartMatches(g, c => c == '*'))
  }

  /** The entries the walk loop does not skip straight away. */
  predicate Eligible(e: Entry, suffix: Option<string>) {
    && e.isFile
    && !HasIgnoredComponent(e.components)
    && (suffix.Some? ==> EndsWith(e.path, suffix.value))
  }

  /** The relative path contains the lower-cased query, ignoring ASCII case. */
  predicate PathMatches(e: Entry, queryLower: string) {
    Contains(Lower(e.relPath), queryLower)
  }

  /** The entries whose lines are scanned: readable and not binary. */
  predicate IsText(e: Entry) {
    e.content.Some? && !IsBinary(e.content.value)
  }

  function FileLines(e: Entry, decode: Bytes -> string): seq<string> {
    if e.content.Some? then Lines(decode(e.content.value)) else []
  }

  function FilenameHit(rel: string): (h: SearchResult)
    ensures h.file == rel && h.line == 1 && h.column == 1
    ensures IsPrefix(FilenamePrefix, h.preview) && h.preview[|FilenamePrefix|..] == rel
  {
    SearchResult(rel, 1, 1, FilenamePrefix + rel)
  }

  /** The preview of a line: at most `PreviewLength` characters of it, trimmed. */
  function Preview(line: string): (p: string)
    ensures |p| == if |Trim(line)| <= PreviewLength then |Trim(line)| else PreviewLength
    ensures IsPrefix(p, Trim(line))
  {
    Take(Trim(line), PreviewLength)
  }

  /**
   * The hit for line index `i`, in whose lower-cased form the query starts
   * at character `k`: `str::find` reports a byte offset, so the column counts
   * UTF-8 bytes.
   */
  function LineHit(rel: string, line: string, i: nat, k: nat): (h: SearchResult)
    requires k <= |line|
    ensures h.file == rel && h.line == i + 1 && h.preview == Preview(line)
    ensures h.column == Utf8Width(line[..k]) + 1
    ensures k + 1 <= h.column <= 4 * k + 1
  {
    assert Lower(line)[..k] == Lower(line[..k]);
    LowerKeepsWidth(line[..k]);
    SearchResult(rel, i + 1, Utf8Width(Lower(line)[..k]) + 1, Preview(line))
  }

  /** On ASCII text before the match, the column is the character offset. */
  lemma LineHitColumn(rel: string, line: string, i: nat, k: nat)
    requires k <= |line|
    ensures IsAscii(line[..k]) ==> LineHit(rel, line, i, k).column == k + 1
  {
    if IsAscii(line[..k]) {
      AsciiWidth(line[..k]);
    }
  }

  // ---------------------------------------------------------------------
  // What the loops see of each entry
  // ---------------------------------------------------------------------

  /** The line loop's view of line `n`: its hit, if the query occurs in it. */
  function LineOutcome(rel: string, line: string, n: nat, queryLower: string): (o: Option<SearchResult>)
    ensures o.Some? <==> Contains(Lower(line), queryLower)
    ensures o.Some? ==> o.value == LineHit(rel, line, n, Find(Lower(line), queryLower).value)
  {
    match Find(Lower(line), queryLower)
    case None => None
    case Some(k) => Some(LineHit(rel, line, n, k))
  }

  function LineOutcomes(rel: string, lines: seq<string>, queryLower: string): (os: seq<Option<SearchResult>>)
    ensures |os| == |lines|
    ensures forall n :: 0 <= n < |os| ==> os[n] == LineOutcome(rel, lines[n], n, queryLower)
  {
    seq(|lines|, n requires 0 <= n < |lines| => LineOutcome(rel, lines[n], n, queryLower))
  }

  /**
   * The walk loop's view of one entry: skipped by a filter, or visited with
   * its filename hit (if the path matches) and the per-line view of its
   * text (None when it cannot be read or is binary).
   */
  datatype Pass = Skipped | Visited(nameHit: Option<SearchResult>, lines: Option<seq<Option<SearchResult>>>)

  function Classify(e: Entry, queryLower: string, suffix: Option<string>, decode: Bytes -> string): (p: Pass)
    ensures p.Skipped? <==> !Eligible(e, suffix)
    ensures p.Visited? ==> (p.nameHit.Some? <==> PathMatches(e, queryLower))
    ensures p.Visited? ==> (p.lines.Some? <==> IsText(e))
  {
    if !Eligible(e, suffix) then Skipped
    else
      Visited(if PathMatches(e, queryLower) then Some(FilenameHit(e.relPath)) else None,
              if IsText(e) then Some(LineOutcomes(e.relPath, FileLines(e, decode), queryLower)) else None)
  }

  function Passes(es: seq<Entry>, queryLower: string, suffix: Option<string>, decode: Bytes -> string)
    : (ps: seq<Pass>)
    ensures |ps| == |es|
    ensures forall j :: 0 <= j < |es| ==> ps[j] == Classify(es[j], queryLower, suffix, decode)
  {
    seq(|es|, j requires 0 <= j < |es| => Classify(es[j], queryLower, suffix, decode))
  }

  // ---------------------------------------------------------------------
  // The reference: every hit, without a cap
  // ---------------------------------------------------------------------

  /** The hits among `os[i..]`, in order. */
  function Hits(os: seq<Option<SearchResult>>, i: nat): seq<SearchResult>
    decreases |os| - i
  {
    if i >= |os| then []
    else (if os[i].Some? then [os[i].value] else []) + Hits(os, i + 1)
  }

  /** The hits of the lines of a file, in line order. */
  function LineHits(rel: string, lines: seq<string>, queryLower: string): seq<SearchResult> {
    Hits(LineOutcomes(rel, lines, queryLower), 0)
  }

  /** The hits of one pass: its filename hit first, then its line hits. */
  function PassHits(p: Pass): seq<SearchResult> {
    match p
    case Skipped => []
    case Visited(nameHit, lines) =>
      (if nameHit.Some? then [nameHit.value] else [])
      + (if lines.Some? then Hits(lines.value, 0) else [])
  }

  /** All hits of passes `j..`, pass after pass. */
  function AllHits(ps: seq<Pass>, j: nat): seq<SearchResult>
    decreases |ps| - j
  {
    if j >= |ps| then [] else PassHits(ps[j]) + AllHits(ps, j + 1)
  }

  // ---------------------------------------------------------------------
  // The scan, with the early exits of the loops
  // ---------------------------------------------------------------------

  /**
   * The inner loop over lines `i..`: pushes each hit onto `acc` and stops
   * right after a push that leaves more than `MaxResults`. What it adds is a
   * prefix of the hits, all of them unless it stopped.
   */
  function ScanLines(os: seq<Option<SearchResult>>, i: nat, acc: seq<SearchResult>): (r: seq<SearchResult>)
    decreases |os| - i
    ensures |acc| <= |r| && IsPrefix(r, acc + Hits(os, i))
    ensures r == acc + Hits(os, i) || |r| > MaxResults
    ensures |acc| <= MaxResults + 1 ==> |r| <= MaxResults + 2
    ensures r != acc + Hits(os, i) ==> |r| == if |acc| > MaxResults then |acc| + 1 else MaxResults + 1
  {
    if i >= |os| then acc
    else if os[i].None? then
      HitsSkip(os, i);
      ScanLines(os, i + 1, acc)
    else
      var acc' := acc + [os[i].value];
      HitsPush(os, i, acc);
      if |acc'| > MaxResults then
        PrefixExtend(acc', acc', Hits(os, i + 1));
        acc'
      else ScanLines(os, i + 1, acc')
  }

  /** A line without a hit adds nothing. */
  lemma HitsSkip(os: seq<Option<SearchResult>>, i: nat)
    requires i < |os| && os[i].None?
    ensures Hits(os, i) == Hits(os, i + 1)
  {
  }

  /** Pushing the hit at `i` onto `acc` leaves the same hits still to come. */
  lemma HitsPush(os: seq<Option<SearchResult>>, i: nat, acc: seq<SearchResult>)
    requires i < |os| && os[i].Some?
    ensures acc + Hits(os, i) == (acc + [os[i].value]) + Hits(os, i + 1)
  {
    assert Hits(os, i) == [os[i].value] + Hits(os, i + 1);
    ConcatAssoc(acc, [os[i].value], Hits(os, i + 1));
  }

  /**
   * The exact number of results the line loop leaves: all it had and all the
   * hits ahead, unless that passes the stop point, which is one push past
   * the cap (or one push, when it starts over the cap).
   */
  lemma {:induction false} ScanLinesExact(os: seq<Option<SearchResult>>, i: nat, acc: seq<SearchResult>)
    ensures var all := acc + Hits(os, i);
      var stop := if |acc| > MaxResults then |acc| + 1 else MaxResults + 1;
      |ScanLines(os, i, acc)| == if |all| <= stop then |all| else stop
    decreases |os| - i
  {
    if i >= |os| {
      assert acc + Hits(os, i) == acc;
    } else if os[i].None? {
      HitsSkip(os, i);
      ScanLinesExact(os, i + 1, acc);
    } else {
      var acc' := acc + [os[i].value];
      HitsPush(os, i, acc);
      if |acc'| <= MaxResults {
        ScanLinesExact(os, i + 1, acc');
      }
    }
  }

  /** What one pass of the walk loop leaves: the results, and whether it got to the cap check at its end. */
  datatype Step = Step(results: seq<SearchResult>, reachedCapCheck: bool)

  /**
   * One pass of the walk loop: a skipped entry adds nothing, a visited one
   * its filename hit; an unreadable or binary one then leaves by `continue`,
   * which skips the cap check, and a text file runs the line loop.
   */
  function ScanPass(p: Pass, acc: seq<SearchResult>): (s: Step)
    ensures |acc| <= |s.results| && IsPrefix(s.results, acc + PassHits(p))
    ensures s.results == acc + PassHits(p) || |s.results| > MaxResults
    ensures !s.reachedCapCheck ==> s.results == acc + PassHits(p)
    ensures |acc| <= MaxResults ==> |s.results| <= MaxResults + 2
  {
    match p
    case Skipped => Step(acc, false)
    case Visited(nameHit, lines) =>
      var named := if nameHit.Some? then acc + [nameHit.value] else acc;
      if lines.None? then Step(named, false)
      else
        assert named + Hits(lines.value, 0) == acc + PassHits(p);
        Step(ScanLines(lines.value, 0, named), true)
  }

  /** Exactly the passes over readable text files get to the cap check at the end of the loop body. */
  lemma ScanPassReachesCheck(p: Pass, acc: seq<SearchResult>)
    ensures ScanPass(p, acc).reachedCapCheck <==> p.Visited? && p.lines.Some?
  {
  }

  /**
   * The walk loop as `perform_search` writes it: the cap is checked only at
   * the end of a pass, so a pass that leaves by `continue` never checks it.
   */
  function ScanAsWritten(ps: seq<Pass>, j: nat, acc: seq<SearchResult>): (r: seq<SearchResult>)
    decreases |ps| - j
    ensures |acc| <= |r| && IsPrefix(r, acc + AllHits(ps, j))
    ensures r == acc + AllHits(ps, j) || |r| > MaxResults
  {
    if j >= |ps| then acc
    else
      var s := ScanPass(ps[j], acc);
      ConcatAssoc(acc, PassHits(ps[j]), AllHits(ps, j + 1));
      if s.reachedCapCheck && |s.results| > MaxResults then
        PrefixExtend(s.results, acc + PassHits(ps[j]), AllHits(ps, j + 1));
        s.results
      else ScanAsWritten(ps, j + 1, s.results)
  }

  /**
   * The walk loop with the cap also checked at the start of every pass, so
   * that no entry is looked at once the results exceed `MaxResults`.
   */
  function Scan(ps: seq<Pass>, j: nat, acc: seq<SearchResult>): (r: seq<SearchResult>)
    decreases |ps| - j
    ensures |acc| <= |r| && IsPrefix(r, acc + AllHits(ps, j))
    ensures r == acc + AllHits(ps, j) || |r| > MaxResults
    ensures |acc| <= MaxResults + 2 ==> |r| <= MaxResults + 2
  {
    if j >= |ps| || |acc| > MaxResults then acc
    else
      var s := ScanPass(ps[j], acc);
      ConcatAssoc(acc, PassHits(ps[j]), AllHits(ps, j + 1));
      if s.reachedCapCheck && |s.results| > MaxResults then
        PrefixExtend(s.results, acc + PassHits(ps[j]), AllHits(ps, j + 1));
        s.results
      else Scan(ps, j + 1, s.results)
  }

  /**
   * `perform_search` as written: the hits of the walk in order, all of them
   * unless the results exceed the cap.
   */
  function SearchAsWritten(entries: seq<Entry>, query: string, glob: Option<string>, decode: Bytes -> string)
    : (r: seq<SearchResult>)
    ensures var all := AllHits(Passes(entries, Lower(query), GlobSuffix(glob), decode), 0);
      && IsPrefix(r, all)
      && (r == all || |r| > MaxResults)
  {
    assert [] + AllHits(Passes(entries, Lower(query), GlobSuffix(glob), decode), 0)
      == AllHits(Passes(entries, Lower(query), GlobSuffix(glob), decode), 0);
    ScanAsWritten(Passes(entries, Lower(query), GlobSuffix(glob), decode), 0, [])
  }

  /**
   * The corrected search: the hits of the walk in order, all of them unless
   * the results exceed the cap, and never more than two beyond it.
   */
  function Search(entries: seq<Entry>, query: string, glob: Option<string>, decode: Bytes -> string)
    : (r: seq<SearchResult>)
    ensures var all := AllHits(Passes(entries, Lower(query), GlobSuffix(glob), decode), 0);
      && IsPrefix(r, all)
      && (r == all || |r| > MaxResults)
    ensures |r| <= MaxResults + 2
  {
    assert [] + AllHits(Passes(entries, Lower(query), GlobSuffix(glob), decode), 0)
      == AllHits(Passes(entries, Lower(query), GlobSuffix(glob), decode), 0);
    Scan(Passes(entries, Lower(query), GlobSuffix(glob), decode), 0, [])
  }

  // ---------------------------------------------------------------------
  // perform_search
  // ---------------------------------------------------------------------

  /** The line loop of `perform_search` over one text file. */
  method ScanFileLines(rel: string, lines: seq<string>, queryLower: string, acc: seq<SearchResult>)
    returns (results: seq<SearchResult>)
    ensures results == ScanLines(LineOutcomes(rel, lines, queryLower), 0, acc)
  {
    ghost var os := LineOutcomes(rel, lines, queryLower);
    results := acc;
    var i := 0;
    while i < |lines|
      invariant 0 <= i <= |lines|
      invariant ScanLines(os, 0, acc) == ScanLines(os, i, results)
    {
      var found := Find(Lower(lines[i]), queryLower);
      assert os[i] == if found.Some? then Some(LineHit(rel, lines[i], i, found.value)) else None;
      if found.Some? {
        results := results + [LineHit(rel, lines[i], i, found.value)];
        if |results| > MaxResults {
          break;
        }
      }
      i := i + 1;
    }
  }

  /**
   * One pass of the walk loop of `perform_search`: the filters, the filename
   * match, and the line loop of a readable text file. `reachedCapCheck` is
   * false when the pass left by `continue`.
   */
  method VisitEntry(entries: seq<Entry>, j: nat, queryLower: string, globPattern: Option<string>,
                    decode: Bytes -> string, acc: seq<SearchResult>, ghost ps: seq<Pass>)
    returns (results: seq<SearchResult>, reachedCapCheck: bool)
    requires j < |entries| && ps == Passes(entries, queryLower, globPattern, decode)
    ensures Step(results, reachedCapCheck) == ScanPass(ps[j], acc)
  {
    var entry := entries[j];
    assert ps[j] == Classify(entry, queryLower, globPattern, decode);
    results, reachedCapCheck := acc, false;
    if !entry.isFile { return; }
    if HasIgnoredComponent(entry.components) { return; }
    if globPattern.Some? && !EndsWith(entry.path, globPattern.value) { return; }

    var relPath := entry.relPath;
    var relPathLower := Lower(relPath);
    var pathMatched := false;
    if Contains(relPathLower, queryLower) {
      pathMatched := true;
    }
    if pathMatched {
      results := results + [FilenameHit(relPath)];
    }

    if entry.content.None? { return; }
    var content := entry.content.value;
    if IsBinary(content) { return; }

    results := ScanFileLines(relPath, Lines(decode(content)), queryLower, results);
    reachedCapCheck := true;
  }

  /** A scan past the last pass, or over the cap, adds nothing. */
  lemma ScanDone(ps: seq<Pass>, j: nat, acc: seq<SearchResult>)
    requires j >= |ps| || |acc| > MaxResults
    ensures Scan(ps, j, acc) == acc
  {
  }

  /** One step of `Scan` below the cap, whose pass left `results`, keeps what the scan comes to. */
  lemma ScanStep(ps: seq<Pass>, j: nat, acc: seq<SearchResult>, results: seq<SearchResult>, reachedCapCheck: bool,
                 expected: seq<SearchResult>)
    requires j < |ps| && |acc| <= MaxResults
    requires ScanPass(ps[j], acc) == Step(results, reachedCapCheck)
    requires Scan(ps, j, acc) == expected
    ensures reachedCapCheck && |results| > MaxResults ==> results == expected
    ensures !(reachedCapCheck && |results| > MaxResults) ==> Scan(ps, j + 1, results) == expected
  {
  }

  /**
   * `perform_search` for a literal query, with the cap checked before every
   * entry as well as after every pass that gets to the end of its body.
   */
  method PerformSearch(entries: seq<Entry>, query: string, glob: Option<string>, decode: Bytes -> string)
    returns (results: seq<SearchResult>)
    ensures results == Search(entries, query, glob, decode)
  {
    results := [];
    var queryLower := Lower(query);
    var globPattern := GlobSuffix(glob);
    ghost var ps := Passes(entries, queryLower, globPattern, decode);
    ghost var expected := Search(entries, query, glob, decode);
    assert expected == Scan(ps, 0, []);
    var j := 0;
    while j < |entries|
      invariant 0 <= j <= |entries|
      invariant Scan(ps, j, results) == expected
    {
      if |results| > MaxResults {
        break;
      }
      ghost var acc := results;
      var reachedCapCheck;
      results, reachedCapCheck := VisitEntry(entries, j, queryLower, globPattern, decode, results, ps);
      ScanStep(ps, j, acc, results, reachedCapCheck, expected);
      j := j + 1;
      if reachedCapCheck && |results| > MaxResults {
        break;
      }
    }
    ScanDone(ps, j, results);
  }

  // ---------------------------------------------------------------------
  // What the search promises
  // ---------------------------------------------------------------------

  /** Once the results exceed the cap after passes `..|ps1|`, no later pass contributes anything. */
  lemma {:induction false} ScanStopsOverCap(ps1: seq<Pass>, ps2: seq<Pass>, j: nat, acc: seq<SearchResult>)
    requires j <= |ps1|
    requires |Scan(ps1, j, acc)| > MaxResults
    ensures Scan(ps1 + ps2, j, acc) == Scan(ps1, j, acc)
    decreases |ps1| - j
  {
    var ps := ps1 + ps2;
    if j == |ps1| {
      assert Scan(ps1, j, acc) == acc;
    } else if |acc| <= MaxResults {
      assert ps[j] == ps1[j];
      var s := ScanPass(ps1[j], acc);
      if s.reachedCapCheck && |s.results| > MaxResults {
        assert Scan(ps, j, acc) == s.results == Scan(ps1, j, acc);
      } else {
        assert Scan(ps, j, acc) == Scan(ps, j + 1, s.results);
        assert Scan(ps1, j, acc) == Scan(ps1, j + 1, s.results);
        ScanStopsOverCap(ps1, ps2, j + 1, s.results);
      }
    }
  }

  /**
   * As written, a cut by the cap check at the end of a pass ends the walk:
   * whatever passes follow contribute nothing.
   */
  lemma {:induction false} AsWrittenCutEndsWalk(ps1: seq<Pass>, ps2: seq<Pass>, j: nat, acc: seq<SearchResult>)
    requires j <= |ps1|
    ensures ScanAsWritten(ps1, j, acc) != acc + AllHits(ps1, j) ==>
      ScanAsWritten(ps1 + ps2, j, acc) == ScanAsWritten(ps1, j, acc)
    decreases |ps1| - j
  {
    var ps := ps1 + ps2;
    if j == |ps1| {
      assert acc + AllHits(ps1, j) == acc;
    } else {
      assert ps[j] == ps1[j];
      var s := ScanPass(ps1[j], acc);
      if !(s.reachedCapCheck && |s.results| > MaxResults) {
        assert s.results == acc + PassHits(ps1[j]);
        ConcatAssoc(acc, PassHits(ps1[j]), AllHits(ps1, j + 1));
        assert ScanAsWritten(ps1, j, acc) == ScanAsWritten(ps1, j + 1, s.results);
        assert ScanAsWritten(ps, j, acc) == ScanAsWritten(ps, j + 1, s.results);
        AsWrittenCutEndsWalk(ps1, ps2, j + 1, s.results);
      }
    }
  }

  /**
   * As written, once the search of a run of entries is cut by the cap, the
   * entries walked after them change nothing.
   */
  lemma SearchAsWrittenCutEndsWalk(entries1: seq<Entry>, entries2: seq<Entry>, query: string,
                                   glob: Option<string>, decode: Bytes -> string)
    ensures SearchAsWritten(entries1, query, glob, decode)
              != AllHits(Passes(entries1, Lower(query), GlobSuffix(glob), decode), 0) ==>
      SearchAsWritten(entries1 + entries2, query, glob, decode) == SearchAsWritten(entries1, query, glob, decode)
  {
    var ql, suffix := Lower(query), GlobSuffix(glob);
    var ps1, ps2 := Passes(entries1, ql, suffix, decode), Passes(entries2, ql, suffix, decode);
    PassesConcat(entries1, entries2, ql, suffix, decode);
    assert [] + AllHits(ps1, 0) == AllHits(ps1, 0);
    AsWrittenCutEndsWalk(ps1, ps2, 0, []);
  }

  /**
   * As written, a walk in which every visited entry is a readable text file
   * reaches the cap check on every pass, and so returns at most two results
   * beyond the cap.
   */
  lemma {:induction false} AsWrittenBoundedWithoutContinue(ps: seq<Pass>, j: nat, acc: seq<SearchResult>)
    requires |acc| <= MaxResults
    requires forall k :: j <= k < |ps| && ps[k].Visited? ==> ps[k].lines.Some?
    ensures |ScanAsWritten(ps, j, acc)| <= MaxResults + 2
    decreases |ps| - j
  {
    if j < |ps| {
      var s := ScanPass(ps[j], acc);
      ScanPassReachesCheck(ps[j], acc);
      if !(s.reachedCapCheck && |s.results| > MaxResults) {
        assert ScanAsWritten(ps, j, acc) == ScanAsWritten(ps, j + 1, s.results);
        if !s.reachedCapCheck {
          assert ps[j].Skipped? && s.results == acc;
        }
        AsWrittenBoundedWithoutContinue(ps, j + 1, s.results);
      }
    }
  }

  /**
   * As written, when every entry the filters keep is a readable text file,
   * the search returns at most two results beyond the cap.
   */
  lemma SearchAsWrittenBoundedOnText(entries: seq<Entry>, query: string, glob: Option<string>,
                                     decode: Bytes -> string)
    requires forall e :: e in entries && Eligible(e, GlobSuffix(glob)) ==> IsText(e)
    ensures |SearchAsWritten(entries, query, glob, decode)| <= MaxResults + 2
  {
    var ps := Passes(entries, Lower(query), GlobSuffix(glob), decode);
    forall k | 0 <= k < |ps| && ps[k].Visited? ensures ps[k].lines.Some? {
      assert entries[k] in entries;
    }
    AsWrittenBoundedWithoutContinue(ps, 0, []);
  }

  lemma {:induction false} AllHitsConcat(ps1: seq<Pass>, ps2: seq<Pass>, j: nat)
    requires j <= |ps1|
    ensures AllHits(ps1 + ps2, j) == AllHits(ps1, j) + AllHits(ps2, 0)
    decreases |ps1| - j
  {
    if j == |ps1| {
      ShiftAllHits(ps1, ps2, 0);
    } else {
      assert (ps1 + ps2)[j] == ps1[j];
      AllHitsConcat(ps1, ps2, j + 1);
      ConcatAssoc(PassHits(ps1[j]), AllHits(ps1, j + 1), AllHits(ps2, 0));
    }
  }

  lemma {:induction false} ShiftAllHits(ps1: seq<Pass>, ps2: seq<Pass>, j: nat)
    requires j <= |ps2|
    ensures AllHits(ps1 + ps2, |ps1| + j) == AllHits(ps2, j)
    decreases |ps2| - j
  {
    var ps := ps1 + ps2;
    var k := |ps1| + j;
    if j < |ps2| {
      assert ps[k] == ps2[j];
      ShiftAllHits(ps1, ps2, j + 1);
      assert AllHits(ps, k + 1) == AllHits(ps2, j + 1);
      assert AllHits(ps, k) == PassHits(ps[k]) + AllHits(ps, k + 1);
      assert AllHits(ps2, j) == PassHits(ps2[j]) + AllHits(ps2, j + 1);
    } else {
      assert k >= |ps|;
    }
  }

  /** Below the cap, scanning two runs of passes is scanning the first and then the second. */
  lemma {:induction false} ScanConcat(ps1: seq<Pass>, ps2: seq<Pass>, j: nat, acc: seq<SearchResult>)
    requires j <= |ps1|
    requires |acc + AllHits(ps1, j)| <= MaxResults
    ensures Scan(ps1 + ps2, j, acc) == Scan(ps1 + ps2, |ps1|, acc + AllHits(ps1, j))
    ensures ScanAsWritten(ps1 + ps2, j, acc) == ScanAsWritten(ps1 + ps2, |ps1|, acc + AllHits(ps1, j))
    decreases |ps1| - j
  {
    if j == |ps1| {
      assert acc + AllHits(ps1, j) == acc;
    } else {
      var p := ps1[j];
      assert (ps1 + ps2)[j] == p;
      var s := ScanPass(p, acc);
      ConcatAssoc(acc, PassHits(p), AllHits(ps1, j + 1));
      assert s.results == acc + PassHits(p);
      ScanConcat(ps1, ps2, j + 1, acc + PassHits(p));
    }
  }

  /** The passes a run of entries gives are those of its parts. */
  lemma PassesConcat(es1: seq<Entry>, es2: seq<Entry>, queryLower: string, suffix: Option<string>,
                     decode: Bytes -> string)
    ensures Passes(es1 + es2, queryLower, suffix, decode)
         == Passes(es1, queryLower, suffix, decode) + Passes(es2, queryLower, suffix, decode)
  {
    var l := Passes(es1 + es2, queryLower, suffix, decode);
    var r := Passes(es1, queryLower, suffix, decode) + Passes(es2, queryLower, suffix, decode);
    forall j | 0 <= j < |l| ensures l[j] == r[j] {
      assert (es1 + es2)[j] == if j < |es1| then es1[j] else es2[j - |es1|];
    }
  }

  /** The hits among `os[i..]`: each from one of those slots, none missing, in slot order. */
  lemma {:induction false} HitsSpec(os: seq<Option<SearchResult>>, i: nat)
    ensures forall h :: h in Hits(os, i) ==> exists n :: i <= n < |os| && os[n] == Some(h)
    ensures forall n :: i <= n < |os| && os[n].Some? ==> os[n].value in Hits(os, i)
    decreases |os| - i
  {
    if i < |os| {
      HitsSpec(os, i + 1);
    }
  }

  /** When every hit of slot `n` records line `n + 1`, hits come in strictly increasing line order. */
  lemma {:induction false} HitsOrdered(os: seq<Option<SearchResult>>, i: nat)
    requires forall n :: 0 <= n < |os| && os[n].Some? ==> os[n].value.line == n + 1
    ensures forall h :: h in Hits(os, i) ==> i < h.line
    ensures forall a, b :: 0 <= a < b < |Hits(os, i)| ==> Hits(os, i)[a].line < Hits(os, i)[b].line
    decreases |os| - i
  {
    if i < |os| {
      HitsOrdered(os, i + 1);
      var tail := Hits(os, i + 1);
      var all := Hits(os, i);
      if os[i].Some? {
        assert all == [os[i].value] + tail;
        forall a, b | 0 <= a < b < |all| ensures all[a].line < all[b].line {
          if a == 0 {
            assert all[b] in tail;
          } else {
            assert all[a] == tail[a - 1] && all[b] == tail[b - 1];
          }
        }
      } else {
        assert all == tail;
      }
    }
  }

  /** `h` is the hit of line index `n` of `lines`: the query occurs there, first at the column `h` records. */
  ghost predicate IsLineHitOf(h: SearchResult, rel: string, lines: seq<string>, queryLower: string, n: int) {
    && 0 <= n < |lines|
    && Contains(Lower(lines[n]), queryLower)
    && h == LineHit(rel, lines[n], n, Find(Lower(lines[n]), queryLower).value)
  }

  /**
   * The line hits of a file: one per line that holds the query, none for any
   * other line, each recording its line's number, in strictly increasing
   * line order (so at most one per line).
   */
  lemma LineHitsSpec(rel: string, lines: seq<string>, queryLower: string)
    ensures forall h :: h in LineHits(rel, lines, queryLower) ==> exists n :: IsLineHitOf(h, rel, lines, queryLower, n)
    ensures forall n :: 0 <= n < |lines| && Contains(Lower(lines[n]), queryLower) ==>
      LineHit(rel, lines[n], n, Find(Lower(lines[n]), queryLower).value) in LineHits(rel, lines, queryLower)
    ensures forall a, b :: 0 <= a < b < |LineHits(rel, lines, queryLower)| ==>
      LineHits(rel, lines, queryLower)[a].line < LineHits(rel, lines, queryLower)[b].line
  {
    var os := LineOutcomes(rel, lines, queryLower);
    HitsSpec(os, 0);
    HitsOrdered(os, 0);
    forall h | h in Hits(os, 0) ensures exists n :: IsLineHitOf(h, rel, lines, queryLower, n) {
      var n :| 0 <= n < |os| && os[n] == Some(h);
      assert IsLineHitOf(h, rel, lines, queryLower, n);
    }
  }

  /** `h` is the filename hit of `e`, or the hit of one of its lines. */
  ghost predicate Justified(h: SearchResult, e: Entry, queryLower: string, decode: Bytes -> string) {
    || (PathMatches(e, queryLower) && h == FilenameHit(e.relPath))
    || (IsText(e) && exists n :: IsLineHitOf(h, e.relPath, FileLines(e, decode), queryLower, n))
  }

  lemma PassHitsJustified(e: Entry, queryLower: string, suffix: Option<string>, decode: Bytes -> string)
    ensures forall h :: h in PassHits(Classify(e, queryLower, suffix, decode)) ==>
      Eligible(e, suffix) && h.file == e.relPath && Justified(h, e, queryLower, decode)
  {
    var p := Classify(e, queryLower, suffix, decode);
    if p.Visited? {
      var named := if p.nameHit.Some? then [p.nameHit.value] else [];
      var lineHits := if p.lines.Some? then Hits(p.lines.value, 0) else [];
      assert PassHits(p) == named + lineHits;
      forall h | h in PassHits(p) ensures h.file == e.relPath && Justified(h, e, queryLower, decode) {
        if h !in named {
          var lines := FileLines(e, decode);
          var hs := LineHits(e.relPath, lines, queryLower);
          assert IsText(e) && lineHits == hs;
          assert h in hs;
          LineHitsSpec(e.relPath, lines, queryLower);
          var n :| IsLineHitOf(h, e.relPath, lines, queryLower, n);
        }
      }
    }
  }

  /**
   * What a kept entry contributes: its filename hit first, if its path
   * matches, and then the hits of its lines, if it is a readable text file.
   */
  lemma PassHitsShape(e: Entry, queryLower: string, suffix: Option<string>, decode: Bytes -> string)
    requires Eligible(e, suffix)
    ensures var lineHits := if IsText(e) then LineHits(e.relPath, FileLines(e, decode), queryLower) else [];
      PassHits(Classify(e, queryLower, suffix, decode))
        == (if PathMatches(e, queryLower) then [FilenameHit(e.relPath)] else []) + lineHits
  {
  }

  lemma {:induction false} AllHitsFrom(ps: seq<Pass>, j: nat)
    ensures forall h :: h in AllHits(ps, j) ==> exists m :: j <= m < |ps| && h in PassHits(ps[m])
    decreases |ps| - j
  {
    if j < |ps| {
      AllHitsFrom(ps, j + 1);
    }
  }

  /**
   * `h` comes from an entry the walk keeps: a file with no ignored component
   * whose path ends with the glob suffix, and `h` is that entry's filename hit
   * or the hit of one of its lines.
   */
  ghost predicate FromKeptEntry(h: SearchResult, entries: seq<Entry>, query: string, glob: Option<string>,
                                decode: Bytes -> string) {
    exists e :: && e in entries && h.file == e.relPath
                && e.isFile && !HasIgnoredComponent(e.components)
                && (glob.Some? ==> EndsWith(e.path, GlobSuffix(glob).value))
                && Justified(h, e, Lower(query), decode)
  }

  /** Every hit of the walk comes from an entry it keeps. */
  lemma AllHitsSound(entries: seq<Entry>, query: string, glob: Option<string>, decode: Bytes -> string)
    ensures forall h :: h in AllHits(Passes(entries, Lower(query), GlobSuffix(glob), decode), 0) ==>
      FromKeptEntry(h, entries, query, glob, decode)
  {
    var ql, suffix := Lower(query), GlobSuffix(glob);
    var ps := Passes(entries, ql, suffix, decode);
    AllHitsFrom(ps, 0);
    forall h | h in AllHits(ps, 0) ensures FromKeptEntry(h, entries, query, glob, decode) {
      var m :| 0 <= m < |ps| && h in PassHits(ps[m]);
      PassHitsJustified(entries[m], ql, suffix, decode);
      assert entries[m] in entries;
    }
  }

  /** No result of either search comes from a skipped entry. */
  lemma SearchSound(entries: seq<Entry>, query: string, glob: Option<string>, decode: Bytes -> string)
    ensures forall h :: h in Search(entries, query, glob, decode) ==> FromKeptEntry(h, entries, query, glob, decode)
    ensures forall h :: h in SearchAsWritten(entries, query, glob, decode) ==>
      FromKeptEntry(h, entries, query, glob, decode)
  {
    var all := AllHits(Passes(entries, Lower(query), GlobSuffix(glob), decode), 0);
    AllHitsSound(entries, query, glob, decode);
    var r1, r2 := Search(entries, query, glob, decode), SearchAsWritten(entries, query, glob, decode);
    forall h | h in r1 ensures h in all {
      var k :| 0 <= k < |r1| && r1[k] == h;
      assert all[k] == h;
    }
    forall h | h in r2 ensures h in all {
      var k :| 0 <= k < |r2| && r2[k] == h;
      assert all[k] == h;
    }
  }

  lemma {:induction false} AllHitsCover(ps: seq<Pass>, j: nat, m: nat)
    requires j <= m < |ps|
    ensures forall h :: h in PassHits(ps[m]) ==> h in AllHits(ps, j)
    decreases m - j
  {
    var here := PassHits(ps[j]);
    var rest := AllHits(ps, j + 1);
    assert AllHits(ps, j) == here + rest;
    if j < m {
      AllHitsCover(ps, j + 1, m);
      forall h | h in PassHits(ps[m]) ensures h in here + rest {
        assert h in rest;
      }
    }
  }

  /** Below the cap both searches return the whole walk's hits, and every hit of entry `m` is among them. */
  lemma SearchCovers(entries: seq<Entry>, query: string, glob: Option<string>, decode: Bytes -> string, m: nat)
    requires m < |entries|
    requires |AllHits(Passes(entries, Lower(query), GlobSuffix(glob), decode), 0)| <= MaxResults
    ensures forall h :: h in PassHits(Classify(entries[m], Lower(query), GlobSuffix(glob), decode)) ==>
      h in Search(entries, query, glob, decode) && h in SearchAsWritten(entries, query, glob, decode)
  {
    var ps := Passes(entries, Lower(query), GlobSuffix(glob), decode);
    assert Search(entries, query, glob, decode) == AllHits(ps, 0);
    assert SearchAsWritten(entries, query, glob, decode) == AllHits(ps, 0);
    AllHitsCover(ps, 0, m);
  }

  /**
   * Below the cap no filename match is lost: every entry the filters keep
   * whose relative path contains the query has its filename hit in the
   * results of either search.
   */
  lemma SearchFindsNames(entries: seq<Entry>, query: string, glob: Option<string>, decode: Bytes -> string)
    requires |AllHits(Passes(entries, Lower(query), GlobSuffix(glob), decode), 0)| <= MaxResults
    ensures forall e :: e in entries && Eligible(e, GlobSuffix(glob)) && PathMatches(e, Lower(query)) ==>
      FilenameHit(e.relPath) in Search(entries, query, glob, decode)
      && FilenameHit(e.relPath) in SearchAsWritten(entries, query, glob, decode)
  {
    forall e | e in entries && Eligible(e, GlobSuffix(glob)) && PathMatches(e, Lower(query))
      ensures FilenameHit(e.relPath) in Search(entries, query, glob, decode)
      ensures FilenameHit(e.relPath) in SearchAsWritten(entries, query, glob, decode)
    {
      var m :| 0 <= m < |entries| && entries[m] == e;
      SearchCovers(entries, query, glob, decode, m);
      var p := Classify(e, Lower(query), GlobSuffix(glob), decode);
      assert PassHits(p)[0] == FilenameHit(e.relPath);
    }
  }

  /**
   * Below the cap no line match is lost: every line of a kept, readable text
   * file that holds the query has its hit in the results of either search.
   */
  lemma SearchFindsLines(entries: seq<Entry>, query: string, glob: Option<string>, decode: Bytes -> string)
    requires |AllHits(Passes(entries, Lower(query), GlobSuffix(glob), decode), 0)| <= MaxResults
    ensures forall e, n :: && e in entries && Eligible(e, GlobSuffix(glob)) && IsText(e)
                           && 0 <= n < |FileLines(e, decode)|
                           && Contains(Lower(FileLines(e, decode)[n]), Lower(query)) ==>
      LineHit(e.relPath, FileLines(e, decode)[n], n, Find(Lower(FileLines(e, decode)[n]), Lower(query)).value)
        in Search(entries, query, glob, decode)
      && LineHit(e.relPath, FileLines(e, decode)[n], n, Find(Lower(FileLines(e, decode)[n]), Lower(query)).value)
        in SearchAsWritten(entries, query, glob, decode)
  {
    var ql := Lower(query);
    forall e, n | && e in entries && Eligible(e, GlobSuffix(glob)) && IsText(e)
                  && 0 <= n < |FileLines(e, decode)|
                  && Contains(Lower(FileLines(e, decode)[n]), ql)
      ensures LineHit(e.relPath, FileLines(e, decode)[n], n, Find(Lower(FileLines(e, decode)[n]), ql).value)
        in Search(entries, query, glob, decode)
      ensures LineHit(e.relPath, FileLines(e, decode)[n], n, Find(Lower(FileLines(e, decode)[n]), ql).value)
        in SearchAsWritten(entries, query, glob, decode)
    {
      var m :| 0 <= m < |entries| && entries[m] == e;
      SearchCovers(entries, query, glob, decode, m);
      var lines := FileLines(e, decode);
      LineHitsSpec(e.relPath, lines, ql);
      var p := Classify(e, ql, GlobSuffix(glob), decode);
      assert PassHits(p) == (if p.nameHit.Some? then [p.nameHit.value] else []) + LineHits(e.relPath, lines, ql);
    }
  }

  // ---------------------------------------------------------------------
  // The cap as written
  // ---------------------------------------------------------------------

  /** As written, passes that never run the line loop are never cut off by the cap. */
  lemma {:induction false} AsWrittenKeepsNoTextPasses(ps: seq<Pass>, j: nat, acc: seq<SearchResult>)
    requires forall k :: j <= k < |ps| ==> !(ps[k].Visited? && ps[k].lines.Some?)
    ensures ScanAsWritten(ps, j, acc) == acc + AllHits(ps, j)
    decreases |ps| - j
  {
    if j < |ps| {
      var s := ScanPass(ps[j], acc);
      assert !s.reachedCapCheck;
      AsWrittenKeepsNoTextPasses(ps, j + 1, s.results);
      ConcatAssoc(acc, PassHits(ps[j]), AllHits(ps, j + 1));
    }
  }

  /**
   * As written, a walk without readable text files returns every filename
   * hit, however many there are: the result count has no bound, where the
   * corrected search never holds more than `MaxResults + 2`.
   */
  lemma AsWrittenUnboundedWithoutText(entries: seq<Entry>, query: string, glob: Option<string>,
                                      decode: Bytes -> string)
    requires forall e :: e in entries ==> !IsText(e)
    ensures SearchAsWritten(entries, query, glob, decode)
         == AllHits(Passes(entries, Lower(query), GlobSuffix(glob), decode), 0)
  {
    var ps := Passes(entries, Lower(query), GlobSuffix(glob), decode);
    forall k | 0 <= k < |ps| ensures !(ps[k].Visited? && ps[k].lines.Some?) {
      assert entries[k] in entries;
    }
    AsWrittenKeepsNoTextPasses(ps, 0, []);
    assert [] + AllHits(ps, 0) == AllHits(ps, 0);
  }

  /** A binary file whose name matches "a", and a text file "b" whose one line is "a". */
  const BinaryNamedA: Entry := Entry(true, "/r/a.bin", ["/", "r", "a.bin"], "a.bin", Some([0]))
  const TextHoldingA: Entry := Entry(true, "/r/b", ["/", "r", "b"], "b", Some([97]))

  /** The binary file is visited for its filename hit only. */
  lemma BinaryNamedAPass(decode: Bytes -> string)
    ensures Classify(BinaryNamedA, "a", None, decode) == Visited(Some(FilenameHit("a.bin")), None)
  {
    assert !HasIgnoredComponent(BinaryNamedA.components);
    assert Lower("a.bin") == "a.bin";
    assert OccursAt("a.bin", "a", 0);
    assert IsBinary([0]);
  }

  /** The text file is visited for its one line, which holds the query at column 1. */
  lemma TextHoldingAPass(decode: Bytes -> string)
    requires decode([97]) == "a"
    ensures Classify(TextHoldingA, "a", None, decode) == Visited(None, Some([Some(LineHit("b", "a", 0, 0))]))
  {
    assert !HasIgnoredComponent(TextHoldingA.components);
    assert Lower("b") == "b";
    assert !OccursAt("b", "a", 0);
    assert !IsBinary([97]);
    assert IndexOf("a", '\n') == None;
    assert Lines("a") == ["a"];
    assert Lower("a") == "a";
    assert OccursAt("a", "a", 0);
    assert Find("a", "a") == Some(0);
    assert LineOutcomes("b", ["a"], "a") == [Some(LineHit("b", "a", 0, 0))];
  }

  /** The two scans from a full result list onto a binary file's filename hit and then one line hit. */
  lemma ScansAtCap(ps: seq<Pass>, k: nat, before: seq<SearchResult>, nameHit: SearchResult, lineHit: SearchResult)
    requires k + 2 <= |ps| && |before| == MaxResults
    requires ps[k] == Visited(Some(nameHit), None)
    requires ps[k + 1] == Visited(None, Some([Some(lineHit)]))
    ensures ScanAsWritten(ps, k, before) == before + [nameHit, lineHit]
    ensures Scan(ps, k, before) == before + [nameHit]
  {
    assert ScanPass(ps[k], before) == Step(before + [nameHit], false);
    assert ScanLines([Some(lineHit)], 0, before + [nameHit]) == before + [nameHit] + [lineHit];
    assert ScanPass(ps[k + 1], before + [nameHit]) == Step(before + [nameHit] + [lineHit], true);
    assert before + [nameHit] + [lineHit] == before + [nameHit, lineHit];
  }

  /**
   * As written, a pass that ends in `continue` skips the cap check: after
   * earlier entries produced exactly `MaxResults` hits, the binary file's
   * filename hit takes the count over the cap, and the next file is still
   * scanned. With the check at the start of each pass the scan stops there.
   */
  lemma AsWrittenScansPastCap(earlier: seq<Entry>, decode: Bytes -> string)
    requires decode([97]) == "a"
    requires |AllHits(Passes(earlier, "a", None, decode), 0)| == MaxResults
    ensures var before := AllHits(Passes(earlier, "a", None, decode), 0);
      && SearchAsWritten(earlier + [BinaryNamedA, TextHoldingA], "a", None, decode)
           == before + [FilenameHit("a.bin"), LineHit("b", "a", 0, 0)]
      && Search(earlier + [BinaryNamedA, TextHoldingA], "a", None, decode)
           == before + [FilenameHit("a.bin")]
  {
    var later := [BinaryNamedA, TextHoldingA];
    var ps1 := Passes(earlier, "a", None, decode);
    var ps := ps1 + Passes(later, "a", None, decode);
    var before := AllHits(ps1, 0);
    assert Lower("a") == "a";
    PassesConcat(earlier, later, "a", None, decode);
    ScanConcat(ps1, Passes(later, "a", None, decode), 0, []);
    assert [] + before == before;
    BinaryNamedAPass(decode);
    TextHoldingAPass(decode);
    ScansAtCap(ps, |ps1|, before, FilenameHit("a.bin"), LineHit("b", "a", 0, 0));
  }
}
