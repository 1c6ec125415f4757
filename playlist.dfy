/** `fix_playlist`: read a playlist's lines, find the references whose target
    does not exist, resolve them one by one in file order, and overwrite each
    resolved line in place, saving the whole playlist after every fix. The
    file system is abstract: path resolution, existence and `os.path.relpath`
    are functions handed in. */
module Playlist {
  import opened Optional
  import opened PyStrings
  import opened ArtistSong
  import opened Resolution

  /** What the rewriter asks of the file system.
      - `normalize(p)`: `str(Path(p))` for an absolute `p`, pathlib's
        spelling of it (no repeated "/", no "." parts, no trailing "/").
      - `resolveInBase(p)`: `(playlist_base / p).resolve()` for a relative `p`.
      - `fileExists(p)`: `Path(p).exists()`.
      - `relpath(p)`: `os.path.relpath(p, start=OUTPUT_DIR.resolve())`, or None
        where it raises `ValueError`. */
  datatype PathEnv = PathEnv(normalize: string -> string,
                             resolveInBase: string -> string,
                             fileExists: string -> bool,
                             relpath: string -> Option<string>)

  /** POSIX `Path.is_absolute()`. */
  predicate IsAbsolute(p: string) {
    |p| > 0 && p[0] == '/'
  }

  /** The absolute path a playlist line refers to. */
  function FullPath(env: PathEnv, line: string): string {
    if IsAbsolute(line) then env.normalize(line) else env.resolveInBase(line)
  }

  datatype LineKind = Blank | Comment | Reference

  /** A stripped line is blank, a '#' comment, or a reference to a file. */
  function Classify(line: string): LineKind {
    if line == "" then Blank
    else if line[0] == '#' then Comment
    else Reference
  }

  /** A reference whose target does not exist. */
  predicate IsBroken(env: PathEnv, line: string) {
    Classify(line) == Reference && !env.fileExists(FullPath(env, line))
  }

  /** The `(idx, line, full_path)` triples of `broken_entries`. */
  datatype BrokenEntry = BrokenEntry(idx: nat, line: string, fullPath: string)

  /** Every line of the file, stripped. */
  function LoadLines(raw: seq<string>): (lines: seq<string>)
    ensures |lines| == |raw|
  {
    if raw == [] then [] else LoadLines(raw[..|raw| - 1]) + [Strip(raw[|raw| - 1])]
  }

  /** Loading keeps line `i` as line `i`, stripped. */
  lemma {:induction false} LoadLinesAt(raw: seq<string>, i: nat)
    requires i < |raw|
    ensures LoadLines(raw)[i] == Strip(raw[i])
  {
    if i < |raw| - 1 {
      LoadLinesAt(raw[..|raw| - 1], i);
    }
  }

  /** The broken entries of `lines`, in line order. */
  function BrokenEntries(env: PathEnv, lines: seq<string>): seq<BrokenEntry> {
    if lines == [] then []
    else
      var n := |lines| - 1;
      BrokenEntries(env, lines[..n]) +
      (if IsBroken(env, lines[n]) then [BrokenEntry(n, lines[n], FullPath(env, lines[n]))] else [])
  }

  lemma BrokenEntriesSnoc(env: PathEnv, lines: seq<string>, line: string)
    ensures BrokenEntries(env, lines + [line]) ==
            BrokenEntries(env, lines) +
            (if IsBroken(env, line) then [BrokenEntry(|lines|, line, FullPath(env, line))] else [])
  {
    assert (lines + [line])[..|lines|] == lines;
  }

  /** Each entry names a broken line of `lines` by its index, text and full path. */
  predicate EntriesOf(env: PathEnv, lines: seq<string>, b: seq<BrokenEntry>) {
    forall k :: 0 <= k < |b| ==>
      b[k].idx < |lines| && b[k].line == lines[b[k].idx] &&
      b[k].fullPath == FullPath(env, b[k].line) && IsBroken(env, b[k].line)
  }

  /** Entries in strictly ascending line order. */
  predicate Ascending(b: seq<BrokenEntry>) {
    forall k, m :: 0 <= k < m < |b| ==> b[k].idx < b[m].idx
  }

  /** Every broken line of `lines` has an entry. */
  predicate CoversBroken(env: PathEnv, lines: seq<string>, b: seq<BrokenEntry>) {
    forall i :: 0 <= i < |lines| && IsBroken(env, lines[i]) ==> exists k :: 0 <= k < |b| && b[k].idx == i
  }

  /** Each of `broken_entries` is a broken line with its own index, text and
      full path, and they come in strictly ascending line order. */
  lemma {:induction false} BrokenEntriesSound(env: PathEnv, lines: seq<string>)
    ensures EntriesOf(env, lines, BrokenEntries(env, lines))
    ensures Ascending(BrokenEntries(env, lines))
  {
    if lines != [] {
      var n := |lines| - 1;
      BrokenEntriesSound(env, lines[..n]);
      var front := BrokenEntries(env, lines[..n]);
      var b := BrokenEntries(env, lines);
      assert forall k :: 0 <= k < |front| ==> b[k] == front[k];
    }
  }

  /** Every broken line is among `broken_entries`. */
  lemma {:induction false} BrokenEntriesComplete(env: PathEnv, lines: seq<string>)
    ensures CoversBroken(env, lines, BrokenEntries(env, lines))
  {
    if lines != [] {
      var n := |lines| - 1;
      BrokenEntriesComplete(env, lines[..n]);
      var front := BrokenEntries(env, lines[..n]);
      var b := BrokenEntries(env, lines);
      forall i | 0 <= i < |lines| && IsBroken(env, lines[i])
        ensures exists k :: 0 <= k < |b| && b[k].idx == i
      {
        if i < n {
          assert lines[..n][i] == lines[i];
          var k :| 0 <= k < |front| && front[k].idx == i;
          assert b[k].idx == i;
        } else {
          assert b[|b| - 1].idx == i;
        }
      }
    }
  }

  /** The line indices of the first `count` broken entries. */
  function FixedLines(broken: seq<BrokenEntry>, count: nat): (ix: set<nat>)
    ensures forall k :: 0 <= k < count && k < |broken| ==> broken[k].idx in ix
  {
    if count == 0 || broken == [] then {}
    else if count > |broken| then FixedLines(broken, |broken|)
    else FixedLines(broken, count - 1) + {broken[count - 1].idx}
  }

  /** Each index in `FixedLines` is that of one of the first `count` entries. */
  lemma {:induction false} FixedLinesFrom(broken: seq<BrokenEntry>, count: nat, i: nat)
    requires i in FixedLines(broken, count)
    ensures exists k :: 0 <= k < count && k < |broken| && broken[k].idx == i
    decreases count
  {
    if count > |broken| {
      FixedLinesFrom(broken, |broken|, i);
    } else if i !in FixedLines(broken, count - 1) {
      assert broken[count - 1].idx == i;
    } else {
      FixedLinesFrom(broken, count - 1, i);
    }
  }


  /** Python's `if match:` on the result of a resolution. */
  predicate Truthy(found: Option<string>) {
    found.Some? && found.value != ""
  }

  /** The new text of a fixed line: the match relative to the output
      directory, or the match itself when no relative path exists. */
  function NewText(env: PathEnv, found: string): string {
    match env.relpath(found)
    case Some(rel) => rel
    case None => found
  }

  /** The text line `broken[k].idx` ends up with once its resolution is `found`. */
  function Rewritten(env: PathEnv, entry: BrokenEntry, found: Option<string>): string {
    if Truthy(found) then NewText(env, found.value) else entry.line
  }

  /** How many results are truthy, that is, how many fixes were saved. */
  function CountTruthy(founds: seq<Option<string>>): nat {
    if founds == [] then 0
    else CountTruthy(founds[..|founds| - 1]) + (if Truthy(founds[|founds| - 1]) then 1 else 0)
  }

  /** Resolving one broken path against the operator's remaining input:
      the path, the remaining key codes, the remaining typed lines. */
  type Resolver = (string, seq<int>, seq<string>) -> Outcome

  /** `find_best_match_with_prompt` over a fixed candidate list and ratio. */
  function PromptResolver(candidates: seq<string>, ratio: (string, string) -> real): Resolver {
    (p, ks, as_) => Resolve(p, candidates, ratio, ks, as_)
  }

  /** `step` agrees with `find_best_match_with_prompt` wherever the latter's
      outcome is mentioned. */
  ghost predicate RunsPrompt(step: Resolver, candidates: seq<string>, ratio: (string, string) -> real) {
    forall p, ks, as_ {:trigger Resolve(p, candidates, ratio, ks, as_)} ::
      step(p, ks, as_) == Resolve(p, candidates, ratio, ks, as_)
  }

  /** A resolver reads no more input than it is given. */
  ghost predicate Consumes(step: Resolver) {
    forall p, ks, as_ :: step(p, ks, as_).usedKeys <= |ks| && step(p, ks, as_).usedAnswers <= |as_|
  }

  /** A resolver finds only candidates or the text of the first typed line. */
  ghost predicate FindsIn(step: Resolver, candidates: seq<string>) {
    forall p, ks, as_ ::
      var o := step(p, ks, as_);
      o.res.Resolved? && o.res.found.Some? ==>
        o.res.found.value in candidates ||
        (o.usedAnswers == 1 && |as_| > 0 && o.res.found == TypedPath(as_[0]))
  }

  /** A resolver appends at most the resolved path's own line, `lineOf(p)`,
      to the missing-songs file. */
  ghost predicate AppendsOwnLine(step: Resolver, lineOf: string -> string) {
    forall p, ks, as_ :: step(p, ks, as_).missing == [] || step(p, ks, as_).missing == [lineOf(p)]
  }

  /** `find_best_match_with_prompt` reads no more input than it is given. */
  lemma PromptResolverConsumes(candidates: seq<string>, ratio: (string, string) -> real)
    ensures Consumes(PromptResolver(candidates, ratio))
  {
    forall p, ks, as_ {
      ResolveBounds(p, candidates, ratio, ks, as_);
    }
  }

  /** `find_best_match_with_prompt` finds only candidates or typed text, and
      appends at most the broken path's own missing-songs line. */
  lemma PromptResolverBounds(candidates: seq<string>, ratio: (string, string) -> real)
    ensures FindsIn(PromptResolver(candidates, ratio), candidates)
    ensures AppendsOwnLine(PromptResolver(candidates, ratio), MissingSongsLine)
  {
    forall p, ks, as_ {
      ResolveBounds(p, candidates, ratio, ks, as_);
    }
  }

  /** The resolutions of a list of broken entries, in order: what each one
      found, the missing-songs lines appended, and whether the operator's input
      ran out before the list was done. */
  datatype Batch = Batch(found: seq<Option<string>>, missing: seq<string>, stalled: bool)

  function ResolveAll(entries: seq<BrokenEntry>, step: Resolver,
                      keys: seq<int>, answers: seq<string>): Batch
    requires Consumes(step)
    decreases |entries|
  {
    if entries == [] then Batch([], [], false)
    else
      var o := step(entries[0].fullPath, keys, answers);
      if o.res.AwaitingInput? then Batch([], [], true)
      else
        var rest := ResolveAll(entries[1..], step, keys[o.usedKeys..], answers[o.usedAnswers..]);
        Batch([o.res.found] + rest.found, o.missing + rest.missing, rest.stalled)
  }

  /** The broken entries resolved one after another by
      `find_best_match_with_prompt`, each from the input the previous ones left. */
  function ResolveEntries(entries: seq<BrokenEntry>, candidates: seq<string>,
                          ratio: (string, string) -> real,
                          keys: seq<int>, answers: seq<string>): Batch
  {
    PromptResolverConsumes(candidates, ratio);
    ResolveAll(entries, PromptResolver(candidates, ratio), keys, answers)
  }

  /** Entries are resolved in order until input runs out: one result per
      resolved entry, a prefix of the list, shorter only when stalled. */
  lemma {:induction false} ResolveAllLength(entries: seq<BrokenEntry>, step: Resolver,
                                            keys: seq<int>, answers: seq<string>)
    requires Consumes(step)
    ensures var b := ResolveAll(entries, step, keys, answers);
            |b.found| <= |entries| && (|b.found| < |entries| <==> b.stalled)
    decreases |entries|
  {
    if entries != [] {
      var o := step(entries[0].fullPath, keys, answers);
      if !o.res.AwaitingInput? {
        ResolveAllLength(entries[1..], step, keys[o.usedKeys..], answers[o.usedAnswers..]);
      }
    }
  }

  lemma InSuffix<T>(s: seq<T>, i: nat, x: T)
    requires i <= |s| && x in s[i..]
    ensures x in s
  {
    var j :| 0 <= j < |s[i..]| && s[i..][j] == x;
    assert s[i + j] == x;
  }

  /** Every path a batch finds is a candidate or the stripped text of one of
      the typed lines. */
  lemma {:induction false} ResolveAllFound(entries: seq<BrokenEntry>, step: Resolver,
                                           candidates: seq<string>,
                                           keys: seq<int>, answers: seq<string>)
    requires Consumes(step) && FindsIn(step, candidates)
    ensures forall k :: 0 <= k < |ResolveAll(entries, step, keys, answers).found| &&
                        ResolveAll(entries, step, keys, answers).found[k].Some? ==>
              ResolveAll(entries, step, keys, answers).found[k].value in candidates ||
              exists a :: a in answers && ResolveAll(entries, step, keys, answers).found[k] == TypedPath(a)
    decreases |entries|
  {
    if entries != [] {
      var o := step(entries[0].fullPath, keys, answers);
      if !o.res.AwaitingInput? {
        var ks, as_ := keys[o.usedKeys..], answers[o.usedAnswers..];
        ResolveAllFound(entries[1..], step, candidates, ks, as_);
        var rest := ResolveAll(entries[1..], step, ks, as_);
        var found := ResolveAll(entries, step, keys, answers).found;
        assert found == [o.res.found] + rest.found;
        forall k | 0 <= k < |found| && found[k].Some?
          ensures found[k].value in candidates || exists a :: a in answers && found[k] == TypedPath(a)
        {
          if k == 0 {
            if found[0].value !in candidates {
              assert answers[0] in answers;
            }
          } else {
            assert found[k] == rest.found[k - 1];
            if rest.found[k - 1].value !in candidates {
              var a :| a in as_ && rest.found[k - 1] == TypedPath(a);
              InSuffix(answers, o.usedAnswers, a);
            }
          }
        }
      }
    }
  }

  /** Every line a batch appends to the missing-songs file is the line of one
      of its resolved entries. */
  lemma {:induction false} ResolveAllMissing(entries: seq<BrokenEntry>, step: Resolver,
                                             lineOf: string -> string,
                                             keys: seq<int>, answers: seq<string>)
    requires Consumes(step) && AppendsOwnLine(step, lineOf)
    ensures forall line :: line in ResolveAll(entries, step, keys, answers).missing ==>
              exists k :: 0 <= k < |ResolveAll(entries, step, keys, answers).found| && k < |entries| &&
                          line == lineOf(entries[k].fullPath)
    decreases |entries|
  {
    if entries != [] {
      var o := step(entries[0].fullPath, keys, answers);
      if !o.res.AwaitingInput? {
        var ks, as_ := keys[o.usedKeys..], answers[o.usedAnswers..];
        ResolveAllMissing(entries[1..], step, lineOf, ks, as_);
        var rest := ResolveAll(entries[1..], step, ks, as_);
        var b := ResolveAll(entries, step, keys, answers);
        assert b.found == [o.res.found] + rest.found;
        assert b.missing == o.missing + rest.missing;
        forall line | line in b.missing
          ensures exists k :: 0 <= k < |b.found| && k < |entries| && line == lineOf(entries[k].fullPath)
        {
          if line in o.missing {
            assert line == lineOf(entries[0].fullPath);
          } else {
            var k :| 0 <= k < |rest.found| && k < |entries| - 1 && line == lineOf(entries[1..][k].fullPath);
            assert line == lineOf(entries[k + 1].fullPath);
          }
        }
      }
    }
  }

  /** A batch whose first results were already known. */
  function After(found: seq<Option<string>>, missing: seq<string>, rest: Batch): Batch {
    Batch(found + rest.found, missing + rest.missing, rest.stalled)
  }

  /** Resolvers that agree everywhere give the same batch. */
  lemma {:induction false} ResolveAllCongruent(entries: seq<BrokenEntry>, s1: Resolver, s2: Resolver,
                                               keys: seq<int>, answers: seq<string>)
    requires Consumes(s1) && Consumes(s2)
    requires forall p, ks, as_ :: s1(p, ks, as_) == s2(p, ks, as_)
    ensures ResolveAll(entries, s1, keys, answers) == ResolveAll(entries, s2, keys, answers)
    decreases |entries|
  {
    if entries != [] {
      var o := s1(entries[0].fullPath, keys, answers);
      if !o.res.AwaitingInput? {
        ResolveAllCongruent(entries[1..], s1, s2, keys[o.usedKeys..], answers[o.usedAnswers..]);
      }
    }
  }

  /** A resolver that agrees with `find_best_match_with_prompt` resolves a
      list of entries as `ResolveEntries` does. */
  lemma PromptBatch(entries: seq<BrokenEntry>, step: Resolver, candidates: seq<string>,
                    ratio: (string, string) -> real, keys: seq<int>, answers: seq<string>)
    requires Consumes(step) && RunsPrompt(step, candidates, ratio)
    ensures ResolveAll(entries, step, keys, answers) == ResolveEntries(entries, candidates, ratio, keys, answers)
  {
    PromptResolverConsumes(candidates, ratio);
    forall p, ks, as_ ensures step(p, ks, as_) == PromptResolver(candidates, ratio)(p, ks, as_) {
      assert PromptResolver(candidates, ratio)(p, ks, as_) == Resolve(p, candidates, ratio, ks, as_);
    }
    ResolveAllCongruent(entries, step, PromptResolver(candidates, ratio), keys, answers);
  }

  /** One more entry of a batch: a stalled entry ends it, a resolved one is
      followed by the rest of the list on the input it left. */
  lemma ResolveAllNext(entries: seq<BrokenEntry>, k: nat, step: Resolver,
                       keys: seq<int>, answers: seq<string>)
    requires Consumes(step) && k < |entries|
    ensures var o := step(entries[k].fullPath, keys, answers);
            var here := ResolveAll(entries[k..], step, keys, answers);
            if o.res.AwaitingInput? then here == Batch([], [], true)
            else
              var rest := ResolveAll(entries[k + 1..], step, keys[o.usedKeys..], answers[o.usedAnswers..]);
              here == Batch([o.res.found] + rest.found, o.missing + rest.missing, rest.stalled)
  {
    assert entries[k..][1..] == entries[k + 1..];
  }

  /** The lines after the first `|founds|` broken entries were resolved to
      `founds`: those entries' lines rewritten, every other line as loaded. */
  predicate RewrittenUpTo(env: PathEnv, loaded: seq<string>, lines: seq<string>,
                          broken: seq<BrokenEntry>, founds: seq<Option<string>>) {
    |lines| == |loaded| && |founds| <= |broken| &&
    (forall m :: 0 <= m < |founds| ==>
       broken[m].idx < |lines| && lines[broken[m].idx] == Rewritten(env, broken[m], founds[m])) &&
    (forall i :: 0 <= i < |lines| && i !in FixedLines(broken, |founds|) ==> lines[i] == loaded[i])
  }

  /** Every entry names a line of `loaded` by its index and text. */
  predicate LinesOf(loaded: seq<string>, broken: seq<BrokenEntry>) {
    forall k :: 0 <= k < |broken| ==> broken[k].idx < |loaded| && broken[k].line == loaded[broken[k].idx]
  }

  /** The playlist after the first `|founds|` broken entries were resolved to
      `founds`, one assignment `lines[idx] = ...` per truthy result. */
  function ApplyFixes(env: PathEnv, loaded: seq<string>, broken: seq<BrokenEntry>,
                      founds: seq<Option<string>>): (lines: seq<string>)
    requires |founds| <= |broken| && LinesOf(loaded, broken)
    ensures |lines| == |loaded|
  {
    if founds == [] then loaded
    else
      var n := |founds| - 1;
      var prev := ApplyFixes(env, loaded, broken, founds[..n]);
      if Truthy(founds[n]) then prev[broken[n].idx := NewText(env, founds[n].value)] else prev
  }

  /** The saves of the output file after the first `|founds|` broken entries
      were resolved to `founds`: one snapshot of the whole playlist right
      after each truthy result's rewrite. */
  function SavesOf(env: PathEnv, loaded: seq<string>, broken: seq<BrokenEntry>,
                   founds: seq<Option<string>>): (saves: seq<seq<string>>)
    requires |founds| <= |broken| && LinesOf(loaded, broken)
    ensures |saves| == CountTruthy(founds)
  {
    if founds == [] then []
    else
      var n := |founds| - 1;
      SavesOf(env, loaded, broken, founds[..n]) +
      (if Truthy(founds[n]) then [ApplyFixes(env, loaded, broken, founds)] else [])
  }

  /** Save `j` is the playlist exactly as it stood right after the `j + 1`-th
      truthy result was written into it. */
  lemma SavesAreSnapshots(env: PathEnv, loaded: seq<string>, broken: seq<BrokenEntry>,
                          founds: seq<Option<string>>, j: nat)
    requires |founds| <= |broken| && LinesOf(loaded, broken)
    requires j < |SavesOf(env, loaded, broken, founds)|
    ensures exists m :: 0 <= m < |founds| && Truthy(founds[m]) && CountTruthy(founds[..m + 1]) == j + 1 &&
                        SavesOf(env, loaded, broken, founds)[j] == ApplyFixes(env, loaded, broken, founds[..m + 1])
  {
    var m := SaveIndex(env, loaded, broken, founds, j);
  }

  /** The result index behind save `j`, found by induction. */
  lemma {:induction false} SaveIndex(env: PathEnv, loaded: seq<string>, broken: seq<BrokenEntry>,
                                     founds: seq<Option<string>>, j: nat) returns (m: nat)
    requires |founds| <= |broken| && LinesOf(loaded, broken)
    requires j < |SavesOf(env, loaded, broken, founds)|
    ensures m < |founds| && Truthy(founds[m]) && CountTruthy(founds[..m + 1]) == j + 1
    ensures SavesOf(env, loaded, broken, founds)[j] == ApplyFixes(env, loaded, broken, founds[..m + 1])
  {
    var n := |founds| - 1;
    var prev := SavesOf(env, loaded, broken, founds[..n]);
    if j < |prev| {
      m := SaveIndex(env, loaded, broken, founds[..n], j);
      assert founds[..n][..m + 1] == founds[..m + 1];
    } else {
      m := n;
      assert founds[..m + 1] == founds;
    }
  }

  /** The last save is the current playlist: results that are not truthy
      change no line. */
  lemma {:induction false} SavesLast(env: PathEnv, loaded: seq<string>, broken: seq<BrokenEntry>,
                                     founds: seq<Option<string>>)
    requires |founds| <= |broken| && LinesOf(loaded, broken)
    ensures var saves := SavesOf(env, loaded, broken, founds);
            |saves| > 0 ==> saves[|saves| - 1] == ApplyFixes(env, loaded, broken, founds)
  {
    if founds != [] && !Truthy(founds[|founds| - 1]) {
      SavesLast(env, loaded, broken, founds[..|founds| - 1]);
    }
  }

  /** Applying the fixes rewrites exactly the resolved entries' lines that got
      a truthy result, each to its relative (else absolute) match, and keeps
      every other line. */
  lemma {:induction false} ApplyFixesRewrites(env: PathEnv, loaded: seq<string>, broken: seq<BrokenEntry>,
                                              founds: seq<Option<string>>)
    requires LinesOf(loaded, broken) && Ascending(broken) && |founds| <= |broken|
    ensures RewrittenUpTo(env, loaded, ApplyFixes(env, loaded, broken, founds), broken, founds)
  {
    if founds != [] {
      var n := |founds| - 1;
      var prev := ApplyFixes(env, loaded, broken, founds[..n]);
      ApplyFixesRewrites(env, loaded, broken, founds[..n]);
      assert founds[..n] + [founds[n]] == founds;
      RewriteNext(env, loaded, prev, broken, founds[..n], founds[n],
                  ApplyFixes(env, loaded, broken, founds), founds);
    }
  }

  /** Resolving the next entry rewrites its own line only when the result is
      truthy, and leaves the earlier entries' lines alone. */
  lemma RewriteNext(env: PathEnv, loaded: seq<string>, lines: seq<string>,
                    broken: seq<BrokenEntry>, founds: seq<Option<string>>, found: Option<string>,
                    next: seq<string>, founds': seq<Option<string>>)
    requires LinesOf(loaded, broken) && Ascending(broken)
    requires RewrittenUpTo(env, loaded, lines, broken, founds) && |founds| < |broken|
    requires next == if Truthy(found) then lines[broken[|founds|].idx := NewText(env, found.value)] else lines
    requires founds' == founds + [found]
    ensures RewrittenUpTo(env, loaded, next, broken, founds')
  {
    var k := |founds|;
    var idx := broken[k].idx;
    forall m | 0 <= m < |founds'|
      ensures broken[m].idx < |next| && next[broken[m].idx] == Rewritten(env, broken[m], founds'[m])
    {
      if m < k {
        assert broken[m].idx < idx;
      } else if !Truthy(found) && idx in FixedLines(broken, k) {
        FixedLinesFrom(broken, k, idx);
        assert false;
      }
    }
    forall i | 0 <= i < |next| && i !in FixedLines(broken, |founds'|)
      ensures next[i] == loaded[i]
    {
      assert i != idx;
      assert FixedLines(broken, |founds'|) == FixedLines(broken, k) + {idx};
    }
  }

  /** The loading half of `fix_playlist`: strip every line, and note each
      broken reference with its index, text and full path. */
  method LoadPlaylist(raw: seq<string>, env: PathEnv) returns (lines: seq<string>, broken: seq<BrokenEntry>)
    ensures lines == LoadLines(raw)
    ensures broken == BrokenEntries(env, lines)
  {
    lines, broken := [], [];
    var idx := 0;
    while idx < |raw|
      invariant 0 <= idx <= |raw|
      invariant lines == LoadLines(raw[..idx])
      invariant broken == BrokenEntries(env, lines)
    {
      var line := Strip(raw[idx]);
      var next := broken;
      if !(line == "" || line[0] == '#') {
        var fullPath := if IsAbsolute(line) then env.normalize(line) else env.resolveInBase(line);
        if !env.fileExists(fullPath) {
          next := broken + [BrokenEntry(idx, line, fullPath)];
        }
      }
      LoadStep(env, raw, idx, lines, broken, line, next);
      lines, broken := lines + [line], next;
      idx := idx + 1;
    }
    assert raw[..idx] == raw;
  }

  /** One pass of the load loop: the stripped line joins the lines, and the
      entries gain it exactly when it is broken. */
  lemma LoadStep(env: PathEnv, raw: seq<string>, idx: nat, lines: seq<string>, broken: seq<BrokenEntry>,
                 line: string, next: seq<BrokenEntry>)
    requires idx < |raw| && lines == LoadLines(raw[..idx]) && broken == BrokenEntries(env, lines)
    requires line == Strip(raw[idx])
    requires next == if IsBroken(env, line) then broken + [BrokenEntry(idx, line, FullPath(env, line))] else broken
    ensures lines + [line] == LoadLines(raw[..idx + 1])
    ensures next == BrokenEntries(env, lines + [line])
  {
    BrokenEntriesSnoc(env, lines, line);
    assert raw[..idx + 1][..idx] == raw[..idx];
  }

  /** The resolving half of `fix_playlist`: resolve the broken entries in
      order on the operator's input, rewrite each line whose result is truthy,
      and save the playlist after every rewrite. */
  method ResolveAndSave(loaded: seq<string>, broken: seq<BrokenEntry>, env: PathEnv,
                        candidates: seq<string>, ratio: (string, string) -> real,
                        keys: seq<int>, answers: seq<string>, ghost step: Resolver)
    returns (lines: seq<string>, founds: seq<Option<string>>,
             saves: seq<seq<string>>, missing: seq<string>)
    requires LinesOf(loaded, broken)
    requires Consumes(step) && RunsPrompt(step, candidates, ratio)
    ensures |founds| <= |broken|
    ensures ResolveAll(broken, step, keys, answers) == Batch(founds, missing, |founds| < |broken|)
    ensures lines == ApplyFixes(env, loaded, broken, founds)
    ensures saves == SavesOf(env, loaded, broken, founds)
    ensures |saves| == CountTruthy(founds)
    ensures |saves| > 0 ==> saves[|saves| - 1] == lines
  {
    ghost var batch := ResolveAll(broken, step, keys, answers);
    ghost var stalled, ks, as_;
    lines, founds, saves, missing, ks, as_, stalled := FixEach(loaded, broken, env, candidates, ratio, keys, answers, step);
    FixDone(env, loaded, broken, step, batch, founds, missing, ks, as_, lines, saves, stalled);
  }

  /** The loop `for ... in enumerate(broken_entries, start=1)`, run until the
      last entry or until a prompt waits for input, which `stalled` reports.
      `ks` and `as_` are the keys and typed lines left over. */
  method FixEach(loaded: seq<string>, broken: seq<BrokenEntry>, env: PathEnv,
                 candidates: seq<string>, ratio: (string, string) -> real,
                 keys: seq<int>, answers: seq<string>, ghost step: Resolver)
    returns (lines: seq<string>, founds: seq<Option<string>>, saves: seq<seq<string>>,
             missing: seq<string>, ks: seq<int>, as_: seq<string>, ghost stalled: bool)
    requires LinesOf(loaded, broken)
    requires Consumes(step) && RunsPrompt(step, candidates, ratio)
    ensures |founds| <= |broken|
    ensures FixedSoFar(env, loaded, broken, step, ResolveAll(broken, step, keys, answers),
                       founds, missing, ks, as_, lines, saves)
    ensures stalled ==> ResolveAll(broken, step, keys, answers) == Batch(founds, missing, true)
    ensures !stalled ==> |founds| == |broken|
  {
    ghost var batch := ResolveAll(broken, step, keys, answers);
    lines, founds, saves, missing := loaded, [], [], [];
    ks, as_ := keys, answers;
    stalled := false;
    FixStart(env, loaded, broken, step, keys, answers);
    while |founds| < |broken|
      invariant |founds| <= |broken| && !stalled
      invariant FixedSoFar(env, loaded, broken, step, batch, founds, missing, ks, as_, lines, saves)
      decreases |broken| - |founds|
    {
      var waits, founds', missing', ks', as_', next, saved :=
        FixEntry(env, loaded, broken, candidates, ratio, step, batch, founds, missing, ks, as_, lines, saves);
      if waits {
        stalled := true;
        break;
      }
      lines, saves := next, saved;
      founds, missing, ks, as_ := founds', missing', ks', as_';
    }
  }

  /** One pass of the fix loop over entry `|founds|`: prompt for it, and
      when an answer comes, rewrite its line and save if the answer is
      truthy. `waits` says that the prompt is still waiting for input, which
      is where the batch stops. */
  method FixEntry(env: PathEnv, loaded: seq<string>, broken: seq<BrokenEntry>,
                  candidates: seq<string>, ratio: (string, string) -> real, ghost step: Resolver,
                  ghost batch: Batch, founds: seq<Option<string>>, missing: seq<string>,
                  ks: seq<int>, as_: seq<string>, lines: seq<string>, saves: seq<seq<string>>)
    returns (waits: bool, founds': seq<Option<string>>, missing': seq<string>,
             ks': seq<int>, as_': seq<string>, next: seq<string>, saved: seq<seq<string>>)
    requires RunsPrompt(step, candidates, ratio)
    requires LinesOf(loaded, broken) && Consumes(step) && |founds| <= |broken|
    requires FixedSoFar(env, loaded, broken, step, batch, founds, missing, ks, as_, lines, saves)
    requires |founds| < |broken|
    ensures waits ==> batch == Batch(founds, missing, true)
    ensures !waits ==> |founds'| == |founds| + 1 <= |broken| && FixedSoFar(env, loaded, broken, step, batch, founds', missing', ks', as_', next, saved)
  {
    var entry := broken[|founds|];
    var res, uk, ua, miss := PromptFor(entry.fullPath, candidates, ratio, ks, as_, step);
    if res.AwaitingInput? {
      StalledBatch(env, loaded, broken, step, batch, founds, missing, ks, as_, lines, saves);
      return true, founds, missing, ks, as_, lines, saves;
    }
    var found := res.found;
    next := if Truthy(found) then lines[entry.idx := NewText(env, found.value)] else lines;
    saved := if Truthy(found) then saves + [next] else saves;
    waits, founds', missing', ks', as_' := false, founds + [found], missing + miss, ks[uk..], as_[ua..];
    FixLoopStep(env, loaded, broken, step, batch, founds, missing, ks, as_, lines, saves,
                Outcome(res, uk, ua, miss), founds', missing', ks', as_', next, saved);
  }

  /** Before the fix loop, nothing is resolved: the whole batch is still to
      come, the lines are as loaded and nothing is saved. */
  lemma FixStart(env: PathEnv, loaded: seq<string>, broken: seq<BrokenEntry>, step: Resolver,
                 keys: seq<int>, answers: seq<string>)
    requires LinesOf(loaded, broken) && Consumes(step)
    ensures FixedSoFar(env, loaded, broken, step, ResolveAll(broken, step, keys, answers),
                       [], [], keys, answers, loaded, [])
  {
    var batch := ResolveAll(broken, step, keys, answers);
    assert broken[0..] == broken;
    assert batch == After([], [], batch) by {
      assert [] + batch.found == batch.found && [] + batch.missing == batch.missing;
    }
  }

  /** Where the fix loop ends, by a stall or after the last entry, its state
      is the batch's outcome with the lines and saves that go with it. */
  lemma FixDone(env: PathEnv, loaded: seq<string>, broken: seq<BrokenEntry>, step: Resolver,
                batch: Batch, founds: seq<Option<string>>, missing: seq<string>,
                ks: seq<int>, as_: seq<string>, lines: seq<string>, saves: seq<seq<string>>, stalled: bool)
    requires LinesOf(loaded, broken) && Consumes(step) && |founds| <= |broken|
    requires FixedSoFar(env, loaded, broken, step, batch, founds, missing, ks, as_, lines, saves)
    requires stalled ==> batch == Batch(founds, missing, true)
    requires !stalled ==> |founds| == |broken|
    ensures |founds| <= |broken|
    ensures batch == Batch(founds, missing, |founds| < |broken|)
    ensures lines == ApplyFixes(env, loaded, broken, founds)
    ensures saves == SavesOf(env, loaded, broken, founds)
    ensures |saves| == CountTruthy(founds)
    ensures |saves| > 0 ==> saves[|saves| - 1] == lines
  {
    if !stalled {
      FinishedBatch(env, loaded, broken, step, batch, founds, missing, ks, as_, lines, saves);
    }
    SavesLast(env, loaded, broken, founds);
  }

  /** `find_best_match_with_prompt(full_path, music_files)` for one entry,
      described by the resolver `step` it agrees with. */
  method PromptFor(brokenPath: string, candidates: seq<string>, ratio: (string, string) -> real,
                   keys: seq<int>, answers: seq<string>, ghost step: Resolver)
    returns (res: Resolution, usedKeys: nat, usedAnswers: nat, missing: seq<string>)
    requires RunsPrompt(step, candidates, ratio)
    ensures Outcome(res, usedKeys, usedAnswers, missing) == step(brokenPath, keys, answers)
  {
    res, usedKeys, usedAnswers, missing := FindBestMatchWithPrompt(brokenPath, candidates, ratio, keys, answers);
  }

  /** One pass of the fix loop over entry `|founds|`, when its resolution
      does not stall, keeps the loop's invariant: the batch so far, the
      rewritten lines and the saves. */
  lemma FixLoopStep(env: PathEnv, loaded: seq<string>, broken: seq<BrokenEntry>, step: Resolver,
                    batch: Batch, founds: seq<Option<string>>, missing: seq<string>,
                    ks: seq<int>, as_: seq<string>, lines: seq<string>, saves: seq<seq<string>>,
                    o: Outcome, founds': seq<Option<string>>, missing': seq<string>,
                    ks': seq<int>, as_': seq<string>, next: seq<string>, saved: seq<seq<string>>)
    requires LinesOf(loaded, broken) && Consumes(step) && |founds| <= |broken|
    requires FixedSoFar(env, loaded, broken, step, batch, founds, missing, ks, as_, lines, saves)
    requires |founds| < |broken|
    requires o == step(broken[|founds|].fullPath, ks, as_) && o.res.Resolved?
    requires next == if Truthy(o.res.found) then lines[broken[|founds|].idx := NewText(env, o.res.found.value)]
                     else lines
    requires saved == if Truthy(o.res.found) then saves + [next] else saves
    requires founds' == founds + [o.res.found] && missing' == missing + o.missing
    requires ks' == ks[o.usedKeys..] && as_' == as_[o.usedAnswers..]
    ensures |founds'| <= |broken|
    ensures FixedSoFar(env, loaded, broken, step, batch, founds', missing', ks', as_', next, saved)
  {
    BatchNext(broken, step, batch, founds, missing, ks, as_, o);
    ApplyFixesSnoc(env, loaded, broken, founds, o.res.found);
    SavesOfSnoc(env, loaded, broken, founds, o.res.found);
    assert |founds'| == |founds| + 1;
    assert batch == After(founds', missing', ResolveAll(broken[|founds'|..], step, ks', as_'));
    assert next == ApplyFixes(env, loaded, broken, founds');
    assert saved == SavesOf(env, loaded, broken, founds');
  }

  /** The state of the fix loop once the first `|founds|` entries are
      resolved: the rest of the batch is what the remaining entries give on
      the remaining input, the lines carry the fixes so far, and there is one
      save per truthy result. */
  ghost predicate FixedSoFar(env: PathEnv, loaded: seq<string>, broken: seq<BrokenEntry>, step: Resolver,
                             batch: Batch, founds: seq<Option<string>>, missing: seq<string>,
                             ks: seq<int>, as_: seq<string>, lines: seq<string>, saves: seq<seq<string>>)
    requires LinesOf(loaded, broken) && Consumes(step) && |founds| <= |broken|
  {
    (batch, lines, saves) ==
      (After(founds, missing, ResolveAll(broken[|founds|..], step, ks, as_)),
       ApplyFixes(env, loaded, broken, founds),
       SavesOf(env, loaded, broken, founds))
  }

  /** An entry that waits for input ends the batch with what came before it. */
  lemma StalledBatch(env: PathEnv, loaded: seq<string>, broken: seq<BrokenEntry>, step: Resolver,
                     batch: Batch, founds: seq<Option<string>>, missing: seq<string>,
                     ks: seq<int>, as_: seq<string>, lines: seq<string>, saves: seq<seq<string>>)
    requires LinesOf(loaded, broken) && Consumes(step) && |founds| <= |broken|
    requires FixedSoFar(env, loaded, broken, step, batch, founds, missing, ks, as_, lines, saves)
    requires |founds| < |broken|
    requires step(broken[|founds|].fullPath, ks, as_).res.AwaitingInput?
    ensures batch == Batch(founds, missing, true)
  {
    ResolveAllNext(broken, |founds|, step, ks, as_);
    assert founds + [] == founds && missing + [] == missing;
  }

  /** Past the last entry the batch is complete. */
  lemma FinishedBatch(env: PathEnv, loaded: seq<string>, broken: seq<BrokenEntry>, step: Resolver,
                      batch: Batch, founds: seq<Option<string>>, missing: seq<string>,
                      ks: seq<int>, as_: seq<string>, lines: seq<string>, saves: seq<seq<string>>)
    requires LinesOf(loaded, broken) && Consumes(step) && |founds| <= |broken|
    requires FixedSoFar(env, loaded, broken, step, batch, founds, missing, ks, as_, lines, saves)
    requires |founds| == |broken|
    ensures batch == Batch(founds, missing, false)
  {
    assert broken[|founds|..] == [];
    assert founds + [] == founds && missing + [] == missing;
  }

  lemma BatchNext(broken: seq<BrokenEntry>, step: Resolver, batch: Batch,
                  founds: seq<Option<string>>, missing: seq<string>,
                  ks: seq<int>, as_: seq<string>, o: Outcome)
    requires Consumes(step) && |founds| < |broken|
    requires batch == After(founds, missing, ResolveAll(broken[|founds|..], step, ks, as_))
    requires o == step(broken[|founds|].fullPath, ks, as_) && o.res.Resolved?
    ensures batch == After(founds + [o.res.found], missing + o.missing,
                           ResolveAll(broken[|founds| + 1..], step, ks[o.usedKeys..], as_[o.usedAnswers..]))
  {
    var k := |founds|;
    ResolveAllNext(broken, k, step, ks, as_);
    AfterNext(founds, missing, o.res.found, o.missing,
              ResolveAll(broken[k + 1..], step, ks[o.usedKeys..], as_[o.usedAnswers..]));
  }

  lemma ApplyFixesSnoc(env: PathEnv, loaded: seq<string>, broken: seq<BrokenEntry>,
                       founds: seq<Option<string>>, found: Option<string>)
    requires LinesOf(loaded, broken) && |founds| < |broken|
    ensures ApplyFixes(env, loaded, broken, founds + [found]) ==
            if Truthy(found) then ApplyFixes(env, loaded, broken, founds)[broken[|founds|].idx := NewText(env, found.value)]
            else ApplyFixes(env, loaded, broken, founds)
  {
    assert (founds + [found])[..|founds|] == founds;
  }

  lemma SavesOfSnoc(env: PathEnv, loaded: seq<string>, broken: seq<BrokenEntry>,
                    founds: seq<Option<string>>, found: Option<string>)
    requires LinesOf(loaded, broken) && |founds| < |broken|
    ensures SavesOf(env, loaded, broken, founds + [found]) ==
            SavesOf(env, loaded, broken, founds) +
            if Truthy(found) then [ApplyFixes(env, loaded, broken, founds + [found])] else []
  {
    assert (founds + [found])[..|founds|] == founds;
  }

  lemma AfterNext(founds: seq<Option<string>>, missing: seq<string>,
                  found: Option<string>, miss: seq<string>, rest: Batch)
    ensures After(founds, missing, Batch([found] + rest.found, miss + rest.missing, rest.stalled)) ==
            After(founds + [found], missing + miss, rest)
  {
    assert founds + ([found] + rest.found) == founds + [found] + rest.found;
    assert missing + (miss + rest.missing) == missing + miss + rest.missing;
  }

  /** `fix_playlist` over the file's raw lines. Returns the final lines, the
      broken entries found, what each resolved entry found, every save of the
      output file, and the lines appended to the missing-songs file.
      - The broken entries are exactly the broken lines, in line order.
      - Entries are resolved in order; the run stops early only when the
        operator's input runs out.
      - The output has one line per input line. A resolved entry whose result
        is truthy has its line replaced by the relative (else absolute) match;
        every other line, comments and blanks included, is the stripped input.
      - The file is saved once per fix, each save holding the whole playlist
        as it stood right after that fix, and the last save is the final
        text. */
  method FixPlaylist(raw: seq<string>, env: PathEnv, candidates: seq<string>,
                     ratio: (string, string) -> real,
                     keys: seq<int>, answers: seq<string>)
    returns (lines: seq<string>, broken: seq<BrokenEntry>, founds: seq<Option<string>>,
             saves: seq<seq<string>>, missing: seq<string>)
    ensures broken == BrokenEntries(env, LoadLines(raw))
    ensures founds == ResolveEntries(broken, candidates, ratio, keys, answers).found
    ensures missing == ResolveEntries(broken, candidates, ratio, keys, answers).missing
    ensures |founds| < |broken| <==> ResolveEntries(broken, candidates, ratio, keys, answers).stalled
    ensures RewrittenUpTo(env, LoadLines(raw), lines, broken, founds)
    ensures forall i :: 0 <= i < |lines| && Classify(LoadLines(raw)[i]) != Reference ==>
              lines[i] == LoadLines(raw)[i]
    ensures LinesOf(LoadLines(raw), broken)
    ensures saves == SavesOf(env, LoadLines(raw), broken, founds)
    ensures |saves| == CountTruthy(founds)
    ensures |saves| > 0 ==> saves[|saves| - 1] == lines
  {
    var loaded;
    loaded, broken := LoadPlaylist(raw, env);
    BrokenEntriesSound(env, loaded);
    assert LinesOf(loaded, broken);
    PromptResolverConsumes(candidates, ratio);
    assert RunsPrompt(PromptResolver(candidates, ratio), candidates, ratio);
    ghost var step: Resolver :| Consumes(step) && RunsPrompt(step, candidates, ratio);
    lines, founds, saves, missing := ResolveAndSave(loaded, broken, env, candidates, ratio, keys, answers, step);
    PromptBatch(broken, step, candidates, ratio, keys, answers);
    ApplyFixesRewrites(env, loaded, broken, founds);
    forall i | 0 <= i < |lines| && Classify(loaded[i]) != Reference
      ensures lines[i] == loaded[i]
    {
      if i in FixedLines(broken, |founds|) {
        FixedLinesFrom(broken, |founds|, i);
      }
    }
  }
}
