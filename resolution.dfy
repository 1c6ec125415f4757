/** `find_best_match_with_prompt`: rank the candidates for one broken path,
    accept the best at once when it scores at least 0.9, otherwise ask the
    operator, either by a typed path (no candidates) or through the menu. The
    operator's input is two abstract streams: the key codes read by the menu
    and the lines typed at `input()` prompts. */
module Resolution {
  import opened Optional
  import opened PyStrings
  import opened ArtistSong
  import opened Ranking
  import opened Menu

  /** The Python result (a path or None), or the point where the operator's
      input has run out: the program blocks there, or raises `EOFError` when
      `input()` meets the end of its stream. */
  datatype Resolution = Resolved(found: Option<string>) | AwaitingInput

  /** `text if text else None` */
  function NonBlank(text: string): (r: Option<string>)
    ensures r.None? <==> text == ""
    ensures r.Some? ==> r.value == text
  {
    if text == "" then None else Some(text)
  }

  /** A typed answer as the program uses it: stripped, and None when blank. */
  function TypedPath(answer: string): (r: Option<string>)
    ensures r.None? <==> AllSpace(answer)
    ensures r.Some? ==> r.value == Strip(answer) && Trimmed(r.value)
  {
    NonBlank(Strip(answer))
  }

  /** Everything one resolution produces: the result, how many key codes and
      typed lines it read, and the line it appended to the missing-songs file,
      if any. */
  datatype Outcome = Outcome(res: Resolution, usedKeys: nat, usedAnswers: nat, missing: seq<string>)

  /** The resolution of one broken entry, as a function of the inputs.
      - When the top candidate scores at least 0.9 it is returned and nothing
        is read.
      - With no candidates, one line is read: its stripped text is returned
        when not blank; a blank line gives None and appends to the
        missing-songs file.
      - Otherwise the menu runs: Enter returns the highlighted candidate, 's'
        returns None, 'a' returns None and appends to the missing-songs file,
        'm' reads one line and returns its stripped text, or None when blank. */
  function Resolve(brokenPath: string, candidates: seq<string>,
                   ratio: (string, string) -> real,
                   keys: seq<int>, answers: seq<string>): Outcome
  {
    ResolveRanked(brokenPath, RankCandidates(brokenPath, candidates, ratio), keys, answers)
  }

  /** `Resolve` once the candidates are ranked. */
  function ResolveRanked(brokenPath: string, ranked: seq<Scored>,
                         keys: seq<int>, answers: seq<string>): Outcome
  {
    match Decide(ranked)
    case AutoAccept(p) => Outcome(Resolved(Some(p)), 0, 0, [])
    case NoCandidates =>
      if answers == [] then Outcome(AwaitingInput, 0, 0, [])
      else
        var typed := TypedPath(answers[0]);
        Outcome(Resolved(typed), 0, 1, if typed.None? then [MissingSongsLine(brokenPath)] else [])
    case AskOperator =>
      match RunMenu(ranked, Start, keys)
      case Waiting(_) => Outcome(AwaitingInput, |keys|, 0, [])
      case Decided(Selected(p), n) => Outcome(Resolved(Some(p)), n, 0, [])
      case Decided(Skip, n) => Outcome(Resolved(None), n, 0, [])
      case Decided(AddToMissing, n) => Outcome(Resolved(None), n, 0, [MissingSongsLine(brokenPath)])
      case Decided(ManualEntry, n) =>
        if answers == [] then Outcome(AwaitingInput, n, 0, [])
        else Outcome(Resolved(TypedPath(answers[0])), n, 1, [])
  }

  /** What a resolution can return and read: a found path is one of the
      candidates or the first typed line, stripped and not blank; at most one
      typed line and no more keys than given are read; at most the broken
      path's own missing-songs line is appended, and only when the result is
      None. */
  lemma ResolveBounds(brokenPath: string, candidates: seq<string>,
                      ratio: (string, string) -> real,
                      keys: seq<int>, answers: seq<string>)
    ensures var o := Resolve(brokenPath, candidates, ratio, keys, answers);
            o.usedKeys <= |keys| && o.usedAnswers <= |answers| && o.usedAnswers <= 1 &&
            (o.missing == [] || (o.missing == [MissingSongsLine(brokenPath)] &&
                                 o.res == Resolved(None))) &&
            (o.res.Resolved? && o.res.found.Some? ==>
               o.res.found.value in candidates ||
               (o.usedAnswers == 1 && o.res.found == TypedPath(answers[0])))
  {
    var ranked := RankCandidates(brokenPath, candidates, ratio);
    ResolveRankedBounds(brokenPath, ranked, keys, answers);
    var o := ResolveRanked(brokenPath, ranked, keys, answers);
    if o.res.Resolved? && o.res.found.Some? && o.usedAnswers == 0 {
      assert o.res.found.value in multiset(Paths(ranked));
    }
  }

  lemma ResolveRankedBounds(brokenPath: string, ranked: seq<Scored>,
                            keys: seq<int>, answers: seq<string>)
    ensures var o := ResolveRanked(brokenPath, ranked, keys, answers);
            o.usedKeys <= |keys| && o.usedAnswers <= |answers| && o.usedAnswers <= 1 &&
            (o.missing == [] || (o.missing == [MissingSongsLine(brokenPath)] &&
                                 o.res == Resolved(None))) &&
            (o.res.Resolved? && o.res.found.Some? ==>
               (o.usedAnswers == 0 && o.res.found.value in Paths(ranked)) ||
               (o.usedAnswers == 1 && o.res.found == TypedPath(answers[0])))
  {
    match Decide(ranked)
    case AutoAccept(p) =>
      assert Paths(ranked)[0] == ranked[0].0;
    case NoCandidates =>
    case AskOperator =>
      RunMenuOutcome(ranked, Start, keys);
  }

  /** What each path through the prompt returns.
      - No candidates: the first typed line, stripped, or None when it is
        blank, in which case the missing-songs line is appended.
      - Menu: Enter returns the highlighted path, 's' returns None and appends
        nothing, 'a' returns None and appends the missing-songs line, 'm'
        returns the next typed line, stripped, or None when blank.
      - The missing-songs line is appended exactly for a blank typed line with
        no candidates and for 'a' in the menu. */
  lemma ResolveRankedOutcome(brokenPath: string, ranked: seq<Scored>,
                             keys: seq<int>, answers: seq<string>)
    ensures ranked == [] && answers != [] ==>
              ResolveRanked(brokenPath, ranked, keys, answers) ==
              Outcome(Resolved(TypedPath(answers[0])), 0, 1,
                      if AllSpace(answers[0]) then [MissingSongsLine(brokenPath)] else [])
    ensures ranked == [] && answers == [] ==>
              ResolveRanked(brokenPath, ranked, keys, answers).res == AwaitingInput
    ensures Decide(ranked).AskOperator? ==>
              var o := ResolveRanked(brokenPath, ranked, keys, answers);
              var run := RunMenu(ranked, Start, keys);
              (run.Waiting? ==> o.res == AwaitingInput) &&
              (run.Decided? && run.choice.Selected? ==>
                 o == Outcome(Resolved(Some(run.choice.path)), run.consumed, 0, [])) &&
              (run.Decided? && run.choice == Skip ==> o == Outcome(Resolved(None), run.consumed, 0, [])) &&
              (run.Decided? && run.choice == AddToMissing ==>
                 o == Outcome(Resolved(None), run.consumed, 0, [MissingSongsLine(brokenPath)])) &&
              (run.Decided? && run.choice == ManualEntry && answers != [] ==>
                 o == Outcome(Resolved(TypedPath(answers[0])), run.consumed, 1, [])) &&
              (run.Decided? && run.choice == ManualEntry && answers == [] ==> o.res == AwaitingInput)
    ensures ResolveRanked(brokenPath, ranked, keys, answers).missing != [] <==>
              (ranked == [] && answers != [] && AllSpace(answers[0])) ||
              (Decide(ranked).AskOperator? && RunMenu(ranked, Start, keys).Decided? &&
               RunMenu(ranked, Start, keys).choice == AddToMissing)
  {
    if ranked == [] {
      assert Decide(ranked).NoCandidates?;
    }
  }

  /** An automatic match reads no input and appends nothing. */
  lemma AutoAcceptReadsNothing(brokenPath: string, candidates: seq<string>,
                               ratio: (string, string) -> real,
                               keys: seq<int>, answers: seq<string>)
    requires var ranked := RankCandidates(brokenPath, candidates, ratio);
             |ranked| > 0 && ranked[0].1 >= AutoAcceptThreshold
    ensures var ranked := RankCandidates(brokenPath, candidates, ratio);
            Resolve(brokenPath, candidates, ratio, keys, answers) ==
            Outcome(Resolved(Some(ranked[0].0)), 0, 0, [])
  {
  }

  /** `find_best_match_with_prompt`. */
  method FindBestMatchWithPrompt(brokenPath: string, candidates: seq<string>,
                                 ratio: (string, string) -> real,
                                 keys: seq<int>, answers: seq<string>)
    returns (res: Resolution, usedKeys: nat, usedAnswers: nat, missing: seq<string>)
    ensures Outcome(res, usedKeys, usedAnswers, missing) ==
            Resolve(brokenPath, candidates, ratio, keys, answers)
    ensures usedKeys <= |keys| && usedAnswers <= |answers|
    ensures res.Resolved? && res.found.Some? ==>
              res.found.value in candidates || (usedAnswers == 1 && res.found == TypedPath(answers[0]))
    ensures candidates == [] && answers != [] ==>
              res == Resolved(TypedPath(answers[0])) &&
              (missing == [MissingSongsLine(brokenPath)] <==> AllSpace(answers[0]))
    ensures missing == [] || (missing == [MissingSongsLine(brokenPath)] && res == Resolved(None))
  {
    ResolveBounds(brokenPath, candidates, ratio, keys, answers);
    ResolveRankedOutcome(brokenPath, RankCandidates(brokenPath, candidates, ratio), keys, answers);
    var ranked := RankCandidates(brokenPath, candidates, ratio);
    usedKeys, usedAnswers, missing := 0, 0, [];

    if |ranked| > 0 && ranked[0].1 >= AutoAcceptThreshold {
      return Resolved(Some(ranked[0].0)), 0, 0, [];
    }

    if ranked == [] {
      if answers == [] {
        return AwaitingInput, 0, 0, [];
      }
      var newPath := Strip(answers[0]);
      if newPath == "" {
        missing := [MissingSongsLine(brokenPath)];
      }
      return Resolved(NonBlank(newPath)), 0, 1, missing;
    }

    var run := CursesMenu(ranked, keys);
    match run
    case Waiting(_) =>
      res, usedKeys := AwaitingInput, |keys|;
    case Decided(choice, consumed) =>
      usedKeys := consumed;
      match choice
      case Selected(p) =>
        res := Resolved(Some(p));
      case Skip =>
        res := Resolved(None);
      case AddToMissing =>
        missing := [MissingSongsLine(brokenPath)];
        res := Resolved(None);
      case ManualEntry =>
        if answers == [] {
          res := AwaitingInput;
        } else {
          res, usedAnswers := Resolved(TypedPath(answers[0])), 1;
        }
  }
}
