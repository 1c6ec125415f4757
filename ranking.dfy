/** Ranking candidate files against a broken reference
    (`find_best_match_with_prompt`, its list comprehension, `sorted(...,
    reverse=True)` and the auto-accept test). The similarity ratio of
    `difflib.SequenceMatcher` is a parameter: any function from two file names
    to a real number. */
module Ranking {
  import opened PyStrings

  /** A candidate path paired with its similarity score. */
  type Scored = (string, real)

  /** The top score at or above which a match is taken without asking. */
  const AutoAcceptThreshold: real := 0.9

  /** Each candidate paired with the ratio of its own file name against
      `filename`, in candidate order. */
  function ScoreCandidates(filename: string, candidates: seq<string>,
                           ratio: (string, string) -> real): seq<Scored>
  {
    seq(|candidates|, i requires 0 <= i < |candidates| =>
      (candidates[i], ratio(filename, Basename(candidates[i]))))
  }

  function Paths(s: seq<Scored>): (ps: seq<string>)
    ensures |ps| == |s|
  {
    seq(|s|, i requires 0 <= i < |s| => s[i].0)
  }

  predicate NonIncreasing(s: seq<Scored>) {
    forall i, j :: 0 <= i < j < |s| ==> s[i].1 >= s[j].1
  }

  /** The entries of `s` whose score is `v`, in their order in `s`. */
  function WithScore(s: seq<Scored>, v: real): seq<Scored> {
    if s == [] then []
    else (if s[0].1 == v then [s[0]] else []) + WithScore(s[1..], v)
  }

  /** Puts `x` in front of the first entry whose score is not above its own. */
  function InsertByScore(x: Scored, s: seq<Scored>): (r: seq<Scored>)
    ensures |r| == |s| + 1
  {
    if s == [] || s[0].1 <= x.1 then [x] + s
    else [s[0]] + InsertByScore(x, s[1..])
  }

  /** Python's `sorted(s, key=score, reverse=True)`, as an insertion sort. */
  function SortByScoreDesc(s: seq<Scored>): (r: seq<Scored>)
    ensures |r| == |s|
  {
    if s == [] then [] else InsertByScore(s[0], SortByScoreDesc(s[1..]))
  }

  lemma PathsCons(x: Scored, s: seq<Scored>)
    ensures Paths([x] + s) == [x.0] + Paths(s)
  {
  }

  lemma WithScoreCons(x: Scored, s: seq<Scored>, v: real)
    ensures WithScore([x] + s, v) == (if x.1 == v then [x] else []) + WithScore(s, v)
  {
    assert ([x] + s)[1..] == s;
  }

  lemma {:induction false} InsertByScorePermutes(x: Scored, s: seq<Scored>)
    ensures multiset(InsertByScore(x, s)) == multiset(s) + multiset{x}
  {
    if s != [] && s[0].1 > x.1 {
      InsertByScorePermutes(x, s[1..]);
      assert s == [s[0]] + s[1..];
    }
  }

  lemma {:induction false} InsertByScorePathsPermute(x: Scored, s: seq<Scored>)
    ensures multiset(Paths(InsertByScore(x, s))) == multiset(Paths(s)) + multiset{x.0}
  {
    PathsCons(x, s);
    if s != [] && s[0].1 > x.1 {
      InsertByScorePathsPermute(x, s[1..]);
      assert s == [s[0]] + s[1..];
      PathsCons(s[0], s[1..]);
      PathsCons(s[0], InsertByScore(x, s[1..]));
    }
  }

  lemma {:induction false} InsertByScoreSorted(x: Scored, s: seq<Scored>)
    requires NonIncreasing(s)
    ensures NonIncreasing(InsertByScore(x, s))
  {
    if s != [] && s[0].1 > x.1 {
      InsertByScoreSorted(x, s[1..]);
      InsertByScorePermutes(x, s[1..]);
      var r := InsertByScore(x, s[1..]);
      forall k | 0 <= k < |r| ensures r[k].1 <= s[0].1 {
        assert r[k] in multiset(s[1..]) + multiset{x};
      }
    }
  }

  /** Inserting `x` keeps, for every score, the order of the entries with that
      score, with `x` first among its own score. */
  lemma {:induction false} InsertByScoreStable(x: Scored, s: seq<Scored>, v: real)
    ensures WithScore(InsertByScore(x, s), v) ==
            (if x.1 == v then [x] else []) + WithScore(s, v)
  {
    if s == [] || s[0].1 <= x.1 {
      WithScoreCons(x, s, v);
    } else {
      InsertByScoreStable(x, s[1..], v);
      WithScoreCons(s[0], InsertByScore(x, s[1..]), v);
      assert s == [s[0]] + s[1..];
      WithScoreCons(s[0], s[1..], v);
    }
  }

  /** The sort is a permutation (of the entries and of their paths), is
      non-increasing in score, and is stable: for every score, the entries with
      that score keep their order. */
  lemma {:induction false} SortByScoreDescCorrect(s: seq<Scored>)
    ensures multiset(SortByScoreDesc(s)) == multiset(s)
    ensures multiset(Paths(SortByScoreDesc(s))) == multiset(Paths(s))
    ensures NonIncreasing(SortByScoreDesc(s))
    ensures forall v :: WithScore(SortByScoreDesc(s), v) == WithScore(s, v)
  {
    if s != [] {
      var rest := SortByScoreDesc(s[1..]);
      SortByScoreDescCorrect(s[1..]);
      InsertByScorePermutes(s[0], rest);
      InsertByScorePathsPermute(s[0], rest);
      InsertByScoreSorted(s[0], rest);
      assert s == [s[0]] + s[1..];
      PathsCons(s[0], s[1..]);
      forall v ensures WithScore(SortByScoreDesc(s), v) == WithScore(s, v) {
        InsertByScoreStable(s[0], rest, v);
        WithScoreCons(s[0], s[1..], v);
      }
    }
  }

  /** The ranked candidate list for a broken path: every candidate once (as a
      multiset), each with the ratio of ITS file name against the broken file
      name, highest score first, equal scores in candidate order. */
  function RankCandidates(brokenPath: string, candidates: seq<string>,
                          ratio: (string, string) -> real): (ranked: seq<Scored>)
    ensures |ranked| == |candidates|
    ensures multiset(Paths(ranked)) == multiset(candidates)
    ensures forall i :: 0 <= i < |ranked| ==>
              ranked[i].1 == ratio(Basename(brokenPath), Basename(ranked[i].0))
    ensures NonIncreasing(ranked)
    ensures forall v :: WithScore(ranked, v) ==
                        WithScore(ScoreCandidates(Basename(brokenPath), candidates, ratio), v)
  {
    var filename := Basename(brokenPath);
    var scored := ScoreCandidates(filename, candidates, ratio);
    assert Paths(scored) == candidates;
    var ranked := SortByScoreDesc(scored);
    SortByScoreDescCorrect(scored);
    assert forall i :: 0 <= i < |ranked| ==> ranked[i] in multiset(scored);
    ranked
  }

  /** What happens next for a ranked list: the top candidate is taken at once,
      the operator is asked for a path, or the menu is shown. */
  datatype Decision = AutoAccept(path: string) | NoCandidates | AskOperator

  /** The top candidate is accepted exactly when there is one and its score is
      at least 0.9 (inclusive); an empty list asks for a path by hand. */
  function Decide(ranked: seq<Scored>): (d: Decision)
    ensures d.AutoAccept? <==> |ranked| > 0 && ranked[0].1 >= AutoAcceptThreshold
    ensures d.AutoAccept? ==> d.path == ranked[0].0
    ensures d.NoCandidates? <==> ranked == []
  {
    if |ranked| > 0 && ranked[0].1 >= AutoAcceptThreshold then AutoAccept(ranked[0].0)
    else if ranked == [] then NoCandidates
    else AskOperator
  }

  /** An automatically accepted path is one of the candidates, scores at least
      0.9, and no candidate scores higher. */
  lemma AutoAcceptIsBest(brokenPath: string, candidates: seq<string>,
                         ratio: (string, string) -> real)
    requires Decide(RankCandidates(brokenPath, candidates, ratio)).AutoAccept?
    ensures var p := Decide(RankCandidates(brokenPath, candidates, ratio)).path;
            var name := Basename(brokenPath);
            p in candidates && ratio(name, Basename(p)) >= AutoAcceptThreshold &&
            forall c :: c in candidates ==> ratio(name, Basename(c)) <= ratio(name, Basename(p))
  {
    var ranked := RankCandidates(brokenPath, candidates, ratio);
    var name := Basename(brokenPath);
    assert Paths(ranked)[0] == ranked[0].0;
    assert ranked[0].0 in multiset(candidates);
    forall c | c in candidates
      ensures ratio(name, Basename(c)) <= ratio(name, Basename(ranked[0].0))
    {
      assert c in multiset(Paths(ranked));
      var i := PathIndex(ranked, c);
      assert ranked[i].1 <= ranked[0].1;
    }
  }

  /** Where a path sits in a scored list. */
  lemma PathIndex(s: seq<Scored>, c: string) returns (i: nat)
    requires c in multiset(Paths(s))
    ensures i < |s| && s[i].0 == c
  {
    assert c in Paths(s);
    i :| i < |s| && Paths(s)[i] == c;
  }
}
