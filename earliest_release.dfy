/** `pick_earliest_official_release`: among the releases that carry a date
    (or all of them when none does), the first one in a stable sort by date
    string, a missing date counting as the empty string. */
module EarliestRelease {
  import opened Optional

  /** A MusicBrainz release as deserialised from a search result. */
  datatype Release = Release(title: string, id: string, releaseDate: Option<string>)

  /** The sort key: the date, or "" (`unwrap_or_default`) when missing. */
  function DateKey(r: Release): string {
    r.releaseDate.GetOr("")
  }

  /** Rust's `Ord` on `String`: lexicographic, a proper prefix first. Byte
      order on UTF-8 agrees with code point order, so characters compare as
      code points. */
  predicate LexLe(a: string, b: string) {
    a == [] || (b != [] && (a[0] < b[0] || (a[0] == b[0] && LexLe(a[1..], b[1..]))))
  }

  predicate LexLt(a: string, b: string) {
    !LexLe(b, a)
  }

  lemma {:induction false} LexLeTotal(a: string, b: string)
    ensures LexLe(a, b) || LexLe(b, a)
  {
    if a != [] && b != [] && a[0] == b[0] {
      LexLeTotal(a[1..], b[1..]);
    }
  }

  lemma {:induction false} LexLeTransitive(a: string, b: string, c: string)
    requires LexLe(a, b) && LexLe(b, c)
    ensures LexLe(a, c)
  {
    if a != [] && a[0] == b[0] && b[0] == c[0] {
      LexLeTransitive(a[1..], b[1..], c[1..]);
    }
  }

  lemma {:induction false} LexLeAntisymmetric(a: string, b: string)
    requires LexLe(a, b) && LexLe(b, a)
    ensures a == b
  {
    if a != [] {
      LexLeAntisymmetric(a[1..], b[1..]);
      assert a == [a[0]] + a[1..] && b == [b[0]] + b[1..];
    }
  }

  /** `releases.iter().filter(|r| r.release_date.is_some()).cloned().collect()`. */
  function KnownDate(releases: seq<Release>): (known: seq<Release>)
    ensures |known| <= |releases|
    ensures forall r :: r in known <==> r in releases && r.releaseDate.Some?
  {
    if releases == [] then []
    else (if releases[0].releaseDate.Some? then [releases[0]] else []) + KnownDate(releases[1..])
  }

  /** The releases the pick is made from: those with a date, or all of them
      when none has one. */
  function Pool(releases: seq<Release>): seq<Release> {
    if KnownDate(releases) == [] then releases else KnownDate(releases)
  }

  /** Insert `x` into `s` after every element whose key is not greater. */
  function InsertByKey(x: Release, s: seq<Release>): seq<Release> {
    if s == [] || !LexLt(DateKey(x), DateKey(s[|s| - 1])) then s + [x]
    else InsertByKey(x, s[..|s| - 1]) + [s[|s| - 1]]
  }

  /** A stable sort by `DateKey`, the order `sort_by_key` leaves behind. */
  function SortByDateKey(s: seq<Release>): seq<Release> {
    if s == [] then [] else InsertByKey(s[|s| - 1], SortByDateKey(s[..|s| - 1]))
  }

  predicate SortedByKey(s: seq<Release>) {
    forall i, j :: 0 <= i < j < |s| ==> LexLe(DateKey(s[i]), DateKey(s[j]))
  }

  /** The elements of `s` with key `k`, in order. */
  function WithKey(s: seq<Release>, k: string): seq<Release> {
    if s == [] then []
    else WithKey(s[..|s| - 1], k) + (if DateKey(s[|s| - 1]) == k then [s[|s| - 1]] else [])
  }

  lemma {:induction false} InsertByKeyPermutes(x: Release, s: seq<Release>)
    ensures multiset(InsertByKey(x, s)) == multiset(s) + multiset{x}
  {
    if s != [] && LexLt(DateKey(x), DateKey(s[|s| - 1])) {
      var front, last := s[..|s| - 1], s[|s| - 1];
      InsertByKeyPermutes(x, front);
      assert InsertByKey(x, s) == InsertByKey(x, front) + [last];
      assert s == front + [last];
    }
  }

  lemma {:induction false} InsertByKeySorted(x: Release, s: seq<Release>)
    requires SortedByKey(s)
    ensures SortedByKey(InsertByKey(x, s))
    ensures |InsertByKey(x, s)| == |s| + 1
  {
    var n := |s|;
    if s == [] {
    } else if !LexLt(DateKey(x), DateKey(s[n - 1])) {
      LexLeTotal(DateKey(x), DateKey(s[n - 1]));
      forall i | 0 <= i < n ensures LexLe(DateKey(s[i]), DateKey(x)) {
        if i < n - 1 {
          LexLeTransitive(DateKey(s[i]), DateKey(s[n - 1]), DateKey(x));
        }
      }
      AppendAboveAll(s, x);
    } else {
      var front := s[..n - 1];
      InsertByKeySorted(x, front);
      var ins := InsertByKey(x, front);
      LexLeTotal(DateKey(x), DateKey(s[n - 1]));
      forall i | 0 <= i < |ins| ensures LexLe(DateKey(ins[i]), DateKey(s[n - 1])) {
        if ins[i] != x {
          var m := InsertedFrom(x, front, i);
          assert front[m] == s[m];
        }
      }
      AppendAboveAll(ins, s[n - 1]);
    }
  }

  /** A sorted list followed by an element whose key is at least every key in
      it is sorted. */
  lemma AppendAboveAll(s: seq<Release>, y: Release)
    requires SortedByKey(s)
    requires forall i :: 0 <= i < |s| ==> LexLe(DateKey(s[i]), DateKey(y))
    ensures SortedByKey(s + [y])
  {
    var t := s + [y];
    forall i, j | 0 <= i < j < |t| ensures LexLe(DateKey(t[i]), DateKey(t[j])) {
      if j == |s| {
        assert t[i] == s[i];
      } else {
        assert t[i] == s[i] && t[j] == s[j];
      }
    }
  }

  /** Every element of an insertion other than the inserted one comes from
      the list inserted into. */
  lemma InsertedFrom(x: Release, s: seq<Release>, i: nat) returns (m: nat)
    requires i < |InsertByKey(x, s)| && InsertByKey(x, s)[i] != x
    ensures m < |s| && s[m] == InsertByKey(x, s)[i]
  {
    var ins := InsertByKey(x, s);
    InsertByKeyPermutes(x, s);
    assert ins[i] in multiset(ins);
    assert ins[i] in multiset(s);
    m :| m < |s| && s[m] == ins[i];
  }

  /** Inserting `x` keeps every key's elements in order, `x` after those
      already present with its key. */
  lemma {:induction false} InsertByKeyStable(x: Release, s: seq<Release>, k: string)
    ensures WithKey(InsertByKey(x, s), k) == WithKey(s, k) + (if DateKey(x) == k then [x] else [])
  {
    var n := |s|;
    if s == [] || !LexLt(DateKey(x), DateKey(s[n - 1])) {
      WithKeySnoc(s, x, k);
    } else {
      var front, last := s[..n - 1], s[n - 1];
      InsertByKeyStable(x, front, k);
      var ins := InsertByKey(x, front);
      assert InsertByKey(x, s) == ins + [last];
      WithKeySnoc(ins, last, k);
      assert s == front + [last];
      WithKeySnoc(front, last, k);
      if DateKey(x) == k {
        LexLeTotal(DateKey(x), DateKey(last));
        assert DateKey(last) != k;
      }
    }
  }

  lemma WithKeySnoc(s: seq<Release>, y: Release, k: string)
    ensures WithKey(s + [y], k) == WithKey(s, k) + (if DateKey(y) == k then [y] else [])
  {
    assert (s + [y])[..|s|] == s;
  }

  /** The sort is a stable, sorted permutation of its input. */
  lemma {:induction false} SortByDateKeyCorrect(s: seq<Release>)
    ensures |SortByDateKey(s)| == |s|
    ensures multiset(SortByDateKey(s)) == multiset(s)
    ensures SortedByKey(SortByDateKey(s))
    ensures forall k :: WithKey(SortByDateKey(s), k) == WithKey(s, k)
  {
    if s != [] {
      var n := |s|;
      var front := s[..n - 1];
      SortByDateKeyCorrect(front);
      var sorted := SortByDateKey(front);
      InsertByKeyPermutes(s[n - 1], sorted);
      InsertByKeySorted(s[n - 1], sorted);
      assert s == front + [s[n - 1]];
      forall k ensures WithKey(SortByDateKey(s), k) == WithKey(s, k) {
        InsertByKeyStable(s[n - 1], sorted, k);
      }
    }
  }

  /** The first element with key `k` is the first index holding it. */
  lemma {:induction false} WithKeyHead(s: seq<Release>, k: string)
    requires WithKey(s, k) != []
    ensures exists j :: 0 <= j < |s| && s[j] == WithKey(s, k)[0] && DateKey(s[j]) == k &&
                        forall i :: 0 <= i < j ==> DateKey(s[i]) != k
  {
    var n := |s|;
    if WithKey(s[..n - 1], k) != [] {
      WithKeyHead(s[..n - 1], k);
      assert forall i :: 0 <= i < n - 1 ==> s[..n - 1][i] == s[i];
      var j :| 0 <= j < n - 1 && s[j] == WithKey(s[..n - 1], k)[0] && DateKey(s[j]) == k &&
               forall i :: 0 <= i < j ==> DateKey(s[i]) != k;
      assert s[j] == WithKey(s, k)[0];
    } else {
      assert s[n - 1] == WithKey(s, k)[0];
      forall i | 0 <= i < n - 1 ensures DateKey(s[i]) != k {
        WithKeyEmpty(s[..n - 1], k, i);
      }
    }
  }

  lemma {:induction false} WithKeyEmpty(s: seq<Release>, k: string, i: nat)
    requires WithKey(s, k) == [] && i < |s|
    ensures DateKey(s[i]) != k
  {
    var n := |s|;
    if i < n - 1 {
      WithKeyEmpty(s[..n - 1], k, i);
    }
  }

  /** The head of the stable sort is the release with the least key that
      comes first in the input among those with that key. */
  lemma SortedHeadIsFirstMinimal(s: seq<Release>)
    requires s != []
    ensures var h := SortByDateKey(s)[0];
            (forall x :: x in s ==> LexLe(DateKey(h), DateKey(x))) &&
            exists j :: 0 <= j < |s| && s[j] == h &&
                        forall i :: 0 <= i < j ==> LexLt(DateKey(h), DateKey(s[i]))
  {
    SortByDateKeyCorrect(s);
    var sorted := SortByDateKey(s);
    var h := sorted[0];
    forall x | x in s ensures LexLe(DateKey(h), DateKey(x)) {
      assert x in multiset(s);
      assert x in multiset(sorted);
      var m :| 0 <= m < |sorted| && sorted[m] == x;
      if m == 0 {
        LexLeTotal(DateKey(x), DateKey(x));
      } else {
        assert LexLe(DateKey(sorted[0]), DateKey(sorted[m]));
      }
    }
    var k := DateKey(h);
    WithKeyStartsWithHead(sorted, k);
    WithKeyHead(s, k);
    var j :| 0 <= j < |s| && s[j] == WithKey(s, k)[0] && DateKey(s[j]) == k &&
             forall i :: 0 <= i < j ==> DateKey(s[i]) != k;
    forall i | 0 <= i < j ensures LexLt(k, DateKey(s[i])) {
      assert s[i] in s;
      if LexLe(DateKey(s[i]), k) {
        LexLeAntisymmetric(DateKey(s[i]), k);
      }
    }
  }

  lemma {:induction false} WithKeyStartsWithHead(s: seq<Release>, k: string)
    requires s != [] && DateKey(s[0]) == k
    ensures WithKey(s, k) != [] && WithKey(s, k)[0] == s[0]
  {
    if |s| > 1 {
      WithKeyStartsWithHead(s[..|s| - 1], k);
    }
  }

  /** Inserting `x` where the tail `s[j..]` is exactly the part with greater keys. */
  lemma {:induction false} InsertAt(x: Release, s: seq<Release>, j: nat)
    requires j <= |s|
    requires forall m :: j <= m < |s| ==> LexLt(DateKey(x), DateKey(s[m]))
    requires j == 0 || !LexLt(DateKey(x), DateKey(s[j - 1]))
    ensures InsertByKey(x, s) == s[..j] + [x] + s[j..]
    decreases |s|
  {
    if j < |s| {
      var n := |s|;
      InsertAt(x, s[..n - 1], j);
      assert s[..n - 1][..j] == s[..j];
      assert s[..j] + [x] + s[j..] == s[..n - 1][..j] + [x] + s[..n - 1][j..] + [s[n - 1]];
    } else {
      assert s[..j] == s;
    }
  }

  /** Writing `x` into the gap at `j` left by shifting `sorted[j..]` one
      place right. */
  lemma PlaceAt(shifted: seq<Release>, sorted: seq<Release>, x: Release, j: nat)
    requires j <= |sorted| < |shifted|
    requires shifted[..j] == sorted[..j]
    requires shifted[j + 1..|sorted| + 1] == sorted[j..]
    ensures shifted[j := x][..|sorted| + 1] == sorted[..j] + [x] + sorted[j..]
    ensures shifted[j := x][|sorted| + 1..] == shifted[|sorted| + 1..]
  {
    var i := |sorted|;
    var t := shifted[j := x];
    forall m | 0 <= m <= i ensures t[m] == (sorted[..j] + [x] + sorted[j..])[m] {
      if m < j {
        assert shifted[..j][m] == sorted[..j][m];
      } else if m > j {
        assert shifted[j + 1..i + 1][m - j - 1] == sorted[j..][m - j - 1];
      }
    }
  }

  /** One step of the sort: move `a[i]` left past the elements of the
      sorted prefix `a[..i]` whose key is strictly greater. */
  method InsertLast(a: array<Release>, i: nat)
    requires i < a.Length
    modifies a
    ensures a[..i + 1] == InsertByKey(old(a[i]), old(a[..i]))
    ensures a[i + 1..] == old(a[i + 1..])
  {
    ghost var sorted := a[..i];
    ghost var rest := a[i + 1..];
    var x := a[i];
    var j := i;
    while j > 0 && LexLt(DateKey(x), DateKey(a[j - 1]))
      invariant 0 <= j <= i
      invariant a[..j] == sorted[..j]
      invariant a[j + 1..i + 1] == sorted[j..i]
      invariant a[i + 1..] == rest
      invariant forall m :: j <= m < i ==> LexLt(DateKey(x), DateKey(sorted[m]))
    {
      a[j] := a[j - 1];
      j := j - 1;
    }
    if j > 0 {
      assert a[j - 1] == a[..j][j - 1];
    }
    assert j == 0 || !LexLt(DateKey(x), DateKey(sorted[j - 1]));
    ghost var shifted := a[..];
    a[j] := x;
    assert a[..] == shifted[j := x];
    PlaceAt(shifted, sorted, x, j);
    InsertAt(x, sorted, j);
  }

  /** One pass of the outer loop: inserting the next release into the sorted
      prefix gives the sort of the longer prefix and leaves the rest alone. */
  lemma SortStep(orig: seq<Release>, before: seq<Release>, after: seq<Release>, i: nat)
    requires i < |orig| == |before| == |after|
    requires before[..i] == SortByDateKey(orig[..i]) && before[i..] == orig[i..]
    requires after[..i + 1] == InsertByKey(before[i], before[..i]) && after[i + 1..] == before[i + 1..]
    ensures after[..i + 1] == SortByDateKey(orig[..i + 1]) && after[i + 1..] == orig[i + 1..]
  {
    assert before[i] == before[i..][0] == orig[i];
    assert orig[..i + 1][..i] == orig[..i];
    assert before[i + 1..] == before[i..][1..];
  }

  /** `known_date_releases.sort_by_key(...)`: a stable in-place sort by date
      key, here by insertion. */
  method SortReleasesByDate(a: array<Release>)
    modifies a
    ensures a[..] == SortByDateKey(old(a[..]))
  {
    ghost var orig := a[..];
    var i := 0;
    while i < a.Length
      invariant 0 <= i <= a.Length
      invariant a[..i] == SortByDateKey(orig[..i])
      invariant a[i..] == orig[i..]
    {
      ghost var before := a[..];
      InsertLast(a, i);
      SortStep(orig, before, a[..], i);
      i := i + 1;
    }
    assert a[..] == a[..a.Length] && orig == orig[..a.Length];
  }

  /** The filter keeps input order: the first release of the filtered list
      with key `m` is, in the input, preceded by no dated release with key `m`. */
  lemma KnownDateFirst(s: seq<Release>, m: string, jp: nat)
    requires jp < |KnownDate(s)|
    requires forall i :: 0 <= i < jp ==> DateKey(KnownDate(s)[i]) != m
    ensures exists j :: 0 <= j < |s| && s[j] == KnownDate(s)[jp] &&
                        forall i :: 0 <= i < j && s[i].releaseDate.Some? ==> DateKey(s[i]) != m
  {
    var j := KnownDateIndex(s, m, jp);
  }

  /** The input index of the `jp`-th dated release, found by induction. */
  lemma {:induction false} KnownDateIndex(s: seq<Release>, m: string, jp: nat) returns (j: nat)
    requires jp < |KnownDate(s)|
    requires forall i :: 0 <= i < jp ==> DateKey(KnownDate(s)[i]) != m
    ensures j < |s| && s[j] == KnownDate(s)[jp]
    ensures forall i :: 0 <= i < j && s[i].releaseDate.Some? ==> DateKey(s[i]) != m
  {
    var rest := KnownDate(s[1..]);
    if s[0].releaseDate.Some? {
      assert KnownDate(s) == [s[0]] + rest;
      if jp == 0 {
        return 0;
      }
      DatedHeadShift(s, m, jp);
      var j1 := KnownDateIndex(s[1..], m, jp - 1);
      NoKeyBeforeCons(s, m, j1);
      j := j1 + 1;
    } else {
      assert KnownDate(s) == rest;
      var j1 := KnownDateIndex(s[1..], m, jp);
      NoKeyBeforeCons(s, m, j1);
      j := j1 + 1;
    }
  }

  /** Past a dated head, the filtered tail carries the rest of the keys. */
  lemma DatedHeadShift(s: seq<Release>, m: string, jp: nat)
    requires s != [] && s[0].releaseDate.Some? && 0 < jp < |KnownDate(s)|
    requires forall i :: 0 <= i < jp ==> DateKey(KnownDate(s)[i]) != m
    ensures DateKey(s[0]) != m && KnownDate(s)[jp] == KnownDate(s[1..])[jp - 1]
    ensures forall i :: 0 <= i < jp - 1 ==> DateKey(KnownDate(s[1..])[i]) != m
  {
    var rest := KnownDate(s[1..]);
    assert KnownDate(s) == [s[0]] + rest;
    assert DateKey(KnownDate(s)[0]) != m;
    forall i | 0 <= i < jp - 1 ensures DateKey(rest[i]) != m {
      assert rest[i] == KnownDate(s)[i + 1];
    }
  }

  lemma NoKeyBeforeCons(s: seq<Release>, m: string, j1: nat)
    requires j1 < |s| - 1
    requires s[0].releaseDate.Some? ==> DateKey(s[0]) != m
    requires forall i :: 0 <= i < j1 && s[1..][i].releaseDate.Some? ==> DateKey(s[1..][i]) != m
    ensures forall i :: 0 <= i < j1 + 1 && s[i].releaseDate.Some? ==> DateKey(s[i]) != m
  {
    forall i | 0 < i < j1 + 1 ensures s[i] == s[1..][i - 1] {
    }
  }

  /** A pool member that is least and first among the least in pool order is
      also first in input order: every pool member before it in the input has
      a strictly greater key. */
  lemma FirstInInput(releases: seq<Release>, jp: nat)
    requires jp < |Pool(releases)|
    requires forall x :: x in Pool(releases) ==> LexLe(DateKey(Pool(releases)[jp]), DateKey(x))
    requires forall i :: 0 <= i < jp ==> LexLt(DateKey(Pool(releases)[jp]), DateKey(Pool(releases)[i]))
    ensures exists j :: 0 <= j < |releases| && releases[j] == Pool(releases)[jp] &&
              forall i :: 0 <= i < j && releases[i] in Pool(releases) ==>
                LexLt(DateKey(Pool(releases)[jp]), DateKey(releases[i]))
  {
    var pool := Pool(releases);
    var h := pool[jp];
    var m := DateKey(h);
    if KnownDate(releases) != [] {
      LexLeTotal(m, m);
      KnownDateFirst(releases, m, jp);
      var j :| 0 <= j < |releases| && releases[j] == h &&
               forall i :: 0 <= i < j && releases[i].releaseDate.Some? ==> DateKey(releases[i]) != m;
      forall i | 0 <= i < j && releases[i] in pool ensures LexLt(m, DateKey(releases[i])) {
        if LexLe(DateKey(releases[i]), m) {
          LexLeAntisymmetric(DateKey(releases[i]), m);
        }
      }
    }
  }

  /** What the head of the sorted pool is: an input release, dated whenever
      any release is, with the least key of the pool, and the first such
      release in pool order. */
  lemma EarliestOfPool(releases: seq<Release>)
    requires releases != []
    ensures |SortByDateKey(Pool(releases))| == |Pool(releases)| > 0
    ensures SortByDateKey(Pool(releases))[0] in releases
    ensures (exists x :: x in releases && x.releaseDate.Some?) ==>
              SortByDateKey(Pool(releases))[0].releaseDate.Some?
    ensures forall x :: x in Pool(releases) ==>
              LexLe(DateKey(SortByDateKey(Pool(releases))[0]), DateKey(x))
    ensures exists j :: 0 <= j < |Pool(releases)| && Pool(releases)[j] == SortByDateKey(Pool(releases))[0] &&
              forall i :: 0 <= i < j ==>
                LexLt(DateKey(SortByDateKey(Pool(releases))[0]), DateKey(Pool(releases)[i]))
    ensures exists j :: 0 <= j < |releases| && releases[j] == SortByDateKey(Pool(releases))[0] &&
              forall i :: 0 <= i < j && releases[i] in Pool(releases) ==>
                LexLt(DateKey(SortByDateKey(Pool(releases))[0]), DateKey(releases[i]))
  {
    var pool := Pool(releases);
    if KnownDate(releases) == [] {
      assert releases[0] in releases;
    }
    SortByDateKeyCorrect(pool);
    SortedHeadIsFirstMinimal(pool);
    var h := SortByDateKey(pool)[0];
    assert h in multiset(pool);
    if exists x :: x in releases && x.releaseDate.Some? {
      var x :| x in releases && x.releaseDate.Some?;
      assert x in KnownDate(releases);
    }
    var jp :| 0 <= jp < |pool| && pool[jp] == h &&
              forall i :: 0 <= i < jp ==> LexLt(DateKey(h), DateKey(pool[i]));
    FirstInInput(releases, jp);
  }

  /** `pick_earliest_official_release`.
      - None exactly when there are no releases.
      - When some release has a date, the pick has one.
      - The pick is one of the releases in the pool, its key is no greater
        than any pool member's, and every pool member before it, in pool
        order and in input order alike, has a strictly greater key. */
  method PickEarliestOfficialRelease(releases: seq<Release>) returns (r: Option<Release>)
    ensures r.None? <==> releases == []
    ensures r.Some? ==> r.value in releases
    ensures (exists x :: x in releases && x.releaseDate.Some?) ==> r.Some? && r.value.releaseDate.Some?
    ensures r.Some? ==> forall x :: x in Pool(releases) ==> LexLe(DateKey(r.value), DateKey(x))
    ensures r.Some? ==> exists j :: 0 <= j < |Pool(releases)| && Pool(releases)[j] == r.value &&
                          forall i :: 0 <= i < j ==> LexLt(DateKey(r.value), DateKey(Pool(releases)[i]))
    ensures r.Some? ==> exists j :: 0 <= j < |releases| && releases[j] == r.value &&
                          forall i :: 0 <= i < j && releases[i] in Pool(releases) ==>
                            LexLt(DateKey(r.value), DateKey(releases[i]))
  {
    var known := KnownDate(releases);
    if |known| == 0 {
      known := releases;
    }
    assert known == Pool(releases);
    var a := new Release[|known|](i requires 0 <= i < |known| => known[i]);
    assert a[..] == known;
    SortReleasesByDate(a);
    if a.Length == 0 {
      r := None;
    } else {
      EarliestOfPool(releases);
      r := Some(a[0]);
    }
  }
}
