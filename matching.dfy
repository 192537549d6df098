/**
 The match ranker of the adoption application (the body of `ver_matches` in
 app.py): keep the available animals, score each against the adopter, turn
 the score into a percentage, keep the matches of at least 50 per cent and
 sort them by raw score, highest first, with a stable sort.
 */
module Matching {
  import opened Compatibility

  /** The least percentage a match needs to be shown. */
  const MinPercentage: int := 50

  /** One shown match: the animal, its raw score and its percentage. */
  datatype Match = Match(animal: Animal, score: nat, percentage: int)

  /**
   `min(100, int(score * 3.3))`: the score scaled by 3.3, truncated (not
   rounded) and capped at 100. The product is taken exactly, as 33 * score / 10.
   */
  function Percentage(score: nat): (p: int)
    ensures 0 <= p <= 100
    ensures p < 100 ==> p * 10 <= score * 33 < p * 10 + 10
    ensures p == 100 <==> score >= 31
  {
    var scaled := score * 33 / 10;
    if scaled < 100 then scaled else 100
  }

  /** Truncation at the threshold: a raw 15 gives 49 and is not shown, a raw 16 gives 52. */
  lemma PercentageAtThreshold()
    ensures Percentage(14) == 46 && Percentage(15) == 49 && Percentage(16) == 52
    ensures Percentage(20) == 66 && Percentage(30) == 99 && Percentage(40) == 100
  {
  }

  /** The threshold on the percentage is a threshold of 16 on the raw score. */
  lemma PercentageThresholdIff(score: nat)
    ensures Percentage(score) >= MinPercentage <==> score >= 16
  {
  }

  /** Whether `ver_matches` shows the animal to the adopter, availability aside. */
  predicate Shown(a: Animal, d: Adopter) {
    Percentage(Score(a, d)) >= MinPercentage
  }

  /** Scores being multiples of 5, an animal is shown exactly when it scores at least 20. */
  lemma ShownIff(a: Animal, d: Adopter)
    ensures Shown(a, d) <==> Score(a, d) >= 20
  {
    PercentageThresholdIff(Score(a, d));
  }

  /** The match entry the ranker builds for an animal. */
  function MatchFor(a: Animal, d: Adopter): Match {
    var s := Score(a, d);
    Match(a, s, Percentage(s))
  }

  /** The database query `filter_by(disponivel=True)` over the given animals, in their order. */
  function Available(animals: seq<Animal>): seq<Animal> {
    if animals == [] then []
    else (if animals[0].available then [animals[0]] else []) + Available(animals[1..])
  }

  /** The query returns exactly the available animals, each as often as it occurs, and no other. */
  lemma {:induction false} AvailableCounts(animals: seq<Animal>)
    ensures forall a :: multiset(Available(animals))[a] == if a.available then multiset(animals)[a] else 0
  {
    if animals != [] {
      assert animals == [animals[0]] + animals[1..];
      AvailableCounts(animals[1..]);
    }
  }

  /**
   The matches the loop of `ver_matches` appends, in encounter order: one
   entry per animal whose percentage reaches the threshold.
   */
  function Qualified(d: Adopter, animals: seq<Animal>): seq<Match> {
    if animals == [] then []
    else
      var n := |animals| - 1;
      Qualified(d, animals[..n]) + if Shown(animals[n], d) then [MatchFor(animals[n], d)] else []
  }

  /**
   Every entry of the loop's list is an animal's own match and reaches the
   threshold, and every animal that reaches it appears as often as it occurs.
   */
  lemma {:induction false} QualifiedContents(d: Adopter, animals: seq<Animal>)
    ensures forall m :: m in Qualified(d, animals) ==>
      m.animal in animals && m == MatchFor(m.animal, d) && m.percentage >= MinPercentage
    ensures forall a :: multiset(Qualified(d, animals))[MatchFor(a, d)]
                     == if Shown(a, d) then multiset(animals)[a] else 0
  {
    if animals != [] {
      var n := |animals| - 1;
      assert animals == animals[..n] + [animals[n]];
      QualifiedContents(d, animals[..n]);
    }
  }

  /** The matches in `ms` whose raw score is `k`, in their order in `ms`. */
  function WithScore(ms: seq<Match>, k: int): seq<Match> {
    if ms == [] then []
    else (if ms[0].score == k then [ms[0]] else []) + WithScore(ms[1..], k)
  }

  /** Non-increasing by raw score, as `sort(key=score, reverse=True)` leaves it. */
  predicate SortedByScore(ms: seq<Match>) {
    forall i, j :: 0 <= i < j < |ms| ==> ms[i].score >= ms[j].score
  }

  /**
   `sorted` is a stable descending sort of `ms` by raw score: ordered, and for
   every score the matches with that score keep their relative order.
   */
  ghost predicate StablySorted(sorted: seq<Match>, ms: seq<Match>) {
    && SortedByScore(sorted)
    && multiset(sorted) == multiset(ms)
    && forall k :: WithScore(sorted, k) == WithScore(ms, k)
  }

  lemma {:induction false} WithScoreConcat(a: seq<Match>, b: seq<Match>, k: int)
    ensures WithScore(a + b, k) == WithScore(a, k) + WithScore(b, k)
  {
    if a != [] {
      var head := if a[0].score == k then [a[0]] else [];
      assert (a + b)[0] == a[0] && (a + b)[1..] == a[1..] + b;
      assert WithScore(a + b, k) == head + WithScore(a[1..] + b, k);
      WithScoreConcat(a[1..], b, k);
    } else {
      assert a + b == b;
    }
  }

  lemma {:induction false} WithScoreMembers(ms: seq<Match>, k: int)
    ensures forall m :: m in WithScore(ms, k) ==> m in ms && m.score == k
    ensures (forall i :: 0 <= i < |ms| ==> ms[i].score != k) ==> WithScore(ms, k) == []
  {
    if ms != [] {
      WithScoreMembers(ms[1..], k);
    }
  }

  /** Inserting `x` at `j`, between the matches scoring at least as much and those scoring less, keeps the order. */
  lemma InsertKeepsSorted(s: seq<Match>, j: int, x: Match)
    requires SortedByScore(s)
    requires 0 <= j <= |s|
    requires j > 0 ==> s[j - 1].score >= x.score
    requires forall t :: j <= t < |s| ==> s[t].score < x.score
    ensures SortedByScore(s[..j] + [x] + s[j..])
  {
    var r := s[..j] + [x] + s[j..];
    assert forall t :: 0 <= t < |r| ==> r[t] == if t < j then s[t] else if t == j then x else s[t - 1];
  }

  /** The same insertion adds `x` and nothing else. */
  lemma InsertAddsOne(s: seq<Match>, j: int, x: Match)
    requires 0 <= j <= |s|
    ensures multiset(s[..j] + [x] + s[j..]) == multiset(s) + multiset{x}
  {
    assert s == s[..j] + s[j..];
  }

  /** The same insertion appends `x` to the matches of its own score and leaves the others alone. */
  lemma InsertAfterEqualScores(s: seq<Match>, j: int, x: Match, k: int)
    requires 0 <= j <= |s|
    requires forall t :: j <= t < |s| ==> s[t].score < x.score
    ensures WithScore(s[..j] + [x] + s[j..], k) == WithScore(s, k) + if x.score == k then [x] else []
  {
    var before, after := s[..j], s[j..];
    assert s == before + after;
    WithScoreConcat(before + [x], after, k);
    WithScoreConcat(before, [x], k);
    WithScoreConcat(before, after, k);
    assert WithScore([x], k) == (if x.score == k then [x] else []) + WithScore([], k);
    if x.score == k {
      WithScoreMembers(after, k);
    }
  }

  /**
   One step of the insertion sort: if `sorted` is a stable sort of `done`,
   inserting `x` at `j` gives a stable sort of `done + [x]`.
   */
  lemma InsertStep(sorted: seq<Match>, done: seq<Match>, j: int, x: Match)
    requires StablySorted(sorted, done)
    requires 0 <= j <= |sorted|
    requires j > 0 ==> sorted[j - 1].score >= x.score
    requires forall t :: j <= t < |sorted| ==> sorted[t].score < x.score
    ensures StablySorted(sorted[..j] + [x] + sorted[j..], done + [x])
  {
    var next := sorted[..j] + [x] + sorted[j..];
    InsertKeepsSorted(sorted, j, x);
    InsertAddsOne(sorted, j, x);
    forall k ensures WithScore(next, k) == WithScore(done + [x], k) {
      InsertAfterEqualScores(sorted, j, x, k);
      WithScoreConcat(done, [x], k);
      assert WithScore([x], k) == (if x.score == k then [x] else []) + WithScore([], k);
    }
  }

  /** `list.sort(key=score, reverse=True)`: a stable insertion sort, highest score first. */
  method SortByScoreDesc(ms: seq<Match>) returns (sorted: seq<Match>)
    ensures StablySorted(sorted, ms)
  {
    sorted := [];
    for i := 0 to |ms|
      invariant SortedByScore(sorted)
      invariant multiset(sorted) == multiset(ms[..i])
      invariant forall k :: WithScore(sorted, k) == WithScore(ms[..i], k)
    {
      var x := ms[i];
      var j := |sorted|;
      while j > 0 && sorted[j - 1].score < x.score
        invariant 0 <= j <= |sorted|
        invariant forall t :: j <= t < |sorted| ==> sorted[t].score < x.score
      {
        j := j - 1;
      }
      assert ms[..i + 1] == ms[..i] + [x];
      InsertStep(sorted, ms[..i], j, x);
      sorted := sorted[..j] + [x] + sorted[j..];
    }
    assert ms[..|ms|] == ms;
  }

  lemma WithScoreHead(ms: seq<Match>)
    ensures ms != [] ==> WithScore(ms, ms[0].score) == [ms[0]] + WithScore(ms[1..], ms[0].score)
  {
  }

  /**
   A stable descending sort has one result: two sequences sorted by score
   that agree on the subsequence of every score are equal.
   */
  lemma {:induction false} StableSortUnique(a: seq<Match>, b: seq<Match>)
    requires SortedByScore(a) && SortedByScore(b)
    requires forall k :: WithScore(a, k) == WithScore(b, k)
    ensures a == b
  {
    WithScoreHead(a);
    WithScoreHead(b);
    if a != [] && b != [] {
      // Each head has the highest score of its sequence, and that score occurs in the other.
      assert WithScore(a, a[0].score) != [];
      WithScoreMembers(b, a[0].score);
      assert WithScore(b, b[0].score) != [];
      WithScoreMembers(a, b[0].score);
      var s := a[0].score;
      assert b[0].score == s by {
        var m :| m in b && m.score == s;
        var n :| n in a && n.score == b[0].score;
      }
      assert a[0] == b[0] by {
        assert WithScore(a, s)[0] == a[0];
        assert WithScore(b, s)[0] == b[0];
      }
      forall k ensures WithScore(a[1..], k) == WithScore(b[1..], k) {
        var head := if s == k then [a[0]] else [];
        assert WithScore(a, k) == head + WithScore(a[1..], k);
        assert WithScore(b, k) == head + WithScore(b[1..], k);
        assert WithScore(a[1..], k) == WithScore(a, k)[|head|..];
        assert WithScore(b[1..], k) == WithScore(b, k)[|head|..];
      }
      StableSortUnique(a[1..], b[1..]);
      assert a == [a[0]] + a[1..] && b == [b[0]] + b[1..];
    }
  }

  /** A stable sort leaves a sequence that is already in order as it is: ties are never swapped. */
  lemma StableSortKeepsSorted(ms: seq<Match>, sorted: seq<Match>)
    requires SortedByScore(ms)
    requires StablySorted(sorted, ms)
    ensures sorted == ms
  {
    StableSortUnique(sorted, ms);
  }

  /**
   Reordering the loop's list keeps what it holds: the entries of available
   animals reaching the threshold, each as often as the animal occurs.
   */
  lemma ShownAvailableAfterSort(d: Adopter, animals: seq<Animal>, found: seq<Match>, matches: seq<Match>)
    requires found == Qualified(d, Available(animals))
    requires multiset(matches) == multiset(found)
    ensures forall m :: m in matches ==>
      m.animal in animals && m.animal.available && m.percentage >= MinPercentage && m == MatchFor(m.animal, d)
    ensures forall a :: multiset(matches)[MatchFor(a, d)]
                     == if a.available && Shown(a, d) then multiset(animals)[a] else 0
  {
    AvailableCounts(animals);
    QualifiedContents(d, Available(animals));
    forall m | m in matches
      ensures m.animal in animals && m.animal.available && m.percentage >= MinPercentage && m == MatchFor(m.animal, d)
    {
      assert m in multiset(found);
      assert m in found;
      assert m.animal in multiset(Available(animals));
    }
  }

  /**
   The computational body of `ver_matches`: the available animals, each
   scored and converted to a percentage, those reaching 50 per cent kept, then
   sorted by raw score, highest first, equal scores in encounter order.
   */
  method RankMatches(d: Adopter, animals: seq<Animal>) returns (matches: seq<Match>)
    ensures forall m :: m in matches ==>
      m.animal in animals && m.animal.available && m.percentage >= MinPercentage && m == MatchFor(m.animal, d)
    ensures forall a :: multiset(matches)[MatchFor(a, d)]
                     == if a.available && Shown(a, d) then multiset(animals)[a] else 0
    ensures StablySorted(matches, Qualified(d, Available(animals)))
  {
    var candidates := Available(animals);
    var found: seq<Match> := [];
    for i := 0 to |candidates|
      invariant found == Qualified(d, candidates[..i])
    {
      var animal := candidates[i];
      var score := Score(animal, d);
      var percentage := Percentage(score);
      assert candidates[..i + 1][..i] == candidates[..i];
      if percentage >= MinPercentage {
        found := found + [Match(animal, score, percentage)];
      }
    }
    assert candidates[..|candidates|] == candidates;
    matches := SortByScoreDesc(found);
    ShownAvailableAfterSort(d, animals, found, matches);
  }

  /** The loop's list for two available, shown, tied animals is the pair in input order. */
  lemma TiedPairQualified(d: Adopter, first: Animal, second: Animal)
    requires first.available && second.available
    requires Shown(first, d) && Score(first, d) == Score(second, d)
    ensures Qualified(d, Available([first, second])) == [MatchFor(first, d), MatchFor(second, d)]
  {
    assert [first, second][1..] == [second];
    assert [first, second][..1] == [first];
    assert Available([second]) == [second];
    assert Available([first, second]) == [first, second];
    assert Qualified(d, [first]) == [MatchFor(first, d)];
  }

  /**
   Two available animals with the same score, both shown, are listed in the
   order the query returned them by any result the ranker's contract allows.
   */
  lemma TiedPairKeepsInputOrder(d: Adopter, first: Animal, second: Animal, matches: seq<Match>)
    requires first.available && second.available
    requires Shown(first, d) && Score(first, d) == Score(second, d)
    requires StablySorted(matches, Qualified(d, Available([first, second])))
    ensures matches == [MatchFor(first, d), MatchFor(second, d)]
  {
    TiedPairQualified(d, first, second);
    StableSortKeepsSorted([MatchFor(first, d), MatchFor(second, d)], matches);
  }
}
