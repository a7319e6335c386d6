/** The stratified train/test split of generate_train_test.py.

    Rows are the indices 0 .. N-1 of the merged table and `tags[i]` is the tag of
    row i, None where the tag cell is empty (NaN), which `groupby` leaves out of
    every group. The grouping by tag is given as the sequence of (tag, row
    indices) pairs that the loop iterates over (IsGrouping says what such a
    sequence must be). The seeded random generator is an oracle `draw`: its
    answer to the j-th group's request for k rows of `ids` is `draw(j, ids, k)`,
    and all that is known about it is that it samples without replacement
    (SamplesWithoutReplacement).
 */
module Splitter {
  import opened Wrappers

  type Sampler = (nat, seq<nat>, nat) -> seq<nat>

  /** One tag group: the tag and the indices of its rows. */
  datatype Group = Group(tag: string, ids: seq<nat>)

  /** The number of test rows taken from a group of n > 1 rows: max(1, ceil(n / 5)). */
  function TestCount(n: nat): (k: nat)
    ensures 1 <= k
    ensures n >= 1 ==> 5 * (k - 1) < n <= 5 * k
    ensures n >= 2 ==> k <= n - 1
  {
    var c := (n + 4) / 5;
    if c < 1 then 1 else c
  }

  /** How many rows of a group of n rows go to test: none for a group of at most one row. */
  function ExpectedTest(n: nat): nat {
    if n <= 1 then 0 else TestCount(n)
  }

  /** No row occurs twice. */
  ghost predicate Distinct(s: seq<nat>) {
    forall x :: multiset(s)[x] <= 1
  }

  /** `pick` is a draw of k distinct rows of `ids`. */
  ghost predicate IsSample(pick: seq<nat>, ids: seq<nat>, k: nat) {
    |pick| == k && Distinct(pick) && forall x :: x in pick ==> x in ids
  }

  /** What `choice(ids, size = k, replace = False)` guarantees, whatever the generator's state. */
  ghost predicate SamplesWithoutReplacement(draw: Sampler) {
    forall j: nat, ids: seq<nat>, k: nat ::
      Distinct(ids) && k <= |ids| ==> IsSample(draw(j, ids, k), ids, k)
  }

  /** The rows are in increasing index order, as pandas keeps them within a group. */
  predicate Ascending(s: seq<nat>) {
    forall a, b | 0 <= a < b < |s| :: s[a] < s[b]
  }

  /** `groups` is the grouping of the rows by tag, as `groupby('tag')` with its
      default of dropping missing keys builds it: each group is non-empty and
      holds each of its rows once, in table order; all rows of a group carry its
      tag; every row with a tag is in some group; a row without one is in none; no
      tag has two groups. */
  ghost predicate IsGrouping(tags: seq<Option<string>>, groups: seq<Group>) {
    && (forall j | 0 <= j < |groups| :: groups[j].ids != [] && Distinct(groups[j].ids) && Ascending(groups[j].ids))
    && (forall j, x | 0 <= j < |groups| && x in groups[j].ids :: x < |tags|)
    && (forall j, x | 0 <= j < |groups| && x in groups[j].ids :: tags[x] == Some(groups[j].tag))
    && (forall i | 0 <= i < |tags| && tags[i].Some? ::
          exists j | 0 <= j < |groups| :: groups[j].tag == tags[i].value && i in groups[j].ids)
    && (forall j1, j2 | 0 <= j1 < j2 < |groups| :: groups[j1].tag != groups[j2].tag)
  }

  /** The groups are row-disjoint and none repeats a row. */
  ghost predicate Disjointly(gs: seq<Group>) {
    && (forall j | 0 <= j < |gs| :: Distinct(gs[j].ids))
    && (forall j1, j2, x | 0 <= j1 < |gs| && 0 <= j2 < |gs| && x in gs[j1].ids && x in gs[j2].ids :: j1 == j2)
  }

  /** The rows of `ids` that are not in `chosen`, in their order in `ids`. */
  function Drop(ids: seq<nat>, chosen: seq<nat>): (r: seq<nat>)
    ensures forall x :: x in r <==> x in ids && x !in chosen
    ensures forall x :: multiset(r)[x] == if x in chosen then 0 else multiset(ids)[x]
  {
    if ids == [] then []
    else
      assert ids == [ids[0]] + ids[1..];
      if ids[0] in chosen then Drop(ids[1..], chosen) else [ids[0]] + Drop(ids[1..], chosen)
  }

  /** The rows of `s` that belong to `g`, in their order in `s`. */
  function Keep(s: seq<nat>, g: seq<nat>): (r: seq<nat>)
    ensures forall x :: x in r <==> x in s && x in g
    ensures |r| <= |s|
  {
    if s == [] then []
    else if s[0] in g then [s[0]] + Keep(s[1..], g) else Keep(s[1..], g)
  }

  /** All rows of the groups, one group after another. */
  function Flatten(gs: seq<Group>): seq<nat> {
    if gs == [] then [] else Flatten(gs[..|gs| - 1]) + gs[|gs| - 1].ids
  }

  /** The test rows of the j-th group `ids`. */
  function GroupTest(j: nat, ids: seq<nat>, draw: Sampler): seq<nat> {
    if |ids| <= 1 then [] else draw(j, ids, TestCount(|ids|))
  }

  /** The train rows of the j-th group `ids`. */
  function GroupTrain(j: nat, ids: seq<nat>, draw: Sampler): seq<nat> {
    if |ids| <= 1 then ids else Drop(ids, draw(j, ids, TestCount(|ids|)))
  }

  /** `test_indices` after the groups `gs` have been processed. */
  function TestOf(gs: seq<Group>, draw: Sampler): seq<nat> {
    if gs == [] then []
    else TestOf(gs[..|gs| - 1], draw) + GroupTest(|gs| - 1, gs[|gs| - 1].ids, draw)
  }

  /** `train_indices` after the groups `gs` have been processed. */
  function TrainOf(gs: seq<Group>, draw: Sampler): seq<nat> {
    if gs == [] then []
    else TrainOf(gs[..|gs| - 1], draw) + GroupTrain(|gs| - 1, gs[|gs| - 1].ids, draw)
  }

  /** The loop over the tag groups of generate_train_test.py. */
  method Split(tags: seq<Option<string>>, groups: seq<Group>, draw: Sampler)
    returns (train: seq<nat>, test: seq<nat>)
    requires IsGrouping(tags, groups)
    requires SamplesWithoutReplacement(draw)
    ensures train == TrainOf(groups, draw) && test == TestOf(groups, draw)
    ensures Distinct(train + test)
    ensures forall i: nat :: i in train + test <==> i < |tags| && tags[i].Some?
    ensures forall x | x in test :: x < |tags| && tags[x].Some? && exists y | 0 <= y < |tags| :: y != x && tags[y] == tags[x]
    ensures forall i | 0 <= i < |tags| && tags[i].Some? && (forall y | 0 <= y < |tags| && y != i :: tags[y] != tags[i]) ::
              i in train && i !in test
    ensures forall j | 0 <= j < |groups| ::
              |Keep(test, groups[j].ids)| == ExpectedTest(|groups[j].ids|) &&
              Keep(train, groups[j].ids) == GroupTrain(j, groups[j].ids, draw) &&
              |Keep(train, groups[j].ids)| == |groups[j].ids| - ExpectedTest(|groups[j].ids|) >= 1
    ensures forall j | 0 <= j < |groups| :: Ascending(Keep(train, groups[j].ids))
  {
    train, test := [], [];
    for j := 0 to |groups|
      invariant train == TrainOf(groups[..j], draw)
      invariant test == TestOf(groups[..j], draw)
    {
      assert groups[..j + 1][..j] == groups[..j];
      var ids := groups[j].ids;
      var n := |ids|;
      if n <= 1 {
        train := train + ids;
      } else {
        var testCount := TestCount(n);
        assert testCount <= n - 1;
        var chosen := draw(j, ids, testCount);
        test := test + chosen;
        train := train + Drop(ids, chosen);
      }
    }
    assert groups[..|groups|] == groups;
    SplitCoversRows(tags, groups, draw);
    TestRowsShareTag(tags, groups, draw);
    forall j | 0 <= j < |groups|
      ensures |Keep(test, groups[j].ids)| == ExpectedTest(|groups[j].ids|)
      ensures Keep(train, groups[j].ids) == GroupTrain(j, groups[j].ids, draw)
      ensures |Keep(train, groups[j].ids)| == |groups[j].ids| - ExpectedTest(|groups[j].ids|) >= 1
    {
      GroupShares(tags, groups, draw, j);
    }
    forall j | 0 <= j < |groups| ensures Ascending(Keep(train, groups[j].ids)) {
      GroupShares(tags, groups, draw, j);
      GroupTrainAscending(j, groups[j].ids, draw);
    }
  }

  // ---------------------------------------------------------------------------
  // Lemmas about TrainOf and TestOf

  /** A sampler that exists: the first k rows. So the oracle requirement of Split can be met. */
  lemma FirstRowsSample()
    ensures SamplesWithoutReplacement((j: nat, ids: seq<nat>, k: nat) => if k <= |ids| then ids[..k] else [])
  {
    var draw := (j: nat, ids: seq<nat>, k: nat) => if k <= |ids| then ids[..k] else [];
    forall j: nat, ids: seq<nat>, k: nat | Distinct(ids) && k <= |ids|
      ensures IsSample(draw(j, ids, k), ids, k)
    {
      assert ids == ids[..k] + ids[k..];
      assert multiset(ids) == multiset(ids[..k]) + multiset(ids[k..]);
      forall x ensures multiset(ids[..k])[x] <= 1 {
        assert multiset(ids[..k])[x] <= multiset(ids)[x];
      }
    }
  }

  /** The last group's rows are appended to the lists built from the groups before it. */
  lemma LastStep(gs: seq<Group>, draw: Sampler)
    requires gs != []
    ensures var init, n := gs[..|gs| - 1], |gs| - 1;
            && TestOf(gs, draw) == TestOf(init, draw) + GroupTest(n, gs[n].ids, draw)
            && TrainOf(gs, draw) == TrainOf(init, draw) + GroupTrain(n, gs[n].ids, draw)
  {
  }

  lemma {:induction false} KeepAppend(a: seq<nat>, b: seq<nat>, g: seq<nat>)
    ensures Keep(a + b, g) == Keep(a, g) + Keep(b, g)
  {
    if a == [] {
      assert a + b == b;
    } else {
      assert (a + b)[0] == a[0];
      assert (a + b)[1..] == a[1..] + b;
      KeepAppend(a[1..], b, g);
      if a[0] in g {
        calc {
          Keep(a + b, g);
          [a[0]] + Keep(a[1..] + b, g);
          [a[0]] + (Keep(a[1..], g) + Keep(b, g));
          ([a[0]] + Keep(a[1..], g)) + Keep(b, g);
          Keep(a, g) + Keep(b, g);
        }
      } else {
        calc {
          Keep(a + b, g);
          Keep(a[1..] + b, g);
          Keep(a[1..], g) + Keep(b, g);
          Keep(a, g) + Keep(b, g);
        }
      }
    }
  }

  lemma {:induction false} KeepNone(s: seq<nat>, g: seq<nat>)
    requires forall x :: x in s ==> x !in g
    ensures Keep(s, g) == []
  {
    if s != [] {
      assert s[0] in s;
      KeepNone(s[1..], g);
    }
  }

  lemma {:induction false} KeepAll(s: seq<nat>, g: seq<nat>)
    requires forall x :: x in s ==> x in g
    ensures Keep(s, g) == s
  {
    if s != [] {
      assert s[0] in s;
      KeepAll(s[1..], g);
    }
  }

  lemma {:induction false} FlattenMember(gs: seq<Group>, x: nat)
    ensures x in Flatten(gs) <==> exists j | 0 <= j < |gs| :: x in gs[j].ids
  {
    if gs != [] {
      var init := gs[..|gs| - 1];
      FlattenMember(init, x);
      if x in Flatten(init) {
        var j :| 0 <= j < |init| && x in init[j].ids;
        assert x in gs[j].ids;
      }
      if exists j | 0 <= j < |gs| :: x in gs[j].ids {
        var j :| 0 <= j < |gs| && x in gs[j].ids;
        if j < |gs| - 1 {
          assert x in init[j].ids;
        }
      }
    }
  }

  /** A prefix of row-disjoint groups is row-disjoint. */
  lemma DisjointlyInit(gs: seq<Group>)
    requires Disjointly(gs) && gs != []
    ensures Disjointly(gs[..|gs| - 1])
  {
    var init := gs[..|gs| - 1];
    forall j1, j2, x | 0 <= j1 < |init| && 0 <= j2 < |init| && x in init[j1].ids && x in init[j2].ids
      ensures j1 == j2
    {
      assert x in gs[j1].ids && x in gs[j2].ids;
    }
  }

  /** A grouping by tag has row-disjoint groups. */
  lemma GroupingIsDisjoint(tags: seq<Option<string>>, groups: seq<Group>)
    requires IsGrouping(tags, groups)
    ensures Disjointly(groups)
  {
    forall j1, j2, x | 0 <= j1 < |groups| && 0 <= j2 < |groups| && x in groups[j1].ids && x in groups[j2].ids
      ensures j1 == j2
    {
      assert x < |tags| && tags[x] == Some(groups[j1].tag);
      assert tags[x] == Some(groups[j2].tag);
    }
  }

  /** The rows of row-disjoint groups, read one group after another, repeat no row. */
  lemma {:induction false} FlattenDistinct(gs: seq<Group>)
    requires Disjointly(gs)
    ensures Distinct(Flatten(gs))
  {
    if gs != [] {
      var init, last := gs[..|gs| - 1], gs[|gs| - 1].ids;
      DisjointlyInit(gs);
      FlattenDistinct(init);
      forall x ensures multiset(Flatten(gs))[x] <= 1 {
        FlattenMember(init, x);
      }
    }
  }

  /** The rest of an ascending list is ascending and above its first row. */
  lemma AscendingTail(s: seq<nat>)
    requires Ascending(s) && s != []
    ensures Ascending(s[1..])
    ensures forall y :: y in s[1..] ==> s[0] < y
  {
    var rest := s[1..];
    forall a, b | 0 <= a < b < |rest| ensures rest[a] < rest[b] {
      assert rest[a] == s[a + 1] && rest[b] == s[b + 1];
    }
    forall y | y in rest ensures s[0] < y {
      var m :| 0 <= m < |rest| && rest[m] == y;
      assert rest[m] == s[m + 1];
    }
  }

  /** A row below every row of an ascending list can be put in front of it. */
  lemma AscendingCons(x: nat, r: seq<nat>)
    requires Ascending(r)
    requires forall y :: y in r ==> x < y
    ensures Ascending([x] + r)
  {
    var s := [x] + r;
    forall a, b | 0 <= a < b < |s| ensures s[a] < s[b] {
      assert s[b] == r[b - 1];
      if a > 0 {
        assert s[a] == r[a - 1];
      } else {
        assert r[b - 1] in r;
      }
    }
  }

  /** A table whose middle row has no tag: `groupby` gives one group without it,
      and the split places rows 0 and 2 and leaves row 1 out. */
  lemma UntaggedRowLeftOut(draw: Sampler)
    requires SamplesWithoutReplacement(draw)
    ensures IsGrouping([Some("a"), None, Some("a")], [Group("a", [0, 2])])
    ensures var both := TrainOf([Group("a", [0, 2])], draw) + TestOf([Group("a", [0, 2])], draw);
            0 in both && 2 in both && 1 !in both
  {
    var tags, groups := [Some("a"), None, Some("a")], [Group("a", [0, 2])];
    var ids: seq<nat> := [0, 2];
    assert multiset(ids) == multiset{0, 2};
    assert Distinct(ids);
    forall i | 0 <= i < |tags| && tags[i].Some?
      ensures exists j | 0 <= j < |groups| :: groups[j].tag == tags[i].value && i in groups[j].ids
    {
      assert groups[0].tag == tags[i].value && i in groups[0].ids;
    }
    assert IsGrouping(tags, groups);
    SplitCoversRows(tags, groups, draw);
  }

  /** Dropping rows from an ascending list leaves it ascending. */
  lemma {:induction false} DropAscending(ids: seq<nat>, chosen: seq<nat>)
    requires Ascending(ids)
    ensures Ascending(Drop(ids, chosen))
  {
    if ids != [] {
      AscendingTail(ids);
      DropAscending(ids[1..], chosen);
      if ids[0] !in chosen {
        AscendingCons(ids[0], Drop(ids[1..], chosen));
      }
    }
  }

  /** The train rows of an ascending group are ascending: they keep the table order. */
  lemma GroupTrainAscending(j: nat, ids: seq<nat>, draw: Sampler)
    requires Ascending(ids)
    ensures Ascending(GroupTrain(j, ids, draw))
  {
    if |ids| > 1 {
      DropAscending(ids, draw(j, ids, TestCount(|ids|)));
    }
  }

  /** The test and train rows of one group are rows of that group. */
  lemma GroupWithin(j: nat, ids: seq<nat>, draw: Sampler)
    requires Distinct(ids)
    requires SamplesWithoutReplacement(draw)
    ensures forall x :: x in GroupTest(j, ids, draw) ==> x in ids
    ensures forall x :: x in GroupTrain(j, ids, draw) ==> x in ids
  {
    if |ids| > 1 {
      assert IsSample(draw(j, ids, TestCount(|ids|)), ids, TestCount(|ids|));
    }
  }

  /** Within one group, test and train rows together are the group's rows, once
      each, and ExpectedTest of them are test rows. */
  lemma GroupSplit(j: nat, ids: seq<nat>, draw: Sampler)
    requires Distinct(ids)
    requires SamplesWithoutReplacement(draw)
    ensures multiset(GroupTrain(j, ids, draw)) + multiset(GroupTest(j, ids, draw)) == multiset(ids)
    ensures |GroupTest(j, ids, draw)| == ExpectedTest(|ids|)
  {
    if |ids| > 1 {
      var pick := draw(j, ids, TestCount(|ids|));
      assert IsSample(pick, ids, TestCount(|ids|));
      forall x
        ensures multiset(Drop(ids, pick))[x] + multiset(pick)[x] == multiset(ids)[x]
      {
        if x in pick {
          assert x in ids;
        }
      }
    }
  }

  /** Train and test rows together are the rows of all groups, once each. */
  lemma {:induction false} SplitCoversGroups(gs: seq<Group>, draw: Sampler)
    requires forall j | 0 <= j < |gs| :: Distinct(gs[j].ids)
    requires SamplesWithoutReplacement(draw)
    ensures multiset(TrainOf(gs, draw)) + multiset(TestOf(gs, draw)) == multiset(Flatten(gs))
  {
    if gs != [] {
      var init := gs[..|gs| - 1];
      LastStep(gs, draw);
      assert Flatten(gs) == Flatten(init) + gs[|gs| - 1].ids;
      SplitCoversGroups(init, draw);
      GroupSplit(|gs| - 1, gs[|gs| - 1].ids, draw);
    }
  }

  /** Over all groups, every row goes to exactly one of train and test, once. */
  lemma SplitCoversRows(tags: seq<Option<string>>, groups: seq<Group>, draw: Sampler)
    requires IsGrouping(tags, groups)
    requires SamplesWithoutReplacement(draw)
    ensures Distinct(TrainOf(groups, draw) + TestOf(groups, draw))
    ensures forall i: nat :: i in TrainOf(groups, draw) + TestOf(groups, draw) <==> i < |tags| && tags[i].Some?
  {
    var both := TrainOf(groups, draw) + TestOf(groups, draw);
    GroupingIsDisjoint(tags, groups);
    SplitCoversGroups(groups, draw);
    FlattenDistinct(groups);
    GroupingCoversRows(tags, groups);
    SameRows(both, Flatten(groups));
  }

  /** Two sequences holding the same rows equally often. */
  lemma SameRows(a: seq<nat>, b: seq<nat>)
    requires multiset(a) == multiset(b)
    requires Distinct(b)
    ensures Distinct(a)
    ensures forall x :: x in a <==> x in b
  {
    forall x ensures x in a <==> x in b {
      assert x in a <==> x in multiset(a);
      assert x in b <==> x in multiset(b);
    }
  }

  /** The groups of a grouping hold exactly the rows 0 .. N-1. */
  lemma GroupingCoversRows(tags: seq<Option<string>>, groups: seq<Group>)
    requires IsGrouping(tags, groups)
    ensures forall i: nat :: i in Flatten(groups) <==> i < |tags| && tags[i].Some?
  {
    forall i: nat ensures i in Flatten(groups) <==> i < |tags| && tags[i].Some? {
      FlattenMember(groups, i);
      if i < |tags| && tags[i].Some? {
        assert exists j | 0 <= j < |groups| :: groups[j].tag == tags[i].value && i in groups[j].ids;
        var j :| 0 <= j < |groups| && groups[j].tag == tags[i].value && i in groups[j].ids;
      }
      if i in Flatten(groups) {
        var j :| 0 <= j < |groups| && i in groups[j].ids;
        assert i < |tags|;
      }
    }
  }

  lemma {:induction false} TestOfMember(gs: seq<Group>, draw: Sampler, x: nat)
    requires x in TestOf(gs, draw)
    ensures exists j | 0 <= j < |gs| :: |gs[j].ids| > 1 && x in draw(j, gs[j].ids, TestCount(|gs[j].ids|))
  {
    var init := gs[..|gs| - 1];
    if x in TestOf(init, draw) {
      TestOfMember(init, draw, x);
      var j :| 0 <= j < |init| && |init[j].ids| > 1 && x in draw(j, init[j].ids, TestCount(|init[j].ids|));
      assert gs[j] == init[j];
    }
  }

  /** A group of two or more distinct rows has two different first rows. */
  lemma TwoRows(g: seq<nat>)
    requires Distinct(g) && |g| >= 2
    ensures g[0] != g[1]
  {
    assert g == [g[0], g[1]] + g[2..];
    assert multiset(g) == multiset{g[0], g[1]} + multiset(g[2..]);
    assert multiset(g)[g[0]] <= 1;
  }

  /** A test row shares its tag with some other row. */
  lemma TestRowSharesTag(tags: seq<Option<string>>, groups: seq<Group>, draw: Sampler, x: nat)
    requires IsGrouping(tags, groups)
    requires SamplesWithoutReplacement(draw)
    requires x in TestOf(groups, draw)
    ensures x < |tags| && tags[x].Some? && exists y | 0 <= y < |tags| :: y != x && tags[y] == tags[x]
  {
    TestOfMember(groups, draw, x);
    var j :| 0 <= j < |groups| && |groups[j].ids| > 1 && x in draw(j, groups[j].ids, TestCount(|groups[j].ids|));
    var g := groups[j].ids;
    assert IsSample(draw(j, g, TestCount(|g|)), g, TestCount(|g|));
    assert x in g && g[0] in g && g[1] in g;
    TwoRows(g);
    var y := if g[0] != x then g[0] else g[1];
    assert tags[y] == Some(groups[j].tag) == tags[x];
  }

  /** A test row always shares its tag with another row; so a row whose tag no
      other row has is in train and not in test. */
  lemma TestRowsShareTag(tags: seq<Option<string>>, groups: seq<Group>, draw: Sampler)
    requires IsGrouping(tags, groups)
    requires SamplesWithoutReplacement(draw)
    ensures forall x | x in TestOf(groups, draw) :: x < |tags| && tags[x].Some? && exists y | 0 <= y < |tags| :: y != x && tags[y] == tags[x]
    ensures forall i | 0 <= i < |tags| && tags[i].Some? && (forall y | 0 <= y < |tags| && y != i :: tags[y] != tags[i]) ::
              i in TrainOf(groups, draw) && i !in TestOf(groups, draw)
  {
    forall x | x in TestOf(groups, draw)
      ensures x < |tags| && tags[x].Some? && exists y | 0 <= y < |tags| :: y != x && tags[y] == tags[x]
    {
      TestRowSharesTag(tags, groups, draw, x);
    }
    SplitCoversRows(tags, groups, draw);
    forall i | 0 <= i < |tags| && tags[i].Some? && (forall y | 0 <= y < |tags| && y != i :: tags[y] != tags[i])
      ensures i in TrainOf(groups, draw) && i !in TestOf(groups, draw)
    {
      assert i in TrainOf(groups, draw) + TestOf(groups, draw);
    }
  }

  /** Group `g`, disjoint from all of `gs`, receives none of their test or train rows. */
  lemma {:induction false} OtherGroupsOutside(gs: seq<Group>, draw: Sampler, g: seq<nat>)
    requires forall j | 0 <= j < |gs| :: Distinct(gs[j].ids)
    requires forall j, x | 0 <= j < |gs| && x in gs[j].ids :: x !in g
    requires SamplesWithoutReplacement(draw)
    ensures Keep(TestOf(gs, draw), g) == []
    ensures Keep(TrainOf(gs, draw), g) == []
  {
    if gs != [] {
      var init, last, n := gs[..|gs| - 1], gs[|gs| - 1].ids, |gs| - 1;
      LastStep(gs, draw);
      OtherGroupsOutside(init, draw, g);
      KeepAppend(TestOf(init, draw), GroupTest(n, last, draw), g);
      KeepAppend(TrainOf(init, draw), GroupTrain(n, last, draw), g);
      GroupWithin(n, last, draw);
      KeepNone(GroupTest(n, last, draw), g);
      KeepNone(GroupTrain(n, last, draw), g);
    }
  }

  /** The test and train rows that come from the last group are its own. */
  lemma KeepLastGroup(gs: seq<Group>, draw: Sampler)
    requires Disjointly(gs) && gs != []
    requires SamplesWithoutReplacement(draw)
    ensures Keep(TestOf(gs, draw), gs[|gs| - 1].ids) == GroupTest(|gs| - 1, gs[|gs| - 1].ids, draw)
    ensures Keep(TrainOf(gs, draw), gs[|gs| - 1].ids) == GroupTrain(|gs| - 1, gs[|gs| - 1].ids, draw)
  {
    var init, last, n := gs[..|gs| - 1], gs[|gs| - 1].ids, |gs| - 1;
    LastStep(gs, draw);
    InitOutsideLast(gs, draw);
    assert Distinct(gs[n].ids);
    GroupWithin(n, last, draw);
    KeepBlock(TestOf(init, draw), GroupTest(n, last, draw), last);
    KeepBlock(TrainOf(init, draw), GroupTrain(n, last, draw), last);
  }

  /** Rows of g appended after a list holding none of g's rows are all that Keep finds. */
  lemma KeepBlock(a: seq<nat>, b: seq<nat>, g: seq<nat>)
    requires Keep(a, g) == []
    requires forall x :: x in b ==> x in g
    ensures Keep(a + b, g) == b
  {
    KeepAppend(a, b, g);
    KeepAll(b, g);
  }

  /** The groups before the last add none of the last group's rows. */
  lemma InitOutsideLast(gs: seq<Group>, draw: Sampler)
    requires Disjointly(gs) && gs != []
    requires SamplesWithoutReplacement(draw)
    ensures Keep(TestOf(gs[..|gs| - 1], draw), gs[|gs| - 1].ids) == []
    ensures Keep(TrainOf(gs[..|gs| - 1], draw), gs[|gs| - 1].ids) == []
  {
    var init := gs[..|gs| - 1];
    DisjointFromLast(gs, init);
    DisjointlyInit(gs);
    OtherGroupsOutside(init, draw, gs[|gs| - 1].ids);
  }

  /** No group before the last shares a row with the last group. */
  lemma DisjointFromLast(gs: seq<Group>, init: seq<Group>)
    requires Disjointly(gs) && gs != [] && init == gs[..|gs| - 1]
    ensures forall j, x | 0 <= j < |init| && x in init[j].ids :: x !in gs[|gs| - 1].ids
  {
    forall j, x | 0 <= j < |init| && x in init[j].ids ensures x !in gs[|gs| - 1].ids {
      assert x in gs[j].ids;
    }
  }

  /** The test and train rows that come from group j are that group's own test and train rows. */
  lemma {:induction false} GroupBlocks(gs: seq<Group>, draw: Sampler, j: nat)
    requires Disjointly(gs)
    requires SamplesWithoutReplacement(draw)
    requires j < |gs|
    ensures Keep(TestOf(gs, draw), gs[j].ids) == GroupTest(j, gs[j].ids, draw)
    ensures Keep(TrainOf(gs, draw), gs[j].ids) == GroupTrain(j, gs[j].ids, draw)
  {
    var init, last, n := gs[..|gs| - 1], gs[|gs| - 1].ids, |gs| - 1;
    if j == n {
      KeepLastGroup(gs, draw);
    } else {
      var g := gs[j].ids;
      var test, train := GroupTest(n, last, draw), GroupTrain(n, last, draw);
      LastStep(gs, draw);
      KeepAppend(TestOf(init, draw), test, g);
      KeepAppend(TrainOf(init, draw), train, g);
      GroupWithin(n, last, draw);
      forall x | x in last ensures x !in g {
        assert x in gs[n].ids;
      }
      KeepNone(test, g);
      KeepNone(train, g);
      DisjointlyInit(gs);
      assert init[j].ids == g;
      GroupBlocks(init, draw, j);
    }
  }

  /** Group j sends exactly ExpectedTest of its rows to test, and keeps the rest,
      at least one, in train, in their table order. */
  lemma GroupShares(tags: seq<Option<string>>, groups: seq<Group>, draw: Sampler, j: nat)
    requires IsGrouping(tags, groups)
    requires SamplesWithoutReplacement(draw)
    requires j < |groups|
    ensures |Keep(TestOf(groups, draw), groups[j].ids)| == ExpectedTest(|groups[j].ids|)
    ensures Keep(TrainOf(groups, draw), groups[j].ids) == GroupTrain(j, groups[j].ids, draw)
    ensures |Keep(TrainOf(groups, draw), groups[j].ids)| == |groups[j].ids| - ExpectedTest(|groups[j].ids|) >= 1
  {
    GroupingIsDisjoint(tags, groups);
    GroupBlocks(groups, draw, j);
    var g := groups[j].ids;
    GroupSplit(j, g, draw);
    assert |multiset(GroupTrain(j, g, draw))| + |multiset(GroupTest(j, g, draw))| == |multiset(g)|;
  }
}
