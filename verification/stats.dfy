/** The per-type statistics of the poll listing: the grouped counts from the
    store, filled in for the five fixed types and stably sorted by count,
    largest first. */
module Statistics {
  import opened Base
  import opened Records

  /** One entry of the fixed type table: a type and its display label. */
  datatype TypeInfo = TypeInfo(kind: PollType, labelText: string)

  /** `allTypes`: the five types in the order the table lists them. */
  const AllTypes: seq<TypeInfo> := [
    TypeInfo(SingleChoice, "Single Choice"),
    TypeInfo(YesNo, "Yes/No"),
    TypeInfo(Rating, "Rating"),
    TypeInfo(ImageBased, "Image Based"),
    TypeInfo(OpenEnded, "Open Ended")
  ]

  /** The position of a type in `AllTypes`. */
  function Rank(k: PollType): (r: nat)
    ensures r < |AllTypes| && AllTypes[r].kind == k
  {
    match k
    case SingleChoice => 0
    case YesNo => 1
    case Rating => 2
    case ImageBased => 3
    case OpenEnded => 4
  }

  /** The label the table gives a type. */
  function Label(k: PollType): string
  {
    AllTypes[Rank(k)].labelText
  }

  /** One group of the store's aggregation: a type and how many polls have it. */
  datatype TypeCount = TypeCount(kind: PollType, count: nat)

  /** One row of the statistics table. */
  datatype TypeStat = TypeStat(labelText: string, kind: PollType, count: nat)

  /** The stored polls whose type is in `kinds`. */
  ghost function IdsOfKinds(polls: map<Id, Poll>, kinds: set<PollType>): set<Id>
  {
    set id | id in polls && polls[id].kind in kinds
  }

  /** How many stored polls have type `k`. */
  ghost function KindCount(polls: map<Id, Poll>, k: PollType): nat
  {
    |IdsOfKinds(polls, {k})|
  }

  /** `groups` is what grouping all stored polls by type yields, in any
      order: one group per type present, carrying that type's count. */
  ghost predicate IsGrouping(groups: seq<TypeCount>, polls: map<Id, Poll>)
  {
    && (forall i :: 0 <= i < |groups| ==> groups[i].count == KindCount(polls, groups[i].kind) > 0)
    && (forall k :: KindCount(polls, k) > 0 ==> exists i :: 0 <= i < |groups| && groups[i].kind == k)
  }

  /** `stats.find(item => item.type === k)`, defaulting to a count of zero:
      the count of the first group of type `k`, or 0 when there is none. */
  function FindCount(groups: seq<TypeCount>, k: PollType): (r: nat)
    ensures (forall i :: 0 <= i < |groups| ==> groups[i].kind != k) ==> r == 0
    ensures (exists i :: 0 <= i < |groups| && groups[i].kind == k) ==>
      exists i :: 0 <= i < |groups| && groups[i].kind == k && groups[i].count == r &&
        forall j :: 0 <= j < i ==> groups[j].kind != k
  {
    if groups == [] then 0
    else if groups[0].kind == k then groups[0].count
    else
      var r := FindCount(groups[1..], k);
      assert forall i :: 1 <= i < |groups| ==> groups[1..][i - 1] == groups[i];
      r
  }

  /** Over a true grouping, the lookup yields the type's count, zero included. */
  lemma FindIsCount(groups: seq<TypeCount>, polls: map<Id, Poll>, k: PollType)
    requires IsGrouping(groups, polls)
    ensures FindCount(groups, k) == KindCount(polls, k)
  {
  }

  /** `allTypes.map(...)`: one row per fixed type, in table order, with the
      type's label and the count of its group, 0 when it has none. */
  function WithDefaults(groups: seq<TypeCount>): (r: seq<TypeStat>)
    ensures |r| == |AllTypes|
    ensures forall i :: 0 <= i < |r| ==>
      && Rank(r[i].kind) == i
      && r[i].labelText == Label(r[i].kind)
      && r[i].count == FindCount(groups, r[i].kind)
  {
    seq(|AllTypes|, i requires 0 <= i < |AllTypes| =>
      TypeStat(AllTypes[i].labelText, AllTypes[i].kind, FindCount(groups, AllTypes[i].kind)))
  }

  /** Counts never increase from one row to the next. */
  predicate CountNonIncreasing(s: seq<TypeStat>)
  {
    forall i :: 0 < i < |s| ==> s[i - 1].count >= s[i].count
  }

  /** `a` comes before `b` in a table sorted by count, largest first, with
      ties in `AllTypes` order. */
  predicate Before(a: TypeStat, b: TypeStat)
  {
    a.count > b.count || (a.count == b.count && Rank(a.kind) < Rank(b.kind))
  }

  /** Each row comes before the next. */
  predicate Ordered(s: seq<TypeStat>)
  {
    forall i :: 0 < i < |s| ==> Before(s[i - 1], s[i])
  }

  /** Dropping the first row keeps the counts non-increasing. */
  lemma TailNonIncreasing(s: seq<TypeStat>)
    requires s != []
    ensures CountNonIncreasing(s) ==> CountNonIncreasing(s[1..])
  {
    if CountNonIncreasing(s) {
      forall i | 0 < i < |s[1..]| ensures s[1..][i - 1].count >= s[1..][i].count {
        assert s[1..][i - 1] == s[i - 1 + 1];
      }
    }
  }

  /** A row whose count is at least the first count of a non-increasing
      table can be put in front of it. */
  lemma ConsNonIncreasing(h: TypeStat, rest: seq<TypeStat>)
    requires CountNonIncreasing(rest)
    requires rest == [] || h.count >= rest[0].count
    ensures CountNonIncreasing([h] + rest)
  {
    var r := [h] + rest;
    forall i | 0 < i < |r| ensures r[i - 1].count >= r[i].count {
      if i > 1 {
        assert r[i - 1] == rest[i - 2] && r[i] == rest[i - 1];
      }
    }
  }

  /** Insertion of `x` ahead of the first row whose count does not exceed
      its own: the step of a stable sort in which `x` preceded the rows of
      `s` in the input. */
  function Insert(x: TypeStat, s: seq<TypeStat>): (r: seq<TypeStat>)
    ensures multiset(r) == multiset(s) + multiset{x}
    ensures |r| == |s| + 1
    ensures r[0] == x || (s != [] && r[0] == s[0])
    ensures CountNonIncreasing(s) ==> CountNonIncreasing(r)
  {
    if s == [] then [x]
    else if s[0].count <= x.count then [x] + s
    else
      var rest := Insert(x, s[1..]);
      assert s == [s[0]] + s[1..];
      assert CountNonIncreasing(s) ==> CountNonIncreasing([s[0]] + rest) by {
        if CountNonIncreasing(s) {
          TailNonIncreasing(s);
          assert rest[0] == x || rest[0] == s[1];
          ConsNonIncreasing(s[0], rest);
        }
      }
      [s[0]] + rest
  }


  /** `.sort((a, b) => b.count - a.count)` with a stable sort: the rows
      rearranged so that counts never increase. */
  function SortByCount(s: seq<TypeStat>): (r: seq<TypeStat>)
    ensures multiset(r) == multiset(s)
    ensures |r| == |s|
    ensures CountNonIncreasing(r)
  {
    if s == [] then []
    else
      assert s == [s[0]] + s[1..];
      Insert(s[0], SortByCount(s[1..]))
  }

  /** The statistics table of the listing: the filled-in rows rearranged
      so that every row comes before each later one by count, largest
      first, with ties in `AllTypes` order. */
  function Stats(groups: seq<TypeCount>): (r: seq<TypeStat>)
    ensures multiset(r) == multiset(WithDefaults(groups))
    ensures |r| == |AllTypes|
    ensures forall i, j :: 0 <= i < j < |r| ==> Before(r[i], r[j])
  {
    var d := WithDefaults(groups);
    SortKeepsTieOrder(d);
    OrderedPairwise(SortByCount(d));
    SortByCount(d)
  }

  /** Inserting a row that ranks before every row of an ordered table
      keeps it ordered. */
  lemma {:induction false} InsertOrdered(x: TypeStat, s: seq<TypeStat>)
    requires Ordered(s)
    requires forall i :: 0 <= i < |s| ==> Rank(x.kind) < Rank(s[i].kind)
    ensures Ordered(Insert(x, s))
  {
    if s != [] && s[0].count > x.count {
      assert Ordered(s[1..]) by {
        forall i | 0 < i < |s[1..]| ensures Before(s[1..][i - 1], s[1..][i]) {
          assert s[1..][i - 1] == s[i] && s[1..][i] == s[i + 1];
        }
      }
      InsertOrdered(x, s[1..]);
    }
  }

  /** In an ordered table every row comes before every later row. */
  lemma {:induction false} OrderedPairwise(s: seq<TypeStat>)
    requires Ordered(s)
    ensures forall i, j :: 0 <= i < j < |s| ==> Before(s[i], s[j])
  {
    if s != [] {
      assert Ordered(s[1..]) by {
        forall i | 0 < i < |s[1..]| ensures Before(s[1..][i - 1], s[1..][i]) {
          assert s[1..][i - 1] == s[i] && s[1..][i] == s[i + 1];
        }
      }
      OrderedPairwise(s[1..]);
      forall i, j | 0 <= i < j < |s| ensures Before(s[i], s[j]) {
        if i > 0 {
          assert s[i] == s[1..][i - 1] && s[j] == s[1..][j - 1];
        } else if j > 1 {
          assert Before(s[1], s[j]) by { assert s[1] == s[1..][0] && s[j] == s[1..][j - 1]; }
        }
      }
    }
  }

  /** Stability: rows listed in `AllTypes` order come out sorted by count,
      largest first, with equal counts left in `AllTypes` order. */
  lemma {:induction false} SortKeepsTieOrder(s: seq<TypeStat>)
    requires forall i, j :: 0 <= i < j < |s| ==> Rank(s[i].kind) < Rank(s[j].kind)
    ensures Ordered(SortByCount(s))
  {
    if s != [] {
      SortKeepsTieOrder(s[1..]);
      var sorted := SortByCount(s[1..]);
      forall i | 0 <= i < |sorted| ensures Rank(s[0].kind) < Rank(sorted[i].kind) {
        assert sorted[i] in multiset(s[1..]);
        var k :| 0 <= k < |s[1..]| && s[1..][k] == sorted[i];
        assert s[1..][k] == s[k + 1];
      }
      InsertOrdered(s[0], sorted);
    }
  }

  /** The row the table shows for type `k`. */
  ghost function StatFor(polls: map<Id, Poll>, k: PollType): TypeStat
  {
    TypeStat(Label(k), k, KindCount(polls, k))
  }

  /** Over a true grouping, the filled-in rows are the table's rows, one per
      type, in `AllTypes` order. */
  lemma DefaultRows(groups: seq<TypeCount>, polls: map<Id, Poll>)
    requires IsGrouping(groups, polls)
    ensures var d := WithDefaults(groups);
      && |d| == |AllTypes|
      && (forall i :: 0 <= i < |d| ==> d[i] == StatFor(polls, AllTypes[i].kind) && Rank(d[i].kind) == i)
  {
    var d := WithDefaults(groups);
    forall i | 0 <= i < |d| ensures d[i] == StatFor(polls, AllTypes[i].kind) && Rank(d[i].kind) == i {
      FindIsCount(groups, polls, AllTypes[i].kind);
    }
  }

  /** Every row of the table is the row of its own type, and every type
      has its row in the table. */
  lemma StatsRows(groups: seq<TypeCount>, polls: map<Id, Poll>)
    requires IsGrouping(groups, polls)
    ensures var r := Stats(groups);
      && |r| == |AllTypes|
      && (forall k :: StatFor(polls, k) in r)
      && (forall i :: 0 <= i < |r| ==> r[i] == StatFor(polls, r[i].kind))
  {
    var d := WithDefaults(groups);
    DefaultRows(groups, polls);
    var r := Stats(groups);
    assert multiset(r) == multiset(d);
    forall k ensures StatFor(polls, k) in r {
      assert d[Rank(k)] == StatFor(polls, k);
      assert StatFor(polls, k) in multiset(d);
    }
    forall i | 0 <= i < |r| ensures r[i] == StatFor(polls, r[i].kind) {
      assert r[i] in multiset(d);
      var k :| 0 <= k < |d| && d[k] == r[i];
    }
  }

  /** The statistics table shows every type exactly once with the number of
      stored polls of that type (zero when there is none), counts never
      increase, and equal counts keep the `AllTypes` order. */
  lemma StatsTable(groups: seq<TypeCount>, polls: map<Id, Poll>)
    requires IsGrouping(groups, polls)
    ensures var r := Stats(groups);
      && |r| == |AllTypes|
      && (forall k :: StatFor(polls, k) in r)
      && (forall i :: 0 <= i < |r| ==> r[i] == StatFor(polls, r[i].kind))
      && (forall i, j :: 0 <= i < j < |r| ==> r[i].count >= r[j].count)
      && (forall i, j :: 0 <= i < j < |r| && r[i].count == r[j].count ==> Rank(r[i].kind) < Rank(r[j].kind))
      && (forall i, j :: 0 <= i < j < |r| ==> r[i].kind != r[j].kind)
  {
    StatsRows(groups, polls);
  }

  /** Sum of the counts of a table. */
  function SumCounts(s: seq<TypeStat>): nat
  {
    if s == [] then 0 else s[0].count + SumCounts(s[1..])
  }

  lemma {:induction false} SumInsert(x: TypeStat, s: seq<TypeStat>)
    ensures SumCounts(Insert(x, s)) == x.count + SumCounts(s)
  {
    if s != [] && s[0].count > x.count {
      SumInsert(x, s[1..]);
    }
  }

  /** Sorting leaves the total unchanged. */
  lemma {:induction false} SumSort(s: seq<TypeStat>)
    ensures SumCounts(SortByCount(s)) == SumCounts(s)
  {
    if s != [] {
      SumSort(s[1..]);
      SumInsert(s[0], SortByCount(s[1..]));
    }
  }

  /** Adding one more type to `kinds` adds that type's polls. */
  lemma KindsCountAdd(polls: map<Id, Poll>, kinds: set<PollType>, k: PollType)
    requires k !in kinds
    ensures |IdsOfKinds(polls, kinds + {k})| == |IdsOfKinds(polls, kinds)| + KindCount(polls, k)
  {
    assert IdsOfKinds(polls, kinds + {k}) == IdsOfKinds(polls, kinds) + IdsOfKinds(polls, {k});
    assert IdsOfKinds(polls, kinds) * IdsOfKinds(polls, {k}) == {};
  }

  /** Every stored poll has one of the five types. */
  lemma AllKindsCount(polls: map<Id, Poll>)
    ensures |IdsOfKinds(polls, {SingleChoice, YesNo, Rating, ImageBased, OpenEnded})| == |polls|
  {
    var all := IdsOfKinds(polls, {SingleChoice, YesNo, Rating, ImageBased, OpenEnded});
    forall id | id in polls ensures id in all {
      match polls[id].kind
      case SingleChoice =>
      case YesNo =>
      case Rating =>
      case ImageBased =>
      case OpenEnded =>
    }
    assert all == polls.Keys;
  }

  /** The polls of each type partition the store. */
  lemma KindCountsPartition(polls: map<Id, Poll>)
    ensures KindCount(polls, SingleChoice) + KindCount(polls, YesNo) + KindCount(polls, Rating)
          + KindCount(polls, ImageBased) + KindCount(polls, OpenEnded) == |polls|
  {
    var k0: set<PollType> := {};
    var k1 := k0 + {SingleChoice};
    var k2 := k1 + {YesNo};
    var k3 := k2 + {Rating};
    var k4 := k3 + {ImageBased};
    var k5 := k4 + {OpenEnded};
    assert |IdsOfKinds(polls, k0)| == 0 by {
      assert IdsOfKinds(polls, k0) == {};
    }
    KindsCountAdd(polls, k0, SingleChoice);
    KindsCountAdd(polls, k1, YesNo);
    KindsCountAdd(polls, k2, Rating);
    KindsCountAdd(polls, k3, ImageBased);
    KindsCountAdd(polls, k4, OpenEnded);
    assert k5 == {SingleChoice, YesNo, Rating, ImageBased, OpenEnded};
    AllKindsCount(polls);
  }

  /** A table of five rows sums to the sum of its five counts. */
  lemma SumFive(s: seq<TypeStat>)
    requires |s| == 5
    ensures SumCounts(s) == s[0].count + s[1].count + s[2].count + s[3].count + s[4].count
  {
    assert SumCounts(s[4..]) == s[4].count by {
      assert s[4..][0] == s[4] && s[4..][1..] == [];
    }
    assert SumCounts(s[3..]) == s[3].count + SumCounts(s[4..]) by {
      assert s[3..][0] == s[3] && s[3..][1..] == s[4..];
    }
    assert SumCounts(s[2..]) == s[2].count + SumCounts(s[3..]) by {
      assert s[2..][0] == s[2] && s[2..][1..] == s[3..];
    }
    assert SumCounts(s[1..]) == s[1].count + SumCounts(s[2..]) by {
      assert s[1..][0] == s[1] && s[1..][1..] == s[2..];
    }
  }

  /** The counts of the statistics table add up to the number of stored
      polls, whatever filter the listing applies to its own total. */
  lemma StatsSum(groups: seq<TypeCount>, polls: map<Id, Poll>)
    requires IsGrouping(groups, polls)
    ensures SumCounts(Stats(groups)) == |polls|
  {
    var d := WithDefaults(groups);
    SumSort(d);
    DefaultRows(groups, polls);
    SumFive(d);
    KindCountsPartition(polls);
  }
}
