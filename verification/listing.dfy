/** The read side of the poll controller: pagination, the `userHasVoted`
    annotation, and the three listings (all polls, voted polls, bookmarked
    polls). The store's sorted scan is given as a sequence of ids. */
module Listing {
  import opened Base
  import opened Records
  import opened Statistics

  /** `(pageNumber - 1) * pageSize`: the number of documents passed over
      before the requested page; negative exactly for pages below 1. */
  function Skip(page: int, pageSize: int): (r: int)
    requires pageSize > 0
    ensures r < 0 <==> page < 1
  {
    if page < 1 then
      MulMonotone(page - 1, -1, pageSize);
      (page - 1) * pageSize
    else
      MulMonotone(0, page - 1, pageSize);
      (page - 1) * pageSize
  }

  /** `Math.ceil(total / pageSize)`: the fewest pages of `pageSize` that
      hold `total` documents. */
  function TotalPages(total: nat, pageSize: int): (r: nat)
    requires pageSize > 0
    ensures total <= r * pageSize
    ensures (r - 1) * pageSize < total
  {
    var r := (total + pageSize - 1) / pageSize;
    var m := (total + pageSize - 1) % pageSize;
    assert r * pageSize + m == total + pageSize - 1;
    r
  }

  /** Every document position lies on one of the pages 1 to TotalPages:
      on page `i / pageSize + 1`. */
  lemma PageOfPosition(total: nat, pageSize: int, i: nat)
    requires pageSize > 0 && i < total
    ensures var p := i / pageSize + 1;
      && 1 <= p <= TotalPages(total, pageSize)
      && Skip(p, pageSize) <= i < Skip(p, pageSize) + pageSize
  {
    var p := i / pageSize + 1;
    var t := TotalPages(total, pageSize);
    assert (p - 1) * pageSize + i % pageSize == i;
    assert Skip(p, pageSize) == (p - 1) * pageSize;
  }

  /** No position lies on two pages. */
  lemma PagesDisjoint(pageSize: int, i: int, p: int, q: int)
    requires pageSize > 0
    requires Skip(p, pageSize) <= i < Skip(p, pageSize) + pageSize
    requires Skip(q, pageSize) <= i < Skip(q, pageSize) + pageSize
    ensures p == q
  {
    if p < q {
      MulMonotone(p, q - 1, pageSize);
    } else if q < p {
      MulMonotone(q, p - 1, pageSize);
    }
  }

  lemma MulMonotone(a: int, b: int, c: int)
    requires a <= b && c > 0
    ensures a * c <= b * c
  {
  }

  /** `voters.some(v => v.equals(viewer))`. */
  function HasVoted(voters: seq<Id>, viewer: Id): (r: bool)
    ensures r <==> viewer in voters
  {
    if voters == [] then false
    else voters[0] == viewer || HasVoted(voters[1..], viewer)
  }

  /** `.skip(skip).limit(limit)` over a scan: the documents from position
      `skip` on, at most `limit` of them. */
  function Window<T>(s: seq<T>, skip: nat, limit: nat): (r: seq<T>)
    ensures |r| == if skip >= |s| then 0 else if |s| - skip < limit then |s| - skip else limit
    ensures forall i :: 0 <= i < |r| ==> r[i] == s[skip + i]
  {
    if skip >= |s| then []
    else if |s| - skip < limit then s[skip..]
    else s[skip..skip + limit]
  }

  /** A listed poll with the viewer's `userHasVoted` flag. */
  datatype PollView = PollView(id: Id, poll: Poll, userHasVoted: bool)

  /** Annotates each poll with whether the viewer has voted on it. */
  function Annotate(ids: seq<Id>, polls: map<Id, Poll>, viewer: Id): (r: seq<PollView>)
    requires forall x :: x in ids ==> x in polls
    ensures |r| == |ids|
    ensures forall i :: 0 <= i < |r| ==>
      && r[i].id == ids[i] && r[i].poll == polls[ids[i]]
      && (r[i].userHasVoted <==> viewer in polls[ids[i]].voters)
  {
    seq(|ids|, i requires 0 <= i < |ids| => PollView(ids[i], polls[ids[i]], HasVoted(polls[ids[i]].voters, viewer)))
  }

  /** `ids` lists every stored poll exactly once. */
  ghost predicate Enumerates(ids: seq<Id>, polls: map<Id, Poll>)
  {
    NoDup(ids) && forall x :: x in ids <==> x in polls
  }

  /** Creation times never increase along `ids`. */
  ghost predicate NewestFirst(ids: seq<Id>, polls: map<Id, Poll>)
  {
    forall i, j :: 0 <= i < j < |ids| && ids[i] in polls && ids[j] in polls ==>
      polls[ids[i]].createdAt >= polls[ids[j]].createdAt
  }

  /** The tail of a duplicate-free scan is duplicate-free and lacks the head. */
  lemma TailNoDup(ids: seq<Id>)
    requires ids != [] && NoDup(ids)
    ensures ids[0] !in ids[1..] && NoDup(ids[1..])
  {
    forall k | 0 <= k < |ids[1..]| ensures ids[1..][k] != ids[0] {
      assert ids[1..][k] == ids[k + 1];
    }
  }

  /** The tail of a newest-first scan is newest first. */
  lemma TailNewestFirst(ids: seq<Id>, polls: map<Id, Poll>)
    requires ids != [] && NewestFirst(ids, polls)
    ensures NewestFirst(ids[1..], polls)
  {
    forall i, j | 0 <= i < j < |ids[1..]| && ids[1..][i] in polls && ids[1..][j] in polls
      ensures polls[ids[1..][i]].createdAt >= polls[ids[1..][j]].createdAt
    {
      assert ids[1..][i] == ids[i + 1] && ids[1..][j] == ids[j + 1];
    }
  }

  /** Keeping the head of a newest-first scan in front of a newest-first
      selection from its tail keeps the order. */
  lemma ConsNewestFirst(ids: seq<Id>, rest: seq<Id>, polls: map<Id, Poll>)
    requires ids != [] && NewestFirst(ids, polls) && NewestFirst(rest, polls)
    requires forall x :: x in rest ==> x in ids[1..]
    ensures NewestFirst([ids[0]] + rest, polls)
  {
    var r := [ids[0]] + rest;
    forall i, j | 0 <= i < j < |r| && r[i] in polls && r[j] in polls
      ensures polls[r[i]].createdAt >= polls[r[j]].createdAt
    {
      if i > 0 {
        assert r[i] == rest[i - 1] && r[j] == rest[j - 1];
      } else {
        assert r[j] == rest[j - 1];
        assert r[j] in ids[1..];
        var k :| 0 <= k < |ids[1..]| && ids[1..][k] == r[j];
        assert ids[1..][k] == ids[k + 1];
      }
    }
  }

  /** The ids of the scan whose poll satisfies `keep`, in scan order. */
  function Select(ids: seq<Id>, polls: map<Id, Poll>, keep: Poll -> bool): (r: seq<Id>)
    requires forall x :: x in ids ==> x in polls
    ensures forall x :: x in r <==> x in ids && keep(polls[x])
    ensures NoDup(ids) ==> NoDup(r)
    ensures NewestFirst(ids, polls) ==> NewestFirst(r, polls)
  {
    if ids == [] then []
    else
      var rest := Select(ids[1..], polls, keep);
      if keep(polls[ids[0]]) then
        var r := [ids[0]] + rest;
        assert NoDup(ids) ==> NoDup(r) by {
          if NoDup(ids) {
            TailNoDup(ids);
          }
        }
        assert NewestFirst(ids, polls) ==> NewestFirst(r, polls) by {
          if NewestFirst(ids, polls) {
            TailNewestFirst(ids, polls);
            ConsNewestFirst(ids, rest, polls);
          }
        }
        r
      else
        assert NoDup(ids) ==> NoDup(rest) by {
          if NoDup(ids) {
            TailNoDup(ids);
          }
        }
        assert NewestFirst(ids, polls) ==> NewestFirst(rest, polls) by {
          if NewestFirst(ids, polls) {
            TailNewestFirst(ids, polls);
          }
        }
        rest
  }

  /** Selection keeps scan order: it works on each part of a
      concatenation separately, so a selected id follows every selected id
      scanned before it. */
  lemma {:induction false} SelectConcat(a: seq<Id>, b: seq<Id>, polls: map<Id, Poll>, keep: Poll -> bool)
    requires forall x :: x in a + b ==> x in polls
    ensures Select(a + b, polls, keep) == Select(a, polls, keep) + Select(b, polls, keep)
  {
    if a == [] {
      assert a + b == b;
    } else {
      assert (a + b)[0] == a[0] && (a + b)[1..] == a[1..] + b;
      SelectConcat(a[1..], b, polls, keep);
    }
  }

  /** A duplicate-free selection from a full scan has as many entries as
      the store has polls satisfying `keep`. */
  lemma SelectCount(ids: seq<Id>, polls: map<Id, Poll>, keep: Poll -> bool)
    requires Enumerates(ids, polls)
    ensures |Select(ids, polls, keep)| == |set id | id in polls && keep(polls[id])|
  {
    var r := Select(ids, polls, keep);
    NoDupCardinality(r);
    assert Elements(r) == set id | id in polls && keep(polls[id]);
  }

  /** `views` is the page of `ids` starting at position `skip`: the whole
      `skip`/`limit` window of the scan, row `i` showing the poll stored
      under `ids[skip + i]` with the viewer's flag. */
  ghost predicate ShowsPage(views: seq<PollView>, ids: seq<Id>, polls: map<Id, Poll>, skip: nat, pageSize: nat, viewer: Id)
  {
    && |views| == |Window(ids, skip, pageSize)|
    && forall i :: 0 <= i < |views| ==>
         && skip + i < |ids| && views[i].id == ids[skip + i]
         && views[i].id in polls && views[i].poll == polls[views[i].id]
         && (views[i].userHasVoted <==> viewer in views[i].poll.voters)
  }

  /** No poll is listed twice. */
  ghost predicate DistinctRows(views: seq<PollView>)
  {
    forall i, j :: 0 <= i < j < |views| ==> views[i].id != views[j].id
  }

  /** Rows never get newer down the page. */
  ghost predicate RowsNewestFirst(views: seq<PollView>)
  {
    forall i, j :: 0 <= i < j < |views| ==> views[i].poll.createdAt >= views[j].poll.createdAt
  }

  /** The rows of one page: the window of the scan, annotated. A page is
      the whole requested window; it inherits the scan's order and its
      freedom from duplicates. */
  function PageOf(ids: seq<Id>, polls: map<Id, Poll>, skip: nat, pageSize: nat, viewer: Id): (r: seq<PollView>)
    requires forall x :: x in ids ==> x in polls
    ensures ShowsPage(r, ids, polls, skip, pageSize, viewer)
    ensures NoDup(ids) ==> DistinctRows(r)
    ensures NewestFirst(ids, polls) ==> RowsNewestFirst(r)
  {
    var shown := Window(ids, skip, pageSize);
    var views := Annotate(shown, polls, viewer);
    assert forall i, j :: 0 <= i < j < |views| ==> views[i].id == ids[skip + i] && views[j].id == ids[skip + j];
    views
  }

  /** Every row of a page of a selection satisfies the selection's test. */
  lemma PageKeeps(views: seq<PollView>, ids: seq<Id>, polls: map<Id, Poll>, keep: Poll -> bool,
                  skip: nat, pageSize: nat, viewer: Id)
    requires forall x :: x in ids ==> x in polls
    requires ShowsPage(views, Select(ids, polls, keep), polls, skip, pageSize, viewer)
    ensures forall i :: 0 <= i < |views| ==> keep(views[i].poll)
  {
    var sel := Select(ids, polls, keep);
    forall i | 0 <= i < |views| ensures keep(views[i].poll) {
      var v := views[i];
      assert skip + i < |sel| && v.id == sel[skip + i];
    }
  }

  /** The query filter: `if (type) filter.type = type` and
      `if (creatorId) filter.creator = creatorId`. */
  datatype Filter = Filter(typeName: Option<string>, creator: Option<Id>)

  /** A poll passes the filter built from the query exactly when it has the
      queried type (if a type was given) and the queried creator (if a
      creator was given); an empty query field filters nothing. */
  function QueryFilter(typeQuery: Option<string>, creatorQuery: Option<Id>): (r: Filter)
    ensures r.typeName.Some? <==> Present(typeQuery)
    ensures r.creator.Some? <==> Present(creatorQuery)
    ensures forall p :: Matches(r, p) <==>
      (!Present(typeQuery) || TypeName(p.kind) == typeQuery.value) &&
      (!Present(creatorQuery) || p.creator == creatorQuery.value)
  {
    Filter(if Present(typeQuery) then typeQuery else None,
           if Present(creatorQuery) then creatorQuery else None)
  }

  /** A poll matches when it has every field the filter sets. */
  predicate Matches(f: Filter, p: Poll)
  {
    (f.typeName.None? || TypeName(p.kind) == f.typeName.value) &&
    (f.creator.None? || p.creator == f.creator.value)
  }

  function Matcher(f: Filter): Poll -> bool
  {
    (p: Poll) => Matches(f, p)
  }

  /** `{ voters: viewer }`: the polls whose voters include the viewer. */
  function VotedBy(viewer: Id): Poll -> bool
  {
    (p: Poll) => viewer in p.voters
  }

  lemma MatchCount(ids: seq<Id>, polls: map<Id, Poll>, f: Filter)
    requires Enumerates(ids, polls)
    ensures |Select(ids, polls, Matcher(f))| == |set id | id in polls && Matches(f, polls[id])|
  {
    SelectCount(ids, polls, Matcher(f));
    assert (set id | id in polls && Matcher(f)(polls[id])) == (set id | id in polls && Matches(f, polls[id]));
  }

  lemma VotedCount(ids: seq<Id>, polls: map<Id, Poll>, viewer: Id)
    requires Enumerates(ids, polls)
    ensures |Select(ids, polls, VotedBy(viewer))| == |set id | id in polls && viewer in polls[id].voters|
  {
    SelectCount(ids, polls, VotedBy(viewer));
    assert (set id | id in polls && VotedBy(viewer)(polls[id])) == (set id | id in polls && viewer in polls[id].voters);
  }

  /** The rows of a page of matching polls: the window of the filtered
      scan, every row matching, without duplicates, newest first. */
  lemma MatchingPage(polls: map<Id, Poll>, newestFirst: seq<Id>, f: Filter, skip: nat, pageSize: nat, viewer: Id)
    requires Enumerates(newestFirst, polls) && NewestFirst(newestFirst, polls)
    ensures var matching := Select(newestFirst, polls, Matcher(f));
      var views := PageOf(matching, polls, skip, pageSize, viewer);
      && ShowsPage(views, matching, polls, skip, pageSize, viewer)
      && (forall i :: 0 <= i < |views| ==> Matches(f, views[i].poll))
      && DistinctRows(views)
      && RowsNewestFirst(views)
  {
    var matching := Select(newestFirst, polls, Matcher(f));
    PageKeeps(PageOf(matching, polls, skip, pageSize, viewer), newestFirst, polls, Matcher(f), skip, pageSize, viewer);
  }

  /** The rows of a page of voted polls: the window of the filtered scan,
      each flagged as voted on, without duplicates. */
  lemma VotedPage(polls: map<Id, Poll>, scan: seq<Id>, skip: nat, pageSize: nat, viewer: Id)
    requires Enumerates(scan, polls)
    ensures var voted := Select(scan, polls, VotedBy(viewer));
      var views := PageOf(voted, polls, skip, pageSize, viewer);
      && ShowsPage(views, voted, polls, skip, pageSize, viewer)
      && (forall i :: 0 <= i < |views| ==> viewer in views[i].poll.voters && views[i].userHasVoted)
      && DistinctRows(views)
  {
    var voted := Select(scan, polls, VotedBy(viewer));
    PageKeeps(PageOf(voted, polls, skip, pageSize, viewer), scan, polls, VotedBy(viewer), skip, pageSize, viewer);
  }

  /** The answer of the all-polls listing. */
  datatype AllPollsPage = AllPollsPage(
    polls: seq<PollView>,
    currentPage: int,
    totalPages: nat,
    totalPolls: nat,
    stats: seq<TypeStat>)

  /** `getAllPolls`: the page of matching polls, newest first, with the
      viewer's flag, the filtered total and page count, and the statistics
      table over all stored polls, filter or no filter. A page below 1
      gives a negative skip, which the store rejects. */
  function ListAllPolls(polls: map<Id, Poll>, newestFirst: seq<Id>, groups: seq<TypeCount>,
                        typeQuery: Option<string>, creatorQuery: Option<Id>,
                        page: int, pageSize: int, viewer: Id): (r: Result<AllPollsPage, PollError>)
    requires pageSize > 0
    requires Enumerates(newestFirst, polls) && NewestFirst(newestFirst, polls)
    requires IsGrouping(groups, polls)
    ensures r.Failure? <==> page < 1
    ensures r.Failure? ==> r.error == StoreRejected
    ensures r.Success? ==>
      var f := QueryFilter(typeQuery, creatorQuery);
      var matching := Select(newestFirst, polls, Matcher(f));
      var views := r.value.polls;
      && r.value.currentPage == page
      && r.value.totalPolls == |set id | id in polls && Matches(f, polls[id])|
      && r.value.totalPages == TotalPages(r.value.totalPolls, pageSize)
      && ShowsPage(views, matching, polls, Skip(page, pageSize), pageSize, viewer)
      && (forall i :: 0 <= i < |views| ==> Matches(f, views[i].poll))
      && DistinctRows(views)
      && RowsNewestFirst(views)
      && r.value.stats == Stats(groups)
      && SumCounts(r.value.stats) == |polls|
  {
    var skip := Skip(page, pageSize);
    if skip < 0 then Failure(StoreRejected)
    else
      var f := QueryFilter(typeQuery, creatorQuery);
      var matching := Select(newestFirst, polls, Matcher(f));
      MatchCount(newestFirst, polls, f);
      MatchingPage(polls, newestFirst, f, skip, pageSize, viewer);
      StatsSum(groups, polls);
      Success(AllPollsPage(PageOf(matching, polls, skip, pageSize, viewer), page,
                           TotalPages(|matching|, pageSize), |matching|, Stats(groups)))
  }

  /** The answer of the voted-polls listing. */
  datatype VotedPollsPage = VotedPollsPage(
    polls: seq<PollView>,
    currentPage: int,
    totalPages: nat,
    totalVotedPolls: nat)

  /** `getVotedPolls`: the page of polls the viewer voted on, in the
      store's natural order; every listed poll is flagged as voted on. */
  function ListVotedPolls(polls: map<Id, Poll>, scan: seq<Id>, page: int, pageSize: int, viewer: Id): (r: Result<VotedPollsPage, PollError>)
    requires pageSize > 0
    requires Enumerates(scan, polls)
    ensures r.Failure? <==> page < 1
    ensures r.Failure? ==> r.error == StoreRejected
    ensures r.Success? ==>
      var voted := Select(scan, polls, VotedBy(viewer));
      var views := r.value.polls;
      && r.value.currentPage == page
      && r.value.totalVotedPolls == |set id | id in polls && viewer in polls[id].voters|
      && r.value.totalPages == TotalPages(r.value.totalVotedPolls, pageSize)
      && ShowsPage(views, voted, polls, Skip(page, pageSize), pageSize, viewer)
      && (forall i :: 0 <= i < |views| ==> viewer in views[i].poll.voters && views[i].userHasVoted)
      && DistinctRows(views)
  {
    var skip := Skip(page, pageSize);
    if skip < 0 then Failure(StoreRejected)
    else
      var voted := Select(scan, polls, VotedBy(viewer));
      VotedCount(scan, polls, viewer);
      VotedPage(polls, scan, skip, pageSize, viewer);
      Success(VotedPollsPage(PageOf(voted, polls, skip, pageSize, viewer), page, TotalPages(|voted|, pageSize), |voted|))
  }

  /** The bookmarked ids whose poll still exists, in bookmark order: the
      populate step drops references to deleted polls. */
  function Existing(ids: seq<Id>, polls: map<Id, Poll>): (r: seq<Id>)
    ensures forall x :: x in r <==> x in ids && x in polls
    ensures |r| <= |ids|
    ensures |r| == |ids| <==> forall x :: x in ids ==> x in polls
    ensures |ids| == 1 ==> r == if ids[0] in polls then ids else []
  {
    if ids == [] then []
    else if ids[0] in polls then [ids[0]] + Existing(ids[1..], polls)
    else
      assert ids[0] in ids;
      Existing(ids[1..], polls)
  }

  /** Dropping the missing polls keeps the bookmark order: it works on each
      part of a concatenation separately. With the one-element case above,
      this fixes `Existing` as the order-preserving filter. */
  lemma {:induction false} ExistingConcat(a: seq<Id>, b: seq<Id>, polls: map<Id, Poll>)
    ensures Existing(a + b, polls) == Existing(a, polls) + Existing(b, polls)
  {
    if a == [] {
      assert a + b == b;
    } else {
      assert (a + b)[0] == a[0] && (a + b)[1..] == a[1..] + b;
      ExistingConcat(a[1..], b, polls);
    }
  }

  /** `getBookmarkedPolls`: the user's bookmarked polls that still exist,
      each with the user's own `userHasVoted` flag. */
  function ListBookmarkedPolls(users: map<Id, User>, polls: map<Id, Poll>, userId: Id): (r: Result<seq<PollView>, PollError>)
    ensures userId !in users ==> r == Failure(UserNotFound)
    ensures userId in users ==>
      var marks := users[userId].bookmarkedPolls;
      && r.Success?
      && |r.value| == |Existing(marks, polls)|
      && (forall i :: 0 <= i < |r.value| ==> r.value[i].id == Existing(marks, polls)[i])
      && |r.value| <= |marks|
      && (|r.value| == |marks| <==> forall x :: x in marks ==> x in polls)
      && (forall x :: x in marks && x in polls <==> exists i :: 0 <= i < |r.value| && r.value[i].id == x)
      && (forall i :: 0 <= i < |r.value| ==>
            && r.value[i].id in polls && r.value[i].poll == polls[r.value[i].id]
            && (r.value[i].userHasVoted <==> userId in r.value[i].poll.voters))
  {
    if userId !in users then Failure(UserNotFound)
    else
      var shown := Existing(users[userId].bookmarkedPolls, polls);
      var views := Annotate(shown, polls, userId);
      assert forall x :: x in shown <==> exists i :: 0 <= i < |views| && views[i].id == x by {
        forall x | x in shown ensures exists i :: 0 <= i < |views| && views[i].id == x {
          var i :| 0 <= i < |shown| && shown[i] == x;
          assert views[i].id == x;
        }
      }
      Success(views)
  }
}
