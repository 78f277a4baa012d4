/** The poll and user collections and the operations of the poll controller
    that change them: create, vote, close, delete and the bookmark toggle.
    Each operation loads one document, runs its checks in the controller's
    order, edits the loaded document and writes it back as one step. */
module PollStore {
  import opened Base
  import opened Records
  import opened PollFactory
  import opened Bookmarks

  /** The answer to a bookmark toggle: whether the poll was added, and the
      user's bookmark list afterwards. */
  datatype BookmarkReply = BookmarkReply(added: bool, bookmarkedPolls: seq<Id>)

  /** An `optionIndex` that is supplied and addresses one of `n` options. */
  predicate ValidIndex(optionIndex: Option<int>, n: nat)
  {
    optionIndex.Some? && 0 <= optionIndex.value < n
  }

  /** No closed poll is reopened. */
  ghost predicate KeepsClosed(before: map<Id, Poll>, after: map<Id, Poll>)
  {
    forall id :: id in before && id in after && before[id].closed ==> after[id].closed
  }

  /** `after` is `before` with one accepted vote from `voter`: the voter is
      appended once; an open-ended poll gains one response and keeps its
      options; any other poll gains one vote on the chosen option and
      nothing else changes. */
  ghost predicate Voted(before: Poll, after: Poll, voter: Id, optionIndex: Option<int>, responseText: Option<string>)
  {
    && after.voters == before.voters + [voter]
    && after == before.(options := after.options, responses := after.responses, voters := after.voters)
    && (before.kind == OpenEnded ==>
          && responseText.Some?
          && after.responses == before.responses + [Response(voter, responseText.value)]
          && after.options == before.options)
    && (before.kind != OpenEnded ==>
          && ValidIndex(optionIndex, |before.options|)
          && after.responses == before.responses
          && |after.options| == |before.options|
          && (forall i :: 0 <= i < |before.options| && i != optionIndex.value ==> after.options[i] == before.options[i])
          && after.options[optionIndex.value] == before.options[optionIndex.value].(votes := before.options[optionIndex.value].votes + 1))
  }

  class Store {
    var polls: map<Id, Poll>
    var users: map<Id, User>

    /** Every stored poll is consistent; every user is stored under its own
        id and bookmarks no poll twice. */
    ghost predicate Valid()
      reads this
    {
      && (forall id :: id in polls ==> Consistent(polls[id]))
      && (forall id :: id in users ==> users[id].id == id && NoDup(users[id].bookmarkedPolls))
    }

    constructor ()
      ensures Valid() && polls == map[] && users == map[]
    {
      polls := map[];
      users := map[];
    }

    /** Stores a newly registered user, with no bookmarks. */
    method AddUser(id: Id, fullName: string, username: string, email: string, password: string, profileImageUrl: Option<string>)
      requires Valid() && id !in users
      modifies this
      ensures Valid() && polls == old(polls)
      ensures users == old(users)[id := User(id, fullName, username, email, password, profileImageUrl, [])]
    {
      users := users[id := User(id, fullName, username, email, password, profileImageUrl, [])];
    }

    /** `createPoll`: builds the poll and stores it under the fresh id the
        store generates; a rejected request stores nothing. */
    method CreatePoll(id: Id, createdAt: int, question: Option<string>, typeName: Option<string>,
                      options: Option<seq<string>>, creatorId: Option<Id>) returns (r: Result<Poll, PollError>)
      requires Valid() && id !in polls
      modifies this
      ensures Valid() && users == old(users)
      ensures r == NewPoll(question, typeName, options, creatorId, createdAt)
      ensures polls == if r.Success? then old(polls)[id := r.value] else old(polls)
    {
      r := NewPoll(question, typeName, options, creatorId, createdAt);
      if r.Success? {
        polls := polls[id := r.value];
      }
    }

    /** `voteOnPoll`: the checks run in order and the first failure wins;
        a rejected vote changes nothing, an accepted one is applied whole. */
    method Vote(id: Id, voter: Id, optionIndex: Option<int>, responseText: Option<string>) returns (r: Result<Poll, PollError>)
      requires Valid()
      modifies this
      ensures Valid() && users == old(users) && KeepsClosed(old(polls), polls)
      ensures id !in old(polls) ==> r == Failure(PollNotFound)
      ensures id in old(polls) && old(polls)[id].closed ==> r == Failure(PollClosed)
      ensures id in old(polls) && !old(polls)[id].closed && voter in old(polls)[id].voters ==> r == Failure(AlreadyVoted)
      ensures id in old(polls) && !old(polls)[id].closed && voter !in old(polls)[id].voters ==>
        var p := old(polls)[id];
        if p.kind == OpenEnded then
          (r.Failure? <==> !Present(responseText)) && (r.Failure? ==> r.error == ResponseRequired)
        else
          (r.Failure? <==> !ValidIndex(optionIndex, |p.options|)) && (r.Failure? ==> r.error == InvalidOptionIndex)
      ensures r.Failure? ==> polls == old(polls)
      ensures r.Success? ==>
        && id in old(polls)
        && polls == old(polls)[id := r.value]
        && Voted(old(polls)[id], r.value, voter, optionIndex, responseText)
        && |r.value.voters| == |old(polls)[id].voters| + 1
    {
      if id !in polls {
        return Failure(PollNotFound);
      }
      var poll := polls[id];
      if poll.closed {
        return Failure(PollClosed);
      }
      if voter in poll.voters {
        return Failure(AlreadyVoted);
      }
      if poll.kind == OpenEnded {
        if !Present(responseText) {
          return Failure(ResponseRequired);
        }
        poll := poll.(responses := poll.responses + [Response(voter, responseText.value)]);
      } else {
        if optionIndex.None? || optionIndex.value < 0 || optionIndex.value >= |poll.options| {
          return Failure(InvalidOptionIndex);
        }
        var k := optionIndex.value;
        TotalVotesBump(poll.options, k);
        poll := poll.(options := poll.options[k := poll.options[k].(votes := poll.options[k].votes + 1)]);
      }
      poll := poll.(voters := poll.voters + [voter]);
      polls := polls[id := poll];
      r := Success(poll);
    }

    /** `closePoll`: only the creator may close, and only an open poll;
        closing changes the `closed` flag and nothing else. */
    method Close(id: Id, requester: Id) returns (r: Result<Poll, PollError>)
      requires Valid()
      modifies this
      ensures Valid() && users == old(users) && KeepsClosed(old(polls), polls)
      ensures id !in old(polls) ==> r == Failure(PollNotFound)
      ensures id in old(polls) && old(polls)[id].creator != requester ==> r == Failure(NotCreator)
      ensures id in old(polls) && old(polls)[id].creator == requester && old(polls)[id].closed ==> r == Failure(AlreadyClosed)
      ensures id in old(polls) && old(polls)[id].creator == requester && !old(polls)[id].closed ==> r.Success?
      ensures r.Failure? ==> polls == old(polls)
      ensures r.Success? ==> id in old(polls) && r.value == old(polls)[id].(closed := true) && polls == old(polls)[id := r.value]
    {
      if id !in polls {
        return Failure(PollNotFound);
      }
      var poll := polls[id];
      if poll.creator != requester {
        return Failure(NotCreator);
      }
      if poll.closed {
        return Failure(AlreadyClosed);
      }
      poll := poll.(closed := true);
      polls := polls[id := poll];
      r := Success(poll);
    }

    /** `deletePoll`: only the creator may delete; bookmarks that name the
        poll are left as they are. */
    method Delete(id: Id, requester: Id) returns (r: Result<(), PollError>)
      requires Valid()
      modifies this
      ensures Valid() && users == old(users) && KeepsClosed(old(polls), polls)
      ensures id !in old(polls) ==> r == Failure(PollNotFound)
      ensures id in old(polls) && old(polls)[id].creator != requester ==> r == Failure(NotCreator)
      ensures r.Success? <==> id in old(polls) && old(polls)[id].creator == requester
      ensures polls == if r.Success? then old(polls) - {id} else old(polls)
    {
      if id !in polls {
        return Failure(PollNotFound);
      }
      if polls[id].creator != requester {
        return Failure(NotCreator);
      }
      polls := polls - {id};
      r := Success(());
    }

    /** `bookmarkPoll`: flips the poll's membership in the user's list. The
        poll id is not looked up, so an unknown id can be bookmarked. */
    method ToggleBookmark(userId: Id, pollId: Id) returns (r: Result<BookmarkReply, PollError>)
      requires Valid()
      modifies this
      ensures Valid() && polls == old(polls)
      ensures userId !in old(users) ==> r == Failure(UserNotFound) && users == old(users)
      ensures userId in old(users) ==>
        var before := old(users)[userId].bookmarkedPolls;
        && r == Success(BookmarkReply(pollId !in before, Toggled(before, pollId)))
        && users == old(users)[userId := old(users)[userId].(bookmarkedPolls := Toggled(before, pollId))]
    {
      if userId !in users {
        return Failure(UserNotFound);
      }
      var user := users[userId];
      assert NoDup(Toggled(user.bookmarkedPolls, pollId));
      if pollId in user.bookmarkedPolls {
        user := user.(bookmarkedPolls := RemoveAll(user.bookmarkedPolls, pollId));
        users := users[userId := user];
        return Success(BookmarkReply(false, user.bookmarkedPolls));
      }
      user := user.(bookmarkedPolls := user.bookmarkedPolls + [pollId]);
      users := users[userId := user];
      r := Success(BookmarkReply(true, user.bookmarkedPolls));
    }
  }
}
