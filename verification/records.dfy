/** The stored documents of the poll service: polls, their options and
    responses, users, and the errors the poll controller answers with. */
module Records {
  import opened Base

  /** The five poll types the controller knows. */
  datatype PollType = SingleChoice | OpenEnded | Rating | YesNo | ImageBased

  /** The type's name as it appears in requests and in stored documents. */
  function TypeName(t: PollType): string
  {
    match t
    case SingleChoice => "single-choice"
    case OpenEnded => "open-ended"
    case Rating => "rating"
    case YesNo => "yes/no"
    case ImageBased => "image-based"
  }

  /** The `switch (type)` of poll creation: a name selects a type, any other
      string selects none. */
  function ParseType(name: string): (r: Option<PollType>)
    ensures r.Some? ==> TypeName(r.value) == name
    ensures r.None? ==> forall t :: TypeName(t) != name
  {
    if name == "single-choice" then Some(SingleChoice)
    else if name == "open-ended" then Some(OpenEnded)
    else if name == "rating" then Some(Rating)
    else if name == "yes/no" then Some(YesNo)
    else if name == "image-based" then Some(ImageBased)
    else None
  }

  datatype PollOption = PollOption(optionText: string, votes: nat)

  datatype Response = Response(voterId: Id, responseText: string)

  datatype Poll = Poll(
    question: string,
    kind: PollType,
    options: seq<PollOption>,
    responses: seq<Response>,
    voters: seq<Id>,
    closed: bool,
    creator: Id,
    createdAt: int)

  datatype User = User(
    id: Id,
    fullName: string,
    username: string,
    email: string,
    password: string,
    profileImageUrl: Option<string>,
    bookmarkedPolls: seq<Id>)

  /** Failures of the poll controller, one per distinct rejection. */
  datatype PollError =
    | MissingFields
    | TooFewOptions(kind: PollType)
    | InvalidType
    | PollNotFound
    | PollClosed
    | AlreadyVoted
    | ResponseRequired
    | InvalidOptionIndex
    | NotCreator
    | AlreadyClosed
    | UserNotFound
    | StoreRejected
  {
    /** The HTTP status the controller answers with. */
    function Status(): nat
    {
      match this
      case PollNotFound | UserNotFound => 404
      case NotCreator => 403
      case StoreRejected => 500
      case _ => 400
    }
  }

  /** Sum of the vote counters of a list of options. */
  function TotalVotes(options: seq<PollOption>): nat
  {
    if options == [] then 0 else options[0].votes + TotalVotes(options[1..])
  }

  /** Adding one to a single counter adds one to the total. */
  lemma {:induction false} TotalVotesBump(options: seq<PollOption>, k: nat)
    requires k < |options|
    ensures TotalVotes(options[k := options[k].(votes := options[k].votes + 1)]) == TotalVotes(options) + 1
  {
    var bumped := options[k := options[k].(votes := options[k].votes + 1)];
    if k > 0 {
      TotalVotesBump(options[1..], k - 1);
      assert bumped[1..] == options[1..][k - 1 := options[k].(votes := options[k].votes + 1)];
    } else {
      assert bumped[1..] == options[1..];
    }
  }

  /** How many options a poll of each type carries. */
  predicate OptionCountFits(kind: PollType, n: nat)
  {
    match kind
    case SingleChoice | ImageBased => n >= 2
    case OpenEnded => n == 0
    case Rating => n == 5
    case YesNo => n == 2
  }

  /** What every poll created and voted on through the controller satisfies:
      no voter twice; an open-ended poll holds one response per voter, in
      voting order, and no options; any other poll holds no responses and
      exactly one vote per voter across its options. */
  ghost predicate Consistent(p: Poll)
  {
    && NoDup(p.voters)
    && OptionCountFits(p.kind, |p.options|)
    && (p.kind == OpenEnded ==>
          && |p.responses| == |p.voters|
          && forall i :: 0 <= i < |p.responses| ==> p.responses[i].voterId == p.voters[i])
    && (p.kind != OpenEnded ==>
          p.responses == [] && TotalVotes(p.options) == |p.voters|)
  }
}
