/** Poll creation: the field checks and the type-dependent option set built
    before the new poll is stored. */
module PollFactory {
  import opened Base
  import opened Records

  /** The option texts, in order. */
  function Texts(options: seq<PollOption>): seq<string>
  {
    seq(|options|, i requires 0 <= i < |options| => options[i].optionText)
  }

  /** One option per text, in the given order; a new option carries only its
      text, so its counter takes the stored default of zero. */
  function FromTexts(texts: seq<string>): (r: seq<PollOption>)
    ensures Texts(r) == texts
    ensures forall i :: 0 <= i < |r| ==> r[i].votes == 0
  {
    seq(|texts|, i requires 0 <= i < |texts| => PollOption(texts[i], 0))
  }

  /** The values 1 to 5 rendered as decimal strings. */
  function RatingTexts(): (r: seq<string>)
    ensures r == ["1", "2", "3", "4", "5"]
  {
    seq(5, i requires 0 <= i < 5 => [('1' as int + i) as char])
  }

  /** The option set for a poll of the given type. Single-choice and
      image-based polls take the caller's texts and need at least two;
      the other types ignore them and get a fixed set. */
  function BuildOptions(kind: PollType, options: Option<seq<string>>): (r: Result<seq<PollOption>, PollError>)
    ensures r.Success? ==> OptionCountFits(kind, |r.value|)
    ensures r.Success? ==> forall i :: 0 <= i < |r.value| ==> r.value[i].votes == 0
    ensures kind == SingleChoice || kind == ImageBased ==>
      if options.Some? && |options.value| >= 2 then r.Success? && Texts(r.value) == options.value
      else r == Failure(TooFewOptions(kind))
    ensures kind == OpenEnded ==> r == Success([])
    ensures kind == Rating ==> r.Success? && Texts(r.value) == ["1", "2", "3", "4", "5"]
    ensures kind == YesNo ==> r.Success? && Texts(r.value) == ["Yes", "No"]
  {
    match kind
    case SingleChoice | ImageBased =>
      if options.None? || |options.value| < 2 then Failure(TooFewOptions(kind))
      else Success(FromTexts(options.value))
    case OpenEnded => Success([])
    case Rating => Success(FromTexts(RatingTexts()))
    case YesNo => Success(FromTexts(["Yes", "No"]))
  }

  /** The poll `createPoll` stores: question, type and creator are required
      and checked first; then the type name selects the option set. A new
      poll is open, has no voters and no responses. */
  function NewPoll(question: Option<string>, typeName: Option<string>, options: Option<seq<string>>,
                   creatorId: Option<Id>, createdAt: int): (r: Result<Poll, PollError>)
    ensures !(Present(question) && Present(typeName) && Present(creatorId)) ==> r == Failure(MissingFields)
    ensures Present(question) && Present(typeName) && Present(creatorId) && ParseType(typeName.value).None? ==>
      r == Failure(InvalidType)
    ensures r.Failure? ==> r.error in {MissingFields, InvalidType, TooFewOptions(SingleChoice), TooFewOptions(ImageBased)}
    ensures Present(question) && Present(typeName) && Present(creatorId) && ParseType(typeName.value).Some? ==>
      var built := BuildOptions(ParseType(typeName.value).value, options);
      && (r.Success? <==> built.Success?)
      && (r.Failure? ==> r == Failure(built.error))
    ensures r.Success? ==>
      && Present(question) && Present(typeName) && Present(creatorId)
      && r.value.question == question.value
      && TypeName(r.value.kind) == typeName.value
      && r.value.creator == creatorId.value
      && r.value.createdAt == createdAt
      && BuildOptions(r.value.kind, options) == Success(r.value.options)
      && r.value.voters == [] && r.value.responses == [] && !r.value.closed
      && TotalVotes(r.value.options) == 0
      && Consistent(r.value)
  {
    if !Present(question) || !Present(typeName) || !Present(creatorId) then Failure(MissingFields)
    else match ParseType(typeName.value)
      case None => Failure(InvalidType)
      case Some(kind) =>
        match BuildOptions(kind, options)
        case Failure(e) => Failure(e)
        case Success(opts) =>
          ZeroVotes(opts);
          Success(Poll(question.value, kind, opts, [], [], false, creatorId.value, createdAt))
  }

  /** Options whose counters are all zero hold no votes in total. */
  lemma {:induction false} ZeroVotes(options: seq<PollOption>)
    requires forall i :: 0 <= i < |options| ==> options[i].votes == 0
    ensures TotalVotes(options) == 0
  {
    if options != [] {
      ZeroVotes(options[1..]);
    }
  }
}
