/** The account side: the request checks of registration and login, which
    run in a fixed order before any account is looked up, the duplicate
    checks of registration, and the per-user counters reported by login and
    by the user-info request. */
module Accounts {
  import opened Base
  import Records
  import opened Listing

  /** Why a registration, login or user-info request is refused. */
  datatype AuthError =
    | MissingFields
    | InvalidUsername
    | InvalidEmail
    | EmailInUse
    | UsernameTaken
    | InvalidCredentials
    | UserNotFound
  {
    /** The HTTP status the controller answers with. */
    function Status(): nat
    {
      if this == UserNotFound then 404 else 400
    }
  }

  // ---------------------------------------------------------------------
  // Usernames: /^[a-zA-Z0-9-]+$/

  predicate IsUsernameChar(c: char)
  {
    ('a' <= c <= 'z') || ('A' <= c <= 'Z') || ('0' <= c <= '9') || c == '-'
  }

  /** Every character is an ASCII letter, a digit or a hyphen. */
  function AllUsernameChars(s: string): (r: bool)
    ensures r <==> forall i :: 0 <= i < |s| ==> IsUsernameChar(s[i])
  {
    if s == [] then true
    else IsUsernameChar(s[0]) && AllUsernameChars(s[1..])
  }

  /** The username pattern: one or more letters, digits or hyphens, and
      nothing else. */
  function ValidUsername(s: string): (r: bool)
    ensures r <==> |s| > 0 && forall i :: 0 <= i < |s| ==> IsUsernameChar(s[i])
  {
    |s| > 0 && AllUsernameChars(s)
  }

  // ---------------------------------------------------------------------
  // Email addresses: /^[^\s@]+@[^\s@]+\.[^\s@]+$/

  /** The characters JavaScript's `\s` class matches. */
  predicate IsJsSpace(c: char)
  {
    c == '\t' || c == '\n' || c == '\U{000B}' || c == '\U{000C}' || c == '\r' || c == ' ' ||
    c == '\U{00A0}' || c == '\U{1680}' || ('\U{2000}' <= c <= '\U{200A}') ||
    c == '\U{2028}' || c == '\U{2029}' || c == '\U{202F}' || c == '\U{205F}' ||
    c == '\U{3000}' || c == '\U{FEFF}'
  }

  /** A character of the class `[^\s@]`. */
  predicate IsRunChar(c: char)
  {
    !IsJsSpace(c) && c != '@'
  }

  /** `[^\s@]+`: a non-empty run of such characters. */
  ghost predicate Run(t: string)
  {
    |t| > 0 && forall k :: 0 <= k < |t| ==> IsRunChar(t[k])
  }

  /** The pattern matched with its `@` at `i` and its literal dot at `j`:
      a run, `@`, a run, `.`, a run. */
  ghost predicate PatternAt(s: string, i: int, j: int)
  {
    0 <= i < j < |s| && Run(s[0..i]) && s[i] == '@' && Run(s[i + 1..j]) && s[j] == '.' && Run(s[j + 1..|s|])
  }

  /** The whole pattern, read off the regular expression. */
  ghost predicate EmailPattern(s: string)
  {
    exists i, j :: PatternAt(s, i, j)
  }

  /** The plain reading of the pattern with the `@` at `i`: a non-empty
      local part, no other `@` and no whitespace anywhere, and a dot in the
      domain with at least one character on each side of it. */
  ghost predicate ShapeAt(s: string, i: int)
  {
    && 0 < i < |s| && s[i] == '@'
    && (forall k :: 0 <= k < |s| && k != i ==> IsRunChar(s[k]))
    && i + 2 <= |s| - 1 && '.' in s[i + 2..|s| - 1]
  }

  /** No character of `s` is whitespace or `@`. */
  function AllRunChars(s: string): (r: bool)
    ensures r <==> forall i :: 0 <= i < |s| ==> IsRunChar(s[i])
  {
    if s == [] then true
    else IsRunChar(s[0]) && AllRunChars(s[1..])
  }

  /** The position of the first `c` in `s`, or `|s|` when there is none. */
  function IndexOf(s: string, c: char): (r: nat)
    ensures r <= |s|
    ensures forall k :: 0 <= k < r ==> s[k] != c
    ensures r < |s| ==> s[r] == c
  {
    if s == [] then 0
    else if s[0] == c then 0
    else 1 + IndexOf(s[1..], c)
  }

  /** A slice holds only run characters exactly when the positions it
      covers do. */
  lemma RunSlice(s: string, a: int, b: int)
    requires 0 <= a <= b <= |s|
    ensures AllRunChars(s[a..b]) <==> forall k :: a <= k < b ==> IsRunChar(s[k])
    ensures Run(s[a..b]) <==> a < b && forall k :: a <= k < b ==> IsRunChar(s[k])
  {
    if forall k :: a <= k < b ==> IsRunChar(s[k]) {
      forall k | 0 <= k < b - a ensures IsRunChar(s[a..b][k]) {
        assert s[a..b][k] == s[a + k];
      }
    }
    if AllRunChars(s[a..b]) {
      forall k | a <= k < b ensures IsRunChar(s[k]) {
        assert s[a..b][k - a] == s[k];
      }
    }
  }

  /** With the shape at `i`, the first `@` is at `i`. */
  lemma ShapeAtFirstAt(s: string, i: int)
    requires ShapeAt(s, i)
    ensures IndexOf(s, '@') == i
  {
    var at := IndexOf(s, '@');
    if at < i {
      assert s[at] == '@' && !IsRunChar(s[at]);
    }
  }

  /** The email check: exactly one `@`, with a non-empty local part before
      it; no whitespace anywhere; and after the `@` a domain holding a dot
      with at least one character on each side. */
  function IsEmail(s: string): (r: bool)
    ensures r <==> exists i :: ShapeAt(s, i)
  {
    var at := IndexOf(s, '@');
    var ok := 0 < at < |s| && AllRunChars(s[0..at]) && AllRunChars(s[at + 1..|s|]) &&
      at + 2 <= |s| - 1 && '.' in s[at + 2..|s| - 1];
    assert ok ==> ShapeAt(s, at) by {
      if ok {
        RunSlice(s, 0, at);
        RunSlice(s, at + 1, |s|);
      }
    }
    assert (exists i :: ShapeAt(s, i)) ==> ok by {
      if exists i :: ShapeAt(s, i) {
        var i :| ShapeAt(s, i);
        ShapeAtFirstAt(s, i);
        RunSlice(s, 0, at);
        RunSlice(s, at + 1, |s|);
      }
    }
    ok
  }

  /** The shape at `i` is the pattern matched with its `@` at `i`. */
  lemma ShapeIsPattern(s: string, i: int)
    ensures ShapeAt(s, i) <==> exists j :: PatternAt(s, i, j)
  {
    if ShapeAt(s, i) {
      var d :| 0 <= d < |s[i + 2..|s| - 1]| && s[i + 2..|s| - 1][d] == '.';
      var j := i + 2 + d;
      RunSlice(s, 0, i);
      RunSlice(s, i + 1, j);
      RunSlice(s, j + 1, |s|);
      assert PatternAt(s, i, j);
    }
    if exists j :: PatternAt(s, i, j) {
      var j :| PatternAt(s, i, j);
      RunSlice(s, 0, i);
      RunSlice(s, i + 1, j);
      RunSlice(s, j + 1, |s|);
      forall k | 0 <= k < |s| && k != i ensures IsRunChar(s[k]) {
        if k == j {
          assert IsRunChar(s[j]);
        }
      }
      assert s[i + 2..|s| - 1][j - i - 2] == '.';
    }
  }

  /** The email check accepts exactly the strings the regular expression
      matches. */
  lemma EmailMatchesPattern(s: string)
    ensures IsEmail(s) <==> EmailPattern(s)
  {
    if IsEmail(s) {
      var i :| ShapeAt(s, i);
      ShapeIsPattern(s, i);
    }
    if EmailPattern(s) {
      var i, j :| PatternAt(s, i, j);
      ShapeIsPattern(s, i);
    }
  }

  // ---------------------------------------------------------------------
  // Registration

  /** The registration request body; a field the client left out is `None`. */
  datatype RegisterBody = RegisterBody(
    fullName: Option<string>,
    username: Option<string>,
    email: Option<string>,
    password: Option<string>,
    profileImageUrl: Option<string>)

  /** The fields of an accepted registration request. */
  datatype Registration = Registration(
    fullName: string,
    username: string,
    email: string,
    password: string,
    profileImageUrl: Option<string>)

  /** The checks `registerUser` makes before it touches the store: a body,
      then the four required fields, then the username, then the email. */
  function ValidateRegistration(body: Option<RegisterBody>): (r: Result<Registration, AuthError>)
    ensures body.None? ==> r == Failure(MissingFields)
    ensures body.Some? && !(Present(body.value.fullName) && Present(body.value.username) &&
                            Present(body.value.email) && Present(body.value.password)) ==>
      r == Failure(MissingFields)
    ensures r == Failure(MissingFields) ==>
      body.None? || !(Present(body.value.fullName) && Present(body.value.username) &&
                      Present(body.value.email) && Present(body.value.password))
    ensures body.Some? && Present(body.value.fullName) && Present(body.value.username) &&
            Present(body.value.email) && Present(body.value.password) ==>
      && (!ValidUsername(body.value.username.value) ==> r == Failure(InvalidUsername))
      && (ValidUsername(body.value.username.value) && !EmailPattern(body.value.email.value) ==> r == Failure(InvalidEmail))
    ensures r.Failure? ==> r.error in {MissingFields, InvalidUsername, InvalidEmail}
    ensures r.Failure? && r.error == InvalidUsername ==> !ValidUsername(body.value.username.value)
    ensures r.Failure? && r.error == InvalidEmail ==>
      ValidUsername(body.value.username.value) && !EmailPattern(body.value.email.value)
    ensures r.Success? <==>
      && body.Some?
      && Present(body.value.fullName) && Present(body.value.username)
      && Present(body.value.email) && Present(body.value.password)
      && ValidUsername(body.value.username.value)
      && EmailPattern(body.value.email.value)
    ensures r.Success? ==>
      && r.value.fullName == body.value.fullName.value
      && r.value.username == body.value.username.value
      && r.value.email == body.value.email.value
      && r.value.password == body.value.password.value
      && r.value.profileImageUrl == body.value.profileImageUrl
  {
    if body.None? then Failure(MissingFields)
    else
      var b := body.value;
      if !Present(b.fullName) || !Present(b.username) || !Present(b.email) || !Present(b.password) then
        Failure(MissingFields)
      else if !ValidUsername(b.username.value) then Failure(InvalidUsername)
      else
        EmailMatchesPattern(b.email.value);
        if !IsEmail(b.email.value) then Failure(InvalidEmail)
        else Success(Registration(b.fullName.value, b.username.value, b.email.value, b.password.value, b.profileImageUrl))
  }

  /** Some stored account has this email. */
  predicate EmailTaken(accounts: seq<Records.User>, email: string)
  {
    exists i :: 0 <= i < |accounts| && accounts[i].email == email
  }

  /** Some stored account has this username. */
  predicate UsernameTakenBy(accounts: seq<Records.User>, username: string)
  {
    exists i :: 0 <= i < |accounts| && accounts[i].username == username
  }

  /** `registerUser`: the request checks, then the email lookup, then the
      username lookup; an accepted request creates an account under the
      fresh id the store generates, with no bookmarks. */
  function Register(body: Option<RegisterBody>, accounts: seq<Records.User>, newId: Id): (r: Result<Records.User, AuthError>)
    ensures ValidateRegistration(body).Failure? ==> r == Failure(ValidateRegistration(body).error)
    ensures ValidateRegistration(body).Success? ==>
      var v := ValidateRegistration(body).value;
      && (EmailTaken(accounts, v.email) ==> r == Failure(EmailInUse))
      && (!EmailTaken(accounts, v.email) && UsernameTakenBy(accounts, v.username) ==> r == Failure(UsernameTaken))
      && (!EmailTaken(accounts, v.email) && !UsernameTakenBy(accounts, v.username) ==>
            r == Success(Records.User(newId, v.fullName, v.username, v.email, v.password, v.profileImageUrl, [])))
  {
    match ValidateRegistration(body)
    case Failure(e) => Failure(e)
    case Success(v) =>
      if EmailTaken(accounts, v.email) then Failure(EmailInUse)
      else if UsernameTakenBy(accounts, v.username) then Failure(UsernameTaken)
      else Success(Records.User(newId, v.fullName, v.username, v.email, v.password, v.profileImageUrl, []))
  }

  /** `accounts` is a scan of the store's user collection: every stored
      user once, each under its own id. */
  ghost predicate ListsUsers(accounts: seq<Records.User>, users: map<Id, Records.User>)
  {
    && (forall i :: 0 <= i < |accounts| ==> accounts[i].id in users && users[accounts[i].id] == accounts[i])
    && (forall id :: id in users ==> exists i :: 0 <= i < |accounts| && accounts[i] == users[id])
  }

  /** Over a scan of the store's users, the duplicate checks ask whether
      some stored user has the email, or the username. */
  lemma TakenInStore(accounts: seq<Records.User>, users: map<Id, Records.User>, email: string, username: string)
    requires ListsUsers(accounts, users)
    ensures EmailTaken(accounts, email) <==> exists id :: id in users && users[id].email == email
    ensures UsernameTakenBy(accounts, username) <==> exists id :: id in users && users[id].username == username
  {
    if exists id :: id in users && users[id].email == email {
      var id :| id in users && users[id].email == email;
      var i :| 0 <= i < |accounts| && accounts[i] == users[id];
    }
    if exists id :: id in users && users[id].username == username {
      var id :| id in users && users[id].username == username;
      var i :| 0 <= i < |accounts| && accounts[i] == users[id];
    }
    if EmailTaken(accounts, email) {
      var i :| 0 <= i < |accounts| && accounts[i].email == email;
      assert users[accounts[i].id].email == email;
    }
    if UsernameTakenBy(accounts, username) {
      var i :| 0 <= i < |accounts| && accounts[i].username == username;
      assert users[accounts[i].id].username == username;
    }
  }

  /** A request the checks refuse is refused the same way whatever the
      store holds: no lookup happens before the checks pass. */
  lemma ChecksPrecedeLookups(body: Option<RegisterBody>, accounts1: seq<Records.User>, accounts2: seq<Records.User>, id1: Id, id2: Id)
    requires ValidateRegistration(body).Failure?
    ensures Register(body, accounts1, id1) == Register(body, accounts2, id2)
    ensures Register(body, accounts1, id1).error in {MissingFields, InvalidUsername, InvalidEmail}
  {
  }

  /** Emails are pairwise distinct across accounts, and so are usernames. */
  ghost predicate UniqueAccounts(accounts: seq<Records.User>)
  {
    forall i, j :: 0 <= i < j < |accounts| ==>
      accounts[i].email != accounts[j].email && accounts[i].username != accounts[j].username
  }

  /** Registration keeps emails and usernames unique. */
  lemma RegisterKeepsUnique(body: Option<RegisterBody>, accounts: seq<Records.User>, newId: Id)
    requires UniqueAccounts(accounts)
    requires Register(body, accounts, newId).Success?
    ensures UniqueAccounts(accounts + [Register(body, accounts, newId).value])
  {
    var u := Register(body, accounts, newId).value;
    var all := accounts + [u];
    forall i, j | 0 <= i < j < |all|
      ensures all[i].email != all[j].email && all[i].username != all[j].username
    {
      if j == |accounts| {
        assert all[i] == accounts[i];
      }
    }
  }

  // ---------------------------------------------------------------------
  // Login and user info

  /** The login request body. */
  datatype LoginBody = LoginBody(email: Option<string>, password: Option<string>)

  /** `User.findOne({ email })`: the first account, in the store's natural
      order, with this email. */
  function FindByEmail(accounts: seq<Records.User>, email: string): (r: Option<Records.User>)
    ensures r.None? <==> !EmailTaken(accounts, email)
    ensures r.Some? ==> r.value.email == email
    ensures r.Some? ==>
      exists i :: 0 <= i < |accounts| && accounts[i] == r.value && forall k :: 0 <= k < i ==> accounts[k].email != email
  {
    if accounts == [] then None
    else if accounts[0].email == email then Some(accounts[0])
    else
      var r := FindByEmail(accounts[1..], email);
      assert EmailTaken(accounts, email) <==> EmailTaken(accounts[1..], email) by {
        if EmailTaken(accounts, email) {
          var i :| 0 <= i < |accounts| && accounts[i].email == email;
          assert accounts[1..][i - 1] == accounts[i];
        }
        if EmailTaken(accounts[1..], email) {
          var i :| 0 <= i < |accounts[1..]| && accounts[1..][i].email == email;
          assert accounts[i + 1] == accounts[1..][i];
        }
      }
      if r.Some? then
        var i :| 0 <= i < |accounts[1..]| && accounts[1..][i] == r.value &&
          r.value.email == email && forall k :: 0 <= k < i ==> accounts[1..][k].email != email;
        assert accounts[i + 1] == r.value;
        assert forall k :: 0 < k < i + 1 ==> accounts[k] == accounts[1..][k - 1];
        r
      else r
  }

  /** The user record a successful login or user-info request returns, with
      the three counters added. The user-info request projects the password
      away; the login reply keeps the stored (hashed) password. */
  datatype UserSummary = UserSummary(
    id: Id,
    fullName: string,
    username: string,
    email: string,
    password: Option<string>,
    profileImageUrl: Option<string>,
    bookmarkedPolls: seq<Id>,
    totalPollsCreated: nat,
    totalPollsVoted: nat,
    totalPollsBookmarked: nat)

  /** `countDocuments({ creator })`. */
  ghost function CreatedTotal(polls: map<Id, Records.Poll>, userId: Id): nat
  {
    |set id | id in polls && polls[id].creator == userId|
  }

  /** `countDocuments({ voters: userId })`. */
  ghost function VotedTotal(polls: map<Id, Records.Poll>, userId: Id): nat
  {
    |set id | id in polls && userId in polls[id].voters|
  }

  /** Whether a poll was created by `userId`. */
  function CreatedBy(userId: Id): Records.Poll -> bool
  {
    (p: Records.Poll) => p.creator == userId
  }

  /** A full scan filtered by creator counts the polls `userId` created. */
  lemma CreatedCount(scan: seq<Id>, polls: map<Id, Records.Poll>, userId: Id)
    requires Enumerates(scan, polls)
    ensures |Select(scan, polls, CreatedBy(userId))| == CreatedTotal(polls, userId)
  {
    SelectCount(scan, polls, CreatedBy(userId));
    assert (set id | id in polls && CreatedBy(userId)(polls[id])) == (set id | id in polls && polls[id].creator == userId);
  }

  /** The counters are taken from the store's polls (given as a full scan)
      and from the length of the user's bookmark list. */
  function Summarize(u: Records.User, password: Option<string>, polls: map<Id, Records.Poll>, scan: seq<Id>): (r: UserSummary)
    requires Enumerates(scan, polls)
    ensures r.id == u.id && r.fullName == u.fullName && r.username == u.username && r.email == u.email
    ensures r.password == password && r.profileImageUrl == u.profileImageUrl && r.bookmarkedPolls == u.bookmarkedPolls
    ensures r.totalPollsCreated == CreatedTotal(polls, u.id)
    ensures r.totalPollsVoted == VotedTotal(polls, u.id)
    ensures r.totalPollsBookmarked == |u.bookmarkedPolls|
  {
    var created := Select(scan, polls, CreatedBy(u.id));
    var voted := Select(scan, polls, VotedBy(u.id));
    CreatedCount(scan, polls, u.id);
    VotedCount(scan, polls, u.id);
    UserSummary(u.id, u.fullName, u.username, u.email, password, u.profileImageUrl, u.bookmarkedPolls,
                |created|, |voted|, |u.bookmarkedPolls|)
  }

  /** `loginUser`: the request checks, then the account lookup and the
      password comparison. An unknown email and a wrong password get the
      same answer, so the reply does not tell which one failed. */
  function Login(body: Option<LoginBody>, accounts: seq<Records.User>, polls: map<Id, Records.Poll>, scan: seq<Id>,
                 passwordMatches: (string, string) -> bool): (r: Result<UserSummary, AuthError>)
    requires Enumerates(scan, polls)
    ensures body.None? || !Present(body.value.email) || !Present(body.value.password) ==> r == Failure(MissingFields)
    ensures body.Some? && Present(body.value.email) && Present(body.value.password) && !EmailPattern(body.value.email.value) ==>
      r == Failure(InvalidEmail)
    ensures body.Some? && Present(body.value.email) && Present(body.value.password) && EmailPattern(body.value.email.value) ==>
      var found := FindByEmail(accounts, body.value.email.value);
      && (found.None? ==> r == Failure(InvalidCredentials))
      && (found.Some? && !passwordMatches(body.value.password.value, found.value.password) ==> r == Failure(InvalidCredentials))
      && (found.Some? && passwordMatches(body.value.password.value, found.value.password) ==>
            && r == Success(Summarize(found.value, Some(found.value.password), polls, scan))
            && r.value.id == found.value.id
            && r.value.password == Some(found.value.password)
            && r.value.totalPollsCreated == CreatedTotal(polls, found.value.id)
            && r.value.totalPollsVoted == VotedTotal(polls, found.value.id)
            && r.value.totalPollsBookmarked == |found.value.bookmarkedPolls|)
    ensures r.Failure? ==> r.error in {MissingFields, InvalidEmail, InvalidCredentials}
  {
    if body.None? || !Present(body.value.email) || !Present(body.value.password) then Failure(MissingFields)
    else
      var email := body.value.email.value;
      EmailMatchesPattern(email);
      if !IsEmail(email) then Failure(InvalidEmail)
      else match FindByEmail(accounts, email)
        case None => Failure(InvalidCredentials)
        case Some(u) =>
          if !passwordMatches(body.value.password.value, u.password) then Failure(InvalidCredentials)
          else Success(Summarize(u, Some(u.password), polls, scan))
  }

  /** `getUserInfo`: the authenticated caller's record without its
      password, with the same three counters as the login reply. */
  function UserInfo(users: map<Id, Records.User>, callerId: Id, polls: map<Id, Records.Poll>, scan: seq<Id>): (r: Result<UserSummary, AuthError>)
    requires Enumerates(scan, polls)
    ensures callerId !in users ==> r == Failure(UserNotFound)
    ensures callerId in users ==> r == Success(Summarize(users[callerId], None, polls, scan))
    ensures callerId in users ==>
      && r.Success?
      && r.value.id == users[callerId].id
      && r.value.password.None?
      && r.value.totalPollsCreated == CreatedTotal(polls, users[callerId].id)
      && r.value.totalPollsVoted == VotedTotal(polls, users[callerId].id)
      && r.value.totalPollsBookmarked == |users[callerId].bookmarkedPolls|
  {
    if callerId !in users then Failure(UserNotFound)
    else Success(Summarize(users[callerId], None, polls, scan))
  }

  /** With a duplicate-free bookmark list, `totalPollsBookmarked` is the
      number of distinct polls bookmarked, and it bounds the length of the
      bookmark listing (which drops polls since deleted). */
  lemma BookmarkCount(users: map<Id, Records.User>, callerId: Id, polls: map<Id, Records.Poll>, scan: seq<Id>)
    requires Enumerates(scan, polls)
    requires callerId in users && users[callerId].id == callerId
    requires NoDup(users[callerId].bookmarkedPolls)
    ensures UserInfo(users, callerId, polls, scan).value.totalPollsBookmarked == |Elements(users[callerId].bookmarkedPolls)|
    ensures |ListBookmarkedPolls(users, polls, callerId).value| <= UserInfo(users, callerId, polls, scan).value.totalPollsBookmarked
  {
    NoDupCardinality(users[callerId].bookmarkedPolls);
  }

  /** The voted-polls counter agrees with the total the voted-polls listing
      reports for the same user. */
  lemma VotedCountAgrees(users: map<Id, Records.User>, callerId: Id, polls: map<Id, Records.Poll>, scan: seq<Id>, page: int, pageSize: int)
    requires Enumerates(scan, polls)
    requires callerId in users && users[callerId].id == callerId
    requires pageSize > 0 && page >= 1
    ensures ListVotedPolls(polls, scan, page, pageSize, callerId).Success?
    ensures UserInfo(users, callerId, polls, scan).value.totalPollsVoted ==
            ListVotedPolls(polls, scan, page, pageSize, callerId).value.totalVotedPolls
  {
  }
}
