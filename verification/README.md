# Poll backend model

A Dafny model of the request logic of a small polling service. Users
register and log in. They create polls of five types: single-choice,
yes/no, rating, image-based and open-ended. They vote once per poll, and a
poll's creator may close or delete it. Users bookmark polls and list polls
page by page, with a per-type statistics table.

The model has eight modules, one file each:

- `Base` (`base.dfy`): the optional-value and result types, string ids, and
  the JavaScript truthiness test applied to request fields.
- `Records` (`records.dfy`): the stored poll and user records, the poll
  type names, and the error kinds with their HTTP status codes. It also
  holds the consistency invariant of a stored poll:
  - no voter is listed twice;
  - the option count fits the type;
  - an open-ended poll has one response per voter;
  - any other poll has one vote per voter.
- `PollFactory` (`poll_factory.dfy`): the checks of poll creation and the
  option set each type gets.
- `Bookmarks` (`bookmarks.dfy`): the bookmark toggle on a user's list.
- `PollStore` (`store.dfy`): a `Store` class holding the poll and user
  collections. Poll creation, voting, closing, deletion and the bookmark
  toggle are methods on it. Each loads one record, runs the controller's
  checks in order, edits the record, and writes it back as one step.
- `Statistics` (`stats.dfy`): the per-type statistics table. It fills in
  the five fixed types with a zero default, then sorts stably by count,
  largest first.
- `Listing` (`listing.dfy`): the paginated listings of all polls, of voted
  polls and of bookmarked polls, each row annotated with the viewer's
  `userHasVoted` flag.
- `Accounts` (`auth.dfy`): the checks of registration and login, the
  duplicate checks, and the per-user counters that login and user-info
  return.

The store's sorted scan is a sequence of ids, required to list every
stored poll once and, for the all-polls listing, newest first. The
aggregation the store runs for the statistics table is a sequence of
(type, count) groups, required to be a true grouping of the stored polls.

Rejections are error kinds, not message strings. Each kind maps to the
status code the controller answers with. A page number below 1 makes the
skip negative, and the store refuses a negative skip, so the listing
answers with status 500. The model writes this as the error
`StoreRejected`.

## Model

| member | source | states |
|---|---|---|
| Records.ParseType | controllers/poll-controller.js:17-55 | a type name is accepted exactly when it is the name of one of the five types, and then maps back to that name |
| Records.TotalVotesBump | controllers/poll-controller.js:285 | adding one vote to one option raises the poll's total vote count by exactly one |
| PollFactory.FromTexts | controllers/poll-controller.js:24-26 | one option per input text, same texts in the same order, every counter zero |
| PollFactory.RatingTexts | controllers/poll-controller.js:34-36 | the rating texts are exactly "1" to "5" |
| PollFactory.BuildOptions | controllers/poll-controller.js:15-56 | single-choice and image-based polls take the given texts, one option each and in order, when there are at least two, and are otherwise refused; rating gets "1".."5", yes/no gets "Yes","No", open-ended gets no options; every counter starts at zero |
| PollFactory.NewPoll | controllers/poll-controller.js:5-63 | a missing question, type or creator is refused first, then an unknown type name; with those present and the type known, the poll is created exactly when its option set can be built, and is otherwise refused with that option check's error; a created poll copies the request fields, gets the option set of its type, has no voters or responses, is open, and satisfies the consistency invariant |
| Bookmarks.RemoveAll | controllers/poll-controller.js:348-350 | every occurrence of the id is removed, every other id keeps its membership, the list does not grow, an absent id leaves the list as it was, a duplicate-free list stays duplicate-free, and a one-element list is kept or emptied |
| Bookmarks.RemoveAllConcat | controllers/poll-controller.js:348-350 | removal acts on each part of a concatenation separately, so the ids kept stay in list order |
| Bookmarks.Toggled | controllers/poll-controller.js:344-360 | after a toggle the id is bookmarked exactly when it was not before, other ids are unaffected, an absent id is appended at the end, a present id is filtered out of the list in place, and a duplicate-free list stays duplicate-free |
| Bookmarks.ToggleTwice | controllers/poll-controller.js:344-360 | toggling twice restores the original membership, and restores the list itself when the id was absent |
| Bookmarks.RemoveAppended | controllers/poll-controller.js:348-359 | appending an absent id and then removing it gives back the original list |
| PollStore.Store.AddUser | controllers/auth-controller.js:53-59 | a new account is stored under its fresh id with no bookmarks; polls are unchanged and the store invariant holds |
| PollStore.Store.CreatePoll | controllers/poll-controller.js:58-63 | the poll built by `NewPoll` is stored under the fresh id only when it is accepted; a refused request stores nothing |
| PollStore.Store.Vote | controllers/poll-controller.js:258-289 | checks run in order: missing poll, closed poll, repeat voter, then a missing response (open-ended) or a bad option index (other types); any failure changes nothing; a success appends the voter once, appends one response or adds one vote to the chosen option and nothing else, and keeps every stored poll consistent |
| PollStore.Store.Close | controllers/poll-controller.js:304-323 | missing poll, then non-creator, then already-closed are refused without change; a success sets `closed` and changes nothing else |
| PollStore.Store.Delete | controllers/poll-controller.js:435-448 | the poll is removed exactly when it exists and the requester created it, refused as not found or as forbidden otherwise; users' bookmark lists are untouched |
| PollStore.Store.ToggleBookmark | controllers/poll-controller.js:338-371 | an unknown user is refused; otherwise the poll is removed if bookmarked and appended if not, the reply says which, and the list stays duplicate-free |
| Statistics.Rank | controllers/poll-controller.js:133-154 | every type has one position in the fixed type table |
| Statistics.FindCount | controllers/poll-controller.js:157-161 | the count of the first group of the type, or 0 when no group has it |
| Statistics.FindIsCount | controllers/poll-controller.js:115-161 | over a true grouping, the lookup yields the number of stored polls of that type, zero included |
| Statistics.WithDefaults | controllers/poll-controller.js:155-163 | one row per fixed type, in table order, with the type's label and the count of its group, 0 when it has none |
| Statistics.Insert | controllers/poll-controller.js:164 | one insertion step of the sort: a permutation of the row and the table that keeps counts non-increasing |
| Statistics.SortByCount | controllers/poll-controller.js:164 | the sorted table is a permutation of its input with counts never increasing |
| Statistics.InsertOrdered | controllers/poll-controller.js:164 | inserting a row that comes earlier in the fixed table than every row of a table in count-then-table order keeps that order |
| Statistics.SortKeepsTieOrder | controllers/poll-controller.js:164 | the sort is stable: rows given in fixed-table order come out by count, largest first, with equal counts still in fixed-table order |
| Statistics.DefaultRows | controllers/poll-controller.js:155-163 | the filled-in table has one row per type, in table order, each with its label and its stored count |
| Statistics.Stats | controllers/poll-controller.js:155-164 | the table is a permutation of the filled-in rows, five rows long, in which any earlier row has a larger count, or an equal count and an earlier table position |
| Statistics.StatsRows | controllers/poll-controller.js:133-164 | the final table has five rows, the row of every type appears, and each row carries its type's label and count |
| Statistics.StatsTable | controllers/poll-controller.js:133-164 | every type appears exactly once with its stored count (zero when absent), counts never increase, and ties keep the fixed table order |
| Statistics.SumSort | controllers/poll-controller.js:164 | sorting does not change the sum of the counts |
| Statistics.StatsSum | controllers/poll-controller.js:115-164 | the table's counts add up to the number of all stored polls, whatever filter the listing applies to its own total |
| Listing.TotalPages | controllers/poll-controller.js:168 | the fewest pages of the page size that hold the total |
| Listing.Skip | controllers/poll-controller.js:89 | the skip is negative exactly when the page number is below 1 |
| Listing.PageOfPosition | controllers/poll-controller.js:89 | every position of the result lies on one of the pages 1 to the page count |
| Listing.PagesDisjoint | controllers/poll-controller.js:89 | no position lies on two pages |
| Listing.HasVoted | controllers/poll-controller.js:104-106 | the flag is true exactly when the viewer is among the voters |
| Listing.Window | controllers/poll-controller.js:98-99 | the window has the length skip-then-limit gives and holds the scan's entries from the skip on |
| Listing.Annotate | controllers/poll-controller.js:103-111 | each listed poll is shown with a flag that is true exactly when the viewer voted on it |
| Listing.Select | controllers/poll-controller.js:92 | the filtered scan holds exactly the matching polls, without duplicates, and keeps the newest-first order |
| Listing.SelectConcat | controllers/poll-controller.js:92 | selection distributes over concatenation, so the filtered scan keeps the scan's order |
| Listing.SelectCount | controllers/poll-controller.js:113 | the filtered scan is as long as the number of stored polls that match |
| Listing.PageOf | controllers/poll-controller.js:98-111 | a page is the whole skip-then-limit window of the scan, each row with the viewer's flag; without duplicates when the scan has none, and newest first when the scan is |
| Listing.PageKeeps | controllers/poll-controller.js:92 | every row of a page of a filtered scan passes the filter |
| Listing.QueryFilter | controllers/poll-controller.js:82-83 | a poll passes the filter built from the query exactly when it has the queried type, if one was given, and the queried creator, if one was given |
| Listing.MatchingPage | controllers/poll-controller.js:92-111 | a page of the filtered, sorted scan shows the whole requested window, every row matching the filter and flagged for the viewer, without duplicates, newest first |
| Listing.VotedPage | controllers/poll-controller.js:192-210 | a page of the voted-polls scan shows the whole requested window, every row a poll the viewer voted on and flagged as such, without duplicates |
| Listing.MatchCount | controllers/poll-controller.js:82-83 | the filtered total counts the stored polls that have the requested type and creator |
| Listing.VotedCount | controllers/poll-controller.js:213 | the voted total counts the stored polls whose voters include the viewer |
| Listing.ListAllPolls | controllers/poll-controller.js:77-171 | a page below 1 is refused by the store; otherwise the whole requested window of matching polls, newest first, without duplicates, each flagged for the viewer; the filtered total and page count; and the statistics table over all polls, summing to the number of stored polls |
| Listing.ListVotedPolls | controllers/poll-controller.js:182-220 | a page below 1 is refused by the store; otherwise the whole requested window of polls the viewer voted on, each flagged as voted on, with the voted total and page count |
| Listing.Existing | controllers/poll-controller.js:385-406 | the bookmarks whose poll still exists; no shorter than the list exactly when no bookmarked poll is gone; a one-element list is kept or emptied |
| Listing.ExistingConcat | controllers/poll-controller.js:385-406 | dropping missing polls acts on each part of a concatenation separately, so the bookmarks kept stay in bookmark order |
| Listing.ListBookmarkedPolls | controllers/poll-controller.js:381-420 | an unknown user is refused; otherwise one row per bookmarked poll that still exists, in bookmark order (row `i` is entry `i` of `Existing`), each showing the stored poll flagged for the user |
| Accounts.AllUsernameChars | controllers/auth-controller.js:23-24 | true exactly when every character is an ASCII letter, a digit or a hyphen |
| Accounts.ValidUsername | controllers/auth-controller.js:23-24 | a username is accepted exactly when it is non-empty and every character is an ASCII letter, a digit or a hyphen |
| Accounts.IsEmail | controllers/auth-controller.js:32-33 | accepted exactly when there is one `@`, with a non-empty part before it, no whitespace anywhere, and a dot after it with a character on each side |
| Accounts.ShapeIsPattern | controllers/auth-controller.js:32 | that reading of the email check is the regular expression matched at the same `@` |
| Accounts.EmailMatchesPattern | controllers/auth-controller.js:32-33 | the email check accepts exactly the strings the regular expression matches |
| Accounts.ValidateRegistration | controllers/auth-controller.js:12-35 | a missing body or missing field is refused as missing fields, and only then; a complete body with a bad username is refused as an invalid username; a good username with a bad email as an invalid email; acceptance is exactly all checks passing, and the accepted fields are the request's |
| Accounts.Register | controllers/auth-controller.js:12-59 | the request checks first, then a taken email, then a taken username; an accepted request creates the account with the request's fields and no bookmarks |
| Accounts.ChecksPrecedeLookups | controllers/auth-controller.js:18-45 | a request the checks refuse gets the same answer whatever accounts exist |
| Accounts.RegisterKeepsUnique | controllers/auth-controller.js:39-59 | registration keeps emails and usernames unique across accounts |
| Accounts.TakenInStore | controllers/auth-controller.js:39-50 | over a scan of the stored users, the duplicate checks ask whether some stored user has the email, or the username |
| Accounts.FindByEmail | controllers/auth-controller.js:94 | the first account with the email, or none exactly when no account has it |
| Accounts.Summarize | controllers/auth-controller.js:104-121 | the reply counts the polls the user created and voted on, and gives the bookmark count as the length of the bookmark list |
| Accounts.Login | controllers/auth-controller.js:77-123 | a missing body, email or password is refused first, then a bad email; an unknown email and a wrong password get the same answer; a success returns the found account with its created, voted and bookmarked counters |
| Accounts.UserInfo | controllers/auth-controller.js:133-159 | an unknown caller is refused; otherwise the caller's whole record (name, username, email, image, bookmarks) without its password, with the three counters |
| Accounts.BookmarkCount | controllers/auth-controller.js:149 | with a duplicate-free bookmark list the bookmark count is the number of distinct bookmarked polls, and it bounds the length of the bookmark listing |
| Accounts.VotedCountAgrees | controllers/auth-controller.js:144-146 | the voted counter equals the total the voted-polls listing reports for the same user |

## Left out

- Response message strings are not modelled; each rejection is an error kind with its status code.
- Persistence is not modelled. Ids, creation times and stored defaults are inputs: option counters start at 0 and a new poll is open.
- Password hashing is not modelled. `bcrypt.compare` is a function parameter, and `jwt.sign` and the token are left out.
- The `populate`, `select` and `toObject` projections of the replies are left out. After a bookmark is added, the reply is the id list rather than the populated polls.
- `getPollById` is left out; it is a plain lookup.
- Concurrency is left out: each request runs as one atomic step. This includes the read-modify-write of voting and the undeclared shared `voterId` variable in `voteOnPoll`.
- `parseInt` of the query strings is not modelled. Page and limit are integers, the limit must be positive, and the defaults of 1 and 10 are the caller's.
- The store's sort is a required newest-first order of the scan. The natural order used by the voted-polls listing and by account lookups is a given sequence.
- Only the type query and creator query of the filter are modelled. Request fields are strings or absent; other JSON values are left out.
- An `optionIndex` is an integer or absent; other JSON values are left out.
- The bearer-token parsing in the authentication middleware is left out. The caller's id is an input.
- The file upload to external storage is left out.
- Express wiring is left out.
- Account creation is modelled both in `Accounts.Register` and in `PollStore.Store.AddUser`. The duplicate checks are stated over the account sequence the lookups scan; `Accounts.TakenInStore` relates that scan to the store's user map.
- Ids are plain strings, so the database's cast of an id to its object-id form is not modelled. In the source, a malformed poll id in the path makes the lookup throw, and voting, closing and deletion answer 500; the model answers "not found". A malformed `creatorId` query also answers 500 in the source, where the model lists no polls. A malformed bookmark id fails when the user is saved (500), where the model appends it.
