# DatingApp repository queries in Dafny

This project models the query layer of the DatingApp API, the class `DatingRepository`.
Each query reads the users, photos, likes and messages tables and returns one of two
things: the record it looks up, or the filtered and ordered sequence of records it hands
to the pagination.

The files are:

- `wrappers.dfy`: `Option` stands for a lookup that may return `null`. `Result` stands for
  a call that may throw `ArgumentOutOfRangeException`.
- `sequences.dfy`: the LINQ operators as functions over sequences. `Where` is `Filter`,
  `OrderByDescending` is `SortDesc`, `Select` is `Select` and `FirstOrDefault` is
  `FirstWhere`. Lemmas prove that filtering keeps order, that filtering twice is
  filtering once, that the sort returns a permutation in descending order, and that an
  already sorted sequence comes back from the sort unchanged.
- `dates.dfy`: `DateTime` as a date plus a time of day in ticks. Gregorian month lengths,
  `AddYears` with its February 29 rule and its range exception, an order-preserving
  `Ordinal` for comparisons, and the link between the date-of-birth bounds and a
  person's age in whole years.
- `models.dfy`: the entity records and the two parameter records.
- `dating_repository.dfy`: the queries and the properties proved about them.

Decisions:

- A table is a sequence in the order the store yields its rows. "First" in a lookup
  means first in that order.
- A user's `Likers` are the likes whose `LikeeId` is that user. A user's `Likees` are the
  likes whose `LikerId` is that user.
- `DateTime.Now` is the parameter `now`.
- `GetUsers` returns `Failure(ArgumentOutOfRange)` when `AddYears` would throw. This
  happens when an end of the date-of-birth window falls outside years 1 to 9999.
- The query chain is modelled step by step as written. It first orders by `LastActive`
  (line 61). It then applies the filters. It orders again only when `OrderBy` is
  non-empty (lines 84-95).
- The contracts promise two things about each list: it is in descending key order, and
  it holds exactly the matching rows, each as often as in the table. These hold whatever
  order a database gives to rows with equal keys.
- An empty or missing `OrderBy` keeps the `LastActive` order of line 61.
- Errors for bad page numbers belong to `PagedList`, which is not part of this model.

## Model

| member | source | states |
|---|---|---|
| `Sequences.Filter` | DatingApp/DatingApp.API/Data/DatingRepository.cs:63-65 | `Where` keeps exactly the elements that satisfy the predicate, and no more elements than the input has |
| `Sequences.FilterMultiset` | DatingApp/DatingApp.API/Data/DatingRepository.cs:63-65 | `Where` keeps each satisfying element exactly as often as it occurs in the input and drops every other element |
| `Sequences.FilterKeepsSorted` | DatingApp/DatingApp.API/Data/DatingRepository.cs:61-83 | filters applied after `OrderByDescending` keep the descending order |
| `Sequences.FilterIdempotent` | DatingApp/DatingApp.API/Data/DatingRepository.cs:70-75 | applying the same `Where` twice is the same as applying it once |
| `Sequences.FilterAgreeing` | DatingApp/DatingApp.API/Data/DatingRepository.cs:131-132 | two predicates that agree on every element select the same sequence |
| `Sequences.SortDesc` | DatingApp/DatingApp.API/Data/DatingRepository.cs:61 | `OrderByDescending` returns a permutation of its input, in descending key order |
| `Sequences.InsertKeepsSorted` | DatingApp/DatingApp.API/Data/DatingRepository.cs:61 | each insertion step of the sort keeps the sequence in descending order |
| `Sequences.SortDescMembers` | DatingApp/DatingApp.API/Data/DatingRepository.cs:122 | ordering neither adds nor drops an element |
| `Sequences.SortDescOfSorted` | DatingApp/DatingApp.API/Data/DatingRepository.cs:92 | ordering a sequence that is already in descending order returns it unchanged |
| `Sequences.Select` | DatingApp/DatingApp.API/Data/DatingRepository.cs:51-55 | `Select` keeps the length and maps every element in place |
| `Sequences.SelectOfFilter` | DatingApp/DatingApp.API/Data/DatingRepository.cs:51-55 | `Where(p).Select(f)` holds exactly the images under `f` of the elements that satisfy `p` |
| `Sequences.FirstWhere` | DatingApp/DatingApp.API/Data/DatingRepository.cs:26 | `FirstOrDefault` is `None` exactly when no element matches; otherwise it returns the matching element with no earlier match |
| `Sequences.FilterThenFirst` | DatingApp/DatingApp.API/Data/DatingRepository.cs:31 | `Where(p).FirstOrDefault(q)` equals `FirstOrDefault` of `p` and `q` together |
| `Dates.DaysInMonth` | DatingApp/DatingApp.API/Data/DatingRepository.cs:79-80 | every month has 28 to 31 days, and a month has 29 days exactly when it is February of a leap year |
| `Dates.Ordinal` | DatingApp/DatingApp.API/Data/DatingRepository.cs:82 | the number every `DateTime` comparison and sort key uses; a valid date's ordinal lies strictly inside its year's block, so a later year always has a larger ordinal |
| `Dates.OrdinalOrder` | DatingApp/DatingApp.API/Data/DatingRepository.cs:82 | comparing the ordinals of two valid dates is the same as comparing them field by field (year, month, day, time of day) |
| `Dates.AddYears` | DatingApp/DatingApp.API/Data/DatingRepository.cs:79-80 | `AddYears` throws exactly when the result year leaves 1..9999; otherwise it gives a valid date with the same month and time of day, and the same day except that February 29 becomes February 28 in a non-leap year |
| `Dates.AddYearsRoundTrip` | DatingApp/DatingApp.API/Data/DatingRepository.cs:79-80 | adding `n` years and then `-n` years gives back any date other than February 29 |
| `Dates.BornByMeansAtLeast` | DatingApp/DatingApp.API/Data/DatingRepository.cs:80 | a midnight birth date is at or before `now.AddYears(-k)` exactly when the person is at least `k` whole years old |
| `Dates.BornSinceMeansYounger` | DatingApp/DatingApp.API/Data/DatingRepository.cs:79 | when the clock is past midnight, a midnight birth date is at or after `now.AddYears(-k)` exactly when the person is younger than `k` |
| `DatingRepository.GetLike` | DatingApp/DatingApp.API/Data/DatingRepository.cs:24-27 | returns the first like from `userId` to `recipientId`; `None` exactly when no such like exists |
| `DatingRepository.GetMainPhotoForUser` | DatingApp/DatingApp.API/Data/DatingRepository.cs:29-32 | returns the first photo of the user that is marked main; `None` exactly when there is none |
| `DatingRepository.GetPhoto` | DatingApp/DatingApp.API/Data/DatingRepository.cs:34-38 | returns the first photo with the id; `None` exactly when no photo has it |
| `DatingRepository.GetUser` | DatingApp/DatingApp.API/Data/DatingRepository.cs:40-43 | returns the first user with the id; `None` exactly when no user has it |
| `DatingRepository.GetMessage` | DatingApp/DatingApp.API/Data/DatingRepository.cs:138-141 | returns the first message with the id; `None` exactly when no message has it |
| `DatingRepository.GetUserLikes` | DatingApp/DatingApp.API/Data/DatingRepository.cs:45-57 | for an existing user, returns exactly the ids of the users who like them (`likers`) or of the users they like (otherwise) |
| `DatingRepository.LikeLookupAgreesWithUserLikes` | DatingApp/DatingApp.API/Data/DatingRepository.cs:45-57 | a like from `a` to `b` is found exactly when `a` is among `b`'s likers and `b` is among `a`'s likees |
| `DatingRepository.CandidatesSelect` | DatingApp/DatingApp.API/Data/DatingRepository.cs:61-76 | the self, gender, likers and likees filters keep exactly the users that pass them, each as often as in the table, in order of last activity |
| `DatingRepository.AgeFilterSelect` | DatingApp/DatingApp.API/Data/DatingRepository.cs:77-83 | the age filter throws exactly when it applies and a window end is out of range; otherwise it keeps exactly the users in the window (all users with the default ages 18 and 99), in their order |
| `DatingRepository.ApplyOrderBy` | DatingApp/DatingApp.API/Data/DatingRepository.cs:84-95 | keeps the same users; an empty `OrderBy` keeps the incoming order, and any other value orders by `Created` for `"created"` and by `LastActive` otherwise |
| `DatingRepository.QueryUsersSelect` | DatingApp/DatingApp.API/Data/DatingRepository.cs:59-97 | the whole chain fails only through the age window; otherwise it keeps exactly the selected users with their multiplicity, ordered by `Created` for `"created"` and by `LastActive` for any other value |
| `DatingRepository.GetUsers` | DatingApp/DatingApp.API/Data/DatingRepository.cs:59-97 | the member list as written: throws exactly when the age window cannot be computed, holds exactly the selected users, and is in descending order of the requested key |
| `DatingRepository.GetUsersMembers` | DatingApp/DatingApp.API/Data/DatingRepository.cs:63-76 | every listed user is in the table, is not the requester and has the requested gender; with `Likers` set they like the requester, and with only `Likees` set the requester likes them |
| `DatingRepository.LikersAndLikeesIsLikers` | DatingApp/DatingApp.API/Data/DatingRepository.cs:67-76 | with both flags set, the list as written equals the likers-only list |
| `DatingRepository.LikersAndLikeesCounterexample` | DatingApp/DatingApp.API/Data/DatingRepository.cs:74 | a concrete table where asking for likers and likees lists a user whom the requester does not like, while the corrected query lists nobody |
| `DatingRepository.GetUsersIntended` | DatingApp/DatingApp.API/Data/DatingRepository.cs:72-76 | the list with the likees filter reading the requester's own likes; otherwise the same guarantees as `GetUsers` |
| `DatingRepository.GetUsersIntendedMembers` | DatingApp/DatingApp.API/Data/DatingRepository.cs:72-76 | with the corrected filter and `Likees` set, the requester likes every listed user, whether or not `Likers` is also set |
| `DatingRepository.DefaultOrderIsActivityOrder` | DatingApp/DatingApp.API/Data/DatingRepository.cs:84-95 | any `OrderBy` other than `"created"` gives the same list as an empty one |
| `DatingRepository.DefaultAgesIgnoreClock` | DatingApp/DatingApp.API/Data/DatingRepository.cs:77-83 | with ages 18 and 99 the list never throws and does not depend on the clock |
| `DatingRepository.AgeWindowIsAgeRange` | DatingApp/DatingApp.API/Data/DatingRepository.cs:79-82 | for midnight birth dates and a clock past midnight, the window keeps exactly the people aged `MinAge` to `MaxAge`, both included |
| `DatingRepository.GetMessagesForUser` | DatingApp/DatingApp.API/Data/DatingRepository.cs:103-124 | newest first; holds exactly the messages received (`"Inbox"`), sent (`"Outbox"`) or received and unread (any other container), each as often as in the table |
| `DatingRepository.UnreadIsWithinInbox` | DatingApp/DatingApp.API/Data/DatingRepository.cs:109-120 | the default container holds exactly the unread messages of the inbox |
| `DatingRepository.GetMessageThread` | DatingApp/DatingApp.API/Data/DatingRepository.cs:126-136 | newest first; holds exactly the messages sent between the two users in either direction, each as often as in the table |
| `DatingRepository.ThreadIsSymmetric` | DatingApp/DatingApp.API/Data/DatingRepository.cs:131-133 | the thread of `a` with `b` is the same sequence as the thread of `b` with `a` |

## Findings

| source | as written | input that shows it | evidently intended | confidence | as-written member | corrected member |
|---|---|---|---|---|---|---|
| DatingApp/DatingApp.API/Data/DatingRepository.cs:74 | the likees filter calls `GetUserLikes(UserId, Likers)` | `Likers` and `Likees` both set; user 2 likes user 1 and user 1 likes nobody; user 1's list still shows user 2 | the likees filter should read the users `UserId` likes, i.e. `GetUserLikes(UserId, false)` | not executed; the flag is passed unchanged, so with both flags set the likees filter repeats the likers filter | `DatingRepository.LikersAndLikeesCounterexample` | `DatingRepository.GetUsersIntended` |

`DatingRepository.GetUsers` keeps the behaviour as written, because the service really behaves
that way. `DatingRepository.GetUsersIntended` differs from it only in the relation the likees
filter reads. The two are the same whenever `Likers` is not set.

## Left out

- `Add`, `Delete` and `SaveAll` (lines 16-22 and 99-101) are left out. They are Entity
  Framework change tracking and database writes, not query logic.
- `Include` and `ThenInclude` are left out. The model's records do not carry the photos,
  senders or recipients these calls load.
- `async`, `await` and the `...Async` query operators are left out. Every query is a
  function over a snapshot of the tables.
- `PagedList<T>.CreateAsync` (lines 96 and 123) is left out, because `PagedList` is not
  part of this model. `GetUsers` and `GetMessagesForUser` return the sequence that is
  handed to it.
- `DateTime.Now` is the parameter `now`. `Ordinal` is not the .NET tick count, but it
  orders valid dates the same way (`Dates.OrdinalOrder`). `DateTimeKind` is left out.
- `GetUserLikes` dereferences `null` when its user does not exist (line 47, then 51 or 55).
  The model requires the user to exist instead, and so does `GetUsers` when `Likers` or
  `Likees` is set.
- Row order for equal sort keys is fixed in the model by one insertion sort. A database
  may order such rows differently, and differently from one query to the next. The
  membership, multiplicity and descending-order contracts hold for any tie order. Four
  lemmas depend on the model's tie order: `DatingRepository.DefaultOrderIsActivityOrder`,
  `DatingRepository.ThreadIsSymmetric` and `DatingRepository.LikersAndLikeesIsLikers`
  equate the results of two queries as sequences, and `Sequences.SortDescOfSorted` is about
  the sort itself.
- DatingRepository.GetUsers: reads the clock once, as `now`, for both ends of the age
  window. The code reads `DateTime.Now` twice (lines 79 and 80). When the two reads fall
  on either side of midnight, the upper end moves one day later, and the list can include
  someone who is still one day short of `MinAge` at the first reading. `DatingRepository.AgeWindowIsAgeRange`
  holds only for a single reading.
- `DatingRepository.GetUsers` does not model 32-bit wrap-around in `-MaxAge - 1` and
  `-MinAge`. Wrap-around changes these values only when an age is `int.MinValue`. In that
  case both the wrapped and the unwrapped value are outside the range `AddYears` accepts,
  so the call throws either way.
- `OrderBy` is `""` for both a missing and an empty value, since `IsNullOrEmpty` treats
  them alike. Other `null` strings are not modelled.
- String equality is exact. A database collation that compares `Gender` without regard
  to case is not modelled.
- `app.module.ts`, `member-list.component.ts`, `messages.resolver.ts` and
  `home.component.ts` are left out. They are Angular wiring and presentation state. Their
  defaults (ages 18 and 99, page size 5, container `"Unread"`) reach the model only as
  parameter values.
