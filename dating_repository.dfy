/** The query layer of the API's data access (`DatingRepository`): single-record lookups, the
    filtered and ordered member list, likes, and the message lists. Every query reads a snapshot
    of the tables and returns the sequence it hands to the pagination, or the record it finds. */
module DatingRepository {
  import opened Wrappers
  import opened Dates
  import opened Sequences
  import opened Models

  /** Some like in `likes` says that `liker` likes `likee`. */
  ghost predicate LikesUser(likes: seq<Like>, liker: int, likee: int) {
    exists i :: 0 <= i < |likes| && likes[i].likerId == liker && likes[i].likeeId == likee
  }

  // ---------------------------------------------------------------------------------------
  // Single-record lookups (`FirstOrDefault`): the first matching row, or `None` for null.

  /** The like of `userId` for `recipientId`, if there is one. */
  function GetLike(ctx: DataContext, userId: int, recipientId: int): (r: Option<Like>)
    ensures r.None? <==> !LikesUser(ctx.likes, userId, recipientId)
    ensures r.Some? ==> r.value.likerId == userId && r.value.likeeId == recipientId
    ensures r.Some? ==>
      exists i :: 0 <= i < |ctx.likes| && ctx.likes[i] == r.value &&
        forall j :: 0 <= j < i ==> !(ctx.likes[j].likerId == userId && ctx.likes[j].likeeId == recipientId)
  {
    FirstWhere(ctx.likes, (l: Like) => l.likerId == userId && l.likeeId == recipientId)
  }

  /** The main photo of `userId`: the user's photos first, then the first of them marked main. */
  function GetMainPhotoForUser(ctx: DataContext, userId: int): (r: Option<Photo>)
    ensures r.None? <==> forall i :: 0 <= i < |ctx.photos| ==> !(ctx.photos[i].userId == userId && ctx.photos[i].isMain)
    ensures r.Some? ==> r.value.userId == userId && r.value.isMain
    ensures r.Some? ==>
      exists i :: 0 <= i < |ctx.photos| && ctx.photos[i] == r.value &&
        forall j :: 0 <= j < i ==> !(ctx.photos[j].userId == userId && ctx.photos[j].isMain)
  {
    var owned := (p: Photo) => p.userId == userId;
    var main := (p: Photo) => p.isMain;
    FilterThenFirst(ctx.photos, owned, main);
    FirstWhere(Filter(ctx.photos, owned), main)
  }

  /** The photo with the given id. */
  function GetPhoto(ctx: DataContext, id: int): (r: Option<Photo>)
    ensures r.None? <==> forall i :: 0 <= i < |ctx.photos| ==> ctx.photos[i].id != id
    ensures r.Some? ==> r.value.id == id
    ensures r.Some? ==>
      exists i :: 0 <= i < |ctx.photos| && ctx.photos[i] == r.value &&
        forall j :: 0 <= j < i ==> ctx.photos[j].id != id
  {
    FirstWhere(ctx.photos, (p: Photo) => p.id == id)
  }

  /** The user with the given id. */
  function GetUser(ctx: DataContext, id: int): (r: Option<User>)
    ensures r.None? <==> forall i :: 0 <= i < |ctx.users| ==> ctx.users[i].id != id
    ensures r.Some? ==> r.value.id == id
    ensures r.Some? ==>
      exists i :: 0 <= i < |ctx.users| && ctx.users[i] == r.value &&
        forall j :: 0 <= j < i ==> ctx.users[j].id != id
  {
    FirstWhere(ctx.users, (u: User) => u.id == id)
  }

  /** The message with the given id. */
  function GetMessage(ctx: DataContext, id: int): (r: Option<Message>)
    ensures r.None? <==> forall i :: 0 <= i < |ctx.messages| ==> ctx.messages[i].id != id
    ensures r.Some? ==> r.value.id == id
    ensures r.Some? ==>
      exists i :: 0 <= i < |ctx.messages| && ctx.messages[i] == r.value &&
        forall j :: 0 <= j < i ==> ctx.messages[j].id != id
  {
    FirstWhere(ctx.messages, (m: Message) => m.id == id)
  }

  // ---------------------------------------------------------------------------------------
  // Likes

  /** The ids of the users who like `id` (`likers`), or of the users `id` likes. The user is
      looked up first and must exist. */
  function GetUserLikes(ctx: DataContext, id: int, likers: bool): (ids: seq<int>)
    requires GetUser(ctx, id).Some?
    ensures likers ==> forall x :: x in ids <==> LikesUser(ctx.likes, x, id)
    ensures !likers ==> forall x :: x in ids <==> LikesUser(ctx.likes, id, x)
  {
    var mine := if likers then (l: Like) => l.likeeId == id else (l: Like) => l.likerId == id;
    var other := if likers then (l: Like) => l.likerId else (l: Like) => l.likeeId;
    SelectOfFilter(ctx.likes, mine, other);
    Select(Filter(ctx.likes, mine), other)
  }

  /** A like of `a` for `b` is found exactly when `a` is among `b`'s likers and `b` among the
      users `a` likes. */
  lemma LikeLookupAgreesWithUserLikes(ctx: DataContext, a: int, b: int)
    requires GetUser(ctx, a).Some? && GetUser(ctx, b).Some?
    ensures GetLike(ctx, a, b).Some? <==> a in GetUserLikes(ctx, b, true)
    ensures GetLike(ctx, a, b).Some? <==> b in GetUserLikes(ctx, a, false)
  {
  }

  // ---------------------------------------------------------------------------------------
  // The member list

  /** The age limits for which no date-of-birth filter is applied. */
  const DefaultMinAge: int := 18
  const DefaultMaxAge: int := 99

  /** The date-of-birth filter applies only when an age limit differs from its default. */
  predicate FiltersByAge(minAge: int, maxAge: int) {
    minAge != DefaultMinAge || maxAge != DefaultMaxAge
  }

  /** Both ends of the date-of-birth window lie in years `DateTime` can hold. */
  predicate AgeBoundsDefined(minAge: int, maxAge: int, now: DateTime) {
    1 <= now.year - maxAge - 1 <= 9999 && 1 <= now.year - minAge <= 9999
  }

  function CreatedKey(u: User): int { Ordinal(u.created) }
  function LastActiveKey(u: User): int { Ordinal(u.lastActive) }

  /** The key the list ends up ordered by: `Created` for `"created"`, `LastActive` otherwise. */
  function OrderKey(orderBy: string): User -> int {
    if orderBy == "created" then CreatedKey else LastActiveKey
  }

  function NotUser(id: int): User -> bool { (u: User) => u.id != id }
  function OfGender(gender: string): User -> bool { (u: User) => u.gender == gender }
  function IdIn(ids: seq<int>): User -> bool { (u: User) => u.id in ids }
  function BornWithin(minDob: DateTime, maxDob: DateTime): User -> bool {
    (u: User) => Ordinal(u.dateOfBirth) >= Ordinal(minDob) && Ordinal(u.dateOfBirth) <= Ordinal(maxDob)
  }

  /** The users ordered by last activity and then filtered by self, gender, likers and likees.
      The likees filter asks `GetUserLikes` for the relation chosen by `likeesFlag`. */
  function Candidates(ctx: DataContext, p: UserParams, likeesFlag: bool): seq<User>
    requires (p.likers || p.likees) ==> GetUser(ctx, p.userId).Some?
  {
    var byActivity := SortDesc(ctx.users, LastActiveKey);
    var others := Filter(byActivity, NotUser(p.userId));
    var sameGender := Filter(others, OfGender(p.gender));
    var liking :=
      if p.likers then Filter(sameGender, IdIn(GetUserLikes(ctx, p.userId, p.likers)))
      else sameGender;
    if p.likees then Filter(liking, IdIn(GetUserLikes(ctx, p.userId, likeesFlag)))
    else liking
  }

  /** The date-of-birth filter, which computes `minDob` before `maxDob`. */
  function AgeFilter(users: seq<User>, minAge: int, maxAge: int, now: DateTime): Result<seq<User>>
    requires Valid(now)
  {
    if FiltersByAge(minAge, maxAge) then
      match AddYears(now, -maxAge - 1)
      case Failure(e) => Failure(e)
      case Ok(minDob) =>
        match AddYears(now, -minAge)
        case Failure(e) => Failure(e)
        case Ok(maxDob) => Ok(Filter(users, BornWithin(minDob, maxDob)))
    else Ok(users)
  }

  /** A non-empty `orderBy` orders the list again, by `Created` for `"created"` and by
      `LastActive` for every other value; an empty one keeps the order by last activity. */
  function ApplyOrderBy(users: seq<User>, orderBy: string): (r: seq<User>)
    ensures multiset(r) == multiset(users)
    ensures orderBy == "" ==> r == users
    ensures orderBy != "" ==> SortedDesc(r, OrderKey(orderBy))
    ensures SortedDesc(users, LastActiveKey) ==> SortedDesc(r, OrderKey(orderBy))
  {
    if orderBy == "" then users else SortDesc(users, OrderKey(orderBy))
  }

  /** The whole chain, with the relation of the likees filter as a parameter. */
  function QueryUsers(ctx: DataContext, p: UserParams, now: DateTime, likeesFlag: bool): Result<seq<User>>
    requires Valid(now)
    requires (p.likers || p.likees) ==> GetUser(ctx, p.userId).Some?
  {
    match AgeFilter(Candidates(ctx, p, likeesFlag), p.minAge, p.maxAge, now)
    case Failure(e) => Failure(e)
    case Ok(aged) => Ok(ApplyOrderBy(aged, p.orderBy))
  }

  /** The date of birth lies in the window `now.AddYears(-maxAge - 1) <= dob <= now.AddYears(-minAge)`. */
  ghost predicate InAgeWindow(dob: DateTime, minAge: int, maxAge: int, now: DateTime)
    requires Valid(now)
  {
    var minDob := AddYears(now, -maxAge - 1);
    var maxDob := AddYears(now, -minAge);
    minDob.Ok? && maxDob.Ok? && Ordinal(minDob.value) <= Ordinal(dob) <= Ordinal(maxDob.value)
  }

  /** The users a query keeps, stated clause by clause. With `likeesFlag` set, the likees clause
      asks for users who like `userId`; without it, for users `userId` likes. */
  ghost predicate Selected(ctx: DataContext, p: UserParams, now: DateTime, likeesFlag: bool, u: User)
    requires Valid(now)
  {
    && u.id != p.userId
    && u.gender == p.gender
    && (p.likers ==> LikesUser(ctx.likes, u.id, p.userId))
    && (p.likees ==>
          if likeesFlag then LikesUser(ctx.likes, u.id, p.userId) else LikesUser(ctx.likes, p.userId, u.id))
    && (FiltersByAge(p.minAge, p.maxAge) ==> InAgeWindow(u.dateOfBirth, p.minAge, p.maxAge, now))
  }

  /** The filters before the age filter keep the order by last activity and keep exactly the
      users that pass them, each as often as in the table. */
  lemma CandidatesSelect(ctx: DataContext, p: UserParams, likeesFlag: bool)
    requires (p.likers || p.likees) ==> GetUser(ctx, p.userId).Some?
    ensures SortedDesc(Candidates(ctx, p, likeesFlag), LastActiveKey)
    ensures forall u ::
      multiset(Candidates(ctx, p, likeesFlag))[u] ==
        if && u.id != p.userId && u.gender == p.gender
           && (p.likers ==> LikesUser(ctx.likes, u.id, p.userId))
           && (p.likees ==>
                 if likeesFlag then LikesUser(ctx.likes, u.id, p.userId)
                 else LikesUser(ctx.likes, p.userId, u.id))
        then multiset(ctx.users)[u] else 0
  {
    var byActivity := SortDesc(ctx.users, LastActiveKey);
    var others := Filter(byActivity, NotUser(p.userId));
    FilterMultiset(byActivity, NotUser(p.userId));
    FilterKeepsSorted(byActivity, NotUser(p.userId), LastActiveKey);
    var sameGender := Filter(others, OfGender(p.gender));
    FilterMultiset(others, OfGender(p.gender));
    FilterKeepsSorted(others, OfGender(p.gender), LastActiveKey);
    var liking := sameGender;
    if p.likers {
      var ids := GetUserLikes(ctx, p.userId, p.likers);
      liking := Filter(sameGender, IdIn(ids));
      FilterMultiset(sameGender, IdIn(ids));
      FilterKeepsSorted(sameGender, IdIn(ids), LastActiveKey);
    }
    if p.likees {
      var ids := GetUserLikes(ctx, p.userId, likeesFlag);
      FilterMultiset(liking, IdIn(ids));
      FilterKeepsSorted(liking, IdIn(ids), LastActiveKey);
    }
  }

  /** The age filter throws exactly when a window end is out of range; otherwise it keeps the
      users in the window (all of them when it does not apply) and their order. */
  lemma AgeFilterSelect(users: seq<User>, minAge: int, maxAge: int, now: DateTime)
    requires Valid(now)
    ensures AgeFilter(users, minAge, maxAge, now).Failure? <==>
      FiltersByAge(minAge, maxAge) && !AgeBoundsDefined(minAge, maxAge, now)
    ensures AgeFilter(users, minAge, maxAge, now).Ok? ==> forall u ::
      multiset(AgeFilter(users, minAge, maxAge, now).value)[u] ==
        if FiltersByAge(minAge, maxAge) ==> InAgeWindow(u.dateOfBirth, minAge, maxAge, now)
        then multiset(users)[u] else 0
    ensures AgeFilter(users, minAge, maxAge, now).Ok? && SortedDesc(users, LastActiveKey) ==>
      SortedDesc(AgeFilter(users, minAge, maxAge, now).value, LastActiveKey)
  {
    if FiltersByAge(minAge, maxAge) && AgeBoundsDefined(minAge, maxAge, now) {
      var minDob := AddYears(now, -maxAge - 1).value;
      var maxDob := AddYears(now, -minAge).value;
      var inWindow := BornWithin(minDob, maxDob);
      assert AgeFilter(users, minAge, maxAge, now) == Ok(Filter(users, inWindow));
      FilterMultiset(users, inWindow);
      assert forall u :: inWindow(u) == InAgeWindow(u.dateOfBirth, minAge, maxAge, now);
      if SortedDesc(users, LastActiveKey) {
        FilterKeepsSorted(users, inWindow, LastActiveKey);
      }
    } else if FiltersByAge(minAge, maxAge) {
      assert AgeFilter(users, minAge, maxAge, now).Failure?;
    } else {
      assert AgeFilter(users, minAge, maxAge, now) == Ok(users);
    }
  }

  /** The chain throws exactly when the age window cannot be computed; otherwise it returns the
      selected users, each as often as in the table, ordered by the requested key. */
  lemma QueryUsersSelect(ctx: DataContext, p: UserParams, now: DateTime, likeesFlag: bool)
    requires Valid(now)
    requires (p.likers || p.likees) ==> GetUser(ctx, p.userId).Some?
    ensures QueryUsers(ctx, p, now, likeesFlag).Failure? <==> FiltersByAge(p.minAge, p.maxAge) && !AgeBoundsDefined(p.minAge, p.maxAge, now)
    ensures QueryUsers(ctx, p, now, likeesFlag).Ok? ==>
      SortedDesc(QueryUsers(ctx, p, now, likeesFlag).value, OrderKey(p.orderBy))
    ensures QueryUsers(ctx, p, now, likeesFlag).Ok? ==> forall u ::
      multiset(QueryUsers(ctx, p, now, likeesFlag).value)[u] ==
        if Selected(ctx, p, now, likeesFlag, u) then multiset(ctx.users)[u] else 0
  {
    var candidates := Candidates(ctx, p, likeesFlag);
    CandidatesSelect(ctx, p, likeesFlag);
    AgeFilterSelect(candidates, p.minAge, p.maxAge, now);
    var aged := AgeFilter(candidates, p.minAge, p.maxAge, now);
    if aged.Ok? {
      var r := ApplyOrderBy(aged.value, p.orderBy);
      assert multiset(r) == multiset(aged.value);
      assert SortedDesc(r, OrderKey(p.orderBy));
    }
  }

  /** `GetUsers` as written: the likees filter asks `GetUserLikes` with the `Likers` flag. The
      result is the sequence handed to the pagination. */
  function GetUsers(ctx: DataContext, p: UserParams, now: DateTime): (r: Result<seq<User>>)
    requires Valid(now)
    requires (p.likers || p.likees) ==> GetUser(ctx, p.userId).Some?
    ensures r.Failure? <==> FiltersByAge(p.minAge, p.maxAge) && !AgeBoundsDefined(p.minAge, p.maxAge, now)
    ensures r.Ok? ==> SortedDesc(r.value, OrderKey(p.orderBy))
    ensures r.Ok? ==> forall u ::
      multiset(r.value)[u] == if Selected(ctx, p, now, p.likers, u) then multiset(ctx.users)[u] else 0
  {
    QueryUsersSelect(ctx, p, now, p.likers);
    QueryUsers(ctx, p, now, p.likers)
  }

  /** Every listed user is a user of the table other than `userId`, of the requested gender,
      who likes `userId` when `Likers` is set and whom `userId` likes when only `Likees` is. */
  lemma GetUsersMembers(ctx: DataContext, p: UserParams, now: DateTime)
    requires Valid(now)
    requires (p.likers || p.likees) ==> GetUser(ctx, p.userId).Some?
    ensures GetUsers(ctx, p, now).Ok? ==> forall u :: u in GetUsers(ctx, p, now).value ==>
      && u in ctx.users && u.id != p.userId && u.gender == p.gender
      && (p.likers ==> LikesUser(ctx.likes, u.id, p.userId))
      && (p.likees && !p.likers ==> LikesUser(ctx.likes, p.userId, u.id))
  {
    var r := GetUsers(ctx, p, now);
    if r.Ok? {
      forall u | u in r.value
        ensures u in ctx.users && u.id != p.userId && u.gender == p.gender
        ensures p.likers ==> LikesUser(ctx.likes, u.id, p.userId)
        ensures p.likees && !p.likers ==> LikesUser(ctx.likes, p.userId, u.id)
      {
        assert multiset(r.value)[u] > 0;
      }
    }
  }

  /** `GetUsers` with the likees filter asking for the users `userId` likes. */
  function GetUsersIntended(ctx: DataContext, p: UserParams, now: DateTime): (r: Result<seq<User>>)
    requires Valid(now)
    requires (p.likers || p.likees) ==> GetUser(ctx, p.userId).Some?
    ensures r.Failure? <==> FiltersByAge(p.minAge, p.maxAge) && !AgeBoundsDefined(p.minAge, p.maxAge, now)
    ensures r.Ok? ==> SortedDesc(r.value, OrderKey(p.orderBy))
    ensures r.Ok? ==> forall u ::
      multiset(r.value)[u] == if Selected(ctx, p, now, false, u) then multiset(ctx.users)[u] else 0
  {
    QueryUsersSelect(ctx, p, now, false);
    QueryUsers(ctx, p, now, false)
  }

  /** With the corrected likees filter every listed user is one `userId` likes when `Likees` is
      set, whether or not `Likers` is set too. */
  lemma GetUsersIntendedMembers(ctx: DataContext, p: UserParams, now: DateTime)
    requires Valid(now)
    requires (p.likers || p.likees) ==> GetUser(ctx, p.userId).Some?
    ensures GetUsersIntended(ctx, p, now).Ok? ==> forall u :: u in GetUsersIntended(ctx, p, now).value ==>
      && u in ctx.users && u.id != p.userId && u.gender == p.gender
      && (p.likers ==> LikesUser(ctx.likes, u.id, p.userId))
      && (p.likees ==> LikesUser(ctx.likes, p.userId, u.id))
  {
    var r := GetUsersIntended(ctx, p, now);
    if r.Ok? {
      forall u | u in r.value
        ensures u in ctx.users && u.id != p.userId && u.gender == p.gender
        ensures p.likers ==> LikesUser(ctx.likes, u.id, p.userId)
        ensures p.likees ==> LikesUser(ctx.likes, p.userId, u.id)
      {
        assert multiset(r.value)[u] > 0;
      }
    }
  }

  /** With both flags set, the list as written is the likers list: the likees filter repeats the
      likers filter. */
  lemma LikersAndLikeesIsLikers(ctx: DataContext, p: UserParams, now: DateTime)
    requires Valid(now) && p.likers && p.likees
    requires GetUser(ctx, p.userId).Some?
    ensures GetUsers(ctx, p, now) == GetUsers(ctx, p.(likees := false), now)
  {
    var q := p.(likees := false);
    var ids := GetUserLikes(ctx, p.userId, true);
    var byActivity := SortDesc(ctx.users, LastActiveKey);
    var sameGender := Filter(Filter(byActivity, NotUser(p.userId)), OfGender(p.gender));
    var liking := Filter(sameGender, IdIn(ids));
    assert Candidates(ctx, q, q.likers) == liking;
    assert Candidates(ctx, p, p.likers) == Filter(liking, IdIn(ids));
    FilterIdempotent(sameGender, IdIn(ids));
    assert q.minAge == p.minAge && q.maxAge == p.maxAge && q.orderBy == p.orderBy;
  }

  /** User 2 likes user 1, user 1 likes nobody. Asking for user 1's likers and likees lists
      user 2 all the same, although user 1 does not like user 2; the corrected query lists
      nobody. */
  lemma LikersAndLikeesCounterexample()
    ensures var now := DateTime(2024, 6, 1, 1);
            var u1 := User(1, "male", DateTime(1990, 1, 1, 0), now, now);
            var u2 := User(2, "female", DateTime(1995, 1, 1, 0), now, now);
            var ctx := DataContext([u1, u2], [], [Like(2, 1)], []);
            var p := UserParams(1, 10, 1, "female", 18, 99, true, true, "");
            && GetUser(ctx, p.userId).Some?
            && GetUsers(ctx, p, now).Ok? && u2 in GetUsers(ctx, p, now).value
            && !LikesUser(ctx.likes, p.userId, u2.id)
            && GetUsersIntended(ctx, p, now) == Ok([])
  {
    var now := DateTime(2024, 6, 1, 1);
    var u1 := User(1, "male", DateTime(1990, 1, 1, 0), now, now);
    var u2 := User(2, "female", DateTime(1995, 1, 1, 0), now, now);
    var ctx := DataContext([u1, u2], [], [Like(2, 1)], []);
    var p := UserParams(1, 10, 1, "female", 18, 99, true, true, "");
    assert ctx.users[0].id == 1;
    assert ctx.likes[0].likerId == 2 && ctx.likes[0].likeeId == 1;
    assert Selected(ctx, p, now, p.likers, u2);
    var asWritten := GetUsers(ctx, p, now).value;
    assert multiset(ctx.users)[u2] > 0;
    assert multiset(asWritten)[u2] > 0;
    var intended := GetUsersIntended(ctx, p, now).value;
    assert forall u: User :: !LikesUser(ctx.likes, p.userId, u.id);
    assert forall u: User :: multiset(intended)[u] == 0;
    assert multiset(intended) == multiset{};
    assert |intended| == |multiset(intended)|;
  }

  /** Any `orderBy` other than `"created"` gives the order of an empty one: ordering again by
      `LastActive` keeps the order by last activity that the query starts from. */
  lemma DefaultOrderIsActivityOrder(ctx: DataContext, p: UserParams, now: DateTime)
    requires Valid(now) && p.orderBy != "created"
    requires (p.likers || p.likees) ==> GetUser(ctx, p.userId).Some?
    ensures GetUsers(ctx, p, now) == GetUsers(ctx, p.(orderBy := ""), now)
  {
    var q := p.(orderBy := "");
    var candidates := Candidates(ctx, p, p.likers);
    assert Candidates(ctx, q, q.likers) == candidates;
    CandidatesSelect(ctx, p, p.likers);
    AgeFilterSelect(candidates, p.minAge, p.maxAge, now);
    var aged := AgeFilter(candidates, p.minAge, p.maxAge, now);
    if aged.Ok? && p.orderBy != "" {
      SortDescOfSorted(aged.value, LastActiveKey);
    }
  }

  /** With the default age limits the clock plays no part and nothing is thrown. */
  lemma DefaultAgesIgnoreClock(ctx: DataContext, p: UserParams, now1: DateTime, now2: DateTime)
    requires Valid(now1) && Valid(now2) && !FiltersByAge(p.minAge, p.maxAge)
    requires (p.likers || p.likees) ==> GetUser(ctx, p.userId).Some?
    ensures GetUsers(ctx, p, now1).Ok?
    ensures GetUsers(ctx, p, now1) == GetUsers(ctx, p, now2)
  {
  }

  /** For dates of birth at midnight and a clock past midnight, the window keeps exactly the
      users whose age lies between `minAge` and `maxAge`, both included. */
  lemma AgeWindowIsAgeRange(dob: DateTime, minAge: int, maxAge: int, now: DateTime)
    requires Valid(now) && now.tick > 0 && Valid(dob) && dob.tick == 0
    requires AgeBoundsDefined(minAge, maxAge, now)
    ensures InAgeWindow(dob, minAge, maxAge, now) <==> minAge <= Age(dob, now) <= maxAge
  {
    BornSinceMeansYounger(dob, now, maxAge + 1);
    BornByMeansAtLeast(dob, now, minAge);
  }

  // ---------------------------------------------------------------------------------------
  // Messages

  function SentKey(m: Message): int { Ordinal(m.messageSent) }

  /** The messages a container shows to `userId`. */
  function InContainer(container: string, userId: int): Message -> bool {
    if container == "Inbox" then (m: Message) => m.recipientId == userId
    else if container == "Outbox" then (m: Message) => m.senderId == userId
    else (m: Message) => m.recipientId == userId && !m.isRead
  }

  /** The messages of one container, newest first: received ones for `"Inbox"`, sent ones for
      `"Outbox"`, received unread ones for any other container. */
  function GetMessagesForUser(ctx: DataContext, mp: MessageParams): (r: seq<Message>)
    ensures SortedDesc(r, SentKey)
    ensures mp.messageContainer == "Inbox" ==>
      forall m :: m in r <==> m in ctx.messages && m.recipientId == mp.userId
    ensures mp.messageContainer == "Outbox" ==>
      forall m :: m in r <==> m in ctx.messages && m.senderId == mp.userId
    ensures mp.messageContainer != "Inbox" && mp.messageContainer != "Outbox" ==>
      forall m :: m in r <==> m in ctx.messages && m.recipientId == mp.userId && !m.isRead
    ensures forall m :: m in r ==> multiset(r)[m] == multiset(ctx.messages)[m]
  {
    var keep := InContainer(mp.messageContainer, mp.userId);
    var kept := Filter(ctx.messages, keep);
    FilterMultiset(ctx.messages, keep);
    SortDescMembers(kept, SentKey);
    SortDesc(kept, SentKey)
  }

  /** The unread container is the unread part of the inbox. */
  lemma UnreadIsWithinInbox(ctx: DataContext, userId: int, container: string, pageNumber: int, pageSize: int)
    requires container != "Inbox" && container != "Outbox"
    ensures forall m :: m in GetMessagesForUser(ctx, MessageParams(pageNumber, pageSize, userId, container)) <==>
      m in GetMessagesForUser(ctx, MessageParams(pageNumber, pageSize, userId, "Inbox")) && !m.isRead
  {
  }

  /** A message sent from `a` to `b` or from `b` to `a`. */
  function Between(a: int, b: int): Message -> bool {
    (m: Message) => (m.recipientId == a && m.senderId == b) || (m.recipientId == b && m.senderId == a)
  }

  /** Every message exchanged between the two users in either direction, newest first. */
  function GetMessageThread(ctx: DataContext, userId: int, recipientId: int): (r: seq<Message>)
    ensures SortedDesc(r, SentKey)
    ensures forall m :: m in r <==>
      m in ctx.messages &&
      ((m.senderId == recipientId && m.recipientId == userId) || (m.senderId == userId && m.recipientId == recipientId))
    ensures forall m :: m in r ==> multiset(r)[m] == multiset(ctx.messages)[m]
  {
    var kept := Filter(ctx.messages, Between(userId, recipientId));
    FilterMultiset(ctx.messages, Between(userId, recipientId));
    SortDescMembers(kept, SentKey);
    SortDesc(kept, SentKey)
  }

  /** The thread is the same whichever of the two users asks for it. */
  lemma ThreadIsSymmetric(ctx: DataContext, a: int, b: int)
    ensures GetMessageThread(ctx, a, b) == GetMessageThread(ctx, b, a)
  {
    FilterAgreeing(ctx.messages, Between(a, b), Between(b, a));
  }
}
