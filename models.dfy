/** The records the repository reads (the entity classes and the query parameter classes of the
    API), reduced to the fields the queries use. */
module Models {
  import opened Dates

  /** A member of the site. */
  datatype User = User(
    id: int,
    gender: string,
    dateOfBirth: DateTime,
    created: DateTime,
    lastActive: DateTime)

  /** A photo uploaded by the user `userId`; at most one is meant to be the main photo. */
  datatype Photo = Photo(id: int, userId: int, isMain: bool)

  /** The user `likerId` likes the user `likeeId`. */
  datatype Like = Like(likerId: int, likeeId: int)

  /** A message from `senderId` to `recipientId`. */
  datatype Message = Message(
    id: int,
    senderId: int,
    recipientId: int,
    isRead: bool,
    messageSent: DateTime)

  /** A snapshot of the four tables the repository queries, each in the order the store yields
      its rows. A user's `Likers` are the likes whose likee is that user, and its `Likees` the
      likes whose liker is that user. */
  datatype DataContext = DataContext(
    users: seq<User>,
    photos: seq<Photo>,
    likes: seq<Like>,
    messages: seq<Message>)

  /** The filters of the member list. `orderBy` is `""` both for an empty and a missing value,
      which the query treats alike. The page fields are only handed on to the pagination. */
  datatype UserParams = UserParams(
    pageNumber: int,
    pageSize: int,
    userId: int,
    gender: string,
    minAge: int,
    maxAge: int,
    likers: bool,
    likees: bool,
    orderBy: string)

  /** The filters of the message list; `messageContainer` is `"Inbox"`, `"Outbox"` or anything
      else, which selects the unread messages. */
  datatype MessageParams = MessageParams(
    pageNumber: int,
    pageSize: int,
    userId: int,
    messageContainer: string)
}
