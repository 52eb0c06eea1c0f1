/** Identifiers, error kinds and view outcomes shared by every part of the store. */
module Base {

  /** Primary keys are positive auto-increment integers; `nat` keeps them unbounded. */
  type UserId = nat
  type PostId = nat
  type MessageId = nat

  /** An ordered pair of users: a Friendship row (user, friend) or a FriendRequest row (from_user, to_user). */
  type Pair = (UserId, UserId)

  /** The failures a view reports instead of acting. */
  datatype Error =
    | UserNotFound       // get_object_or_404 on a user id
    | SelfTarget         // the caller named themselves
    | AlreadyFriends     // a Friendship row exists in either direction
    | RequestNotFound    // no FriendRequest (from, caller)
    | NotFriends         // no Friendship row in either direction
    | PostNotFound       // no such post, or (through PostViewSet) not visible to the caller
    | PermissionDenied   // deleting someone else's post
    | AlreadyLiked
    | NotLiked
    | NoConversation     // an empty conversation is reported, not returned
    | EmptyQuery         // the search view got no username parameter
    | NoMatch            // the search matched nobody
    | EmptyEmail
    | EmptyUsername
    | DuplicateUsername  // the unique constraint on User.username
    | DuplicateEmail     // the unique constraint on User.email
    | InvalidContent     // the serializer refused empty content

  /** What a state-changing view reports: a row was created, an existing one was found, it acted, or it failed. */
  datatype Outcome = Created | Exists | Ok | Err(kind: Error)

  datatype Option<T> = None | Some(value: T)

  datatype Result<T> = Success(value: T) | Failure(error: Error)

  function GetOr<T>(o: Option<T>, default: T): T
  {
    match o
    case Some(v) => v
    case None => default
  }
}
