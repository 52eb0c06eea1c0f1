/**
 * The whole database as one object: the user, friendship, friend-request, message and post
 * tables, with every view of socsetapp/views.py that changes them as a method. The caller's id,
 * which the framework takes from the authenticated request, is an explicit parameter; the
 * creation time of a message is one too. Each method checks its preconditions in the source's
 * order, then changes the tables row by row, and is proved to agree with the step function of
 * its component module, whose properties are proved there.
 */
module Store {
  import opened Base
  import opened Identity
  import Relationships
  import Feed
  import Messaging

  class SocialStore {
    var users: seq<User>
    var nextUserId: nat
    var friendships: set<Pair>
    var requests: set<Pair>
    var messages: seq<Messaging.Message>
    var nextMessageId: nat
    var posts: map<PostId, Feed.Post>
    var nextPostId: nat

    /** The schema's constraints and the invariants the views keep. */
    ghost predicate Valid()
      reads this
    {
      && UniqueAccounts(users)
      && OrderedByKey(users)
      && (forall i | 0 <= i < |users| :: users[i].id < nextUserId)
      && Relationships.Valid(Tables(), UserIds(users))
      && Messaging.DistinctIds(messages)
      && (forall i | 0 <= i < |messages| ::
            && messages[i].id < nextMessageId
            && messages[i].sender in UserIds(users)
            && messages[i].recipient in UserIds(users)
            && !messages[i].isRead)
      && Feed.Within(posts, UserIds(users), nextPostId)
    }

    /** The two relationship tables. */
    function Tables(): Relationships.Graph
      reads this
    {
      Relationships.Graph(friendships, requests)
    }

    constructor ()
      ensures Valid()
      ensures users == [] && friendships == {} && requests == {} && messages == [] && posts == map[]
      ensures nextUserId == 1 && nextMessageId == 1 && nextPostId == 1
    {
      users, nextUserId := [], 1;
      friendships, requests := {}, {};
      messages, nextMessageId := [], 1;
      posts, nextPostId := map[], 1;
    }

    // -------------------------------------------------------------------------------------------
    // Users

    /** UserManager.create_user: validation, then one new row under the next primary key. */
    method CreateUser(username: string, email: string, extras: ExtraFields) returns (r: Result<UserId>)
      requires Valid()
      modifies this
      ensures Valid()
      ensures var n := NewUser(old(users), old(nextUserId), username, email, extras);
        && (n.Failure? ==> r == Failure(n.error) && users == old(users))
        && (n.Success? ==> r == Success(old(nextUserId)) && users == old(users) + [n.value])
        && nextUserId == if n.Success? then old(nextUserId) + 1 else old(nextUserId)
      ensures Tables() == old(Tables()) && messages == old(messages) && posts == old(posts)
      ensures nextMessageId == old(nextMessageId) && nextPostId == old(nextPostId)
    {
      if email == "" {
        return Failure(EmptyEmail);
      }
      if username == "" {
        return Failure(EmptyUsername);
      }
      if UsernameTaken(users, username) {
        return Failure(DuplicateUsername);
      }
      if EmailTaken(users, email) {
        return Failure(DuplicateEmail);
      }
      var user := User(nextUserId, username, email,
                       GetOr(extras.isActive, true),
                       GetOr(extras.isStaff, false),
                       GetOr(extras.isSuperuser, false));
      UserIdsSnoc(users, user);
      users := users + [user];
      r := Success(nextUserId);
      nextUserId := nextUserId + 1;
    }

    /** UserManager.create_superuser: staff and superuser by default, then exactly create_user. */
    method CreateSuperuser(username: string, email: string, extras: ExtraFields) returns (r: Result<UserId>)
      requires Valid()
      modifies this
      ensures Valid()
      ensures var n := NewUser(old(users), old(nextUserId), username, email, SuperuserExtras(extras));
        && (n.Failure? ==> r == Failure(n.error) && users == old(users))
        && (n.Success? ==> r == Success(old(nextUserId)) && users == old(users) + [n.value])
        && nextUserId == if n.Success? then old(nextUserId) + 1 else old(nextUserId)
      ensures Tables() == old(Tables()) && messages == old(messages) && posts == old(posts)
      ensures nextMessageId == old(nextMessageId) && nextPostId == old(nextPostId)
    {
      r := CreateUser(username, email, SuperuserExtras(extras));
    }

    // -------------------------------------------------------------------------------------------
    // Relationships

    /** SendFriendRequestView. */
    method SendFriendRequest(caller: UserId, target: UserId) returns (r: Outcome)
      requires Valid() && caller in UserIds(users)
      modifies this
      ensures Valid()
      ensures var s := Relationships.SendRequest(old(Tables()), UserIds(old(users)), caller, target);
        r == s.outcome && Tables() == s.graph
      ensures users == old(users) && messages == old(messages) && posts == old(posts)
      ensures nextUserId == old(nextUserId) && nextMessageId == old(nextMessageId) && nextPostId == old(nextPostId)
    {
      if target !in UserIds(users) {
        return Err(UserNotFound);
      }
      if caller == target {
        return Err(SelfTarget);
      }
      if (caller, target) in friendships || (target, caller) in friendships {
        return Err(AlreadyFriends);
      }
      if (caller, target) in requests {
        return Exists;
      }
      requests := requests + {(caller, target)};
      return Created;
    }

    /** AcceptFriendRequestView. */
    method AcceptFriendRequest(caller: UserId, from: UserId) returns (r: Outcome)
      requires Valid() && caller in UserIds(users)
      modifies this
      ensures Valid()
      ensures var s := Relationships.AcceptRequest(old(Tables()), UserIds(old(users)), caller, from);
        r == s.outcome && Tables() == s.graph
      ensures users == old(users) && messages == old(messages) && posts == old(posts)
      ensures nextUserId == old(nextUserId) && nextMessageId == old(nextMessageId) && nextPostId == old(nextPostId)
    {
      if from !in UserIds(users) {
        return Err(UserNotFound);
      }
      if caller == from {
        return Err(SelfTarget);
      }
      if (from, caller) !in requests {
        return Err(RequestNotFound);
      }
      if (caller, from) in friendships || (from, caller) in friendships {
        return Err(AlreadyFriends);
      }
      friendships := friendships + {(caller, from)};
      friendships := friendships + {(from, caller)};
      requests := requests - {(from, caller)};
      return Ok;
    }

    /** DeclineFriendRequestView. */
    method DeclineFriendRequest(caller: UserId, from: UserId) returns (r: Outcome)
      requires Valid() && caller in UserIds(users)
      modifies this
      ensures Valid()
      ensures var s := Relationships.DeclineRequest(old(Tables()), UserIds(old(users)), caller, from);
        r == s.outcome && Tables() == s.graph
      ensures users == old(users) && messages == old(messages) && posts == old(posts)
      ensures nextUserId == old(nextUserId) && nextMessageId == old(nextMessageId) && nextPostId == old(nextPostId)
    {
      if from !in UserIds(users) {
        return Err(UserNotFound);
      }
      if (from, caller) !in requests {
        return Err(RequestNotFound);
      }
      requests := requests - {(from, caller)};
      return Ok;
    }

    /** RemoveFriendView. */
    method RemoveFriend(caller: UserId, friend: UserId) returns (r: Outcome)
      requires Valid() && caller in UserIds(users)
      modifies this
      ensures Valid()
      ensures var s := Relationships.RemoveFriend(old(Tables()), UserIds(old(users)), caller, friend);
        r == s.outcome && Tables() == s.graph
      ensures users == old(users) && messages == old(messages) && posts == old(posts)
      ensures nextUserId == old(nextUserId) && nextMessageId == old(nextMessageId) && nextPostId == old(nextPostId)
    {
      if friend !in UserIds(users) {
        return Err(UserNotFound);
      }
      var forward := (caller, friend) in friendships;
      var backward := (friend, caller) in friendships;
      if forward || backward {
        if forward {
          friendships := friendships - {(caller, friend)};
        }
        if backward {
          friendships := friendships - {(friend, caller)};
        }
        Relationships.RemovePreservesValid(old(Tables()), UserIds(users), caller, friend);
        return Ok;
      }
      return Err(NotFriends);
    }

    // -------------------------------------------------------------------------------------------
    // Posts

    /** PostViewSet.perform_create: a new post by the caller under the next primary key. */
    method CreatePost(caller: UserId, content: string) returns (r: Outcome)
      requires Valid() && caller in UserIds(users)
      modifies this
      ensures Valid()
      ensures var s := Feed.CreatePost(old(posts), old(nextPostId), caller, content);
        r == s.outcome && posts == s.posts
      ensures old(nextPostId) !in old(posts)
      ensures nextPostId == if r == Created then old(nextPostId) + 1 else old(nextPostId)
      ensures users == old(users) && Tables() == old(Tables()) && messages == old(messages)
      ensures nextUserId == old(nextUserId) && nextMessageId == old(nextMessageId)
    {
      if content == "" {
        return Err(InvalidContent);
      }
      posts := posts[nextPostId := Feed.Post(caller, content, {})];
      nextPostId := nextPostId + 1;
      return Created;
    }

    /** PostViewSet.destroy with perform_destroy. */
    method DeletePost(caller: UserId, id: PostId) returns (r: Outcome)
      requires Valid()
      modifies this
      ensures Valid()
      ensures var s := Feed.DeletePost(old(posts), old(friendships), caller, id);
        r == s.outcome && posts == s.posts
      ensures users == old(users) && Tables() == old(Tables()) && messages == old(messages)
      ensures nextUserId == old(nextUserId) && nextMessageId == old(nextMessageId) && nextPostId == old(nextPostId)
    {
      if id !in Feed.Visible(posts, friendships, caller) {
        return Err(PostNotFound);
      }
      if posts[id].author != caller {
        return Err(PermissionDenied);
      }
      posts := posts - {id};
      return Ok;
    }

    /** PostViewSet.like. */
    method LikePost(caller: UserId, id: PostId) returns (r: Outcome)
      requires Valid() && caller in UserIds(users)
      modifies this
      ensures Valid()
      ensures var s := Feed.Like(old(posts), old(friendships), caller, id);
        r == s.outcome && posts == s.posts
      ensures users == old(users) && Tables() == old(Tables()) && messages == old(messages)
      ensures nextUserId == old(nextUserId) && nextMessageId == old(nextMessageId) && nextPostId == old(nextPostId)
    {
      if id !in Feed.Visible(posts, friendships, caller) {
        return Err(PostNotFound);
      }
      var post := posts[id];
      if caller in post.likes {
        return Err(AlreadyLiked);
      }
      Feed.LikeKeepsWithin(posts, UserIds(users), nextPostId, id, caller);
      posts := posts[id := post.(likes := post.likes + {caller})];
      return Created;
    }

    /** PostViewSet.unlike. */
    method UnlikePost(caller: UserId, id: PostId) returns (r: Outcome)
      requires Valid()
      modifies this
      ensures Valid()
      ensures var s := Feed.Unlike(old(posts), old(friendships), caller, id);
        r == s.outcome && posts == s.posts
      ensures users == old(users) && Tables() == old(Tables()) && messages == old(messages)
      ensures nextUserId == old(nextUserId) && nextMessageId == old(nextMessageId) && nextPostId == old(nextPostId)
    {
      if id !in Feed.Visible(posts, friendships, caller) {
        return Err(PostNotFound);
      }
      var post := posts[id];
      if caller !in post.likes {
        return Err(NotLiked);
      }
      Feed.UnlikeKeepsWithin(posts, UserIds(users), nextPostId, id, caller);
      posts := posts[id := post.(likes := post.likes - {caller})];
      return Ok;
    }

    /** UnlikePostView. */
    method UnlikePostView(caller: UserId, id: PostId) returns (r: Outcome)
      requires Valid()
      modifies this
      ensures Valid()
      ensures var s := Feed.UnlikeView(old(posts), caller, id);
        r == s.outcome && posts == s.posts
      ensures users == old(users) && Tables() == old(Tables()) && messages == old(messages)
      ensures nextUserId == old(nextUserId) && nextMessageId == old(nextMessageId) && nextPostId == old(nextPostId)
    {
      if id !in posts {
        return Err(PostNotFound);
      }
      var post := posts[id];
      if caller in post.likes {
        posts := posts[id := post.(likes := post.likes - {caller})];
        return Ok;
      }
      return Err(NotLiked);
    }

    // -------------------------------------------------------------------------------------------
    // Messages

    /** SendMessageView: the recipient must exist and the content must not be empty; the new message is unread. */
    method SendMessage(caller: UserId, recipient: UserId, content: string, now: int) returns (r: Outcome)
      requires Valid() && caller in UserIds(users)
      modifies this
      ensures Valid()
      ensures recipient !in UserIds(old(users)) ==> r == Err(UserNotFound)
      ensures recipient in UserIds(old(users)) && content == "" ==> r == Err(InvalidContent)
      ensures r == Created <==> recipient in UserIds(old(users)) && content != ""
      ensures r != Created ==> messages == old(messages)
      ensures r == Created ==>
        messages == old(messages) + [Messaging.Message(old(nextMessageId), caller, recipient, content, now, false)]
      ensures nextMessageId == if r == Created then old(nextMessageId) + 1 else old(nextMessageId)
      ensures users == old(users) && Tables() == old(Tables()) && posts == old(posts)
      ensures nextUserId == old(nextUserId) && nextPostId == old(nextPostId)
    {
      if recipient !in UserIds(users) {
        return Err(UserNotFound);
      }
      if content == "" {
        return Err(InvalidContent);
      }
      var m := Messaging.Message(nextMessageId, caller, recipient, content, now, false);
      assert m.id !in Messaging.Ids(messages);
      Messaging.SnocDistinct(messages, m);
      messages := messages + [m];
      nextMessageId := nextMessageId + 1;
      return Created;
    }

    // -------------------------------------------------------------------------------------------
    // What the queries see of a valid store

    /** The conversation view of a valid store holds exactly the messages between the two users. */
    lemma ConversationIsExact(u: UserId, other: UserId, m: Messaging.Message)
      requires Valid()
      ensures Messaging.Conversation(messages, u, other).Failure? <==>
        forall x | x in messages :: !Messaging.Involves(x, u, other)
      ensures Messaging.Conversation(messages, u, other).Success? ==>
        (m in Messaging.Conversation(messages, u, other).value <==> m in messages && Messaging.Involves(m, u, other))
    {
      Messaging.DistinctIdsDetermineRows(messages);
      Messaging.ConversationContents(messages, u, other, m);
    }

    /** In a valid store a post is in the feed of `u` exactly when `u` wrote it or `u` and its author are friends. */
    lemma FeedIsOwnAndFriends(u: UserId, id: PostId)
      requires Valid()
      ensures id in Feed.Visible(posts, friendships, u) <==>
        id in posts && (posts[id].author == u || Relationships.AreFriends(friendships, u, posts[id].author))
    {
      Feed.VisibleToEitherFriend(posts, friendships, u, id);
    }
  }

  /**
   * A request, an accept, a post, a like and an unlike in sequence, on any valid store: `a` asks `b`, `b` accepts, `a` posts, `b` sees
   * the post, likes it (one like) and unlikes it (no likes).
   */
  method FriendshipScenario(store: SocialStore, a: UserId, b: UserId)
      returns (sent: Outcome, accepted: Outcome, seen: bool, liked: Outcome, likesAfterLike: nat,
               unliked: Outcome, likesAfterUnlike: nat)
    requires store.Valid()
    requires a in UserIds(store.users) && b in UserIds(store.users) && a != b
    requires !Relationships.AreFriends(store.friendships, a, b) && (a, b) !in store.requests
    modifies store
    ensures store.Valid()
    ensures sent == Created && accepted == Ok && seen
    ensures liked == Created && likesAfterLike == 1
    ensures unliked == Ok && likesAfterUnlike == 0
    ensures (a, b) in store.friendships && (b, a) in store.friendships
  {
    sent := store.SendFriendRequest(a, b);
    accepted := store.AcceptFriendRequest(b, a);
    var postId := store.nextPostId;
    var created := store.CreatePost(a, "hello");
    assert postId in store.posts && store.posts[postId] == Feed.Post(a, "hello", {});
    Feed.VisibleIff(store.posts, store.friendships, b, postId);
    seen := postId in Feed.Visible(store.posts, store.friendships, b);
    ghost var before := store.posts;
    Feed.FriendLikesAndUnlikes(before, store.friendships, b, postId);
    liked := store.LikePost(b, postId);
    likesAfterLike := Feed.LikeCount(store.posts[postId]);
    unliked := store.UnlikePost(b, postId);
    likesAfterUnlike := Feed.LikeCount(store.posts[postId]);
  }
}
