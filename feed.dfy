/**
 * The feed engine: Post rows with their many-to-many like set and like_count (socsetapp/models.py),
 * and PostViewSet (get_queryset, perform_create, perform_destroy, like, unlike) and UnlikePostView
 * (socsetapp/views.py), each mutation as a function from the old post table to its outcome and
 * the new table.
 */
module Feed {
  import opened Base
  import Relationships

  /** A Post row; `likes` is the junction table, so a user likes a post at most once. */
  datatype Post = Post(author: UserId, content: string, likes: set<UserId>)

  /** What a view reports together with the post table it leaves behind. */
  datatype PostStep = PostStep(outcome: Outcome, posts: map<PostId, Post>)

  /** The like_count property: the number of users in the like set; there is no stored counter. */
  function LikeCount(p: Post): (n: nat)
    ensures n == 0 <==> p.likes == {}
    ensures forall u | u in p.likes :: n >= 1
  {
    |p.likes|
  }

  /**
   * PostViewSet.get_queryset: the caller's own posts together with the posts whose author is in
   * the `friend` column of the caller's Friendship rows.
   */
  function Visible(posts: map<PostId, Post>, friends: set<Pair>, u: UserId): (r: set<PostId>)
    ensures r <= posts.Keys
    ensures forall id | id in posts && posts[id].author == u :: id in r
  {
    var friendIds := Relationships.FriendsOf(friends, u);
    var own := set id | id in posts && posts[id].author == u;
    var ofFriends := set id | id in posts && posts[id].author in friendIds;
    own + ofFriends
  }

  /** Every post has a key below `next`, an existing author and only existing users in its like set. */
  predicate Within(posts: map<PostId, Post>, ids: set<UserId>, next: PostId)
  {
    forall id | id in posts :: id < next && posts[id].author in ids && posts[id].likes <= ids
  }

  /** Adding an existing user to one post's like set keeps the foreign keys. */
  lemma LikeKeepsWithin(posts: map<PostId, Post>, ids: set<UserId>, next: PostId, id: PostId, u: UserId)
    requires Within(posts, ids, next) && id in posts && u in ids
    ensures Within(posts[id := posts[id].(likes := posts[id].likes + {u})], ids, next)
  {
  }

  /** Removing a user from one post's like set keeps the foreign keys. */
  lemma UnlikeKeepsWithin(posts: map<PostId, Post>, ids: set<UserId>, next: PostId, id: PostId, u: UserId)
    requires Within(posts, ids, next) && id in posts
    ensures Within(posts[id := posts[id].(likes := posts[id].likes - {u})], ids, next)
  {
  }

  /** A post is visible to `u` exactly when `u` wrote it or `u` has a Friendship row to its author. */
  lemma VisibleIff(posts: map<PostId, Post>, friends: set<Pair>, u: UserId, id: PostId)
    ensures id in Visible(posts, friends, u) <==>
      id in posts && (posts[id].author == u || (u, posts[id].author) in friends)
  {
  }

  /** On a symmetric friendship table it does not matter which direction of the pair is looked at. */
  lemma VisibleToEitherFriend(posts: map<PostId, Post>, friends: set<Pair>, u: UserId, id: PostId)
    requires Relationships.Symmetric(friends)
    ensures id in Visible(posts, friends, u) <==>
      id in posts && (posts[id].author == u || Relationships.AreFriends(friends, u, posts[id].author))
  {
    VisibleIff(posts, friends, u, id);
    if id in posts && (posts[id].author, u) in friends {
      assert ((posts[id].author, u).1, (posts[id].author, u).0) in friends;
    }
  }

  /** perform_create: the author is the caller; empty content is refused by the serializer; a new post has no likes. */
  function CreatePost(posts: map<PostId, Post>, id: PostId, caller: UserId, content: string): (s: PostStep)
    ensures s.outcome == Created || s.outcome == Err(InvalidContent)
    ensures s.outcome == Created <==> content != ""
    ensures s.outcome.Err? ==> s.posts == posts
    ensures s.outcome == Created ==>
      && s.posts.Keys == posts.Keys + {id}
      && s.posts[id].author == caller && s.posts[id].content == content && LikeCount(s.posts[id]) == 0
      && forall k | k in posts && k != id :: s.posts[k] == posts[k]
  {
    if content == "" then PostStep(Err(InvalidContent), posts)
    else PostStep(Created, posts[id := Post(caller, content, {})])
  }

  /**
   * destroy: get_object() looks the post up among the visible ones (404 otherwise), then
   * perform_destroy refuses anyone but the author.
   */
  function DeletePost(posts: map<PostId, Post>, friends: set<Pair>, caller: UserId, id: PostId): (s: PostStep)
    ensures s.outcome == Ok || s.outcome.Err?
    ensures id !in Visible(posts, friends, caller) ==> s.outcome == Err(PostNotFound)
    ensures s.outcome == Ok <==> id in posts && posts[id].author == caller
    ensures s.outcome.Err? ==> s.posts == posts
    ensures s.outcome == Ok ==> s.posts == posts - {id}
    ensures id in posts && posts[id].author != caller && (caller, posts[id].author) in friends ==>
      s.outcome == Err(PermissionDenied)
  {
    VisibleIff(posts, friends, caller, id);
    if id !in Visible(posts, friends, caller) then PostStep(Err(PostNotFound), posts)
    else if posts[id].author != caller then PostStep(Err(PermissionDenied), posts)
    else PostStep(Ok, posts - {id})
  }

  /** PostViewSet.like: 404 for a post the caller cannot see; an existing like is an error, otherwise the caller is added. */
  function Like(posts: map<PostId, Post>, friends: set<Pair>, caller: UserId, id: PostId): (s: PostStep)
    ensures s.outcome == Created || s.outcome.Err?
    ensures id !in Visible(posts, friends, caller) ==> s.outcome == Err(PostNotFound)
    ensures id in Visible(posts, friends, caller) && caller in posts[id].likes ==> s.outcome == Err(AlreadyLiked)
    ensures s.outcome == Created <==> id in Visible(posts, friends, caller) && caller !in posts[id].likes
    ensures s.outcome.Err? ==> s.posts == posts
    ensures s.outcome == Created ==>
      && s.posts.Keys == posts.Keys
      && s.posts[id] == posts[id].(likes := posts[id].likes + {caller})
      && LikeCount(s.posts[id]) == LikeCount(posts[id]) + 1
      && forall k | k in posts && k != id :: s.posts[k] == posts[k]
  {
    if id !in Visible(posts, friends, caller) then PostStep(Err(PostNotFound), posts)
    else if caller in posts[id].likes then PostStep(Err(AlreadyLiked), posts)
    else
      var p := posts[id];
      PostStep(Created, posts[id := p.(likes := p.likes + {caller})])
  }

  /** PostViewSet.unlike: 404 for a post the caller cannot see; a missing like is an error, otherwise the caller is removed. */
  function Unlike(posts: map<PostId, Post>, friends: set<Pair>, caller: UserId, id: PostId): (s: PostStep)
    ensures s.outcome == Ok || s.outcome.Err?
    ensures id !in Visible(posts, friends, caller) ==> s.outcome == Err(PostNotFound)
    ensures id in Visible(posts, friends, caller) && caller !in posts[id].likes ==> s.outcome == Err(NotLiked)
    ensures s.outcome == Ok <==> id in Visible(posts, friends, caller) && caller in posts[id].likes
    ensures s.outcome.Err? ==> s.posts == posts
    ensures s.outcome == Ok ==>
      && s.posts.Keys == posts.Keys
      && s.posts[id] == posts[id].(likes := posts[id].likes - {caller})
      && LikeCount(s.posts[id]) == LikeCount(posts[id]) - 1
      && forall k | k in posts && k != id :: s.posts[k] == posts[k]
  {
    if id !in Visible(posts, friends, caller) then PostStep(Err(PostNotFound), posts)
    else if caller !in posts[id].likes then PostStep(Err(NotLiked), posts)
    else
      var p := posts[id];
      PostStep(Ok, posts[id := p.(likes := p.likes - {caller})])
  }

  /** UnlikePostView: any existing post, visible or not; removes the caller's like or reports that there is none. */
  function UnlikeView(posts: map<PostId, Post>, caller: UserId, id: PostId): (s: PostStep)
    ensures s.outcome == Ok || s.outcome.Err?
    ensures id !in posts ==> s.outcome == Err(PostNotFound)
    ensures id in posts && caller !in posts[id].likes ==> s.outcome == Err(NotLiked)
    ensures s.outcome == Ok <==> id in posts && caller in posts[id].likes
    ensures s.outcome.Err? ==> s.posts == posts
    ensures s.outcome == Ok ==>
      && s.posts.Keys == posts.Keys
      && s.posts[id] == posts[id].(likes := posts[id].likes - {caller})
      && forall k | k in posts && k != id :: s.posts[k] == posts[k]
  {
    if id !in posts then PostStep(Err(PostNotFound), posts)
    else if caller in posts[id].likes then
      var p := posts[id];
      PostStep(Ok, posts[id := p.(likes := p.likes - {caller})])
    else PostStep(Err(NotLiked), posts)
  }

  /** On a post the caller can see, the two unlike routes behave the same. */
  lemma UnlikeRoutesAgree(posts: map<PostId, Post>, friends: set<Pair>, caller: UserId, id: PostId)
    requires id in Visible(posts, friends, caller)
    ensures Unlike(posts, friends, caller, id) == UnlikeView(posts, caller, id)
  {
  }

  /** Liking and then unliking a post restores the post table. */
  lemma LikeThenUnlike(posts: map<PostId, Post>, friends: set<Pair>, caller: UserId, id: PostId)
    requires Like(posts, friends, caller, id).outcome == Created
    ensures var s1 := Like(posts, friends, caller, id);
      var s2 := Unlike(s1.posts, friends, caller, id);
      s2.outcome == Ok && s2.posts == posts
  {
    var s1 := Like(posts, friends, caller, id);
    VisibleIff(posts, friends, caller, id);
    VisibleIff(s1.posts, friends, caller, id);
    var s2 := Unlike(s1.posts, friends, caller, id);
    assert s2.posts[id] == posts[id];
  }

  /** Liking twice: the second like is refused and the count stays one more than before the first. */
  lemma LikeTwice(posts: map<PostId, Post>, friends: set<Pair>, caller: UserId, id: PostId)
    requires Like(posts, friends, caller, id).outcome == Created
    ensures var s1 := Like(posts, friends, caller, id);
      var s2 := Like(s1.posts, friends, caller, id);
      && s2 == PostStep(Err(AlreadyLiked), s1.posts)
      && LikeCount(s2.posts[id]) == LikeCount(posts[id]) + 1
  {
    var s1 := Like(posts, friends, caller, id);
    VisibleIff(posts, friends, caller, id);
    VisibleIff(s1.posts, friends, caller, id);
  }

  /** A friend of the author sees the post, likes it once (one like) and unlikes it (no likes left). */
  lemma FriendLikesAndUnlikes(posts: map<PostId, Post>, friends: set<Pair>, u: UserId, id: PostId)
    requires id in posts && (u, posts[id].author) in friends && u !in posts[id].likes
    ensures var s1 := Like(posts, friends, u, id);
      var s2 := Unlike(s1.posts, friends, u, id);
      && s1.outcome == Created && LikeCount(s1.posts[id]) == LikeCount(posts[id]) + 1
      && s2.outcome == Ok && s2.posts == posts
  {
    VisibleIff(posts, friends, u, id);
    LikeThenUnlike(posts, friends, u, id);
  }

  /** A friend's post is in the feed and a stranger's is not. */
  lemma FriendSeesStrangerDoesNot(posts: map<PostId, Post>, friends: set<Pair>, a: UserId, b: UserId, c: UserId, pb: PostId, pc: PostId)
    requires pb in posts && posts[pb].author == b && (a, b) in friends
    requires pc in posts && posts[pc].author == c && c != a && (a, c) !in friends
    ensures pb in Visible(posts, friends, a)
    ensures pc !in Visible(posts, friends, a)
  {
    VisibleIff(posts, friends, a, pb);
    VisibleIff(posts, friends, a, pc);
  }
}
