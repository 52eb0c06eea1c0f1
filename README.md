# socset: the social graph, feed and messaging core in Dafny

socset is a Django REST backend for a small social network. This project models its core:
- the **user table** with `UserManager.create_user` / `create_superuser` and the user search view;
- the **relationship engine**: friend requests and two-row symmetric friendships, managed by the send, accept, decline and remove views and listed by the two viewsets;
- the **feed engine**: posts, the feed that `PostViewSet.get_queryset` computes, deletion, likes and `like_count`;
- the **messaging store**: sending a message, the conversation view (deduplicated by id, sorted by time, not-found when empty) and the contact list.

The model has two layers.

- **Pure step functions** (modules `Identity`, `Relationships`, `Feed`, `Messaging`). Each view that changes friendships, requests or posts is a function from the old tables to an outcome and the new tables. `Identity.NewUser` gives the new user row (or the error) rather than a table, and sending a message has no step function: it exists only as `Store.SocialStore.SendMessage`, whose contract states the appended row. Each query is a function over the tables. Their contracts and the lemmas beside them state what the views promise: error ladders, exact new contents, invariants kept, and round trips such as like/unlike and accept/remove.
- **`Store.SocialStore`**. This class holds every table as a field: `users: seq<User>` in primary-key order, `friendships` and `requests` as `set<Pair>`, `messages: seq<Message>`, and `posts: map<PostId, Post>`. Each mutating view is a `modifies this` method that checks the source's conditions in the source's order and then changes its fields. Each method is proved to leave exactly the state its step function computes, to keep the class invariant `Valid()`, and to leave every other table and counter unchanged.

`Valid()` combines these facts:
- usernames, emails and ids are unique, and the user rows are in increasing primary-key order;
- friendships are symmetric;
- nobody is their own friend or sends a request to themselves;
- no row has a dangling key;
- message ids are distinct;
- messages are unread.

How the source's conventions map onto the model:
- The authenticated caller is an explicit parameter.
- A message's creation time is a parameter (`now`).
- `get_object_or_404(User, id=…)` is a membership test on the user ids.
- The `unique_together` constraints hold by construction, because each table is a set of ordered pairs. The lemmas show that no view ever inserts a row that is already present, so no view would ever raise the database's integrity error.

`PostViewSet.destroy`, `like` and `unlike` call `get_object()` first, which filters by the caller's feed. So a post the caller cannot see gives not-found before the author check or the like check runs, not a permission error. A friend who tries to delete someone else's post does get a permission error (`Feed.DeletePost`). `UnlikePostView` uses `Post.objects.get` and works on any post.

## Model

| member | source | states |
|---|---|---|
| Identity.NewUser | socsetapp/models.py:6-16 | An empty email is refused first, then an empty username. A username or email already taken is refused. Otherwise the row gets the given id, username and email. The result succeeds exactly when none of these checks fails. A successful insert keeps usernames, emails and ids unique. |
| Identity.NewUserDefaults | socsetapp/models.py:30-31 | A user created without extra fields is active, not staff and not a superuser. |
| Identity.SuperuserExtras | socsetapp/models.py:18-20 | is_staff and is_superuser become True unless the caller supplied them. Supplied values and is_active pass through unchanged. |
| Identity.SuperuserIsCreatedAsUser | socsetapp/models.py:18-22 | create_superuser fails exactly when create_user fails, with the same error. On success it gives the same row except that staff and superuser default to True. |
| Identity.Lower | socsetapp/views.py:64 | An ASCII capital becomes the small letter 32 code points above it. Every other character is unchanged. The result is never a capital. |
| Identity.LowerStr | socsetapp/views.py:64 | The lowered string has the same length and each character lowered in place. |
| Identity.ContainsIgnoreCase | socsetapp/views.py:64 | `username__icontains`: true exactly when the lowered query starts at some position of the lowered username. |
| Identity.ContainsIff | socsetapp/views.py:64 | The recursive substring test is true exactly when the query starts at some position of the username. |
| Identity.QueryCaseIrrelevant | socsetapp/views.py:64 | Lower-casing the query first does not change what icontains matches. |
| Identity.ExactIsSimilar | socsetapp/views.py:57-64 | Every username matches itself case-insensitively, so an exact match is also a fallback match. |
| Identity.FirstExact | socsetapp/views.py:57 | A result is a user of the table, other than the caller, whose username is exactly the query. There is no result exactly when no such user exists. |
| Identity.Similar | socsetapp/views.py:64 | A user is in the result exactly when it is in the table, is not the caller, and contains the query ignoring case. |
| Identity.SimilarIgnoresCase | socsetapp/views.py:64 | Two queries that agree up to ASCII case give the same matches in the same order. |
| Identity.Search | socsetapp/views.py:48-71 | A missing query is an error exactly when the query is empty. The only errors are that one and not-found. The answer is a single user object exactly when an exact match exists: that user, who has exactly the queried username and is not the caller. Otherwise it is a non-empty list of users, never containing the caller, even when the list holds one user. Not-found happens exactly when no other user's username contains the query ignoring case. |
| Identity.SearchFindsExact | socsetapp/views.py:57-61 | When usernames are unique and some other user has exactly the queried username, the answer is that single user object. |
| Identity.FirstExactHasLowestId | socsetapp/views.py:57 | In a table ordered by primary key, `.first()` finds a match whenever one exists, and its id is at most that of any other match. |
| Identity.SearchFallsBack | socsetapp/views.py:63-71 | Without an exact match, a successful answer is a list, and it holds exactly the other users whose username contains the query ignoring case. |
| Relationships.SendRequest | socsetapp/views.py:79-97 | Checked in order: a missing target, the caller as target, and a friendship in either direction are errors that change nothing. Otherwise the (caller, target) request is get-or-created: the result is Created exactly when the request was absent and Exists otherwise, and afterwards the request is present. A pending reverse request does not block it. |
| Relationships.AcceptRequest | socsetapp/views.py:104-129 | Checked in order: a missing sender, a self-accept, a missing (from, caller) request, and an existing friendship in either direction are errors that change nothing, so the request is kept. Otherwise both (caller, from) and (from, caller) are added and exactly the (from, caller) request is removed. |
| Relationships.DeclineRequest | socsetapp/views.py:137-147 | A missing sender or a missing (from, caller) request is an error that changes nothing. Otherwise exactly that request is deleted and the friendships are untouched. |
| Relationships.RemoveFriend | socsetapp/views.py:155-168 | The call fails exactly when the friend is missing or neither direction exists. On success neither direction remains, the requests are untouched, and every other friendship row is kept. |
| Relationships.AcceptInsertsFreshRows | socsetapp/models.py:49-50 | A successful accept inserts two Friendship rows that were absent: the table grows by exactly two and the request table shrinks by exactly one. So the (user, friend) constraint is never violated. |
| Relationships.SendInsertsFreshRow | socsetapp/models.py:60-61 | A newly created request adds exactly one row, so the (from_user, to_user) constraint is never violated. |
| Relationships.SendPreservesValid | socsetapp/views.py:79-97 | Sending keeps the graph invariant: symmetry, irreflexivity and foreign keys. |
| Relationships.AcceptPreservesValid | socsetapp/views.py:104-129 | Accepting keeps the graph invariant, symmetry included. |
| Relationships.DeclinePreservesValid | socsetapp/views.py:137-147 | Declining keeps the graph invariant. |
| Relationships.RemovePreservesValid | socsetapp/views.py:155-168 | Removing keeps the graph invariant, symmetry included. |
| Relationships.RemoveDeletesPair | socsetapp/views.py:157-164 | On a symmetric table, a successful removal found both rows and deletes exactly those two. |
| Relationships.SendThenAccept | socsetapp/views.py:89-128 | When a request is sent and the target accepts it, both friendship rows exist and the request is gone. |
| Relationships.SendTwice | socsetapp/views.py:89-97 | A second identical request reports Exists and leaves the tables as they were. |
| Relationships.AcceptTwice | socsetapp/views.py:110-128 | A second accept finds no request and changes nothing, so exactly one friendship pair exists. |
| Relationships.RemoveTwice | socsetapp/views.py:157-168 | A second removal reports not-friends and changes nothing. |
| Relationships.RemoveUndoesAccept | socsetapp/views.py:119-164 | Removing a friend just accepted restores the friendship table to its state before the accept. |
| Relationships.FriendsOf | socsetapp/views.py:220 | f is a friend of u exactly when (u, f) is a Friendship row. |
| Relationships.RowsOf | socsetapp/views.py:319-322 | A row is listed for u exactly when it is in the table and u is on either side. The FriendRequest listing at socsetapp/views.py:329-332 is the same union. |
| Relationships.FriendshipRowsArePairs | socsetapp/views.py:319-322 | On a symmetric table, u's friendship listing holds both rows of each of u's friendships and nothing else. |
| Relationships.SentRequestIsListed | socsetapp/views.py:329-332 | A request that was sent or already pending is listed for both its sender and its recipient. |
| Relationships.DeclinedRequestIsUnlisted | socsetapp/views.py:329-332 | A declined request is listed for nobody. |
| Feed.LikeCount | socsetapp/models.py:94-96 | like_count is the size of the like set. It is zero exactly when nobody likes the post and at least one when anyone does. There is no separate counter. |
| Feed.Visible | socsetapp/views.py:218-224 | The feed holds only existing posts and always includes the caller's own posts. |
| Feed.VisibleIff | socsetapp/views.py:218-224 | A post is in u's feed exactly when it exists and u wrote it or (u, author) is a Friendship row. |
| Feed.VisibleToEitherFriend | socsetapp/views.py:218-224 | On a symmetric table, either direction of the friendship pair gives the same feed. |
| Feed.FriendSeesStrangerDoesNot | socsetapp/views.py:218-224 | A friend's post is in the feed and a stranger's post is not. |
| Feed.CreatePost | socsetapp/views.py:226-227 | Empty content is refused and changes nothing. Otherwise exactly one post is added under the new id, authored by the caller with the given content and zero likes (a `likes` list sent on create is not modelled; see Left out). Every other post is unchanged. |
| Feed.DeletePost | socsetapp/views.py:229-232 | A missing post or one the caller cannot see is not-found. The call succeeds exactly when the post exists and the caller is its author, and then exactly that post is removed. Failures change nothing. A visible post by someone else gives a permission error. |
| Feed.Like | socsetapp/views.py:234-246 | A post the caller cannot see is not-found, and an existing like is already-liked. Otherwise exactly the caller is added to that post's likes, like_count rises by one, and other posts and the content are unchanged. Failures change nothing. |
| Feed.Unlike | socsetapp/views.py:248-260 | A post the caller cannot see is not-found, and a missing like is not-liked. Otherwise exactly the caller is removed, like_count falls by one, and everything else is unchanged. |
| Feed.UnlikeView | socsetapp/views.py:262-275 | A missing post is not-found, and a missing like is not-liked. Otherwise exactly the caller is removed from the likes of any existing post, visible or not. |
| Feed.UnlikeRoutesAgree | socsetapp/views.py:248-275 | On a post the caller can see, the two unlike routes give the same outcome and the same post table. |
| Feed.LikeThenUnlike | socsetapp/views.py:234-260 | A like followed by an unlike restores the post table. |
| Feed.LikeTwice | socsetapp/views.py:239-246 | A second like is refused with already-liked and changes nothing. like_count stays one above its value before the first like. |
| Feed.FriendLikesAndUnlikes | socsetapp/models.py:85-96 | A friend of the author can like the post, which raises like_count (the size of the like set) by one. Unliking it then gives back the original table. |
| Messaging.Between | socsetapp/views.py:285-293 | A message is in the result exactly when it is in the table and goes from the given sender to the given recipient. |
| Messaging.DedupById | socsetapp/views.py:297 | The result has one message per id, the same set of ids as the input, and only messages of the input. |
| Messaging.DedupKeepsRows | socsetapp/views.py:297 | When ids name rows, every input message survives deduplication. |
| Messaging.InsertByTime | socsetapp/views.py:299 | Inserting into a time-sorted list keeps it sorted and adds exactly that message (multiset). |
| Messaging.SortByTime | socsetapp/views.py:299 | The result is ordered by non-decreasing timestamp and is a permutation of the input. It keeps the same ids and keeps them distinct. |
| Messaging.Conversation | socsetapp/views.py:282-310 | The only error is no-conversation. A success is non-empty, sorted by time, has distinct ids and contains only messages between the two users. |
| Messaging.ConversationContents | socsetapp/views.py:282-310 | With unique ids, the result is no-conversation exactly when no message went either way. Otherwise it holds exactly the messages that did. |
| Messaging.ConversationHolds | socsetapp/views.py:282-310 | With unique ids, any message between the two users, in either direction, appears in their conversation, and so the conversation exists. |
| Messaging.ConversationOfOne | socsetapp/views.py:303-307 | With no prior messages the result is no-conversation. After one message in either direction it is exactly that message. |
| Messaging.Contacts | socsetapp/views.py:189-198 | u's contacts are exactly the existing users u sent a message to or received one from, each counted once. |
| Messaging.ContactsHaveConversations | socsetapp/views.py:189-198 | A user is a contact of u exactly when it exists and its conversation with u is not an error. |
| Store.SocialStore.Valid | socsetapp/models.py:25-61 | The schema constraints: unique usernames and emails (`unique=True`), user rows in increasing primary-key order, fresh primary keys, and foreign keys to existing users for friendships, requests, messages, posts and likes. The (user, friend) and (from_user, to_user) pairs are unique because the tables are sets. Friendships are symmetric and irreflexive, requests are irreflexive, and messages are unread with distinct ids; the modelled views keep these. |
| Store.SocialStore.CreateUser | socsetapp/models.py:6-16 | The user table and id counter become exactly what NewUser gives for the next primary key. The invariant is kept and the other tables are unchanged. |
| Store.SocialStore.CreateSuperuser | socsetapp/models.py:18-22 | Like CreateUser, applied to the extras with the superuser defaults. |
| Store.SocialStore.SendFriendRequest | socsetapp/views.py:78-97 | The outcome and both relationship tables are exactly those of SendRequest. The invariant is kept and everything else is unchanged. |
| Store.SocialStore.AcceptFriendRequest | socsetapp/views.py:103-129 | The outcome and tables are exactly those of AcceptRequest. Symmetry and the invariant are kept. |
| Store.SocialStore.DeclineFriendRequest | socsetapp/views.py:135-147 | The outcome and tables are exactly those of DeclineRequest. The invariant is kept. |
| Store.SocialStore.RemoveFriend | socsetapp/views.py:154-168 | The outcome and tables are exactly those of the pure RemoveFriend. Symmetry and the invariant are kept. |
| Store.SocialStore.CreatePost | socsetapp/views.py:226-227 | The outcome and post table are exactly those of Feed.CreatePost under a fresh id. The counter advances only on creation. |
| Store.SocialStore.DeletePost | socsetapp/views.py:229-232 | The outcome and post table are exactly those of Feed.DeletePost: not-found off the caller's feed, permission denied for someone else's post, otherwise that post removed. |
| Store.SocialStore.LikePost | socsetapp/views.py:234-246 | The outcome and post table are exactly those of Feed.Like. |
| Store.SocialStore.UnlikePost | socsetapp/views.py:248-260 | The outcome and post table are exactly those of Feed.Unlike. |
| Store.SocialStore.UnlikePostView | socsetapp/views.py:262-275 | The outcome and post table are exactly those of Feed.UnlikeView. |
| Store.SocialStore.SendMessage | socsetapp/views.py:173-182 | A missing recipient is not-found and empty content is refused. Otherwise exactly one unread message is appended under a fresh id with the given time. The invariant is kept and failures change nothing. |
| Store.SocialStore.ConversationIsExact | socsetapp/views.py:282-310 | In a valid store, the conversation is no-conversation exactly when no message went either way. Otherwise it holds exactly the messages between the two users. |
| Store.SocialStore.FeedIsOwnAndFriends | socsetapp/views.py:218-224 | In a valid store, a post is in u's feed exactly when u wrote it or u and its author are friends. |
| Store.FriendshipScenario | socsetapp/views.py:78-260 | On any valid store with two distinct users who are not friends and have no pending request: a request is sent (Created) and accepted (Ok), so both rows exist. A post by the sender is visible to the accepter, whose like gives one like and whose unlike leaves none. |

## Left out

- Login, registration and tokens (socsetapp/views.py:13-43) are left out. They call Django's `authenticate` and the token store. The caller's id is a parameter instead.
- Password hashing (`set_password`) and `normalize_email` are left out. They are library code, and the model keeps the email exactly as given. `normalize_email` lower-cases the domain part, so in the source "a@X.com" and "a@x.com" are the same address and the second `save()` breaks `unique=True`. `Identity.NewUser` accepts both.
- The database's primary-key sequence is left out. Ids come from counters in the store that start at 1 and grow by one per row, so gaps after failed inserts and the reuse of keys are not modelled.
- Message creation time is the caller-supplied `now` instead of `auto_now_add`. The `created_at` fields are not modelled, since no view in the model reads them.
- Serializers are reduced to "content must not be empty" for posts and messages. The framework's whitespace trimming is not modelled: content made only of spaces is refused by the source but accepted by the model, and surrounding spaces are stored as given. Field lists, `max_length` limits and email syntax are not modelled.
- The generic ModelViewSet routes are left out: list, retrieve, create, update and destroy on `FriendshipViewSet` and `FriendRequestViewSet` (socsetapp/views.py:315-332), and list, retrieve and update on `PostViewSet` (socsetapp/views.py:213-216). They go through the framework's generic handlers and the serializers. Only the listings and the overridden hooks are modelled. Three of these routes change the tables in ways the modelled views never do:
  - `FriendshipViewSet` destroy deletes ONE Friendship row from the caller's listing, so the real program can leave one direction of a friendship without the other. The symmetry in `Store.SocialStore.Valid` is therefore kept by the modelled views only. `Relationships.RemoveFriend` still succeeds on a friendship with only one direction, which is the state that route can leave behind.
  - `FriendRequestViewSet` destroy deletes any request in the caller's listing, sent or received, so a sender can withdraw a pending request. No modelled view does this: accept and decline remove only a request addressed to the caller.
  - `PostViewSet` update runs no author check. Any user who can see a post can rewrite its `content`, and its `likes` through the writable `likes` field of `PostSerializer`.
- Feed.CreatePost: `PostSerializer` (socsetapp/serializers.py:58) also accepts a `likes` list on create, so a real request can store a post that arbitrary users already like, bypassing the like view's checks. The model takes no initial like set, and every new post starts with no likes.
- Transactions and concurrency are left out. The source uses none, and each view is one sequential step. Two accepts in a row appear as `AcceptTwice`; two accepts racing each other are not modelled.
- CASCADE deletion of users is left out. No view in the model deletes a user.
- `__str__`, profile fields (names, picture URL, date_joined, last_login) and HTTP status codes and response texts are left out. They carry no behaviour that can be checked. Outcomes are `Created | Exists | Ok | Err(kind)`.
- Default permission classes: `UnlikePostView` declares no permission class, so its caller may be anonymous. The model gives it some user id. An anonymous user never appears in a like set, so the view reports not-liked either way.
- Identity.Lower: only ASCII letters are lower-cased. The database's Unicode case folding for `icontains` is not modelled.
- Identity.NewUser: when both the username and the email are already taken, the model reports the username. Which unique constraint a real database reports first is its own choice.
- Identity.Similar: its contract states membership, not that the result keeps table order. The order is fixed by the body, and `SimilarIgnoresCase` relies on it.
- Messaging.SortByTime: its contract does not state that Python's `sorted` is stable for equal timestamps. The insertion sort does keep the earlier message first.
- Messaging.DedupById: its contract does not state which occurrence of a repeated id is kept. Python's dict comprehension keeps the value of the last occurrence at the position of the first; the model keeps the first occurrence. With unique primary keys all occurrences are the same row (`DedupKeepsRows`).
- Messaging.ConversationContents: the exact-contents statement needs primary keys to name rows (`IdsDetermineRows`). Every valid store meets that (`Store.SocialStore.ConversationIsExact`).
