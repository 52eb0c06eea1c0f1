/**
 * The user table: the User record and its schema defaults, UserManager.create_user and
 * create_superuser (socsetapp/models.py), and the user search view (socsetapp/views.py).
 */
module Identity {
  import opened Base

  /** A User row. Names and picture URL are profile data no view in the model reads. */
  datatype User = User(
    id: UserId,
    username: string,
    email: string,
    isActive: bool,
    isStaff: bool,
    isSuperuser: bool)

  /** The flags a caller may pass to create_user as extra keyword arguments; None means "not supplied". */
  datatype ExtraFields = ExtraFields(isActive: Option<bool>, isStaff: Option<bool>, isSuperuser: Option<bool>)

  const NO_EXTRAS := ExtraFields(None, None, None)

  /** The primary keys present in the table. */
  function UserIds(users: seq<User>): set<UserId>
  {
    set i | 0 <= i < |users| :: users[i].id
  }

  lemma UserIdsSnoc(users: seq<User>, u: User)
    ensures UserIds(users + [u]) == UserIds(users) + {u.id}
  {
    var t := users + [u];
    assert t[|users|] == u;
    forall x | x in UserIds(users)
      ensures x in UserIds(t)
    {
      var i :| 0 <= i < |users| && users[i].id == x;
      assert t[i] == users[i];
    }
  }

  predicate UsernameTaken(users: seq<User>, name: string)
  {
    exists i | 0 <= i < |users| :: users[i].username == name
  }

  predicate EmailTaken(users: seq<User>, email: string)
  {
    exists i | 0 <= i < |users| :: users[i].email == email
  }

  /** The unique=True constraints on username and email. */
  predicate UniqueAccounts(users: seq<User>)
  {
    forall i, j | 0 <= i < j < |users| ::
      users[i].id != users[j].id && users[i].username != users[j].username && users[i].email != users[j].email
  }

  /** The rows are in increasing primary-key order, as `create_user` appends them. */
  predicate OrderedByKey(users: seq<User>)
  {
    forall a, b | 0 <= a < b < |users| :: users[a].id < users[b].id
  }

  /**
   * create_user: the email check, then the username check, then the row that save() inserts
   * under primary key `id`; a save that would break a unique constraint fails too.
   */
  function NewUser(users: seq<User>, id: UserId, username: string, email: string, extras: ExtraFields): (r: Result<User>)
    ensures r.Success? <==>
      email != "" && username != "" && !UsernameTaken(users, username) && !EmailTaken(users, email)
    ensures email == "" ==> r == Failure(EmptyEmail)
    ensures email != "" && username == "" ==> r == Failure(EmptyUsername)
    ensures r.Success? ==> r.value.id == id && r.value.username == username && r.value.email == email
    ensures r.Success? && UniqueAccounts(users) && id !in UserIds(users) ==> UniqueAccounts(users + [r.value])
  {
    if email == "" then Failure(EmptyEmail)
    else if username == "" then Failure(EmptyUsername)
    else if UsernameTaken(users, username) then Failure(DuplicateUsername)
    else if EmailTaken(users, email) then Failure(DuplicateEmail)
    else
      Success(User(id, username, email,
                   GetOr(extras.isActive, true),
                   GetOr(extras.isStaff, false),
                   GetOr(extras.isSuperuser, false)))
  }

  /** create_superuser's two setdefault calls: staff and superuser unless the caller supplied them. */
  function SuperuserExtras(extras: ExtraFields): (e: ExtraFields)
    ensures e.isActive == extras.isActive
    ensures e.isStaff == (if extras.isStaff.Some? then extras.isStaff else Some(true))
    ensures e.isSuperuser == (if extras.isSuperuser.Some? then extras.isSuperuser else Some(true))
  {
    extras.(isStaff := Some(GetOr(extras.isStaff, true)),
            isSuperuser := Some(GetOr(extras.isSuperuser, true)))
  }

  /** A user created without extra fields is active, not staff and not a superuser. */
  lemma NewUserDefaults(users: seq<User>, id: UserId, username: string, email: string)
    requires NewUser(users, id, username, email, NO_EXTRAS).Success?
    ensures var u := NewUser(users, id, username, email, NO_EXTRAS).value;
      u.isActive && !u.isStaff && !u.isSuperuser
  {
  }

  /**
   * create_superuser validates exactly as create_user does; the new user is staff and superuser
   * unless those flags were supplied, in which case the supplied values are kept.
   */
  lemma SuperuserIsCreatedAsUser(users: seq<User>, id: UserId, username: string, email: string, extras: ExtraFields)
    ensures var s := NewUser(users, id, username, email, SuperuserExtras(extras));
      var u := NewUser(users, id, username, email, extras);
      && (s.Failure? <==> u.Failure?)
      && (s.Failure? ==> s.error == u.error)
      && (s.Success? ==>
            && s.value.isStaff == GetOr(extras.isStaff, true)
            && s.value.isSuperuser == GetOr(extras.isSuperuser, true)
            && s.value.isActive == u.value.isActive
            && s.value.(isStaff := u.value.isStaff, isSuperuser := u.value.isSuperuser) == u.value)
  {
  }

  // ---------------------------------------------------------------------------------------------
  // Search

  /** ASCII lower-casing of one character; every other character is left alone. */
  function Lower(c: char): (r: char)
    ensures 'A' <= c <= 'Z' ==> 'a' <= r <= 'z' && r as int - c as int == 32
    ensures !('A' <= c <= 'Z') ==> r == c
    ensures !('A' <= r <= 'Z')
  {
    if 'A' <= c <= 'Z' then (c as int + 32) as char else c
  }

  function LowerStr(s: string): (r: string)
    ensures |r| == |s|
    ensures forall i | 0 <= i < |s| :: r[i] == Lower(s[i])
  {
    if s == [] then [] else [Lower(s[0])] + LowerStr(s[1..])
  }

  lemma LowerStrIdempotent(s: string)
    ensures LowerStr(LowerStr(s)) == LowerStr(s)
  {
  }

  predicate IsPrefix(p: string, s: string)
  {
    |p| <= |s| && s[..|p|] == p
  }

  /** `sub` occurs in `s`. */
  predicate Contains(s: string, sub: string)
    decreases |s|
  {
    IsPrefix(sub, s) || (|s| > 0 && Contains(s[1..], sub))
  }

  /** Contains holds exactly when `sub` starts at some position of `s`. */
  lemma {:induction false} ContainsIff(s: string, sub: string)
    ensures Contains(s, sub) <==> exists k | 0 <= k <= |s| :: IsPrefix(sub, s[k..])
    decreases |s|
  {
    if IsPrefix(sub, s) {
      assert s[0..] == s;
    } else if |s| > 0 {
      ContainsIff(s[1..], sub);
      if Contains(s[1..], sub) {
        var k :| 0 <= k <= |s[1..]| && IsPrefix(sub, s[1..][k..]);
        assert s[1..][k..] == s[k + 1..];
      } else {
        forall k | 0 <= k <= |s|
          ensures !IsPrefix(sub, s[k..])
        {
          if k > 0 {
            assert s[1..][k - 1..] == s[k..];
          }
        }
      }
    } else {
      forall k | 0 <= k <= |s|
        ensures !IsPrefix(sub, s[k..])
      {
        assert s[k..] == s;
      }
    }
  }

  /** The icontains lookup: both sides lower-cased, then substring containment. */
  predicate ContainsIgnoreCase(s: string, q: string): (r: bool)
    ensures r <==> exists k | 0 <= k <= |LowerStr(s)| :: IsPrefix(LowerStr(q), LowerStr(s)[k..])
  {
    var ls, lq := LowerStr(s), LowerStr(q);
    ContainsIff(ls, lq);
    if Contains(ls, lq) then
      var k :| 0 <= k <= |ls| && IsPrefix(lq, ls[k..]);
      assert 0 <= k <= |LowerStr(s)|;
      assert IsPrefix(LowerStr(q), LowerStr(s)[k..]);
      true
    else false
  }

  /** Lower-casing the query first does not change what it matches. */
  lemma QueryCaseIrrelevant(s: string, q: string)
    ensures ContainsIgnoreCase(s, q) <==> ContainsIgnoreCase(s, LowerStr(q))
  {
    LowerStrIdempotent(q);
  }

  /** Every string matches itself, so an exact match would also be found by the fallback. */
  lemma ExactIsSimilar(s: string)
    ensures ContainsIgnoreCase(s, s)
  {
  }

  /** The exact lookup: the first user in table order other than the caller with that username. */
  function FirstExact(users: seq<User>, q: string, caller: UserId): (r: Option<User>)
    ensures r.Some? ==> r.value in users && r.value.username == q && r.value.id != caller
    ensures r.None? <==> forall i | 0 <= i < |users| :: users[i].username != q || users[i].id == caller
  {
    if users == [] then None
    else if users[0].username == q && users[0].id != caller then Some(users[0])
    else FirstExact(users[1..], q, caller)
  }

  /** The fallback: every user other than the caller whose username contains the query ignoring case, in table order. */
  function Similar(users: seq<User>, q: string, caller: UserId): (r: seq<User>)
    ensures |r| <= |users|
    ensures forall u :: u in r <==> u in users && u.id != caller && ContainsIgnoreCase(u.username, q)
  {
    if users == [] then []
    else
      var rest := Similar(users[1..], q, caller);
      if users[0].id != caller && ContainsIgnoreCase(users[0].username, q) then [users[0]] + rest else rest
  }

  /** Two queries that agree up to ASCII case find the same users in the same order. */
  lemma {:induction false} SimilarIgnoresCase(users: seq<User>, q1: string, q2: string, caller: UserId)
    requires LowerStr(q1) == LowerStr(q2)
    ensures Similar(users, q1, caller) == Similar(users, q2, caller)
  {
    if users != [] {
      SimilarIgnoresCase(users[1..], q1, q2, caller);
    }
  }

  /**
   * What UserSearchView.get answers: a single user object for an exact match, or the list of
   * case-insensitive matches (a list even when it holds one user).
   */
  datatype SearchAnswer = Exact(user: User) | Matches(users: seq<User>)

  /**
   * UserSearchView.get: no query is an error; an exact match wins and is returned alone;
   * otherwise the case-insensitive matches, and none of them is a not-found error.
   */
  function Search(users: seq<User>, caller: UserId, q: string): (r: Result<SearchAnswer>)
    ensures q == "" <==> r == Failure(EmptyQuery)
    ensures r.Failure? ==> r.error == EmptyQuery || r.error == NoMatch
    ensures r.Success? ==> (r.value.Exact? <==> FirstExact(users, q, caller).Some?)
    ensures r.Success? && r.value.Exact? ==>
      r.value.user in users && r.value.user.username == q && r.value.user.id != caller
    ensures r.Success? && r.value.Matches? ==>
      |r.value.users| > 0 && forall u | u in r.value.users :: u in users && u.id != caller
    ensures r == Failure(NoMatch) <==>
      q != "" && forall u | u in users && u.id != caller :: !ContainsIgnoreCase(u.username, q)
  {
    if q == "" then Failure(EmptyQuery)
    else
      match FirstExact(users, q, caller)
      case Some(u) =>
        ExactIsSimilar(q);
        Success(Exact(u))
      case None =>
        var similar := Similar(users, q, caller);
        if similar == [] then Failure(NoMatch)
        else
          assert similar[0] in similar;
          Success(Matches(similar))
  }

  /** With unique usernames, a non-caller user whose username is exactly the query is the whole answer. */
  lemma SearchFindsExact(users: seq<User>, caller: UserId, q: string, i: nat)
    requires UniqueAccounts(users)
    requires q != "" && i < |users| && users[i].username == q && users[i].id != caller
    ensures Search(users, caller, q) == Success(Exact(users[i]))
  {
    var r := FirstExact(users, q, caller);
    assert r.Some?;
    var j :| 0 <= j < |users| && users[j] == r.value;
    assert j == i;
  }

  /** Without an exact match, the answer is a list of exactly the case-insensitive matches. */
  lemma SearchFallsBack(users: seq<User>, caller: UserId, q: string, u: User)
    requires q != ""
    requires forall i | 0 <= i < |users| :: users[i].username != q || users[i].id == caller
    ensures Search(users, caller, q).Success? ==> Search(users, caller, q).value.Matches?
    ensures Search(users, caller, q).Success? ==>
      (u in Search(users, caller, q).value.users <==> u in users && u.id != caller && ContainsIgnoreCase(u.username, q))
  {
  }

  /** In a table ordered by primary key, the exact match is the matching user with the smallest id. */
  lemma FirstExactHasLowestId(users: seq<User>, q: string, caller: UserId, i: nat)
    requires OrderedByKey(users)
    requires i < |users| && users[i].username == q && users[i].id != caller
    ensures FirstExact(users, q, caller).Some? && FirstExact(users, q, caller).value.id <= users[i].id
  {
    if users[0].username == q && users[0].id != caller {
      if i > 0 {
        assert users[0].id < users[i].id;
      }
    } else {
      assert i > 0;
      FirstExactHasLowestId(users[1..], q, caller, i - 1);
    }
  }
}
