/**
 * The messaging store: Message rows (socsetapp/models.py), the conversation between two users
 * (MessageDetailView.get_queryset and list) and the contact list (UserMessagesView.get_queryset)
 * in socsetapp/views.py.
 */
module Messaging {
  import opened Base

  /** A Message row; `timestamp` is the creation time as an integer, supplied by the caller of the store. */
  datatype Message = Message(
    id: MessageId,
    sender: UserId,
    recipient: UserId,
    content: string,
    timestamp: int,
    isRead: bool)

  /** The message goes one way or the other between `u` and `other`. */
  predicate Involves(m: Message, u: UserId, other: UserId)
  {
    (m.sender == u && m.recipient == other) || (m.sender == other && m.recipient == u)
  }

  function Ids(s: seq<Message>): set<MessageId>
  {
    set i | 0 <= i < |s| :: s[i].id
  }

  predicate DistinctIds(s: seq<Message>)
  {
    forall i, j | 0 <= i < j < |s| :: s[i].id != s[j].id
  }

  /** A primary key names one row: two messages with the same id are the same message. */
  predicate IdsDetermineRows(s: seq<Message>)
  {
    forall a, b | a in s && b in s && a.id == b.id :: a == b
  }

  /** Distinct primary keys: then an id names one row. */
  lemma DistinctIdsDetermineRows(s: seq<Message>)
    requires DistinctIds(s)
    ensures IdsDetermineRows(s)
  {
    forall a, b | a in s && b in s && a.id == b.id
      ensures a == b
    {
      var i :| 0 <= i < |s| && s[i] == a;
      var j :| 0 <= j < |s| && s[j] == b;
      assert !(i < j) && !(j < i);
    }
  }

  predicate SortedByTime(s: seq<Message>)
  {
    forall i, j | 0 <= i < j < |s| :: s[i].timestamp <= s[j].timestamp
  }

  /** One of the two filter() calls: the messages from `from` to `to`, in table order. */
  function Between(msgs: seq<Message>, from: UserId, to: UserId): (r: seq<Message>)
    ensures |r| <= |msgs|
    ensures forall m :: m in r <==> m in msgs && m.sender == from && m.recipient == to
  {
    if msgs == [] then []
    else
      var rest := Between(msgs[1..], from, to);
      if msgs[0].sender == from && msgs[0].recipient == to then [msgs[0]] + rest else rest
  }

  lemma IdsOfSnoc(s: seq<Message>, m: Message)
    ensures Ids(s + [m]) == Ids(s) + {m.id}
  {
    var t := s + [m];
    forall x | x in Ids(t)
      ensures x in Ids(s) + {m.id}
    {
      var i :| 0 <= i < |t| && t[i].id == x;
      if i < |s| {
        assert s[i] == t[i];
      }
    }
    forall x | x in Ids(s) + {m.id}
      ensures x in Ids(t)
    {
      if x == m.id {
        assert t[|s|].id == x;
      } else {
        var i :| 0 <= i < |s| && s[i].id == x;
        assert t[i] == s[i];
      }
    }
  }

  /**
   * The dict comprehension keyed by id: one message per id, in the order of first occurrence.
   * Python keeps the key at its first position but the value of its last occurrence; this keeps the
   * first occurrence. With unique primary keys every occurrence of an id is the same row.
   */
  function DedupById(s: seq<Message>): (r: seq<Message>)
    ensures DistinctIds(r)
    ensures Ids(r) == Ids(s)
    ensures forall m | m in r :: m in s
  {
    if s == [] then []
    else
      var init := s[..|s| - 1];
      var last := s[|s| - 1];
      var d := DedupById(init);
      assert s == init + [last];
      IdsOfSnoc(init, last);
      if last.id in Ids(d) then d
      else
        IdsOfSnoc(d, last);
        d + [last]
  }

  /** With unique primary keys nothing is lost: every message of the input is in the result. */
  lemma DedupKeepsRows(s: seq<Message>, m: Message)
    requires IdsDetermineRows(s) && m in s
    ensures m in DedupById(s)
  {
    var r := DedupById(s);
    var i :| 0 <= i < |s| && s[i] == m;
    assert m.id in Ids(s);
    var k :| 0 <= k < |r| && r[k].id == m.id;
    assert r[k] in s;
  }

  /** Inserts `m` after every message not later than it, so equal timestamps keep their order. */
  function InsertByTime(m: Message, s: seq<Message>): (r: seq<Message>)
    requires SortedByTime(s)
    ensures SortedByTime(r)
    ensures multiset(r) == multiset(s) + multiset{m}
  {
    if s == [] then [m]
    else if m.timestamp < s[0].timestamp then [m] + s
    else
      var rest := InsertByTime(m, s[1..]);
      assert s == [s[0]] + s[1..];
      forall x | x in rest
        ensures s[0].timestamp <= x.timestamp
      {
        assert x in multiset(rest);
        assert x == m || x in multiset(s[1..]);
      }
      SortedCons(s[0], rest);
      [s[0]] + rest
  }

  lemma SortedCons(h: Message, t: seq<Message>)
    requires SortedByTime(t) && forall x | x in t :: h.timestamp <= x.timestamp
    ensures SortedByTime([h] + t)
  {
    var r := [h] + t;
    forall i, j | 0 <= i < j < |r|
      ensures r[i].timestamp <= r[j].timestamp
    {
      assert r[j] == t[j - 1];
      if i == 0 {
        assert t[j - 1] in t;
      } else {
        assert r[i] == t[i - 1];
      }
    }
  }

  /** Insertion adds the new id. */
  lemma {:induction false} InsertByTimeIds(m: Message, s: seq<Message>)
    requires SortedByTime(s)
    ensures Ids(InsertByTime(m, s)) == Ids(s) + {m.id}
  {
    if s == [] {
      assert [m][0] == m;
    } else if m.timestamp < s[0].timestamp {
      IdsOfCons(m, s);
    } else {
      assert s == [s[0]] + s[1..];
      InsertByTimeIds(m, s[1..]);
      IdsOfCons(s[0], s[1..]);
      IdsOfCons(s[0], InsertByTime(m, s[1..]));
    }
  }

  /** Insertion of a message with a fresh id keeps ids distinct. */
  lemma {:induction false} InsertByTimeDistinct(m: Message, s: seq<Message>)
    requires SortedByTime(s) && DistinctIds(s) && m.id !in Ids(s)
    ensures DistinctIds(InsertByTime(m, s))
  {
    if s == [] {
    } else if m.timestamp < s[0].timestamp {
      DistinctCons(m, s);
    } else {
      assert s == [s[0]] + s[1..];
      var rest := InsertByTime(m, s[1..]);
      IdsOfCons(s[0], s[1..]);
      DistinctTail(s);
      InsertByTimeDistinct(m, s[1..]);
      InsertByTimeIds(m, s[1..]);
      DistinctHead(s);
      DistinctCons(s[0], rest);
    }
  }

  lemma DistinctTail(s: seq<Message>)
    requires DistinctIds(s) && s != []
    ensures DistinctIds(s[1..])
  {
    forall i, j | 0 <= i < j < |s| - 1
      ensures s[1..][i].id != s[1..][j].id
    {
      assert s[1..][i] == s[i + 1] && s[1..][j] == s[j + 1];
    }
  }

  lemma DistinctHead(s: seq<Message>)
    requires DistinctIds(s) && s != []
    ensures s[0].id !in Ids(s[1..])
  {
  }

  lemma DistinctCons(m: Message, s: seq<Message>)
    requires DistinctIds(s) && m.id !in Ids(s)
    ensures DistinctIds([m] + s)
  {
    var t := [m] + s;
    forall i, j | 0 <= i < j < |t|
      ensures t[i].id != t[j].id
    {
      assert t[j] == s[j - 1];
      if i > 0 {
        assert t[i] == s[i - 1];
      } else {
        assert s[j - 1].id in Ids(s);
      }
    }
  }

  /** Appending a message with a fresh id keeps ids distinct. */
  lemma SnocDistinct(s: seq<Message>, m: Message)
    requires DistinctIds(s) && m.id !in Ids(s)
    ensures DistinctIds(s + [m])
  {
    var t := s + [m];
    forall i, j | 0 <= i < j < |t|
      ensures t[i].id != t[j].id
    {
      assert t[i] == s[i];
      if j == |s| {
        assert s[i].id in Ids(s);
      } else {
        assert t[j] == s[j];
      }
    }
  }

  lemma IdsOfCons(m: Message, s: seq<Message>)
    ensures Ids([m] + s) == {m.id} + Ids(s)
  {
    var t := [m] + s;
    forall x | x in Ids(t)
      ensures x in {m.id} + Ids(s)
    {
      var i :| 0 <= i < |t| && t[i].id == x;
      if i > 0 {
        assert t[i] == s[i - 1];
      }
    }
    forall x | x in {m.id} + Ids(s)
      ensures x in Ids(t)
    {
      if x == m.id {
        assert t[0].id == x;
      } else {
        var i :| 0 <= i < |s| && s[i].id == x;
        assert t[i + 1] == s[i];
      }
    }
  }

  lemma DistinctInit(s: seq<Message>)
    requires DistinctIds(s) && s != []
    ensures DistinctIds(s[..|s| - 1]) && s[|s| - 1].id !in Ids(s[..|s| - 1])
  {
  }

  /** Python's sorted() on the timestamp key: a stable insertion sort. */
  function SortByTime(s: seq<Message>): (r: seq<Message>)
    ensures SortedByTime(r)
    ensures multiset(r) == multiset(s)
    ensures Ids(r) == Ids(s)
    ensures DistinctIds(s) ==> DistinctIds(r)
  {
    if s == [] then []
    else
      var init := s[..|s| - 1];
      var last := s[|s| - 1];
      assert s == init + [last];
      IdsOfSnoc(init, last);
      var sorted := SortByTime(init);
      InsertByTimeIds(last, sorted);
      if DistinctIds(s) then
        DistinctInit(s);
        InsertByTimeDistinct(last, sorted);
        InsertByTime(last, sorted)
      else InsertByTime(last, sorted)
  }

  /**
   * MessageDetailView: the messages the caller received from `other` followed by those it sent to
   * `other`, one per id, sorted by timestamp; `list` turns an empty result into a not-found error.
   */
  function Conversation(msgs: seq<Message>, u: UserId, other: UserId): (r: Result<seq<Message>>)
    ensures r.Failure? ==> r.error == NoConversation
    ensures r.Success? ==>
      && |r.value| > 0
      && SortedByTime(r.value)
      && DistinctIds(r.value)
      && forall m | m in r.value :: m in msgs && Involves(m, u, other)
  {
    var combined := Between(msgs, other, u) + Between(msgs, u, other);
    var unique := DedupById(combined);
    var sorted := SortByTime(unique);
    if |sorted| == 0 then Failure(NoConversation)
    else
      SortedFromConversation(msgs, u, other, combined, unique, sorted);
      Success(sorted)
  }

  lemma SortedFromConversation(msgs: seq<Message>, u: UserId, other: UserId,
                                combined: seq<Message>, unique: seq<Message>, sorted: seq<Message>)
    requires combined == Between(msgs, other, u) + Between(msgs, u, other)
    requires forall m | m in unique :: m in combined
    requires multiset(sorted) == multiset(unique)
    ensures forall m | m in sorted :: m in msgs && Involves(m, u, other)
  {
    forall m | m in sorted
      ensures m in msgs && Involves(m, u, other)
    {
      assert m in multiset(unique);
      assert m in combined;
      assert m in Between(msgs, other, u) || m in Between(msgs, u, other);
    }
  }

  /**
   * With unique primary keys, the conversation is an error exactly when no message went either way,
   * and otherwise holds exactly the messages that did.
   */
  lemma ConversationContents(msgs: seq<Message>, u: UserId, other: UserId, m: Message)
    requires IdsDetermineRows(msgs)
    ensures Conversation(msgs, u, other).Failure? <==> forall x | x in msgs :: !Involves(x, u, other)
    ensures Conversation(msgs, u, other).Success? ==>
      (m in Conversation(msgs, u, other).value <==> m in msgs && Involves(m, u, other))
  {
    if m in msgs && Involves(m, u, other) {
      ConversationHolds(msgs, u, other, m);
    }
    if x :| x in msgs && Involves(x, u, other) {
      ConversationHolds(msgs, u, other, x);
    } else if Conversation(msgs, u, other).Success? {
      var c := Conversation(msgs, u, other).value;
      assert c[0] in c;
    }
  }

  /** With unique primary keys, a message between the two users is in their conversation. */
  lemma ConversationHolds(msgs: seq<Message>, u: UserId, other: UserId, x: Message)
    requires IdsDetermineRows(msgs)
    requires x in msgs && Involves(x, u, other)
    ensures Conversation(msgs, u, other).Success? && x in Conversation(msgs, u, other).value
  {
    var combined := Between(msgs, other, u) + Between(msgs, u, other);
    var unique := DedupById(combined);
    var sorted := SortByTime(unique);
    assert IdsDetermineRows(combined);
    assert x in combined;
    DedupKeepsRows(combined, x);
    assert x in multiset(sorted);
  }

  /** No conversation before any message; after one message either way, the conversation is that message alone. */
  lemma ConversationOfOne(msgs: seq<Message>, u: UserId, other: UserId, m: Message)
    requires forall x | x in msgs :: !Involves(x, u, other)
    requires Involves(m, u, other)
    requires IdsDetermineRows(msgs + [m])
    ensures Conversation(msgs, u, other) == Failure(NoConversation)
    ensures Conversation(msgs + [m], u, other) == Success([m])
  {
    var t := msgs + [m];
    assert IdsDetermineRows(msgs) by {
      assert forall a | a in msgs :: a in t;
    }
    ConversationContents(msgs, u, other, m);
    assert m in t;
    ConversationContents(t, u, other, m);
    var c := Conversation(t, u, other);
    forall x | x in c.value
      ensures x == m
    {
      ConversationContents(t, u, other, x);
      assert x in msgs || x == m;
    }
    OnlyOneMessage(c.value, m);
  }

  lemma SecondIsMember(r: seq<Message>)
    requires |r| >= 2
    ensures r[0] in r && r[1] in r
  {
  }

  lemma OnlyOneMessage(r: seq<Message>, m: Message)
    requires DistinctIds(r) && |r| > 0
    requires forall x | x in r :: x == m
    ensures r == [m]
  {
    assert r[0] in r;
    if |r| >= 2 {
      SecondIsMember(r);
      assert false;
    }
  }

  /**
   * UserMessagesView: the recipients of the caller's sent messages together with the senders of the
   * messages it received, each once, restricted to existing users (the id__in filter).
   */
  function Contacts(msgs: seq<Message>, ids: set<UserId>, u: UserId): (r: set<UserId>)
    ensures r <= ids
    ensures forall x :: x in r <==> x in ids && exists m | m in msgs :: Involves(m, u, x)
  {
    var sentTo := set m | m in msgs && m.sender == u :: m.recipient;
    var receivedFrom := set m | m in msgs && m.recipient == u :: m.sender;
    (sentTo + receivedFrom) * ids
  }

  /** The contacts of `u` are exactly the existing users whose conversation with `u` is not an error. */
  lemma ContactsHaveConversations(msgs: seq<Message>, ids: set<UserId>, u: UserId, x: UserId)
    requires IdsDetermineRows(msgs)
    ensures x in Contacts(msgs, ids, u) <==> x in ids && Conversation(msgs, u, x).Success?
  {
    var m: Message :| true;
    ConversationContents(msgs, u, x, m);
    if x in ids && Conversation(msgs, u, x).Success? {
      var y :| y in msgs && Involves(y, u, x);
      if y.sender == u && y.recipient == x {
        assert x in (set m | m in msgs && m.sender == u :: m.recipient);
      } else {
        assert x in (set m | m in msgs && m.recipient == u :: m.sender);
      }
    }
  }
}
