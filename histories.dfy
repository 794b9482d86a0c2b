/**
 * The chat-history query of `GET /messages/:senderId/:receiverId` (backend/server.js:49-56):
 * the rows sent from a to b or from b to a, in ascending timestamp order. It is modelled as
 * a scan of the table in id order followed by a sort. SQL leaves the order of rows with
 * equal timestamps open; the model breaks such ties by id.
 */
module Histories {
  import opened Messages

  /** The WHERE clause: the row was sent from one of the two users to the other. */
  predicate Between(m: Message, a: UserId, b: UserId) {
    (m.sender == a && m.receiver == b) || (m.sender == b && m.receiver == a)
  }

  /** The result order: ascending timestamp, ties by ascending id. */
  predicate Before(x: Message, y: Message) {
    x.timestamp < y.timestamp || (x.timestamp == y.timestamp && x.id < y.id)
  }

  /** Strictly ascending in the result order (so in particular no row twice). */
  predicate Ordered(s: seq<Message>) {
    forall i, j :: 0 <= i < j < |s| ==> Before(s[i], s[j])
  }

  /** No two entries share an id. */
  predicate DistinctIds(s: seq<Message>) {
    forall i, j :: 0 <= i < j < |s| ==> s[i].id != s[j].id
  }

  /** The rows with ids 0 to n - 1 that satisfy the WHERE clause, in id order. */
  function Scan(ledger: map<MessageId, Message>, a: UserId, b: UserId, n: int): (r: seq<Message>)
    ensures forall i :: 0 <= i < |r| ==> Between(r[i], a, b) && r[i] in ledger.Values
    decreases n
  {
    if n <= 0 then []
    else
      var k := n - 1;
      Scan(ledger, a, b, k) + (if k in ledger && Between(ledger[k], a, b) then [ledger[k]] else [])
  }

  /** Puts m in front of the first entry it comes before. */
  function Insert(m: Message, s: seq<Message>): (r: seq<Message>)
    ensures multiset(r) == multiset(s) + multiset{m}
  {
    if s == [] || Before(m, s[0]) then [m] + s
    else
      assert s == [s[0]] + s[1..];
      [s[0]] + Insert(m, s[1..])
  }

  /** Insertion sort in the result order. */
  function Sort(s: seq<Message>): (r: seq<Message>)
    ensures multiset(r) == multiset(s)
  {
    if s == [] then []
    else
      assert s == [s[0]] + s[1..];
      Insert(s[0], Sort(s[1..]))
  }

  /** Inserting an entry whose id is new into an ordered sequence keeps it ordered. */
  lemma {:induction false} InsertOrdered(m: Message, s: seq<Message>)
    requires Ordered(s)
    requires forall k :: 0 <= k < |s| ==> s[k].id != m.id
    ensures Ordered(Insert(m, s))
    decreases |s|
  {
    if s == [] || Before(m, s[0]) {
      var r := [m] + s;
      assert Insert(m, s) == r;
      forall i, j | 0 <= i < j < |r| ensures Before(r[i], r[j]) {
        if i == 0 {
          assert r[j] == s[j - 1];
          if j > 1 { assert Before(s[0], s[j - 1]); }
        } else {
          assert r[i] == s[i - 1] && r[j] == s[j - 1];
        }
      }
    } else {
      InsertOrdered(m, s[1..]);
      var rest := Insert(m, s[1..]);
      var r := [s[0]] + rest;
      assert Insert(m, s) == r;
      assert s[0].id != m.id;
      forall x | x in rest ensures Before(s[0], x) {
        assert x in multiset(rest);
        if x != m {
          assert x in multiset(s[1..]);
          var k :| 0 <= k < |s[1..]| && s[1..][k] == x;
          assert s[k + 1] == x;
        }
      }
      forall i, j | 0 <= i < j < |r| ensures Before(r[i], r[j]) {
        assert r[j] == rest[j - 1];
        if i == 0 {
          assert rest[j - 1] in rest;
        } else {
          assert r[i] == rest[i - 1];
        }
      }
    }
  }

  /** Sorting entries with distinct ids gives a strictly ordered sequence. */
  lemma {:induction false} SortOrdered(s: seq<Message>)
    requires DistinctIds(s)
    ensures Ordered(Sort(s))
    decreases |s|
  {
    if s != [] {
      assert DistinctIds(s[1..]) by {
        forall i, j | 0 <= i < j < |s[1..]| ensures s[1..][i].id != s[1..][j].id {
          assert s[1..][i] == s[i + 1] && s[1..][j] == s[j + 1];
        }
      }
      SortOrdered(s[1..]);
      var rest := Sort(s[1..]);
      forall k | 0 <= k < |rest| ensures rest[k].id != s[0].id {
        assert rest[k] in multiset(rest);
        assert rest[k] in multiset(s[1..]);
        var j :| 0 <= j < |s[1..]| && s[1..][j] == rest[k];
        assert s[j + 1] == rest[k];
      }
      InsertOrdered(s[0], rest);
    }
  }

  /**
   * The query's answer for the pair (a, b) on a table whose ids lie below nextId: every row
   * it returns is a row of the table sent between a and b. `HistoryCharacterized` shows it
   * returns all of them, in order.
   */
  function History(ledger: map<MessageId, Message>, nextId: MessageId, a: UserId, b: UserId): (h: seq<Message>)
    ensures forall m :: m in h ==> Between(m, a, b) && m in ledger.Values
  {
    var s := Scan(ledger, a, b, nextId);
    var h := Sort(s);
    assert forall m :: m in h ==> m in s by {
      forall m | m in h ensures m in s {
        assert m in multiset(h);
      }
    }
    h
  }

  /** The scan holds exactly the matching rows with ids below n, in strictly ascending id order. */
  lemma {:induction false} ScanFacts(ledger: map<MessageId, Message>, a: UserId, b: UserId, n: int)
    requires forall k :: k in ledger ==> ledger[k].id == k
    ensures forall i, j :: 0 <= i < j < |Scan(ledger, a, b, n)| ==>
              Scan(ledger, a, b, n)[i].id < Scan(ledger, a, b, n)[j].id
    ensures forall m :: m in Scan(ledger, a, b, n) <==>
              (0 <= m.id < n && m.id in ledger && ledger[m.id] == m && Between(m, a, b))
    decreases n
  {
    if n > 0 {
      ScanFacts(ledger, a, b, n - 1);
      var k := n - 1;
      var s := Scan(ledger, a, b, k);
      var tail := if k in ledger && Between(ledger[k], a, b) then [ledger[k]] else [];
      assert Scan(ledger, a, b, n) == s + tail;
      forall m: Message ensures m in s + tail <==> (0 <= m.id < n && m.id in ledger && ledger[m.id] == m && Between(m, a, b)) {
        assert m in s + tail <==> m in s || m in tail;
        if m.id == k && m.id in ledger && ledger[m.id] == m && Between(m, a, b) {
          assert m in tail;
        }
      }
      forall i, j | 0 <= i < j < |s + tail| ensures (s + tail)[i].id < (s + tail)[j].id {
        if j >= |s| {
          assert (s + tail)[j] == ledger[k];
          assert (s + tail)[i] == s[i];
          assert s[i] in s;
        } else {
          assert (s + tail)[i] == s[i] && (s + tail)[j] == s[j];
        }
      }
    }
  }

  /**
   * The history for (a, b) is strictly ordered by timestamp (ties by id) and holds exactly
   * the rows of the table sent between a and b, in either direction.
   */
  lemma HistoryCharacterized(ledger: map<MessageId, Message>, nextId: MessageId, a: UserId, b: UserId)
    requires WellFormed(ledger, nextId)
    ensures Ordered(History(ledger, nextId, a, b))
    ensures forall m :: m in History(ledger, nextId, a, b) <==> Stored(ledger, m) && Between(m, a, b)
  {
    var s := Scan(ledger, a, b, nextId);
    ScanFacts(ledger, a, b, nextId);
    assert DistinctIds(s);
    SortOrdered(s);
    var h := History(ledger, nextId, a, b);
    forall m: Message ensures m in h <==> m in s {
      assert m in h <==> m in multiset(h);
    }
  }

  /** Two strictly ordered sequences with the same entries are the same sequence. */
  lemma {:induction false} OrderedUnique(s: seq<Message>, t: seq<Message>)
    requires Ordered(s) && Ordered(t)
    requires forall m :: m in s <==> m in t
    ensures s == t
    decreases |s|
  {
    if s == [] {
      assert forall k :: 0 <= k < |t| ==> t[k] in t;
    } else {
      assert s[0] in s && s[0] in t;
      assert t[0] in t && t[0] in s;
      var i :| 0 <= i < |s| && s[i] == t[0];
      var j :| 0 <= j < |t| && t[j] == s[0];
      assert i != 0 ==> Before(s[0], t[0]);
      assert j != 0 ==> Before(t[0], s[0]);
      assert s[0] == t[0];
      forall m: Message ensures m in s[1..] <==> m in t[1..] {
        if m in s[1..] {
          var i :| 1 <= i < |s| && s[i] == m;
          assert Before(s[0], s[i]);
          assert m in t;
        }
        if m in t[1..] {
          var j :| 1 <= j < |t| && t[j] == m;
          assert Before(t[0], t[j]);
          assert m in s;
        }
      }
      OrderedUnique(s[1..], t[1..]);
      assert s == [s[0]] + s[1..];
      assert t == [t[0]] + t[1..];
    }
  }

  /**
   * The history is determined by what it promises: any strictly ordered sequence holding
   * exactly the rows between a and b is the history, whatever the order of insertion.
   */
  lemma HistoryDetermined(ledger: map<MessageId, Message>, nextId: MessageId, a: UserId, b: UserId,
                          s: seq<Message>)
    requires WellFormed(ledger, nextId)
    requires Ordered(s)
    requires forall m :: m in s <==> Stored(ledger, m) && Between(m, a, b)
    ensures s == History(ledger, nextId, a, b)
  {
    HistoryCharacterized(ledger, nextId, a, b);
    OrderedUnique(s, History(ledger, nextId, a, b));
  }

  lemma {:induction false} ScanSymmetric(ledger: map<MessageId, Message>, a: UserId, b: UserId, n: int)
    ensures Scan(ledger, a, b, n) == Scan(ledger, b, a, n)
    decreases n
  {
    if n > 0 {
      ScanSymmetric(ledger, a, b, n - 1);
    }
  }

  /** Asking for (b, a) gives the same thread as asking for (a, b). */
  lemma HistorySymmetric(ledger: map<MessageId, Message>, nextId: MessageId, a: UserId, b: UserId)
    ensures History(ledger, nextId, a, b) == History(ledger, nextId, b, a)
  {
    ScanSymmetric(ledger, a, b, nextId);
  }

  lemma {:induction false} ScanUnaffected(ledger: map<MessageId, Message>, k: MessageId, r: Message,
                                          a: UserId, b: UserId, n: int)
    requires k in ledger ==> !Between(ledger[k], a, b)
    requires !Between(r, a, b)
    ensures Scan(ledger[k := r], a, b, n) == Scan(ledger, a, b, n)
    decreases n
  {
    if n > 0 {
      ScanUnaffected(ledger, k, r, a, b, n - 1);
    }
  }

  /**
   * Writing a row that lies outside the thread of (a, b), before and after the write,
   * leaves that thread's history as it was: an update in one conversation is invisible in
   * every other (for inserts, which also advance the id counter, see `InsertElsewhere`).
   */
  lemma HistoryUnaffected(ledger: map<MessageId, Message>, nextId: MessageId, k: MessageId, r: Message,
                          a: UserId, b: UserId)
    requires k in ledger ==> !Between(ledger[k], a, b)
    requires !Between(r, a, b)
    ensures History(ledger[k := r], nextId, a, b) == History(ledger, nextId, a, b)
  {
    ScanUnaffected(ledger, k, r, a, b, nextId);
  }

  /**
   * After an INSERT under the next id, the history of every pair holds what it held before
   * plus the new row exactly when the new row is sent between that pair.
   */
  lemma HistoryAfterInsert(ledger: map<MessageId, Message>, nextId: MessageId, r: Message,
                           a: UserId, b: UserId)
    requires WellFormed(ledger, nextId)
    requires r.id == nextId && Consistent(r)
    ensures WellFormed(ledger[nextId := r], nextId + 1)
    ensures forall m :: m in History(ledger[nextId := r], nextId + 1, a, b) <==>
              m in History(ledger, nextId, a, b) || (m == r && Between(r, a, b))
  {
    var after := ledger[nextId := r];
    InsertWellFormed(ledger, nextId, r);
    HistoryCharacterized(ledger, nextId, a, b);
    HistoryCharacterized(after, nextId + 1, a, b);
    InsertStored(ledger, nextId, r);
  }

  /**
   * An INSERT in one conversation is invisible in every other: the history of a pair the
   * new row is not between stays exactly as it was, although the id counter advances.
   */
  lemma InsertElsewhere(ledger: map<MessageId, Message>, nextId: MessageId, r: Message,
                        a: UserId, b: UserId)
    requires WellFormed(ledger, nextId)
    requires r.id == nextId && Consistent(r) && !Between(r, a, b)
    ensures History(ledger[nextId := r], nextId + 1, a, b) == History(ledger, nextId, a, b)
  {
    HistoryAfterInsert(ledger, nextId, r, a, b);
    HistoryCharacterized(ledger, nextId, a, b);
    HistoryCharacterized(ledger[nextId := r], nextId + 1, a, b);
    OrderedUnique(History(ledger[nextId := r], nextId + 1, a, b), History(ledger, nextId, a, b));
  }

  lemma InsertWellFormed(ledger: map<MessageId, Message>, nextId: MessageId, r: Message)
    requires WellFormed(ledger, nextId)
    requires r.id == nextId && Consistent(r)
    ensures WellFormed(ledger[nextId := r], nextId + 1)
  {
    var after := ledger[nextId := r];
    forall id | id in after
      ensures 1 <= id < nextId + 1 && after[id].id == id && Consistent(after[id])
    {
      if id != nextId { assert after[id] == ledger[id]; }
    }
  }

  lemma InsertStored(ledger: map<MessageId, Message>, nextId: MessageId, r: Message)
    requires WellFormed(ledger, nextId)
    requires r.id == nextId
    ensures forall m :: Stored(ledger[nextId := r], m) <==> Stored(ledger, m) || m == r
  {
    assert nextId !in ledger;
    forall m: Message ensures Stored(ledger[nextId := r], m) <==> Stored(ledger, m) || m == r {
      if m.id == nextId {
        assert Stored(ledger[nextId := r], m) <==> m == r;
      }
    }
  }

  /**
   * Rewriting a row in place (as edit and delete for everyone do: same id, parties and
   * timestamp) changes every history at that row's position only: the sequences have the
   * same length and agree everywhere except that the old row is replaced by the new one.
   */
  lemma HistoryAfterRewrite(ledger: map<MessageId, Message>, nextId: MessageId, k: MessageId, r: Message,
                            a: UserId, b: UserId)
    requires WellFormed(ledger, nextId)
    requires k in ledger && SameOrigin(ledger[k], r) && Consistent(r)
    ensures WellFormed(ledger[k := r], nextId)
    ensures var before, after := History(ledger, nextId, a, b), History(ledger[k := r], nextId, a, b);
            |after| == |before| &&
            forall i :: 0 <= i < |before| ==> after[i] == if before[i].id == k then r else before[i]
  {
    var after := ledger[k := r];
    assert WellFormed(after, nextId);
    var h := History(ledger, nextId, a, b);
    HistoryCharacterized(ledger, nextId, a, b);
    var s := seq(|h|, i requires 0 <= i < |h| => if h[i].id == k then r else h[i]);
    forall i | 0 <= i < |h| ensures s[i].id == h[i].id && s[i].timestamp == h[i].timestamp {
      assert h[i] in h;
    }
    assert Ordered(s) by {
      forall i, j | 0 <= i < j < |s| ensures Before(s[i], s[j]) {
        assert Before(h[i], h[j]);
      }
    }
    forall m: Message ensures m in s <==> Stored(after, m) && Between(m, a, b) {
      if m in s {
        var i :| 0 <= i < |s| && s[i] == m;
        assert h[i] in h;
      }
      if Stored(after, m) && Between(m, a, b) {
        if m.id == k {
          assert Stored(ledger, ledger[k]) && ledger[k] in h;
          var i :| 0 <= i < |h| && h[i] == ledger[k];
          assert s[i] == m;
        } else {
          assert ledger[m.id] == m;
          var i :| 0 <= i < |h| && h[i] == m;
          assert s[i] == m;
        }
      }
    }
    HistoryDetermined(after, nextId, a, b, s);
  }
}
