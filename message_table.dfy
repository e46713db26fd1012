/**
 * The `messages` table of the bot's conversation store, as a sequence of rows
 * in row-id order, and the queries the store runs on it: the rows a WHERE
 * clause selects, the highest position of a user, the renumbering that a
 * deletion applies.
 *
 * Row ids only grow along the table, and the positions of each user's rows
 * never decrease along it, so "ORDER BY position" gives back the rows of one
 * user in table order. When every user's positions are exactly 0, 1, 2, ...
 * (`Contiguous`), a position is an index into that user's conversation.
 */
module MessageTable {
  import opened Wrappers

  datatype ChatRole = SystemRole | UserRole | BotRole

  /** One row; the timestamp is kept as an opaque number. */
  datatype Message = Message(id: int, userId: int, timestamp: int, position: int, role: ChatRole, message: string)

  /** The WHERE clauses the store puts on the messages table. */
  datatype RowFilter =
    | OfUser(userId: int)
    | NotOfUser(userId: int)
    | WithId(id: int)
    | NotId(id: int)
    | At(userId: int, position: int)
    | LaterThan(userId: int, position: int)

  predicate Keeps(f: RowFilter, m: Message)
  {
    match f
    case OfUser(u) => m.userId == u
    case NotOfUser(u) => m.userId != u
    case WithId(id) => m.id == id
    case NotId(id) => m.id != id
    case At(u, p) => m.userId == u && m.position == p
    case LaterThan(u, p) => m.userId == u && m.position > p
  }

  /** A filter that does not look at positions. */
  predicate PositionFree(f: RowFilter)
  {
    f.OfUser? || f.NotOfUser? || f.WithId? || f.NotId?
  }

  /** The rows a filter selects, in table order. */
  function Where(ms: seq<Message>, f: RowFilter): seq<Message>
  {
    if ms == [] then []
    else Where(ms[..|ms| - 1], f) + (if Keeps(f, ms[|ms| - 1]) then [ms[|ms| - 1]] else [])
  }

  /** One user's conversation, in table order. */
  function UserMessages(ms: seq<Message>, userId: int): seq<Message>
  {
    Where(ms, OfUser(userId))
  }

  predicate IdsIncreasing(ms: seq<Message>)
  {
    forall i, j :: 0 <= i < j < |ms| ==> ms[i].id < ms[j].id
  }

  predicate PositionsSorted(ms: seq<Message>)
  {
    forall i, j :: 0 <= i < j < |ms| && ms[i].userId == ms[j].userId ==> ms[i].position <= ms[j].position
  }

  /** Every user's conversation is numbered 0, 1, 2, ... in order. */
  ghost predicate Contiguous(ms: seq<Message>)
  {
    forall u, i :: 0 <= i < |UserMessages(ms, u)| ==> UserMessages(ms, u)[i].position == i
  }

  /** Two tables whose rows agree on id, owner and position (they may differ in role or text). */
  predicate SameKeys(a: seq<Message>, b: seq<Message>)
  {
    && |a| == |b|
    && forall k :: 0 <= k < |a| ==>
         a[k].id == b[k].id && a[k].userId == b[k].userId && a[k].position == b[k].position
  }

  /** The highest position among a user's rows, `None` when the user has none. */
  function MaxPosition(ms: seq<Message>, userId: int): (r: Option<int>)
    ensures r == None <==> forall k :: 0 <= k < |ms| ==> ms[k].userId != userId
    ensures r.Some? ==> forall k :: 0 <= k < |ms| && ms[k].userId == userId ==> ms[k].position <= r.value
    ensures r.Some? ==> exists k :: 0 <= k < |ms| && ms[k].userId == userId && ms[k].position == r.value
  {
    if ms == [] then None
    else
      var last := ms[|ms| - 1];
      var rest := MaxPosition(ms[..|ms| - 1], userId);
      if last.userId != userId then rest
      else if rest.Some? && rest.value > last.position then rest
      else Some(last.position)
  }

  /** The position a new message of the user gets: one past the highest, or 0. */
  function NextPosition(ms: seq<Message>, userId: int): int
  {
    match MaxPosition(ms, userId)
    case None => 0
    case Some(p) => p + 1
  }

  /** Some row carries this id. */
  predicate HasId(ms: seq<Message>, id: int)
  {
    exists k :: 0 <= k < |ms| && ms[k].id == id
  }

  /** The ids of some rows. */
  function RowIds(ms: seq<Message>): set<int>
  {
    set k | 0 <= k < |ms| :: ms[k].id
  }

  /** The first row a filter selects, as `fetchone()` returns it. */
  function FetchOne(ms: seq<Message>, f: RowFilter): (r: Option<Message>)
    ensures r.None? <==> forall k :: 0 <= k < |ms| ==> !Keeps(f, ms[k])
    ensures r.Some? ==> r.value in ms && Keeps(f, r.value)
  {
    var w := Where(ms, f);
    WhereMembers(ms, f);
    assert forall k :: 0 <= k < |ms| && Keeps(f, ms[k]) ==> ms[k] in w;
    if w == [] then None
    else
      assert w[0] in w;
      Some(w[0])
  }

  /**
   * The id SQLite gives a new row of a table without AUTOINCREMENT: one more
   * than the largest id in the table, or 1 when it is empty.
   */
  function NextRowId(ms: seq<Message>): (r: int)
    ensures IdsIncreasing(ms) ==> forall k :: 0 <= k < |ms| ==> ms[k].id < r
  {
    if ms == [] then 1 else ms[|ms| - 1].id + 1
  }

  /** `UPDATE messages SET position = ? WHERE id == ?`. */
  function WithPosition(ms: seq<Message>, id: int, position: int): (r: seq<Message>)
    ensures |r| == |ms|
  {
    seq(|ms|, k requires 0 <= k < |ms| => if ms[k].id == id then ms[k].(position := position) else ms[k])
  }

  /** `UPDATE messages SET message = ? WHERE user_id == ? AND role == SYSTEM`. */
  function WithSystemPrompt(ms: seq<Message>, userId: int, prompt: string): (r: seq<Message>)
    ensures SameKeys(ms, r)
  {
    seq(|ms|, k requires 0 <= k < |ms| =>
      if ms[k].userId == userId && ms[k].role == SystemRole then ms[k].(message := prompt) else ms[k])
  }

  /** One row after a deletion at `position` of `userId`: later rows of that user move down by one. */
  function Shifted(m: Message, userId: int, position: int): Message
  {
    if m.userId == userId && m.position > position then m.(position := m.position - 1) else m
  }

  /** The table after the batch of position updates a deletion issues. */
  function Renumbered(ms: seq<Message>, userId: int, position: int): (r: seq<Message>)
    ensures |r| == |ms|
  {
    seq(|ms|, k requires 0 <= k < |ms| => Shifted(ms[k], userId, position))
  }

  /** The `(id, position)` pairs of some rows. */
  function IdPositions(ms: seq<Message>): (r: seq<(int, int)>)
    ensures |r| == |ms|
  {
    seq(|ms|, k requires 0 <= k < |ms| => (ms[k].id, ms[k].position))
  }

  // ---------------------------------------------------------------------------
  // Filters

  lemma WhereAppend(ms: seq<Message>, x: Message, f: RowFilter)
    ensures Where(ms + [x], f) == Where(ms, f) + (if Keeps(f, x) then [x] else [])
  {
    assert (ms + [x])[..|ms|] == ms;
  }

  /** A filter keeps exactly the rows it accepts. */
  lemma {:induction false} WhereMembers(ms: seq<Message>, f: RowFilter)
    ensures forall x :: x in Where(ms, f) <==> x in ms && Keeps(f, x)
    decreases |ms|
  {
    if ms != [] {
      var init := ms[..|ms| - 1];
      WhereMembers(init, f);
      assert ms == init + [ms[|ms| - 1]];
    }
  }

  lemma {:induction false} WhereConcat(a: seq<Message>, b: seq<Message>, f: RowFilter)
    ensures Where(a + b, f) == Where(a, f) + Where(b, f)
    decreases |b|
  {
    if b == [] {
      assert a + b == a;
    } else {
      var init := b[..|b| - 1];
      var x := b[|b| - 1];
      WhereConcat(a, init, f);
      assert a + b == (a + init) + [x];
      WhereAppend(a + init, x, f);
    }
  }

  /** Filtering twice does not depend on the order of the filters. */
  lemma {:induction false} WhereCommute(ms: seq<Message>, f: RowFilter, g: RowFilter)
    ensures Where(Where(ms, f), g) == Where(Where(ms, g), f)
    decreases |ms|
  {
    if ms != [] {
      var init := ms[..|ms| - 1];
      var x := ms[|ms| - 1];
      WhereCommute(init, f, g);
      var wf, wg := Where(init, f), Where(init, g);
      assert Where(ms, f) == wf + (if Keeps(f, x) then [x] else []);
      assert Where(ms, g) == wg + (if Keeps(g, x) then [x] else []);
      if Keeps(f, x) {
        assert Where(ms, f) == wf + [x];
        WhereAppend(wf, x, g);
      } else {
        assert Where(ms, f) == wf;
      }
      if Keeps(g, x) {
        assert Where(ms, g) == wg + [x];
        WhereAppend(wg, x, f);
      } else {
        assert Where(ms, g) == wg;
      }
    }
  }

  lemma {:induction false} WhereAll(ms: seq<Message>, f: RowFilter)
    requires forall k :: 0 <= k < |ms| ==> Keeps(f, ms[k])
    ensures Where(ms, f) == ms
    decreases |ms|
  {
    if ms != [] {
      WhereAll(ms[..|ms| - 1], f);
    }
  }

  lemma {:induction false} WhereNone(ms: seq<Message>, f: RowFilter)
    requires forall k :: 0 <= k < |ms| ==> !Keeps(f, ms[k])
    ensures Where(ms, f) == []
    decreases |ms|
  {
    if ms != [] {
      WhereNone(ms[..|ms| - 1], f);
    }
  }

  lemma {:induction false} WhereIdsIncreasing(ms: seq<Message>, f: RowFilter)
    requires IdsIncreasing(ms)
    ensures IdsIncreasing(Where(ms, f))
    decreases |ms|
  {
    if ms != [] {
      var init := ms[..|ms| - 1];
      var x := ms[|ms| - 1];
      WhereIdsIncreasing(init, f);
      WhereMembers(init, f);
      var w := Where(init, f);
      forall i | 0 <= i < |w| ensures w[i].id < x.id {
        assert w[i] in init;
      }
    }
  }

  lemma {:induction false} WherePositionsSorted(ms: seq<Message>, f: RowFilter)
    requires PositionsSorted(ms)
    ensures PositionsSorted(Where(ms, f))
    decreases |ms|
  {
    if ms != [] {
      var init := ms[..|ms| - 1];
      var x := ms[|ms| - 1];
      WherePositionsSorted(init, f);
      WhereMembers(init, f);
      var w := Where(init, f);
      forall i | 0 <= i < |w| && w[i].userId == x.userId ensures w[i].position <= x.position {
        assert w[i] in init;
      }
    }
  }

  /** The pairs of a table grown by one row grow by that row's pair. */
  lemma IdPositionsAppend(ms: seq<Message>, x: Message)
    ensures IdPositions(ms + [x]) == IdPositions(ms) + [(x.id, x.position)]
  {
    assert forall k :: 0 <= k < |ms| ==> (ms + [x])[k] == ms[k];
  }

  /** `(id, position)` pairs whose positions all exceed `position` and never decrease. */
  predicate SortedPast(r: seq<(int, int)>, position: int)
  {
    forall i, j :: 0 <= i < j < |r| ==> position < r[i].1 <= r[j].1
  }

  /** The later messages of one user come in non-decreasing position order, all past `position`. */
  lemma LaterPositionsSorted(ms: seq<Message>, userId: int, position: int)
    requires PositionsSorted(ms)
    ensures SortedPast(IdPositions(Where(ms, LaterThan(userId, position))), position)
  {
    var later := Where(ms, LaterThan(userId, position));
    WherePositionsSorted(ms, LaterThan(userId, position));
    WhereMembers(ms, LaterThan(userId, position));
    assert forall i :: 0 <= i < |later| ==> later[i] in later;
  }

  /** A filter that reads only ids, owners and positions selects alike from tables with the same keys. */
  lemma {:induction false} WhereSameKeys(a: seq<Message>, b: seq<Message>, f: RowFilter)
    requires SameKeys(a, b)
    ensures SameKeys(Where(a, f), Where(b, f))
    decreases |a|
  {
    if a != [] {
      WhereSameKeys(a[..|a| - 1], b[..|b| - 1], f);
    }
  }

  /** With unique ids, dropping the id of row `r` removes that row and no other. */
  lemma WhereRemovesOne(ms: seq<Message>, r: nat)
    requires IdsIncreasing(ms) && r < |ms|
    ensures Where(ms, NotId(ms[r].id)) == ms[..r] + ms[r + 1..]
  {
    var f := NotId(ms[r].id);
    var a, b := ms[..r], ms[r + 1..];
    assert ms == (a + [ms[r]]) + b;
    assert Where(a, f) == a by {
      forall k | 0 <= k < |a| ensures Keeps(f, a[k]) {
        assert a[k] == ms[k] && ms[k].id < ms[r].id;
      }
      WhereAll(a, f);
    }
    assert Where(b, f) == b by {
      forall k | 0 <= k < |b| ensures Keeps(f, b[k]) {
        assert b[k] == ms[r + 1 + k] && ms[r].id < ms[r + 1 + k].id;
      }
      WhereAll(b, f);
    }
    assert Where(a + [ms[r]], f) == a by { WhereAppend(a, ms[r], f); }
    WhereConcat(a + [ms[r]], b, f);
  }

  /** Renumbering commutes with a filter that ignores positions. */
  lemma {:induction false} WhereRenumbered(ms: seq<Message>, userId: int, position: int, f: RowFilter)
    requires PositionFree(f)
    ensures Where(Renumbered(ms, userId, position), f) == Renumbered(Where(ms, f), userId, position)
    decreases |ms|
  {
    if ms != [] {
      var init := ms[..|ms| - 1];
      var x := ms[|ms| - 1];
      WhereRenumbered(init, userId, position, f);
      var x' := Shifted(x, userId, position);
      assert Renumbered(ms, userId, position) == Renumbered(init, userId, position) + [x'];
      WhereAppend(Renumbered(init, userId, position), x', f);
      assert Keeps(f, x') == Keeps(f, x);
      if Keeps(f, x) {
        assert Renumbered(Where(init, f) + [x], userId, position)
            == Renumbered(Where(init, f), userId, position) + [x'];
      }
    }
  }

  // ---------------------------------------------------------------------------
  // Positions

  /** Renumbering keeps each user's positions in non-decreasing order. */
  lemma RenumberedSorted(ms: seq<Message>, userId: int, position: int)
    requires PositionsSorted(ms)
    ensures PositionsSorted(Renumbered(ms, userId, position))
    ensures IdsIncreasing(ms) ==> IdsIncreasing(Renumbered(ms, userId, position))
  {
    var rs := Renumbered(ms, userId, position);
    forall i, j | 0 <= i < j < |rs| && rs[i].userId == rs[j].userId ensures rs[i].position <= rs[j].position {
      assert rs[i] == Shifted(ms[i], userId, position) && rs[j] == Shifted(ms[j], userId, position);
    }
  }

  /** In a table sorted by position, a user's conversation is sorted by position. */
  lemma UserMessagesSorted(ms: seq<Message>, userId: int)
    requires PositionsSorted(ms)
    ensures forall i, j :: 0 <= i < j < |UserMessages(ms, userId)| ==>
              UserMessages(ms, userId)[i].position <= UserMessages(ms, userId)[j].position
  {
    WherePositionsSorted(ms, OfUser(userId));
    WhereMembers(ms, OfUser(userId));
    var l := UserMessages(ms, userId);
    assert forall i :: 0 <= i < |l| ==> l[i] in l;
  }

  /** Appending a row at its user's next contiguous position keeps the table contiguous. */
  lemma ContiguousAppend(ms: seq<Message>, x: Message)
    requires Contiguous(ms) && x.position == |UserMessages(ms, x.userId)|
    ensures Contiguous(ms + [x])
  {
    forall u ensures UserMessages(ms + [x], u) == UserMessages(ms, u) + (if x.userId == u then [x] else []) {
      WhereAppend(ms, x, OfUser(u));
    }
  }

  /** Tables with the same keys are contiguous together. */
  lemma ContiguousSameKeys(a: seq<Message>, b: seq<Message>)
    requires SameKeys(a, b) && Contiguous(a)
    ensures Contiguous(b)
  {
    forall u, i | 0 <= i < |UserMessages(b, u)| ensures UserMessages(b, u)[i].position == i {
      WhereSameKeys(a, b, OfUser(u));
      assert UserMessages(a, u)[i].position == i;
    }
  }

  /** In a contiguous table, the next position of a user is the length of their conversation. */
  lemma NextPositionIsCount(ms: seq<Message>, userId: int)
    requires Contiguous(ms)
    ensures NextPosition(ms, userId) == |UserMessages(ms, userId)|
  {
    var l := UserMessages(ms, userId);
    WhereMembers(ms, OfUser(userId));
    var mp := MaxPosition(ms, userId);
    if mp.None? {
      WhereNone(ms, OfUser(userId));
    } else {
      var k :| 0 <= k < |ms| && ms[k].userId == userId && ms[k].position == mp.value;
      assert ms[k] in l;
      var j :| 0 <= j < |l| && l[j] == ms[k];
      var n := |l|;
      assert l[n - 1] in ms;
      var k' :| 0 <= k' < |ms| && ms[k'] == l[n - 1];
      assert l[n - 1].position == n - 1 <= mp.value;
    }
  }

  /** A unique id picks out one row: any row with a stored row's id is that row. */
  lemma SameIdSameRow(ms: seq<Message>, x: Message, y: Message)
    requires IdsIncreasing(ms) && x in ms && y in ms && x.id == y.id
    ensures x == y
  {
    var i :| 0 <= i < |ms| && ms[i] == x;
    var j :| 0 <= j < |ms| && ms[j] == y;
    assert i == j;
  }

  /** A stored message sits in its user's conversation at the index its position names. */
  lemma StoredMessageIndex(ms: seq<Message>, m: Message)
    requires Contiguous(ms) && m in ms
    ensures 0 <= m.position < |UserMessages(ms, m.userId)| && UserMessages(ms, m.userId)[m.position] == m
  {
    var l := UserMessages(ms, m.userId);
    WhereMembers(ms, OfUser(m.userId));
    var r :| 0 <= r < |l| && l[r] == m;
  }

  /** After the deletion, each conversation is the renumbered one without the deleted id. */
  lemma DeleteThroughConversation(ms: seq<Message>, m: Message, u: int)
    ensures UserMessages(Where(Renumbered(ms, m.userId, m.position), NotId(m.id)), u)
            == Where(Renumbered(UserMessages(ms, u), m.userId, m.position), NotId(m.id))
  {
    WhereCommute(Renumbered(ms, m.userId, m.position), NotId(m.id), OfUser(u));
    WhereRenumbered(ms, m.userId, m.position, OfUser(u));
  }

  /** Deleting a stored message leaves every other user's conversation as it was. */
  lemma DeleteKeepsOtherUsers(ms: seq<Message>, m: Message, u: int)
    requires IdsIncreasing(ms) && m in ms && u != m.userId
    ensures UserMessages(Where(Renumbered(ms, m.userId, m.position), NotId(m.id)), u) == UserMessages(ms, u)
  {
    DeleteThroughConversation(ms, m, u);
    var lu := UserMessages(ms, u);
    WhereMembers(ms, OfUser(u));
    forall k | 0 <= k < |lu| ensures Renumbered(lu, m.userId, m.position)[k] == lu[k] {
      assert lu[k] in lu;
    }
    assert Renumbered(lu, m.userId, m.position) == lu;
    forall k | 0 <= k < |lu| ensures Keeps(NotId(m.id), lu[k]) {
      assert lu[k] in lu;
      if lu[k].id == m.id { SameIdSameRow(ms, lu[k], m); }
    }
    WhereAll(lu, NotId(m.id));
  }

  /** Deleting a stored message removes it from its user's conversation and moves the later ones down. */
  lemma DeleteRenumbersOwnUser(ms: seq<Message>, m: Message)
    requires IdsIncreasing(ms) && Contiguous(ms) && m in ms
    ensures var l := UserMessages(ms, m.userId);
            && 0 <= m.position < |l|
            && UserMessages(Where(Renumbered(ms, m.userId, m.position), NotId(m.id)), m.userId)
               == l[..m.position] + Renumbered(l[m.position + 1..], m.userId, m.position)
  {
    var u0, p := m.userId, m.position;
    var l := UserMessages(ms, u0);
    StoredMessageIndex(ms, m);
    DeleteThroughConversation(ms, m, u0);
    var rl := Renumbered(l, u0, p);
    assert IdsIncreasing(rl) by {
      WhereIdsIncreasing(ms, OfUser(u0));
    }
    assert rl[p] == m;
    WhereRemovesOne(rl, p);
    forall i | 0 <= i < p ensures rl[i] == l[i] {
      assert l[i].position == i;
    }
    assert rl[..p] == l[..p];
    assert rl[p + 1..] == Renumbered(l[p + 1..], u0, p);
  }

  /**
   * Deleting a stored message `m`: its user's conversation loses `m` and
   * every later message moves down one place, so the positions stay 0..n-1;
   * every other user's conversation is unchanged.
   */
  lemma DeleteStoredMessage(ms: seq<Message>, m: Message)
    requires IdsIncreasing(ms) && Contiguous(ms) && m in ms
    ensures var after := Where(Renumbered(ms, m.userId, m.position), NotId(m.id));
            var l := UserMessages(ms, m.userId);
            && 0 <= m.position < |l| && l[m.position] == m
            && UserMessages(after, m.userId) == l[..m.position] + Renumbered(l[m.position + 1..], m.userId, m.position)
            && UserMessages(after, m.userId) == ConversationWithout(l, m.userId, m.position)
            && |UserMessages(after, m.userId)| == |l| - 1
            && (forall u :: u != m.userId ==> UserMessages(after, u) == UserMessages(ms, u))
            && Contiguous(after)
  {
    var u0, p := m.userId, m.position;
    var after := Where(Renumbered(ms, u0, p), NotId(m.id));
    var l := UserMessages(ms, u0);
    StoredMessageIndex(ms, m);
    DeleteRenumbersOwnUser(ms, m);
    forall u | u != u0 ensures UserMessages(after, u) == UserMessages(ms, u) {
      DeleteKeepsOtherUsers(ms, m, u);
    }
    var la := UserMessages(after, u0);
    forall u, i | 0 <= i < |UserMessages(after, u)| ensures UserMessages(after, u)[i].position == i {
      if u != u0 {
        assert UserMessages(after, u) == UserMessages(ms, u);
        assert UserMessages(ms, u)[i].position == i;
      } else if i < p {
        assert la == l[..p] + Renumbered(l[p + 1..], u0, p);
        assert la[i] == l[i] && l[i].position == i;
      } else {
        assert la == l[..p] + Renumbered(l[p + 1..], u0, p);
        assert la[i] == Renumbered(l[p + 1..], u0, p)[i - p];
        assert la[i] == Shifted(l[i + 1], u0, p) && l[i + 1].position == i + 1;
        WhereMembers(ms, OfUser(u0));
        assert l[i + 1] in l;
      }
    }
  }

  /** Removing every row of a user empties their conversation and leaves the others' alone. */
  lemma DeleteUserRows(ms: seq<Message>, userId: int)
    ensures forall u :: UserMessages(Where(ms, NotOfUser(userId)), u)
                        == if u == userId then [] else UserMessages(ms, u)
  {
    forall u ensures UserMessages(Where(ms, NotOfUser(userId)), u)
                     == if u == userId then [] else UserMessages(ms, u) {
      WhereCommute(ms, NotOfUser(userId), OfUser(u));
      var lu := UserMessages(ms, u);
      WhereMembers(ms, OfUser(u));
      assert forall k :: 0 <= k < |lu| ==> lu[k] in ms;
      if u == userId {
        WhereNone(lu, NotOfUser(userId));
      } else {
        WhereAll(lu, NotOfUser(userId));
      }
    }
  }

  /** Removing a user's rows keeps every conversation numbered 0, 1, 2, ... */
  lemma ContiguousWithoutUser(ms: seq<Message>, userId: int)
    requires Contiguous(ms)
    ensures Contiguous(Where(ms, NotOfUser(userId)))
  {
    DeleteUserRows(ms, userId);
  }

  lemma RowIdsAppend(ms: seq<Message>, x: Message)
    ensures RowIds(ms + [x]) == RowIds(ms) + {x.id}
  {
    var s := ms + [x];
    assert forall k :: 0 <= k < |ms| ==> s[k] == ms[k];
    assert s[|ms|] == x;
  }

  /**
   * The rows a deletion renumbers are known by their ids alone: a row's id is
   * among the selected ones exactly when the row is selected, and a selected
   * row with the id of a stored row is that row.
   */
  lemma LaterRows(ms: seq<Message>, userId: int, position: int)
    requires IdsIncreasing(ms)
    ensures var later := Where(ms, LaterThan(userId, position));
            && (forall k :: 0 <= k < |ms| ==> (ms[k].id in RowIds(later) <==> Keeps(LaterThan(userId, position), ms[k])))
            && (forall j, k :: 0 <= j < |later| && 0 <= k < |ms| && later[j].id == ms[k].id ==> later[j] == ms[k])
  {
    var f := LaterThan(userId, position);
    var later := Where(ms, f);
    WhereMembers(ms, f);
    forall j, k | 0 <= j < |later| && 0 <= k < |ms| && later[j].id == ms[k].id ensures later[j] == ms[k] {
      assert later[j] in later;
      SameIdSameRow(ms, later[j], ms[k]);
    }
    forall k | 0 <= k < |ms| ensures ms[k].id in RowIds(later) <==> Keeps(f, ms[k]) {
      if ms[k].id in RowIds(later) {
        var j :| 0 <= j < |later| && later[j].id == ms[k].id;
        assert later[j] == ms[k];
        assert later[j] in later;
      }
      if Keeps(f, ms[k]) {
        assert ms[k] in later;
        var j :| 0 <= j < |later| && later[j] == ms[k];
      }
    }
  }

  /** The rows whose ids are listed, each moved down one position. */
  function MovedDown(ms: seq<Message>, ids: set<int>): (r: seq<Message>)
    ensures |r| == |ms|
  {
    seq(|ms|, k requires 0 <= k < |ms| => if ms[k].id in ids then ms[k].(position := ms[k].position - 1) else ms[k])
  }

  /** One update of the batch moves one more selected row down. */
  lemma MovedDownStep(ms: seq<Message>, ids: set<int>, x: Message)
    requires forall k :: 0 <= k < |ms| && ms[k].id == x.id ==> ms[k] == x
    ensures WithPosition(MovedDown(ms, ids), x.id, x.position - 1) == MovedDown(ms, ids + {x.id})
  {
    var a := WithPosition(MovedDown(ms, ids), x.id, x.position - 1);
    var b := MovedDown(ms, ids + {x.id});
    forall k | 0 <= k < |ms| ensures a[k] == b[k] {
      if ms[k].id == x.id {
        assert ms[k] == x;
      }
    }
  }

  /** Moving down exactly the rows after a position is the renumbering a deletion needs. */
  lemma MovedDownLater(ms: seq<Message>, userId: int, position: int)
    requires IdsIncreasing(ms)
    ensures MovedDown(ms, RowIds(Where(ms, LaterThan(userId, position)))) == Renumbered(ms, userId, position)
  {
    LaterRows(ms, userId, position);
  }

  /**
   * A conversation after the message at `position` is deleted from it: the
   * later messages move down one place. A position outside the conversation
   * leaves it as it is.
   */
  function ConversationWithout(l: seq<Message>, userId: int, position: int): (r: seq<Message>)
    ensures |r| == if 0 <= position < |l| then |l| - 1 else |l|
  {
    if 0 <= position < |l| then l[..position] + Renumbered(l[position + 1..], userId, position) else l
  }

  /** Appending a row with the next id and its user's next position keeps the table's order invariants. */
  lemma AppendNextRow(ms: seq<Message>, x: Message)
    requires IdsIncreasing(ms) && PositionsSorted(ms)
    requires x.id == NextRowId(ms) && x.position == NextPosition(ms, x.userId)
    ensures IdsIncreasing(ms + [x]) && PositionsSorted(ms + [x])
    ensures UserMessages(ms + [x], x.userId) == UserMessages(ms, x.userId) + [x]
    ensures Contiguous(ms) ==> Contiguous(ms + [x]) && x.position == |UserMessages(ms, x.userId)|
  {
    var s := ms + [x];
    assert forall k :: 0 <= k < |ms| ==> s[k] == ms[k];
    forall i, j | 0 <= i < j < |s| && s[i].userId == s[j].userId ensures s[i].position <= s[j].position {
      if j == |ms| {
        assert s[i] == ms[i];
      }
    }
    WhereAppend(ms, x, OfUser(x.userId));
    if Contiguous(ms) {
      NextPositionIsCount(ms, x.userId);
      ContiguousAppend(ms, x);
    }
  }

  /** The deletion keeps the table's order invariants and every row's owner. */
  lemma DeletionKeepsOrder(ms: seq<Message>, m: Message, owners: set<int>)
    requires IdsIncreasing(ms) && PositionsSorted(ms)
    requires forall k :: 0 <= k < |ms| ==> ms[k].userId in owners
    ensures var after := Where(Renumbered(ms, m.userId, m.position), NotId(m.id));
            && IdsIncreasing(after) && PositionsSorted(after)
            && forall k :: 0 <= k < |after| ==> after[k].userId in owners
  {
    var renumbered := Renumbered(ms, m.userId, m.position);
    RenumberedSorted(ms, m.userId, m.position);
    WhereIdsIncreasing(renumbered, NotId(m.id));
    WherePositionsSorted(renumbered, NotId(m.id));
    WhereMembers(renumbered, NotId(m.id));
    var after := Where(renumbered, NotId(m.id));
    forall k | 0 <= k < |after| ensures after[k].userId in owners {
      assert after[k] in renumbered;
      var j :| 0 <= j < |renumbered| && renumbered[j] == after[k];
    }
  }

  /**
   * Removing a user's rows keeps the table's order invariants, keeps every
   * remaining row's owner among `owners` less that user, and keeps every
   * conversation numbered 0, 1, 2, ...; with no row of that user it changes nothing.
   */
  lemma UserRemovalKeepsOrder(ms: seq<Message>, userId: int, owners: set<int>)
    requires IdsIncreasing(ms) && PositionsSorted(ms)
    requires forall k :: 0 <= k < |ms| ==> ms[k].userId in owners
    ensures var after := Where(ms, NotOfUser(userId));
            && IdsIncreasing(after) && PositionsSorted(after)
            && (forall k :: 0 <= k < |after| ==> after[k].userId in owners - {userId})
            && (Contiguous(ms) ==> Contiguous(after))
            && (userId !in owners ==> after == ms)
            && ((forall k :: 0 <= k < |ms| ==> ms[k].userId != userId) ==> after == ms)
  {
    var after := Where(ms, NotOfUser(userId));
    WhereIdsIncreasing(ms, NotOfUser(userId));
    WherePositionsSorted(ms, NotOfUser(userId));
    WhereMembers(ms, NotOfUser(userId));
    forall k | 0 <= k < |after| ensures after[k].userId in owners - {userId} {
      assert after[k] in ms;
      var j :| 0 <= j < |ms| && ms[j] == after[k];
    }
    if Contiguous(ms) {
      ContiguousWithoutUser(ms, userId);
    }
    if forall k :: 0 <= k < |ms| ==> ms[k].userId != userId {
      WhereAll(ms, NotOfUser(userId));
    }
  }

  /** No filter looks at a row's text, so rewriting system prompts commutes with every filter. */
  lemma {:induction false} WhereWithSystemPrompt(ms: seq<Message>, userId: int, prompt: string, f: RowFilter)
    ensures Where(WithSystemPrompt(ms, userId, prompt), f) == WithSystemPrompt(Where(ms, f), userId, prompt)
    decreases |ms|
  {
    if ms != [] {
      var n := |ms|;
      var init := ms[..n - 1];
      var ws := WithSystemPrompt(ms, userId, prompt);
      assert ws[..n - 1] == WithSystemPrompt(init, userId, prompt);
      WhereWithSystemPrompt(init, userId, prompt, f);
      var a := Where(init, f);
      var tail := if Keeps(f, ms[n - 1]) then [ms[n - 1]] else [];
      assert WithSystemPrompt(a + tail, userId, prompt)
             == WithSystemPrompt(a, userId, prompt) + WithSystemPrompt(tail, userId, prompt);
    }
  }

  /**
   * Rewriting a user's system prompt changes the text of that user's system
   * messages and nothing else: every other conversation reads as before.
   */
  lemma SystemPromptRewrite(ms: seq<Message>, userId: int, prompt: string)
    ensures forall u :: u != userId ==> UserMessages(WithSystemPrompt(ms, userId, prompt), u) == UserMessages(ms, u)
    ensures UserMessages(WithSystemPrompt(ms, userId, prompt), userId) == WithSystemPrompt(UserMessages(ms, userId), userId, prompt)
  {
    WhereWithSystemPrompt(ms, userId, prompt, OfUser(userId));
    forall u | u != userId ensures UserMessages(WithSystemPrompt(ms, userId, prompt), u) == UserMessages(ms, u) {
      WhereWithSystemPrompt(ms, userId, prompt, OfUser(u));
      var l := UserMessages(ms, u);
      WhereMembers(ms, OfUser(u));
      assert forall k :: 0 <= k < |l| ==> l[k] in l;
    }
  }
}
