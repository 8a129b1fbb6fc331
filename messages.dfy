/** The message service (app/services/message_service.py) over the `messages`
    table, held as its rows in insertion order. Timestamps are integers passed
    in by the caller instead of `datetime.utcnow()`. */
module Messages {
  import opened Wrappers
  import opened Database

  /** The default `limit` of `get_conversation`. */
  const DefaultConversationLimit: nat := 50

  /** Sent from `a` to `b` or from `b` to `a`. */
  predicate Between(m: Message, a: int, b: int) {
    (m.senderId == a && m.recipientId == b) || (m.senderId == b && m.recipientId == a)
  }

  /** `u` sent or received `m`. */
  predicate Involves(m: Message, u: int) {
    m.senderId == u || m.recipientId == u
  }

  /** The other party of `m` seen from `u`: the recipient when `u` sent it,
      otherwise the sender. */
  function Partner(m: Message, u: int): (r: int)
    ensures Involves(m, u) ==> Between(m, u, r)
  {
    if m.senderId == u then m.recipientId else m.senderId
  }

  /** `m` is an unread message to `u` from `p`. */
  predicate UnreadFrom(m: Message, u: int, p: int) {
    m.recipientId == u && m.senderId == p && !m.read
  }

  /** The messages of `t` between `a` and `b`, in table order. */
  function Exchanged(t: seq<Message>, a: int, b: int): (r: seq<Message>)
    ensures forall m :: m in r <==> m in t && Between(m, a, b)
    decreases |t|
  {
    if t == [] then []
    else
      var init := t[..|t| - 1];
      var last := t[|t| - 1];
      assert t == init + [last];
      Exchanged(init, a, b) + (if Between(last, a, b) then [last] else [])
  }

  /** The messages of `t` that `u` sent or received, in table order. */
  function Involving(t: seq<Message>, u: int): (r: seq<Message>)
    ensures forall m :: m in r <==> m in t && Involves(m, u)
    decreases |t|
  {
    if t == [] then []
    else
      var init := t[..|t| - 1];
      var last := t[|t| - 1];
      assert t == init + [last];
      Involving(init, u) + (if Involves(last, u) then [last] else [])
  }

  /** `order_by(Message.timestamp.desc())`: no message is newer than one before it. */
  predicate NewestFirst(s: seq<Message>) {
    forall i, j | 0 <= i < j < |s| :: s[i].timestamp >= s[j].timestamp
  }

  /** A message no older than every message of a newest-first list can go in front of it. */
  lemma InFront(x: Message, s: seq<Message>)
    requires NewestFirst(s) && forall y | y in s :: y.timestamp <= x.timestamp
    ensures NewestFirst([x] + s)
  {
    forall i, j | 0 <= i < j < |[x] + s| ensures ([x] + s)[i].timestamp >= ([x] + s)[j].timestamp {
      assert ([x] + s)[j] == s[j - 1];
      if i > 0 {
        assert ([x] + s)[i] == s[i - 1];
      }
    }
  }

  /** The head of a newest-first list is no older than its other messages, nor than an older `m`. */
  lemma HeadIsNewest(s: seq<Message>, m: Message, rest: seq<Message>)
    requires NewestFirst(s) && s != [] && m.timestamp < s[0].timestamp
    requires multiset(rest) == multiset(s[1..]) + multiset{m}
    ensures forall x | x in rest :: x.timestamp <= s[0].timestamp
  {
    forall x | x in rest ensures x.timestamp <= s[0].timestamp {
      assert x in multiset(rest);
      if x != m {
        assert x in multiset(s[1..]);
        var k :| 0 <= k < |s[1..]| && s[1..][k] == x;
        assert s[k + 1] == x;
      }
    }
  }

  /** `m` put into the newest-first list `s` in front of the first message not newer than it. */
  function InsertNewest(m: Message, s: seq<Message>): (r: seq<Message>)
    requires NewestFirst(s)
    ensures NewestFirst(r) && multiset(r) == multiset(s) + multiset{m} && |r| == |s| + 1
    decreases |s|
  {
    if s == [] || m.timestamp >= s[0].timestamp then
      InFront(m, s);
      [m] + s
    else
      var rest := InsertNewest(m, s[1..]);
      assert s == [s[0]] + s[1..];
      HeadIsNewest(s, m, rest);
      InFront(s[0], rest);
      [s[0]] + rest
  }

  /** The rows of `t`, newest first. Messages with equal timestamps come in an
      order the database does not define; this puts the later row first. */
  function SortNewestFirst(t: seq<Message>): (r: seq<Message>)
    ensures NewestFirst(r) && multiset(r) == multiset(t) && |r| == |t|
    decreases |t|
  {
    if t == [] then []
    else
      var init := t[..|t| - 1];
      assert t == init + [t[|t| - 1]];
      InsertNewest(t[|t| - 1], SortNewestFirst(init))
  }

  /** A message left out of a newest-first prefix is no newer than any message in it. */
  lemma PrefixIsNewest(s: seq<Message>, n: nat, m: Message, x: Message)
    requires NewestFirst(s) && n <= |s|
    requires m in s && m !in s[..n] && x in s[..n]
    ensures m.timestamp <= x.timestamp
  {
    var k :| 0 <= k < |s| && s[k] == m;
    var j :| 0 <= j < n && s[..n][j] == x;
    forall i | 0 <= i < n ensures s[i] != m {
      assert s[..n][i] == s[i];
    }
    assert j < k && s[j] == x;
  }

  /** The first `n` messages between `a` and `b`, newest first, are the newest ones. */
  lemma NewestPrefix(t: seq<Message>, a: int, b: int, n: nat)
    requires n <= |Exchanged(t, a, b)|
    ensures var r := SortNewestFirst(Exchanged(t, a, b))[..n];
      && (forall m | m in r :: m in t && Between(m, a, b))
      && NewestFirst(r) && |r| == n
      && (forall m, x | m in t && Between(m, a, b) && m !in r && x in r :: m.timestamp <= x.timestamp)
  {
    var all := Exchanged(t, a, b);
    var sorted := SortNewestFirst(all);
    forall m | m in sorted[..n] ensures m in t && Between(m, a, b) {
      assert m in sorted;
      assert m in multiset(all);
    }
    forall m, x | m in t && Between(m, a, b) && m !in sorted[..n] && x in sorted[..n]
      ensures m.timestamp <= x.timestamp
    {
      assert m in multiset(sorted);
      PrefixIsNewest(sorted, n, m, x);
    }
  }

  /** A prefix holds no row more often than the whole list. */
  lemma PrefixMultiset(s: seq<Message>, n: nat)
    requires n <= |s|
    ensures multiset(s[..n]) <= multiset(s)
  {
    assert s == s[..n] + s[n..];
  }

  /** How many messages of `t` are unread messages to `u` from `p`. */
  function UnreadCount(t: seq<Message>, u: int, p: int): nat
    decreases |t|
  {
    if t == [] then 0
    else UnreadCount(t[..|t| - 1], u, p) + (if UnreadFrom(t[|t| - 1], u, p) then 1 else 0)
  }

  lemma {:induction false} UnreadCountConcat(a: seq<Message>, b: seq<Message>, u: int, p: int)
    ensures UnreadCount(a + b, u, p) == UnreadCount(a, u, p) + UnreadCount(b, u, p)
    decreases |b|
  {
    if b != [] {
      var n := |b| - 1;
      UnreadCountConcat(a, b[..n], u, p);
      assert (a + b)[..|a + b| - 1] == a + b[..n] && (a + b)[|a + b| - 1] == b[n];
    } else {
      assert a + b == a;
    }
  }

  /** Taking the last row off `a` and a copy of it off its permutation `b` leaves permutations. */
  lemma RemoveOne(a: seq<Message>, b: seq<Message>, k: nat)
    requires multiset(a) == multiset(b) && a != [] && k < |b| && b[k] == a[|a| - 1]
    ensures b == b[..k] + [b[k]] + b[k + 1..]
    ensures multiset(a[..|a| - 1]) == multiset(b[..k] + b[k + 1..])
  {
    var n, x := |a| - 1, b[k];
    var before, after := b[..k], b[k + 1..];
    assert a == a[..n] + [x];
    assert b == before + [x] + after;
    assert multiset(a) == multiset(a[..n]) + multiset{x};
    assert multiset(b) == multiset(before) + multiset{x} + multiset(after);
    assert multiset(before + after) == multiset(before) + multiset(after);
    assert multiset(a[..n]) == multiset(a) - multiset{x};
    assert multiset(before + after) == multiset(b) - multiset{x};
  }

  /** The count does not depend on the order of the rows. */
  lemma {:induction false} UnreadCountPermutation(a: seq<Message>, b: seq<Message>, u: int, p: int)
    requires multiset(a) == multiset(b)
    ensures UnreadCount(a, u, p) == UnreadCount(b, u, p)
    decreases |a|
  {
    if a != [] {
      var n := |a| - 1;
      var x := a[n];
      assert a == a[..n] + [x];
      assert x in multiset(b);
      var k :| 0 <= k < |b| && b[k] == x;
      var before, after := b[..k], b[k + 1..];
      RemoveOne(a, b, k);
      UnreadCountPermutation(a[..n], before + after, u, p);
      UnreadCountConcat(before + [x], after, u, p);
      UnreadCountConcat(before, [x], u, p);
      UnreadCountConcat(before, after, u, p);
      UnreadCountConcat(a[..n], [x], u, p);
    }
  }

  /** Keeping only the messages `u` takes part in keeps every message unread by `u`. */
  lemma {:induction false} UnreadCountOfInvolving(t: seq<Message>, u: int, p: int)
    ensures UnreadCount(Involving(t, u), u, p) == UnreadCount(t, u, p)
    decreases |t|
  {
    if t != [] {
      var init, last := t[..|t| - 1], t[|t| - 1];
      UnreadCountOfInvolving(init, u, p);
      UnreadCountConcat(Involving(init, u), if Involves(last, u) then [last] else [], u, p);
      assert [last][..0] == [];
    }
  }

  /** No unread message from `p` in `t` means a count of zero. */
  lemma {:induction false} NoUnreadCount(t: seq<Message>, u: int, p: int)
    requires forall k | 0 <= k < |t| :: !UnreadFrom(t[k], u, p)
    ensures UnreadCount(t, u, p) == 0
    decreases |t|
  {
    if t != [] {
      NoUnreadCount(t[..|t| - 1], u, p);
    }
  }

  /** An unread message to `u` comes from its partner: the code's test
      `recipient_id == user_id and not read`, applied to the partner's entry. */
  lemma UnreadFromPartner(m: Message, u: int, p: int)
    ensures UnreadFrom(m, u, p) <==> m.recipientId == u && !m.read && Partner(m, u) == p
  {
  }

  /** The table after `mark_messages_as_read(recipient, sender)`: the bulk UPDATE
      sets `read` on every message from `sender` to `recipient`. */
  function MarkedRead(t: seq<Message>, recipient: int, sender: int): (r: seq<Message>)
    ensures |r| == |t|
    ensures forall i | 0 <= i < |t| :: r[i] == t[i].(read := r[i].read)
    ensures forall i | 0 <= i < |t| :: r[i].read <==> t[i].read || (t[i].recipientId == recipient && t[i].senderId == sender)
  {
    seq(|t|, i requires 0 <= i < |t| =>
      if t[i].recipientId == recipient && t[i].senderId == sender && !t[i].read then t[i].(read := true) else t[i])
  }

  /** After marking, nothing from `sender` to `recipient` is unread. */
  lemma MarkedReadClearsUnread(t: seq<Message>, recipient: int, sender: int)
    ensures UnreadCount(MarkedRead(t, recipient, sender), recipient, sender) == 0
  {
    NoUnreadCount(MarkedRead(t, recipient, sender), recipient, sender);
  }

  /** Marking one sender's messages leaves every other unread count as it was. */
  lemma {:induction false} MarkedReadKeepsOthers(t: seq<Message>, recipient: int, sender: int, u: int, p: int)
    requires (u, p) != (recipient, sender)
    ensures UnreadCount(MarkedRead(t, recipient, sender), u, p) == UnreadCount(t, u, p)
    decreases |t|
  {
    if t != [] {
      var n := |t| - 1;
      MarkedReadKeepsOthers(t[..n], recipient, sender, u, p);
      assert MarkedRead(t, recipient, sender)[..n] == MarkedRead(t[..n], recipient, sender);
    }
  }

  /** Marking twice is marking once. */
  lemma MarkedReadIdempotent(t: seq<Message>, recipient: int, sender: int)
    ensures MarkedRead(MarkedRead(t, recipient, sender), recipient, sender) == MarkedRead(t, recipient, sender)
  {
  }

  /** The largest id in `t`, or 0 for an empty table. */
  function MaxId(t: seq<Message>): (r: int)
    ensures r >= 0 && forall m | m in t :: m.id <= r
    decreases |t|
  {
    if t == [] then 0
    else
      var init, last := t[..|t| - 1], t[|t| - 1];
      assert t == init + [last];
      var m := MaxId(init);
      if last.id > m then last.id else m
  }

  /** The id SQLite gives a new row of an `INTEGER PRIMARY KEY` table: one more
      than the largest, 1 for the first row. */
  function NextId(t: seq<Message>): (r: int)
    ensures r >= 1 && forall m | m in t :: m.id < r
  {
    MaxId(t) + 1
  }

  /** The position of the row `delete_message(id, u)` finds: the first with that
      id that `u` sent or received. */
  function Deletable(t: seq<Message>, id: int, u: int): (r: Option<nat>)
    ensures r.None? <==> forall m | m in t :: !(m.id == id && Involves(m, u))
    ensures r.Some? ==> r.value < |t| && t[r.value].id == id && Involves(t[r.value], u)
    decreases |t|
  {
    if t == [] then None
    else if t[0].id == id && Involves(t[0], u) then Some(0)
    else
      assert t == [t[0]] + t[1..];
      match Deletable(t[1..], id, u)
      case None => None
      case Some(k) => Some(k + 1)
  }

  /** No two rows share an id (the primary key). */
  predicate UniqueIds(t: seq<Message>) {
    forall i, j | 0 <= i < j < |t| :: t[i].id != t[j].id
  }

  /** Removing row `k` of a table with unique ids removes exactly that message:
      no row keeps its id and every other row stays. */
  lemma RemovedRow(t: seq<Message>, k: nat)
    requires UniqueIds(t) && k < |t|
    ensures UniqueIds(t[..k] + t[k + 1..])
    ensures forall m | m in t[..k] + t[k + 1..] :: m.id != t[k].id
    ensures multiset(t[..k] + t[k + 1..]) + multiset{t[k]} == multiset(t)
  {
    var r := t[..k] + t[k + 1..];
    assert forall i | 0 <= i < |r| :: r[i] == (if i < k then t[i] else t[i + 1]);
    assert t == t[..k] + [t[k]] + t[k + 1..];
  }

  /** One entry of `get_user_conversations`: the partner's user row (`None`
      when there is none), the first message seen, and the unread count. */
  datatype ConversationSummary = ConversationSummary(user: Option<User>, lastMessage: Message, unreadCount: nat)

  /** The partner an entry is about, the other party of its message. */
  function PartnerOf(c: ConversationSummary, u: int): int {
    Partner(c.lastMessage, u)
  }

  /** `r` is what `get_user_conversations(u)` returns over table `t`: one entry
      per partner of `u`, holding a newest message with that partner, the number
      of unread messages from the partner to `u` and the partner's row, the
      entries ordered by the recency of their latest message. */
  ghost predicate IsConversationList(t: seq<Message>, u: int, users: seq<User>, r: seq<ConversationSummary>) {
    OnePerPartner(t, u, r) && LatestFirst(t, u, r) && Tallies(t, u, users, r)
  }

  /** One entry per partner of `u` in `t`, and no two entries for the same partner. */
  ghost predicate OnePerPartner(t: seq<Message>, u: int, r: seq<ConversationSummary>) {
    && (forall i, j | 0 <= i < j < |r| :: PartnerOf(r[i], u) != PartnerOf(r[j], u))
    && (forall m | m in t && Involves(m, u) :: exists i | 0 <= i < |r| :: PartnerOf(r[i], u) == Partner(m, u))
  }

  /** Each entry holds a newest message of `u` with its partner, and the entries
      come by the recency of that message. */
  ghost predicate LatestFirst(t: seq<Message>, u: int, r: seq<ConversationSummary>) {
    && (forall i | 0 <= i < |r| :: r[i].lastMessage in t && Involves(r[i].lastMessage, u))
    && (forall i, m | 0 <= i < |r| && m in t && Involves(m, u) && Partner(m, u) == PartnerOf(r[i], u) ::
          m.timestamp <= r[i].lastMessage.timestamp)
    && (forall i, j | 0 <= i < j < |r| :: r[i].lastMessage.timestamp >= r[j].lastMessage.timestamp)
  }

  /** Each entry counts the unread messages from its partner to `u` and holds the partner's row. */
  ghost predicate Tallies(t: seq<Message>, u: int, users: seq<User>, r: seq<ConversationSummary>) {
    && (forall i | 0 <= i < |r| :: r[i].unreadCount == UnreadCount(t, u, PartnerOf(r[i], u)))
    && (forall i | 0 <= i < |r| :: r[i].user == FindById(users, PartnerOf(r[i], u)))
  }

  /** The keys of the dict `conv`, listed once each in insertion order `order`;
      `first` has the same keys. */
  ghost predicate Keyed(order: seq<int>, conv: map<int, ConversationSummary>, first: map<int, nat>) {
    && NoDuplicates(order)
    && (forall k | 0 <= k < |order| :: order[k] in conv)
    && (forall p | p in conv :: p in order)
    && (forall p :: p in first <==> p in conv)
  }

  /** Each entry holds the message at position `first[p]` of `s`, the first of
      the first `n` messages whose partner is `p`. */
  ghost predicate FirstSeen(s: seq<Message>, n: nat, u: int, conv: map<int, ConversationSummary>, first: map<int, nat>)
    requires n <= |s| && forall p :: p in first <==> p in conv
  {
    && (forall p | p in conv :: first[p] < n && conv[p].lastMessage == s[first[p]] && Partner(s[first[p]], u) == p)
    && (forall p, k | p in conv && 0 <= k < first[p] :: Partner(s[k], u) != p)
    && (forall k | 0 <= k < n :: Partner(s[k], u) in conv)
  }

  /** Each entry counts the unread messages from its partner among the first `n`
      messages and holds the partner's row. */
  ghost predicate Tallied(s: seq<Message>, n: nat, u: int, users: seq<User>, conv: map<int, ConversationSummary>)
    requires n <= |s|
  {
    && (forall p | p in conv :: conv[p].unreadCount == UnreadCount(s[..n], u, p))
    && (forall p | p in conv :: conv[p].user == FindById(users, p))
  }

  /** The state of the grouping loop after the first `n` messages of `s`: the
      dict `conv` with its keys in insertion order `order`, and the position
      `first` of the message that created each entry. */
  ghost predicate Grouped(s: seq<Message>, n: nat, u: int, users: seq<User>,
                          order: seq<int>, conv: map<int, ConversationSummary>, first: map<int, nat>) {
    && n <= |s|
    && Keyed(order, conv, first)
    && FirstSeen(s, n, u, conv, first)
    && Tallied(s, n, u, users, conv)
    && (forall a, b | 0 <= a < b < |order| :: order[a] in first && order[b] in first && first[order[a]] < first[order[b]])
  }

  /** The entry for the partner of message `m` once `m` has been seen: a new
      partner's entry holds `m` and the partner's row, and the count goes up by
      one when `m` is unread and comes from the partner to `u`. */
  function Counted(m: Message, u: int, users: seq<User>, conv: map<int, ConversationSummary>): (r: ConversationSummary)
    ensures var p := Partner(m, u);
            && (p in conv ==> r.user == conv[p].user && r.lastMessage == conv[p].lastMessage)
            && (p !in conv ==> r.user == FindById(users, p) && r.lastMessage == m)
            && r.unreadCount == (if p in conv then conv[p].unreadCount else 0) + (if UnreadFrom(m, u, p) then 1 else 0)
  {
    var p := Partner(m, u);
    var entry := if p in conv then conv[p] else ConversationSummary(FindById(users, p), m, 0);
    if m.recipientId == u && !m.read then entry.(unreadCount := entry.unreadCount + 1) else entry
  }

  lemma KeyedStep(order: seq<int>, conv: map<int, ConversationSummary>, first: map<int, nat>, p: int, e: ConversationSummary, n: nat)
    requires Keyed(order, conv, first)
    ensures Keyed(if p in conv then order else order + [p], conv[p := e], if p in conv then first else first[p := n])
  {
    if p !in conv {
      forall i | 0 <= i < |order| ensures order[i] != p {
        assert order[i] in order;
      }
    }
  }

  lemma FirstSeenStep(s: seq<Message>, n: nat, u: int, users: seq<User>,
                      conv: map<int, ConversationSummary>, first: map<int, nat>)
    requires n < |s| && (forall p :: p in first <==> p in conv) && FirstSeen(s, n, u, conv, first)
    ensures var p := Partner(s[n], u);
            var first' := if p in conv then first else first[p := n];
            var conv' := conv[p := Counted(s[n], u, users, conv)];
            (forall q :: q in first' <==> q in conv') && FirstSeen(s, n + 1, u, conv', first')
  {
  }

  lemma TalliedStep(s: seq<Message>, n: nat, u: int, users: seq<User>,
                    conv: map<int, ConversationSummary>, first: map<int, nat>)
    requires n < |s| && (forall p :: p in first <==> p in conv)
    requires FirstSeen(s, n, u, conv, first) && Tallied(s, n, u, users, conv)
    ensures Tallied(s, n + 1, u, users, conv[Partner(s[n], u) := Counted(s[n], u, users, conv)])
  {
    var p := Partner(s[n], u);
    assert s[..n + 1] == s[..n] + [s[n]];
    forall q ensures UnreadCount(s[..n + 1], u, q) == UnreadCount(s[..n], u, q) + (if UnreadFrom(s[n], u, q) then 1 else 0) {
      UnreadCountConcat(s[..n], [s[n]], u, q);
      assert [s[n]][..0] == [];
    }
    forall q ensures UnreadFrom(s[n], u, q) <==> s[n].recipientId == u && !s[n].read && p == q {
      UnreadFromPartner(s[n], u, q);
    }
    if p !in conv {
      forall k | 0 <= k < n ensures !UnreadFrom(s[..n][k], u, p) {
        UnreadFromPartner(s[k], u, p);
      }
      NoUnreadCount(s[..n], u, p);
    }
  }

  /** Before the grouping loop has seen any message its state is empty. */
  lemma GroupedStart(s: seq<Message>, u: int, users: seq<User>)
    ensures Grouped(s, 0, u, users, [], map[], map[])
  {
  }

  /** One turn of the grouping loop keeps its state. */
  lemma GroupedStep(s: seq<Message>, n: nat, u: int, users: seq<User>,
                    order: seq<int>, conv: map<int, ConversationSummary>, first: map<int, nat>)
    requires n < |s| && Grouped(s, n, u, users, order, conv, first)
    ensures var p := Partner(s[n], u);
            Grouped(s, n + 1, u, users,
                    if p in conv then order else order + [p],
                    conv[p := Counted(s[n], u, users, conv)],
                    if p in conv then first else first[p := n])
  {
    var p := Partner(s[n], u);
    var order' := if p in conv then order else order + [p];
    var first' := if p in conv then first else first[p := n];
    KeyedStep(order, conv, first, p, Counted(s[n], u, users, conv), n);
    FirstSeenStep(s, n, u, users, conv, first);
    TalliedStep(s, n, u, users, conv, first);
    if p !in conv {
      forall a, b | 0 <= a < b < |order'| ensures order'[a] in first' && order'[b] in first' && first'[order'[a]] < first'[order'[b]] {
        assert order'[a] == order[a] && order[a] in order && order[a] != p;
        if b < |order| {
          assert order'[b] == order[b] && order[b] in order && order[b] != p;
        }
      }
    }
  }

  /** When the loop has seen every message, every message's partner has an
      entry, and the entry's message is no older than it. */
  lemma GroupedCovers(s: seq<Message>, u: int, users: seq<User>,
                      order: seq<int>, conv: map<int, ConversationSummary>, first: map<int, nat>, k: nat)
    requires NewestFirst(s) && Grouped(s, |s|, u, users, order, conv, first) && k < |s|
    ensures Partner(s[k], u) in conv && first[Partner(s[k], u)] <= k
    ensures s[k].timestamp <= conv[Partner(s[k], u)].lastMessage.timestamp
  {
  }

  /** When the loop has seen every message, its dict is the conversation list
      over the messages it read. */
  lemma GroupedList(s: seq<Message>, u: int, users: seq<User>,
                    order: seq<int>, conv: map<int, ConversationSummary>, first: map<int, nat>,
                    r: seq<ConversationSummary>)
    requires NewestFirst(s) && forall m | m in s :: Involves(m, u)
    requires Grouped(s, |s|, u, users, order, conv, first)
    requires |r| == |order| && forall i | 0 <= i < |order| :: order[i] in conv && r[i] == conv[order[i]]
    ensures IsConversationList(s, u, users, r)
  {
    assert Keyed(order, conv, first);
    assert forall p :: p in first <==> p in conv;
    forall i | 0 <= i < |order| ensures order[i] in first {
      assert order[i] in conv;
    }
    assert FirstSeen(s, |s|, u, conv, first);
    GroupedPartners(s, u, users, order, conv, first, r);
    var pos := seq(|order|, i requires 0 <= i < |order| => first[order[i]]);
    forall i | 0 <= i < |r| ensures pos[i] < |s| && r[i].lastMessage == s[pos[i]] && PartnerOf(r[i], u) == order[i] {
      var p := order[i];
      assert p in conv && pos[i] == first[p] && r[i] == conv[p];
      assert first[p] < |s| && conv[p].lastMessage == s[first[p]] && Partner(s[first[p]], u) == p;
    }
    forall i, j | 0 <= i < j < |r| ensures pos[i] < pos[j] {
    }
    forall i, k | 0 <= i < |r| && 0 <= k < |s| && Partner(s[k], u) == PartnerOf(r[i], u) ensures pos[i] <= k {
    }
    LatestAtFirstPositions(s, u, r, pos);
    GroupedTallies(s, u, users, order, conv, first, r);
  }

  lemma GroupedPartners(s: seq<Message>, u: int, users: seq<User>,
                    order: seq<int>, conv: map<int, ConversationSummary>, first: map<int, nat>,
                    r: seq<ConversationSummary>)
    requires NewestFirst(s) && forall m | m in s :: Involves(m, u)
    requires Grouped(s, |s|, u, users, order, conv, first)
    requires |r| == |order| && forall i | 0 <= i < |order| :: order[i] in conv && r[i] == conv[order[i]]
    ensures OnePerPartner(s, u, r)
  {
    assert forall i | 0 <= i < |r| :: PartnerOf(r[i], u) == order[i];
    forall m | m in s && Involves(m, u) ensures exists i | 0 <= i < |r| :: PartnerOf(r[i], u) == Partner(m, u) {
      var k :| 0 <= k < |s| && s[k] == m;
      GroupedCovers(s, u, users, order, conv, first, k);
      assert Partner(s[k], u) in order;
      var i :| 0 <= i < |order| && order[i] == Partner(s[k], u);
      assert PartnerOf(r[i], u) == Partner(m, u);
    }
  }

  /** Entries whose messages sit at increasing positions `pos` of the newest-first
      list `s`, each at the first position with its partner, hold newest messages
      and come newest first. */
  lemma LatestAtFirstPositions(s: seq<Message>, u: int, r: seq<ConversationSummary>, pos: seq<nat>)
    requires NewestFirst(s) && forall m | m in s :: Involves(m, u)
    requires |pos| == |r| && forall i | 0 <= i < |r| :: pos[i] < |s| && r[i].lastMessage == s[pos[i]]
    requires forall i, j | 0 <= i < j < |r| :: pos[i] < pos[j]
    requires forall i, k | 0 <= i < |r| && 0 <= k < |s| && Partner(s[k], u) == PartnerOf(r[i], u) :: pos[i] <= k
    ensures LatestFirst(s, u, r)
  {
    forall i, m | 0 <= i < |r| && m in s && Involves(m, u) && Partner(m, u) == PartnerOf(r[i], u)
      ensures m.timestamp <= r[i].lastMessage.timestamp
    {
      var k :| 0 <= k < |s| && s[k] == m;
      assert pos[i] <= k;
    }
    forall i, j | 0 <= i < j < |r| ensures r[i].lastMessage.timestamp >= r[j].lastMessage.timestamp {
      assert pos[i] < pos[j];
    }
  }

  lemma GroupedTallies(s: seq<Message>, u: int, users: seq<User>,
                    order: seq<int>, conv: map<int, ConversationSummary>, first: map<int, nat>,
                    r: seq<ConversationSummary>)
    requires NewestFirst(s) && forall m | m in s :: Involves(m, u)
    requires Grouped(s, |s|, u, users, order, conv, first)
    requires |r| == |order| && forall i | 0 <= i < |order| :: order[i] in conv && r[i] == conv[order[i]]
    ensures Tallies(s, u, users, r)
  {
    assert s[..|s|] == s;
    forall i | 0 <= i < |r| ensures PartnerOf(r[i], u) == order[i] {
    }
  }

  /** The messages `get_user_conversations` reads all involve the user and are newest first. */
  lemma SortedInvolving(t: seq<Message>, u: int)
    ensures var s := SortNewestFirst(Involving(t, u));
            NewestFirst(s) && forall m | m in s :: Involves(m, u)
  {
    var s := SortNewestFirst(Involving(t, u));
    forall m | m in s ensures Involves(m, u) {
      assert m in multiset(Involving(t, u));
    }
  }

  /** A conversation list over the sorted messages of `u` is one over the whole table. */
  lemma ListOverTable(t: seq<Message>, u: int, users: seq<User>, r: seq<ConversationSummary>)
    requires IsConversationList(SortNewestFirst(Involving(t, u)), u, users, r)
    ensures IsConversationList(t, u, users, r)
  {
    SortedUnread(t, u);
    SortedMembers(t, u);
    ListTransfer(SortNewestFirst(Involving(t, u)), t, u, users, r);
  }

  /** Sorting the messages of `u` keeps every unread count. */
  lemma SortedUnread(t: seq<Message>, u: int)
    ensures forall p :: UnreadCount(SortNewestFirst(Involving(t, u)), u, p) == UnreadCount(t, u, p)
  {
    var s := SortNewestFirst(Involving(t, u));
    forall p ensures UnreadCount(s, u, p) == UnreadCount(t, u, p) {
      UnreadCountPermutation(s, Involving(t, u), u, p);
      UnreadCountOfInvolving(t, u, p);
    }
  }

  /** The sorted messages of `u` are exactly the rows `u` takes part in. */
  lemma SortedMembers(t: seq<Message>, u: int)
    ensures forall m :: m in SortNewestFirst(Involving(t, u)) <==> m in t && Involves(m, u)
  {
    var s := SortNewestFirst(Involving(t, u));
    forall m ensures m in s <==> m in t && Involves(m, u) {
      assert m in s <==> m in multiset(Involving(t, u));
    }
  }

  /** The conversation list depends only on the messages involving `u` and the unread counts. */
  lemma ListTransfer(s: seq<Message>, t: seq<Message>, u: int, users: seq<User>, r: seq<ConversationSummary>)
    requires forall m :: m in s <==> m in t && Involves(m, u)
    requires forall p :: UnreadCount(s, u, p) == UnreadCount(t, u, p)
    requires IsConversationList(s, u, users, r)
    ensures IsConversationList(t, u, users, r)
  {
    assert OnePerPartner(t, u, r);
    assert LatestFirst(t, u, r);
    assert Tallies(t, u, users, r);
  }

  /** `MessageService`: the session replaced by the `messages` and `users` tables. */
  class MessageService {
    var messages: seq<Message>
    const users: seq<User>

    /** The primary key of `messages`. */
    ghost predicate Valid()
      reads this
    {
      UniqueIds(messages)
    }

    constructor (messages: seq<Message>, users: seq<User>)
      requires UniqueIds(messages)
      ensures Valid() && this.messages == messages && this.users == users
    {
      this.messages := messages;
      this.users := users;
    }

    /** `create_message`: one new unread row with a fresh id, appended. */
    method CreateMessage(senderId: int, recipientId: int, content: string, timestamp: int) returns (message: Message)
      requires Valid()
      modifies this
      ensures Valid()
      ensures message == Message(NextId(old(messages)), senderId, recipientId, content, timestamp, false)
      ensures messages == old(messages) + [message]
      ensures forall m | m in old(messages) :: m.id != message.id
    {
      message := Message(NextId(messages), senderId, recipientId, content, timestamp, false);
      assert message !in messages;
      messages := messages + [message];
    }

    /** `get_conversation(a, b, limit)`: the messages between `a` and `b`, newest
        first, at most `limit` of them, none left out newer than one returned. */
    function GetConversation(a: int, b: int, limit: nat := DefaultConversationLimit): (r: seq<Message>)
      reads this
      ensures forall m | m in r :: m in messages && Between(m, a, b)
      ensures multiset(r) <= multiset(Exchanged(messages, a, b))
      ensures limit >= |Exchanged(messages, a, b)| ==> multiset(r) == multiset(Exchanged(messages, a, b))
      ensures NewestFirst(r)
      ensures |r| == if limit < |Exchanged(messages, a, b)| then limit else |Exchanged(messages, a, b)|
      ensures forall m, x | m in messages && Between(m, a, b) && m !in r && x in r :: m.timestamp <= x.timestamp
    {
      var all := Exchanged(messages, a, b);
      var sorted := SortNewestFirst(all);
      var n := if limit < |sorted| then limit else |sorted|;
      NewestPrefix(messages, a, b, n);
      PrefixMultiset(sorted, n);
      assert multiset(sorted) == multiset(all);
      assert n == |all| ==> sorted[..n] == sorted;
      sorted[..n]
    }

    /** The body of the loop of `get_user_conversations`: files `message` under
        its partner, opening an entry (and a place in the dict's order) for a new
        partner and counting the message if it is unread and addressed to `u`. */
    method AddToConversation(message: Message, userId: int, conversations: map<int, ConversationSummary>, order: seq<int>)
      returns (conversations': map<int, ConversationSummary>, order': seq<int>)
      ensures conversations' == conversations[Partner(message, userId) := Counted(message, userId, users, conversations)]
      ensures order' == if Partner(message, userId) in conversations then order else order + [Partner(message, userId)]
    {
      var otherUserId := if message.senderId == userId then message.recipientId else message.senderId;
      var entry: ConversationSummary;
      order' := order;
      if otherUserId !in conversations {
        var otherUser := FindById(users, otherUserId);
        entry := ConversationSummary(otherUser, message, 0);
        order' := order + [otherUserId];
      } else {
        entry := conversations[otherUserId];
      }
      if message.recipientId == userId && !message.read {
        entry := entry.(unreadCount := entry.unreadCount + 1);
      }
      conversations' := conversations[otherUserId := entry];
    }

    /** `get_user_conversations(u)`: the messages of `u` newest first, grouped
        by partner into a dict in first-seen order. */
    method GetUserConversations(userId: int) returns (r: seq<ConversationSummary>)
      ensures IsConversationList(messages, userId, users, r)
    {
      var sorted := SortNewestFirst(Involving(messages, userId));
      var conversations, order, first := GroupByPartner(sorted, userId);
      r := seq(|order|, k requires 0 <= k < |order| && order[k] in conversations => conversations[order[k]]);
      SortedInvolving(messages, userId);
      GroupedList(sorted, userId, users, order, conversations, first, r);
      ListOverTable(messages, userId, users, r);
    }

    /** The loop of `get_user_conversations` over the sorted messages `sorted`:
        the dict of entries by partner and its keys in insertion order. */
    method GroupByPartner(sorted: seq<Message>, userId: int)
      returns (conversations: map<int, ConversationSummary>, order: seq<int>, ghost first: map<int, nat>)
      ensures Grouped(sorted, |sorted|, userId, users, order, conversations, first)
      ensures forall k | 0 <= k < |order| :: order[k] in conversations
    {
      conversations, order, first := map[], [], map[];
      GroupedStart(sorted, userId, users);
      var i := 0;
      while i < |sorted|
        invariant Grouped(sorted, i, userId, users, order, conversations, first)
      {
        ghost var p := Partner(sorted[i], userId);
        ghost var first' := if p in conversations then first else first[p := i];
        GroupedStep(sorted, i, userId, users, order, conversations, first);
        conversations, order := AddToConversation(sorted[i], userId, conversations, order);
        first := first';
        i := i + 1;
      }
      assert Keyed(order, conversations, first);
    }

    /** `mark_messages_as_read(recipient, sender)`. */
    method MarkMessagesAsRead(recipientId: int, senderId: int)
      requires Valid()
      modifies this
      ensures Valid()
      ensures messages == MarkedRead(old(messages), recipientId, senderId)
    {
      messages := MarkedRead(messages, recipientId, senderId);
    }

    /** `delete_message(id, u)`: removes the message with that id when `u` sent or
        received it and reports whether it did. */
    method DeleteMessage(messageId: int, userId: int) returns (deleted: bool)
      requires Valid()
      modifies this
      ensures Valid()
      ensures deleted <==> exists m | m in old(messages) :: m.id == messageId && Involves(m, userId)
      ensures !deleted ==> messages == old(messages)
      ensures deleted ==> exists k | 0 <= k < |old(messages)| ::
        old(messages)[k].id == messageId && messages == old(messages)[..k] + old(messages)[k + 1..]
      ensures deleted ==> forall m | m in messages :: m.id != messageId
    {
      var found := Deletable(messages, messageId, userId);
      if found.None? {
        return false;
      }
      var k := found.value;
      RemovedRow(messages, k);
      messages := messages[..k] + messages[k + 1..];
      deleted := true;
    }
  }
}
