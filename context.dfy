/**
 * The per-user record of the bot's context table (`UserContext`), the window of
 * turns sent with a new question, the record kept after a successful exchange,
 * and the counts the administrator's statistics are made of.
 */
module Context {
  import opened Text

  /** The question is cut to this many characters before it is sent and stored. */
  const QuestionLimit := 2000
  /** How many stored turns go out with a new question (`messages[-4:]`). */
  const WindowTurns := 4
  /** Exchanges a stored history holds at most: the window's two plus the new one. */
  const KeptExchanges := 3

  datatype Role = User | Assistant

  /** One entry of a history: `{"role": ..., "content": ...}`. */
  datatype Turn = Turn(role: Role, content: string)

  /** The record kept per user id. `lastActive` is the formatted timestamp string. */
  datatype UserContext = UserContext(messages: seq<Turn>, messageCount: nat, lastActive: string, banned: bool)

  /** Where a turn may stand in a history: questions at even positions, answers at odd ones. */
  predicate WellPlaced(t: Turn, i: nat)
  {
    if i % 2 == 0 then t.role == User && |t.content| <= QuestionLimit
    else t.role == Assistant && Nul !in t.content && |t.content| <= ReplyLimit
  }

  function Min(a: int, b: int): int
  {
    if a <= b then a else b
  }

  /**
   * The invariant of a record: its history has two turns for each of the last
   * `KeptExchanges` completed exchanges (fewer when fewer were completed), a
   * truncated question at each even place and a sanitised answer at each odd
   * place. Which exchanges those turns come from is `ExchangeEvictsOldest`.
   */
  ghost predicate WellFormed(c: UserContext)
  {
    && |c.messages| == 2 * Min(c.messageCount, KeptExchanges)
    && forall i :: 0 <= i < |c.messages| ==> WellPlaced(c.messages[i], i)
  }

  /** `init_user_context()`, with the current time passed in. */
  function NewContext(now: string): (c: UserContext)
    ensures WellFormed(c)
    ensures c.messages == [] && c.messageCount == 0 && !c.banned && c.lastActive == now
  {
    UserContext([], 0, now, false)
  }

  /** `messages[-4:]`: the last four turns, or all of them when there are fewer. */
  function Recent(h: seq<Turn>): (r: seq<Turn>)
    ensures |r| == Min(|h|, WindowTurns)
    ensures r == h[|h| - |r|..]
  {
    if |h| <= WindowTurns then h else h[|h| - WindowTurns..]
  }

  /** The turns sent to the completion API: the recent history, then the truncated question. */
  function Window(h: seq<Turn>, question: string): (w: seq<Turn>)
    ensures 1 <= |w| <= WindowTurns + 1
    ensures |w| - 1 == Min(|h|, WindowTurns) && w[..|w| - 1] == h[|h| - (|w| - 1)..]
    ensures w[|w| - 1].role == User
    ensures w[|w| - 1].content <= question && |w[|w| - 1].content| == Min(|question|, QuestionLimit)
  {
    var w := Recent(h) + [Turn(User, SafeSlice(question, QuestionLimit))];
    assert w[..|w| - 1] == Recent(h);
    w
  }

  /** The record after a successful exchange: window plus answer, one more exchange counted. */
  function Recorded(c: UserContext, window: seq<Turn>, reply: string, now: string): UserContext
  {
    c.(messages := window + [Turn(Assistant, reply)], messageCount := c.messageCount + 1, lastActive := now)
  }

  /** The recent turns of a well-formed history are still well placed: an even number of turns is dropped. */
  lemma RecentWellPlaced(h: seq<Turn>)
    requires |h| % 2 == 0 && |h| <= 2 * KeptExchanges
    requires forall i :: 0 <= i < |h| ==> WellPlaced(h[i], i)
    ensures |Recent(h)| % 2 == 0
    ensures forall i :: 0 <= i < |Recent(h)| ==> WellPlaced(Recent(h)[i], i)
  {
    var r := Recent(h);
    var d := |h| - |r|;
    assert d == 0 || d == 2;
    forall i | 0 <= i < |r|
      ensures WellPlaced(r[i], i)
    {
      assert r[i] == h[d + i];
      assert WellPlaced(h[d + i], d + i);
      assert (d + i) % 2 == i % 2;
    }
  }

  /**
   * A successful exchange keeps the invariant: the new history is the old one
   * with the question and answer appended and the oldest turns dropped, so at
   * most five turns are sent and at most six are stored.
   */
  lemma ExchangeKeepsWellFormed(c: UserContext, question: string, reply: string, now: string)
    requires WellFormed(c)
    requires Nul !in reply && |reply| <= ReplyLimit
    ensures WellFormed(Recorded(c, Window(c.messages, question), reply, now))
    ensures |Window(c.messages, question)| <= WindowTurns + 1
    ensures |Recorded(c, Window(c.messages, question), reply, now).messages| <= 2 * KeptExchanges
  {
    var q := Turn(User, SafeSlice(question, QuestionLimit));
    var a := Turn(Assistant, reply);
    AppendExchange(c.messages, c.messageCount, q, a);
    assert Window(c.messages, question) + [a] == Recent(c.messages) + [q, a];
  }

  /**
   * The history after an exchange, on plain sequences: the recent turns of a
   * history of `count` exchanges, then a question and an answer, is the
   * history of `count + 1` exchanges.
   */
  lemma AppendExchange(h: seq<Turn>, count: nat, q: Turn, a: Turn)
    requires |h| == 2 * Min(count, KeptExchanges)
    requires forall i :: 0 <= i < |h| ==> WellPlaced(h[i], i)
    requires q.role == User && |q.content| <= QuestionLimit
    requires a.role == Assistant && Nul !in a.content && |a.content| <= ReplyLimit
    ensures |Recent(h) + [q, a]| == 2 * Min(count + 1, KeptExchanges)
    ensures forall i :: 0 <= i < |Recent(h) + [q, a]| ==> WellPlaced((Recent(h) + [q, a])[i], i)
  {
    RecentWellPlaced(h);
    StoredWellPlaced(Recent(h), q, a);
  }

  /** Appending a question and an answer to an even, well-placed history keeps every turn well placed. */
  lemma StoredWellPlaced(r: seq<Turn>, q: Turn, a: Turn)
    requires |r| % 2 == 0
    requires forall i :: 0 <= i < |r| ==> WellPlaced(r[i], i)
    requires q.role == User && |q.content| <= QuestionLimit
    requires a.role == Assistant && Nul !in a.content && |a.content| <= ReplyLimit
    ensures forall i :: 0 <= i < |r| + 2 ==> WellPlaced((r + [q, a])[i], i)
  {
    forall i | 0 <= i < |r| + 2
      ensures WellPlaced((r + [q, a])[i], i)
    {
      if i < |r| {
        assert (r + [q, a])[i] == r[i];
      } else if i == |r| {
        assert (r + [q, a])[i] == q;
      } else {
        assert i % 2 == 1;
        assert (r + [q, a])[i] == a;
      }
    }
  }

  /**
   * The stored history is a suffix of the old history followed by the question
   * and the answer: the oldest turns are evicted first.
   */
  lemma ExchangeEvictsOldest(c: UserContext, question: string, reply: string, now: string)
    ensures var stored := Recorded(c, Window(c.messages, question), reply, now).messages;
            var all := c.messages + [Turn(User, SafeSlice(question, QuestionLimit)), Turn(Assistant, reply)];
            |stored| <= |all| && stored == all[|all| - |stored|..]
  {
    var tail := [Turn(User, SafeSlice(question, QuestionLimit)), Turn(Assistant, reply)];
    assert Window(c.messages, question) + [Turn(Assistant, reply)] == Recent(c.messages) + tail;
    RecentThenTail(c.messages, tail);
  }

  /** The recent turns followed by new ones are a suffix of the whole history followed by them. */
  lemma RecentThenTail(h: seq<Turn>, tail: seq<Turn>)
    ensures Recent(h) + tail == (h + tail)[|h| - |Recent(h)|..]
  {
    var d := |h| - |Recent(h)|;
    assert (h + tail)[d..] == h[d..] + tail;
  }

  /** `u['banned'] = flag` on the record of `id`, a key of the table. */
  function WithBanFlag(m: map<int, UserContext>, id: int, flag: bool): (m': map<int, UserContext>)
    requires id in m
    ensures m'.Keys == m.Keys
    ensures m'[id].banned == flag
    ensures m'[id].messages == m[id].messages && m'[id].messageCount == m[id].messageCount
    ensures m'[id].lastActive == m[id].lastActive
    ensures forall other :: other in m && other != id ==> m'[other] == m[other]
  {
    m[id := m[id].(banned := flag)]
  }

  /** Setting a flag to the value it already has changes nothing; so banning twice is banning once. */
  lemma BanFlagIdempotent(m: map<int, UserContext>, id: int, flag: bool)
    requires id in m
    ensures m[id].banned == flag ==> WithBanFlag(m, id, flag) == m
    ensures WithBanFlag(WithBanFlag(m, id, flag), id, flag) == WithBanFlag(m, id, flag)
  {
  }

  predicate IsBanned(c: UserContext)
  {
    c.banned
  }

  /** A record counts as active when its timestamp string is not empty. */
  predicate IsActive(c: UserContext)
  {
    |c.lastActive| > 0
  }

  /** The ids whose record satisfies `p`. */
  function Matching(m: map<int, UserContext>, p: UserContext -> bool): (ids: set<int>)
    ensures ids <= m.Keys
  {
    set id | id in m && p(m[id])
  }

  /** When every record carries a timestamp, every record counts as active. */
  lemma AllActive(m: map<int, UserContext>)
    requires forall id :: id in m ==> IsActive(m[id])
    ensures |Matching(m, IsActive)| == |m|
  {
    forall id | id in m
      ensures id in Matching(m, IsActive)
    {
      assert IsActive(m[id]);
    }
    assert Matching(m, IsActive) == m.Keys;
  }

  /** At most every record satisfies `p`. */
  lemma MatchingBounded(m: map<int, UserContext>, p: UserContext -> bool)
    ensures |Matching(m, p)| <= |m|
  {
    var k := Matching(m, p);
    assert m.Keys == k + (m.Keys - k);
    assert |m| == |m.Keys|;
  }

  /**
   * Banning an unbanned user raises the number of banned records by one,
   * unbanning a banned one lowers it by one, and any other flag change leaves it alone.
   */
  lemma BannedCountAfterFlag(m: map<int, UserContext>, id: int, flag: bool)
    requires id in m
    ensures |Matching(WithBanFlag(m, id, flag), IsBanned)| ==
              |Matching(m, IsBanned)| + (if flag == m[id].banned then 0 else if flag then 1 else -1)
  {
    var before := Matching(m, IsBanned);
    var after := Matching(WithBanFlag(m, id, flag), IsBanned);
    if flag == m[id].banned {
      assert after == before;
    } else if flag {
      assert after == before + {id};
    } else {
      assert after == before - {id};
    }
  }

  predicate Distinct(ids: seq<int>)
  {
    forall i, j :: 0 <= i < j < |ids| ==> ids[i] != ids[j]
  }

  /** `sum(1 for id in ids if p(m[id]))`. */
  function CountIn(ids: seq<int>, m: map<int, UserContext>, p: UserContext -> bool): (n: nat)
    requires forall i :: 0 <= i < |ids| ==> ids[i] in m
    ensures n <= |ids|
  {
    if ids == [] then 0
    else CountIn(ids[..|ids| - 1], m, p) + (if p(m[ids[|ids| - 1]]) then 1 else 0)
  }

  /** The ids of `ids` whose record satisfies `p`. */
  function MatchingIn(ids: seq<int>, m: map<int, UserContext>, p: UserContext -> bool): set<int>
  {
    set id | id in ids && id in m && p(m[id])
  }

  /** Appending an id adds it to the matching ids exactly when its record matches. */
  lemma MatchingInSnoc(pre: seq<int>, x: int, m: map<int, UserContext>, p: UserContext -> bool)
    requires x in m
    ensures MatchingIn(pre + [x], m, p) == MatchingIn(pre, m, p) + (if p(m[x]) then {x} else {})
  {
    assert forall id :: id in pre + [x] <==> id in pre || id == x;
  }

  /** Counting over a list of distinct ids is the size of the set of the matching ones. */
  lemma {:induction false} CountInIsCardinality(ids: seq<int>, m: map<int, UserContext>, p: UserContext -> bool)
    requires forall i :: 0 <= i < |ids| ==> ids[i] in m
    requires Distinct(ids)
    ensures CountIn(ids, m, p) == |MatchingIn(ids, m, p)|
  {
    if ids != [] {
      var pre, x := ids[..|ids| - 1], ids[|ids| - 1];
      assert ids == pre + [x];
      assert forall j :: 0 <= j < |pre| ==> pre[j] == ids[j];
      CountInIsCardinality(pre, m, p);
      MatchingInSnoc(pre, x, m, p);
      assert x !in MatchingIn(pre, m, p);
    }
  }

  /** When the ids are exactly the table's keys, counting over them counts the matching records. */
  lemma CountAllIsMatching(ids: seq<int>, m: map<int, UserContext>, p: UserContext -> bool)
    requires forall i :: 0 <= i < |ids| ==> ids[i] in m
    requires forall id :: id in m ==> id in ids
    requires Distinct(ids)
    ensures CountIn(ids, m, p) == |Matching(m, p)|
  {
    CountInIsCardinality(ids, m, p);
    forall id | id in Matching(m, p)
      ensures id in ids
    {
    }
    assert MatchingIn(ids, m, p) == Matching(m, p);
  }
}
