/**
 * The bot's shared context table (`game_context`) and the operations that
 * read or change it: answering a question (`get_ai_response`), `/ban`,
 * `/unban`, the broadcast and the administrator's statistics.
 */
module Oracle {
  import opened Wrappers
  import opened Text
  import opened Completion
  import opened Context

  /** The argument of `/ban` and `/unban` as `int(command.args)` sees it. */
  datatype Arg =
    | Missing          // no argument: `int(None)` raises `TypeError`
    | NotANumber       // `int(...)` raises `ValueError`
    | Id(id: int)

  /** How an administrator command ends. */
  datatype AdminReply =
    | Forbidden        // "unauthorised access" answer to a non-administrator
    | Silent           // no answer at all
    | Crashed          // an exception leaves the handler
    | BadFormat        // "wrong id format" answer
    | NotFound         // "user not found" answer
    | Usage            // "usage: /unban <user_id>" answer
    | BanApplied(id: int)
    | Unbanned(id: int)

  /** The numbers of the administrator panel. */
  datatype Stats = Stats(total: nat, active: nat, banned: nat)

  /** `ids` with exactly those elements for which `p` is `keep`, in order. */
  function Filter(ids: seq<int>, p: int -> bool, keep: bool): (r: seq<int>)
    ensures |r| <= |ids|
    ensures forall i :: 0 <= i < |r| ==> p(r[i]) == keep && r[i] in ids
    ensures forall i :: 0 <= i < |ids| && p(ids[i]) == keep ==> ids[i] in r
  {
    if ids == [] then []
    else
      var last := ids[|ids| - 1];
      Filter(ids[..|ids| - 1], p, keep) + (if p(last) == keep then [last] else [])
  }

  /** Every id lands in exactly one of the two filters. */
  lemma {:induction false} FilterPartition(ids: seq<int>, p: int -> bool)
    ensures |Filter(ids, p, true)| + |Filter(ids, p, false)| == |ids|
  {
    if ids != [] {
      FilterPartition(ids[..|ids| - 1], p);
    }
  }

  /**
   * The table invariant: `order` lists each key of the table exactly once,
   * every record is well formed, and every record carries a timestamp (a
   * formatted date and time, never empty).
   */
  ghost predicate TableValid(contexts: map<int, UserContext>, order: seq<int>)
  {
    && |order| == |contexts|
    && (forall i :: 0 <= i < |order| ==> order[i] in contexts)
    && (forall id :: id in contexts ==> id in order)
    && Distinct(order)
    && (forall id :: id in contexts ==> WellFormed(contexts[id]))
    && (forall id :: id in contexts ==> IsActive(contexts[id]))
  }

  /** Recording a successful exchange with a sanitised answer keeps the table invariant. */
  lemma ExchangeKeepsValid(contexts: map<int, UserContext>, order: seq<int>, id: int,
                           question: string, window: seq<Turn>, reply: string, now: string)
    requires TableValid(contexts, order)
    requires id in contexts && window == Window(contexts[id].messages, question)
    requires Nul !in reply && |reply| <= ReplyLimit
    requires |now| > 0
    ensures TableValid(contexts[id := Recorded(contexts[id], window, reply, now)], order)
  {
    ExchangeKeepsWellFormed(contexts[id], question, reply, now);
  }

  /** A second update of the same key overrides the first. */
  lemma UpdateTwice(m: map<int, UserContext>, k: int, a: UserContext, b: UserContext)
    ensures m[k := a][k := b] == m[k := b]
  {
  }

  class ContextTable {
    /** The configured administrator id. */
    const adminId: int
    /** The records by user id. */
    var contexts: map<int, UserContext>
    /** The user ids in the order they were first seen (the dictionary's iteration order). */
    var order: seq<int>

    ghost predicate Valid()
      reads this
    {
      TableValid(contexts, order)
    }

    /** An empty table; start-up refuses an administrator id of 0. */
    constructor (adminId: int)
      requires adminId != 0
      ensures Valid()
      ensures this.adminId == adminId && contexts == map[] && order == []
    {
      this.adminId := adminId;
      contexts := map[];
      order := [];
    }

    /** `game_context.setdefault(user_id, init_user_context())`. */
    method SetDefault(userId: int, now: string) returns (user: UserContext)
      requires Valid()
      requires |now| > 0
      modifies this
      ensures Valid()
      ensures user == if userId in old(contexts) then old(contexts)[userId] else NewContext(now)
      ensures contexts == old(contexts)[userId := user]
      ensures order == if userId in old(contexts) then old(order) else old(order) + [userId]
    {
      if userId !in contexts {
        contexts := contexts[userId := NewContext(now)];
        order := order + [userId];
      }
      user := contexts[userId];
    }

    /** `user_data.update(...)` after an answer: the window plus the answer, one more exchange, the new time. */
    method RecordExchange(userId: int, question: string, window: seq<Turn>, reply: string, now: string)
      requires Valid()
      requires userId in contexts && window == Window(contexts[userId].messages, question)
      requires Nul !in reply && |reply| <= ReplyLimit
      requires |now| > 0
      modifies this`contexts
      ensures Valid()
      ensures contexts == old(contexts)[userId := Recorded(old(contexts)[userId], window, reply, now)]
    {
      ExchangeKeepsValid(contexts, order, userId, question, window, reply, now);
      contexts := contexts[userId := Recorded(contexts[userId], window, reply, now)];
    }

    /**
     * `get_ai_response(user_id, question, chat_id)` at time `now`, where
     * `outcomes[i]` is what the i-th request returns. Also gives the turns sent,
     * the waits slept and the number of requests made.
     */
    method GetAiResponse(userId: int, question: string, now: string, outcomes: seq<Outcome>)
      returns (reply: Reply, window: seq<Turn>, waits: seq<nat>, requests: nat)
      requires Valid()
      requires MaxAttempts <= |outcomes|
      requires |now| > 0
      modifies this
      ensures Valid()
      ensures userId in contexts
      ensures order == if userId in old(contexts) then old(order) else old(order) + [userId]
      ensures old(userId in contexts && contexts[userId].banned) ==>
                && reply == Refused && window == [] && waits == [] && requests == 0
                && contexts == old(contexts)
      ensures !old(userId in contexts && contexts[userId].banned) ==>
                var before := if userId in old(contexts) then old(contexts)[userId] else NewContext(now);
                var run := Attempts(outcomes, 0);
                && window == Window(before.messages, question)
                && reply == run.reply && waits == run.waits && requests == run.requests
                && contexts == old(contexts)[userId := if reply.Answer? then Recorded(before, window, reply.text, now) else before]
    {
      var user := SetDefault(userId, now);
      window, waits, requests := [], [], 0;
      if user.banned {
        reply := Refused;
        return;
      }
      window := Window(user.messages, question);
      reply, waits, requests := Request(outcomes);
      if reply.Answer? {
        AnswerSanitized(outcomes, 0);
        RecordExchange(userId, question, window, reply.text, now);
        UpdateTwice(old(contexts), userId, user, Recorded(user, window, reply.text, now));
      }
    }

    /** `/ban <id>` sent by `callerId`. */
    method Ban(callerId: int, arg: Arg) returns (reply: AdminReply)
      requires Valid()
      modifies this`contexts
      ensures Valid()
      ensures callerId != adminId ==> reply == Forbidden && contexts == old(contexts)
      ensures callerId == adminId && arg.Missing? ==> reply == Crashed && contexts == old(contexts)
      ensures callerId == adminId && arg.NotANumber? ==> reply == BadFormat && contexts == old(contexts)
      ensures callerId == adminId && arg.Id? && arg.id !in old(contexts) ==>
                reply == NotFound && contexts == old(contexts)
      ensures callerId == adminId && arg.Id? && arg.id in old(contexts) ==>
                reply == BanApplied(arg.id) && contexts == WithBanFlag(old(contexts), arg.id, true)
    {
      if callerId != adminId {
        return Forbidden;
      }
      match arg
      case Missing =>
        reply := Crashed;
      case NotANumber =>
        reply := BadFormat;
      case Id(id) =>
        if id !in contexts {
          return NotFound;
        }
        contexts := WithBanFlag(contexts, id, true);
        reply := BanApplied(id);
    }

    /** `/unban <id>` sent by `callerId`; every failure lands in the bare `except`. */
    method Unban(callerId: int, arg: Arg) returns (reply: AdminReply)
      requires Valid()
      modifies this`contexts
      ensures Valid()
      ensures callerId != adminId ==> reply == Silent && contexts == old(contexts)
      ensures callerId == adminId && !(arg.Id? && arg.id in old(contexts)) ==>
                reply == Usage && contexts == old(contexts)
      ensures callerId == adminId && arg.Id? && arg.id in old(contexts) ==>
                reply == Unbanned(arg.id) && contexts == WithBanFlag(old(contexts), arg.id, false)
    {
      if callerId != adminId {
        return Silent;
      }
      if arg.Id? && arg.id in contexts {
        contexts := WithBanFlag(contexts, arg.id, false);
        reply := Unbanned(arg.id);
      } else {
        reply := Usage;
      }
    }

    /**
     * The sending loop of the broadcast: one send per known user, in table
     * order, where `accepts(id)` says whether the send to `id` succeeds. A
     * failed send is counted and logged and the loop goes on.
     */
    method Broadcast(accepts: int -> bool) returns (success: nat, failed: nat, attempted: seq<int>, failures: seq<int>)
      requires Valid()
      ensures attempted == order
      ensures failures == Filter(order, accepts, false) && failed == |failures|
      ensures success == |Filter(order, accepts, true)|
      ensures success + failed == |contexts|
    {
      success, failed, attempted, failures := 0, 0, [], [];
      for i := 0 to |order|
        invariant attempted == order[..i]
        invariant failures == Filter(order[..i], accepts, false) && failed == |failures|
        invariant success == |Filter(order[..i], accepts, true)|
      {
        var id := order[i];
        assert order[..i + 1] == order[..i] + [id];
        attempted := attempted + [id];
        if accepts(id) {
          success := success + 1;
        } else {
          failed := failed + 1;
          failures := failures + [id];
        }
      }
      assert order[..|order|] == order;
      FilterPartition(order, accepts);
    }

    /** The numbers shown by `/admin`; `None` for anyone but the administrator. */
    method AdminStats(callerId: int) returns (stats: Option<Stats>)
      requires Valid()
      ensures stats.Some? <==> callerId == adminId
      ensures stats.Some? ==>
                && stats.value.total == |contexts|
                && stats.value.active == |Matching(contexts, IsActive)|
                && stats.value.banned == |Matching(contexts, IsBanned)|
                && stats.value.active == stats.value.total
                && stats.value.banned <= stats.value.total
    {
      if callerId != adminId {
        return None;
      }
      var active, banned := 0, 0;
      for i := 0 to |order|
        invariant active == CountIn(order[..i], contexts, IsActive)
        invariant banned == CountIn(order[..i], contexts, IsBanned)
      {
        var u := contexts[order[i]];
        assert order[..i + 1][..i] == order[..i];
        if IsActive(u) {
          active := active + 1;
        }
        if IsBanned(u) {
          banned := banned + 1;
        }
      }
      assert order[..|order|] == order;
      CountAllIsMatching(order, contexts, IsActive);
      CountAllIsMatching(order, contexts, IsBanned);
      AllActive(contexts);
      MatchingBounded(contexts, IsBanned);
      stats := Some(Stats(|contexts|, active, banned));
    }
  }
}
