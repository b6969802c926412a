/**
 The life of a purchased number after the purchase: the monitor task that
 polls the provider until an OTP arrives, the activation times out, or the
 provider cancels or fails it; the registry of monitor tasks; and the cancel
 button, which is locked for the first minutes of an activation.
 */
module Lifecycle {
  import opened Common
  import opened Payload
  import opened Store
  import Provider

  /** How long after the purchase cancelling stays locked. */
  const CancelLockSeconds := 180
  /** How long the monitor waits for an OTP before giving up. */
  const MaxMonitorSeconds := 1500

  function Max(a: int, b: int): int {
    if a >= b then a else b
  }

  // ---------------------------------------------------------------------------
  // Row values as integers

  /** Python's `int(x)` for a float: truncation toward zero. */
  function Trunc(x: real): (r: int)
    ensures x >= 0.0 ==> r as real <= x < r as real + 1.0
    ensures x < 0.0 ==> r as real - 1.0 < x <= r as real
  {
    if x >= 0.0 then x.Floor else -((-x).Floor)
  }

  /** Python's `int(v)` on a row value; None where it raises. */
  function IntOf(v: Val): Option<int> {
    match v
    case Num(x, _) => Some(Trunc(x))
    case Str(s) => ParseInt(s)
    case Bool(b) => Some(if b then 1 else 0)
    case _ => None
  }

  /** An integer column as the database driver returns it. */
  function IntVal(n: int): Val {
    Num(n as real, IntToString(n))
  }

  lemma IntOfIntVal(n: int)
    ensures IntOf(IntVal(n)) == Some(n)
    ensures Truthy(IntVal(n)) <==> n != 0
  {
  }

  // ---------------------------------------------------------------------------
  // The cancel lock (`cancel_remaining_seconds`, `can_cancel_activation`)

  /**
   The start time the lock counts from: `created_at`, else
   `activation_started_at`, else `updated`, the first truthy one.
   */
  function LockStart(created: Val, started: Val, updated: Val): Val {
    Or(Or(created, started), updated)
  }

  /**
   Seconds until the activation may be cancelled. With no start time, or one
   that does not convert to an integer, the lock is held in full.
   */
  function CancelRemaining(created: Val, started: Val, updated: Val, now: int): (r: int)
    ensures 0 <= r <= CancelLockSeconds
  {
    var s := LockStart(created, started, updated);
    if s == Null then CancelLockSeconds
    else match IntOf(s)
      case None => CancelLockSeconds
      case Some(t) => Max(0, CancelLockSeconds - Max(0, now - t))
  }

  predicate CanCancel(created: Val, started: Val, updated: Val, now: int) {
    CancelRemaining(created, started, updated, now) == 0
  }

  /**
   With a start time t, cancelling is allowed exactly when `now - t` has
   reached the lock length; before that the remaining time counts down one
   second per second, and a start time in the future holds the full lock.
   Without a usable start time the lock is held in full.
   */
  lemma CancelRemainingSpec(created: Val, started: Val, updated: Val, now: int)
    ensures var s := LockStart(created, started, updated);
            var r := CancelRemaining(created, started, updated, now);
            (s == Null || IntOf(s).None? ==> r == CancelLockSeconds) &&
            (s != Null && IntOf(s).Some? ==>
               var age := now - IntOf(s).value;
               (r == 0 <==> age >= CancelLockSeconds) &&
               (age <= 0 ==> r == CancelLockSeconds) &&
               (0 <= age <= CancelLockSeconds ==> r == CancelLockSeconds - age))
  {
  }

  /** The lock of a stored activation counts from its creation time (0 meaning unknown). */
  lemma StoredActivationLock(a: Activation, now: int)
    ensures a.createdAt == 0 ==> CancelRemaining(IntVal(a.createdAt), Null, Null, now) == CancelLockSeconds
    ensures a.createdAt != 0 ==> (CanCancel(IntVal(a.createdAt), Null, Null, now) <==> now - a.createdAt >= CancelLockSeconds)
  {
    IntOfIntVal(a.createdAt);
    CancelRemainingSpec(IntVal(a.createdAt), Null, Null, now);
  }

  // ---------------------------------------------------------------------------
  // The monitor registry (`tasks` in `start_poll_task` and `cancel_core`)

  /**
   The running monitors: `entries` maps an activation id to the task last
   started for it, `live` holds the tasks neither finished nor cancelled,
   and `owner` the activation each task watches. Task ids are issued from
   `next`.
   */
  datatype Registry = Registry(entries: map<string, nat>, live: set<nat>, owner: map<nat, string>, next: nat)

  /**
   Every live task is the one registered for its activation, every
   registered task watches the activation it is registered under, and ids
   are fresh.
   */
  predicate RegValid(g: Registry) {
    (forall t :: t in g.live ==> t in g.owner && g.owner[t] in g.entries && g.entries[g.owner[t]] == t) &&
    (forall a :: a in g.entries ==> g.entries[a] in g.owner && g.owner[g.entries[a]] == a) &&
    (forall t :: t in g.owner ==> t < g.next)
  }

  /** The live tasks watching an activation. */
  function LiveFor(g: Registry, aid: string): set<nat> {
    set t | t in g.live && t in g.owner && g.owner[t] == aid
  }

  /** Under the invariant no activation is watched by two live tasks. */
  lemma AtMostOneLive(g: Registry, aid: string)
    requires RegValid(g)
    ensures aid in g.entries && g.entries[aid] in g.live ==> LiveFor(g, aid) == {g.entries[aid]}
    ensures !(aid in g.entries && g.entries[aid] in g.live) ==> LiveFor(g, aid) == {}
  {
    forall t | t in LiveFor(g, aid)
      ensures aid in g.entries && t == g.entries[aid]
    {
    }
  }

  /** Starts a monitor for `aid`, cancelling the live one already registered for it. */
  function StartPoll(g: Registry, aid: string): (r: Registry)
    requires RegValid(g)
    ensures RegValid(r)
    ensures r.entries == g.entries[aid := g.next] && g.next in r.live && g.next !in g.owner
  {
    var live := if aid in g.entries && g.entries[aid] in g.live then g.live - {g.entries[aid]} else g.live;
    Registry(g.entries[aid := g.next], live + {g.next}, g.owner[g.next := aid], g.next + 1)
  }

  /**
   After a start the new task is the only live monitor of its activation,
   and the monitors of other activations are untouched.
   */
  lemma StartPollSpec(g: Registry, aid: string, other: string)
    requires RegValid(g) && other != aid
    ensures LiveFor(StartPoll(g, aid), aid) == {g.next}
    ensures LiveFor(StartPoll(g, aid), other) == LiveFor(g, other)
  {
    var r := StartPoll(g, aid);
    AtMostOneLive(r, aid);
    forall t | t in LiveFor(g, other)
      ensures t in LiveFor(r, other)
    {
      assert t != g.next;
      assert aid in g.entries ==> g.entries[aid] != t;
    }
  }

  /** Cancels and unregisters the live monitor of `aid`, if there is one. */
  function CancelTask(g: Registry, aid: string): (r: Registry)
    requires RegValid(g)
    ensures RegValid(r)
    ensures aid !in r.entries || r.entries[aid] !in r.live
    ensures r.live <= g.live && r.owner == g.owner
  {
    if aid in g.entries && g.entries[aid] in g.live then
      Registry(g.entries - {aid}, g.live - {g.entries[aid]}, g.owner, g.next)
    else g
  }

  /** After a cancel no monitor of the activation is live; other activations keep theirs. */
  lemma CancelTaskSpec(g: Registry, aid: string, other: string)
    requires RegValid(g) && other != aid
    ensures LiveFor(CancelTask(g, aid), aid) == {}
    ensures LiveFor(CancelTask(g, aid), other) == LiveFor(g, other)
  {
    var r := CancelTask(g, aid);
    AtMostOneLive(r, aid);
    forall t | t in LiveFor(g, other)
      ensures t in LiveFor(r, other)
    {
      assert aid in g.entries ==> g.entries[aid] != t;
    }
  }

  /**
   A monitor that stops on its own unregisters its activation. Only a live
   task gets there (a cancelled one is stopped at its next wait), so the entry
   it removes is its own and never a newer monitor's.
   */
  function FinishTask(g: Registry, t: nat): (r: Registry)
    requires RegValid(g) && t in g.live
    ensures RegValid(r)
    ensures g.entries[g.owner[t]] == t && r.entries == g.entries - {g.owner[t]}
    ensures r.live == g.live - {t}
  {
    Registry(g.entries - {g.owner[t]}, g.live - {t}, g.owner, g.next)
  }

  // ---------------------------------------------------------------------------
  // One monitor iteration (the loop body of `start_poll_task.run`)

  /** The outcome of one status poll: a decoded reply, or an exception. */
  datatype Poll = PollFailed | Polled(reply: Provider.StatusReply)

  /** What an iteration decides: stop silently, poll again, or write a final status (and maybe refund). */
  datatype Decision = Stop | Continue | Finish(status: Status, otp: Option<string>, refund: bool)

  function Lookup(st: Store, aid: string): Option<Activation> {
    if aid in st.acts then Some(st.acts[aid]) else None
  }

  /**
   The decision of one iteration, from the activation as read at its start.
   The poll outcome is only consulted when the activation has not timed out.
   */
  function Decide(act: Option<Activation>, now: int, poll: Poll): (d: Decision)
    ensures d.Finish? ==> d.status != Active
  {
    if act.None? || act.value.status != Active then Stop
    else
      var created := if act.value.createdAt != 0 then act.value.createdAt else now;
      if now - created >= MaxMonitorSeconds then Finish(Expired, None, true)
      else match poll
        case PollFailed => Continue
        case Polled(SWait) => Continue
        case Polled(SOk(code)) => if code != "" then Finish(OtpReceived, Some(code), false) else Continue
        case Polled(SCancel) => Finish(Cancelled, None, true)
        case Polled(SError(_)) => Finish(Error, None, true)
  }

  /** The store writes of a decision, as store operations at time `now`. */
  function MonitorOps(aid: string, d: Decision, now: int): (ops: seq<Op>)
    ensures |ops| <= 2
    ensures forall i :: 0 <= i < |ops| ==> !ReRecords(ops[i], aid)
    ensures |ops| > 0 <==> d.Finish?
  {
    match d
    case Finish(s, otp, refund) => [Op(now, SetStatusOp(aid, s, otp))] + (if refund then [Op(now, RefundOp(aid))] else [])
    case _ => []
  }

  datatype Stepped = Stepped(store: Store, stop: bool, refund: Option<Receipt>)

  /** One iteration against the current store. */
  function MonitorStep(st: Store, aid: string, now: int, poll: Poll): (r: Stepped)
    requires Valid(st)
    ensures Valid(r.store)
    ensures r.stop <==> !Decide(Lookup(st, aid), now, poll).Continue?
    ensures r.refund.Some? ==> Decide(Lookup(st, aid), now, poll).Finish? && Decide(Lookup(st, aid), now, poll).refund
  {
    var d := Decide(Lookup(st, aid), now, poll);
    match d
    case Stop => Stepped(st, true, None)
    case Continue => Stepped(st, false, None)
    case Finish(s, otp, refund) =>
      var s1 := SetActivationStatus(st, aid, s, otp, now);
      if refund then
        var rf := RefundIfNeeded(s1, aid, now);
        Stepped(rf.store, true, rf.receipt)
      else Stepped(s1, true, None)
  }

  /** One iteration performs exactly the store operations its decision lists. */
  lemma MonitorStepIsRun(st: Store, aid: string, now: int, poll: Poll)
    requires Valid(st)
    ensures MonitorStep(st, aid, now, poll).store == Run(st, MonitorOps(aid, Decide(Lookup(st, aid), now, poll), now))
  {
    hide Decide, Lookup, SetActivationStatus, RefundIfNeeded;
    var d := Decide(Lookup(st, aid), now, poll);
    var ops := MonitorOps(aid, d, now);
    if d.Finish? {
      var s1 := Apply(st, ops[0]).store;
      assert s1 == SetActivationStatus(st, aid, d.status, d.otp, now);
      if d.refund {
        assert ops[1..] == [ops[1]] && ops[1..][1..] == [];
        assert Run(s1, ops[1..]) == Apply(s1, ops[1]).store;
      }
    }
  }

  /** A status write leaves the refund question where it was. */
  lemma StatusKeepsRefundable(st: Store, aid: string, s: Status, otp: Option<string>, now: int)
    ensures Refundable(SetActivationStatus(st, aid, s, otp, now), aid) == Refundable(st, aid)
  {
    if aid in st.acts {
      SetActivationStatusKeepsRefund(st, aid, s, otp, now, aid);
    }
  }

  /** A missing or no longer active activation stops the monitor without any write. */
  lemma MonitorStopsQuietly(st: Store, aid: string, now: int, poll: Poll)
    requires Valid(st) && (aid !in st.acts || st.acts[aid].status != Active)
    ensures MonitorStep(st, aid, now, poll) == Stepped(st, true, None)
  {
  }

  /** The elapsed time of an active activation, counting an unknown creation time as now. */
  function Elapsed(a: Activation, now: int): int {
    now - (if a.createdAt != 0 then a.createdAt else now)
  }

  /** A timed-out activation is marked expired and its charge refunded, whatever the poll says. */
  lemma MonitorTimeout(st: Store, aid: string, now: int, poll: Poll)
    requires Valid(st) && aid in st.acts && st.acts[aid].status == Active
    requires Elapsed(st.acts[aid], now) >= MaxMonitorSeconds
    ensures var r := MonitorStep(st, aid, now, poll);
            r.stop && r.store.acts[aid].status == Expired &&
            r.store.acts[aid].refunded == (st.acts[aid].refunded || Refundable(st, aid)) &&
            (r.refund.Some? <==> Refundable(st, aid))
  {
    StatusKeepsRefundable(st, aid, Expired, None, now);
  }

  /** Polls that neither finish nor fail the activation leave the store as it was and keep polling. */
  lemma MonitorContinues(st: Store, aid: string, now: int, poll: Poll)
    requires Valid(st) && aid in st.acts && st.acts[aid].status == Active
    requires Elapsed(st.acts[aid], now) < MaxMonitorSeconds
    requires poll == PollFailed || poll == Polled(Provider.SWait) || poll == Polled(Provider.SOk(""))
    ensures MonitorStep(st, aid, now, poll) == Stepped(st, false, None)
  {
  }

  /** A received OTP is stored and stops the monitor, and never refunds. */
  lemma MonitorOtp(st: Store, aid: string, now: int, code: string)
    requires Valid(st) && aid in st.acts && st.acts[aid].status == Active
    requires Elapsed(st.acts[aid], now) < MaxMonitorSeconds && code != ""
    ensures var r := MonitorStep(st, aid, now, Polled(Provider.SOk(code)));
            r.stop && r.refund.None? &&
            r.store.acts[aid].status == OtpReceived && r.store.acts[aid].otp == Some(code) &&
            r.store.acts[aid].refunded == st.acts[aid].refunded &&
            (forall u :: u in st.users ==> u in r.store.users && r.store.users[u].balance == st.users[u].balance)
  {
  }

  /**
   A provider-side cancel or error is recorded and followed by the refund,
   which pays exactly when the activation is refundable.
   */
  lemma MonitorProviderEnd(st: Store, aid: string, now: int, reply: Provider.StatusReply)
    requires Valid(st) && aid in st.acts && st.acts[aid].status == Active
    requires Elapsed(st.acts[aid], now) < MaxMonitorSeconds
    requires reply.SCancel? || reply.SError?
    ensures var r := MonitorStep(st, aid, now, Polled(reply));
            r.stop && r.store.acts[aid].status == (if reply.SCancel? then Cancelled else Error) &&
            (r.refund.Some? <==> Refundable(st, aid))
  {
    StatusKeepsRefundable(st, aid, if reply.SCancel? then Cancelled else Error, None, now);
  }

  /**
   A cancel reported by the provider for a charged, unrefunded activation
   ends it as cancelled and returns the charge to the owner's balance once;
   a later iteration (another resumed monitor included) stops without
   writing anything.
   */
  lemma ProviderCancelRefundsOnce(st: Store, aid: string, now: int, later: int, poll: Poll)
    requires Valid(st) && Refundable(st, aid) && st.acts[aid].status == Active
    requires Elapsed(st.acts[aid], now) < MaxMonitorSeconds
    requires st.acts[aid].userId in st.users
    ensures var r := MonitorStep(st, aid, now, Polled(Provider.SCancel));
            var a := st.acts[aid];
            r.stop && r.store.acts[aid].status == Cancelled &&
            r.refund == Some(Receipt(a.userId, Decimal.Money(a.charged))) &&
            r.store.users[a.userId].balance == st.users[a.userId].balance + a.charged &&
            MonitorStep(r.store, aid, later, poll) == Stepped(r.store, true, None)
  {
    hide Decimal.Money;
    var a := st.acts[aid];
    var s1 := SetActivationStatus(st, aid, Cancelled, None, now);
    assert s1.acts[aid] == a.(status := Cancelled, updatedAt := now);
    assert s1.users[a.userId].balance == st.users[a.userId].balance;
    assert Refundable(s1, aid);
    var rf := RefundIfNeeded(s1, aid, now);
    assert MonitorStep(st, aid, now, Polled(Provider.SCancel)) == Stepped(rf.store, true, rf.receipt);
    assert rf.store.acts[aid].status == Cancelled;
    MonitorStopsQuietly(rf.store, aid, later, poll);
  }

  /**
   Two monitors of the same activation that both read it as active and
   timed out each write `expired` and try to refund, one after the other:
   the charge is paid back exactly once.
   */
  lemma TwoMonitorsRefundOnce(st: Store, aid: string, now1: int, now2: int, p1: Poll, p2: Poll)
    requires Valid(st) && Refundable(st, aid) && st.acts[aid].status == Active
    requires Elapsed(st.acts[aid], now1) >= MaxMonitorSeconds && Elapsed(st.acts[aid], now2) >= MaxMonitorSeconds
    ensures var snap := Lookup(st, aid);
            var ops := MonitorOps(aid, Decide(snap, now1, p1), now1) + MonitorOps(aid, Decide(snap, now2, p2), now2);
            RefundsPaid(st, ops, aid) == 1
  {
    TimeoutOps(st, aid, now1, p1);
    TimeoutOps(st, aid, now2, p2);
    hide MonitorOps, Decide, Lookup;
    var a := [Op(now1, SetStatusOp(aid, Expired, None)), Op(now1, RefundOp(aid))];
    var b := [Op(now2, SetStatusOp(aid, Expired, None)), Op(now2, RefundOp(aid))];
    RunAppend(st, a, b, aid);
    assert forall i :: 0 <= i < |a + b| ==> !ReRecords((a + b)[i], aid);
    RefundAtMostOnce(st, a + b, aid);
    var s1 := SetActivationStatus(st, aid, Expired, None, now1);
    StatusKeepsRefundable(st, aid, Expired, None, now1);
    RefundsStep(st, a, aid);
    assert a[1..] == [Op(now1, RefundOp(aid))];
    RefundsStep(s1, a[1..], aid);
  }

  /** A timed-out activation's monitor writes `expired` and then asks for the refund. */
  lemma TimeoutOps(st: Store, aid: string, now: int, p: Poll)
    requires aid in st.acts && st.acts[aid].status == Active
    requires Elapsed(st.acts[aid], now) >= MaxMonitorSeconds
    ensures MonitorOps(aid, Decide(Lookup(st, aid), now, p), now)
         == [Op(now, SetStatusOp(aid, Expired, None)), Op(now, RefundOp(aid))]
  {
  }

  /**
   The monitor task over a sequence of (time, poll) iterations. It writes to
   the store only when it finishes, with one status write and at most one
   refund; once it stops the activation is no longer active; and it never
   pays the refund twice.
   */
  method RunMonitor(st: Store, aid: string, polls: seq<(int, Poll)>) returns (r: Store, ops: seq<Op>, stopped: bool)
    requires Valid(st)
    ensures Valid(r) && r == Run(st, ops)
    ensures !stopped ==> ops == [] && r == st
    ensures |ops| <= 2 && (|ops| > 0 ==> stopped && ops[0].action.SetStatusOp? && ops[0].action.status != Active)
    ensures stopped && aid in r.acts ==> r.acts[aid].status != Active
    ensures RefundsPaid(st, ops, aid) <= 1
  {
    r, ops, stopped := st, [], false;
    var i := 0;
    while i < |polls| && !stopped
      invariant 0 <= i <= |polls|
      invariant Valid(r) && r == Run(st, ops)
      invariant !stopped ==> ops == [] && r == st
      invariant |ops| <= 2 && (|ops| > 0 ==> ops[0].action.SetStatusOp? && ops[0].action.status != Active)
      invariant forall k :: 0 <= k < |ops| ==> !ReRecords(ops[k], aid)
      invariant stopped && aid in r.acts ==> r.acts[aid].status != Active
    {
      var (now, poll) := polls[i];
      var d := Decide(Lookup(r, aid), now, poll);
      if d.Stop? {
        stopped := true;
      } else if d.Finish? {
        var step := MonitorStep(r, aid, now, poll);
        MonitorStepIsRun(r, aid, now, poll);
        ops := MonitorOps(aid, d, now);
        r := step.store;
        stopped := true;
      }
      i := i + 1;
    }
    RefundAtMostOnce(st, ops, aid);
  }

  // ---------------------------------------------------------------------------
  // The cancel button (`cb_cancel`, `cancel_core`)

  /** What the cancel button answers. */
  datatype CancelVerdict = Stale | NoActive | OtpAlready | Locked(remaining: int) | Proceed(aid: string)

  /** The activation id after the first `:` of the callback data. */
  function CallbackAid(data: string): Option<string> {
    var k := IndexOf(data, ':');
    if k < |data| then Some(data[k + 1..]) else None
  }

  /** The fields of the activation record the cancel ladder inspects. */
  datatype Ticket = Ticket(userId: int, status: string, created: Val, started: Val)

  /**
   The activation the button refers to: the stored one, or, for a user still
   polling it through the legacy columns, one rebuilt from those columns.
   */
  function TicketOf(st: Store, uid: int, aid: string): Option<Ticket> {
    if aid in st.acts then
      var a := st.acts[aid];
      Some(Ticket(a.userId, StatusName(a.status), IntVal(a.createdAt), Null))
    else if uid in st.users && st.users[uid].slot.Some? && st.users[uid].slot.value.aid == aid && st.users[uid].polling then
      var t := st.users[uid].slot.value.startedAt;
      Some(Ticket(uid, "active", IntVal(t), IntVal(t)))
    else None
  }

  /** The decision ladder: stale button, ownership, OTP received, not active, lock. */
  function CancelDecision(st: Store, uid: int, data: string, now: int): (v: CancelVerdict)
    ensures v.Locked? ==> 0 < v.remaining <= CancelLockSeconds
    ensures v.Proceed? ==> CallbackAid(data) == Some(v.aid) && v.aid != ""
  {
    match CallbackAid(data)
    case None => Stale
    case Some(aid) =>
      if aid == "" then Stale
      else match TicketOf(st, uid, aid)
        case None => NoActive
        case Some(t) =>
          var status := Lower(if t.status == "" then "active" else t.status);
          if t.userId != uid then NoActive
          else if status == "otp_received" then OtpAlready
          else if status != "active" then NoActive
          else
            var rem := CancelRemaining(t.created, t.started, Null, now);
            if rem != 0 then Locked(rem) else Proceed(aid)
  }

  /**
   Cancelling goes ahead only for the pressing user's own activation, while it
   is active and past the lock; an OTP already received is refused.
   */
  lemma CancelDecisionSpec(st: Store, uid: int, data: string, now: int)
    ensures var v := CancelDecision(st, uid, data, now);
            v.Proceed? ==>
              TicketOf(st, uid, v.aid).Some? && TicketOf(st, uid, v.aid).value.userId == uid &&
              (v.aid in st.acts ==>
                 (st.acts[v.aid].userId == uid && st.acts[v.aid].status == Active &&
                  st.acts[v.aid].createdAt != 0 && now - st.acts[v.aid].createdAt >= CancelLockSeconds))
    ensures var v := CancelDecision(st, uid, data, now);
            var aid := CallbackAid(data);
            aid.Some? && aid.value != "" && aid.value in st.acts && st.acts[aid.value].userId == uid ==>
              (v == OtpAlready <==> st.acts[aid.value].status == OtpReceived)
  {
    var v := CancelDecision(st, uid, data, now);
    var aid := CallbackAid(data);
    if aid.Some? && aid.value in st.acts {
      var a := st.acts[aid.value];
      StatusNameLower(a.status);
      if v.Proceed? {
        StoredActivationLock(a, now);
      }
    }
  }

  lemma StatusNameLower(s: Status)
    ensures Lower(StatusName(s)) == StatusName(s) && StatusName(s) != ""
    ensures StatusName(s) == "otp_received" <==> s == OtpReceived
    ensures StatusName(s) == "active" <==> s == Active
  {
  }

  /**
   The lock seen through the button, 100 and 181 seconds after the purchase
   of an active activation created at time t.
   */
  lemma CancelLockTimeline(st: Store, uid: int, aid: string, t: int)
    requires aid in st.acts && ':' !in aid && aid != ""
    requires st.acts[aid].userId == uid && st.acts[aid].status == Active && st.acts[aid].createdAt == t && t != 0
    ensures CancelDecision(st, uid, "cx:" + aid, t + 100) == Locked(80)
    ensures CancelDecision(st, uid, "cx:" + aid, t + 181) == Proceed(aid)
  {
    var data := "cx:" + aid;
    assert data[0] == 'c' && data[1] == 'x' && data[2] == ':';
    assert IndexOf(data, ':') == 2;
    StatusNameLower(Active);
    assert data[3..] == aid;
    StoredActivationLock(st.acts[aid], t + 100);
    IntOfIntVal(t);
  }

  /** The user row's legacy activation id, "" when there is none. */
  function SlotAid(st: Store, uid: int): string {
    if uid in st.users && st.users[uid].slot.Some? then st.users[uid].slot.value.aid else ""
  }

  datatype CancelOutcome = CancelOutcome(store: Store, registry: Registry, refund: Option<Receipt>)

  /**
   The cancellation itself: the monitor is stopped and unregistered, the
   activation marked cancelled and refunded, and the user's legacy columns
   cleared when they point at it. The provider is told too; its answer is
   ignored and not modelled.
   */
  function CancelCore(st: Store, g: Registry, aid: string, user: Option<int>, now: int): (r: CancelOutcome)
    requires Valid(st) && RegValid(g)
    ensures Valid(r.store) && RegValid(r.registry) && LiveFor(r.registry, aid) == {}
    ensures r.refund.Some? <==> Refundable(st, aid)
    ensures aid in st.acts ==> aid in r.store.acts && r.store.acts[aid].status == Cancelled && r.store.acts[aid].refunded == (st.acts[aid].refunded || Refundable(st, aid))
    ensures r.store.users.Keys == st.users.Keys && r.store.acts.Keys == st.acts.Keys
    ensures user.Some? && SlotAid(st, user.value) == aid && user.value in st.users ==> r.store.users[user.value].slot.None?
  {
    var s1 := SetActivationStatus(st, aid, Cancelled, None, now);
    StatusKeepsRefundable(st, aid, Cancelled, None, now);
    var rf := RefundIfNeeded(s1, aid, now);
    var s3 := if user.Some? && SlotAid(rf.store, user.value) == aid then ClearActivation(rf.store, user.value) else rf.store;
    assert s1.users.Keys == st.users.Keys && rf.store.users.Keys == s1.users.Keys && s3.users.Keys == st.users.Keys;
    assert s3.acts.Keys == st.acts.Keys;
    CancelOutcome(s3, CancelTask(g, aid), rf.receipt)
  }

  /** The button: the decision, and the cancellation when it goes ahead. */
  function CancelButton(st: Store, g: Registry, uid: int, data: string, now: int): (r: (CancelVerdict, CancelOutcome))
    requires Valid(st) && RegValid(g)
    ensures !r.0.Proceed? ==> r.1 == CancelOutcome(st, g, None)
    ensures Valid(r.1.store) && RegValid(r.1.registry)
  {
    var v := CancelDecision(st, uid, data, now);
    if v.Proceed? then (v, CancelCore(st, g, v.aid, Some(uid), now)) else (v, CancelOutcome(st, g, None))
  }

  /**
   Pressing cancel twice pays at most one refund: once the first press went
   ahead, the second finds the activation no longer active (or, for a
   legacy one, the user's columns cleared) and does nothing.
   */
  lemma CancelTwiceRefundsOnce(st: Store, g: Registry, uid: int, data: string, now: int, later: int)
    requires Valid(st) && RegValid(g)
    ensures var first := CancelButton(st, g, uid, data, now);
            var second := CancelButton(first.1.store, first.1.registry, uid, data, later);
            first.0.Proceed? ==> second.0 == NoActive && second.1.refund.None? && second.1.store == first.1.store
  {
    var first := CancelButton(st, g, uid, data, now);
    if first.0.Proceed? {
      var aid := first.0.aid;
      CancelDecisionSpec(st, uid, data, now);
      var out := CancelCore(st, g, aid, Some(uid), now);
      assert first.1 == out;
      if aid !in st.acts {
        assert SlotAid(st, uid) == aid;
      }
      SecondPressFindsNothing(out.store, uid, data, aid, later);
    }
  }

  /** A press on a cancelled activation, or on a legacy one whose columns were cleared, does nothing. */
  lemma SecondPressFindsNothing(st: Store, uid: int, data: string, aid: string, now: int)
    requires CallbackAid(data) == Some(aid) && aid != ""
    requires aid in st.acts ==> st.acts[aid].status == Cancelled
    requires aid !in st.acts ==> uid in st.users && st.users[uid].slot.None?
    ensures CancelDecision(st, uid, data, now) == NoActive
  {
    StatusNameLower(Cancelled);
  }
}
