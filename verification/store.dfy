/**
 The bot's ledger as the transactional database backend keeps it: user
 balances, activations (one per provider activation id) and deposit requests,
 with each store operation as a pure function of the state. Timestamps are
 parameters. Each operation is one transaction in the bot; the model
 applies it atomically.
 */
module Store {
  import opened Common
  import opened Decimal
  import opened Pricing

  // ---------------------------------------------------------------------------
  // State

  /** The lifecycle states the bot writes for an activation. */
  datatype Status = Active | OtpReceived | Expired | Cancelled | Error

  function StatusName(s: Status): string {
    match s
    case Active => "active"
    case OtpReceived => "otp_received"
    case Expired => "expired"
    case Cancelled => "cancelled"
    case Error => "error"
  }

  /** One purchased number, keyed by the provider's activation id. */
  datatype Activation = Activation(
    userId: int,
    chatId: int,
    service: string,
    country: string,
    providerId: Option<string>,
    phone: string,
    status: Status,
    otp: Option<string>,
    basePrice: real,
    charged: real,
    refunded: bool,
    refundAmount: real,
    createdAt: int,
    updatedAt: int)

  /** The legacy single-activation columns of a users row (`set_activation`). */
  datatype Slot = Slot(aid: string, startedAt: int, service: string, country: string, providerId: Option<string>, phone: string)

  datatype UserRow = UserRow(role: Role, balance: real, chatId: Option<int>, slot: Option<Slot>, polling: bool)

  /** The deposit states; review may write any text, the bot writes `approved` or `rejected`. */
  const AwaitingProof := "awaiting_proof"
  const PendingReview := "pending"
  const Approved := "approved"
  const Rejected := "rejected"

  datatype Deposit = Deposit(
    userId: int,
    amount: real,
    status: string,
    txid: Option<string>,
    screenshot: Option<string>,
    reviewedBy: Option<int>,
    note: Option<string>,
    updatedAt: int)

  /** A deposit still waiting for review. */
  predicate IsOpen(d: Deposit) {
    d.status == PendingReview || d.status == AwaitingProof
  }

  /** `nextDeposit` is the next value of the deposits id sequence. */
  datatype Store = Store(users: map<int, UserRow>, acts: map<string, Activation>, deps: map<nat, Deposit>, nextDeposit: nat)

  /** Every deposit id was issued by the sequence. */
  predicate Valid(st: Store) {
    forall id :: id in st.deps ==> id < st.nextDeposit
  }

  // ---------------------------------------------------------------------------
  // Balances (`adjust_balance`)

  /** `balance = balance + amount` on the user's row, if there is one. */
  function Credit(st: Store, uid: int, amount: real): (r: Store)
    ensures r.acts == st.acts && r.deps == st.deps && r.nextDeposit == st.nextDeposit
    ensures r.users.Keys == st.users.Keys
    ensures uid in st.users ==> r.users[uid] == st.users[uid].(balance := st.users[uid].balance + amount)
    ensures forall u :: u in st.users && u != uid ==> r.users[u] == st.users[u]
  {
    if uid in st.users then st.(users := st.users[uid := st.users[uid].(balance := st.users[uid].balance + amount)])
    else st
  }

  datatype Adjusted = Adjusted(store: Store, balance: Option<real>)

  /**
   Adds `delta` to a user's balance and returns the new balance. With the
   guard, an update that would leave the balance negative is refused; a
   missing user is refused either way. A refusal changes nothing.
   */
  function AdjustBalance(st: Store, uid: int, delta: real, nonNegative: bool): (r: Adjusted)
    ensures r.balance.None? <==> uid !in st.users || (nonNegative && st.users[uid].balance + delta < 0.0)
    ensures r.balance.None? ==> r.store == st
    ensures r.balance.Some? ==> r.balance.value == st.users[uid].balance + delta && r.store == Credit(st, uid, delta)
  {
    if uid !in st.users || (nonNegative && st.users[uid].balance + delta < 0.0) then Adjusted(st, None)
    else Adjusted(Credit(st, uid, delta), Some(st.users[uid].balance + delta))
  }

  /**
   An accepted adjustment leaves the user's balance at exactly old + delta,
   never negative under the guard, and touches no other user, activation or
   deposit; adding the amount back undoes it.
   */
  lemma AdjustBalanceSpec(st: Store, uid: int, delta: real, nonNegative: bool)
    ensures var r := AdjustBalance(st, uid, delta, nonNegative);
            r.balance.Some? ==>
              r.store.users[uid].balance == st.users[uid].balance + delta &&
              (nonNegative ==> r.store.users[uid].balance >= 0.0) &&
              (forall u :: u in st.users && u != uid ==> r.store.users[u] == st.users[u]) &&
              r.store.acts == st.acts && r.store.deps == st.deps &&
              AdjustBalance(r.store, uid, -delta, false).store == st
  {
    var r := AdjustBalance(st, uid, delta, nonNegative);
    if r.balance.Some? {
      var back := AdjustBalance(r.store, uid, -delta, false).store;
      assert back.users[uid] == st.users[uid];
      assert back.users == st.users;
    }
  }

  // ---------------------------------------------------------------------------
  // Legacy activation columns (`set_activation`, `clear_activation`)

  function SetActivation(st: Store, uid: int, chat: int, slot: Slot): (r: Store)
    ensures r.users.Keys == st.users.Keys
    ensures uid in st.users ==> r.users[uid].slot == Some(slot) && r.users[uid].polling && r.users[uid].balance == st.users[uid].balance
    ensures uid !in st.users ==> r == st
    ensures r.acts == st.acts && r.deps == st.deps && r.nextDeposit == st.nextDeposit
  {
    if uid in st.users then st.(users := st.users[uid := st.users[uid].(chatId := Some(chat), slot := Some(slot), polling := true)])
    else st
  }

  function ClearActivation(st: Store, uid: int): (r: Store)
    ensures r.users.Keys == st.users.Keys
    ensures uid in st.users ==> r.users[uid].slot.None? && !r.users[uid].polling && r.users[uid].balance == st.users[uid].balance
    ensures uid !in st.users ==> r == st
    ensures r.acts == st.acts && r.deps == st.deps && r.nextDeposit == st.nextDeposit
  {
    if uid in st.users then st.(users := st.users[uid := st.users[uid].(slot := None, polling := false)])
    else st
  }

  // ---------------------------------------------------------------------------
  // Activations (`add_activation`, `set_activation_status`)

  /**
   Records a purchase as an upsert on the activation id: a new id starts at
   `now`; an existing one keeps its creation time and is otherwise overwritten,
   back to active, without OTP and not refunded.
   */
  function AddActivation(st: Store, uid: int, chat: int, aid: string, service: string, country: string,
                         providerId: Option<string>, phone: string, basePrice: real, charged: real, now: int): (r: Store)
    ensures aid in r.acts
    ensures r.users == st.users && r.deps == st.deps && r.nextDeposit == st.nextDeposit
    ensures forall a :: a in st.acts && a != aid ==> a in r.acts && r.acts[a] == st.acts[a]
    ensures r.acts.Keys == st.acts.Keys + {aid}
  {
    var created := if aid in st.acts then st.acts[aid].createdAt else now;
    st.(acts := st.acts[aid := Activation(uid, chat, service, country, providerId, phone, Active, None,
                                          basePrice, charged, false, 0.0, created, now)])
  }

  /**
   After recording, the activation is active with the given owner and charge,
   no OTP and no refund, and keeps the creation time it had.
   */
  lemma AddActivationSpec(st: Store, uid: int, chat: int, aid: string, service: string, country: string,
                          providerId: Option<string>, phone: string, basePrice: real, charged: real, now: int)
    ensures var a := AddActivation(st, uid, chat, aid, service, country, providerId, phone, basePrice, charged, now).acts[aid];
            a.status == Active && a.otp.None? && !a.refunded && a.refundAmount == 0.0 &&
            a.userId == uid && a.charged == charged && a.basePrice == basePrice &&
            a.createdAt == (if aid in st.acts then st.acts[aid].createdAt else now)
  {
  }

  /** The users-table side of a status change: stop polling every row pointing at the activation. */
  function StopPolling(users: map<int, UserRow>, aid: string): (r: map<int, UserRow>)
    ensures r.Keys == users.Keys
    ensures forall u :: u in users ==> r[u] == (if users[u].slot.Some? && users[u].slot.value.aid == aid
                                                  then users[u].(polling := false) else users[u])
  {
    map u | u in users :: if users[u].slot.Some? && users[u].slot.value.aid == aid then users[u].(polling := false) else users[u]
  }

  /**
   Writes a status, and the OTP when one is given (an absent OTP keeps the
   stored one); any status other than active also stops the legacy polling
   flag of users pointing at the activation, even when the activation row
   is missing.
   */
  function SetActivationStatus(st: Store, aid: string, status: Status, otp: Option<string>, now: int): (r: Store)
    ensures r.deps == st.deps && r.nextDeposit == st.nextDeposit && r.acts.Keys == st.acts.Keys
    ensures forall a :: a in st.acts && a != aid ==> r.acts[a] == st.acts[a]
    ensures aid in st.acts ==> r.acts[aid] == st.acts[aid].(status := status, otp := if otp.Some? then otp else st.acts[aid].otp, updatedAt := now)
    ensures r.users.Keys == st.users.Keys
    ensures forall u :: u in st.users ==> r.users[u].balance == st.users[u].balance && r.users[u].slot == st.users[u].slot
  {
    var acts := if aid in st.acts
                then st.acts[aid := st.acts[aid].(status := status, otp := if otp.Some? then otp else st.acts[aid].otp, updatedAt := now)]
                else st.acts;
    var users := if status != Active then StopPolling(st.users, aid) else st.users;
    st.(acts := acts, users := users)
  }

  /** Status writes never touch the refund bookkeeping or the charge. */
  lemma SetActivationStatusKeepsRefund(st: Store, aid: string, status: Status, otp: Option<string>, now: int, a: string)
    requires a in st.acts
    ensures var r := SetActivationStatus(st, aid, status, otp, now);
            r.acts[a].refunded == st.acts[a].refunded && r.acts[a].charged == st.acts[a].charged &&
            r.acts[a].userId == st.acts[a].userId && r.acts[a].createdAt == st.acts[a].createdAt
  {
  }

  // ---------------------------------------------------------------------------
  // Refunds (`refund_activation_if_needed`)

  /** What a refund reports: the owner and the amount as `money` renders it. */
  datatype Receipt = Receipt(userId: int, amount: string)

  datatype Refunded = Refunded(store: Store, receipt: Option<Receipt>)

  /** Whether a refund of the activation would pay anything. */
  predicate Refundable(st: Store, aid: string) {
    aid in st.acts && !st.acts[aid].refunded && st.acts[aid].charged > 0.0
  }

  /**
   Returns the charge of an activation to its owner once: marks the
   activation refunded with the amount, credits the owner's balance (when the
   owner's row still exists) and reports it. A missing activation, one
   already refunded and one charged nothing are left alone.
   */
  function RefundIfNeeded(st: Store, aid: string, now: int): (r: Refunded)
    ensures r.receipt.Some? <==> Refundable(st, aid)
    ensures !Refundable(st, aid) ==> r.store == st
    ensures r.store.users.Keys == st.users.Keys && r.store.acts.Keys == st.acts.Keys
    ensures r.store.deps == st.deps && r.store.nextDeposit == st.nextDeposit
    ensures forall u :: u in st.users ==> r.store.users[u] == st.users[u].(balance := r.store.users[u].balance)
  {
    if !Refundable(st, aid) then Refunded(st, None)
    else
      var a := st.acts[aid];
      var marked := st.(acts := st.acts[aid := a.(refunded := true, refundAmount := a.charged, updatedAt := now)]);
      Refunded(Credit(marked, a.userId, a.charged), Some(Receipt(a.userId, Money(a.charged))))
  }

  /**
   A refund that pays credits exactly the charge to the owner and to nobody
   else, marks the activation refunded with that amount, and reports an amount
   that reads back as the charge rounded to thousandths.
   */
  lemma RefundSpec(st: Store, aid: string, now: int)
    requires Refundable(st, aid)
    ensures var r := RefundIfNeeded(st, aid, now);
            var a := st.acts[aid];
            r.store.acts[aid].refunded && r.store.acts[aid].refundAmount == a.charged &&
            r.receipt == Some(Receipt(a.userId, Money(a.charged))) &&
            ParseDecimal(r.receipt.value.amount) == Some(Quantize3(a.charged)) &&
            (a.userId in st.users ==> r.store.users[a.userId].balance == st.users[a.userId].balance + a.charged) &&
            (forall u :: u in st.users && u != a.userId ==> r.store.users[u] == st.users[u]) &&
            (forall x :: x in st.acts && x != aid ==> r.store.acts[x] == st.acts[x]) &&
            r.store.deps == st.deps
  {
    MoneyRoundTrip(st.acts[aid].charged);
  }

  /** A second refund of the same activation pays nothing and changes nothing. */
  lemma RefundIdempotent(st: Store, aid: string, now: int, later: int)
    ensures var once := RefundIfNeeded(st, aid, now).store;
            RefundIfNeeded(once, aid, later).receipt.None? && RefundIfNeeded(once, aid, later).store == once
  {
  }

  // ---------------------------------------------------------------------------
  // Deposits (`create_deposit`, `set_deposit_proof`, `update_deposit_status`)

  datatype Created = Created(store: Store, id: nat)

  /**
   Opens a deposit request awaiting its proof, under a fresh id from the
   sequence. The amount is whatever `dec` read, unquantized; the NUMERIC(18,6)
   column keeps it to six places.
   */
  function CreateDeposit(st: Store, uid: int, amount: real, now: int): (r: Created)
    requires Valid(st)
    ensures Valid(r.store)
    ensures r.id == st.nextDeposit && r.store.nextDeposit == r.id + 1
    ensures r.id !in st.deps && r.id in r.store.deps && r.store.deps == st.deps[r.id := r.store.deps[r.id]]
    ensures r.store.deps[r.id].status == AwaitingProof && r.store.deps[r.id].userId == uid
    ensures -0.0000005 <= r.store.deps[r.id].amount - amount <= 0.0000005
    ensures Numeric6(r.store.deps[r.id].amount) == r.store.deps[r.id].amount
    ensures r.store.users == st.users && r.store.acts == st.acts
  {
    var id := st.nextDeposit;
    Numeric6Spec(amount);
    Created(st.(deps := st.deps[id := Deposit(uid, Numeric6(amount), AwaitingProof, None, None, None, None, now)], nextDeposit := id + 1), id)
  }

  /** A deposit of 10.1234567 is stored, and later credited on approval, as 10.123457. */
  lemma DepositStoredToMicros(st: Store, uid: int, now: int)
    requires Valid(st)
    ensures var c := CreateDeposit(st, uid, 10.1234567, now);
            c.store.deps[c.id].amount == 10.123457
  {
    Numeric6Example();
  }

  /** Attaches the proof and moves the deposit to review, whatever its status was. */
  function SetDepositProof(st: Store, id: nat, txid: string, screenshot: string, now: int): (r: Store)
    ensures r.users == st.users && r.acts == st.acts && r.nextDeposit == st.nextDeposit && r.deps.Keys == st.deps.Keys
    ensures id in st.deps ==> r.deps[id].status == PendingReview && r.deps[id].amount == st.deps[id].amount &&
                              r.deps[id].userId == st.deps[id].userId && r.deps[id].txid == Some(txid)
    ensures forall d :: d in st.deps && d != id ==> r.deps[d] == st.deps[d]
  {
    if id in st.deps then
      st.(deps := st.deps[id := st.deps[id].(txid := Some(txid), screenshot := Some(screenshot), status := PendingReview, updatedAt := now)])
    else st
  }

  datatype Reviewed = Reviewed(store: Store, ok: bool)

  /**
   Closes an open deposit with the reviewer's status; approval credits the
   deposit's amount to its owner. A missing or already reviewed deposit is
   refused and nothing changes.
   */
  function UpdateDepositStatus(st: Store, id: nat, status: string, reviewer: int, note: Option<string>, now: int): (r: Reviewed)
    ensures r.ok <==> id in st.deps && IsOpen(st.deps[id])
    ensures !r.ok ==> r.store == st
  {
    if id !in st.deps || !IsOpen(st.deps[id]) then Reviewed(st, false)
    else
      var d := st.deps[id];
      var closed := st.(deps := st.deps[id := d.(status := status, reviewedBy := Some(reviewer), note := note, updatedAt := now)]);
      Reviewed(if status == Approved then Credit(closed, d.userId, d.amount) else closed, true)
  }

  /**
   An accepted review records the new status; approval credits exactly the
   deposit's amount to its owner, any other status credits nothing.
   */
  lemma UpdateDepositStatusSpec(st: Store, id: nat, status: string, reviewer: int, note: Option<string>, now: int)
    requires id in st.deps && IsOpen(st.deps[id])
    ensures var r := UpdateDepositStatus(st, id, status, reviewer, note, now);
            var d := st.deps[id];
            r.ok && r.store.deps[id].status == status && r.store.deps[id].amount == d.amount &&
            r.store.users.Keys == st.users.Keys &&
            (status == Approved && d.userId in st.users ==> r.store.users[d.userId].balance == st.users[d.userId].balance + d.amount) &&
            (status != Approved ==> r.store.users == st.users) &&
            (forall u :: u in st.users && u != d.userId ==> r.store.users[u] == st.users[u]) &&
            r.store.acts == st.acts
  {
  }

  // ---------------------------------------------------------------------------
  // Traces of store operations

  /** One call of a store operation, as the handlers issue them. */
  datatype Action =
    | AdjustOp(uid: int, delta: real, nonNegative: bool)
    | SetActivationOp(uid: int, chat: int, slot: Slot)
    | ClearActivationOp(uid: int)
    | AddActivationOp(uid: int, chat: int, aid: string, service: string, country: string,
                      providerId: Option<string>, phone: string, basePrice: real, charged: real)
    | SetStatusOp(aid: string, status: Status, otp: Option<string>)
    | RefundOp(aid: string)
    | CreateDepositOp(uid: int, amount: real)
    | SetProofOp(id: nat, txid: string, screenshot: string)
      /** The deposit review callback: approve, or reject. */
    | ReviewOp(id: nat, approve: bool, reviewer: int)

  datatype Op = Op(at: int, action: Action)

  /** The state after one operation, and what it paid out: a refund receipt, or an approved deposit. */
  datatype Outcome = Outcome(store: Store, refund: Option<Receipt>, approved: bool)

  function Apply(st: Store, op: Op): (r: Outcome)
    requires Valid(st)
    ensures Valid(r.store)
  {
    var now := op.at;
    match op.action
    case AdjustOp(uid, delta, g) => Outcome(AdjustBalance(st, uid, delta, g).store, None, false)
    case SetActivationOp(uid, chat, slot) => Outcome(SetActivation(st, uid, chat, slot), None, false)
    case ClearActivationOp(uid) => Outcome(ClearActivation(st, uid), None, false)
    case AddActivationOp(uid, chat, aid, svc, cc, pid, phone, base, charged) =>
      Outcome(AddActivation(st, uid, chat, aid, svc, cc, pid, phone, base, charged, now), None, false)
    case SetStatusOp(aid, status, otp) => Outcome(SetActivationStatus(st, aid, status, otp, now), None, false)
    case RefundOp(aid) =>
      var r := RefundIfNeeded(st, aid, now);
      Outcome(r.store, r.receipt, false)
    case CreateDepositOp(uid, amount) => Outcome(CreateDeposit(st, uid, amount, now).store, None, false)
    case SetProofOp(id, txid, shot) => Outcome(SetDepositProof(st, id, txid, shot, now), None, false)
    case ReviewOp(id, approve, reviewer) =>
      var r := UpdateDepositStatus(st, id, if approve then Approved else Rejected, reviewer, None, now);
      Outcome(r.store, None, r.ok && approve)
  }

  function Run(st: Store, ops: seq<Op>): Store
    requires Valid(st)
    decreases |ops|
  {
    if |ops| == 0 then st else Run(Apply(st, ops[0]).store, ops[1..])
  }

  /** Running two traces one after the other is running their concatenation. */
  lemma {:induction false} RunAppend(st: Store, a: seq<Op>, b: seq<Op>, aid: string)
    requires Valid(st)
    ensures Valid(Run(st, a))
    ensures Run(st, a + b) == Run(Run(st, a), b)
    ensures RefundsPaid(st, a + b, aid) == RefundsPaid(st, a, aid) + RefundsPaid(Run(st, a), b, aid)
    decreases |a|
  {
    if |a| > 0 {
      assert (a + b)[0] == a[0] && (a + b)[1..] == a[1..] + b;
      RunAppend(Apply(st, a[0]).store, a[1..], b, aid);
    } else {
      assert a + b == b;
    }
  }

  /** How many of the operations paid a refund for `aid`. */
  function RefundsPaid(st: Store, ops: seq<Op>, aid: string): nat
    requires Valid(st)
    decreases |ops|
  {
    if |ops| == 0 then 0
    else
      var out := Apply(st, ops[0]);
      (if ops[0].action == RefundOp(aid) && out.refund.Some? then 1 else 0) + RefundsPaid(out.store, ops[1..], aid)
  }

  predicate ReRecords(op: Op, aid: string) {
    op.action.AddActivationOp? && op.action.aid == aid
  }

  /** Once refunded, an activation stays refunded until it is recorded again. */
  lemma StepKeepsRefunded(st: Store, op: Op, aid: string)
    requires Valid(st) && aid in st.acts && st.acts[aid].refunded && !ReRecords(op, aid)
    ensures var r := Apply(st, op).store; aid in r.acts && r.acts[aid].refunded
  {
    hide Money;
    match op.action
    case SetStatusOp(a, status, otp) => SetActivationStatusKeepsRefund(st, a, status, otp, op.at, aid);
    case RefundOp(a) =>
    case _ =>
  }

  /** An activation that does not exist only comes into being by being recorded. */
  lemma StepKeepsAbsent(st: Store, op: Op, aid: string)
    requires Valid(st) && aid !in st.acts && !ReRecords(op, aid)
    ensures aid !in Apply(st, op).store.acts
  {
    hide Money;
  }

  lemma {:induction false} NoRefundOnceRefunded(st: Store, ops: seq<Op>, aid: string)
    requires Valid(st) && (aid !in st.acts || st.acts[aid].refunded)
    requires forall i :: 0 <= i < |ops| ==> !ReRecords(ops[i], aid)
    ensures RefundsPaid(st, ops, aid) == 0
    decreases |ops|
  {
    if |ops| > 0 {
      var out := Apply(st, ops[0]);
      if aid in st.acts {
        StepKeepsRefunded(st, ops[0], aid);
      } else {
        StepKeepsAbsent(st, ops[0], aid);
      }
      NoRefundOnceRefunded(out.store, ops[1..], aid);
    }
  }

  /**
   The refund of an activation is paid at most once over any sequence of store
   operations that does not record the same activation id again, and not at
   all when it had already been refunded (or did not exist) at the start.
   Recording the id again re-arms the refund; see RefundReArmed.
   */
  lemma {:induction false} RefundAtMostOnce(st: Store, ops: seq<Op>, aid: string)
    requires Valid(st)
    requires forall i :: 0 <= i < |ops| ==> !ReRecords(ops[i], aid)
    ensures RefundsPaid(st, ops, aid) <= 1
    ensures aid !in st.acts || st.acts[aid].refunded ==> RefundsPaid(st, ops, aid) == 0
    decreases |ops|
  {
    if |ops| > 0 {
      var out := Apply(st, ops[0]);
      if aid !in st.acts || st.acts[aid].refunded {
        NoRefundOnceRefunded(st, ops, aid);
      } else if ops[0].action == RefundOp(aid) && out.refund.Some? {
        NoRefundOnceRefunded(out.store, ops[1..], aid);
      } else {
        RefundAtMostOnce(out.store, ops[1..], aid);
      }
    }
  }

  /** Unfolds the refund count by one operation. */
  lemma RefundsStep(st: Store, ops: seq<Op>, aid: string)
    requires Valid(st) && |ops| > 0
    ensures var out := Apply(st, ops[0]);
            RefundsPaid(st, ops, aid) ==
            (if ops[0].action == RefundOp(aid) && out.refund.Some? then 1 else 0) + RefundsPaid(out.store, ops[1..], aid)
  {
  }

  /**
   Recording an already refunded activation id again resets its refund flag,
   so a later refund pays a second time: the at-most-once guarantee rests on
   provider activation ids never being reused.
   */
  lemma RefundReArmed(st: Store, aid: string, uid: int, charged: real)
    requires Valid(st) && aid in st.acts && st.acts[aid].refunded && charged > 0.0
    ensures RefundsPaid(st, [Op(0, AddActivationOp(uid, 0, aid, "", "", None, "", charged, charged)), Op(1, RefundOp(aid))], aid) == 1
  {
    var ops := [Op(0, AddActivationOp(uid, 0, aid, "", "", None, "", charged, charged)), Op(1, RefundOp(aid))];
    var s1 := AddActivation(st, uid, 0, aid, "", "", None, "", charged, charged, 0);
    AddActivationSpec(st, uid, 0, aid, "", "", None, "", charged, charged, 0);
    assert Apply(st, ops[0]).store == s1;
    assert Refundable(s1, aid);
    RefundsStep(s1, ops[1..], aid);
    assert ops[1..][1..] == [];
    RefundsStep(st, ops, aid);
  }

  /** How many of the operations approved deposit `id`. */
  function ApprovalsOf(st: Store, ops: seq<Op>, id: nat): nat
    requires Valid(st)
    decreases |ops|
  {
    if |ops| == 0 then 0
    else
      var out := Apply(st, ops[0]);
      (if ops[0].action.ReviewOp? && ops[0].action.id == id && out.approved then 1 else 0)
      + ApprovalsOf(out.store, ops[1..], id)
  }

  /**
   The deposit flow's discipline: a proof is attached only to a deposit that
   is still awaiting one, which is the deposit the bot looks up for the user.
   */
  predicate Disciplined(st: Store, ops: seq<Op>)
    requires Valid(st)
    decreases |ops|
  {
    |ops| == 0 ||
    ((ops[0].action.SetProofOp? ==> ops[0].action.id in st.deps && st.deps[ops[0].action.id].status == AwaitingProof) &&
     Disciplined(Apply(st, ops[0]).store, ops[1..]))
  }

  /** A reviewed deposit stays reviewed under disciplined operations. */
  lemma StepKeepsClosed(st: Store, op: Op, id: nat)
    requires Valid(st) && id in st.deps && !IsOpen(st.deps[id])
    requires op.action.SetProofOp? ==> op.action.id in st.deps && st.deps[op.action.id].status == AwaitingProof
    ensures var r := Apply(st, op).store; id in r.deps && !IsOpen(r.deps[id])
  {
    hide Money;
  }

  lemma {:induction false} NoApprovalOnceClosed(st: Store, ops: seq<Op>, id: nat)
    requires Valid(st) && Disciplined(st, ops) && (id !in st.deps || !IsOpen(st.deps[id]))
    requires id !in st.deps ==> id < st.nextDeposit
    ensures ApprovalsOf(st, ops, id) == 0
    decreases |ops|
  {
    hide Money;
    if |ops| > 0 {
      var out := Apply(st, ops[0]);
      if id in st.deps {
        StepKeepsClosed(st, ops[0], id);
      }
      NoApprovalOnceClosed(out.store, ops[1..], id);
    }
  }

  /**
   Under the deposit flow's discipline every deposit is approved, and so
   credited, at most once; a deposit already reviewed at the start is never
   approved again.
   */
  lemma {:induction false} DepositCreditedAtMostOnce(st: Store, ops: seq<Op>, id: nat)
    requires Valid(st) && Disciplined(st, ops)
    ensures ApprovalsOf(st, ops, id) <= 1
    ensures id in st.deps && !IsOpen(st.deps[id]) ==> ApprovalsOf(st, ops, id) == 0
    decreases |ops|
  {
    if |ops| > 0 {
      var out := Apply(st, ops[0]);
      if id in st.deps && !IsOpen(st.deps[id]) {
        NoApprovalOnceClosed(st, ops, id);
      } else if ops[0].action.ReviewOp? && ops[0].action.id == id && out.approved {
        assert out.store.deps[id].status == Approved;
        NoApprovalOnceClosed(out.store, ops[1..], id);
      } else {
        DepositCreditedAtMostOnce(out.store, ops[1..], id);
      }
    }
  }

  /** Unfolds the approval count by one operation. */
  lemma ApprovalsStep(st: Store, ops: seq<Op>, id: nat)
    requires Valid(st) && |ops| > 0
    ensures var out := Apply(st, ops[0]);
            ApprovalsOf(st, ops, id) ==
            (if ops[0].action.ReviewOp? && ops[0].action.id == id && out.approved then 1 else 0) + ApprovalsOf(out.store, ops[1..], id)
  {
  }

  /**
   Without the discipline the store alone does not prevent a second credit:
   attaching a proof to an approved deposit reopens it, and the next approval
   credits it again.
   */
  lemma ProofReopensDeposit(st: Store, id: nat)
    requires Valid(st) && id in st.deps && st.deps[id].status == Approved
    ensures ApprovalsOf(st, [Op(0, SetProofOp(id, "tx", "shot")), Op(1, ReviewOp(id, true, 0))], id) == 1
  {
    var ops := [Op(0, SetProofOp(id, "tx", "shot")), Op(1, ReviewOp(id, true, 0))];
    var s1 := SetDepositProof(st, id, "tx", "shot", 0);
    assert Apply(st, ops[0]).store == s1;
    assert IsOpen(s1.deps[id]);
    assert Apply(s1, ops[1]).approved;
    ApprovalsStep(s1, ops[1..], id);
    assert ops[1..][1..] == [];
    ApprovalsStep(st, ops, id);
  }
}
