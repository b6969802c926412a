/**
 Buying a number: the buy button on a listed offer and the "another one"
 button on a delivered number. Both debit a paying user before asking the
 provider, and credit the charge back when the provider call fails or its
 reply carries no usable number; on success the activation is recorded, the
 user's legacy columns point at it, and a monitor is started.
 */
module Purchase {
  import opened Common
  import opened Decimal
  import opened Pricing
  import opened Store
  import opened Lifecycle
  import Provider

  /** Whether the role pays for numbers from its wallet. */
  predicate Funded(role: Role) {
    role == User || role == Super
  }

  /** What is being bought and at what cost: the charge to the wallet, and the provider's price. */
  datatype Order = Order(service: string, country: string, providerId: Option<string>, charge: real, baseCost: real)

  /** The `getNumber` request; `fixPrice` is the provider price as `money` renders it, sent when positive. */
  datatype Request = Request(service: string, country: string, providerIds: Option<string>, fixPrice: Option<string>)

  /**
   How the handler's outside calls went: the "please wait" message raising,
   an exception from the provider call, the decoded reply with the
   confirmation message delivered, or the decoded reply with the
   confirmation message raising.
   */
  datatype Outcome =
    | NoticeRaised
    | CallFailed
    | Parsed(reply: Provider.NumberReply)
    | ConfirmRaised(reply: Provider.NumberReply)

  /**
   Where the "please wait" message is sent: `cb_buy` edits its message after
   the debit, `cb_another` replies before looking up the price.
   */
  datatype NoticeAt = BeforeDebit | AfterDebit

  /**
   How a press ended. `Unwatched` is a recorded and charged activation whose
   confirmation message raised before its monitor was started.
   */
  datatype Verdict =
    | Outdated | Insufficient | NoticeFailed | ProviderFailed | Rejected(reason: string)
    | Bought(aid: string, phone: string) | Unwatched(aid: string, phone: string)

  datatype Purchased = Purchased(verdict: Verdict, store: Store, registry: Registry, request: Option<Request>)

  function RequestOf(o: Order): Request {
    Request(o.service, o.country, o.providerId, if o.baseCost > 0.0 then Some(Money(o.baseCost)) else None)
  }

  /** A non-empty text; Python's truthiness of an optional string. */
  predicate Present(x: Option<string>) {
    x.Some? && x.value != ""
  }

  /** The usable number in a reply: no error, and both an id and a phone. */
  predicate Usable(reply: Provider.NumberReply) {
    !Present(reply.err) && Present(reply.aid) && Present(reply.phone)
  }

  /** The outcomes in which the provider is asked and gives no usable number. */
  predicate Unanswered(result: Outcome) {
    result.CallFailed? || ((result.Parsed? || result.ConfirmRaised?) && !Usable(result.reply))
  }

  /**
   The debit-then-compensate flow shared by both buttons. A paying user whose
   guarded debit is refused gets no provider call; a failed call or an
   unusable reply credits the charge back. The "please wait" message sits
   outside the compensating `try`: raising before the debit it ends the
   handler with nothing changed, raising after it the debit stays. The
   confirmation message is sent after the activation is recorded and before
   its monitor starts, so when it raises the activation stays recorded and
   charged with no monitor.
   */
  function Buy(st: Store, g: Registry, uid: int, chat: int, role: Role, at: NoticeAt, o: Order, result: Outcome, now: int): (r: Purchased)
    requires Valid(st) && RegValid(g)
    ensures Valid(r.store) && RegValid(r.registry)
    ensures r.verdict != Insufficient && r.verdict != NoticeFailed <==> r.request == Some(RequestOf(o))
    ensures r.verdict.Bought? <==> r.request.Some? && result.Parsed? && Usable(result.reply)
    ensures r.verdict.Unwatched? <==> r.request.Some? && result.ConfirmRaised? && Usable(result.reply)
    ensures !r.verdict.Bought? && !r.verdict.Unwatched? ==> r.store.acts == st.acts
    ensures !r.verdict.Bought? ==> r.registry == g
  {
    if at == BeforeDebit && result.NoticeRaised? then Purchased(NoticeFailed, st, g, None)
    else
      var funded := Funded(role);
      var debit := AdjustBalance(st, uid, -o.charge, true);
      if funded && debit.balance.None? then Purchased(Insufficient, st, g, None)
      else
        var s1 := if funded then debit.store else st;
        var restored := if funded then AdjustBalance(s1, uid, o.charge, false).store else s1;
        if result.NoticeRaised? then Purchased(NoticeFailed, s1, g, None)
        else if result.CallFailed? then Purchased(ProviderFailed, restored, g, Some(RequestOf(o)))
        else if !Usable(result.reply) then
          var err := result.reply.err;
          Purchased(Rejected(if Present(err) then err.value else "UNKNOWN"), restored, g, Some(RequestOf(o)))
        else
          var aid := result.reply.aid.value;
          var phone := result.reply.phone.value;
          var s2 := AddActivation(s1, uid, chat, aid, o.service, o.country, o.providerId, phone,
                                  o.baseCost, if funded then o.charge else 0.0, now);
          var s3 := SetActivation(s2, uid, chat, Slot(aid, now, o.service, o.country, o.providerId, phone));
          if result.ConfirmRaised? then Purchased(Unwatched(aid, phone), s3, g, Some(RequestOf(o)))
          else Purchased(Bought(aid, phone), s3, StartPoll(g, aid), Some(RequestOf(o)))
  }

  /**
   A paying user who cannot afford the charge is refused before any provider
   call, and nothing changes; only a notice that raised before the debit
   ends the press earlier.
   */
  lemma BuyDeniedMakesNoRequest(st: Store, g: Registry, uid: int, chat: int, role: Role, at: NoticeAt, o: Order, result: Outcome, now: int)
    requires Valid(st) && RegValid(g) && Funded(role)
    requires uid !in st.users || st.users[uid].balance < o.charge
    ensures Buy(st, g, uid, chat, role, at, o, result, now) ==
            Purchased(if at == BeforeDebit && result.NoticeRaised? then NoticeFailed else Insufficient, st, g, None)
  {
  }

  /**
   When the "please wait" message raises before the debit, as in
   `cb_another`, the press changes nothing and asks the provider nothing.
   */
  lemma EarlyNoticeFailureChangesNothing(st: Store, g: Registry, uid: int, chat: int, role: Role, o: Order, now: int)
    requires Valid(st) && RegValid(g)
    ensures Buy(st, g, uid, chat, role, BeforeDebit, o, NoticeRaised, now) == Purchased(NoticeFailed, st, g, None)
  {
  }

  /**
   When the provider call fails or its reply has no usable number, the
   debit is credited back: the store ends exactly as it started, no
   activation is recorded and no monitor started.
   */
  lemma BuyFailureRestores(st: Store, g: Registry, uid: int, chat: int, role: Role, at: NoticeAt, o: Order, result: Outcome, now: int)
    requires Valid(st) && RegValid(g) && Unanswered(result)
    ensures var r := Buy(st, g, uid, chat, role, at, o, result, now);
            r.store == st && r.registry == g && !r.verdict.Bought? && !r.verdict.Unwatched?
  {
    if Funded(role) && uid in st.users && (st.users[uid].balance - o.charge >= 0.0) {
      var s1 := AdjustBalance(st, uid, -o.charge, true).store;
      var back := AdjustBalance(s1, uid, o.charge, false).store;
      assert back.users[uid] == st.users[uid];
      assert back.users == st.users;
    }
  }

  /**
   When the "please wait" edit raises after the debit, as in `cb_buy`, a
   paying user keeps the debit: the balance is lower by the charge, no
   provider request is made, and no activation or monitor exists for it.
   */
  lemma BuyNoticeFailureKeepsDebit(st: Store, g: Registry, uid: int, chat: int, role: Role, o: Order, now: int)
    requires Valid(st) && RegValid(g) && Funded(role)
    requires uid in st.users && st.users[uid].balance >= o.charge
    ensures var r := Buy(st, g, uid, chat, role, AfterDebit, o, NoticeRaised, now);
            r.verdict == NoticeFailed && r.request.None? && r.registry == g && r.store.acts == st.acts &&
            r.store.users[uid].balance == st.users[uid].balance - o.charge
  {
  }

  /** What a usable reply leaves in the store, whether or not the confirmation message goes out. */
  predicate Recorded(st: Store, r: Store, uid: int, role: Role, o: Order, reply: Provider.NumberReply, now: int)
    requires Usable(reply) && uid in st.users
  {
    var aid := reply.aid.value;
    var charged := if Funded(role) then o.charge else 0.0;
    aid in r.acts && r.acts[aid].status == Active && !r.acts[aid].refunded &&
    r.acts[aid].charged == charged && r.acts[aid].userId == uid &&
    uid in r.users && r.users[uid].balance == st.users[uid].balance - charged &&
    r.users[uid].slot == Some(Slot(aid, now, o.service, o.country, o.providerId, reply.phone.value))
  }

  /**
   A successful purchase records the activation as active, charged the
   order's charge for paying roles and nothing otherwise, takes exactly that
   from the wallet, points the user's legacy columns at it, and leaves one
   live monitor for it.
   */
  lemma BuySuccess(st: Store, g: Registry, uid: int, chat: int, role: Role, at: NoticeAt, o: Order, reply: Provider.NumberReply, now: int)
    requires Valid(st) && RegValid(g) && Usable(reply) && uid in st.users
    requires Funded(role) ==> st.users[uid].balance >= o.charge
    ensures var r := Buy(st, g, uid, chat, role, at, o, Parsed(reply), now);
            r.verdict == Bought(reply.aid.value, reply.phone.value) &&
            Recorded(st, r.store, uid, role, o, reply, now) &&
            LiveFor(r.registry, reply.aid.value) == {g.next}
  {
    var aid := reply.aid.value;
    var funded := Funded(role);
    var s1 := if funded then AdjustBalance(st, uid, -o.charge, true).store else st;
    AddActivationSpec(s1, uid, chat, aid, o.service, o.country, o.providerId, reply.phone.value,
                      o.baseCost, if funded then o.charge else 0.0, now);
    StartPollSpec(g, aid, aid + "'");
  }

  /**
   When the confirmation message raises, the activation is recorded and
   charged exactly as on success, but no monitor is started for it: the
   registry is as before.
   */
  lemma BuyConfirmFailureUnwatched(st: Store, g: Registry, uid: int, chat: int, role: Role, at: NoticeAt, o: Order, reply: Provider.NumberReply, now: int)
    requires Valid(st) && RegValid(g) && Usable(reply) && uid in st.users
    requires Funded(role) ==> st.users[uid].balance >= o.charge
    ensures var r := Buy(st, g, uid, chat, role, at, o, ConfirmRaised(reply), now);
            var ok := Buy(st, g, uid, chat, role, at, o, Parsed(reply), now);
            r.verdict == Unwatched(reply.aid.value, reply.phone.value) &&
            Recorded(st, r.store, uid, role, o, reply, now) &&
            r.store == ok.store && r.registry == g
  {
    BuySuccess(st, g, uid, chat, role, at, o, reply, now);
  }

  /**
   A paid purchase later refunded returns the wallet to its balance before
   the purchase: the refund pays back exactly what the debit took.
   */
  lemma BuyThenRefund(st: Store, g: Registry, uid: int, chat: int, role: Role, at: NoticeAt, o: Order, reply: Provider.NumberReply, now: int, later: int)
    requires Valid(st) && RegValid(g) && Usable(reply) && uid in st.users
    requires Funded(role) && st.users[uid].balance >= o.charge && o.charge > 0.0
    ensures var r := Buy(st, g, uid, chat, role, at, o, Parsed(reply), now);
            var back := RefundIfNeeded(r.store, reply.aid.value, later);
            back.receipt.Some? && back.store.users[uid].balance == st.users[uid].balance
  {
    BuySuccess(st, g, uid, chat, role, at, o, reply, now);
    var r := Buy(st, g, uid, chat, role, at, o, Parsed(reply), now);
    RefundSpec(r.store, reply.aid.value, later);
  }

  /** A role that does not pay never sees its balance change, whatever the provider does. */
  lemma UnfundedBalanceUntouched(st: Store, g: Registry, uid: int, chat: int, role: Role, at: NoticeAt, o: Order, result: Outcome, now: int)
    requires Valid(st) && RegValid(g) && !Funded(role) && uid in st.users
    ensures var r := Buy(st, g, uid, chat, role, at, o, result, now);
            uid in r.store.users && r.store.users[uid].balance == st.users[uid].balance
  {
  }

  /** The price sent to the provider reads back as the provider price rounded to thousandths. */
  lemma FixPriceReadsBack(o: Order)
    requires o.baseCost > 0.0
    ensures RequestOf(o).fixPrice.Some? && ParseDecimal(RequestOf(o).fixPrice.value) == Some(Quantize3(o.baseCost))
  {
    MoneyRoundTrip(o.baseCost);
  }

  // ---------------------------------------------------------------------------
  // The buy button (`cb_buy`)

  /** The order for a listed offer: the wallet is charged the shown price, the provider gets the base price. */
  function OrderOf(opt: PriceOption): (o: Order)
    ensures o.charge == Dec(opt.price, 0.0) && o.baseCost == BaseOf(opt)
    ensures o.service == opt.serviceCode && o.country == opt.countryCode && o.providerId == opt.providerId
  {
    Order(opt.serviceCode, opt.countryCode, opt.providerId, Dec(opt.price, 0.0), BaseOf(opt))
  }

  /**
   The offer a `buy:<service>:<index>` button refers to, among the offers last
   listed for that service; None for malformed data or an index out of range.
   */
  function OfferOf(data: string, listed: map<string, seq<PriceOption>>): (r: Option<PriceOption>) {
    var parts := Split(data, ':');
    if |parts| != 3 then None
    else match ParseInt(parts[2])
      case None => None
      case Some(idx) =>
        var opts := if parts[1] in listed then listed[parts[1]] else [];
        if idx < 0 || idx >= |opts| then None else Some(opts[idx])
  }

  /** The button names a listed offer exactly when its index is in range. */
  lemma OfferOfSpec(data: string, listed: map<string, seq<PriceOption>>)
    ensures var parts := Split(data, ':');
            OfferOf(data, listed).Some? <==>
              |parts| == 3 && ParseInt(parts[2]).Some? && parts[1] in listed &&
              0 <= ParseInt(parts[2]).value < |listed[parts[1]]|
    ensures OfferOf(data, listed).Some? ==>
              OfferOf(data, listed).value == listed[Split(data, ':')[1]][ParseInt(Split(data, ':')[2]).value]
  {
  }

  function BuyButton(st: Store, g: Registry, uid: int, chat: int, role: Role, data: string,
                     listed: map<string, seq<PriceOption>>, result: Outcome, now: int): (r: Purchased)
    requires Valid(st) && RegValid(g)
    ensures OfferOf(data, listed).None? ==> r == Purchased(Outdated, st, g, None)
    ensures OfferOf(data, listed).Some? ==> r == Buy(st, g, uid, chat, role, AfterDebit, OrderOf(OfferOf(data, listed).value), result, now)
  {
    match OfferOf(data, listed)
    case None => Purchased(Outdated, st, g, None)
    case Some(opt) => Buy(st, g, uid, chat, role, AfterDebit, OrderOf(opt), result, now)
  }

  // ---------------------------------------------------------------------------
  // The "another one" button (`cb_another`)

  /** Python's `s.split(sep, n)`: at most n splits, the rest kept whole. */
  function SplitMax(s: string, sep: char, n: nat): (parts: seq<string>)
    ensures 1 <= |parts| <= n + 1
    ensures forall k :: 0 <= k < |parts| - 1 ==> sep !in parts[k]
    decreases n
  {
    var k := IndexOf(s, sep);
    if n == 0 || k == |s| then [s] else [s[..k]] + SplitMax(s[k + 1..], sep, n - 1)
  }

  /** The token an offer is cached under: its provider id, or "none" without one. */
  function ProviderToken(opt: PriceOption): string {
    if opt.providerId.Some? && opt.providerId.value != "" then opt.providerId.value else "none"
  }

  predicate KeyedAs(opt: PriceOption, service: string, country: string, token: string) {
    opt.serviceCode == service && opt.countryCode == country && ProviderToken(opt) == token
  }

  /**
   Where a dict built over the list keeps the offer for the key: the index of
   the last offer with that key, -1 when none has it.
   */
  function LastKeyedAt(opts: seq<PriceOption>, service: string, country: string, token: string): (i: int)
    ensures -1 <= i < |opts|
    ensures i >= 0 ==> KeyedAs(opts[i], service, country, token)
    ensures forall j :: i < j < |opts| ==> !KeyedAs(opts[j], service, country, token)
    decreases |opts|
  {
    if |opts| == 0 then -1
    else if KeyedAs(opts[|opts| - 1], service, country, token) then |opts| - 1
    else
      var k := LastKeyedAt(opts[..|opts| - 1], service, country, token);
      assert forall j :: k < j < |opts| - 1 ==> opts[j] == opts[..|opts| - 1][j];
      k
  }

  function LastKeyed(opts: seq<PriceOption>, service: string, country: string, token: string): (r: Option<PriceOption>)
    ensures r.None? <==> forall j :: 0 <= j < |opts| ==> !KeyedAs(opts[j], service, country, token)
    ensures r.Some? ==> r.value in opts && KeyedAs(r.value, service, country, token)
  {
    var i := LastKeyedAt(opts, service, country, token);
    if i < 0 then None else Some(opts[i])
  }

  /** The order of an `an:<service>:<country>:<provider>` button; None for malformed data. */
  function AnotherOrder(data: string, listed: map<string, seq<PriceOption>>): (r: Option<Order>)
    ensures r.Some? ==> |SplitMax(data, ':', 3)| == 4 &&
                        r.value.service == SplitMax(data, ':', 3)[1] && r.value.country == SplitMax(data, ':', 3)[2]
  {
    var parts := SplitMax(data, ':', 3);
    if |parts| != 4 then None
    else
      var service := parts[1];
      var country := parts[2];
      var token := parts[3];
      var pid := if token == "" || token == "none" || token == "null" then None else Some(token);
      var opts := Cached(listed, service);
      var exact := LastKeyed(opts, service, country, token);
      var opt := if exact.Some? then exact else LastKeyed(opts, service, country, "none");
      match opt
      case None => Some(Order(service, country, pid, 0.0, 0.0))
      case Some(o) => Some(Order(service, country, pid, Dec(o.price, 0.0), BaseOf(o)))
  }

  /** The cached offers for the service a button names. */
  function Cached(listed: map<string, seq<PriceOption>>, service: string): seq<PriceOption> {
    if service in listed then listed[service] else []
  }

  /**
   The repeated order asks for the button's service and country, with the
   provider of its token ("", "none" and "null" meaning any provider), and
   charges the price of the last cached offer with the same service, country
   and provider token.
   */
  lemma AnotherOrderCached(data: string, listed: map<string, seq<PriceOption>>)
    requires |SplitMax(data, ':', 3)| == 4
    ensures var p := SplitMax(data, ':', 3);
            var r := AnotherOrder(data, listed);
            var i := LastKeyedAt(Cached(listed, p[1]), p[1], p[2], p[3]);
            r.Some? &&
            r.value.providerId == (if p[3] in ["", "none", "null"] then None else Some(p[3])) &&
            (i >= 0 ==> r.value.charge == Dec(Cached(listed, p[1])[i].price, 0.0) && r.value.baseCost == BaseOf(Cached(listed, p[1])[i]))
  {
  }

  /**
   With no cached offer for the key, nor one without a provider to fall
   back to, the repeated order charges nothing and asks for no fixed price.
   */
  lemma AnotherOrderUncached(data: string, listed: map<string, seq<PriceOption>>)
    requires |SplitMax(data, ':', 3)| == 4
    requires var p := SplitMax(data, ':', 3);
             forall j :: 0 <= j < |Cached(listed, p[1])| ==>
               !KeyedAs(Cached(listed, p[1])[j], p[1], p[2], p[3]) && !KeyedAs(Cached(listed, p[1])[j], p[1], p[2], "none")
    ensures var r := AnotherOrder(data, listed);
            r.Some? && r.value.charge == 0.0 && r.value.baseCost == 0.0 && RequestOf(r.value).fixPrice.None?
  {
  }

  function AnotherButton(st: Store, g: Registry, uid: int, chat: int, role: Role, data: string,
                         listed: map<string, seq<PriceOption>>, result: Outcome, now: int): (r: Purchased)
    requires Valid(st) && RegValid(g)
    ensures AnotherOrder(data, listed).None? ==> r == Purchased(Outdated, st, g, None)
    ensures AnotherOrder(data, listed).Some? ==> r == Buy(st, g, uid, chat, role, BeforeDebit, AnotherOrder(data, listed).value, result, now)
  {
    match AnotherOrder(data, listed)
    case None => Purchased(Outdated, st, g, None)
    case Some(o) => Buy(st, g, uid, chat, role, BeforeDebit, o, result, now)
  }

  /**
   A well-formed "another one" press whose "please wait" reply raises
   changes nothing: the reply comes before the debit, so no wallet, store
   or registry entry moves and the provider is not asked.
   */
  lemma AnotherNoticeFailureChangesNothing(st: Store, g: Registry, uid: int, chat: int, role: Role, data: string,
                                           listed: map<string, seq<PriceOption>>, now: int)
    requires Valid(st) && RegValid(g)
    ensures var r := AnotherButton(st, g, uid, chat, role, data, listed, NoticeRaised, now);
            r.store == st && r.registry == g && r.request.None?
  {
  }
}
