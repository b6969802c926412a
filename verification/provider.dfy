/**
 The provisioning client: decoders that turn a provider reply into a closed
 variant (status poll, purchase, balance), the error-token taxonomy, the
 ordered list of endpoint bases and the failover order of one call.
 */
module Provider {
  import opened Common
  import opened Payload

  // ---------------------------------------------------------------------------
  // Status poll (`parse_status`)

  /** The decoded answer to a status poll. */
  datatype StatusReply = SOk(code: string) | SWait | SCancel | SError(reason: string)

  const StatusOkPrefix := "STATUS_OK:"
  const StatusWaitRetryPrefix := "STATUS_WAIT_RETRY:"
  const StatusWaitCode := "STATUS_WAIT_CODE"
  const StatusCancel := "STATUS_CANCEL"

  function ParseStatus(p: Val): StatusReply {
    match p
    case Str(s) =>
      if StartsWith(s, StatusOkPrefix) then SOk(s[|StatusOkPrefix|..])
      else if StartsWith(s, StatusWaitRetryPrefix) then SWait
      else if s == StatusWaitCode then SWait
      else if s == StatusCancel then SCancel
      else SError(s)
    case Obj(f) =>
      var st := Upper(PyStr(GetOr(f, "status", Str(""))));
      if st == "OK" || st == "SUCCESS" then SOk(PyStr(Or(Or(Get(f, "code"), Get(f, "otp")), Str(""))))
      else SError(PyStr(Or(Or(Get(f, "error"), Get(f, "message")), Str("UNKNOWN"))))
    case _ => SError("UNKNOWN")
  }

  /**
   The text protocol of a status poll, both ways: `STATUS_OK:<code>` carries the
   code after the first colon, the two wait forms decode to WAIT, `STATUS_CANCEL`
   to CANCEL, and every other text is an error carrying the raw reply.
   */
  lemma ParseStatusText(s: string)
    ensures ParseStatus(Str(s)).SOk? <==> StartsWith(s, StatusOkPrefix)
    ensures StartsWith(s, StatusOkPrefix) ==> ParseStatus(Str(s)) == SOk(s[10..])
    ensures ParseStatus(Str(s)) == SWait <==> StartsWith(s, StatusWaitRetryPrefix) || s == StatusWaitCode
    ensures ParseStatus(Str(s)) == SCancel <==> s == StatusCancel
    ensures ParseStatus(Str(s)).SError? <==>
              !StartsWith(s, StatusOkPrefix) && !StartsWith(s, StatusWaitRetryPrefix) &&
              s != StatusWaitCode && s != StatusCancel
    ensures ParseStatus(Str(s)).SError? ==> ParseStatus(Str(s)).reason == s
  {
    StatusFormsDistinct(s);
    hide StartsWith;
  }

  /** The four text forms of a status reply exclude one another. */
  lemma StatusFormsDistinct(s: string)
    ensures !(StartsWith(s, StatusOkPrefix) && StartsWith(s, StatusWaitRetryPrefix))
    ensures StartsWith(s, StatusOkPrefix) || StartsWith(s, StatusWaitRetryPrefix) ==>
              s != StatusWaitCode && s != StatusCancel
    ensures StatusWaitCode != StatusCancel
  {
    // the forms are told apart by the character after `STATUS_`
    if StartsWith(s, StatusOkPrefix) {
      assert s[7] == 'O';
    } else if StartsWith(s, StatusWaitRetryPrefix) {
      assert s[7] == 'W' && s[12] == 'R';
    }
  }

  /** Encoding a code as `STATUS_OK:<code>` and decoding it gives the code back. */
  lemma StatusOkRoundTrip(code: string)
    ensures ParseStatus(Str(StatusOkPrefix + code)) == SOk(code)
  {
    var s := StatusOkPrefix + code;
    assert s[..|StatusOkPrefix|] == StatusOkPrefix;
    assert s[|StatusOkPrefix|..] == code;
  }

  // ---------------------------------------------------------------------------
  // Phone numbers (`normalize_phone`)

  predicate IsPhoneChar(c: char) {
    IsDigit(c) || c == '+'
  }

  /** `re.sub(r"[^\d+]", "", raw)`. */
  function CleanPhone(raw: string): (r: string)
    ensures forall i :: 0 <= i < |r| ==> IsPhoneChar(r[i])
    ensures DigitsOf(r) == DigitsOf(raw)
    decreases |raw|
  {
    if |raw| == 0 then ""
    else if IsPhoneChar(raw[0]) then
      assert DigitsOf([raw[0]] + CleanPhone(raw[1..])) == DigitsOf([raw[0]]) + DigitsOf(CleanPhone(raw[1..])) by {
        DigitsOfAppend([raw[0]], CleanPhone(raw[1..]));
      }
      assert DigitsOf(raw) == DigitsOf([raw[0]]) + DigitsOf(raw[1..]) by {
        assert raw == [raw[0]] + raw[1..];
        DigitsOfAppend([raw[0]], raw[1..]);
      }
      [raw[0]] + CleanPhone(raw[1..])
    else CleanPhone(raw[1..])
  }

  /** The stripped text the normalizer starts from: `str(phone or "").strip()`. */
  function PhoneText(phone: Val): string {
    Strip(PyStr(if Truthy(phone) then phone else Str("")))
  }

  /** Drops one leading international `00` prefix. */
  function DropIntlPrefix(c: string): string {
    if StartsWith(c, "00") then c[2..] else c
  }

  function NormalizePhoneText(raw: string): string {
    if raw == "" then raw
    else
      var cleaned := DropIntlPrefix(CleanPhone(raw));
      var digits := if StartsWith(cleaned, "+") then DigitsOf(cleaned[1..]) else DigitsOf(cleaned);
      if digits != "" then "+" + digits else raw
  }

  function NormalizePhone(phone: Val): string {
    NormalizePhoneText(PhoneText(phone))
  }

  /** The digits a phone keeps: those of the text after one leading `00` is dropped. */
  function PhoneDigits(raw: string): string {
    DigitsOf(DropIntlPrefix(CleanPhone(raw)))
  }

  /** An international number: a plus sign followed by at least one digit and nothing else. */
  predicate IsE164Like(s: string) {
    |s| >= 2 && s[0] == '+' && AllDigits(s[1..])
  }

  lemma PlusDigits(c: string)
    requires StartsWith(c, "+")
    ensures DigitsOf(c[1..]) == DigitsOf(c)
  {
    assert c[0] == "+"[0] by {
      assert c[..1] == "+";
    }
    assert !IsDigit(c[0]);
  }

  /** Dropping the `00` prefix drops exactly the first two digits. */
  lemma DropIntlPrefixDigits(c: string)
    ensures DigitsOf(DropIntlPrefix(c)) == DigitsOf(c) ||
            (StartsWith(DigitsOf(c), "00") && DigitsOf(DropIntlPrefix(c)) == DigitsOf(c)[2..])
  {
    if StartsWith(c, "00") {
      assert c == c[..2] + c[2..];
      DigitsOfAppend(c[..2], c[2..]);
      assert DigitsOf(c[..2]) == "00" by {
        assert c[..2][1..] == [c[1]];
      }
    }
  }

  lemma NormalizePhoneTextShape(raw: string)
    ensures NormalizePhoneText(raw) == if PhoneDigits(raw) == "" then raw else "+" + PhoneDigits(raw)
  {
    if raw != "" {
      var cleaned := DropIntlPrefix(CleanPhone(raw));
      if StartsWith(cleaned, "+") {
        PlusDigits(cleaned);
      }
    }
  }

  /**
   A normalized phone is either `+` followed only by digits, namely the digits
   of the input after one leading international `00` prefix is dropped, or,
   when no digit survives, the stripped input unchanged.
   */
  lemma NormalizePhoneShape(phone: Val)
    ensures PhoneDigits(PhoneText(phone)) == "" ==> NormalizePhone(phone) == PhoneText(phone)
    ensures PhoneDigits(PhoneText(phone)) != "" ==>
              IsE164Like(NormalizePhone(phone)) && NormalizePhone(phone)[1..] == PhoneDigits(PhoneText(phone))
    ensures var all := DigitsOf(PhoneText(phone));
            PhoneDigits(PhoneText(phone)) == all || (StartsWith(all, "00") && PhoneDigits(PhoneText(phone)) == all[2..])
  {
    var raw := PhoneText(phone);
    NormalizePhoneTextShape(raw);
    DropIntlPrefixDigits(CleanPhone(raw));
  }

  lemma {:induction false} PhoneCharsKept(s: string)
    requires forall i :: 0 <= i < |s| ==> IsPhoneChar(s[i])
    ensures CleanPhone(s) == s
    decreases |s|
  {
    if |s| > 0 {
      PhoneCharsKept(s[1..]);
    }
  }

  /** The digits of an already normalized international number are kept whole. */
  lemma E164Digits(r: string)
    requires IsE164Like(r)
    ensures PhoneDigits(r) == r[1..]
  {
    PhoneCharsKept(r);
    assert DropIntlPrefix(r) == r;
    assert DigitsOf(r) == DigitsOf(r[1..]);
  }

  /** The text a plain string phone starts from is the string stripped. */
  lemma PhoneTextOfStr(t: string)
    ensures PhoneText(Str(t)) == Strip(t)
  {
    if t == "" {
      assert PyStr(Str("")) == "";
    }
  }

  /** A phone given as whitespace only, information separators included, normalizes to the empty text. */
  lemma NormalizePhoneBlank(t: string)
    requires forall i :: 0 <= i < |t| ==> IsSpace(t[i])
    ensures NormalizePhone(Str(t)) == ""
  {
    PhoneTextOfStr(t);
  }

  /** A stripped text normalizes to a stripped text that normalizes to itself. */
  lemma NormalizePhoneTextIdempotent(raw: string)
    requires |raw| > 0 ==> !IsSpace(raw[0]) && !IsSpace(raw[|raw| - 1])
    ensures var r := NormalizePhoneText(raw); Strip(r) == r && NormalizePhoneText(r) == r
  {
    StripStable(raw);
    var r := NormalizePhoneText(raw);
    NormalizePhoneTextShape(raw);
    if PhoneDigits(raw) != "" {
      assert IsE164Like(r);
      StripStable(r);
      E164Digits(r);
      NormalizePhoneTextShape(r);
    }
  }

  /** Normalizing an already normalized phone changes nothing. */
  lemma NormalizePhoneIdempotent(phone: Val)
    ensures NormalizePhone(Str(NormalizePhone(phone))) == NormalizePhone(phone)
  {
    var raw := PhoneText(phone);
    StripStable(raw);
    NormalizePhoneTextIdempotent(raw);
    PhoneTextOfStr(NormalizePhoneText(raw));
  }

  // ---------------------------------------------------------------------------
  // Purchase replies (`parse_number`)

  /** `(activation_id, phone, error)` as the bot returns it. */
  datatype NumberReply = NumberReply(aid: Option<string>, phone: Option<string>, err: Option<string>)

  const AccessNumberPrefix := "ACCESS_NUMBER:"

  function ParseNumber(p: Val): NumberReply {
    match p
    case Str(s) =>
      if StartsWith(s, AccessNumberPrefix) then
        var rest := s[|AccessNumberPrefix|..];
        var k := IndexOf(rest, ':');
        if k < |rest| then NumberReply(Some(rest[..k]), Some(NormalizePhone(Str(rest[k + 1..]))), None)
        else NumberReply(None, None, Some(s))
      else NumberReply(None, None, Some(s))
    case Obj(f) =>
      var aid := Or(Or(Get(f, "activationId"), Get(f, "id")), Get(f, "activation_id"));
      var phone := Or(Or(Get(f, "phoneNumber"), Get(f, "phone")), Get(f, "number"));
      if Truthy(aid) && Truthy(phone) then NumberReply(Some(PyStr(aid)), Some(NormalizePhone(phone)), None)
      else NumberReply(None, None, Some(PyStr(Or(Or(Get(f, "error"), Get(f, "message")), Str("UNKNOWN")))))
    case _ => NumberReply(None, None, Some("UNKNOWN"))
  }

  /**
   `ACCESS_NUMBER:<id>:<phone>` with a colon-free id decodes to that id and the
   normalized phone (the phone may itself contain colons); a reply that is
   neither this form nor a usable object is reported as an error, never as a
   number.
   */
  lemma ParseNumberText(id: string, phone: string)
    requires ':' !in id
    ensures ParseNumber(Str(AccessNumberPrefix + id + ":" + phone))
         == NumberReply(Some(id), Some(NormalizePhone(Str(phone))), None)
  {
    var s := AccessNumberPrefix + id + ":" + phone;
    assert s[..|AccessNumberPrefix|] == AccessNumberPrefix;
    var rest := s[|AccessNumberPrefix|..];
    assert rest == id + ":" + phone;
    assert rest[|id|] == ':';
    assert forall i :: 0 <= i < |id| ==> rest[i] == id[i];
    assert IndexOf(rest, ':') == |id|;
    assert rest[..|id|] == id;
    assert rest[|id| + 1..] == phone;
  }

  /** The decoder reports either a number or an error, never both. */
  lemma ParseNumberExclusive(p: Val)
    ensures ParseNumber(p).err.None? <==> ParseNumber(p).aid.Some? && ParseNumber(p).phone.Some?
    ensures ParseNumber(p).err.Some? ==> ParseNumber(p).aid.None? && ParseNumber(p).phone.None?
    ensures p.Str? && !StartsWith(p.s, AccessNumberPrefix) ==> ParseNumber(p).err == Some(p.s)
  {
  }

  // ---------------------------------------------------------------------------
  // Provider balance (`parse_balance`)

  datatype BalanceReply = BalanceReply(balance: Option<string>, err: Option<string>)

  const AccessBalancePrefix := "ACCESS_BALANCE:"

  function ParseBalance(p: Val): (r: BalanceReply)
    ensures r.balance.Some? <==> r.err.None?
  {
    match p
    case Str(s) =>
      if StartsWith(s, AccessBalancePrefix) then BalanceReply(Some(s[|AccessBalancePrefix|..]), None)
      else BalanceReply(None, Some(s))
    case Obj(f) =>
      if HasKey(f, "balance") then BalanceReply(Some(PyStr(Get(f, "balance"))), None)
      else if HasKey(f, "amount") then BalanceReply(Some(PyStr(Get(f, "amount"))), None)
      else if HasKey(f, "value") then BalanceReply(Some(PyStr(Get(f, "value"))), None)
      else BalanceReply(None, Some(PyStr(Or(Or(Get(f, "error"), Get(f, "message")), Str("UNKNOWN")))))
    case _ => BalanceReply(None, Some("UNKNOWN"))
  }

  /** `ACCESS_BALANCE:<amount>` decodes to the amount text; any other text is the error. */
  lemma ParseBalanceText(amount: string, other: string)
    requires !StartsWith(other, AccessBalancePrefix)
    ensures ParseBalance(Str(AccessBalancePrefix + amount)) == BalanceReply(Some(amount), None)
    ensures ParseBalance(Str(other)) == BalanceReply(None, Some(other))
  {
    var s := AccessBalancePrefix + amount;
    assert s[..|AccessBalancePrefix|] == AccessBalancePrefix;
    assert s[|AccessBalancePrefix|..] == amount;
  }

  /** The object keys are tried in the order balance, amount, value, by presence. */
  lemma ParseBalanceObject(f: seq<(string, Val)>)
    ensures HasKey(f, "balance") ==> ParseBalance(Obj(f)).balance == Some(PyStr(Get(f, "balance")))
    ensures !HasKey(f, "balance") && HasKey(f, "amount") ==> ParseBalance(Obj(f)).balance == Some(PyStr(Get(f, "amount")))
    ensures !HasKey(f, "balance") && !HasKey(f, "amount") && !HasKey(f, "value") ==> ParseBalance(Obj(f)).balance.None?
  {
  }

  // ---------------------------------------------------------------------------
  // Error taxonomy (`ERR_MAP`, `api_error`)

  /** Provider error tokens and the message key each one maps to. */
  const ErrMap: map<string, string> := map[
    "BAD_KEY" := "bad_key",
    "BAD_ACTION" := "bad_action",
    "BAD_SERVICE" := "bad_service",
    "BAD_COUNTRY" := "bad_country",
    "BAD_STATUS" := "bad_status",
    "NO_BALANCE" := "no_balance",
    "NO_ACTIVATION" := "no_activation_err",
    "EARLY_CANCEL_DENIED" := "early_cancel_denied"
  ]

  const GenericFail := "generic_fail"

  /** The message key `api_error` renders for a raw provider error. */
  function ApiErrorKey(raw: string): string {
    if raw in ErrMap then ErrMap[raw] else GenericFail
  }

  /**
   Known tokens map one to one onto distinct specific messages; every other
   token, and only those, falls back to the generic failure.
   */
  lemma ApiErrorTaxonomy(raw: string, other: string)
    ensures ApiErrorKey(raw) == GenericFail <==> raw !in ErrMap
    ensures raw in ErrMap && other in ErrMap && raw != other ==> ApiErrorKey(raw) != ApiErrorKey(other)
  {
  }

  // ---------------------------------------------------------------------------
  // Endpoint bases (`_build_base_urls`)

  const PageBase := "https://smsbower.page/stubs/handler_api.php"
  const AppBase := "https://smsbower.app/web/stubs/handler_api.php"

  /** The nested `add`: skip an empty or already listed (stripped) URL. */
  function AddUrl(out: seq<string>, url: string): seq<string> {
    var u := Strip(url);
    if u == "" || u in out then out else out + [u]
  }

  function AddAll(out: seq<string>, urls: seq<string>): seq<string>
    decreases |urls|
  {
    if |urls| == 0 then out else AddAll(AddUrl(out, urls[0]), urls[1..])
  }

  /** The mirror candidates offered after the primary base. */
  function MirrorsOf(primary: string): seq<string> {
    if Contains(primary, "smsbower.page/stubs/handler_api.php") then [ReplaceAll(primary, PageBase, AppBase)]
    else if Contains(primary, "smsbower.app/web/stubs/handler_api.php") then [ReplaceAll(primary, AppBase, PageBase)]
    else [AppBase, PageBase]
  }

  /** The comma-separated fallback list (the environment value is a parameter here). */
  function ExtrasOf(extras: string): seq<string> {
    var e := Strip(extras);
    if e == "" then [] else Split(e, ',')
  }

  function Candidates(primary: string, extras: string): seq<string> {
    [primary] + MirrorsOf(primary) + ExtrasOf(extras)
  }

  function BuildBaseUrls(primary: string, extras: string): seq<string> {
    AddAll([], Candidates(primary, extras))
  }

  predicate NoDuplicates(s: seq<string>) {
    forall i, j :: 0 <= i < j < |s| ==> s[i] != s[j]
  }

  /** A list of bases: distinct, non-empty, already stripped. */
  predicate WellFormedBases(s: seq<string>) {
    NoDuplicates(s) && forall i :: 0 <= i < |s| ==> s[i] != "" && Strip(s[i]) == s[i]
  }

  lemma StripIdempotent(s: string)
    ensures Strip(Strip(s)) == Strip(s)
  {
    StripStable(Strip(s));
  }

  /** `u` is the stripped form of one of the candidates. */
  predicate Listed(urls: seq<string>, u: string) {
    exists i :: 0 <= i < |urls| && Strip(urls[i]) == u
  }

  lemma AddUrlSpec(out: seq<string>, url: string)
    requires WellFormedBases(out)
    ensures WellFormedBases(AddUrl(out, url))
    ensures |out| <= |AddUrl(out, url)| && AddUrl(out, url)[..|out|] == out
    ensures forall u :: u in AddUrl(out, url) <==> u in out || (u != "" && u == Strip(url))
  {
    var v := Strip(url);
    if v == "" || v in out {
      assert AddUrl(out, url) == out;
      hide Strip, AddUrl;
    } else {
      StripIdempotent(url);
      assert AddUrl(out, url) == out + [v];
      hide Strip, AddUrl;
      AppendWellFormed(out, v);
      assert (out + [v])[..|out|] == out;
    }
  }

  /** Appending a fresh, non-empty, stripped base keeps the list well formed. */
  lemma AppendWellFormed(out: seq<string>, v: string)
    requires WellFormedBases(out) && v != "" && Strip(v) == v && v !in out
    ensures WellFormedBases(out + [v])
  {
    hide Strip;
    var r := out + [v];
    assert forall i :: 0 <= i < |out| ==> r[i] == out[i];
    assert r[|out|] == v;
  }

  lemma ListedCons(urls: seq<string>, u: string)
    requires |urls| > 0
    ensures Listed(urls, u) <==> Strip(urls[0]) == u || Listed(urls[1..], u)
  {
    hide Strip;
    if Listed(urls, u) && Strip(urls[0]) != u {
      var i :| 0 <= i < |urls| && Strip(urls[i]) == u;
      assert urls[1..][i - 1] == urls[i];
    }
    if Listed(urls[1..], u) {
      var i :| 0 <= i < |urls[1..]| && Strip(urls[1..][i]) == u;
      assert urls[i + 1] == urls[1..][i];
    }
  }

  /** Folding `add` keeps the list well formed and keeps what was there as a prefix. */
  lemma {:induction false} AddAllWellFormed(out: seq<string>, urls: seq<string>)
    requires WellFormedBases(out)
    ensures WellFormedBases(AddAll(out, urls))
    ensures |out| <= |AddAll(out, urls)| && AddAll(out, urls)[..|out|] == out
    decreases |urls|
  {
    if |urls| > 0 {
      var next := AddUrl(out, urls[0]);
      assert AddAll(out, urls) == AddAll(next, urls[1..]);
      AddUrlSpec(out, urls[0]);
      AddAllWellFormed(next, urls[1..]);
      hide AddAll, AddUrl, Strip, WellFormedBases;
      var r := AddAll(next, urls[1..]);
      assert r[..|out|] == r[..|next|][..|out|];
    }
  }

  /** Folding `add` lists exactly what was there and the stripped non-empty candidates. */
  lemma {:induction false} AddAllMembers(out: seq<string>, urls: seq<string>, u: string)
    requires WellFormedBases(out)
    ensures u in AddAll(out, urls) <==> u in out || (u != "" && Listed(urls, u))
    decreases |urls|
  {
    if |urls| > 0 {
      var next := AddUrl(out, urls[0]);
      AddUrlSpec(out, urls[0]);
      AddAllMembers(next, urls[1..], u);
      ListedCons(urls, u);
    }
  }

  /**
   The endpoint list: no duplicates and no empty entries, the stripped primary
   base first when it is non-empty, and exactly the stripped non-empty
   candidates (primary, its mirrors, then the configured fallbacks).
   */
  lemma BuildBaseUrlsSpec(primary: string, extras: string)
    ensures var r := BuildBaseUrls(primary, extras);
            var c := Candidates(primary, extras);
            WellFormedBases(r) &&
            (Strip(primary) != "" ==> |r| > 0 && r[0] == Strip(primary)) &&
            (forall u :: u in r <==> u != "" && Listed(c, u))
  {
    var c := Candidates(primary, extras);
    AddAllWellFormed([], c);
    var first := AddUrl([], c[0]);
    AddUrlSpec([], c[0]);
    AddAllWellFormed(first, c[1..]);
    assert AddAll([], c) == AddAll(first, c[1..]);
    forall u | true
      ensures u in AddAll([], c) <==> u != "" && Listed(c, u)
    {
      AddAllMembers([], c, u);
    }
  }

  // ---------------------------------------------------------------------------
  // Failover (`TemplineAPI.call`)

  /** The outcome of one HTTP attempt: a decoded reply, or an exception text. */
  datatype Attempt = Reply(payload: Val) | Raised(error: string)

  datatype CallResult =
    | Replied(payload: Val)
      /** Every attempt failed; carries the last exception, None when there was no base. */
    | Exhausted(last: Option<string>)

  /** Each base, in order, twice. */
  function Schedule(bases: seq<string>): (s: seq<string>)
    ensures |s| == 2 * |bases|
    ensures forall i :: 0 <= i < |s| ==> s[i] == bases[i / 2]
  {
    if |bases| == 0 then []
    else
      var rest := Schedule(bases[1..]);
      assert forall i :: 2 <= i < 2 * |bases| ==> ([bases[0], bases[0]] + rest)[i] == rest[i - 2];
      assert forall i :: 2 <= i < 2 * |bases| ==> (i - 2) / 2 == i / 2 - 1;
      [bases[0], bases[0]] + rest
  }

  /**
   One provider call with failover: the attempts go to each base twice, in
   list order; the first attempt that yields a reply ends the call with it.
   `outcome(i)` is what the i-th request made by this call would produce.
   */
  method Call(bases: seq<string>, outcome: nat -> Attempt) returns (r: CallResult, contacted: seq<string>)
    ensures |contacted| <= 2 * |bases| && contacted == Schedule(bases)[..|contacted|]
    ensures r.Replied? ==> |contacted| > 0 && outcome(|contacted| - 1) == Reply(r.payload)
    ensures forall i :: 0 <= i < |contacted| - 1 ==> outcome(i).Raised?
    ensures r.Exhausted? ==> contacted == Schedule(bases) && (forall i :: 0 <= i < |contacted| ==> outcome(i).Raised?)
    ensures r.Exhausted? ==> r.last == (if |bases| == 0 then None else Some(outcome(2 * |bases| - 1).error))
  {
    var sched := Schedule(bases);
    hide Schedule;
    contacted := [];
    var last: Option<string> := None;
    var b := 0;
    while b < |bases|
      invariant 0 <= b <= |bases|
      invariant contacted == sched[..2 * b]
      invariant forall i :: 0 <= i < |contacted| ==> outcome(i).Raised?
      invariant b == 0 ==> last.None?
      invariant b > 0 ==> last == Some(outcome(2 * b - 1).error)
    {
      var t := 0;
      while t < 2
        invariant 0 <= t <= 2
        invariant contacted == sched[..2 * b + t]
        invariant forall i :: 0 <= i < |contacted| ==> outcome(i).Raised?
        invariant t == 0 && b == 0 ==> last.None?
        invariant t == 0 && b > 0 ==> last == Some(outcome(2 * b - 1).error)
        invariant t > 0 ==> last == Some(outcome(2 * b + t - 1).error)
      {
        var n := |contacted|;
        contacted := contacted + [bases[b]];
        assert sched[2 * b + t] == bases[b];
        assert contacted == sched[..2 * b + t + 1];
        match outcome(n)
        case Reply(p) =>
          r := Replied(p);
          return;
        case Raised(e) =>
          last := Some(e);
        t := t + 1;
      }
      b := b + 1;
    }
    assert contacted == sched;
    r := Exhausted(last);
  }
}
