/**
 Roles, languages and the price a user is shown: the profit percentage from
 the settings table and the per-role markup applied to provider prices.
 */
module Pricing {
  import opened Common
  import opened Payload
  import opened Decimal

  // ---------------------------------------------------------------------------
  // Roles (`role_of`)

  datatype Role = Admin | User | Super | Pending | Blocked

  /** The role names as the users table stores them. */
  function RoleName(r: Role): string {
    match r
    case Admin => "admin"
    case User => "user"
    case Super => "super_user"
    case Pending => "pending"
    case Blocked => "blocked"
  }

  /** Roles that may use the bot. */
  predicate IsApproved(r: Role) {
    r == Admin || r == User || r == Super
  }

  /** The role a lower-cased stored name denotes; unknown names are pending. */
  function RoleOfName(x: string): Role {
    if x == "admin" then Admin
    else if x == "user" then User
    else if x == "super_user" then Super
    else if x == "pending" then Pending
    else if x == "blocked" then Blocked
    else Pending
  }

  /** The role of a users row, given as its columns; a missing or empty row is pending. */
  function RoleOf(row: Option<seq<(string, Val)>>): Role {
    if row.None? || |row.value| == 0 then Pending
    else RoleOfName(Lower(PyStr(Or(Get(row.value, "role"), Str(RoleName(Pending))))))
  }

  /** Role names are read back as the role they name, and only those. */
  lemma RoleOfNameSpec(r: Role, x: string)
    ensures RoleOfName(RoleName(r)) == r
    ensures (forall q: Role :: RoleName(q) != x) ==> RoleOfName(x) == Pending
  {
    if forall q: Role :: RoleName(q) != x {
      assert RoleName(Admin) != x && RoleName(User) != x && RoleName(Super) != x;
      assert RoleName(Pending) != x && RoleName(Blocked) != x;
    }
    match r
    case Admin =>
    case User => assert "user" != "admin" by { assert |"user"| != |"admin"|; }
    case Super => assert "super_user"[0] != "user"[0];
    case Pending => assert "pending"[0] != "admin"[0] && "pending"[0] != "user"[0] && |"pending"| != |"super_user"|;
    case Blocked =>
      assert "blocked"[0] != "pending"[0] && "blocked"[0] != "admin"[0];
      assert |"blocked"| != |"user"| && |"blocked"| != |"super_user"|;
  }

  lemma UpperRoleName(r: Role)
    ensures Lower(Upper(RoleName(r))) == RoleName(r)
  {
    var n := RoleName(r);
    assert forall i :: 0 <= i < |n| ==> LowerChar(UpperChar(n[i])) == n[i];
  }

  /**
   Reading back a stored role name gives the role, whatever its letter case;
   any other stored text, an empty role and a missing row all count as pending.
   */
  lemma RoleOfRoundTrip(r: Role, row: seq<(string, Val)>)
    requires |row| > 0 && Truthy(Get(row, "role"))
    ensures Lower(PyStr(Get(row, "role"))) == RoleName(r) ==> RoleOf(Some(row)) == r
    ensures (forall q: Role :: Lower(PyStr(Get(row, "role"))) != RoleName(q)) ==> RoleOf(Some(row)) == Pending
    ensures RoleOf(None) == Pending && RoleOf(Some([])) == Pending
  {
    var x := Lower(PyStr(Get(row, "role")));
    assert RoleOf(Some(row)) == RoleOfName(x);
    RoleOfNameSpec(r, x);
  }

  /** A role written in capitals is still recognised. */
  lemma RoleOfUpperCase(r: Role)
    ensures RoleOf(Some([("role", Str(Upper(RoleName(r))))])) == r
  {
    var one := [("role", Str(Upper(RoleName(r))))];
    var n := Upper(RoleName(r));
    assert |n| > 0;
    assert Get(one, "role") == Str(n);
    UpperRoleName(r);
    assert RoleOf(Some(one)) == RoleOfName(RoleName(r));
    RoleOfNameSpec(r, "");
  }

  // ---------------------------------------------------------------------------
  // Interface language (`lang_from_code`)

  const Langs: seq<string> := ["en", "bn", "hi", "ar", "ru"]

  /** The bot language for a Telegram language code such as `pt-BR`. */
  function LangFromCode(code: Option<string>): string {
    if code.None? || code.value == "" then "en"
    else
      var x := Lower(Split(code.value, '-')[0]);
      if x in Langs then x else "en"
  }

  /**
   The language is always a supported one; a supported code, with or without a
   region suffix and in either letter case, selects itself.
   */
  lemma LangFromCodeSpec(code: Option<string>, lang: string, region: string)
    requires lang in Langs
    ensures LangFromCode(code) in Langs
    ensures LangFromCode(Some(lang)) == lang
    ensures LangFromCode(Some(lang + "-" + region)) == lang
    ensures LangFromCode(Some(Upper(lang))) == lang
  {
    hide Split, Lower, Upper, IndexOf;
    LangCase(lang);
    SplitHeadPlain(lang);
    SplitHeadPlain(Upper(lang));
    SplitHeadBefore(lang, region);
  }

  /** A supported code is lower case, has no `-`, and comes back from upper case. */
  lemma LangCase(lang: string)
    requires lang in Langs
    ensures Lower(lang) == lang && Lower(Upper(lang)) == lang
    ensures IndexOf(lang, '-') == |lang| && IndexOf(Upper(lang), '-') == |Upper(lang)|
  {
  }

  /** A text without `-` is its own first `-`-separated field. */
  lemma SplitHeadPlain(s: string)
    requires IndexOf(s, '-') == |s|
    ensures Split(s, '-')[0] == s
  {
  }

  /** The first `-`-separated field of `L-R` is `L` when `L` has no `-`. */
  lemma SplitHeadBefore(l: string, region: string)
    requires IndexOf(l, '-') == |l|
    ensures Split(l + "-" + region, '-')[0] == l
  {
    var t := l + "-" + region;
    assert forall i :: 0 <= i < |l| ==> t[i] == l[i];
    assert t[|l|] == '-';
    assert IndexOf(t, '-') == |l|;
    assert t[..|l|] == l;
  }

  // ---------------------------------------------------------------------------
  // Profit percentage (`profit_percent_from_settings`)

  const DefaultProfitPercent: real := 20.0
  const MaxProfitPercent: real := 500.0

  /** The markup percentage from the settings table, defaulting to 20 and clamped to [0, 500]. */
  function ProfitPercent(settings: seq<(string, Val)>): (pct: real)
    ensures 0.0 <= pct <= MaxProfitPercent
  {
    var p := Dec(PyStr(GetOr(settings, "profit_percent", Str("20"))), DefaultProfitPercent);
    if p < 0.0 then 0.0
    else if p > MaxProfitPercent then MaxProfitPercent
    else p
  }

  /**
   A stored percentage inside [0, 500] is used as it is, one outside is
   clamped to the nearer bound, and an absent or unreadable one gives 20.
   */
  lemma ProfitPercentSpec(settings: seq<(string, Val)>)
    ensures var raw := ParseDecimal(PyStr(GetOr(settings, "profit_percent", Str("20"))));
            (raw.None? ==> ProfitPercent(settings) == DefaultProfitPercent) &&
            (raw.Some? && 0.0 <= raw.value <= MaxProfitPercent ==> ProfitPercent(settings) == raw.value) &&
            (raw.Some? && raw.value < 0.0 ==> ProfitPercent(settings) == 0.0) &&
            (raw.Some? && raw.value > MaxProfitPercent ==> ProfitPercent(settings) == MaxProfitPercent)
    ensures !HasKey(settings, "profit_percent") ==> ProfitPercent(settings) == DefaultProfitPercent
  {
    if !HasKey(settings, "profit_percent") {
      ParseTwenty();
    }
  }

  lemma ParseTwenty()
    ensures ParseDecimal("20") == Some(20.0)
  {
    ParsePlainText("20", 20.0) by {
      ParseDigitsOnly("20");
      assert DigitsValue("20") == 20;
      StripStable("20");
    }
  }

  // ---------------------------------------------------------------------------
  // Price options (`PriceOption`, `apply_role_prices`)

  /** One purchasable offer: a service in a country, optionally from one provider. */
  datatype PriceOption = PriceOption(
    serviceCode: string,
    serviceName: string,
    countryCode: string,
    countryName: string,
    countryIso2: Option<string>,
    providerId: Option<string>,
    providerName: Option<string>,
    price: string,
    basePrice: string)

  /** The provider's price of an offer: `base_price`, or `price` when that is empty; 0 when unreadable. */
  function BaseOf(x: PriceOption): real {
    Dec(if x.basePrice != "" then x.basePrice else x.price, 0.0)
  }

  /**
   The markup for one offer. Only plain users pay the markup. The bot
   quantizes the product before rendering it with `money`, which quantizes
   again; the second quantization is the identity, so the product is handed
   to `Money` directly (Round3Idempotent).
   */
  function RolePrice(x: PriceOption, role: Role, pct: real): PriceOption {
    var base := BaseOf(x);
    var final := if role == User then Markup(base, pct) else base;
    x.(price := Money(final), basePrice := Money(base))
  }

  function ApplyRolePrices(opts: seq<PriceOption>, role: Role, pct: real): (r: seq<PriceOption>)
    ensures |r| == |opts|
    ensures forall i :: 0 <= i < |opts| ==> r[i] == RolePrice(opts[i], role, pct)
  {
    seq(|opts|, i requires 0 <= i < |opts| => RolePrice(opts[i], role, pct))
  }

  /** Everything but the two prices is carried over. */
  predicate SameOffer(a: PriceOption, b: PriceOption) {
    a.serviceCode == b.serviceCode && a.serviceName == b.serviceName &&
    a.countryCode == b.countryCode && a.countryName == b.countryName &&
    a.countryIso2 == b.countryIso2 && a.providerId == b.providerId && a.providerName == b.providerName
  }

  /** The exact marked-up price, before rounding. */
  function Markup(base: real, pct: real): real {
    base * (1.0 + pct / 100.0)
  }

  lemma RolePriceText(x: PriceOption, role: Role, pct: real)
    ensures role == User ==> RolePrice(x, role, pct).price == Money(Markup(BaseOf(x), pct))
    ensures role != User ==> RolePrice(x, role, pct).price == Money(BaseOf(x))
    ensures RolePrice(x, role, pct).basePrice == Money(BaseOf(x))
  {
  }

  /** A rendered amount reads back as the amount rounded half up to thousandths. */
  lemma ReadsBack(y: real, t: string)
    requires t == Money(y)
    ensures ParseDecimal(t) == Some(Quantize3(y))
  {
    MoneyRoundTrip(y);
  }

  /**
   Role pricing keeps the list's length, order and every descriptive field;
   the shown price reads back as the base times (1 + pct/100) rounded half up
   to three places for a plain user, and as the rounded base for every other
   role, whose shown and base prices then coincide.
   */
  lemma ApplyRolePricesSpec(opts: seq<PriceOption>, role: Role, pct: real, i: nat)
    requires i < |opts|
    ensures var r := ApplyRolePrices(opts, role, pct);
            |r| == |opts| && SameOffer(r[i], opts[i]) &&
            ParseDecimal(r[i].basePrice) == Some(Quantize3(BaseOf(opts[i]))) &&
            (role == User ==> ParseDecimal(r[i].price) == Some(Quantize3(Markup(BaseOf(opts[i]), pct)))) &&
            (role != User ==> r[i].price == r[i].basePrice && ParseDecimal(r[i].price) == Some(Quantize3(BaseOf(opts[i]))))
  {
    var x := opts[i];
    var o := RolePrice(x, role, pct);
    assert ApplyRolePrices(opts, role, pct)[i] == o;
    RolePriceText(x, role, pct);
    ReadsBack(BaseOf(x), o.basePrice);
    if role == User {
      ReadsBack(Markup(BaseOf(x), pct), o.price);
    } else {
      ReadsBack(BaseOf(x), o.price);
    }
  }

  /**
   The marked-up price a user sees is within half a thousandth of the exact
   markup, and with a non-negative base and percentage it is never below the
   base price.
   */
  lemma UserPriceBounds(x: PriceOption, pct: real)
    requires 0.0 <= pct
    ensures ParseDecimal(RolePrice(x, User, pct).price) == Some(Quantize3(Markup(BaseOf(x), pct)))
    ensures -0.0005 <= Quantize3(Markup(BaseOf(x), pct)) - Markup(BaseOf(x), pct) <= 0.0005
    ensures BaseOf(x) >= 0.0 ==> Quantize3(Markup(BaseOf(x), pct)) >= Quantize3(BaseOf(x))
  {
    var base := BaseOf(x);
    var y := Markup(base, pct);
    RolePriceText(x, User, pct);
    ReadsBack(y, RolePrice(x, User, pct).price);
    Quantize3Error(y);
    if base >= 0.0 {
      MarkupAtLeastBase(base, pct);
      Round3Monotone(base, y);
    }
  }

  lemma MarkupAtLeastBase(base: real, pct: real)
    requires base >= 0.0 && pct >= 0.0
    ensures Markup(base, pct) >= base
  {
    assert base * (pct / 100.0) >= 0.0;
  }

  /** Half-up rounding to thousandths is monotone. */
  lemma Round3Monotone(x: real, y: real)
    requires x <= y
    ensures Quantize3(x) <= Quantize3(y)
  {
    if Round3(x) > Round3(y) {
      assert Round3(x) >= Round3(y) + 1;
    }
  }
}
