/**
 The price-list parser: walking the provider's nested price payload for
 offers, dropping empty and duplicate offers, and ordering what remains by
 price and then country name.
 */
module Prices {
  import opened Common
  import opened Payload
  import opened Decimal
  import opened Pricing

  // ---------------------------------------------------------------------------
  // Walking the payload (`_collect_price_nodes`)

  /** One raw offer found in the payload; the provider fields are kept as found. */
  datatype Row = Row(country: string, price: string, pid: Val, pname: Val)

  /** The members that may carry a price, in the order they are tried. */
  const PriceKeys: seq<string> := ["cost", "price", "activationCost", "activation_cost"]

  /** The first of `keys` present in the object. */
  function FirstPresent(fields: seq<(string, Val)>, keys: seq<string>): (k: Option<string>)
    ensures k.Some? ==> k.value in keys && HasKey(fields, k.value)
    ensures k.None? ==> forall i :: 0 <= i < |keys| ==> !HasKey(fields, keys[i])
    decreases |keys|
  {
    if |keys| == 0 then None
    else if HasKey(fields, keys[0]) then Some(keys[0])
    else FirstPresent(fields, keys[1..])
  }

  /**
   The offer an object itself describes, if any: the value of its first price
   member, unless that value is null. A missing provider id is taken from an
   all-digit parent key, a missing provider name from any other parent key.
   */
  function NodeRow(country: string, fields: seq<(string, Val)>, hint: Option<string>): Option<Row> {
    var k := FirstPresent(fields, PriceKeys);
    if k.None? then None
    else
      var price := Get(fields, k.value);
      if price == Null then None
      else
        var pid0 := Or(Get(fields, "providerId"), Get(fields, "provider_id"));
        var pname0 := Or(Or(Or(Get(fields, "providerName"), Get(fields, "provider_name")),
                            Get(fields, "provider")), Get(fields, "operator"));
        var pid := if pid0 == Null && hint.Some? && IsDigitString(hint.value) then Str(hint.value) else pid0;
        var pname := if pname0 == Null && hint.Some? && hint.value != "" && !IsDigitString(hint.value)
                     then Str(hint.value) else pname0;
        Some(Row(country, PyStr(price), pid, pname))
  }

  function OptionSeq<T>(o: Option<T>): seq<T> {
    if o.Some? then [o.value] else []
  }

  /** Every offer in `node`, depth first in member order, all tagged with `country`. */
  function Collect(country: string, node: Val, hint: Option<string>): seq<Row>
    decreases node, 1
  {
    match node
    case Obj(fields) => OptionSeq(NodeRow(country, fields, hint)) + CollectFields(country, node, 0)
    case Arr(items) => CollectItems(country, node, hint, 0)
    case _ => []
  }

  /** The members of an object from `i` on; each container member is walked with its key as hint. */
  function CollectFields(country: string, node: Val, i: nat): seq<Row>
    requires node.Obj? && i <= |node.fields|
    decreases node, 0, |node.fields| - i
  {
    if i == |node.fields| then []
    else
      var (k, v) := node.fields[i];
      (if IsContainer(v) then Collect(country, v, Some(k)) else []) + CollectFields(country, node, i + 1)
  }

  /** The items of a list from `i` on, each walked with the list's own hint. */
  function CollectItems(country: string, node: Val, hint: Option<string>, i: nat): seq<Row>
    requires node.Arr? && i <= |node.items|
    decreases node, 0, |node.items| - i
  {
    if i == |node.items| then []
    else Collect(country, node.items[i], hint) + CollectItems(country, node, hint, i + 1)
  }

  /** Every collected offer carries the country it was collected under. */
  lemma {:induction false} CollectCountry(country: string, node: Val, hint: Option<string>)
    ensures forall r :: r in Collect(country, node, hint) ==> r.country == country
    decreases node, 1
  {
    match node
    case Obj(fields) => CollectFieldsCountry(country, node, 0);
    case Arr(items) => CollectItemsCountry(country, node, hint, 0);
    case _ =>
  }

  lemma {:induction false} CollectFieldsCountry(country: string, node: Val, i: nat)
    requires node.Obj? && i <= |node.fields|
    ensures forall r :: r in CollectFields(country, node, i) ==> r.country == country
    decreases node, 0, |node.fields| - i
  {
    if i < |node.fields| {
      var (k, v) := node.fields[i];
      if IsContainer(v) {
        CollectCountry(country, v, Some(k));
      }
      CollectFieldsCountry(country, node, i + 1);
    }
  }

  lemma {:induction false} CollectItemsCountry(country: string, node: Val, hint: Option<string>, i: nat)
    requires node.Arr? && i <= |node.items|
    ensures forall r :: r in CollectItems(country, node, hint, i) ==> r.country == country
    decreases node, 0, |node.items| - i
  {
    if i < |node.items| {
      CollectCountry(country, node.items[i], hint);
      CollectItemsCountry(country, node, hint, i + 1);
    }
  }

  /**
   A price object reports its own offer, with the price text of its first
   price member, and when it has no provider id of its own an all-digit parent
   key supplies it.
   */
  lemma NodeRowSpec(country: string, fields: seq<(string, Val)>, hint: string)
    requires HasKey(fields, "cost") && Get(fields, "cost") != Null
    requires !HasKey(fields, "providerId") && !HasKey(fields, "provider_id")
    requires IsDigitString(hint)
    ensures NodeRow(country, fields, Some(hint)).Some?
    ensures NodeRow(country, fields, Some(hint)).value.price == PyStr(Get(fields, "cost"))
    ensures NodeRow(country, fields, Some(hint)).value.pid == Str(hint)
    ensures Collect(country, Obj(fields), Some(hint))[0] == NodeRow(country, fields, Some(hint)).value
  {
    assert FirstPresent(fields, PriceKeys) == Some("cost");
  }

  // ---------------------------------------------------------------------------
  // Country entries (`parse_prices`, first half)

  /** Top-level members that carry status rather than prices. */
  predicate IsStatusKey(c: string) {
    var l := Lower(c);
    l == "status" || l == "success" || l == "message" || l == "error"
  }

  /** The price data: the `data` member when it is a container, otherwise the whole payload. */
  function SelectData(payload: Val): Val {
    if payload.Obj? && IsContainer(Get(payload.fields, "data")) then Get(payload.fields, "data") else payload
  }

  /** The subtree of one country entry that concerns the requested service. */
  function ServiceNode(v: Val, serviceCode: string): Val {
    if v.Obj? && HasKey(v.fields, serviceCode) then Get(v.fields, serviceCode) else v
  }

  /** A dict of countries, from member `i` on. */
  function CountryRows(data: Val, serviceCode: string, i: nat): seq<Row>
    requires data.Obj? && i <= |data.fields|
    decreases |data.fields| - i
  {
    if i == |data.fields| then []
    else
      var (c, v) := data.fields[i];
      (if IsStatusKey(c) then [] else Collect(c, ServiceNode(v, serviceCode), None))
      + CountryRows(data, serviceCode, i + 1)
  }

  /** The country code of a list entry: its `country`, else its `countryCode`, else empty. */
  function EntryCountry(f: seq<(string, Val)>): string {
    PyStr(Or(Or(Get(f, "country"), Get(f, "countryCode")), Str("")))
  }

  /** A list of entries, from item `i` on; entries that are not objects or name no country are skipped. */
  function EntryRows(data: Val, i: nat): seq<Row>
    requires data.Arr? && i <= |data.items|
    decreases |data.items| - i
  {
    if i == |data.items| then []
    else
      var v := data.items[i];
      (if v.Obj? && EntryCountry(v.fields) != "" then Collect(EntryCountry(v.fields), v, None) else [])
      + EntryRows(data, i + 1)
  }

  function PayloadRows(payload: Val, serviceCode: string): seq<Row> {
    var data := SelectData(payload);
    if data.Obj? then CountryRows(data, serviceCode, 0)
    else if data.Arr? then EntryRows(data, 0)
    else []
  }

  // ---------------------------------------------------------------------------
  // Offers (`parse_prices`, second half)

  /** What the bot knows about a country code from its country list. */
  datatype CountryInfo = CountryInfo(name: Option<string>, iso2: Option<string>)

  /** The fixed part of a price query: the service and how countries are named. */
  datatype Query = Query(serviceCode: string, serviceName: string, countries: map<string, CountryInfo>, fallbackName: string)

  /** The identity of an offer: country, provider id, provider name and price. */
  datatype OfferKey = OfferKey(cc: string, pid: string, pname: string, price: string)

  /** A row becomes an offer only when both its country and its price are non-blank. */
  predicate Usable(r: Row) {
    Strip(r.country) != "" && Strip(r.price) != ""
  }

  function RowKey(r: Row): OfferKey {
    OfferKey(Strip(r.country), PyStr(Or(r.pid, Str(""))), PyStr(Or(r.pname, Str(""))), Strip(r.price))
  }

  function OfferKeyOf(o: PriceOption): OfferKey {
    OfferKey(o.countryCode, o.providerId.GetOr(""), o.providerName.GetOr(""), o.price)
  }

  function CountryName(q: Query, cc: string): string {
    if cc in q.countries && q.countries[cc].name.Some? && q.countries[cc].name.value != "" then q.countries[cc].name.value
    else q.fallbackName
  }

  function CountryIso2(q: Query, cc: string): Option<string> {
    if cc in q.countries then q.countries[cc].iso2 else None
  }

  function MakeOption(q: Query, r: Row): PriceOption {
    var cc := Strip(r.country);
    var price := Strip(r.price);
    PriceOption(
      q.serviceCode, q.serviceName, cc, CountryName(q, cc), CountryIso2(q, cc),
      if Truthy(r.pid) then Some(PyStr(r.pid)) else None,
      if Truthy(r.pname) then Some(PyStr(r.pname)) else None,
      price, price)
  }

  /** An offer is identified by the same key as the row it was made from. */
  lemma MakeOptionKey(q: Query, r: Row)
    ensures OfferKeyOf(MakeOption(q, r)) == RowKey(r)
  {
    if !Truthy(r.pid) {
      assert PyStr(Or(r.pid, Str(""))) == "";
    }
    if !Truthy(r.pname) {
      assert PyStr(Or(r.pname, Str(""))) == "";
    }
  }

  /** Offers from the usable rows, keeping the first row of each key not already in `seen`. */
  function Dedupe(q: Query, rows: seq<Row>, seen: set<OfferKey>): seq<PriceOption>
    decreases |rows|
  {
    if |rows| == 0 then []
    else
      var r := rows[0];
      if !Usable(r) || RowKey(r) in seen then Dedupe(q, rows[1..], seen)
      else [MakeOption(q, r)] + Dedupe(q, rows[1..], seen + {RowKey(r)})
  }

  predicate DistinctKeys(s: seq<PriceOption>) {
    forall i, j :: 0 <= i < j < |s| ==> OfferKeyOf(s[i]) != OfferKeyOf(s[j])
  }

  /** No offer repeats a key already seen. */
  lemma {:induction false} DedupeFresh(q: Query, rows: seq<Row>, seen: set<OfferKey>)
    ensures forall o :: o in Dedupe(q, rows, seen) ==> OfferKeyOf(o) !in seen
    decreases |rows|
  {
    if |rows| > 0 {
      var r := rows[0];
      if !Usable(r) || RowKey(r) in seen {
        DedupeFresh(q, rows[1..], seen);
      } else {
        DedupeFresh(q, rows[1..], seen + {RowKey(r)});
        MakeOptionKey(q, r);
      }
    }
  }

  /** Deduplication keeps one offer per key. */
  lemma {:induction false} DedupeDistinct(q: Query, rows: seq<Row>, seen: set<OfferKey>)
    ensures DistinctKeys(Dedupe(q, rows, seen))
    decreases |rows|
  {
    if |rows| > 0 {
      var r := rows[0];
      if !Usable(r) || RowKey(r) in seen {
        DedupeDistinct(q, rows[1..], seen);
      } else {
        var seen' := seen + {RowKey(r)};
        DedupeDistinct(q, rows[1..], seen');
        DedupeFresh(q, rows[1..], seen');
        MakeOptionKey(q, r);
        var rest := Dedupe(q, rows[1..], seen');
        assert Dedupe(q, rows, seen) == [MakeOption(q, r)] + rest;
        ConsDistinct(MakeOption(q, r), rest);
      }
    }
  }

  lemma ConsDistinct(x: PriceOption, rest: seq<PriceOption>)
    requires DistinctKeys(rest) && forall o :: o in rest ==> OfferKeyOf(o) != OfferKeyOf(x)
    ensures DistinctKeys([x] + rest)
  {
    var out := [x] + rest;
    forall i, j | 0 <= i < j < |out|
      ensures OfferKeyOf(out[i]) != OfferKeyOf(out[j])
    {
      assert out[j] == rest[j - 1];
      if i > 0 {
        assert out[i] == rest[i - 1];
      } else {
        assert rest[j - 1] in rest;
      }
    }
  }

  /** Each offer is made from a usable row of the input. */
  lemma {:induction false} DedupeSource(q: Query, rows: seq<Row>, seen: set<OfferKey>)
    ensures forall o :: o in Dedupe(q, rows, seen) ==> exists r :: r in rows && Usable(r) && o == MakeOption(q, r)
    decreases |rows|
  {
    if |rows| > 0 {
      var r := rows[0];
      var seen' := if !Usable(r) || RowKey(r) in seen then seen else seen + {RowKey(r)};
      DedupeSource(q, rows[1..], seen');
      forall o | o in Dedupe(q, rows, seen)
        ensures exists r :: r in rows && Usable(r) && o == MakeOption(q, r)
      {
        if o in Dedupe(q, rows[1..], seen') {
          var r' :| r' in rows[1..] && Usable(r') && o == MakeOption(q, r');
          assert r' in rows;
        } else {
          assert o == MakeOption(q, r);
        }
      }
    }
  }

  /** Every usable row whose key was not already seen is represented by an offer. */
  lemma {:induction false} DedupeComplete(q: Query, rows: seq<Row>, seen: set<OfferKey>, r: Row)
    requires r in rows && Usable(r) && RowKey(r) !in seen
    ensures exists o :: o in Dedupe(q, rows, seen) && OfferKeyOf(o) == RowKey(r)
    decreases |rows|
  {
    hide Usable, RowKey, MakeOption, OfferKeyOf;
    var h := rows[0];
    var rest := rows[1..];
    var skip := !Usable(h) || RowKey(h) in seen;
    if skip || RowKey(h) != RowKey(r) {
      assert r != h;
      assert r in rest by {
        assert rows == [h] + rest;
      }
      var seen' := if skip then seen else seen + {RowKey(h)};
      DedupeComplete(q, rest, seen', r);
      var o :| o in Dedupe(q, rest, seen') && OfferKeyOf(o) == RowKey(r);
      assert Dedupe(q, rows, seen) == (if skip then [] else [MakeOption(q, h)]) + Dedupe(q, rest, seen');
      assert o in Dedupe(q, rows, seen);
    } else {
      MakeOptionKey(q, h);
      assert Dedupe(q, rows, seen) == [MakeOption(q, h)] + Dedupe(q, rest, seen + {RowKey(h)});
      assert MakeOption(q, h) in Dedupe(q, rows, seen);
    }
  }

  // ---------------------------------------------------------------------------
  // Ordering (`out.sort(...)`)

  /** The price text matches `^\d+(\.\d+)?$`. */
  predicate IsPlainNumber(p: string) {
    var k := IndexOf(p, '.');
    IsDigitString(p[..k]) && (k == |p| || IsDigitString(p[k + 1..]))
  }

  /** The key of an offer whose price is not a plain number: after every plain price below it, before every plain price above it. */
  const UnpricedKey: real := 999999.0

  function SortKey(o: PriceOption): real {
    if IsPlainNumber(o.price) then ParseDecimal(o.price).GetOr(UnpricedKey) else UnpricedKey
  }

  /** Python's string order: lexicographic by code point. */
  predicate StrLe(a: string, b: string)
    decreases |a|
  {
    |a| == 0 || (|b| > 0 && (a[0] < b[0] || (a[0] == b[0] && StrLe(a[1..], b[1..]))))
  }

  lemma {:induction false} StrLeTotal(a: string, b: string)
    ensures StrLe(a, b) || StrLe(b, a)
    decreases |a|
  {
    if |a| > 0 && |b| > 0 && a[0] == b[0] {
      StrLeTotal(a[1..], b[1..]);
    }
  }

  lemma {:induction false} StrLeTrans(a: string, b: string, c: string)
    requires StrLe(a, b) && StrLe(b, c)
    ensures StrLe(a, c)
    decreases |a|
  {
    if |a| > 0 && a[0] == b[0] && b[0] == c[0] {
      StrLeTrans(a[1..], b[1..], c[1..]);
    }
  }

  /** The sort order: by price key, then by country name. */
  predicate OfferLe(x: PriceOption, y: PriceOption) {
    SortKey(x) < SortKey(y) || (SortKey(x) == SortKey(y) && StrLe(x.countryName, y.countryName))
  }

  predicate Sorted(s: seq<PriceOption>) {
    forall i, j :: 0 <= i < j < |s| ==> OfferLe(s[i], s[j])
  }

  /** An offer decorated with its sort key, as `sort(key=...)` computes it once per element. */
  datatype Entry = Entry(key: real, name: string, offer: PriceOption)

  function Decorate(s: seq<PriceOption>): (e: seq<Entry>)
    ensures |e| == |s|
    ensures forall i :: 0 <= i < |s| ==> e[i] == Entry(SortKey(s[i]), s[i].countryName, s[i])
  {
    seq(|s|, i requires 0 <= i < |s| => Entry(SortKey(s[i]), s[i].countryName, s[i]))
  }

  function Undecorate(e: seq<Entry>): (s: seq<PriceOption>)
    ensures |s| == |e|
    ensures forall i :: 0 <= i < |e| ==> s[i] == e[i].offer
  {
    seq(|e|, i requires 0 <= i < |e| => e[i].offer)
  }

  predicate EntryLe(a: Entry, b: Entry) {
    a.key < b.key || (a.key == b.key && StrLe(a.name, b.name))
  }

  lemma EntryLeTotal(a: Entry, b: Entry)
    ensures EntryLe(a, b) || EntryLe(b, a)
  {
    StrLeTotal(a.name, b.name);
  }

  lemma EntryLeTrans(a: Entry, b: Entry, c: Entry)
    requires EntryLe(a, b) && EntryLe(b, c)
    ensures EntryLe(a, c)
  {
    if a.key == b.key == c.key {
      StrLeTrans(a.name, b.name, c.name);
    }
  }

  predicate SortedEntries(s: seq<Entry>) {
    forall i, j :: 0 <= i < j < |s| ==> EntryLe(s[i], s[j])
  }

  /** Places `x` before the first element not below it, so that it precedes its equals. */
  function Insert(x: Entry, s: seq<Entry>): seq<Entry>
    decreases |s|
  {
    if |s| == 0 || EntryLe(x, s[0]) then [x] + s else [s[0]] + Insert(x, s[1..])
  }

  /** A stable sort: insertion from the back of the list. */
  function SortEntries(s: seq<Entry>): seq<Entry>
    decreases |s|
  {
    if |s| == 0 then [] else Insert(s[0], SortEntries(s[1..]))
  }

  /** Insertion adds the one element. */
  lemma {:induction false} InsertPerm(x: Entry, s: seq<Entry>)
    ensures multiset(Insert(x, s)) == multiset(s) + multiset{x}
    decreases |s|
  {
    if |s| > 0 && !EntryLe(x, s[0]) {
      InsertPerm(x, s[1..]);
      assert s == [s[0]] + s[1..];
    }
  }

  /** An element of `Insert(x, s)` is `x` or an element of `s`. */
  lemma InsertMember(x: Entry, s: seq<Entry>, k: nat)
    requires k < |Insert(x, s)|
    ensures Insert(x, s)[k] == x || Insert(x, s)[k] in s
  {
    InsertPerm(x, s);
    assert Insert(x, s)[k] in multiset(Insert(x, s));
  }

  lemma {:induction false} InsertSorted(x: Entry, s: seq<Entry>)
    requires SortedEntries(s)
    ensures SortedEntries(Insert(x, s))
    decreases |s|
  {
    if |s| == 0 || EntryLe(x, s[0]) {
      var r := [x] + s;
      forall i, j | 0 <= i < j < |r|
        ensures EntryLe(r[i], r[j])
      {
        if i == 0 && j > 1 {
          EntryLeTrans(x, s[0], s[j - 1]);
        }
      }
    } else {
      EntryLeTotal(x, s[0]);
      InsertSorted(x, s[1..]);
      var t := Insert(x, s[1..]);
      var r := [s[0]] + t;
      forall k | 0 <= k < |t|
        ensures EntryLe(s[0], t[k])
      {
        InsertMember(x, s[1..], k);
        if t[k] != x {
          var m :| 0 <= m < |s[1..]| && s[1..][m] == t[k];
          assert s[m + 1] == t[k];
        }
      }
      forall i, j | 0 <= i < j < |r|
        ensures EntryLe(r[i], r[j])
      {
        if i > 0 {
          assert r[i] == t[i - 1] && r[j] == t[j - 1];
        }
      }
    }
  }

  lemma {:induction false} SortEntriesSpec(s: seq<Entry>)
    ensures multiset(SortEntries(s)) == multiset(s)
    ensures SortedEntries(SortEntries(s))
    decreases |s|
  {
    if |s| > 0 {
      SortEntriesSpec(s[1..]);
      InsertPerm(s[0], SortEntries(s[1..]));
      InsertSorted(s[0], SortEntries(s[1..]));
      assert s == [s[0]] + s[1..];
    }
  }

  predicate DistinctEntries(s: seq<Entry>) {
    forall i, j :: 0 <= i < j < |s| ==> OfferKeyOf(s[i].offer) != OfferKeyOf(s[j].offer)
  }

  /** Inserting an entry whose key is new keeps keys distinct. */
  lemma {:induction false} InsertDistinct(x: Entry, s: seq<Entry>)
    requires DistinctEntries(s) && forall y :: y in s ==> OfferKeyOf(y.offer) != OfferKeyOf(x.offer)
    ensures DistinctEntries(Insert(x, s))
    decreases |s|
  {
    var r := Insert(x, s);
    if |s| == 0 || EntryLe(x, s[0]) {
      forall i, j | 0 <= i < j < |r|
        ensures OfferKeyOf(r[i].offer) != OfferKeyOf(r[j].offer)
      {
        if i == 0 {
          assert r[j] == s[j - 1];
          assert s[j - 1] in s;
        } else {
          assert r[i] == s[i - 1] && r[j] == s[j - 1];
        }
      }
    } else {
      assert DistinctEntries(s[1..]) by {
        forall i, j | 0 <= i < j < |s[1..]|
          ensures OfferKeyOf(s[1..][i].offer) != OfferKeyOf(s[1..][j].offer)
        {
          assert s[1..][i] == s[i + 1] && s[1..][j] == s[j + 1];
        }
      }
      assert forall y :: y in s[1..] ==> y in s;
      InsertDistinct(x, s[1..]);
      var t := Insert(x, s[1..]);
      assert r == [s[0]] + t;
      forall i, j | 0 <= i < j < |r|
        ensures OfferKeyOf(r[i].offer) != OfferKeyOf(r[j].offer)
      {
        assert r[j] == t[j - 1];
        if i > 0 {
          assert r[i] == t[i - 1];
        } else {
          InsertMember(x, s[1..], j - 1);
          if t[j - 1] != x {
            var m :| 0 <= m < |s[1..]| && s[1..][m] == t[j - 1];
            assert s[m + 1] == t[j - 1];
          } else {
            assert s[0] in s;
          }
        }
      }
    }
  }

  lemma {:induction false} SortEntriesDistinct(s: seq<Entry>)
    requires DistinctEntries(s)
    ensures DistinctEntries(SortEntries(s))
    decreases |s|
  {
    if |s| > 0 {
      assert DistinctEntries(s[1..]) by {
        forall i, j | 0 <= i < j < |s[1..]|
          ensures OfferKeyOf(s[1..][i].offer) != OfferKeyOf(s[1..][j].offer)
        {
          assert s[1..][i] == s[i + 1] && s[1..][j] == s[j + 1];
        }
      }
      SortEntriesDistinct(s[1..]);
      SortEntriesSpec(s[1..]);
      forall y | y in SortEntries(s[1..])
        ensures OfferKeyOf(y.offer) != OfferKeyOf(s[0].offer)
      {
        assert y in multiset(s[1..]);
        var m :| 0 <= m < |s[1..]| && s[1..][m] == y;
        assert s[m + 1] == y;
      }
      InsertDistinct(s[0], SortEntries(s[1..]));
    }
  }

  /** `sorted(offers, key=...)`: decorate, sort stably, undecorate. */
  function SortOffers(s: seq<PriceOption>): seq<PriceOption> {
    Undecorate(SortEntries(Decorate(s)))
  }

  /** Every sorted entry is one of the decorated offers. */
  lemma SortedFromDecorated(s: seq<PriceOption>, k: nat)
    requires k < |SortEntries(Decorate(s))|
    ensures var x := SortEntries(Decorate(s))[k]; x.key == SortKey(x.offer) && x.name == x.offer.countryName
  {
    var d := Decorate(s);
    var e := SortEntries(d);
    SortEntriesSpec(d);
    assert e[k] in multiset(e);
    var m :| 0 <= m < |d| && d[m] == e[k];
  }

  /** Sorting orders offers by price key and then country name. */
  lemma SortOffersSorted(s: seq<PriceOption>)
    ensures Sorted(SortOffers(s))
  {
    var e := SortEntries(Decorate(s));
    var out := SortOffers(s);
    SortEntriesSpec(Decorate(s));
    forall i, j | 0 <= i < j < |out|
      ensures OfferLe(out[i], out[j])
    {
      assert EntryLe(e[i], e[j]);
      SortedFromDecorated(s, i);
      SortedFromDecorated(s, j);
      assert out[i] == e[i].offer && out[j] == e[j].offer;
    }
  }

  /** Sorting keeps exactly the same offers. */
  lemma SortOffersMembers(s: seq<PriceOption>)
    ensures |SortOffers(s)| == |s|
    ensures forall o :: o in SortOffers(s) <==> o in s
  {
    var d := Decorate(s);
    var e := SortEntries(d);
    var out := Undecorate(e);
    SortEntriesSpec(d);
    assert |e| == |multiset(e)| == |multiset(d)| == |d|;
    forall o | o in out
      ensures o in s
    {
      var k :| 0 <= k < |out| && out[k] == o;
      assert e[k] in multiset(d);
      var m :| 0 <= m < |d| && d[m] == e[k];
      assert s[m] == o;
    }
    forall o | o in s
      ensures o in out
    {
      var k :| 0 <= k < |s| && s[k] == o;
      assert d[k] in multiset(e);
      var m :| 0 <= m < |e| && e[m] == d[k];
      assert out[m] == o;
    }
  }

  /** Sorting keeps keys distinct. */
  lemma SortOffersDistinct(s: seq<PriceOption>)
    requires DistinctKeys(s)
    ensures DistinctKeys(SortOffers(s))
  {
    var d := Decorate(s);
    var e := SortEntries(d);
    var out := Undecorate(e);
    assert DistinctEntries(d) by {
      forall i, j | 0 <= i < j < |d|
        ensures OfferKeyOf(d[i].offer) != OfferKeyOf(d[j].offer)
      {
        assert d[i].offer == s[i] && d[j].offer == s[j];
      }
    }
    SortEntriesDistinct(d);
    forall i, j | 0 <= i < j < |out|
      ensures OfferKeyOf(out[i]) != OfferKeyOf(out[j])
    {
      assert out[i] == e[i].offer && out[j] == e[j].offer;
    }
  }

  // ---------------------------------------------------------------------------
  // The whole parser

  function ParsePrices(payload: Val, q: Query): seq<PriceOption> {
    SortOffers(Dedupe(q, PayloadRows(payload, q.serviceCode), {}))
  }

  /**
   The offers of a price payload: ordered by price and then country name,
   one offer per distinct (country, provider id, provider name, price) among
   the rows with a non-blank country and price, each made from such a row
   for the requested service and named from the country list.
   */
  lemma ParsePricesSpec(payload: Val, q: Query)
    ensures var out := ParsePrices(payload, q);
            var rows := PayloadRows(payload, q.serviceCode);
            Sorted(out) && DistinctKeys(out) &&
            (forall o :: o in out ==> exists r :: r in rows && Usable(r) && o == MakeOption(q, r)) &&
            (forall r :: r in rows && Usable(r) ==> exists o :: o in out && OfferKeyOf(o) == RowKey(r))
    ensures forall o :: o in ParsePrices(payload, q) ==>
              o.serviceCode == q.serviceCode && o.serviceName == q.serviceName &&
              o.countryCode != "" && o.price != "" && o.price == o.basePrice &&
              o.countryName == CountryName(q, o.countryCode)
  {
    var rows := PayloadRows(payload, q.serviceCode);
    var d := Dedupe(q, rows, {});
    DedupeDistinct(q, rows, {});
    DedupeSource(q, rows, {});
    SortOffersSorted(d);
    SortOffersMembers(d);
    SortOffersDistinct(d);
    forall r | r in rows && Usable(r)
      ensures exists o :: o in ParsePrices(payload, q) && OfferKeyOf(o) == RowKey(r)
    {
      DedupeComplete(q, rows, {}, r);
    }
  }
}
