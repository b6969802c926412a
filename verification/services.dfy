/**
 Service search: normalizing the user's query and the catalogue entries, and
 matching by name, by code, or through the alias table of the popular
 services (names in the five interface languages).
 */
module Services {
  import opened Common

  // ---------------------------------------------------------------------------
  // Normalization (`norm`)

  /** Replaces every run of whitespace by a single space. */
  function Collapse(s: string): (r: string)
    ensures |r| <= |s|
    ensures forall i :: 0 <= i < |r| ==> !IsSpace(r[i]) || r[i] == ' '
    decreases |s|
  {
    if |s| == 0 then ""
    else if IsSpace(s[0]) then " " + Collapse(TrimStart(s[1..]))
    else [s[0]] + Collapse(s[1..])
  }

  /** `re.sub(r"\s+", " ", s.strip().lower())`. */
  function Norm(s: string): string {
    Collapse(Lower(Strip(s)))
  }

  /** Text in normal form: lower case, single inner spaces, no whitespace at the ends. */
  predicate IsNormal(s: string) {
    (forall i :: 0 <= i < |s| ==> LowerChar(s[i]) == s[i] && (!IsSpace(s[i]) || s[i] == ' ')) &&
    (forall i :: 0 <= i < |s| - 1 ==> !(s[i] == ' ' && s[i + 1] == ' ')) &&
    (|s| > 0 ==> s[0] != ' ' && s[|s| - 1] != ' ')
  }

  lemma LowerKeepsSpaces(s: string)
    ensures forall i :: 0 <= i < |s| ==> (IsSpace(Lower(s)[i]) <==> IsSpace(s[i]))
    ensures forall i :: 0 <= i < |s| ==> LowerChar(Lower(s)[i]) == Lower(s)[i]
  {
  }

  /**
   One step of `Collapse`: the first character, a blank turned into a space,
   before the collapsed rest `t`, a proper suffix of the input.
   */
  lemma CollapseStep(s: string) returns (t: string)
    requires |s| > 0
    ensures t == if IsSpace(s[0]) then TrimStart(s[1..]) else s[1..]
    ensures |t| < |s| && t == s[|s| - |t|..]
    ensures Collapse(s) == [if IsSpace(s[0]) then ' ' else s[0]] + Collapse(t)
  {
    t := if IsSpace(s[0]) then TrimStart(s[1..]) else s[1..];
  }

  /** A character of a suffix is a character of the whole text. */
  lemma InSuffix(s: string, t: string, x: char)
    requires |t| <= |s| && t == s[|s| - |t|..] && x in t
    ensures x in s
  {
    var k :| 0 <= k < |t| && t[k] == x;
    assert s[|s| - |t| + k] == x;
  }

  /** Every character of the collapsed text is a space or a character of the input. */
  lemma {:induction false} CollapseChars(s: string)
    ensures forall i :: 0 <= i < |Collapse(s)| ==> Collapse(s)[i] == ' ' || Collapse(s)[i] in s
    decreases |s|
  {
    hide Collapse, TrimStart, IsSpace;
    if |s| > 0 {
      var t := CollapseStep(s);
      CollapseChars(t);
      var c, ct := Collapse(s), Collapse(t);
      forall i | 0 <= i < |c|
        ensures c[i] == ' ' || c[i] in s
      {
        if i > 0 && c[i] != ' ' {
          assert c[i] == ct[i - 1];
          InSuffix(s, t, c[i]);
        }
      }
    }
  }

  /** A non-blank first and last character survive collapsing. */
  lemma {:induction false} CollapseEnds(s: string)
    ensures |s| > 0 ==> |Collapse(s)| > 0
    ensures |s| > 0 && !IsSpace(s[0]) ==> Collapse(s)[0] == s[0]
    ensures |s| > 0 && !IsSpace(s[|s| - 1]) ==> Collapse(s)[|Collapse(s)| - 1] == s[|s| - 1]
    decreases |s|
  {
    hide Collapse;
    if |s| > 0 {
      var t := CollapseStep(s);
      CollapseEnds(t);
      if |t| > 0 {
        assert t[|t| - 1] == s[|s| - 1];
      }
    }
  }

  /** Collapsed text never has two spaces in a row. */
  lemma {:induction false} CollapseNoDouble(s: string)
    ensures forall i :: 0 <= i < |Collapse(s)| - 1 ==> !(Collapse(s)[i] == ' ' && Collapse(s)[i + 1] == ' ')
    decreases |s|
  {
    hide Collapse;
    if |s| > 0 {
      var t := CollapseStep(s);
      CollapseNoDouble(t);
      CollapseEnds(t);
      var rest := Collapse(t);
      var r := Collapse(s);
      forall i | 0 <= i < |r| - 1
        ensures !(r[i] == ' ' && r[i + 1] == ' ')
      {
        if i > 0 {
          assert r[i] == rest[i - 1] && r[i + 1] == rest[i];
        } else if IsSpace(s[0]) {
          assert r[1] == rest[0] == t[0];
        } else {
          assert r[0] == s[0];
        }
      }
    }
  }

  /** Normalized text is in normal form. */
  lemma NormIsNormal(s: string)
    ensures IsNormal(Norm(s))
  {
    var l := Lower(Strip(s));
    LowerKeepsSpaces(Strip(s));
    CollapseChars(l);
    CollapseEnds(l);
    CollapseNoDouble(l);
    var n := Norm(s);
    forall i | 0 <= i < |n|
      ensures LowerChar(n[i]) == n[i]
    {
      if n[i] != ' ' {
        var k :| 0 <= k < |l| && l[k] == n[i];
      }
    }
  }

  /** Text in normal form has no run of whitespace to collapse. */
  lemma {:induction false} CollapseNormal(s: string)
    requires forall i :: 0 <= i < |s| ==> !IsSpace(s[i]) || s[i] == ' '
    requires forall i :: 0 <= i < |s| - 1 ==> !(s[i] == ' ' && s[i + 1] == ' ')
    ensures Collapse(s) == s
    decreases |s|
  {
    if |s| > 0 {
      if IsSpace(s[0]) {
        if |s| > 1 {
          assert !IsSpace(s[1]);
        }
        assert TrimStart(s[1..]) == s[1..];
      }
      CollapseNormal(s[1..]);
    }
  }

  /** Normalizing twice is normalizing once. */
  lemma NormIdempotent(s: string)
    ensures Norm(Norm(s)) == Norm(s)
  {
    var n := Norm(s);
    NormIsNormal(s);
    StripStable(n);
    assert Lower(n) == n;
    CollapseNormal(n);
  }

  // ---------------------------------------------------------------------------
  // Matching (`match_services`)

  /** A catalogue entry; only its name and code take part in matching. */
  datatype Service = Service(name: string, code: string)

  /** Canonical service names and the words that stand for them. */
  const ServiceAlias: seq<(string, seq<string>)> := [
    ("facebook", ["facebook", "fb", "ফেসবুক", "फेसबुक", "فيسبوك", "фейсбук"]),
    ("telegram", ["telegram", "tg", "টেলিগ্রাম", "टेलीग्राम", "تيليجرام", "телеграм"]),
    ("whatsapp", ["whatsapp", "wa", "হোয়াটসঅ্যাপ", "व्हाट्सऐप", "واتساب", "ватсап"]),
    ("instagram", ["instagram", "insta", "ইনস্টাগ্রাম", "इंस्टाग्राम", "انستغرام", "инстаграм"]),
    ("google", ["google", "gmail", "গুগল", "गूगल", "جوجل", "гугл"])
  ]

  /** The canonical names the query stands for. */
  function CanonHits(q: string): set<string> {
    set i | 0 <= i < |ServiceAlias| && (q == ServiceAlias[i].0 || q in ServiceAlias[i].1) :: ServiceAlias[i].0
  }

  /** The query occurs in the name, equals the code, or names a canonical service found in the name. */
  predicate Matches(q: string, hits: set<string>, s: Service) {
    Contains(Norm(s.name), q) || q == Norm(s.code) || exists c :: c in hits && Contains(Norm(s.name), c)
  }

  /** The elements of `s` that `keep` accepts, in order. */
  function Select(s: seq<Service>, keep: Service -> bool): (r: seq<Service>)
    ensures forall x :: x in r <==> x in s && keep(x)
    decreases |s|
  {
    if |s| == 0 then []
    else
      var rest := Select(s[1..], keep);
      assert s == [s[0]] + s[1..];
      if keep(s[0]) then [s[0]] + rest else rest
  }

  /** The catalogue entries matching the query, in catalogue order. */
  function FilterMatches(q: string, hits: set<string>, services: seq<Service>): (r: seq<Service>)
    ensures forall s :: s in r <==> s in services && Matches(q, hits, s)
  {
    Select(services, s => Matches(q, hits, s))
  }

  /** Keeps the first entry of each code. */
  function UniqByCode(s: seq<Service>, seen: set<string>): seq<Service>
    decreases |s|
  {
    if |s| == 0 then []
    else if s[0].code in seen then UniqByCode(s[1..], seen)
    else [s[0]] + UniqByCode(s[1..], seen + {s[0].code})
  }

  function MatchServices(query: string, services: seq<Service>): seq<Service> {
    var q := Norm(query);
    if q == "" then [] else UniqByCode(FilterMatches(q, CanonHits(q), services), {})
  }

  predicate DistinctCodes(s: seq<Service>) {
    forall i, j :: 0 <= i < j < |s| ==> s[i].code != s[j].code
  }

  /** Deduplication by code keeps only entries of the input whose code was not seen. */
  lemma {:induction false} UniqSource(s: seq<Service>, seen: set<string>)
    ensures forall x :: x in UniqByCode(s, seen) ==> x in s && x.code !in seen
    decreases |s|
  {
    if |s| > 0 {
      UniqSource(s[1..], if s[0].code in seen then seen else seen + {s[0].code});
    }
  }

  /** Deduplication by code keeps one entry per code. */
  lemma {:induction false} UniqDistinct(s: seq<Service>, seen: set<string>)
    ensures DistinctCodes(UniqByCode(s, seen))
    decreases |s|
  {
    if |s| > 0 {
      if s[0].code in seen {
        UniqDistinct(s[1..], seen);
      } else {
        var seen' := seen + {s[0].code};
        UniqDistinct(s[1..], seen');
        UniqSource(s[1..], seen');
        var rest := UniqByCode(s[1..], seen');
        var r := [s[0]] + rest;
        forall i, j | 0 <= i < j < |r|
          ensures r[i].code != r[j].code
        {
          assert r[j] == rest[j - 1];
          if i > 0 {
            assert r[i] == rest[i - 1];
          } else {
            assert rest[j - 1] in rest;
          }
        }
      }
    }
  }

  /** Every code of the input not already seen keeps an entry. */
  lemma {:induction false} UniqComplete(s: seq<Service>, seen: set<string>, x: Service)
    requires x in s && x.code !in seen
    ensures exists y :: y in UniqByCode(s, seen) && y.code == x.code
    decreases |s|
  {
    if s[0].code in seen {
      assert x in s[1..];
      UniqComplete(s[1..], seen, x);
    } else if x.code == s[0].code {
      assert s[0] in UniqByCode(s, seen);
    } else {
      assert x in s[1..];
      UniqComplete(s[1..], seen + {s[0].code}, x);
      var y :| y in UniqByCode(s[1..], seen + {s[0].code}) && y.code == x.code;
      assert y in UniqByCode(s, seen);
    }
  }

  /**
   The search result lists only matching catalogue entries, one per code, and
   every code with a matching entry is listed; an empty query finds nothing.
   */
  lemma MatchServicesSpec(query: string, services: seq<Service>)
    ensures var q := Norm(query);
            var r := MatchServices(query, services);
            (q == "" ==> r == []) &&
            (forall x :: x in r ==> x in services && Matches(q, CanonHits(q), x)) &&
            DistinctCodes(r) &&
            (q != "" ==> forall x :: x in services && Matches(q, CanonHits(q), x) ==> exists y :: y in r && y.code == x.code)
  {
    var q := Norm(query);
    if q != "" {
      var m := FilterMatches(q, CanonHits(q), services);
      UniqSource(m, {});
      UniqDistinct(m, {});
      forall x | x in services && Matches(q, CanonHits(q), x)
        ensures exists y :: y in MatchServices(query, services) && y.code == x.code
      {
        UniqComplete(m, {}, x);
      }
    }
  }

  lemma AliasNonEmpty(i: nat, a: string)
    requires i < |ServiceAlias| && a in ServiceAlias[i].1
    ensures a != ""
  {
    var l := ServiceAlias[i].1;
    var k :| 0 <= k < |l| && l[k] == a;
    assert |l[k]| >= 2;
  }

  /**
   A query that normalizes to an alias of a canonical service finds every
   entry whose name mentions that service, whatever the entry's code.
   */
  lemma AliasFinds(query: string, services: seq<Service>, i: nat, j: nat)
    requires i < |ServiceAlias| && j < |ServiceAlias[i].1|
    ensures Norm(query) == ServiceAlias[i].1[j] ==>
              forall x :: x in services && Contains(Norm(x.name), ServiceAlias[i].0) ==>
                exists y :: y in MatchServices(query, services) && y.code == x.code
  {
    var q := Norm(query);
    if q == ServiceAlias[i].1[j] {
      assert ServiceAlias[i].0 in CanonHits(q);
      AliasNonEmpty(i, q);
      MatchServicesSpec(query, services);
      forall x | x in services && Contains(Norm(x.name), ServiceAlias[i].0)
        ensures exists y :: y in MatchServices(query, services) && y.code == x.code
      {
        assert Matches(q, CanonHits(q), x);
      }
    }
  }
}
