/**
 * `load_unemployment_2022_avg_by_state_norm`: the unemployment rate per
 * state, keyed by the normalised state name, as the mean of the quarterly
 * rates of 2022, or of the latest year on record when there are none for
 * 2022. The parsed file is `None` when it is missing; anything but a list
 * gives an empty dict.
 */
module Unemployment {
  import opened Wrappers
  import opened PyStr
  import opened Dicts
  import opened Json
  import opened StateNames
  import opened Coerce
  import opened Records

  /** The year whose rates are preferred. */
  const PreferredYear: int := 2022

  // ---------------------------------------------------------------------------
  // One record
  // ---------------------------------------------------------------------------

  /** `int(q[:4])` for a `Quarter` that is a string of at least four
      characters starting with four digits; `None` otherwise. */
  function QuarterYear(q: Json): Option<int> {
    if q.JString? && |q.s| >= 4 && IsDigits(q.s[..4]) then Some(DigitsValue(q.s[..4])) else None
  }

  /** A record reduced to what the loader keeps of it: its key with its year
      and rate. */
  type Entry = Option<(string, (int, real))>

  /** What one record contributes, `None` when the loader `continue`s: an
      object whose `City` (which holds the state) is a string, whose
      `Quarter` starts with a year and whose `Unemployment_Rate` `as_float`
      can read. */
  function UnemploymentEntry(r: Json): Entry {
    if !r.JObject? then None
    else
      var st := Field(r.members, "City");
      if !st.JString? then None
      else
        match QuarterYear(Field(r.members, "Quarter"))
        case None => None
        case Some(y) =>
          match AsFloat(Field(r.members, "Unemployment_Rate"))
          case None => None
          case Some(rate) => Some((Norm(st.s), (y, rate)))
  }

  /** A record is kept exactly when it is an object whose `City` is a
      string, whose `Quarter` is a string of at least four characters
      starting with four digits and whose `Unemployment_Rate` `as_float` can
      read; it is keyed by the normalised state, with the year those digits
      spell and that rate. */
  lemma UnemploymentKept(r: Json)
    ensures UnemploymentEntry(r).Some? <==>
      && r.JObject? && Field(r.members, "City").JString?
      && Field(r.members, "Quarter").JString? && |Field(r.members, "Quarter").s| >= 4
      && IsDigits(Field(r.members, "Quarter").s[..4])
      && AsFloat(Field(r.members, "Unemployment_Rate")).Some?
    ensures UnemploymentEntry(r).Some? ==>
      && UnemploymentEntry(r).value.0 == Norm(Field(r.members, "City").s)
      && IsKey(UnemploymentEntry(r).value.0)
      && UnemploymentEntry(r).value.1.0 == DigitsValue(Field(r.members, "Quarter").s[..4])
      && 0 <= UnemploymentEntry(r).value.1.0 <= 9999
      && Some(UnemploymentEntry(r).value.1.1) == AsFloat(Field(r.members, "Unemployment_Rate"))
  {
    if UnemploymentEntry(r).Some? {
      FourDigits(Field(r.members, "Quarter").s[..4]);
    }
  }

  /** Four digits spell a number of at most four digits. */
  lemma FourDigits(d: string)
    requires |d| == 4 && AllDigits(d)
    ensures DigitsValue(d) <= 9999
  {
    var d3 := d[..3];
    var d2 := d3[..2];
    var d1 := d2[..1];
    assert d1[..0] == [];
    assert DigitsValue(d1) <= 9;
    assert DigitsValue(d2) <= 99;
    assert DigitsValue(d3) <= 999;
  }

  /** The entries of the records, in order. */
  function Entries(rows: seq<Json>): (es: seq<Entry>)
    ensures |es| == |rows| && forall i :: 0 <= i < |rows| ==> es[i] == UnemploymentEntry(rows[i])
  {
    seq(|rows|, i requires 0 <= i < |rows| => UnemploymentEntry(rows[i]))
  }

  /** The year of a kept entry. */
  function YearAt(e: Entry): int
    requires e.Some?
  {
    e.value.1.0
  }

  /** The rate of a kept entry. */
  function RateAt(e: Entry): real
    requires e.Some?
  {
    e.value.1.1
  }

  // ---------------------------------------------------------------------------
  // Rates grouped by state and year
  // ---------------------------------------------------------------------------

  /** `by_state_year`: per state key, per year, the rates in input order. */
  type Groups = Dict<string, Dict<int, seq<real>>>

  /** `by_state_year.setdefault(k, {}).setdefault(y, []).append(v)`. */
  function AddRate(g: Groups, k: string, y: int, v: real): Groups {
    var ym := Get(g, k).GetOr([]);
    Put(g, k, Put(ym, y, Get(ym, y).GetOr([]) + [v]))
  }

  /** `by_state_year` after the loop has seen the records with entries `es`. */
  function GroupsOf(es: seq<Entry>): Groups {
    if es == [] then []
    else
      var n := |es| - 1;
      match es[n]
      case None => GroupsOf(es[..n])
      case Some(e) => AddRate(GroupsOf(es[..n]), e.0, e.1.0, e.1.1)
  }

  /** The rates kept under `k` for year `y`, in input order. */
  function Rates(es: seq<Entry>, k: string, y: int): seq<real> {
    if es == [] then []
    else
      var n := |es| - 1;
      Rates(es[..n], k, y) + (if HasKey(es[n], k) && YearAt(es[n]) == y then [RateAt(es[n])] else [])
  }

  /** The rates of one state by year, as `by_state_year` holds them for
      `k`: a year is present exactly when it has rates, with those rates. */
  ghost predicate GroupFor(es: seq<Entry>, k: string, ym: Dict<int, seq<real>>) {
    forall y :: Get(ym, y) == RatesOpt(es, k, y)
  }

  /** The years of a state: at least one, each with at least one rate. */
  predicate ValidYears(ym: Dict<int, seq<real>>) {
    ym != [] && forall yr :: yr in ym ==> yr.1 != []
  }

  /** What the summary loop may rely on: one entry per state, and valid
      years for each. */
  predicate WellGrouped(g: Groups) {
    DistinctKeys(g) && forall kv :: kv in g ==> ValidYears(kv.1)
  }

  // ---------------------------------------------------------------------------
  // The summary
  // ---------------------------------------------------------------------------

  function Sum(xs: seq<real>): real {
    if xs == [] then 0.0 else Sum(xs[..|xs| - 1]) + xs[|xs| - 1]
  }

  /** `statistics.mean`, as an exact real. */
  function Mean(xs: seq<real>): real
    requires xs != []
  {
    Sum(xs) / (|xs| as real)
  }

  /** `max(ks)`. */
  function MaxKey(ks: seq<int>): (m: int)
    requires ks != []
    ensures m in ks && forall x :: x in ks ==> x <= m
  {
    if |ks| == 1 then ks[0]
    else
      var m := MaxKey(ks[1..]);
      assert forall x :: x in ks ==> x == ks[0] || x in ks[1..];
      if ks[0] > m then ks[0] else m
  }

  /** The value of one state: the mean of the 2022 rates when there are
      any, else the mean of the rates of the latest year. */
  function StateRate(ym: Dict<int, seq<real>>): real
    requires ValidYears(ym)
  {
    var r := Get(ym, PreferredYear);
    if r.Some? && r.value != [] then Mean(r.value)
    else
      var latest := MaxKey(Keys(ym));
      Mean(Get(ym, latest).value)
  }

  /** `out` after the summary loop over `g`. */
  function Averages(g: Groups): (out: Dict<string, real>)
    requires forall kv :: kv in g ==> ValidYears(kv.1)
    ensures Keys(out) == Keys(g)
  {
    seq(|g|, i requires 0 <= i < |g| => (g[i].0, StateRate(g[i].1)))
  }

  /** The dict `load_unemployment_2022_avg_by_state_norm` returns for the
      parsed file `src`. */
  function UnemploymentOf(src: Option<Json>): Dict<string, real> {
    if src.None? || !src.value.JArray? then []
    else
      var g := GroupsOf(Entries(src.value.items));
      GroupsWell(Entries(src.value.items));
      Averages(g)
  }

  // ---------------------------------------------------------------------------
  // The loaders' loops
  // ---------------------------------------------------------------------------

  /** The checks of the first loop's body for one record, one by one with
      early exits as the loop runs them; `UnemploymentEntry` is their result
      as one expression, which the fold and the lemmas use, and the
      `ensures` ties the two. */
  method UnemploymentRow(r: Json) returns (e: Entry)
    ensures e == UnemploymentEntry(r)
  {
    e := None;
    if !r.JObject? {
      return;
    }
    var st := Field(r.members, "City");
    if !st.JString? {
      return;
    }
    var q := Field(r.members, "Quarter");
    if !q.JString? || |q.s| < 4 || !IsDigits(q.s[..4]) {
      return;
    }
    var year := QuarterYear(q);
    var rate := AsFloat(Field(r.members, "Unemployment_Rate"));
    if rate.None? {
      return;
    }
    e := Some((Norm(st.s), (year.value, rate.value)));
  }

  /** The summary loop: one mean per state, in the order of `g`. */
  method Summarise(g: Groups) returns (out: Dict<string, real>)
    requires WellGrouped(g)
    ensures out == Averages(g)
  {
    out := [];
    for i := 0 to |g|
      invariant forall kv :: kv in g[..i] ==> ValidYears(kv.1)
      invariant out == Averages(g[..i])
    {
      var (stKey, yearsMap) := g[i];
      assert g[i] in g;
      var v: real;
      var r := Get(yearsMap, PreferredYear);
      if r.Some? && r.value != [] {
        v := Mean(r.value);
      } else {
        var latest := MaxKey(Keys(yearsMap));
        v := Mean(Get(yearsMap, latest).value);
      }
      PrefixStep(g, i);
      out := Put(out, stKey, v);
    }
    assert g[..|g|] == g;
  }

  /** One more state of the summary, a key not seen before. */
  lemma PrefixStep(g: Groups, i: nat)
    requires WellGrouped(g) && i < |g|
    requires forall kv :: kv in g[..i] ==> ValidYears(kv.1)
    ensures forall kv :: kv in g[..i + 1] ==> ValidYears(kv.1)
    ensures g[i].0 !in Keys(g[..i])
    ensures Averages(g[..i + 1]) == Averages(g[..i]) + [(g[i].0, StateRate(g[i].1))]
  {
    assert g[..i + 1] == g[..i] + [g[i]];
    assert g[i] in g;
    forall j | 0 <= j < i ensures g[..i][j].0 != g[i].0 {
      assert Keys(g)[j] == g[j].0 && Keys(g)[i] == g[i].0;
    }
  }

  /** `load_unemployment_2022_avg_by_state_norm`, given the parsed file. */
  method LoadUnemployment(src: Option<Json>) returns (out: Dict<string, real>)
    ensures src.None? || !src.value.JArray? ==> out == []
    ensures out == UnemploymentOf(src)
  {
    out := [];
    if src.None? {
      return;
    }
    if !src.value.JArray? {
      return;
    }
    var rows := src.value.items;
    var es := Entries(rows);
    var g: Groups := [];
    for i := 0 to |rows|
      invariant g == GroupsOf(es[..i])
    {
      assert es[..i + 1][..i] == es[..i];
      var e := UnemploymentRow(rows[i]);
      if e.Some? {
        var key := e.value.0;
        var year := e.value.1.0;
        var yearsMap := Get(g, key).GetOr([]);
        var rates := Get(yearsMap, year).GetOr([]);
        g := Put(g, key, Put(yearsMap, year, rates + [e.value.1.1]));
      }
    }
    assert es[..|rows|] == es;
    GroupsWell(es);
    out := Summarise(g);
  }

  // ---------------------------------------------------------------------------
  // Properties
  // ---------------------------------------------------------------------------

  /** Every item of `d[k] = v` is the new one or was in `d`. */
  lemma {:induction false} PutItems<K, V>(d: Dict<K, V>, k: K, v: V)
    ensures forall x :: x in Put(d, k, v) ==> x == (k, v) || x in d
  {
    if d != [] && d[0].0 != k {
      PutItems(d[1..], k, v);
      assert Put(d, k, v) == [d[0]] + Put(d[1..], k, v);
    }
  }

  /** Adding a rate keeps one entry per state and valid years. */
  lemma AddRateWell(g: Groups, k: string, y: int, v: real)
    requires WellGrouped(g)
    ensures WellGrouped(AddRate(g, k, y, v))
  {
    var ym := Get(g, k).GetOr([]);
    var ym' := Put(ym, y, Get(ym, y).GetOr([]) + [v]);
    PutItems(ym, y, Get(ym, y).GetOr([]) + [v]);
    assert ym' != [] by {
      assert y in Keys(ym');
    }
    if Get(g, k).Some? {
      assert (k, ym) in g;
    }
    assert ValidYears(ym');
    PutItems(g, k, ym');
    PutKeepsDistinct(g, k, ym');
  }

  /** `by_state_year` always has one entry per state and valid years. */
  lemma {:induction false} GroupsWell(es: seq<Entry>)
    ensures WellGrouped(GroupsOf(es))
  {
    if es == [] {
      assert DistinctKeys<string, Dict<int, seq<real>>>([]);
    } else {
      var n := |es| - 1;
      GroupsWell(es[..n]);
      if es[n].Some? {
        AddRateWell(GroupsOf(es[..n]), es[n].value.0, es[n].value.1.0, es[n].value.1.1);
      }
    }
  }

  /** The rates of `k` and `y` with one more entry. */
  lemma RatesStep(es: seq<Entry>, k: string, y: int)
    requires es != []
    ensures Rates(es, k, y) ==
      Rates(es[..|es| - 1], k, y) +
      (if HasKey(es[|es| - 1], k) && YearAt(es[|es| - 1]) == y then [RateAt(es[|es| - 1])] else [])
  {
  }

  /** The rates of `k` and `y` as `by_state_year` holds them: none for a
      year without rates. */
  function RatesOpt(es: seq<Entry>, k: string, y: int): Option<seq<real>> {
    if Rates(es, k, y) == [] then None else Some(Rates(es, k, y))
  }

  /** The years `by_state_year` holds for `k`, empty when it has none. */
  function YearsOf(g: Groups, k: string): Dict<int, seq<real>> {
    Get(g, k).GetOr([])
  }

  /** `by_state_year` after one more entry. */
  lemma GroupsStep(es: seq<Entry>)
    requires es != []
    ensures GroupsOf(es) ==
      if es[|es| - 1].None? then GroupsOf(es[..|es| - 1])
      else AddRate(GroupsOf(es[..|es| - 1]), es[|es| - 1].value.0, es[|es| - 1].value.1.0, es[|es| - 1].value.1.1)
  {
  }

  /** What adding a rate does to the rates held for state `k` and year `y`. */
  lemma AddRateGet(g: Groups, k0: string, y0: int, v: real, k: string, y: int)
    ensures Get(YearsOf(AddRate(g, k0, y0, v), k), y) ==
      if k == k0 && y == y0 then Some(Get(YearsOf(g, k), y).GetOr([]) + [v]) else Get(YearsOf(g, k), y)
  {
    var ym0 := YearsOf(g, k0);
    var ym' := Put(ym0, y0, Get(ym0, y0).GetOr([]) + [v]);
    assert AddRate(g, k0, y0, v) == Put(g, k0, ym');
    GetPut(g, k0, ym', k);
    GetPut(ym0, y0, Get(ym0, y0).GetOr([]) + [v], y);
  }

  /** Adding a rate to `g` when `g` holds `rs` for `k` and `y`. */
  lemma AddRateHolds(g: Groups, k0: string, y0: int, v: real, k: string, y: int, rs: seq<real>)
    requires Get(YearsOf(g, k), y) == if rs == [] then None else Some(rs)
    ensures var rs' := if k == k0 && y == y0 then rs + [v] else rs;
      Get(YearsOf(AddRate(g, k0, y0, v), k), y) == if rs' == [] then None else Some(rs')
  {
    AddRateGet(g, k0, y0, v, k, y);
  }

  /** One more entry keeps `by_state_year` holding exactly the rates. */
  lemma GroupsRatesStep(es: seq<Entry>, k: string, y: int)
    requires es != []
    requires Get(YearsOf(GroupsOf(es[..|es| - 1]), k), y) == RatesOpt(es[..|es| - 1], k, y)
    ensures Get(YearsOf(GroupsOf(es), k), y) == RatesOpt(es, k, y)
  {
    var n := |es| - 1;
    var rs := Rates(es[..n], k, y);
    RatesStep(es, k, y);
    GroupsStep(es);
    if es[n].Some? {
      var e := es[n].value;
      var g0 := GroupsOf(es[..n]);
      assert GroupsOf(es) == AddRate(g0, e.0, e.1.0, e.1.1);
      AddRateHolds(g0, e.0, e.1.0, e.1.1, k, y, rs);
      var rs' := if k == e.0 && y == e.1.0 then rs + [e.1.1] else rs;
      assert Rates(es, k, y) == rs';
      assert Get(YearsOf(GroupsOf(es), k), y) == if rs' == [] then None else Some(rs');
      assert RatesOpt(es, k, y) == if rs' == [] then None else Some(rs');
    } else {
      assert GroupsOf(es) == GroupsOf(es[..n]);
      assert Rates(es, k, y) == rs;
    }
  }

  /** `by_state_year` holds, for each state and year, exactly its rates. */
  lemma {:induction false} GroupsRates(es: seq<Entry>, k: string, y: int)
    ensures Get(YearsOf(GroupsOf(es), k), y) == RatesOpt(es, k, y)
  {
    if es != [] {
      GroupsRates(es[..|es| - 1], k, y);
      GroupsRatesStep(es, k, y);
    }
  }

  lemma GroupsFor(es: seq<Entry>, k: string)
    ensures GroupFor(es, k, YearsOf(GroupsOf(es), k))
  {
    forall y {
      GroupsRates(es, k, y);
    }
  }

  /** A year has rates for `k` only when some entry kept under `k` has that
      year. */
  lemma {:induction false} RatesHaveEntry(es: seq<Entry>, k: string, y: int)
    requires Rates(es, k, y) != []
    ensures exists j :: 0 <= j < |es| && HasKey(es[j], k) && YearAt(es[j]) == y
  {
    var n := |es| - 1;
    RatesStep(es, k, y);
    if !(HasKey(es[n], k) && YearAt(es[n]) == y) {
      RatesHaveEntry(es[..n], k, y);
      var j :| 0 <= j < n && HasKey(es[..n][j], k) && YearAt(es[..n][j]) == y;
      assert es[..n][j] == es[j];
    }
  }

  /** An entry kept under `k` gives its year rates. */
  lemma {:induction false} EntryHasRates(es: seq<Entry>, k: string, j: nat)
    requires j < |es| && HasKey(es[j], k)
    ensures Rates(es, k, YearAt(es[j])) != []
  {
    var n := |es| - 1;
    RatesStep(es, k, YearAt(es[j]));
    if j < n {
      assert es[..n][j] == es[j];
      EntryHasRates(es[..n], k, j);
    }
  }

  /** The value the summary gives to the years of a state, when those years
      hold exactly its rates. */
  lemma StateRateOf(es: seq<Entry>, k: string, ym: Dict<int, seq<real>>)
    requires ValidYears(ym) && GroupFor(es, k, ym)
    ensures Rates(es, k, PreferredYear) != [] ==> StateRate(ym) == Mean(Rates(es, k, PreferredYear))
    ensures Rates(es, k, PreferredYear) == [] ==>
      exists y :: IsLatest(es, k, y) && StateRate(ym) == Mean(Rates(es, k, y))
  {
    if Rates(es, k, PreferredYear) == [] {
      var latest := MaxKey(Keys(ym));
      assert Get(ym, latest).Some?;
      forall y | Rates(es, k, y) != [] ensures y <= latest {
        assert Get(ym, y).Some?;
      }
      assert IsLatest(es, k, latest);
    }
  }

  /** `y` has rates for `k`, and no later year has. */
  ghost predicate IsLatest(es: seq<Entry>, k: string, y: int) {
    Rates(es, k, y) != [] && forall y' :: Rates(es, k, y') != [] ==> y' <= y
  }

  /** The summary of `g` holds, under each key of `g`, the value of its
      years. */
  lemma {:induction false} AveragesGet(g: Groups, k: string)
    requires forall kv :: kv in g ==> ValidYears(kv.1)
    ensures Get(g, k).Some? ==> ValidYears(Get(g, k).value)
    ensures Get(Averages(g), k) == if Get(g, k).None? then None else Some(StateRate(Get(g, k).value))
  {
    if g != [] {
      assert forall kv :: kv in g[1..] ==> kv in g;
      AveragesGet(g[1..], k);
      var out := Averages(g);
      assert out[0] == (g[0].0, StateRate(g[0].1)) by {
        assert g[0] in g;
      }
      assert out[1..] == Averages(g[1..]);
      GetFirst(g, k);
      GetFirst(out, k);
    }
  }

  /** Looking up a key in a non-empty dict tries its first item first. */
  lemma GetFirst<V>(d: Dict<string, V>, k: string)
    requires d != []
    ensures Get(d, k) == if d[0].0 == k then Some(d[0].1) else Get(d[1..], k)
  {
  }

  /** `by_state_year` has a state exactly when some entry is kept under
      its key. */
  lemma GroupsHaveKey(es: seq<Entry>, k: string)
    ensures Get(GroupsOf(es), k).Some? <==> exists i :: 0 <= i < |es| && HasKey(es[i], k)
  {
    GroupsWell(es);
    GroupsFor(es, k);
    var g := GroupsOf(es);
    if Get(g, k).Some? {
      var ym: Dict<int, seq<real>> := Get(g, k).value;
      assert (k, ym) in g;
      var y := ym[0].0;
      assert y in Keys(ym);
      assert RatesOpt(es, k, y).Some?;
      RatesHaveEntry(es, k, y);
    }
    if exists i :: 0 <= i < |es| && HasKey(es[i], k) {
      var i :| 0 <= i < |es| && HasKey(es[i], k);
      EntryHasRates(es, k, i);
      assert RatesOpt(es, k, YearAt(es[i])).Some?;
    }
  }

  /** The summary of `by_state_year` for one state. */
  lemma AveragesOf(es: seq<Entry>, k: string)
    ensures WellGrouped(GroupsOf(es))
    ensures var r := Get(Averages(GroupsOf(es)), k);
      && (r.Some? <==> exists i :: 0 <= i < |es| && HasKey(es[i], k))
      && (r.Some? && Rates(es, k, PreferredYear) != [] ==> r.value == Mean(Rates(es, k, PreferredYear)))
      && (r.Some? && Rates(es, k, PreferredYear) == [] ==>
            exists y :: IsLatest(es, k, y) && r.value == Mean(Rates(es, k, y)))
  {
    var g := GroupsOf(es);
    GroupsWell(es);
    AveragesGet(g, k);
    GroupsHaveKey(es, k);
    if Get(g, k).Some? {
      GroupsFor(es, k);
      StateRateOf(es, k, Get(g, k).value);
    }
  }

  /** Each state appears once, exactly when some record is kept under its
      key. Its value is the mean of its 2022 rates when it has any, and
      otherwise the mean of the rates of its latest year; either way the
      list averaged is not empty. A missing file or one that is not a list
      gives no states. */
  lemma UnemploymentLoaded(src: Option<Json>, k: string)
    ensures src.None? || !src.value.JArray? ==> UnemploymentOf(src) == []
    ensures DistinctKeys(UnemploymentOf(src))
    ensures src.Some? && src.value.JArray? ==>
      var es := Entries(src.value.items);
      var r := Get(UnemploymentOf(src), k);
      && (r.Some? <==> exists i :: 0 <= i < |es| && HasKey(es[i], k))
      && (r.Some? && Rates(es, k, PreferredYear) != [] ==> r.value == Mean(Rates(es, k, PreferredYear)))
      && (r.Some? && Rates(es, k, PreferredYear) == [] ==>
            exists y :: IsLatest(es, k, y) && r.value == Mean(Rates(es, k, y)))
  {
    if src.Some? && src.value.JArray? {
      var es := Entries(src.value.items);
      AveragesOf(es, k);
      assert UnemploymentOf(src) == Averages(GroupsOf(es));
    } else {
      assert DistinctKeys<string, real>([]);
    }
  }
}
