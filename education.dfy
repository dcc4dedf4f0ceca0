/**
 * `load_education_latest_by_state_norm`: the mean years of schooling per
 * state from the latest year on record, keyed by the normalised state name.
 * Among records of one state the one with the highest year wins, and among
 * those with that year the first one. The parsed file is `None` when it is
 * missing; anything but a list gives an empty dict.
 */
module Education {
  import opened Wrappers
  import opened PyStr
  import opened Dicts
  import opened Json
  import opened StateNames
  import opened Coerce
  import opened Records

  // ---------------------------------------------------------------------------
  // One record
  // ---------------------------------------------------------------------------

  /** `int(r)` for a float: the integer part, rounding toward zero. */
  function Truncate(r: real): (n: int)
    ensures r >= 0.0 ==> n as real <= r < n as real + 1.0
    ensures r < 0.0 ==> n as real - 1.0 < r <= n as real
  {
    if r >= 0.0 then r.Floor else -((-r).Floor)
  }

  /** `int(t)` for text already stripped: an optional sign and at least one
      ASCII digit, nothing else. */
  function ParseInt(t: string): (n: Option<int>)
    ensures n.Some? ==> t != []
  {
    var ds := if t != [] && (t[0] == '+' || t[0] == '-') then t[1..] else t;
    if ds != [] && AllDigits(ds) then
      Some(if t[0] == '-' then -(DigitsValue(ds) as int) else DigitsValue(ds))
    else None
  }

  /** `int(year)`, `None` where it raises: integers as they are, booleans as
      1 and 0, floats rounded toward zero, text with surrounding whitespace
      read by `ParseInt`; `None`, lists and dicts raise. */
  function YearOf(v: Json): Option<int> {
    match v
    case JNull => None
    case JBool(b) => Some(if b then 1 else 0)
    case JInt(i) => Some(i)
    case JFloat(r) => Some(Truncate(r))
    case JString(s) => ParseInt(Strip(s))
    case JArray(_) => None
    case JObject(_) => None
  }

  /** What one record contributes: its key with its year and years of
      schooling, `None` when the loader `continue`s. */
  function EducationEntry(r: Json): Option<(string, (int, real))> {
    if !r.JObject? then None
    else
      var st := Field(r.members, "State");
      if !st.JString? then None
      else
        match YearOf(Field(r.members, "Year"))
        case None => None
        case Some(y) =>
          match AsFloat(Field(r.members, "Years_Schooling"))
          case None => None
          case Some(ys) => Some((Norm(st.s), (y, ys)))
  }

  /** A record is kept exactly when it is an object whose `State` is a
      string, whose `Year` `int()` accepts and whose `Years_Schooling`
      `as_float` can read; it is keyed by the normalised state and holds
      that year and value. */
  lemma EducationKept(r: Json)
    ensures EducationEntry(r).Some? <==>
      && r.JObject? && Field(r.members, "State").JString?
      && YearOf(Field(r.members, "Year")).Some?
      && AsFloat(Field(r.members, "Years_Schooling")).Some?
    ensures EducationEntry(r).Some? ==>
      && EducationEntry(r).value.0 == Norm(Field(r.members, "State").s)
      && IsKey(EducationEntry(r).value.0)
      && Some(EducationEntry(r).value.1.0) == YearOf(Field(r.members, "Year"))
      && Some(EducationEntry(r).value.1.1) == AsFloat(Field(r.members, "Years_Schooling"))
  {
  }

  /** A year written as ASCII digits after an optional sign, with
      whitespace around it, reads as that number. */
  lemma YearOfDigits(w1: string, sign: string, d: string, w2: string)
    requires AllSpace(w1) && AllSpace(w2)
    requires sign == "" || sign == "+" || sign == "-"
    requires d != [] && AllDigits(d)
    ensures YearOf(JString(w1 + sign + d + w2)) == Some(if sign == "-" then -(DigitsValue(d) as int) else DigitsValue(d))
  {
    var t := sign + d;
    assert w1 + sign + d + w2 == w1 + t + w2;
    assert t[|t| - 1] == d[|d| - 1];
    assert !IsSpace(t[0]) && !IsSpace(t[|t| - 1]);
    StripPadded(w1, t, w2);
    ParseIntSigned(sign, d);
  }

  lemma ParseIntSigned(sign: string, d: string)
    requires sign == "" || sign == "+" || sign == "-"
    requires d != [] && AllDigits(d)
    ensures ParseInt(sign + d) == Some(if sign == "-" then -(DigitsValue(d) as int) else DigitsValue(d))
  {
    var t := sign + d;
    if sign == "" {
      assert t == d;
    } else {
      assert t[0] == sign[0] && t[1..] == d;
    }
  }

  /** A blank year is refused. */
  lemma YearOfBlank(w: string)
    requires AllSpace(w)
    ensures YearOf(JString(w)) == None
  {
  }

  /** A record reduced to what the loader keeps of it. */
  type Entry = Option<(string, (int, real))>

  /** The entries of the records, in order. */
  function Entries(rows: seq<Json>): (es: seq<Entry>)
    ensures |es| == |rows| && forall i :: 0 <= i < |rows| ==> es[i] == EducationEntry(rows[i])
  {
    seq(|rows|, i requires 0 <= i < |rows| => EducationEntry(rows[i]))
  }

  /** The year of a kept entry. */
  function YearAt(e: Entry): int
    requires e.Some?
  {
    e.value.1.0
  }

  // ---------------------------------------------------------------------------
  // The latest record per state
  // ---------------------------------------------------------------------------

  /** One step of the loop: `if prev is None or y > prev[0]: best[key] = (y, ys)`. */
  function Improve(best: Dict<string, (int, real)>, e: Entry): Dict<string, (int, real)> {
    match e
    case None => best
    case Some(kv) =>
      match Get(best, kv.0)
      case None => Put(best, kv.0, kv.1)
      case Some(prev) => if kv.1.0 > prev.0 then Put(best, kv.0, kv.1) else best
  }

  /** `best` after the loop has seen the records with entries `es`. */
  function BestOf(es: seq<Entry>): Dict<string, (int, real)> {
    if es == [] then []
    else
      var n := |es| - 1;
      Improve(BestOf(es[..n]), es[n])
  }

  /** `{k: v for k, (_, v) in best.items()}`. */
  function DropYears(best: Dict<string, (int, real)>): (out: Dict<string, real>)
    ensures Keys(out) == Keys(best)
  {
    seq(|best|, i requires 0 <= i < |best| => (best[i].0, best[i].1.1))
  }

  /** The dict `load_education_latest_by_state_norm` returns for the parsed
      file `src`. */
  function EducationOf(src: Option<Json>): Dict<string, real> {
    if src.None? || !src.value.JArray? then [] else DropYears(BestOf(Entries(src.value.items)))
  }

  /** The checks of the loop body for one record, one by one with early
      exits as the loop runs them; `EducationEntry` is their result as one
      expression, which the fold and the lemmas use, and the `ensures` ties
      the two. */
  method EducationRow(r: Json) returns (e: Entry)
    ensures e == EducationEntry(r)
  {
    e := None;
    if !r.JObject? {
      return;
    }
    var st := Field(r.members, "State");
    if !st.JString? {
      return;
    }
    var y := YearOf(Field(r.members, "Year"));
    if y.None? {
      return;
    }
    var ys := AsFloat(Field(r.members, "Years_Schooling"));
    if ys.None? {
      return;
    }
    e := Some((Norm(st.s), (y.value, ys.value)));
  }

  /** `load_education_latest_by_state_norm`, given the parsed file. */
  method LoadEducation(src: Option<Json>) returns (out: Dict<string, real>)
    ensures src.None? || !src.value.JArray? ==> out == []
    ensures src.Some? && src.value.JArray? ==> out == DropYears(BestOf(Entries(src.value.items)))
    ensures out == EducationOf(src)
  {
    out := [];
    if src.None? {
      return;
    }
    if !src.value.JArray? {
      return;
    }
    var rows := src.value.items;
    var es := Entries(rows);
    var best: Dict<string, (int, real)> := [];
    for i := 0 to |rows|
      invariant best == BestOf(es[..i])
    {
      BestStep(es, i);
      var e := EducationRow(rows[i]);
      ghost var before := best;
      if e.Some? {
        var key := e.value.0;
        var prev := Get(best, key);
        if prev.None? || e.value.1.0 > prev.value.0 {
          best := Put(best, key, e.value.1);
        }
      }
      assert best == Improve(before, es[i]);
    }
    assert es[..|rows|] == es;
    out := DropYears(best);
  }

  // ---------------------------------------------------------------------------
  // Properties
  // ---------------------------------------------------------------------------

  /** The entry at `i` is `(k, (y, v))`, no entry kept under `k` has a later
      year, and every entry kept under `k` before it has an earlier year: it
      is the first record of the latest year. */
  ghost predicate BestAt(es: seq<Entry>, k: string, y: int, v: real, i: nat) {
    && i < |es| && es[i] == Some((k, (y, v)))
    && (forall j :: 0 <= j < |es| && HasKey(es[j], k) ==> YearAt(es[j]) <= y)
    && (forall j :: 0 <= j < i && HasKey(es[j], k) ==> YearAt(es[j]) < y)
  }

  /** One more record is one more step. */
  lemma BestStep(es: seq<Entry>, i: nat)
    requires i < |es|
    ensures BestOf(es[..i + 1]) == Improve(BestOf(es[..i]), es[i])
  {
    assert es[..i + 1][..i] == es[..i];
  }

  /** What one step does to the keys. */
  lemma ImproveKeys(best: Dict<string, (int, real)>, e: Entry, k: string)
    ensures k in Keys(Improve(best, e)) <==> k in Keys(best) || HasKey(e, k)
    ensures DistinctKeys(best) ==> DistinctKeys(Improve(best, e))
  {
    if e.Some? {
      PutKeepsDistinct(best, e.value.0, e.value.1);
    }
  }

  /** What one step does to the value under `k`. */
  lemma ImproveGet(best: Dict<string, (int, real)>, e: Entry, k: string)
    ensures Get(Improve(best, e), k) ==
      if HasKey(e, k) && (Get(best, k).None? || YearAt(e) > Get(best, k).value.0) then Some(e.value.1)
      else Get(best, k)
  {
    if e.Some? {
      GetPut(best, e.value.0, e.value.1, k);
    }
  }

  /** A state is in `best` exactly when some record is kept under its key,
      and no state is in it twice. */
  lemma {:induction false} BestKeys(es: seq<Entry>, k: string)
    ensures DistinctKeys(BestOf(es))
    ensures k in Keys(BestOf(es)) <==> exists i :: 0 <= i < |es| && HasKey(es[i], k)
  {
    if es == [] {
      assert DistinctKeys<string, (int, real)>([]);
    } else {
      var n := |es| - 1;
      var init := es[..n];
      BestKeys(init, k);
      ImproveKeys(BestOf(init), es[n], k);
      if exists i :: 0 <= i < n && HasKey(init[i], k) {
        var i :| 0 <= i < n && HasKey(init[i], k);
        assert es[i] == init[i];
      }
      if exists i :: 0 <= i < |es| && HasKey(es[i], k) {
        var i :| 0 <= i < |es| && HasKey(es[i], k);
        if i < n {
          assert init[i] == es[i];
        }
      }
    }
  }

  /** The first entry of the latest year among all but the last stays so
      when the last is not kept under that key or has no later year. */
  lemma BestAtExtend(es: seq<Entry>, k: string, y: int, v: real, i: nat)
    requires es != [] && BestAt(es[..|es| - 1], k, y, v, i)
    requires !HasKey(es[|es| - 1], k) || YearAt(es[|es| - 1]) <= y
    ensures BestAt(es, k, y, v, i)
  {
    var init := es[..|es| - 1];
    assert forall j :: 0 <= j < |init| ==> init[j] == es[j];
  }

  /** The last entry is the first of the latest year when every earlier
      entry kept under its key has an earlier year. */
  lemma BestAtLast(es: seq<Entry>, k: string, y: int, v: real)
    requires es != [] && es[|es| - 1] == Some((k, (y, v)))
    requires forall j :: 0 <= j < |es| - 1 && HasKey(es[j], k) ==> YearAt(es[j]) < y
    ensures BestAt(es, k, y, v, |es| - 1)
  {
  }

  /** When `best` has no `k` before the last entry, no entry before it is
      kept under `k`. */
  lemma NoneBefore(es: seq<Entry>, k: string)
    requires es != [] && k !in Keys(BestOf(es[..|es| - 1]))
    ensures forall j :: 0 <= j < |es| - 1 ==> !HasKey(es[j], k)
  {
    var init := es[..|es| - 1];
    BestKeys(init, k);
    forall j | 0 <= j < |es| - 1 ensures !HasKey(es[j], k) {
      assert init[j] == es[j];
    }
  }

  /** When the first entry of the latest year under `k` before the last has
      year `py` and the last entry has a later one, every entry before the
      last kept under `k` has an earlier year. */
  lemma EarlierBefore(es: seq<Entry>, k: string, py: int, pv: real, i: nat, y: int)
    requires es != [] && BestAt(es[..|es| - 1], k, py, pv, i) && py < y
    ensures forall j :: 0 <= j < |es| - 1 && HasKey(es[j], k) ==> YearAt(es[j]) < y
  {
    var init := es[..|es| - 1];
    assert forall j :: 0 <= j < |init| ==> init[j] == es[j];
  }

  /** Every value in `best` comes from the first record of the latest year
      of its state. */
  lemma {:induction false} BestFound(es: seq<Entry>, k: string, y: int, v: real)
    requires Get(BestOf(es), k) == Some((y, v))
    ensures exists i: nat :: BestAt(es, k, y, v, i)
  {
    var n := |es| - 1;
    var init := es[..n];
    var b := BestOf(init);
    ImproveGet(b, es[n], k);
    if HasKey(es[n], k) && (Get(b, k).None? || YearAt(es[n]) > Get(b, k).value.0) {
      if Get(b, k).None? {
        NoneBefore(es, k);
      } else {
        var (py, pv) := Get(b, k).value;
        BestFound(init, k, py, pv);
        var i: nat :| BestAt(init, k, py, pv, i);
        EarlierBefore(es, k, py, pv, i, y);
      }
      BestAtLast(es, k, y, v);
    } else {
      BestFound(init, k, y, v);
      var i: nat :| BestAt(init, k, y, v, i);
      BestAtExtend(es, k, y, v, i);
    }
  }

  /** Only one record is the first of the latest year. */
  lemma BestAtUnique(es: seq<Entry>, k: string, y: int, v: real, i: nat, y': int, v': real, i': nat)
    requires BestAt(es, k, y, v, i) && BestAt(es, k, y', v', i')
    ensures i == i' && y == y' && v == v'
  {
    assert HasKey(es[i], k) && HasKey(es[i'], k);
  }

  /** `best` holds `(y, v)` under `k` exactly when the first record of the
      latest year kept under `k` holds them. */
  lemma BestWins(es: seq<Entry>, k: string, y: int, v: real)
    ensures Get(BestOf(es), k) == Some((y, v)) <==> exists i: nat :: BestAt(es, k, y, v, i)
  {
    if Get(BestOf(es), k) == Some((y, v)) {
      BestFound(es, k, y, v);
    }
    if exists i: nat :: BestAt(es, k, y, v, i) {
      var i: nat :| BestAt(es, k, y, v, i);
      BestKeys(es, k);
      assert HasKey(es[i], k);
      var (y', v') := Get(BestOf(es), k).value;
      BestFound(es, k, y', v');
      var i': nat :| BestAt(es, k, y', v', i');
      BestAtUnique(es, k, y, v, i, y', v', i');
    }
  }

  /** Dropping the years keeps every state and its value. */
  lemma {:induction false} DropYearsGet(best: Dict<string, (int, real)>, k: string)
    ensures Get(DropYears(best), k) == match Get(best, k) case None => None case Some(p) => Some(p.1)
  {
    if best != [] {
      DropYearsGet(best[1..], k);
      assert DropYears(best)[1..] == DropYears(best[1..]);
    }
  }

  /** Each state appears once, exactly when some record is kept under its
      key, and it holds the years of schooling of the first record of the
      latest year kept under its key: a later year replaces an earlier one,
      the same year does not. A missing file or one that is not a list gives
      no states. */
  lemma EducationLoaded(src: Option<Json>, k: string, v: real)
    ensures src.None? || !src.value.JArray? ==> EducationOf(src) == []
    ensures DistinctKeys(EducationOf(src))
    ensures src.Some? && src.value.JArray? ==>
      && (k in Keys(EducationOf(src)) <==>
            exists i :: 0 <= i < |src.value.items| && HasKey(EducationEntry(src.value.items[i]), k))
      && (Get(EducationOf(src), k) == Some(v) <==> exists i: nat, y: int :: BestAt(Entries(src.value.items), k, y, v, i))
  {
    if src.Some? && src.value.JArray? {
      var es := Entries(src.value.items);
      BestKeys(es, k);
      DropYearsGet(BestOf(es), k);
      if Get(EducationOf(src), k) == Some(v) {
        var y := Get(BestOf(es), k).value.0;
        BestWins(es, k, y, v);
      }
      if exists i: nat, y: int :: BestAt(es, k, y, v, i) {
        var i: nat, y: int :| BestAt(es, k, y, v, i);
        BestWins(es, k, y, v);
      }
    } else {
      assert DistinctKeys<string, real>([]);
    }
  }
}
