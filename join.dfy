/**
 * `build_long_rows`: the long table the chart reads, one row per state of
 * the Bolsa Familia baseline and per dimension that has a value for that
 * state, in the order of the baseline and, within a state, sanitation,
 * education, unemployment.
 */
module Join {
  import opened Wrappers
  import opened Dicts
  import opened Json
  import Baseline
  import Sanitation
  import Education
  import Unemployment

  /** One output row: `{"UF", "State", "bf_total", "dimension", "value"}`. */
  datatype LongRow = LongRow(uf: string, state: string, bfTotal: real, dimension: string, value: real)

  /** The `dimension` labels. */
  const SanitationLabel: string := "Sanitation access (%)"
  const EducationLabel: string := "Education (years)"
  const UnemploymentLabel: string := "Unemployment (%)"

  /** The `added` and `missing` counters, one per dimension. */
  datatype Counts = Counts(sanitation: nat, education: nat, unemployment: nat)

  const NoCounts: Counts := Counts(0, 0, 0)

  /** The row a metric gives one baseline state: none when the metric has
      no value under the state's key. */
  function RowFor(s: (string, Baseline.BfEntry), dim: string, metric: Dict<string, real>): seq<LongRow> {
    match Get(metric, s.0)
    case None => []
    case Some(v) => [LongRow(s.1.uf, s.1.state, s.1.bfTotal, dim, v)]
  }

  /** The rows of one baseline state, in the order of the loop body. */
  function StateRows(s: (string, Baseline.BfEntry), san: Dict<string, real>, edu: Dict<string, real>, unemp: Dict<string, real>): seq<LongRow> {
    RowFor(s, SanitationLabel, san) + RowFor(s, EducationLabel, edu) + RowFor(s, UnemploymentLabel, unemp)
  }

  /** The rows of the states of `bf`, in order. */
  function LongRows(bf: Dict<string, Baseline.BfEntry>, san: Dict<string, real>, edu: Dict<string, real>, unemp: Dict<string, real>): seq<LongRow> {
    if bf == [] then []
    else LongRows(bf[..|bf| - 1], san, edu, unemp) + StateRows(bf[|bf| - 1], san, edu, unemp)
  }

  /** 1 when `metric` has a value under `key`, else 0. */
  function Hit(metric: Dict<string, real>, key: string): nat {
    if Get(metric, key).Some? then 1 else 0
  }

  /** How many states of `bf` have a value in `metric`. */
  function Present(bf: Dict<string, Baseline.BfEntry>, metric: Dict<string, real>): (n: nat)
    ensures n <= |bf|
  {
    if bf == [] then 0 else Present(bf[..|bf| - 1], metric) + Hit(metric, bf[|bf| - 1].0)
  }

  /** The rows `build_long_rows` returns for the four loaded dicts. */
  function LongTable(bf: Dict<string, Baseline.BfEntry>, san: Dict<string, real>, edu: Dict<string, real>, unemp: Dict<string, real>): seq<LongRow> {
    if bf == [] then [] else LongRows(bf, san, edu, unemp)
  }

  /** `build_long_rows`, given the four parsed files (`None` for a missing
      one). It also returns its `added` and `missing` counters, which stay
      zero when the baseline is empty. */
  method BuildLongRows(bfSrc: Option<seq<Json>>, sanSrc: Option<Json>, eduSrc: Option<Json>, unempSrc: Option<Json>)
    returns (out: seq<LongRow>, added: Counts, missing: Counts)
    ensures var bf := Baseline.BaselineOf(bfSrc);
      var san := Sanitation.SanitationOf(sanSrc);
      var edu := Education.EducationOf(eduSrc);
      var unemp := Unemployment.UnemploymentOf(unempSrc);
      && out == LongTable(bf, san, edu, unemp)
      && (bf == [] ==> out == [] && added == NoCounts && missing == NoCounts)
      && (bf != [] ==> added == Counts(Present(bf, san), Present(bf, edu), Present(bf, unemp)))
      && added.sanitation + missing.sanitation == |bf|
      && added.education + missing.education == |bf|
      && added.unemployment + missing.unemployment == |bf|
      && |out| == added.sanitation + added.education + added.unemployment
  {
    var bf := Baseline.LoadBaseline(bfSrc);
    if bf == [] {
      return [], NoCounts, NoCounts;
    }
    var san := Sanitation.LoadSanitation(sanSrc);
    var edu := Education.LoadEducation(eduSrc);
    var unemp := Unemployment.LoadUnemployment(unempSrc);
    out, added, missing := JoinLoop(bf, san, edu, unemp);
  }

  /** The loop of `build_long_rows` over the baseline's states. */
  method JoinLoop(bf: Dict<string, Baseline.BfEntry>, san: Dict<string, real>, edu: Dict<string, real>, unemp: Dict<string, real>)
    returns (out: seq<LongRow>, added: Counts, missing: Counts)
    ensures out == LongRows(bf, san, edu, unemp)
    ensures added == Counts(Present(bf, san), Present(bf, edu), Present(bf, unemp))
    ensures added.sanitation + missing.sanitation == |bf|
    ensures added.education + missing.education == |bf|
    ensures added.unemployment + missing.unemployment == |bf|
    ensures |out| == added.sanitation + added.education + added.unemployment
  {
    out, added, missing := [], NoCounts, NoCounts;
    for i := 0 to |bf|
      invariant out == LongRows(bf[..i], san, edu, unemp)
      invariant added == Counts(Present(bf[..i], san), Present(bf[..i], edu), Present(bf[..i], unemp))
      invariant added.sanitation + missing.sanitation == i
      invariant added.education + missing.education == i
      invariant added.unemployment + missing.unemployment == i
      invariant |out| == added.sanitation + added.education + added.unemployment
    {
      JoinStep(bf, i, san, edu, unemp);
      out, added, missing := AppendState(out, added, missing, bf[i], san, edu, unemp);
    }
    assert bf[..|bf|] == bf;
  }

  /** The body of the loop for one baseline state: its rows and counts,
      appended and counted one dimension at a time as the loop does.
      `StateRows` is the same rows as one expression, which `LongRows` and
      the lemmas use, and the `ensures` ties the two. */
  method AppendState(out: seq<LongRow>, added: Counts, missing: Counts, s: (string, Baseline.BfEntry),
                     san: Dict<string, real>, edu: Dict<string, real>, unemp: Dict<string, real>)
    returns (out': seq<LongRow>, added': Counts, missing': Counts)
    ensures out' == out + StateRows(s, san, edu, unemp)
    ensures added' == Counts(added.sanitation + Hit(san, s.0), added.education + Hit(edu, s.0),
                             added.unemployment + Hit(unemp, s.0))
    ensures missing' == Counts(missing.sanitation + 1 - Hit(san, s.0), missing.education + 1 - Hit(edu, s.0),
                               missing.unemployment + 1 - Hit(unemp, s.0))
  {
    out', added', missing' := out, added, missing;
    var (stKey, bfRow) := s;
    var v := Get(san, stKey);
    if v.Some? {
      out' := out' + [LongRow(bfRow.uf, bfRow.state, bfRow.bfTotal, SanitationLabel, v.value)];
      added' := added'.(sanitation := added'.sanitation + 1);
    } else {
      missing' := missing'.(sanitation := missing'.sanitation + 1);
    }
    v := Get(edu, stKey);
    if v.Some? {
      out' := out' + [LongRow(bfRow.uf, bfRow.state, bfRow.bfTotal, EducationLabel, v.value)];
      added' := added'.(education := added'.education + 1);
    } else {
      missing' := missing'.(education := missing'.education + 1);
    }
    v := Get(unemp, stKey);
    if v.Some? {
      out' := out' + [LongRow(bfRow.uf, bfRow.state, bfRow.bfTotal, UnemploymentLabel, v.value)];
      added' := added'.(unemployment := added'.unemployment + 1);
    } else {
      missing' := missing'.(unemployment := missing'.unemployment + 1);
    }
  }

  /** The rows and counts of one more state. */
  lemma JoinStep(bf: Dict<string, Baseline.BfEntry>, i: nat, san: Dict<string, real>, edu: Dict<string, real>, unemp: Dict<string, real>)
    requires i < |bf|
    ensures LongRows(bf[..i + 1], san, edu, unemp) == LongRows(bf[..i], san, edu, unemp) + StateRows(bf[i], san, edu, unemp)
    ensures Present(bf[..i + 1], san) == Present(bf[..i], san) + Hit(san, bf[i].0)
    ensures Present(bf[..i + 1], edu) == Present(bf[..i], edu) + Hit(edu, bf[i].0)
    ensures Present(bf[..i + 1], unemp) == Present(bf[..i], unemp) + Hit(unemp, bf[i].0)
    ensures |StateRows(bf[i], san, edu, unemp)| == Hit(san, bf[i].0) + Hit(edu, bf[i].0) + Hit(unemp, bf[i].0)
  {
    assert bf[..i + 1][..i] == bf[..i];
  }

  // ---------------------------------------------------------------------------
  // Properties
  // ---------------------------------------------------------------------------

  /** The rows of consecutive runs of states follow each other. */
  lemma {:induction false} LongRowsAppend(a: Dict<string, Baseline.BfEntry>, b: Dict<string, Baseline.BfEntry>, san: Dict<string, real>, edu: Dict<string, real>, unemp: Dict<string, real>)
    ensures LongRows(a + b, san, edu, unemp) == LongRows(a, san, edu, unemp) + LongRows(b, san, edu, unemp)
  {
    if b == [] {
      assert a + b == a;
    } else {
      var n := |b| - 1;
      var ab := a + b;
      assert ab[..|ab| - 1] == a + b[..n];
      assert ab[|ab| - 1] == b[n];
      LongRowsLast(ab, san, edu, unemp);
      LongRowsLast(b, san, edu, unemp);
      LongRowsAppend(a, b[..n], san, edu, unemp);
      var ra, rb, last := LongRows(a, san, edu, unemp), LongRows(b[..n], san, edu, unemp), StateRows(b[n], san, edu, unemp);
      assert LongRows(ab, san, edu, unemp) == (ra + rb) + last;
      assert LongRows(b, san, edu, unemp) == rb + last;
      AppendAssoc(ra, rb, last);
    }
  }

  lemma AppendAssoc<T>(x: seq<T>, y: seq<T>, z: seq<T>)
    ensures (x + y) + z == x + (y + z)
  {
  }

  /** The rows of a table end with those of its last state. */
  lemma LongRowsLast(bf: Dict<string, Baseline.BfEntry>, san: Dict<string, real>, edu: Dict<string, real>, unemp: Dict<string, real>)
    requires bf != []
    ensures LongRows(bf, san, edu, unemp) == LongRows(bf[..|bf| - 1], san, edu, unemp) + StateRows(bf[|bf| - 1], san, edu, unemp)
  {
  }

  /** The rows of a table are the rows of its first state, then those of
      the rest: the output follows the baseline's order. */
  lemma LongRowsCons(bf: Dict<string, Baseline.BfEntry>, san: Dict<string, real>, edu: Dict<string, real>, unemp: Dict<string, real>)
    requires bf != []
    ensures LongRows(bf, san, edu, unemp) == StateRows(bf[0], san, edu, unemp) + LongRows(bf[1..], san, edu, unemp)
  {
    assert bf == [bf[0]] + bf[1..];
    LongRowsAppend([bf[0]], bf[1..], san, edu, unemp);
    assert LongRows([bf[0]], san, edu, unemp) == StateRows(bf[0], san, edu, unemp);
  }

  /** A state has a row for a dimension exactly when that dimension's dict
      has its key; the row copies the state's `UF`, `State` and `bf_total`,
      carries the dimension's label and the dict's value; nothing else is
      a row of the state. */
  lemma StateRowsSpec(s: (string, Baseline.BfEntry), san: Dict<string, real>, edu: Dict<string, real>, unemp: Dict<string, real>, v: real)
    ensures LongRow(s.1.uf, s.1.state, s.1.bfTotal, SanitationLabel, v) in StateRows(s, san, edu, unemp) <==> Get(san, s.0) == Some(v)
    ensures LongRow(s.1.uf, s.1.state, s.1.bfTotal, EducationLabel, v) in StateRows(s, san, edu, unemp) <==> Get(edu, s.0) == Some(v)
    ensures LongRow(s.1.uf, s.1.state, s.1.bfTotal, UnemploymentLabel, v) in StateRows(s, san, edu, unemp) <==> Get(unemp, s.0) == Some(v)
    ensures forall r :: r in StateRows(s, san, edu, unemp) ==>
      && r.uf == s.1.uf && r.state == s.1.state && r.bfTotal == s.1.bfTotal
      && (|| (r.dimension == SanitationLabel && Get(san, s.0) == Some(r.value))
          || (r.dimension == EducationLabel && Get(edu, s.0) == Some(r.value))
          || (r.dimension == UnemploymentLabel && Get(unemp, s.0) == Some(r.value)))
  {
    assert SanitationLabel != EducationLabel && SanitationLabel != UnemploymentLabel && EducationLabel != UnemploymentLabel by {
      assert SanitationLabel[0] == 'S' && EducationLabel[0] == 'E' && UnemploymentLabel[0] == 'U';
    }
  }

  /** A row is in the table exactly when it is a row of one of its states. */
  lemma {:induction false} LongRowsMember(bf: Dict<string, Baseline.BfEntry>, san: Dict<string, real>, edu: Dict<string, real>, unemp: Dict<string, real>, r: LongRow)
    ensures r in LongRows(bf, san, edu, unemp) <==> exists i :: 0 <= i < |bf| && r in StateRows(bf[i], san, edu, unemp)
  {
    if bf != [] {
      var n := |bf| - 1;
      var init := bf[..n];
      LongRowsMember(init, san, edu, unemp, r);
      InLast(LongRows(init, san, edu, unemp), StateRows(bf[n], san, edu, unemp), r);
      SomeState(bf, init, san, edu, unemp, r);
    }
  }

  lemma InLast<T>(a: seq<T>, b: seq<T>, x: T)
    ensures x in a + b <==> x in a || x in b
  {
  }

  /** A row of some state of `bf` is a row of its last state or of one of
      the others. */
  lemma SomeState(bf: Dict<string, Baseline.BfEntry>, init: Dict<string, Baseline.BfEntry>, san: Dict<string, real>, edu: Dict<string, real>, unemp: Dict<string, real>, r: LongRow)
    requires bf != [] && init == bf[..|bf| - 1]
    ensures (exists i :: 0 <= i < |bf| && r in StateRows(bf[i], san, edu, unemp)) <==>
      || r in StateRows(bf[|bf| - 1], san, edu, unemp)
      || exists i :: 0 <= i < |init| && r in StateRows(init[i], san, edu, unemp)
  {
    assert forall i :: 0 <= i < |init| ==> init[i] == bf[i];
  }

  /** The table has one row per state and dimension with a value. */
  lemma {:induction false} LongRowsLength(bf: Dict<string, Baseline.BfEntry>, san: Dict<string, real>, edu: Dict<string, real>, unemp: Dict<string, real>)
    ensures |LongRows(bf, san, edu, unemp)| == Present(bf, san) + Present(bf, edu) + Present(bf, unemp)
  {
    if bf != [] {
      LongRowsLength(bf[..|bf| - 1], san, edu, unemp);
    }
  }

  /** An empty baseline gives no rows, whatever the other dicts hold. */
  lemma EmptyBaseline(san: Dict<string, real>, edu: Dict<string, real>, unemp: Dict<string, real>)
    ensures LongTable([], san, edu, unemp) == []
  {
  }

  /** `missing` stays zero exactly when every state has the dimension. */
  lemma {:induction false} PresentAll(bf: Dict<string, Baseline.BfEntry>, metric: Dict<string, real>)
    ensures Present(bf, metric) == |bf| <==> forall i :: 0 <= i < |bf| ==> Get(metric, bf[i].0).Some?
  {
    if bf != [] {
      var n := |bf| - 1;
      PresentAll(bf[..n], metric);
      PresentLast(bf, metric);
      assert forall i :: 0 <= i < n ==> bf[..n][i] == bf[i];
    }
  }

  /** `added` stays zero exactly when no state has the dimension. */
  lemma {:induction false} PresentNone(bf: Dict<string, Baseline.BfEntry>, metric: Dict<string, real>)
    ensures Present(bf, metric) == 0 <==> forall i :: 0 <= i < |bf| ==> Get(metric, bf[i].0).None?
  {
    if bf != [] {
      var n := |bf| - 1;
      PresentNone(bf[..n], metric);
      PresentLast(bf, metric);
      assert forall i :: 0 <= i < n ==> bf[..n][i] == bf[i];
    }
  }

  lemma PresentLast(bf: Dict<string, Baseline.BfEntry>, metric: Dict<string, real>)
    requires bf != []
    ensures Present(bf, metric) == Present(bf[..|bf| - 1], metric) + Hit(metric, bf[|bf| - 1].0)
    ensures Present(bf[..|bf| - 1], metric) <= |bf| - 1
  {
  }
}
