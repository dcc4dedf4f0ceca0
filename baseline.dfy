/**
 * `load_bf_totals_by_state_norm`: the Bolsa Familia totals per state, keyed
 * by the normalised state name. The parsed file is `None` when it is
 * missing.
 */
module Baseline {
  import opened Wrappers
  import opened PyStr
  import opened Dicts
  import opened Json
  import opened StateNames
  import opened StateTables
  import opened Coerce
  import opened Records

  // ---------------------------------------------------------------------------
  // Baseline: Bolsa Familia totals
  // ---------------------------------------------------------------------------

  /** The value stored per state: `{"State": ..., "UF": ..., "bf_total": ...}`. */
  datatype BfEntry = BfEntry(state: string, uf: string, bfTotal: real)

  /** The field names tried for the total, in order. */
  const TotalAliases: seq<string> := ["total_pago_2021", "total_paid_2021", "total_paid", "total_pago", "total"]

  /** The state code of a record: `r.get("UF") or r.get("uf")`. */
  function CodeOf(m: Dict<string, Json>): (v: Json)
    ensures Truthy(Field(m, "UF")) ==> v == Field(m, "UF")
    ensures !Truthy(Field(m, "UF")) ==> v == Field(m, "uf")
  {
    if Truthy(Field(m, "UF")) then Field(m, "UF") else Field(m, "uf")
  }

  /** The total from the first of `aliases` the record has, `None` when it
      has none of them or that one is not a number. */
  function AliasTotal(m: Dict<string, Json>, aliases: seq<string>): Option<real> {
    if aliases == [] then None
    else if aliases[0] in Keys(m) then AsFloat(Field(m, aliases[0]))
    else AliasTotal(m, aliases[1..])
  }

  /** The code of a record, stripped and upper-cased, when it is a string
      of two characters once stripped. */
  function BaselineCode(m: Dict<string, Json>): Option<string> {
    var code := CodeOf(m);
    if code.JString? && |Strip(code.s)| == 2 then Some(Upper(Strip(code.s))) else None
  }

  /** The pair one baseline record contributes, `None` when it is skipped. */
  function BaselineEntry(r: Json): Option<(string, BfEntry)> {
    if !r.JObject? then None
    else
      match BaselineCode(r.members)
      case None => None
      case Some(uf) =>
        match AliasTotal(r.members, TotalAliases)
        case None => None
        case Some(total) =>
          match Get(UfToState, uf)
          case None => None
          case Some(state) =>
            if state == "" then None else Some((Norm(state), BfEntry(state, uf, total)))
  }

  /** The alias loop of `load_bf_totals_by_state_norm`: the total under the
      first alias the record has. */
  method FirstTotal(m: Dict<string, Json>) returns (total: Option<real>)
    ensures total == AliasTotal(m, TotalAliases)
  {
    total := None;
    var j := 0;
    while j < |TotalAliases|
      invariant 0 <= j <= |TotalAliases|
      invariant AliasTotal(m, TotalAliases) == AliasTotal(m, TotalAliases[j..])
    {
      if TotalAliases[j] in Keys(m) {
        total := AsFloat(Field(m, TotalAliases[j]));
        return;
      }
      assert TotalAliases[j..][1..] == TotalAliases[j + 1..];
      j := j + 1;
    }
  }

  /** The body of the loop of `load_bf_totals_by_state_norm` for one
      record: the key and entry it stores, `None` where it `continue`s.
      It runs the checks one by one, with early exits, as the loop does;
      `BaselineEntry` is the same result as one expression, which the fold
      and the lemmas use, and the `ensures` ties the two. */
  method BaselineRecord(r: Json) returns (e: Option<(string, BfEntry)>)
    ensures e == BaselineEntry(r)
  {
    e := None;
    if !r.JObject? {
      return;
    }
    var m := r.members;
    var code := Field(m, "UF");
    if !Truthy(code) {
      code := Field(m, "uf");
    }
    assert code == CodeOf(m);
    if !code.JString? || |Strip(code.s)| != 2 {
      return;
    }
    var uf := Upper(Strip(code.s));
    assert BaselineCode(m) == Some(uf);
    var total := FirstTotal(m);
    if total.None? {
      return;
    }
    var state := Get(UfToState, uf);
    if state.None? || state.value == "" {
      return;
    }
    e := Some((Norm(state.value), BfEntry(state.value, uf, total.value)));
  }

  /** The dict `load_bf_totals_by_state_norm` returns for the parsed file
      `src`. */
  function BaselineOf(src: Option<seq<Json>>): Dict<string, BfEntry> {
    if src.None? then [] else Loaded(src.value, BaselineEntry)
  }

  /** `load_bf_totals_by_state_norm`, given the parsed file (`None` when the
      file is missing). */
  method LoadBaseline(src: Option<seq<Json>>) returns (out: Dict<string, BfEntry>)
    ensures src.None? ==> out == []
    ensures src.Some? ==> out == Loaded(src.value, BaselineEntry)
    ensures out == BaselineOf(src)
  {
    out := [];
    if src.None? {
      return;
    }
    var rows := src.value;
    for i := 0 to |rows|
      invariant out == Loaded(rows[..i], BaselineEntry)
    {
      LoadedStep(rows, BaselineEntry, i);
      var e := BaselineRecord(rows[i]);
      if e.Some? {
        out := Put(out, e.value.0, e.value.1);
      }
    }
    assert rows[..|rows|] == rows;
  }

  // ---------------------------------------------------------------------------
  // Properties of the baseline
  // ---------------------------------------------------------------------------

  /** Only the first alias the record has is consulted. */
  lemma {:induction false} FirstAliasDecides(m: Dict<string, Json>, aliases: seq<string>, i: nat)
    requires i < |aliases| && aliases[i] in Keys(m)
    requires forall j :: 0 <= j < i ==> aliases[j] !in Keys(m)
    ensures AliasTotal(m, aliases) == AsFloat(Field(m, aliases[i]))
  {
    if i > 0 {
      assert aliases[0] !in Keys(m);
      FirstAliasDecides(m, aliases[1..], i - 1);
    }
  }

  /** A record with none of the aliases has no total. */
  lemma {:induction false} NoAliasNoTotal(m: Dict<string, Json>, aliases: seq<string>)
    requires forall j :: 0 <= j < |aliases| ==> aliases[j] !in Keys(m)
    ensures AliasTotal(m, aliases) == None
  {
    if aliases != [] {
      assert aliases[0] !in Keys(m);
      NoAliasNoTotal(m, aliases[1..]);
    }
  }

  /** A record whose first present alias is not a number is skipped, even
      when a later alias holds one. */
  lemma UncoercibleFirstAliasSkips(m: Dict<string, Json>, i: nat)
    requires i < |TotalAliases| && TotalAliases[i] in Keys(m)
    requires forall j :: 0 <= j < i ==> TotalAliases[j] !in Keys(m)
    requires AsFloat(Field(m, TotalAliases[i])).None?
    ensures BaselineEntry(JObject(m)).None?
  {
    FirstAliasDecides(m, TotalAliases, i);
  }

  /** Every baseline pair is keyed by the normalised name of the state its
      two-letter code names, carries that state and code, and the code is
      the stripped, upper-cased `UF` (or `uf`) field; `STATE_TO_UF` leads
      from the key back to the code. */
  lemma BaselineEntryShape(r: Json, k: string, e: BfEntry)
    requires BaselineEntry(r) == Some((k, e))
    ensures r.JObject? && CodeOf(r.members).JString?
    ensures |Strip(CodeOf(r.members).s)| == 2 && e.uf == Upper(Strip(CodeOf(r.members).s))
    ensures AliasTotal(r.members, TotalAliases) == Some(e.bfTotal)
    ensures Get(UfToState, e.uf) == Some(e.state) && k == Norm(e.state)
    ensures Get(StateToUf, k) == Some(e.uf)
  {
    TablesInverse();
  }

  /** A record is kept exactly when it is an object whose code is a string
      of two characters once stripped, whose upper case names a state, and
      whose first present alias holds a number. */
  lemma BaselineKept(r: Json)
    ensures BaselineEntry(r).Some? <==>
      && r.JObject? && CodeOf(r.members).JString? && |Strip(CodeOf(r.members).s)| == 2
      && AliasTotal(r.members, TotalAliases).Some?
      && Upper(Strip(CodeOf(r.members).s)) in Keys(UfToState)
  {
    if r.JObject? {
      BaselineCodeOf(r.members);
      if BaselineCode(r.members).Some? && BaselineCode(r.members).value in Keys(UfToState) {
        CodeNamesState(BaselineCode(r.members).value);
      }
    }
  }

  /** A record's code is kept exactly when it is a string of two
      characters once stripped, and is then upper-cased. */
  lemma BaselineCodeOf(m: Dict<string, Json>)
    ensures BaselineCode(m).Some? <==> CodeOf(m).JString? && |Strip(CodeOf(m).s)| == 2
    ensures BaselineCode(m).Some? ==> BaselineCode(m).value == Upper(Strip(CodeOf(m).s))
  {
  }

  /** The baseline has one entry per state at most: its keys are distinct
      normalised state names, so there are no more than 27 of them. Each
      entry holds the state and code of the last record kept under its key,
      and `STATE_TO_UF` leads from the key back to that code. */
  lemma BaselineLoaded(rows: seq<Json>, k: string, e: BfEntry)
    ensures DistinctKeys(Loaded(rows, BaselineEntry))
    ensures forall k' :: k' in Keys(Loaded(rows, BaselineEntry)) ==> k' in StateKeys
    ensures |Loaded(rows, BaselineEntry)| <= 27
    ensures Get(Loaded(rows, BaselineEntry), k) == Some(e) <==> LastIs(rows, BaselineEntry, k, e)
    ensures Get(Loaded(rows, BaselineEntry), k) == Some(e) ==>
      Get(UfToState, e.uf) == Some(e.state) && k == Norm(e.state) && Get(StateToUf, k) == Some(e.uf)
  {
    var d := Loaded(rows, BaselineEntry);
    LastRecordWins(rows, BaselineEntry, k, e);
    forall k' | k' in Keys(d) ensures k' in StateKeys {
      LastRecordWins(rows, BaselineEntry, k', e);
      var i :| 0 <= i < |rows| && HasKey(BaselineEntry(rows[i]), k');
      BaselineKey(rows[i]);
    }
    if Get(d, k) == Some(e) {
      var i :| 0 <= i < |rows| && LastAt(rows, BaselineEntry, k, e, i);
      BaselineEntryShape(rows[i], k, e);
    }
    DistinctWithin(Keys(d), StateKeys);
  }

  /** Every baseline key is one of the 27 state keys. */
  lemma BaselineKey(r: Json)
    requires BaselineEntry(r).Some?
    ensures BaselineEntry(r).value.0 in StateKeys
  {
    var (k, e) := BaselineEntry(r).value;
    BaselineEntryShape(r, k, e);
    NameKey(e.uf, e.state);
  }
}
