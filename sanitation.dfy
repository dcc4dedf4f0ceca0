/**
 * `load_sanitation_2022_by_state_norm`: the share of the population with
 * sanitation access per state, keyed by the normalised state name. The
 * parsed file is `None` when it is missing; anything but a list gives an
 * empty dict.
 */
module Sanitation {
  import opened Wrappers
  import opened Dicts
  import opened Json
  import opened StateNames
  import opened Coerce
  import opened Records

  /** The pair one sanitation record contributes, `None` when it is
      skipped: an object whose `State` is a string and whose
      `Sanitation_Access` `as_float` can read. */
  function SanitationEntry(r: Json): Option<(string, real)> {
    if !r.JObject? then None
    else
      var st := Field(r.members, "State");
      if !st.JString? then None
      else
        match AsFloat(Field(r.members, "Sanitation_Access"))
        case None => None
        case Some(v) => Some((Norm(st.s), v))
  }

  /** The dict `load_sanitation_2022_by_state_norm` returns for the parsed
      file `src`. */
  function SanitationOf(src: Option<Json>): Dict<string, real> {
    if src.None? || !src.value.JArray? then [] else Loaded(src.value.items, SanitationEntry)
  }

  /** `load_sanitation_2022_by_state_norm`, given the parsed file. */
  method LoadSanitation(src: Option<Json>) returns (out: Dict<string, real>)
    ensures src.None? || !src.value.JArray? ==> out == []
    ensures src.Some? && src.value.JArray? ==> out == Loaded(src.value.items, SanitationEntry)
    ensures out == SanitationOf(src)
  {
    out := [];
    if src.None? {
      return;
    }
    if !src.value.JArray? {
      return;
    }
    var rows := src.value.items;
    for i := 0 to |rows|
      invariant out == Loaded(rows[..i], SanitationEntry)
    {
      LoadedStep(rows, SanitationEntry, i);
      var r := rows[i];
      if !r.JObject? {
        continue;
      }
      var st := Field(r.members, "State");
      if !st.JString? {
        continue;
      }
      var val := AsFloat(Field(r.members, "Sanitation_Access"));
      if val.None? {
        continue;
      }
      out := Put(out, Norm(st.s), val.value);
    }
    assert rows[..|rows|] == rows;
  }

  // ---------------------------------------------------------------------------
  // Properties
  // ---------------------------------------------------------------------------

  /** A record is kept exactly when it is an object whose `State` is a
      string and whose `Sanitation_Access` is a number; it is then keyed by
      the normalised state and holds that number. */
  lemma SanitationKept(r: Json)
    ensures SanitationEntry(r).Some? <==>
      && r.JObject? && Field(r.members, "State").JString?
      && AsFloat(Field(r.members, "Sanitation_Access")).Some?
    ensures SanitationEntry(r).Some? ==>
      && SanitationEntry(r).value.0 == Norm(Field(r.members, "State").s)
      && IsKey(SanitationEntry(r).value.0)
      && Some(SanitationEntry(r).value.1) == AsFloat(Field(r.members, "Sanitation_Access"))
  {
  }

  /** Each state appears once, exactly when some record is kept under its
      key, and holds the value of the last such record. A missing file or
      one that is not a list gives no states. */
  lemma SanitationLoaded(src: Option<Json>, k: string, v: real)
    ensures src.None? || !src.value.JArray? ==> SanitationOf(src) == []
    ensures DistinctKeys(SanitationOf(src))
    ensures src.Some? && src.value.JArray? ==>
      && (k in Keys(SanitationOf(src)) <==>
            exists i :: 0 <= i < |src.value.items| && HasKey(SanitationEntry(src.value.items[i]), k))
      && (Get(SanitationOf(src), k) == Some(v) <==> LastIs(src.value.items, SanitationEntry, k, v))
  {
    if src.Some? && src.value.JArray? {
      LastRecordWins(src.value.items, SanitationEntry, k, v);
    } else {
      assert DistinctKeys<string, real>([]);
    }
  }
}
