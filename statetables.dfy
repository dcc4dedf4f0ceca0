/**
 * The static tables of make_chart5_data.py: `UF_TO_STATE`, the name of the
 * state of each two-letter federative-unit code, and `STATE_TO_UF`, its
 * inverse keyed by normalised name.
 */
module StateTables {
  import opened Wrappers
  import opened Dicts
  import opened StateNames

  /** Spellings of one state that differ in accents, case, hyphens and
      whitespace: small and capital accented letters, a hyphen for the blank,
      padding, a run of blanks and a no-break space between the words. */
  const SaoPauloSpellings: seq<string> := [
    "S\U{E3}o Paulo", "sao paulo", "SAO-PAULO", "S\U{C3}O PAULO", "Sao Paulo", " Sao  Paulo ",
    "S\U{E3}o\U{A0}Paulo"
  ]

  /** Spellings of another state, with a capital accented `I`. */
  const EspiritoSantoSpellings: seq<string> := ["Esp\U{ED}rito Santo", "ESP\U{CD}RITO SANTO", "espirito-santo"]

  /** All these spellings give one key per state. */
  lemma NormVariants()
    ensures forall i :: 0 <= i < |SaoPauloSpellings| ==> Norm(SaoPauloSpellings[i]) == "sao paulo"
    ensures forall i :: 0 <= i < |EspiritoSantoSpellings| ==> Norm(EspiritoSantoSpellings[i]) == "espirito santo"
  {
    assert FoldsOnto(SaoPauloSpellings[0], "sao paulo");
    assert FoldsOnto(SaoPauloSpellings[1], "sao paulo");
    assert FoldsOnto(SaoPauloSpellings[2], "sao paulo");
    assert FoldsOnto(SaoPauloSpellings[3], "sao paulo");
    assert FoldsOnto(SaoPauloSpellings[4], "sao paulo");
    forall i | 0 <= i < |SaoPauloSpellings| ensures Norm(SaoPauloSpellings[i]) == "sao paulo" {
      if i < 5 {
        NormOfSimple(SaoPauloSpellings[i], "sao paulo");
      } else if i == 5 {
        SpacedSpelling(i);
      } else {
        NoBreakSpelling(i);
      }
    }
    EspiritoSantoVariants();
  }

  /** Padding at both ends and two blanks between the words. */
  lemma SpacedSpelling(i: nat)
    requires i == 5
    ensures i < |SaoPauloSpellings| && Norm(SaoPauloSpellings[i]) == "sao paulo"
  {
    var x, y := SpacedParts(i);
    PaddedSpaced(x, y);
    SaoPauloKey(4);
  }

  lemma SpacedParts(i: nat) returns (x: string, y: string)
    requires i == 5
    ensures i < |SaoPauloSpellings| && SaoPauloSpellings[i] == " " + (x + "  " + y) + " "
    ensures x + " " + y == SaoPauloSpellings[4]
  {
    x, y := "Sao", "Paulo";
  }

  /** A no-break space between the words. */
  lemma NoBreakSpelling(i: nat)
    requires i == 6
    ensures i < |SaoPauloSpellings| && Norm(SaoPauloSpellings[i]) == "sao paulo"
  {
    var x, y := NoBreakParts(i);
    NormSpaceRun(x, "\U{A0}", y);
    SaoPauloKey(0);
  }

  lemma NoBreakParts(i: nat) returns (x: string, y: string)
    requires i == 6
    ensures i < |SaoPauloSpellings| && SaoPauloSpellings[i] == x + "\U{A0}" + y
    ensures x + " " + y == SaoPauloSpellings[0]
  {
    x, y := "S\U{E3}o", "Paulo";
  }

  /** The plain spellings fold onto the key character by character. */
  lemma SaoPauloKey(i: nat)
    requires i == 0 || i == 4
    ensures Norm(SaoPauloSpellings[i]) == "sao paulo"
  {
    assert FoldsOnto(SaoPauloSpellings[0], "sao paulo");
    assert FoldsOnto(SaoPauloSpellings[4], "sao paulo");
    NormOfSimple(SaoPauloSpellings[i], "sao paulo");
  }

  lemma EspiritoSantoVariants()
    ensures forall i :: 0 <= i < |EspiritoSantoSpellings| ==> Norm(EspiritoSantoSpellings[i]) == "espirito santo"
  {
    assert FoldsFrom(EspiritoSantoSpellings[0], "espirito santo", 12);
    assert FoldsFrom(EspiritoSantoSpellings[0], "espirito santo", 8);
    assert FoldsFrom(EspiritoSantoSpellings[0], "espirito santo", 4);
    assert FoldsOnto(EspiritoSantoSpellings[0], "espirito santo");
    assert FoldsFrom(EspiritoSantoSpellings[1], "espirito santo", 12);
    assert FoldsFrom(EspiritoSantoSpellings[1], "espirito santo", 8);
    assert FoldsFrom(EspiritoSantoSpellings[1], "espirito santo", 4);
    assert FoldsOnto(EspiritoSantoSpellings[1], "espirito santo");
    assert FoldsFrom(EspiritoSantoSpellings[2], "espirito santo", 12);
    assert FoldsFrom(EspiritoSantoSpellings[2], "espirito santo", 8);
    assert FoldsFrom(EspiritoSantoSpellings[2], "espirito santo", 4);
    assert FoldsOnto(EspiritoSantoSpellings[2], "espirito santo");
    forall i | 0 <= i < |EspiritoSantoSpellings| ensures Norm(EspiritoSantoSpellings[i]) == "espirito santo" {
      NormOfSimple(EspiritoSantoSpellings[i], "espirito santo");
    }
  }

  /** `UF_TO_STATE`: the two-letter code of each federative unit with the name
      of its state, in the order of the source table. */
  const UfToState: Dict<string, string> := [
    ("AC", "Acre"),
    ("AL", "Alagoas"),
    ("AP", "Amap\U{E1}"),
    ("AM", "Amazonas"),
    ("BA", "Bahia"),
    ("CE", "Cear\U{E1}"),
    ("DF", "Distrito Federal"),
    ("ES", "Esp\U{ED}rito Santo"),
    ("GO", "Goi\U{E1}s"),
    ("MA", "Maranh\U{E3}o"),
    ("MT", "Mato Grosso"),
    ("MS", "Mato Grosso do Sul"),
    ("MG", "Minas Gerais"),
    ("PA", "Par\U{E1}"),
    ("PB", "Para\U{ED}ba"),
    ("PR", "Paran\U{E1}"),
    ("PE", "Pernambuco"),
    ("PI", "Piau\U{ED}"),
    ("RJ", "Rio de Janeiro"),
    ("RN", "Rio Grande do Norte"),
    ("RS", "Rio Grande do Sul"),
    ("RO", "Rond\U{F4}nia"),
    ("RR", "Roraima"),
    ("SC", "Santa Catarina"),
    ("SP", "S\U{E3}o Paulo"),
    ("SE", "Sergipe"),
    ("TO", "Tocantins")
  ]

  /** The pairs `(_norm(v), k)` for `k, v in UF_TO_STATE.items()`. */
  const NormedPairs: seq<(string, string)> :=
    seq(|UfToState|, i requires 0 <= i < |UfToState| => (Norm(UfToState[i].1), UfToState[i].0))

  /** `STATE_TO_UF = {_norm(v): k for k, v in UF_TO_STATE.items()}`. */
  const StateToUf: Dict<string, string> := PutAll([], NormedPairs)

  /** The key `_norm` gives each state name, in table order. */
  const StateKeys: seq<string> := [
    "acre",
    "alagoas",
    "amapa",
    "amazonas",
    "bahia",
    "ceara",
    "distrito federal",
    "espirito santo",
    "goias",
    "maranhao",
    "mato grosso",
    "mato grosso do sul",
    "minas gerais",
    "para",
    "paraiba",
    "parana",
    "pernambuco",
    "piaui",
    "rio de janeiro",
    "rio grande do norte",
    "rio grande do sul",
    "rondonia",
    "roraima",
    "santa catarina",
    "sao paulo",
    "sergipe",
    "tocantins"
  ]

  // The lemmas `NameFolds0` to `NameFolds26` are proof scaffolding: each
  // checks one name of the table against its key, character by character,
  // with a step every few characters, so that no single proof has to
  // evaluate all 27 names at once. `NamesNorm` states what they add up to.

  /** The name at position `i` folds onto the key listed for it. */
  predicate NameFolds(i: nat)
    requires i < |UfToState|
  {
    i < |StateKeys| && FoldsOnto(UfToState[i].1, StateKeys[i])
  }

  lemma NameFolds0(i: nat)
    requires i == 0
    ensures NameFolds(i)
  {
    assert NameFolds(0);
  }

  lemma NameFolds1(i: nat)
    requires i == 1
    ensures NameFolds(i)
  {
    assert FoldsFrom(UfToState[1].1, StateKeys[1], 4);
    assert NameFolds(1);
  }

  lemma NameFolds2(i: nat)
    requires i == 2
    ensures NameFolds(i)
  {
    assert FoldsFrom(UfToState[2].1, StateKeys[2], 4);
    assert NameFolds(2);
  }

  lemma NameFolds3(i: nat)
    requires i == 3
    ensures NameFolds(i)
  {
    assert FoldsFrom(UfToState[3].1, StateKeys[3], 4);
    assert NameFolds(3);
  }

  lemma NameFolds4(i: nat)
    requires i == 4
    ensures NameFolds(i)
  {
    assert FoldsFrom(UfToState[4].1, StateKeys[4], 4);
    assert NameFolds(4);
  }

  lemma NameFolds5(i: nat)
    requires i == 5
    ensures NameFolds(i)
  {
    assert FoldsFrom(UfToState[5].1, StateKeys[5], 4);
    assert NameFolds(5);
  }

  lemma NameFolds6(i: nat)
    requires i == 6
    ensures NameFolds(i)
  {
    assert FoldsFrom(UfToState[6].1, StateKeys[6], 12);
    assert FoldsFrom(UfToState[6].1, StateKeys[6], 8);
    assert FoldsFrom(UfToState[6].1, StateKeys[6], 4);
    assert NameFolds(6);
  }

  lemma NameFolds7(i: nat)
    requires i == 7
    ensures NameFolds(i)
  {
    assert FoldsFrom(UfToState[7].1, StateKeys[7], 12);
    assert FoldsFrom(UfToState[7].1, StateKeys[7], 8);
    assert FoldsFrom(UfToState[7].1, StateKeys[7], 4);
    assert NameFolds(7);
  }

  lemma NameFolds8(i: nat)
    requires i == 8
    ensures NameFolds(i)
  {
    assert FoldsFrom(UfToState[8].1, StateKeys[8], 4);
    assert NameFolds(8);
  }

  lemma NameFolds9(i: nat)
    requires i == 9
    ensures NameFolds(i)
  {
    assert FoldsFrom(UfToState[9].1, StateKeys[9], 4);
    assert NameFolds(9);
  }

  lemma NameFolds10(i: nat)
    requires i == 10
    ensures NameFolds(i)
  {
    assert FoldsFrom(UfToState[10].1, StateKeys[10], 8);
    assert FoldsFrom(UfToState[10].1, StateKeys[10], 4);
    assert NameFolds(10);
  }

  lemma NameFolds11(i: nat)
    requires i == 11
    ensures NameFolds(i)
  {
    assert FoldsFrom(UfToState[11].1, StateKeys[11], 16);
    assert FoldsFrom(UfToState[11].1, StateKeys[11], 12);
    assert FoldsFrom(UfToState[11].1, StateKeys[11], 8);
    assert FoldsFrom(UfToState[11].1, StateKeys[11], 4);
    assert NameFolds(11);
  }

  lemma NameFolds12(i: nat)
    requires i == 12
    ensures NameFolds(i)
  {
    assert FoldsFrom(UfToState[12].1, StateKeys[12], 8);
    assert FoldsFrom(UfToState[12].1, StateKeys[12], 4);
    assert NameFolds(12);
  }

  lemma NameFolds13(i: nat)
    requires i == 13
    ensures NameFolds(i)
  {
    assert NameFolds(13);
  }

  lemma NameFolds14(i: nat)
    requires i == 14
    ensures NameFolds(i)
  {
    assert FoldsFrom(UfToState[14].1, StateKeys[14], 4);
    assert NameFolds(14);
  }

  lemma NameFolds15(i: nat)
    requires i == 15
    ensures NameFolds(i)
  {
    assert FoldsFrom(UfToState[15].1, StateKeys[15], 4);
    assert NameFolds(15);
  }

  lemma NameFolds16(i: nat)
    requires i == 16
    ensures NameFolds(i)
  {
    assert FoldsFrom(UfToState[16].1, StateKeys[16], 8);
    assert FoldsFrom(UfToState[16].1, StateKeys[16], 4);
    assert NameFolds(16);
  }

  lemma NameFolds17(i: nat)
    requires i == 17
    ensures NameFolds(i)
  {
    assert FoldsFrom(UfToState[17].1, StateKeys[17], 4);
    assert NameFolds(17);
  }

  lemma NameFolds18(i: nat)
    requires i == 18
    ensures NameFolds(i)
  {
    assert FoldsFrom(UfToState[18].1, StateKeys[18], 12);
    assert FoldsFrom(UfToState[18].1, StateKeys[18], 8);
    assert FoldsFrom(UfToState[18].1, StateKeys[18], 4);
    assert NameFolds(18);
  }

  lemma NameFolds19(i: nat)
    requires i == 19
    ensures NameFolds(i)
  {
    assert FoldsFrom(UfToState[19].1, StateKeys[19], 16);
    assert FoldsFrom(UfToState[19].1, StateKeys[19], 12);
    assert FoldsFrom(UfToState[19].1, StateKeys[19], 8);
    assert FoldsFrom(UfToState[19].1, StateKeys[19], 4);
    assert NameFolds(19);
  }

  lemma NameFolds20(i: nat)
    requires i == 20
    ensures NameFolds(i)
  {
    assert FoldsFrom(UfToState[20].1, StateKeys[20], 16);
    assert FoldsFrom(UfToState[20].1, StateKeys[20], 12);
    assert FoldsFrom(UfToState[20].1, StateKeys[20], 8);
    assert FoldsFrom(UfToState[20].1, StateKeys[20], 4);
    assert NameFolds(20);
  }

  lemma NameFolds21(i: nat)
    requires i == 21
    ensures NameFolds(i)
  {
    assert FoldsFrom(UfToState[21].1, StateKeys[21], 4);
    assert NameFolds(21);
  }

  lemma NameFolds22(i: nat)
    requires i == 22
    ensures NameFolds(i)
  {
    assert FoldsFrom(UfToState[22].1, StateKeys[22], 4);
    assert NameFolds(22);
  }

  lemma NameFolds23(i: nat)
    requires i == 23
    ensures NameFolds(i)
  {
    assert FoldsFrom(UfToState[23].1, StateKeys[23], 12);
    assert FoldsFrom(UfToState[23].1, StateKeys[23], 8);
    assert FoldsFrom(UfToState[23].1, StateKeys[23], 4);
    assert NameFolds(23);
  }

  lemma NameFolds24(i: nat)
    requires i == 24
    ensures NameFolds(i)
  {
    assert FoldsFrom(UfToState[24].1, StateKeys[24], 8);
    assert FoldsFrom(UfToState[24].1, StateKeys[24], 4);
    assert NameFolds(24);
  }

  lemma NameFolds25(i: nat)
    requires i == 25
    ensures NameFolds(i)
  {
    assert FoldsFrom(UfToState[25].1, StateKeys[25], 4);
    assert NameFolds(25);
  }

  lemma NameFolds26(i: nat)
    requires i == 26
    ensures NameFolds(i)
  {
    assert FoldsFrom(UfToState[26].1, StateKeys[26], 8);
    assert FoldsFrom(UfToState[26].1, StateKeys[26], 4);
    assert NameFolds(26);
  }

  /** `_norm` maps each state name to the key listed for it. */
  lemma NamesNorm()
    ensures forall i :: 0 <= i < |UfToState| ==> Norm(UfToState[i].1) == StateKeys[i]
  {
    forall i | 0 <= i < |UfToState| ensures Norm(UfToState[i].1) == StateKeys[i] {
      if i == 0 {
        NameFolds0(i);
      } else if i == 1 {
        NameFolds1(i);
      } else if i == 2 {
        NameFolds2(i);
      } else if i == 3 {
        NameFolds3(i);
      } else if i == 4 {
        NameFolds4(i);
      } else if i == 5 {
        NameFolds5(i);
      } else if i == 6 {
        NameFolds6(i);
      } else if i == 7 {
        NameFolds7(i);
      } else if i == 8 {
        NameFolds8(i);
      } else if i == 9 {
        NameFolds9(i);
      } else if i == 10 {
        NameFolds10(i);
      } else if i == 11 {
        NameFolds11(i);
      } else if i == 12 {
        NameFolds12(i);
      } else if i == 13 {
        NameFolds13(i);
      } else if i == 14 {
        NameFolds14(i);
      } else if i == 15 {
        NameFolds15(i);
      } else if i == 16 {
        NameFolds16(i);
      } else if i == 17 {
        NameFolds17(i);
      } else if i == 18 {
        NameFolds18(i);
      } else if i == 19 {
        NameFolds19(i);
      } else if i == 20 {
        NameFolds20(i);
      } else if i == 21 {
        NameFolds21(i);
      } else if i == 22 {
        NameFolds22(i);
      } else if i == 23 {
        NameFolds23(i);
      } else if i == 24 {
        NameFolds24(i);
      } else if i == 25 {
        NameFolds25(i);
      } else {
        NameFolds26(i);
      }
      NormOfSimple(UfToState[i].1, StateKeys[i]);
    }
  }

  // `Apart`, `DistinctByBlocks` and the `CodesApart`/`KeysApart` lemmas are
  // proof scaffolding as well: they split the 351 pairwise comparisons of 27
  // strings into six blocks, each proved on its own. `CodesDistinct` and
  // `StateKeysDistinct` state the result.

  /** No string at a position in `lo..hi` recurs at a later position in
      `lo2..hi2`. */
  predicate Apart(ks: seq<string>, lo: nat, hi: nat, lo2: nat, hi2: nat) {
    forall i, j :: lo <= i < hi && lo2 <= j < hi2 && i < j < |ks| ==> ks[i] != ks[j]
  }

  /** A sequence of 27 strings is without repeats when each pair of its
      three blocks of nine is apart. */
  lemma DistinctByBlocks(ks: seq<string>)
    requires |ks| == 27
    requires Apart(ks, 0, 9, 0, 9) && Apart(ks, 9, 18, 9, 18) && Apart(ks, 18, 27, 18, 27)
    requires Apart(ks, 0, 9, 9, 18) && Apart(ks, 0, 9, 18, 27) && Apart(ks, 9, 18, 18, 27)
    ensures Distinct(ks)
  {
  }

  /** The codes, in table order. */
  function Codes(): (cs: seq<string>)
    ensures cs == Keys(UfToState)
  {
    Keys(UfToState)
  }

  lemma CodesApart00()
    ensures Apart(Codes(), 0, 9, 0, 9)
  {
  }

  lemma CodesApart11()
    ensures Apart(Codes(), 9, 18, 9, 18)
  {
  }

  lemma CodesApart22()
    ensures Apart(Codes(), 18, 27, 18, 27)
  {
  }

  lemma CodesApart01()
    ensures Apart(Codes(), 0, 9, 9, 18)
  {
  }

  lemma CodesApart02()
    ensures Apart(Codes(), 0, 9, 18, 27)
  {
  }

  lemma CodesApart12()
    ensures Apart(Codes(), 9, 18, 18, 27)
  {
  }

  /** The name of every code normalises to one of the state keys. */
  lemma NameKey(uf: string, state: string)
    requires Get(UfToState, uf) == Some(state)
    ensures Norm(state) in StateKeys
  {
    var i :| 0 <= i < |UfToState| && UfToState[i] == (uf, state);
    NamesNorm();
    assert Norm(UfToState[i].1) == StateKeys[i];
  }

  /** No state name in the table is empty. */
  lemma TableNamesNonEmpty()
    ensures forall i :: 0 <= i < |UfToState| ==> UfToState[i].1 != ""
  {
  }

  /** Every code in the table names a state with a non-empty name. */
  lemma CodeNamesState(uf: string)
    requires uf in Keys(UfToState)
    ensures Get(UfToState, uf).Some? && Get(UfToState, uf).value != ""
  {
    var i :| 0 <= i < |UfToState| && UfToState[i] == (uf, Get(UfToState, uf).value);
    TableNamesNonEmpty();
  }

  /** The codes are distinct. */
  lemma CodesDistinct()
    ensures DistinctKeys(UfToState)
  {
    CodesApart00();
    CodesApart11();
    CodesApart22();
    CodesApart01();
    CodesApart02();
    CodesApart12();
    DistinctByBlocks(Codes());
  }

  lemma KeysApart00()
    ensures Apart(StateKeys, 0, 9, 0, 9)
  {
  }

  lemma KeysApart11()
    ensures Apart(StateKeys, 9, 18, 9, 18)
  {
  }

  lemma KeysApart22()
    ensures Apart(StateKeys, 18, 27, 18, 27)
  {
  }

  lemma KeysApart01()
    ensures Apart(StateKeys, 0, 9, 9, 18)
  {
  }

  lemma KeysApart02()
    ensures Apart(StateKeys, 0, 9, 18, 27)
  {
  }

  lemma KeysApart12()
    ensures Apart(StateKeys, 9, 18, 18, 27)
  {
  }

  /** The normalised names are distinct. */
  lemma StateKeysDistinct()
    ensures Distinct(StateKeys)
  {
    KeysApart00();
    KeysApart11();
    KeysApart22();
    KeysApart01();
    KeysApart02();
    KeysApart12();
    DistinctByBlocks(StateKeys);
  }

  /** `STATE_TO_UF` holds the 27 normalised names in table order, each once,
      each with its code. */
  lemma StateToUfPairs()
    ensures StateToUf == NormedPairs
    ensures Keys(StateToUf) == StateKeys
    ensures DistinctKeys(StateToUf)
  {
    NamesNorm();
    StateKeysDistinct();
    assert Keys(NormedPairs) == StateKeys;
    PutAllDistinct(NormedPairs);
  }

  /** The two tables are inverse: the key of each state's name leads back to
      its code, and every key of `STATE_TO_UF` is the normalised name of the
      state of the code it maps to. */
  lemma TablesInverse()
    ensures |UfToState| == 27 && |StateToUf| == 27
    ensures forall c, name :: Get(UfToState, c) == Some(name) ==> Get(StateToUf, Norm(name)) == Some(c)
    ensures forall k, c :: Get(StateToUf, k) == Some(c) ==>
      Get(UfToState, c).Some? && Norm(Get(UfToState, c).value) == k
  {
    StateToUfPairs();
    CodesDistinct();
    InvertedDict(UfToState, StateToUf, Norm);
  }
}
