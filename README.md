# Chart 5 data: a verified model

`make_chart5_data.py` builds the data behind a chart that sets the Bolsa
Familia cash-transfer totals of the 27 Brazilian states beside three other
indicators: sanitation access, years of schooling and unemployment. It reads
four JSON record lists. Each one is reduced to a dict keyed by a normalised
state name, and each has its own rule for which record decides. The four
dicts are then joined into one "long" list with up to three rows per state:
one per dimension that has a value for that state.

This project models that pipeline in Dafny and proves what it promises:

- `StateNames`: the key normaliser `_norm` on a Latin-1 table of case and
  accents.
- `StateTables`: the `UF_TO_STATE` table and its inverse `STATE_TO_UF`.
- `Coerce`: the numeric coercer `as_float`, with Python's `float()` on a
  signed-decimal grammar.
- `Baseline`, `Sanitation`, `Education` and `Unemployment`: the four loaders.
  Each is a method with a loop, proved equal to a reference function of its
  parsed input. Lemmas about that function state the selection rule.
- `Join`: `build_long_rows`. It is a method with a loop, proved equal to a
  reference table, with its counters.

The supporting modules model Python built-ins:

- `Dicts`: a Python `dict` as a sequence of key/value pairs with distinct
  keys. Overwriting a key keeps its position, as insertion order does in
  Python.
- `PyStr`: `str.strip`, `split`, `join`, `upper` and `replace`.
- `Json`: a parsed JSON value.
- `Records`: the "last valid record wins" fold that two loaders share.

File reading is replaced by the parsed value, which is `None` when the file
is missing. Numbers are exact `real`s.

## Model

| member | source | states |
|---|---|---|
| StateNames.Lower | make_chart5_data.py:53 | `lower()` leaves no capital (ASCII or Latin-1); every other character stays in place, each capital becomes the small letter 32 code points above it, and text without capitals comes back unchanged |
| StateNames.DropMarks | make_chart5_data.py:54-57 | dropping combining characters leaves none, adds no character and keeps every other character; text without marks is unchanged |
| StateNames.DropMarksAppend | make_chart5_data.py:54-57 | the filter runs character by character: filtering a concatenation is the concatenation of the filtered parts, so order is kept |
| StateNames.Norm | make_chart5_data.py:51-60 | with the Latin-1 tables, every key `_norm` returns has the key shape: no upper-case letter, no accented letter, no combining mark, no `-`, and blanks only singly between words |
| StateNames.NormOfKey | make_chart5_data.py:51-60 | `_norm` leaves a string already in key shape unchanged |
| StateNames.NormIdempotent | make_chart5_data.py:51-60 | with the Latin-1 tables, `_norm(_norm(s)) == _norm(s)` for every string (the real `_norm` is not idempotent outside Latin-1; see "## Left out") |
| StateNames.FoldAccented | make_chart5_data.py:54-57 | the Portuguese accented letters lose their accents (`á`, `ã` to `a`, `í` to `i`, `ô` to `o`) |
| StateNames.FoldAccentedCapitals | make_chart5_data.py:53-57 | their capitals lose their accents and their case (`Á`, `Ã` to `a`, `Í` to `i`, `Ô` to `o`) |
| StateNames.FoldAccentless | make_chart5_data.py:53-57 | any letter, small or capital, whose small form decomposes into a base letter and one combining mark folds like that base letter |
| StateNames.NormOfSimple | make_chart5_data.py:51-60 | a name that folds character by character onto a key normalises to that key |
| StateNames.NormOfFolds | make_chart5_data.py:51-60 | `_norm(s)` is `" ".join` of the words of the character-by-character fold of `s`; the initial `strip` changes nothing, since whitespace folds to whitespace and `split` drops it at the ends |
| StateNames.NormFoldwise | make_chart5_data.py:51-60 | two strings of one length whose characters fold alike position by position have the same key: a capital and its small letter, an accented letter and its base letter, `-` and a blank, a no-break space and a blank |
| StateNames.NormCaseless | make_chart5_data.py:53 | a string and its lower-cased form have the same key |
| StateNames.NormPadded | make_chart5_data.py:53-59 | whitespace around a name does not change its key |
| StateNames.NormSpaceRun | make_chart5_data.py:59 | a run of whitespace between two parts of a name counts as one blank |
| PyStr.SplitAround | make_chart5_data.py:59 | `split()` of `x + w + y`, with `w` a non-empty run of whitespace, is the words of `x` followed by the words of `y` |
| PyStr.SplitPadded | make_chart5_data.py:59 | whitespace at either end does not change `split()` |
| StateTables.NormVariants | make_chart5_data.py:51-60 | seven spellings of São Paulo (as in the table, lower case, capitals with a hyphen, capitals with `Ã`, plain ASCII, padded with two blanks between the words, with a no-break space) all normalise to "sao paulo", and three of Espírito Santo (with `í`, with `Í`, with a hyphen) to "espirito santo" |
| StateTables.NamesNorm | make_chart5_data.py:21-49 | each of the 27 state names normalises to its listed key |
| StateTables.CodesDistinct | make_chart5_data.py:21-49 | the 27 state codes are distinct |
| StateTables.StateKeysDistinct | make_chart5_data.py:21-49 | the 27 normalised names are pairwise distinct |
| StateTables.StateToUfPairs | make_chart5_data.py:62 | `STATE_TO_UF` has exactly the 27 normalised names as keys, each once |
| StateTables.NameKey | make_chart5_data.py:62 | the normalised name of every state in the table is a key of `STATE_TO_UF` |
| StateTables.TablesInverse | make_chart5_data.py:21-62 | both tables have 27 entries; `STATE_TO_UF[_norm(UF_TO_STATE[c])] == c` for every code, and every key of `STATE_TO_UF` is the normalised name of the state of its code |
| StateTables.TableNamesNonEmpty | make_chart5_data.py:21-49 | no state name in the table is empty, so the baseline's `if not state` test only rejects unknown codes |
| Coerce.Cleaned | make_chart5_data.py:85-86 | the text handed to `float` has no `%` and no `,` |
| Coerce.AsFloat | make_chart5_data.py:67-90 | total: `None`, lists and objects give none; integers, floats and booleans are returned as numbers unchanged; blank strings give none |
| Coerce.AsFloatNeedsDigit | make_chart5_data.py:81-87 | a string is read as a number only when it holds a digit |
| Coerce.AsFloatPadded | make_chart5_data.py:82 | whitespace around a string does not change its value |
| Coerce.AsFloatComma | make_chart5_data.py:86-87 | `a,b` with digit runs `a` and `b` reads as the decimal `a.b` |
| Coerce.AsFloatPoint | make_chart5_data.py:87 | `a.b` with digit runs `a` and `b` reads as that decimal |
| Coerce.AsFloatPercent | make_chart5_data.py:85-87 | `a%` with a digit run `a` reads as `a` |
| Coerce.ParseNatural | make_chart5_data.py:87 | `float` reads a digit run as its value |
| Coerce.ParseDecimal | make_chart5_data.py:87 | `float` reads `a.b` as `a` plus `b` scaled by its length |
| Coerce.AsFloatSigned | make_chart5_data.py:81-87 | `-a` with a digit run `a` reads as minus the value of `a`, and `+a` as that value |
| Coerce.BlankNone | make_chart5_data.py:82-83 | every whitespace-only string gives none |
| Coerce.DocExamples | make_chart5_data.py:69-74 | the documented cases hold: `"8,4"` gives 8.4, `"83%"` gives 83.0, `" 12.3 "` gives 12.3; `None`, `""` and blanks give none; `"abc"` gives none |
| Coerce.DocComma | make_chart5_data.py:72 | `"8,4"` gives 8.4 |
| Coerce.DocPercent | make_chart5_data.py:73 | `"83%"` gives 83.0 |
| Coerce.DocPadded | make_chart5_data.py:74 | `" 12.3 "` gives 12.3 |
| Coerce.DocLetters | make_chart5_data.py:87-90 | `"abc"` gives none rather than an error |
| Baseline.FirstTotal | make_chart5_data.py:118-122 | the alias loop returns the value of the first alias the record has |
| Baseline.FirstAliasDecides | make_chart5_data.py:118-122 | when alias `i` is the first one present, the total is `as_float` of that field, whatever later aliases hold |
| Baseline.NoAliasNoTotal | make_chart5_data.py:118-124 | a record with none of the aliases has no total |
| Baseline.UncoercibleFirstAliasSkips | make_chart5_data.py:118-124 | a record whose first present alias is not a number is skipped, even when a later alias holds one |
| Baseline.BaselineKept | make_chart5_data.py:109-128 | a record is kept exactly when it is an object, its code is a string of length 2 once stripped, it has a total, and the upper-cased code is in the table |
| Baseline.BaselineEntryShape | make_chart5_data.py:113-131 | a kept record's entry holds the stripped, upper-cased code, its total and the table's state; its key is `_norm` of that state and maps back to the code in `STATE_TO_UF` |
| Baseline.BaselineRecord | make_chart5_data.py:109-131 | the checks of one loop iteration compute the record's entry |
| Baseline.LoadBaseline | make_chart5_data.py:96-136 | the loader's loop computes the fold: a missing file gives `{}`, and otherwise each kept record's entry is put under its key |
| Baseline.BaselineLoaded | make_chart5_data.py:107-131 | keys are distinct state keys, at most 27; the entry under a key is the one from the last record kept under it; every entry agrees with both tables |
| Baseline.BaselineKey | make_chart5_data.py:130 | every key is one of the 27 normalised state names |
| Sanitation.LoadSanitation | make_chart5_data.py:138-161 | the loader's loop computes the fold; a missing file or one that is not a list gives `{}` |
| Sanitation.SanitationKept | make_chart5_data.py:149-158 | a record is kept exactly when it is an object, `State` is a string and `Sanitation_Access` is a number; it is then keyed by `_norm(State)` |
| Sanitation.SanitationLoaded | make_chart5_data.py:138-158 | keys are distinct; a key is present exactly when some record is kept under it, and its value comes from the last such record |
| Records.LastRecordWins | make_chart5_data.py:130-158 | folding `out[key] = value` over the records leaves exactly the keys of the kept records, each with the value of the last record kept under it |
| Education.Truncate | make_chart5_data.py:184 | `int()` of a float drops the fraction, rounding toward zero |
| Education.YearOfDigits | make_chart5_data.py:183-186 | a year written as ASCII digits, with an optional sign and surrounding whitespace, reads as that integer |
| Education.YearOfBlank | make_chart5_data.py:183-186 | a blank year is refused |
| Education.EducationKept | make_chart5_data.py:175-190 | a record is kept exactly when it is an object, `State` is a string, `int()` accepts `Year`, and `Years_Schooling` is a number |
| Education.DropYears | make_chart5_data.py:197 | dropping the years keeps the keys in their order |
| Education.EducationRow | make_chart5_data.py:175-193 | the checks of one loop iteration compute the record's entry |
| Education.LoadEducation | make_chart5_data.py:163-199 | the loop and the final comprehension compute the reference fold; a missing file or one that is not a list gives `{}` |
| Education.BestKeys | make_chart5_data.py:192-195 | a key is in `best` exactly when some record is kept under it |
| Education.BestWins | make_chart5_data.py:192-195 | `best[k]` holds `(y, v)` exactly when `y` is the largest year of `k`, no earlier record of `k` has that year, and this record has value `v` |
| Education.BestAtUnique | make_chart5_data.py:192-195 | the winning record of a key is unique |
| Education.EducationLoaded | make_chart5_data.py:163-197 | keys are distinct; a key is present exactly when some record is kept under it; its value comes from the first record with the maximal year |
| Unemployment.UnemploymentKept | make_chart5_data.py:214-229 | a record is kept exactly when it is an object, `City` is a string, `Quarter` is a string whose first four characters are digits, and the rate is a number; it is keyed by `_norm(City)` and dated by those digits |
| Unemployment.MaxKey | make_chart5_data.py:239 | `max(years_map.keys())` is one of the years and at least every year |
| Unemployment.UnemploymentRow | make_chart5_data.py:214-229 | the checks of one loop iteration compute the record's entry |
| Unemployment.GroupsWell | make_chart5_data.py:231-232 | the grouping keeps one entry per state; every state has a year and every year has a rate, so `max` and `mean` are never applied to nothing |
| Unemployment.GroupsRates | make_chart5_data.py:231-232 | for each state and year, `by_state_year` holds exactly the rates of the kept records of that state and year, in input order, and has no year without rates |
| Unemployment.Summarise | make_chart5_data.py:234-240 | the summary loop computes one value per state, in the grouping's order |
| Unemployment.LoadUnemployment | make_chart5_data.py:201-243 | the two loops compute the reference dict; a missing file or one that is not a list gives `{}` |
| Unemployment.StateRateOf | make_chart5_data.py:235-240 | a state's value is the mean of its 2022 rates when it has any, else the mean of the rates of its latest year |
| Unemployment.GroupsHaveKey | make_chart5_data.py:231-232 | a state is grouped exactly when some record is kept under its key |
| Unemployment.UnemploymentLoaded | make_chart5_data.py:201-240 | keys are distinct; a key is present exactly when some record is kept under it; its value is the mean of its 2022 rates when there are any, otherwise the mean of its non-empty latest year |
| Join.Present | make_chart5_data.py:259-305 | a dimension's count of present states is at most the number of baseline states |
| Join.AppendState | make_chart5_data.py:264-305 | one loop iteration appends the state's rows in the order sanitation, education, unemployment, and adds one to each dimension's `added` or its `missing` |
| Join.JoinLoop | make_chart5_data.py:259-305 | the loop builds the reference table; `added` counts the states each dimension has; `added + missing` is the number of states, per dimension; the length is the sum of `added` |
| Join.BuildLongRows | make_chart5_data.py:249-310 | an empty baseline gives `[]`; otherwise the rows are the reference table of the four loaded dicts, with the loop's counters |
| Join.LongRowsAppend | make_chart5_data.py:263-305 | the rows follow the baseline's insertion order, run after run |
| Join.LongRowsCons | make_chart5_data.py:263-305 | the first state's rows come first |
| Join.StateRowsSpec | make_chart5_data.py:268-305 | a state has a row for a dimension exactly when that dict has its key; every row copies the state's UF, State and bf_total and carries its dimension's label and value |
| Join.LongRowsMember | make_chart5_data.py:263-305 | a row is in the output exactly when it is a row of one of the baseline's states |
| Join.LongRowsLength | make_chart5_data.py:263-310 | the output has one row per state and dimension with a value |
| Join.PresentAll | make_chart5_data.py:259-305 | a dimension's `added` count equals the number of states (so `missing` is zero) exactly when every state has that dimension |
| Join.PresentNone | make_chart5_data.py:259-305 | a dimension's `added` count is zero exactly when no state has that dimension |
| Join.EmptyBaseline | make_chart5_data.py:250-253 | an empty baseline gives no rows |

## Left out

- File and console I/O: the path constants, `exists()`, `read_json`, every `print` and `main`. Each loader takes its parsed file as a parameter, `None` meaning the file is missing.
- Full Unicode: `lower()`, NFKD decomposition and `unicodedata.combining` are modelled for Latin-1 and the combining marks U+0300 to U+036F only. Characters outside that range are left as they are, which covers every name in the state table.
- StateNames.NormIdempotent and StateNames.Norm: both hold for the Latin-1 model only. The real `_norm` is not idempotent and can return a capital letter. `"𝐀"` (U+1D400) and `"ℌ"` (U+210C) have no lower-case form, so `lower()` keeps them, and NFKD then turns them into the capitals `A` and `H`. So `_norm("𝐀") == "A"`, while `_norm("A") == "a"`.
- IEEE-754 floating point: numbers are exact reals, so the rounding in `float()`, in `float(total)` and inside `statistics.mean` is not modelled.
- Coerce.AsFloat: has no float overflow. In Python, `float()` of an int beyond about 1.8e308 raises OverflowError, which the handler at make_chart5_data.py:89 turns into None, so a baseline record whose `total` is such an int is skipped at make_chart5_data.py:123-124; the model returns the int as a number and keeps the record. A string such as `"1e400"`, or a digit run that long, gives `inf` in Python and the exact value in the model.
- Coerce.AsFloat: reads Python's `float()` syntax as an optional sign, then digits with an optional fraction, then an optional exponent. It does not model `inf`, `nan`, underscores between digits or non-ASCII digits.
- Education.YearOf: reads `int()` of a string as an optional sign and ASCII digits, with surrounding whitespace. It does not model underscores or non-ASCII digits. `int()` of a float that is infinite or NaN raises in Python and cannot occur here.
- Unemployment.UnemploymentKept: `isdigit()` is modelled for ASCII digits only. Python also accepts other Unicode digits, such as `²`, which `int()` then rejects with an uncaught error.
- Baseline.LoadBaseline: takes the baseline file as a list of records. Iterating over a JSON value that is not a list is Python-specific and not modelled.
- Join.BuildLongRows: the source has no counters when the baseline is empty, because it returns early. The model returns zero counters on that path.
- JSON objects with repeated keys: a parsed object is a dict with distinct keys, as `json.loads` produces.
