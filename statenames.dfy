/**
 * The key normaliser (`_norm`) and the static state tables (`UF_TO_STATE`,
 * `STATE_TO_UF`) of make_chart5_data.py.
 *
 * `_norm` lower-cases, applies Unicode NFKD decomposition and drops combining
 * marks. Both are foreign library behaviour; this module spells them out for
 * the Latin-1 range, which holds every letter of Portuguese: `LowerChar` is
 * `str.lower` on ASCII and Latin-1, `Decompose` is NFKD on Latin-1, and
 * `IsCombining` is `unicodedata.combining` on the Combining Diacritical Marks
 * block. Other characters are kept as they are.
 */
module StateNames {
  import opened Wrappers
  import opened PyStr
  import opened Dicts

  // ---------------------------------------------------------------------------
  // Case and accents
  // ---------------------------------------------------------------------------

  /** The upper-case letters `str.lower` changes in ASCII and Latin-1. */
  predicate IsUpper(c: char) {
    ('A' <= c <= 'Z') || ('\U{C0}' <= c <= '\U{DE}' && c != '\U{D7}')
  }

  function LowerChar(c: char): char {
    if IsUpper(c) then (c as int + 32) as char else c
  }

  /** `s.lower()`: no capital is left, every other character stays where it
      is, and each capital becomes the small letter 32 code points above it;
      text without capitals is returned unchanged. */
  function Lower(s: string): (r: string)
    ensures |r| == |s|
    ensures forall i :: 0 <= i < |s| ==> r[i] == LowerChar(s[i])
    ensures forall i :: 0 <= i < |r| ==> !IsUpper(r[i])
    ensures forall i :: 0 <= i < |s| && !IsUpper(s[i]) ==> r[i] == s[i]
    ensures forall i :: 0 <= i < |s| && IsUpper(s[i]) ==> r[i] as int == s[i] as int + 32
    ensures (forall i :: 0 <= i < |s| ==> !IsUpper(s[i])) ==> r == s
  {
    seq(|s|, i requires 0 <= i < |s| => LowerChar(s[i]))
  }

  /** `unicodedata.combining(c) != 0` on the Combining Diacritical Marks block
      (U+034F, the grapheme joiner, has combining class 0). */
  predicate IsCombining(c: char) {
    '\U{300}' <= c <= '\U{36F}' && c != '\U{34F}'
  }

  /** The NFKD decomposition of a Latin-1 character. */
  function Decompose(c: char): string {
    if c < '\U{C0}' then SymbolForm(c)
    else if c < '\U{E0}' then CapitalForm(c)
    else if c < '\U{F0}' then SmallFormLow(c)
    else SmallFormHigh(c)
  }

  /** `Decompose` on the signs and symbols below U+00C0. */
  function SymbolForm(c: char): string {
    match c
    case '\U{A0}' => " "
    case '\U{A8}' => " \U{308}"
    case '\U{AA}' => "a"
    case '\U{AF}' => " \U{304}"
    case '\U{B2}' => "2"
    case '\U{B3}' => "3"
    case '\U{B4}' => " \U{301}"
    case '\U{B5}' => "\U{3BC}"
    case '\U{B8}' => " \U{327}"
    case '\U{B9}' => "1"
    case '\U{BA}' => "o"
    case '\U{BC}' => "1\U{2044}4"
    case '\U{BD}' => "1\U{2044}2"
    case '\U{BE}' => "3\U{2044}4"
    case _ => [c]
  }

  /** `Decompose` on the capital letters U+00C0..U+00DF. */
  function CapitalForm(c: char): string {
    match c
    case '\U{C0}' => "A\U{300}"
    case '\U{C1}' => "A\U{301}"
    case '\U{C2}' => "A\U{302}"
    case '\U{C3}' => "A\U{303}"
    case '\U{C4}' => "A\U{308}"
    case '\U{C5}' => "A\U{30A}"
    case '\U{C7}' => "C\U{327}"
    case '\U{C8}' => "E\U{300}"
    case '\U{C9}' => "E\U{301}"
    case '\U{CA}' => "E\U{302}"
    case '\U{CB}' => "E\U{308}"
    case '\U{CC}' => "I\U{300}"
    case '\U{CD}' => "I\U{301}"
    case '\U{CE}' => "I\U{302}"
    case '\U{CF}' => "I\U{308}"
    case '\U{D1}' => "N\U{303}"
    case '\U{D2}' => "O\U{300}"
    case '\U{D3}' => "O\U{301}"
    case '\U{D4}' => "O\U{302}"
    case '\U{D5}' => "O\U{303}"
    case '\U{D6}' => "O\U{308}"
    case '\U{D9}' => "U\U{300}"
    case '\U{DA}' => "U\U{301}"
    case '\U{DB}' => "U\U{302}"
    case '\U{DC}' => "U\U{308}"
    case '\U{DD}' => "Y\U{301}"
    case _ => [c]
  }

  /** `Decompose` on the small letters U+00E0..U+00EF. */
  function SmallFormLow(c: char): string {
    match c
    case '\U{E0}' => "a\U{300}"
    case '\U{E1}' => "a\U{301}"
    case '\U{E2}' => "a\U{302}"
    case '\U{E3}' => "a\U{303}"
    case '\U{E4}' => "a\U{308}"
    case '\U{E5}' => "a\U{30A}"
    case '\U{E7}' => "c\U{327}"
    case '\U{E8}' => "e\U{300}"
    case '\U{E9}' => "e\U{301}"
    case '\U{EA}' => "e\U{302}"
    case '\U{EB}' => "e\U{308}"
    case '\U{EC}' => "i\U{300}"
    case '\U{ED}' => "i\U{301}"
    case '\U{EE}' => "i\U{302}"
    case '\U{EF}' => "i\U{308}"
    case _ => [c]
  }

  /** `Decompose` on the small letters U+00F0..U+00FF. */
  function SmallFormHigh(c: char): string {
    match c
    case '\U{F1}' => "n\U{303}"
    case '\U{F2}' => "o\U{300}"
    case '\U{F3}' => "o\U{301}"
    case '\U{F4}' => "o\U{302}"
    case '\U{F5}' => "o\U{303}"
    case '\U{F6}' => "o\U{308}"
    case '\U{F9}' => "u\U{300}"
    case '\U{FA}' => "u\U{301}"
    case '\U{FB}' => "u\U{302}"
    case '\U{FC}' => "u\U{308}"
    case '\U{FD}' => "y\U{301}"
    case '\U{FF}' => "y\U{308}"
    case _ => [c]
  }

  /** The Latin-1 characters NFKD changes: accented letters and
      compatibility forms. */
  predicate IsDecomposable(c: char) {
    || c == '\U{A0}' || c == '\U{A8}' || c == '\U{AA}' || c == '\U{AF}'
    || ('\U{B2}' <= c <= '\U{B5}') || ('\U{B8}' <= c <= '\U{BA}') || ('\U{BC}' <= c <= '\U{BE}')
    || ('\U{C0}' <= c <= '\U{C5}') || ('\U{C7}' <= c <= '\U{CF}') || ('\U{D1}' <= c <= '\U{D6}')
    || ('\U{D9}' <= c <= '\U{DD}') || ('\U{E0}' <= c <= '\U{E5}') || ('\U{E7}' <= c <= '\U{EF}')
    || ('\U{F1}' <= c <= '\U{F6}') || ('\U{F9}' <= c <= '\U{FD}') || c == '\U{FF}'
  }

  /** NFKD leaves every other character as it is. */
  lemma DecomposeOther(c: char)
    requires !IsDecomposable(c)
    ensures Decompose(c) == [c]
  {
    if c < '\U{C0}' {
      SymbolFormOther(c);
    } else if c < '\U{E0}' {
      CapitalFormOther(c);
    } else if c < '\U{F0}' {
      SmallFormLowOther(c);
    } else {
      SmallFormHighOther(c);
    }
  }

  lemma SymbolFormOther(c: char)
    requires !IsDecomposable(c) && c < '\U{C0}'
    ensures SymbolForm(c) == [c]
  {
  }

  lemma CapitalFormOther(c: char)
    requires !IsDecomposable(c) && '\U{C0}' <= c < '\U{E0}'
    ensures CapitalForm(c) == [c]
  {
  }

  lemma SmallFormLowOther(c: char)
    requires !IsDecomposable(c) && '\U{E0}' <= c < '\U{F0}'
    ensures SmallFormLow(c) == [c]
  {
  }

  lemma SmallFormHighOther(c: char)
    requires !IsDecomposable(c) && '\U{F0}' <= c
    ensures SmallFormHigh(c) == [c]
  {
  }

  /** The characters a decomposition of a non-upper-case character is built
      from: printable ASCII other than capitals, the micro sign's Greek mu, the
      fraction slash, and combining marks. */
  predicate IsPlain(x: char) {
    (' ' <= x <= '~' && !('A' <= x <= 'Z')) || x == '\U{3BC}' || x == '\U{2044}'
  }

  lemma DecomposeLower(c: char)
    requires IsDecomposable(c) && !IsUpper(c)
    ensures forall x :: x in Decompose(c) ==> IsCombining(x) || IsPlain(x)
  {
    if c < '\U{C0}' {
      DecomposeSymbol(c);
    } else if c < '\U{F0}' {
      DecomposeSmallLow(c);
    } else {
      DecomposeSmallHigh(c);
    }
  }

  lemma DecomposeSymbol(c: char)
    requires IsDecomposable(c) && c < '\U{C0}'
    ensures forall x :: x in SymbolForm(c) ==> IsCombining(x) || IsPlain(x)
  {
  }

  lemma DecomposeSmallLow(c: char)
    requires IsDecomposable(c) && '\U{E0}' <= c < '\U{F0}'
    ensures forall x :: x in SmallFormLow(c) ==> IsCombining(x) || IsPlain(x)
  {
  }

  lemma DecomposeSmallHigh(c: char)
    requires IsDecomposable(c) && '\U{F0}' <= c
    ensures forall x :: x in SmallFormHigh(c) ==> IsCombining(x) || IsPlain(x)
  {
  }

  /** `t` without its combining marks; every other character is kept. */
  function DropMarks(t: string): (r: string)
    ensures forall i :: 0 <= i < |r| ==> !IsCombining(r[i])
    ensures forall x :: x in r ==> x in t
    ensures forall x :: x in t && !IsCombining(x) ==> x in r
    ensures (forall i :: 0 <= i < |t| ==> !IsCombining(t[i])) ==> r == t
  {
    if t == [] then []
    else (if IsCombining(t[0]) then [] else [t[0]]) + DropMarks(t[1..])
  }

  /** The filter works character by character, so it keeps the order of
      what it keeps. */
  lemma {:induction false} DropMarksAppend(a: string, b: string)
    ensures DropMarks(a + b) == DropMarks(a) + DropMarks(b)
  {
    if a == [] {
      assert a + b == b;
    } else {
      assert (a + b)[0] == a[0];
      assert (a + b)[1..] == a[1..] + b;
      DropMarksAppend(a[1..], b);
    }
  }

  /** `"".join(c for c in unicodedata.normalize("NFKD", s) if not
      unicodedata.combining(c))`. */
  function StripMarks(s: string): string {
    if s == [] then [] else DropMarks(Decompose(s[0])) + StripMarks(s[1..])
  }

  // ---------------------------------------------------------------------------
  // The normaliser
  // ---------------------------------------------------------------------------

  /** A character a normalised key may hold. */
  predicate IsKeyChar(c: char) {
    !IsUpper(c) && !IsDecomposable(c) && !IsCombining(c) && c != '-'
  }

  /** The shape of every key `_norm` returns: no upper-case or accented letter,
      no combining mark, no hyphen, and blanks only singly between words. */
  predicate IsKey(k: string) {
    SingleSpaced(k) && forall i :: 0 <= i < |k| ==> IsKeyChar(k[i])
  }

  /** The string `_norm` collapses: stripped, lower-cased, without accents and
      with `-` turned into a blank. */
  function Folded(s: string): string {
    ReplaceChar(StripMarks(Lower(Strip(s))), '-', ' ')
  }

  /** `_norm(s)`: strip, lower-case, remove accents, turn `-` into a blank and
      collapse whitespace. */
  function Norm(s: string): (k: string)
    ensures IsKey(k)
  {
    NormIsKey(s);
    Join(Split(Folded(s)))
  }

  lemma NormIsKey(s: string)
    ensures IsKey(Join(Split(Folded(s))))
  {
    JoinShape(Split(Folded(s)));
    NormKeyChars(s);
  }

  lemma NormKeyChars(s: string)
    ensures forall i :: 0 <= i < |Join(Split(Folded(s)))| ==> IsKeyChar(Join(Split(Folded(s)))[i])
  {
    FoldedKeyChars(s);
    JoinSplitKeeps(Folded(s), IsKeyChar);
    var k := Join(Split(Folded(s)));
    assert forall i :: 0 <= i < |k| ==> k[i] in k;
  }

  lemma FoldedKeyChars(s: string)
    ensures forall c :: c in Folded(s) ==> IsKeyChar(c)
  {
    var folded := Folded(s);
    FoldedChars(Strip(s));
    assert forall i :: 0 <= i < |folded| ==> IsKeyChar(folded[i]);
  }

  /** Every character that leaves the lower/decompose/replace steps is a key
      character or whitespace. */
  lemma FoldedChars(s: string)
    ensures forall i :: 0 <= i < |ReplaceChar(StripMarks(Lower(s)), '-', ' ')| ==>
      IsKeyChar(ReplaceChar(StripMarks(Lower(s)), '-', ' ')[i])
  {
    var t := StripMarks(Lower(s));
    LoweredMarksFree(Lower(s));
    assert forall i :: 0 <= i < |t| ==> t[i] in t;
  }

  /** A character with no case, accent or mark left to remove. */
  predicate IsBare(x: char) {
    !IsUpper(x) && !IsDecomposable(x) && !IsCombining(x)
  }

  lemma {:induction false} LoweredMarksFree(t: string)
    requires forall i :: 0 <= i < |t| ==> !IsUpper(t[i])
    ensures forall x :: x in StripMarks(t) ==> IsBare(x)
  {
    if t != [] {
      LoweredMarksFree(t[1..]);
      DecomposedLowerChars(t[0]);
      assert StripMarks(t) == DropMarks(Decompose(t[0])) + StripMarks(t[1..]);
    }
  }

  /** The non-mark characters of the decomposition of a character that is not
      upper-case are neither upper-case nor decomposable. */
  lemma DecomposedLowerChars(c: char)
    requires !IsUpper(c)
    ensures forall x :: x in DropMarks(Decompose(c)) ==> IsBare(x)
  {
    if IsDecomposable(c) {
      DecomposeLower(c);
    } else {
      DecomposeOther(c);
    }
  }

  // ---------------------------------------------------------------------------
  // Properties of the normaliser
  // ---------------------------------------------------------------------------

  /** A key is left unchanged by `_norm`. */
  lemma NormOfKey(k: string)
    requires IsKey(k)
    ensures Norm(k) == k
  {
    assert Strip(k) == k;
    assert Lower(k) == k;
    StripMarksOfKeyChars(k);
    assert ReplaceChar(k, '-', ' ') == k;
    JoinSplitOfSingleSpaced(k);
  }

  lemma {:induction false} StripMarksOfKeyChars(t: string)
    requires forall i :: 0 <= i < |t| ==> !IsDecomposable(t[i]) && !IsCombining(t[i])
    ensures StripMarks(t) == t
  {
    if t != [] {
      StripMarksOfKeyChars(t[1..]);
      DecomposeOther(t[0]);
      assert DropMarks([t[0]]) == [t[0]];
      assert t == [t[0]] + t[1..];
    }
  }

  /** `_norm` is idempotent. */
  lemma NormIdempotent(s: string)
    ensures Norm(Norm(s)) == Norm(s)
  {
    NormOfKey(Norm(s));
  }

  /** One character's contribution to the string `_norm` collapses. */
  function Fold(c: char): string {
    ReplaceChar(DropMarks(Decompose(LowerChar(c))), '-', ' ')
  }

  /** A key character folds to itself. */
  lemma FoldKeyChar(c: char)
    requires IsKeyChar(c)
    ensures Fold(c) == [c]
  {
    DecomposeOther(c);
    assert DropMarks([c]) == [c];
  }

  /** A letter whose decomposition is a key character and one combining mark
      folds to that key character. */
  lemma FoldMarked(c: char, base: char, mark: char)
    requires !IsUpper(c) && Decompose(c) == [base, mark]
    requires IsKeyChar(base) && IsCombining(mark)
    ensures Fold(c) == [base]
  {
    assert LowerChar(c) == c;
    assert [base, mark][1..] == [mark];
    assert DropMarks([mark]) == [];
    assert DropMarks([base, mark]) == [base];
  }

  /** The accented letters of the state names, small and capital. */
  predicate IsAccented(c: char) {
    || c == '\U{E1}' || c == '\U{E3}' || c == '\U{ED}' || c == '\U{F4}'
    || c == '\U{C1}' || c == '\U{C3}' || c == '\U{CD}' || c == '\U{D4}'
  }

  /** The characters of the state names: ASCII letters, the blank, the hyphen
      and the accented letters above. */
  predicate IsNameChar(c: char) {
    ('A' <= c <= 'Z') || ('a' <= c <= 'z') || c == ' ' || c == '-' || IsAccented(c)
  }

  /** What `Fold` makes of a name character, computed directly. */
  function FoldName(c: char): char {
    if 'A' <= c <= 'Z' then (c as int + 32) as char
    else if c == '-' then ' '
    else if c == '\U{E1}' || c == '\U{E3}' || c == '\U{C1}' || c == '\U{C3}' then 'a'
    else if c == '\U{ED}' || c == '\U{CD}' then 'i'
    else if c == '\U{F4}' || c == '\U{D4}' then 'o'
    else c
  }

  lemma FoldNameChar(c: char)
    requires IsNameChar(c)
    ensures Fold(c) == [FoldName(c)]
  {
    if 'A' <= c <= 'Z' {
      FoldUpperAscii(c);
    } else if c == '-' {
      FoldHyphen();
    } else if IsAccented(c) {
      FoldAccented();
      FoldAccentedCapitals();
    } else {
      FoldKeyChar(c);
    }
  }

  /** An ASCII capital folds to its small letter. */
  lemma FoldUpperAscii(c: char)
    requires 'A' <= c <= 'Z'
    ensures Fold(c) == [(c as int + 32) as char]
  {
    FoldKeyChar((c as int + 32) as char);
  }

  lemma FoldHyphen()
    ensures Fold('-') == " "
  {
    DecomposeOther('-');
    assert DropMarks("-") == "-";
  }

  /** The accented letters of the state names lose their accents. */
  lemma FoldAccented()
    ensures Fold('\U{E1}') == "a" && Fold('\U{E3}') == "a" && Fold('\U{ED}') == "i" && Fold('\U{F4}') == "o"
  {
    FoldMarked('\U{E1}', 'a', '\U{301}');
    FoldMarked('\U{E3}', 'a', '\U{303}');
    FoldMarked('\U{ED}', 'i', '\U{301}');
    FoldMarked('\U{F4}', 'o', '\U{302}');
  }

  /** The capitals of those letters lose their accents too. */
  lemma FoldAccentedCapitals()
    ensures Fold('\U{C1}') == "a" && Fold('\U{C3}') == "a" && Fold('\U{CD}') == "i" && Fold('\U{D4}') == "o"
  {
    FoldAccented();
    FoldCaseless('\U{C1}');
    FoldCaseless('\U{C3}');
    FoldCaseless('\U{CD}');
    FoldCaseless('\U{D4}');
  }

  /** Case does not matter: a character folds like its small letter. */
  lemma FoldCaseless(c: char)
    ensures Fold(c) == Fold(LowerChar(c))
  {
    assert LowerChar(LowerChar(c)) == LowerChar(c);
  }

  /** From position `i` on, `s` holds name characters that fold to the
      characters of `k` at the same positions, and every blank of `k` stands
      alone between two other characters. */
  predicate FoldsFrom(s: string, k: string, i: nat)
    decreases |s| - i
  {
    || i >= |s|
    || (&& i < |k|
        && IsNameChar(s[i])
        && FoldName(s[i]) == k[i]
        && (k[i] == ' ' ==> 0 < i < |k| - 1 && k[i + 1] != ' ')
        && FoldsFrom(s, k, i + 1))
  }

  lemma {:induction false} FoldsFromPointwise(s: string, k: string, i: nat)
    requires FoldsFrom(s, k, i) && |k| == |s|
    ensures forall j :: i <= j < |s| ==> IsNameChar(s[j]) && FoldName(s[j]) == k[j]
    ensures forall j :: i <= j < |s| && k[j] == ' ' ==> 0 < j < |k| - 1 && k[j + 1] != ' '
    decreases |s| - i
  {
    if i < |s| {
      FoldsFromPointwise(s, k, i + 1);
    }
  }

  /** `s` is a stripped string of name characters that folds, character by
      character, to `k`, whose blanks stand alone between words. */
  predicate FoldsOnto(s: string, k: string) {
    EdgeTrimmed(s) && |k| == |s| && FoldsFrom(s, k, 0)
  }

  /** For a string of name characters whose folded form is single-spaced,
      `_norm` is that folded form. */
  lemma NormOfSimple(s: string, k: string)
    requires FoldsOnto(s, k)
    ensures Norm(s) == k
  {
    FoldsFromPointwise(s, k, 0);
    assert SingleSpaced(k) by {
      forall j | 0 <= j < |k| && IsSpace(k[j]) ensures k[j] == ' ' && 0 < j < |k| - 1 && !IsSpace(k[j + 1]) {
        assert IsNameChar(s[j]) && IsNameChar(s[j + 1]);
      }
    }
    var t := Lower(s);
    forall j | 0 <= j < |t| ensures ReplaceChar(DropMarks(Decompose(t[j])), '-', ' ') == [k[j]] {
      FoldNameChar(s[j]);
    }
    var folded := ReplaceChar(StripMarks(t), '-', ' ');
    StripMarksOfSingles(t, k);
    assert folded == k;
    JoinSplitOfSingleSpaced(k);
  }

  lemma {:induction false} StripMarksOfSingles(t: string, k: string)
    requires |k| == |t|
    requires forall i :: 0 <= i < |t| ==> ReplaceChar(DropMarks(Decompose(t[i])), '-', ' ') == [k[i]]
    ensures ReplaceChar(StripMarks(t), '-', ' ') == k
  {
    if t != [] {
      StripMarksOfSingles(t[1..], k[1..]);
      var h := DropMarks(Decompose(t[0]));
      assert ReplaceChar(h, '-', ' ') == [k[0]];
      assert StripMarks(t) == h + StripMarks(t[1..]);
      ReplaceCharAppend(h, StripMarks(t[1..]), '-', ' ');
      assert k == [k[0]] + k[1..];
    }
  }

  // ---------------------------------------------------------------------------
  // Spellings that give the same key
  // ---------------------------------------------------------------------------

  /** The strings `f` gives the characters of `s`, joined in order. */
  function FlatMap(f: char -> string, s: string): string {
    if s == [] then [] else f(s[0]) + FlatMap(f, s[1..])
  }

  /** The folds of the characters of `s`, in order. */
  function FoldAll(s: string): string {
    FlatMap(Fold, s)
  }

  lemma {:induction false} FlatMapAppend(f: char -> string, x: string, y: string)
    ensures FlatMap(f, x + y) == FlatMap(f, x) + FlatMap(f, y)
    decreases |x|
  {
    if x == [] {
      assert x + y == y;
    } else {
      assert (x + y)[0] == x[0] && (x + y)[1..] == x[1..] + y;
      FlatMapAppend(f, x[1..], y);
    }
  }

  lemma FoldAllAppend(x: string, y: string)
    ensures FoldAll(x + y) == FoldAll(x) + FoldAll(y)
  {
    FlatMapAppend(Fold, x, y);
  }

  /** Lower-casing, decomposing, dropping marks and replacing hyphens work
      character by character. */
  lemma {:induction false} FoldAllIs(t: string)
    ensures ReplaceChar(StripMarks(Lower(t)), '-', ' ') == FoldAll(t)
    decreases |t|
  {
    if t != [] {
      FoldAllIs(t[1..]);
      var l := Lower(t);
      assert l[0] == LowerChar(t[0]) && l[1..] == Lower(t[1..]);
      var h := DropMarks(Decompose(l[0]));
      assert StripMarks(l) == h + StripMarks(l[1..]);
      ReplaceCharAppend(h, StripMarks(l[1..]), '-', ' ');
    }
  }

  /** A whitespace character folds to whitespace: the no-break space to a
      blank, every other one to itself. */
  lemma FoldSpace(c: char)
    requires IsSpace(c)
    ensures Fold(c) != [] && AllSpace(Fold(c))
  {
    if c == '\U{A0}' {
      assert Decompose(c) == " ";
      assert DropMarks(" ") == " ";
    } else {
      DecomposeOther(c);
      assert DropMarks([c]) == [c];
    }
  }

  lemma {:induction false} FoldAllSpace(w: string)
    requires AllSpace(w)
    ensures AllSpace(FoldAll(w))
    ensures w != [] ==> FoldAll(w) != []
    decreases |w|
  {
    if w != [] {
      FoldSpace(w[0]);
      FoldAllSpace(w[1..]);
      AllSpaceAppend(Fold(w[0]), FoldAll(w[1..]));
    }
  }

  /** `_norm(s)` joins the words of the character-wise fold of `s`: the strip
      that comes first changes nothing, since whitespace folds to
      whitespace and `split` drops it at the ends. */
  lemma NormOfFolds(s: string)
    ensures Norm(s) == Join(Split(FoldAll(s)))
  {
    var w1, w2 := StripParts(s);
    FoldedIs(s);
    FoldAllPadded(w1, Strip(s), w2);
  }

  lemma FoldedIs(s: string)
    ensures Folded(s) == FoldAll(Strip(s))
  {
    FoldAllIs(Strip(s));
  }

  /** Whitespace around a string does not change the words of its fold. */
  lemma FoldAllPadded(w1: string, t: string, w2: string)
    requires AllSpace(w1) && AllSpace(w2)
    ensures Split(FoldAll(w1 + t + w2)) == Split(FoldAll(t))
  {
    FoldAllAppend(w1 + t, w2);
    FoldAllAppend(w1, t);
    FoldAllSpace(w1);
    FoldAllSpace(w2);
    SplitPadded(FoldAll(w1), FoldAll(t), FoldAll(w2));
  }

  lemma {:induction false} FlatMapPointwise(f: char -> string, s: string, t: string)
    requires |s| == |t| && forall i :: 0 <= i < |s| ==> f(s[i]) == f(t[i])
    ensures FlatMap(f, s) == FlatMap(f, t)
    decreases |s|
  {
    if s != [] {
      assert f(s[0]) == f(t[0]);
      forall i | 0 <= i < |s| - 1 ensures f(s[1..][i]) == f(t[1..][i]) {
        assert s[1..][i] == s[i + 1] && t[1..][i] == t[i + 1];
      }
      FlatMapPointwise(f, s[1..], t[1..]);
    }
  }

  /** Spellings whose characters fold alike, position by position, have one
      key: a capital and its small letter, an accented letter and its base
      letter, a hyphen and a blank, a no-break space and a blank. */
  lemma NormFoldwise(s: string, t: string)
    requires |s| == |t| && forall i :: 0 <= i < |s| ==> Fold(s[i]) == Fold(t[i])
    ensures Norm(s) == Norm(t)
  {
    FlatMapPointwise(Fold, s, t);
    NormOfFolds(s);
    NormOfFolds(t);
  }

  /** Case does not matter: a string has the key of its lower-cased form. */
  lemma NormCaseless(s: string)
    ensures Norm(Lower(s)) == Norm(s)
  {
    var l := Lower(s);
    forall i | 0 <= i < |l| ensures Fold(l[i]) == Fold(s[i]) {
      FoldCaseless(s[i]);
    }
    NormFoldwise(l, s);
  }

  /** An accented letter, small or capital, can stand for its base letter:
      any letter whose small form decomposes into a base letter and one
      combining mark. */
  lemma FoldAccentless(c: char, base: char, mark: char)
    requires Decompose(LowerChar(c)) == [base, mark]
    requires IsKeyChar(base) && IsCombining(mark)
    ensures Fold(c) == Fold(base)
  {
    FoldCaseless(c);
    FoldMarked(LowerChar(c), base, mark);
    FoldKeyChar(base);
  }

  /** Whitespace around a name does not change its key. */
  lemma NormPadded(w1: string, s: string, w2: string)
    requires AllSpace(w1) && AllSpace(w2)
    ensures Norm(w1 + s + w2) == Norm(s)
  {
    NormOfFolds(w1 + s + w2);
    NormOfFolds(s);
    FoldAllPadded(w1, s, w2);
  }

  /** A run of whitespace between two parts of a name counts as one blank. */
  lemma NormSpaceRun(x: string, w: string, y: string)
    requires w != [] && AllSpace(w)
    ensures Norm(x + w + y) == Norm(x + " " + y)
  {
    FoldAllAppend(x + w, y);
    FoldAllAppend(x, w);
    FoldAllAppend(x + " ", y);
    FoldAllAppend(x, " ");
    FoldAllSpace(w);
    FoldAllSpace(" ");
    NormOfFolds(x + w + y);
    NormOfFolds(x + " " + y);
    SplitAround(FoldAll(x), FoldAll(w), FoldAll(y));
    SplitAround(FoldAll(x), FoldAll(" "), FoldAll(y));
  }

  /** One blank of padding at each end and two blanks between two parts. */
  lemma PaddedSpaced(x: string, y: string)
    ensures Norm(" " + (x + "  " + y) + " ") == Norm(x + " " + y)
  {
    var w1, w := " ", "  ";
    assert AllSpace(w1) && w != [] && AllSpace(w);
    NormSpaceRun(x, w, y);
    NormPadded(w1, x + w + y, w1);
  }
}
