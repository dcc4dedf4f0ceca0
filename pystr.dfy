/**
 * The Python `str` operations the pipeline uses: `strip()`, `split()` with no
 * separator, `" ".join(...)`, `replace(...)` of one character, `upper()` for
 * two-letter state codes, and `isdigit()` on ASCII digits.
 */
module PyStr {

  /** Python's `str.isspace()` for a single character (the full list of code
      points Python treats as whitespace). */
  predicate IsSpace(c: char) {
    || ('\t' <= c <= '\r')
    || ('\U{1C}' <= c <= '\U{1F}')
    || c == ' '
    || c == '\U{85}'
    || c == '\U{A0}'
    || c == '\U{1680}'
    || ('\U{2000}' <= c <= '\U{200A}')
    || c == '\U{2028}'
    || c == '\U{2029}'
    || c == '\U{202F}'
    || c == '\U{205F}'
    || c == '\U{3000}'
  }

  predicate NoSpace(s: string) {
    forall i :: 0 <= i < |s| ==> !IsSpace(s[i])
  }

  predicate AllSpace(s: string) {
    forall i :: 0 <= i < |s| ==> IsSpace(s[i])
  }

  /** Neither the first nor the last character is whitespace. */
  predicate EdgeTrimmed(s: string) {
    s == [] || (!IsSpace(s[0]) && !IsSpace(s[|s| - 1]))
  }

  /** `s.lstrip()`: the suffix left after dropping leading whitespace. */
  function TrimLeft(s: string): (t: string)
    ensures |t| <= |s| && t == s[|s| - |t|..]
    ensures t == [] || !IsSpace(t[0])
    ensures AllSpace(s[..|s| - |t|])
  {
    if s != [] && IsSpace(s[0]) then
      var t := TrimLeft(s[1..]);
      TrimLeftStep(s, t);
      t
    else
      assert s[..0] == [];
      s
  }

  /** A suffix of `s[1..]` behind whitespace is one of `s` when `s[0]` is
      whitespace too. */
  lemma TrimLeftStep(s: string, t: string)
    requires s != [] && IsSpace(s[0])
    requires |t| <= |s| - 1 && t == s[1..][|s| - 1 - |t|..]
    requires AllSpace(s[1..][..|s| - 1 - |t|])
    ensures t == s[|s| - |t|..]
    ensures AllSpace(s[..|s| - |t|])
  {
    forall i | 0 < i < |s| - |t| ensures IsSpace(s[i]) {
      assert s[1..][..|s| - 1 - |t|][i - 1] == s[i];
    }
  }

  /** `s.rstrip()`: the prefix left after dropping trailing whitespace. */
  function TrimRight(s: string): (t: string)
    ensures |t| <= |s| && t == s[..|t|]
    ensures t == [] || !IsSpace(t[|t| - 1])
    ensures AllSpace(s[|t|..])
  {
    if s != [] && IsSpace(s[|s| - 1]) then
      var t := TrimRight(s[..|s| - 1]);
      TrimRightStep(s, t);
      t
    else
      assert s[|s|..] == [];
      s
  }

  /** A prefix of `s[..|s| - 1]` before whitespace is one of `s` when the
      last character of `s` is whitespace too. */
  lemma TrimRightStep(s: string, t: string)
    requires s != [] && IsSpace(s[|s| - 1])
    requires |t| <= |s| - 1 && t == s[..|s| - 1][..|t|]
    requires AllSpace(s[..|s| - 1][|t|..])
    ensures t == s[..|t|]
    ensures AllSpace(s[|t|..])
  {
    forall i | |t| <= i < |s| - 1 ensures IsSpace(s[i]) {
      assert s[..|s| - 1][|t|..][i - |t|] == s[i];
    }
  }

  /** `s.strip()`: a slice of `s` with no whitespace at either end, empty
      exactly when `s` is all whitespace. */
  function Strip(s: string): (t: string)
    ensures EdgeTrimmed(t)
    ensures |t| <= |s|
    ensures forall c :: c in t ==> c in s
    ensures t == [] <==> AllSpace(s)
    ensures EdgeTrimmed(s) ==> t == s
  {
    StripChars(s);
    StripEmpty(s);
    StripTrimmed(s);
    TrimRight(TrimLeft(s))
  }

  lemma StripChars(s: string)
    ensures forall c :: c in TrimRight(TrimLeft(s)) ==> c in s
  {
    var l := TrimLeft(s);
    var t := TrimRight(l);
    assert forall c :: c in t ==> c in l;
    assert forall c :: c in l ==> c in s;
  }

  lemma StripEmpty(s: string)
    ensures TrimRight(TrimLeft(s)) == [] <==> AllSpace(s)
  {
    var l := TrimLeft(s);
    TrimLeftEmpty(s);
    TrimRightEmpty(l);
    assert AllSpace(l) ==> l == [];
  }

  lemma TrimLeftEmpty(s: string)
    ensures TrimLeft(s) == [] <==> AllSpace(s)
  {
    if TrimLeft(s) == [] {
      assert s[..|s|] == s;
    }
  }

  lemma TrimRightEmpty(s: string)
    ensures TrimRight(s) == [] <==> AllSpace(s)
  {
    if TrimRight(s) == [] {
      assert s[0..] == s;
    }
  }

  lemma StripTrimmed(s: string)
    ensures EdgeTrimmed(s) ==> TrimRight(TrimLeft(s)) == s
  {
    if EdgeTrimmed(s) && s != [] {
      assert TrimLeft(s) == s;
      assert TrimRight(s) == s;
    }
  }

  /** The length of the run of non-whitespace characters that starts `s`. */
  function WordLen(s: string): (n: nat)
    ensures n <= |s|
    ensures NoSpace(s[..n])
    ensures n < |s| ==> IsSpace(s[n])
  {
    if s == [] || IsSpace(s[0]) then 0 else 1 + WordLen(s[1..])
  }

  /** `s.split()`: the maximal runs of non-whitespace characters, in order. */
  function Split(s: string): (ws: seq<string>)
    ensures Words(ws)
    decreases |s|
  {
    var t := TrimLeft(s);
    if t == [] then []
    else
      var n := WordLen(t);
      assert n > 0;
      WordsCons(t[..n], Split(t[n..]));
      [t[..n]] + Split(t[n..])
  }

  lemma WordsCons(w: string, ws: seq<string>)
    requires w != [] && NoSpace(w) && Words(ws)
    ensures Words([w] + ws)
  {
    forall i | 0 <= i < |[w] + ws| ensures ([w] + ws)[i] != [] && NoSpace(([w] + ws)[i]) {
      if i > 0 {
        assert ([w] + ws)[i] == ws[i - 1];
      }
    }
  }

  /** `" ".join(ws)`. */
  function Join(ws: seq<string>): string {
    if ws == [] then ""
    else if |ws| == 1 then ws[0]
    else ws[0] + " " + Join(ws[1..])
  }

  /** The shape `" ".join(s.split())` produces: every whitespace character is
      an interior single blank followed by a non-blank. */
  predicate SingleSpaced(s: string) {
    forall i :: 0 <= i < |s| && IsSpace(s[i]) ==>
      s[i] == ' ' && 0 < i < |s| - 1 && !IsSpace(s[i + 1])
  }

  /** `s.replace(a, b)` for one-character `a` and `b`. */
  function ReplaceChar(s: string, a: char, b: char): (r: string)
    ensures |r| == |s|
    ensures forall i :: 0 <= i < |s| ==> r[i] == if s[i] == a then b else s[i]
  {
    seq(|s|, i requires 0 <= i < |s| => if s[i] == a then b else s[i])
  }

  lemma ReplaceCharAppend(x: string, y: string, a: char, b: char)
    ensures ReplaceChar(x + y, a, b) == ReplaceChar(x, a, b) + ReplaceChar(y, a, b)
  {
    var l, r := ReplaceChar(x + y, a, b), ReplaceChar(x, a, b) + ReplaceChar(y, a, b);
    forall i | 0 <= i < |l| ensures l[i] == r[i] {
      if i >= |x| {
        assert (x + y)[i] == y[i - |x|];
      }
    }
  }

  /** `s.replace(c, "")`: `s` with every `c` removed. */
  function RemoveChar(s: string, c: char): (r: string)
    ensures c !in r
    ensures forall x :: x in r <==> x in s && x != c
    ensures |r| <= |s|
  {
    if s == [] then []
    else (if s[0] == c then [] else [s[0]]) + RemoveChar(s[1..], c)
  }

  /** `c.upper()` where it can yield an ASCII capital: the ASCII letters and the
      two non-ASCII letters whose upper case is one (U+0131 dotless i and
      U+017F long s). */
  function UpperChar(c: char): char {
    if 'a' <= c <= 'z' then (c as int - 32) as char
    else if c == '\U{131}' then 'I'
    else if c == '\U{17F}' then 'S'
    else c
  }

  function Upper(s: string): (r: string)
    ensures |r| == |s|
    ensures forall i :: 0 <= i < |s| ==> r[i] == UpperChar(s[i])
  {
    seq(|s|, i requires 0 <= i < |s| => UpperChar(s[i]))
  }

  predicate IsDigit(c: char) {
    '0' <= c <= '9'
  }

  /** `s.isdigit()` for ASCII digits: true for a non-empty run of digits. */
  predicate IsDigits(s: string) {
    s != [] && forall i :: 0 <= i < |s| ==> IsDigit(s[i])
  }

  // ---------------------------------------------------------------------------
  // Properties of split and join
  // ---------------------------------------------------------------------------

  /** What every word of a split list is: non-empty and free of whitespace. */
  predicate Words(ws: seq<string>) {
    forall i :: 0 <= i < |ws| ==> ws[i] != [] && NoSpace(ws[i])
  }

  /** A string that starts with a non-blank is split into its first word and
      the split of what follows it. */
  lemma SplitFirstWord(s: string)
    requires s != [] && !IsSpace(s[0])
    ensures Split(s) == [s[..WordLen(s)]] + Split(s[WordLen(s)..])
    ensures WordLen(s) > 0
  {
    assert TrimLeft(s) == s;
  }

  /** Leading whitespace does not change the split. */
  lemma SplitSkipsSpace(s: string)
    requires s != [] && IsSpace(s[0])
    ensures Split(s) == Split(s[1..])
  {
  }

  lemma {:induction false} JoinShape(ws: seq<string>)
    requires Words(ws)
    ensures SingleSpaced(Join(ws))
    ensures ws != [] ==> Join(ws) != [] && !IsSpace(Join(ws)[0])
  {
    if |ws| > 1 {
      JoinShape(ws[1..]);
      var j := Join(ws[1..]);
      var s := ws[0] + " " + j;
      assert s == Join(ws);
      assert forall i :: 0 <= i < |ws[0]| ==> s[i] == ws[0][i];
      forall i | 0 <= i < |s| && IsSpace(s[i])
        ensures s[i] == ' ' && 0 < i < |s| - 1 && !IsSpace(s[i + 1])
      {
        if i == |ws[0]| {
          assert s[i + 1] == j[0];
        } else if i > |ws[0]| {
          assert s[i] == j[i - |ws[0]| - 1];
          if i + 1 < |s| {
            assert s[i + 1] == j[i + 1 - |ws[0]| - 1];
          }
        }
      }
    } else if |ws| == 1 {
      assert Join(ws) == ws[0];
    }
  }

  /** A character property that holds of every character of `s` and of the
      blank holds of every character of `" ".join(s.split())`. */
  lemma JoinSplitKeeps(s: string, p: char -> bool)
    requires forall c :: c in s ==> p(c)
    requires p(' ')
    ensures forall c :: c in Join(Split(s)) ==> p(c)
  {
    SplitKeeps(s, p);
    JoinKeeps(Split(s), p);
  }

  lemma {:induction false} SplitKeeps(s: string, p: char -> bool)
    requires forall c :: c in s ==> p(c)
    ensures forall w, c :: w in Split(s) && c in w ==> p(c)
    decreases |s|
  {
    var t := TrimLeft(s);
    if t != [] {
      var n := WordLen(t);
      var rest := t[n..];
      assert forall c :: c in t ==> c in s;
      assert forall c :: c in rest ==> c in t;
      assert forall c :: c in t[..n] ==> c in t;
      SplitKeeps(rest, p);
      assert Split(s) == [t[..n]] + Split(rest);
    }
  }

  lemma {:induction false} JoinKeeps(ws: seq<string>, p: char -> bool)
    requires forall w, c :: w in ws && c in w ==> p(c)
    requires p(' ')
    ensures forall c :: c in Join(ws) ==> p(c)
  {
    if |ws| > 1 {
      assert ws[0] in ws;
      assert forall w :: w in ws[1..] ==> w in ws;
      JoinKeeps(ws[1..], p);
      assert Join(ws) == ws[0] + " " + Join(ws[1..]);
    } else if |ws| == 1 {
      assert ws[0] in ws;
    }
  }

  /** The rest of a single-spaced string after one of its blanks is again
      single-spaced and starts with a non-blank. */
  lemma AfterBlank(s: string, n: nat)
    requires SingleSpaced(s)
    requires n < |s| && IsSpace(s[n])
    ensures n + 1 < |s| && s[n + 1..] != [] && !IsSpace(s[n + 1..][0])
    ensures SingleSpaced(s[n + 1..])
  {
    var rest := s[n + 1..];
    forall i | 0 <= i < |rest| && IsSpace(rest[i])
      ensures rest[i] == ' ' && 0 < i < |rest| - 1 && !IsSpace(rest[i + 1])
    {
      assert rest[i] == s[n + 1 + i];
      if i + 1 < |rest| {
        assert rest[i + 1] == s[n + 1 + i + 1];
      }
    }
  }

  lemma SplitAt(s: string, n: nat)
    requires n < |s|
    ensures s == s[..n] + [s[n]] + s[n + 1..]
  {
  }

  lemma JoinCons(w: string, ws: seq<string>)
    ensures Join([w] + ws) == if ws == [] then w else w + " " + Join(ws)
  {
    if ws != [] {
      assert ([w] + ws)[1..] == ws;
    }
  }

  /** Splitting a single-spaced string and joining the words gives it back. */
  lemma {:induction false} JoinSplitOfSingleSpaced(s: string)
    requires SingleSpaced(s)
    ensures Join(Split(s)) == s
    ensures s != [] ==> Split(s) != []
    decreases |s|
  {
    if s != [] {
      SplitFirstWord(s);
      var n := WordLen(s);
      var w := s[..n];
      if n == |s| {
        assert s[n..] == [];
        JoinCons(w, []);
        assert w == s;
      } else {
        AfterBlank(s, n);
        var rest := s[n + 1..];
        assert s[n..][1..] == rest;
        SplitSkipsSpace(s[n..]);
        JoinSplitOfSingleSpaced(rest);
        var ws := Split(rest);
        assert Split(s) == [w] + ws;
        JoinCons(w, ws);
        assert Join(Split(s)) == w + " " + rest;
        assert s[n] == ' ';
        SplitAt(s, n);
      }
    }
  }

  /** Nothing splits into no words. */
  lemma SplitEmpty()
    ensures Split([]) == []
  {
  }

  /** Leading whitespace of any length does not change the split. */
  lemma {:induction false} SplitSkipsRun(w: string, y: string)
    requires AllSpace(w)
    ensures Split(w + y) == Split(y)
    decreases |w|
  {
    if w != [] {
      SplitSkipsOne(w, y);
      SplitSkipsRun(w[1..], y);
    } else {
      assert w + y == y;
    }
  }

  lemma SplitSkipsOne(w: string, y: string)
    requires w != [] && IsSpace(w[0])
    ensures Split(w + y) == Split(w[1..] + y)
  {
    var s := w + y;
    assert s[0] == w[0] && s[1..] == w[1..] + y;
    SplitSkipsSpace(s);
  }

  /** The first word of `x + z` is the first word of `x` when that word ends
      inside `x`, or when `z` starts with whitespace. */
  lemma {:induction false} WordLenAppend(x: string, z: string)
    requires WordLen(x) < |x| || (z != [] && IsSpace(z[0]))
    ensures WordLen(x + z) == WordLen(x)
    decreases |x|
  {
    if x == [] {
      assert x + z == z;
    } else if !IsSpace(x[0]) {
      assert (x + z)[0] == x[0] && (x + z)[1..] == x[1..] + z;
      WordLenAppend(x[1..], z);
    } else {
      assert (x + z)[0] == x[0];
    }
  }

  /** A run of whitespace separates words: the words of `x + w + y` are the
      words of `x` followed by the words of `y`, however long the run. */
  lemma {:induction false} SplitAround(x: string, w: string, y: string)
    requires w != [] && AllSpace(w)
    ensures Split(x + w + y) == Split(x) + Split(y)
    decreases |x|
  {
    if x == [] {
      assert x + w + y == w + y;
      SplitSkipsRun(w, y);
      SplitEmpty();
      assert Split(x) + Split(y) == Split(y);
    } else if IsSpace(x[0]) {
      SplitAroundSpace(x, w, y);
      SplitAround(x[1..], w, y);
    } else {
      var n := SplitAroundWord(x, w, y);
      SplitAround(x[n..], w, y);
      ConsAssoc(x[..n], Split(x[n..]), Split(y));
    }
  }

  lemma ConsAssoc<T>(a: T, b: seq<T>, c: seq<T>)
    ensures [a] + (b + c) == ([a] + b) + c
  {
  }

  lemma SplitAroundSpace(x: string, w: string, y: string)
    requires x != [] && IsSpace(x[0])
    ensures Split(x + w + y) == Split(x[1..] + w + y)
    ensures Split(x) == Split(x[1..])
  {
    var s := x + w + y;
    assert s[0] == x[0] && s[1..] == x[1..] + w + y;
    SplitSkipsSpace(s);
    SplitSkipsSpace(x);
  }

  lemma SplitAroundWord(x: string, w: string, y: string) returns (n: nat)
    requires x != [] && !IsSpace(x[0])
    requires w != [] && IsSpace(w[0])
    ensures 0 < n <= |x|
    ensures Split(x + w + y) == [x[..n]] + Split(x[n..] + w + y)
    ensures Split(x) == [x[..n]] + Split(x[n..])
  {
    n := WordLen(x);
    var s := x + w + y;
    assert s == x + (w + y) && s[0] == x[0];
    WordLenAppend(x, w + y);
    assert s[..n] == x[..n] && s[n..] == x[n..] + w + y;
    SplitFirstWord(s);
    SplitFirstWord(x);
  }

  /** Whitespace around a string does not change its split. */
  lemma SplitPadded(w1: string, x: string, w2: string)
    requires AllSpace(w1) && AllSpace(w2)
    ensures Split(w1 + x + w2) == Split(x)
  {
    ConcatAssoc(w1, x, w2);
    SplitSkipsRun(w1, x + w2);
    SplitTrailing(x, w2);
  }

  lemma ConcatAssoc<T>(a: seq<T>, b: seq<T>, c: seq<T>)
    ensures a + b + c == a + (b + c)
  {
  }

  /** Trailing whitespace does not change the split. */
  lemma SplitTrailing(x: string, w: string)
    requires AllSpace(w)
    ensures Split(x + w) == Split(x)
  {
    if w != [] {
      assert x + w + [] == x + w;
      SplitAround(x, w, []);
      SplitEmpty();
      assert Split(x) + [] == Split(x);
    } else {
      assert x + w == x;
    }
  }

  /** A string is its stripped form with whitespace on either side. */
  lemma StripParts(s: string) returns (w1: string, w2: string)
    ensures AllSpace(w1) && AllSpace(w2) && s == w1 + Strip(s) + w2
  {
    var l := TrimLeft(s);
    var t := TrimRight(l);
    assert Strip(s) == t;
    w1, w2 := PartsOf(s, l, t);
  }

  lemma PartsOf(s: string, l: string, t: string) returns (w1: string, w2: string)
    requires |l| <= |s| && l == s[|s| - |l|..] && AllSpace(s[..|s| - |l|])
    requires |t| <= |l| && t == l[..|t|] && AllSpace(l[|t|..])
    ensures AllSpace(w1) && AllSpace(w2) && s == w1 + t + w2
  {
    w1 := s[..|s| - |l|];
    w2 := l[|t|..];
    assert s == w1 + l;
    assert l == t + w2;
    assert s == w1 + (t + w2);
  }

  /** Whitespace followed by whitespace is whitespace. */
  lemma AllSpaceAppend(a: string, b: string)
    requires AllSpace(a) && AllSpace(b)
    ensures AllSpace(a + b)
  {
    forall i | 0 <= i < |a + b| ensures IsSpace((a + b)[i]) {
      if i >= |a| {
        assert (a + b)[i] == b[i - |a|];
      }
    }
  }

  // ---------------------------------------------------------------------------
  // Properties of strip
  // ---------------------------------------------------------------------------

  /** Leading whitespace in front of a string that starts with a non-blank is
      exactly what `lstrip` removes. */
  lemma {:induction false} TrimLeftPadded(w: string, x: string)
    requires AllSpace(w)
    requires x != [] && !IsSpace(x[0])
    ensures TrimLeft(w + x) == x
  {
    if w != [] {
      assert (w + x)[1..] == w[1..] + x;
      TrimLeftPadded(w[1..], x);
    } else {
      assert w + x == x;
    }
  }

  /** Trailing whitespace behind a string that ends with a non-blank is
      exactly what `rstrip` removes. */
  lemma {:induction false} TrimRightPadded(x: string, w: string)
    requires AllSpace(w)
    requires x != [] && !IsSpace(x[|x| - 1])
    ensures TrimRight(x + w) == x
  {
    if w != [] {
      var n := |w| - 1;
      assert (x + w)[..|x + w| - 1] == x + w[..n];
      TrimRightPadded(x, w[..n]);
    } else {
      assert x + w == x;
    }
  }

  /** `strip` removes whitespace padding, and only that, from a non-empty
      string with no whitespace at its ends. */
  lemma StripPadded(w1: string, x: string, w2: string)
    requires AllSpace(w1) && AllSpace(w2)
    requires x != [] && EdgeTrimmed(x)
    ensures Strip(w1 + x + w2) == x
  {
    assert w1 + x + w2 == w1 + (x + w2);
    TrimLeftPadded(w1, x + w2);
    TrimRightPadded(x, w2);
  }

  /** Removing a character distributes over concatenation. */
  lemma {:induction false} RemoveCharAppend(x: string, y: string, c: char)
    ensures RemoveChar(x + y, c) == RemoveChar(x, c) + RemoveChar(y, c)
  {
    if x != [] {
      assert (x + y)[1..] == x[1..] + y;
      RemoveCharAppend(x[1..], y, c);
    } else {
      assert x + y == y;
    }
  }

  /** Removing a character that does not occur changes nothing. */
  lemma {:induction false} RemoveAbsent(s: string, c: char)
    requires c !in s
    ensures RemoveChar(s, c) == s
  {
    if s != [] {
      assert c !in s[1..];
      RemoveAbsent(s[1..], c);
    }
  }
}
