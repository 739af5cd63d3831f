/** Python string primitives the learner relies on: `str.lower`, `str.strip`,
    `str.startswith`, the `in` substring test, `str.split()` with no argument
    and `' '.join`. Strings are sequences of Unicode scalar values, so `|s|`
    agrees with Python's `len(s)`. */
module Text {

  /** The characters for which Python's `str.isspace()` holds; `strip()` and
      `split()` with no argument treat exactly these as whitespace. */
  predicate IsSpace(c: char) {
    c == ' ' || ('\t' <= c <= '\r') || ('\U{1C}' <= c <= '\U{1F}') ||
    c == '\U{85}' || c == '\U{A0}' || c == '\U{1680}' ||
    ('\U{2000}' <= c <= '\U{200A}') || c == '\U{2028}' || c == '\U{2029}' ||
    c == '\U{202F}' || c == '\U{205F}' || c == '\U{3000}'
  }

  ghost predicate AllSpace(s: string) {
    forall i :: 0 <= i < |s| ==> IsSpace(s[i])
  }

  /** A token as `split()` produces it: non-empty, without whitespace. */
  ghost predicate IsWord(w: string) {
    w != [] && forall i :: 0 <= i < |w| ==> !IsSpace(w[i])
  }

  ghost predicate AllWords(ws: seq<string>) {
    forall k :: 0 <= k < |ws| ==> IsWord(ws[k])
  }

  // ---------------------------------------------------------------- lower()

  /** Lower-casing of one character, for the Latin and Cyrillic capitals. */
  function LowerChar(c: char): (d: char)
    ensures IsSpace(c) ==> d == c
    ensures 'A' <= c <= 'Z' ==> d as int == c as int + 32
    ensures '\U{410}' <= c <= '\U{42F}' ==> d as int == c as int + 32
    ensures '\U{400}' <= c <= '\U{40F}' ==> d as int == c as int + 80
    ensures IsSpace(d) <==> IsSpace(c)
  {
    if 'A' <= c <= 'Z' then (c as int + 32) as char
    else if '\U{410}' <= c <= '\U{42F}' then (c as int + 32) as char
    else if '\U{400}' <= c <= '\U{40F}' then (c as int + 80) as char
    else c
  }

  /** `s.lower()`: whitespace stays where it was, so `strip()` and `split()`
      cut a lowered string at the same places. */
  function Lower(s: string): (r: string)
    ensures |r| == |s|
    ensures forall i :: 0 <= i < |s| ==> (IsSpace(r[i]) <==> IsSpace(s[i]))
  {
    seq(|s|, i requires 0 <= i < |s| => LowerChar(s[i]))
  }

  /** Lower-casing a lower-cased character changes nothing. */
  lemma LowerCharIdempotent(c: char)
    ensures LowerChar(LowerChar(c)) == LowerChar(c)
  {
  }

  ghost predicate IsLower(s: string) {
    forall i :: 0 <= i < |s| ==> LowerChar(s[i]) == s[i]
  }

  lemma LowerIsLower(s: string)
    ensures IsLower(Lower(s))
  {
    forall i | 0 <= i < |s| ensures LowerChar(Lower(s)[i]) == Lower(s)[i] {
      LowerCharIdempotent(s[i]);
    }
  }

  // ---------------------------------------------------------------- strip()

  /** The first index at or after `i` that holds no whitespace, or `|s|`. */
  function SkipSpaces(s: string, i: nat): (j: nat)
    requires i <= |s|
    ensures i <= j <= |s|
    ensures forall k :: i <= k < j ==> IsSpace(s[k])
    ensures j == |s| || !IsSpace(s[j])
    decreases |s| - i
  {
    if i == |s| || !IsSpace(s[i]) then i else SkipSpaces(s, i + 1)
  }

  /** The end of `s[lo..j]` once its trailing whitespace is dropped. */
  function DropTrailingSpaces(s: string, lo: nat, j: nat): (k: nat)
    requires lo <= j <= |s|
    ensures lo <= k <= j
    ensures forall m :: k <= m < j ==> IsSpace(s[m])
    ensures k == lo || !IsSpace(s[k - 1])
    decreases j - lo
  {
    if j == lo || !IsSpace(s[j - 1]) then j else DropTrailingSpaces(s, lo, j - 1)
  }

  ghost predicate IsStripped(s: string) {
    s == [] || (!IsSpace(s[0]) && !IsSpace(s[|s| - 1]))
  }

  /** `s.strip()`: `s` with its leading and trailing whitespace removed. */
  function Strip(s: string): (r: string)
    ensures |r| <= |s|
    ensures IsStripped(r)
  {
    var a := SkipSpaces(s, 0);
    s[a..DropTrailingSpaces(s, a, |s|)]
  }

  /** What `strip()` removes is whitespace on either side of a contiguous
      piece of `s`. */
  lemma StripSlice(s: string)
    ensures var r := Strip(s);
      exists i :: 0 <= i <= |s| - |r| && s[i..i + |r|] == r && AllSpace(s[..i]) && AllSpace(s[i + |r|..])
  {
    var a := SkipSpaces(s, 0);
    var b := DropTrailingSpaces(s, a, |s|);
    assert AllSpace(s[..a]);
    assert AllSpace(s[b..]);
    assert s[a..a + (b - a)] == Strip(s);
  }

  /** A string ending in a non-space character strips to a non-empty one. */
  lemma StripNonEmpty(s: string)
    requires s != [] && !IsSpace(s[|s| - 1])
    ensures Strip(s) != []
  {
    var a := SkipSpaces(s, 0);
    assert a < |s|;
    assert DropTrailingSpaces(s, a, |s|) == |s|;
  }

  /** Stripping a string without surrounding whitespace leaves it as it is. */
  lemma StripStripped(s: string)
    requires IsStripped(s)
    ensures Strip(s) == s
  {
    if s != [] {
      assert SkipSpaces(s, 0) == 0;
      assert DropTrailingSpaces(s, 0, |s|) == |s|;
      assert s[0..|s|] == s;
    }
  }

  /** The normal form the learner stores: `s.lower().strip()`. */
  function Normalize(s: string): (r: string)
    ensures |r| <= |s|
    ensures IsStripped(r)
  {
    Strip(Lower(s))
  }

  /** Any piece of a lower-cased string is lower-cased already. */
  lemma LowerSliceFixed(s: string, i: nat, j: nat)
    requires i <= j <= |s|
    ensures Lower(Lower(s)[i..j]) == Lower(s)[i..j]
  {
    var l := Lower(s);
    LowerIsLower(s);
    forall k | 0 <= k < j - i ensures Lower(l[i..j])[k] == l[i..j][k] {
      assert l[i..j][k] == l[i + k];
    }
  }

  /** A normal form is lower-cased already. */
  lemma NormalizedIsLower(s: string)
    ensures Lower(Normalize(s)) == Normalize(s)
  {
    var l := Lower(s);
    var a := SkipSpaces(l, 0);
    LowerSliceFixed(s, a, DropTrailingSpaces(l, a, |l|));
  }

  /** Normalising twice is normalising once, so a stored message is found
      again when the same text arrives a second time. */
  lemma NormalizeIdempotent(s: string)
    ensures Normalize(Normalize(s)) == Normalize(s)
  {
    NormalizedIsLower(s);
    StripStripped(Normalize(s));
  }

  // ------------------------------------------------ startswith() and `in`

  /** `s.startswith(p)`: `s` is `p` followed by something. */
  function StartsWith(s: string, p: string): (b: bool)
    ensures b <==> exists t :: s == p + t
  {
    if |p| <= |s| && s[..|p|] == p then
      assert s == p + s[|p|..];
      true
    else
      false
  }

  ghost predicate OccursAt(s: string, p: string, i: int) {
    0 <= i && i + |p| <= |s| && s[i..i + |p|] == p
  }

  /** `p in s` for strings: `p` occurs as a contiguous piece of `s`. */
  function Contains(s: string, p: string): (b: bool)
    ensures b <==> exists i :: OccursAt(s, p, i)
    decreases |s|
  {
    if StartsWith(s, p) then
      assert OccursAt(s, p, 0);
      true
    else if s == [] then
      false
    else
      var b := Contains(s[1..], p);
      assert forall i :: OccursAt(s[1..], p, i) <==> OccursAt(s, p, i + 1);
      assert forall i :: OccursAt(s, p, i) && i != 0 ==> OccursAt(s[1..], p, i - 1);
      b
  }

  // ------------------------------------------------ split() and ' '.join()

  /** The end of the run of non-whitespace characters starting at `i`. */
  function WordEnd(s: string, i: nat): (j: nat)
    requires i <= |s|
    ensures i <= j <= |s|
    ensures forall k :: i <= k < j ==> !IsSpace(s[k])
    ensures j == |s| || IsSpace(s[j])
    decreases |s| - i
  {
    if i == |s| || IsSpace(s[i]) then i else WordEnd(s, i + 1)
  }

  /** `s.split()`: the maximal runs of non-whitespace characters, in order. */
  function Split(s: string): (ws: seq<string>)
    ensures AllWords(ws)
    decreases |s|
  {
    if s == [] then []
    else if IsSpace(s[0]) then Split(s[1..])
    else
      var n := WordEnd(s, 0);
      [s[..n]] + Split(s[n..])
  }

  /** Every character of a token comes from the split text. */
  lemma {:induction false} SplitChars(s: string)
    ensures forall k, c :: 0 <= k < |Split(s)| && c in Split(s)[k] ==> c in s
    decreases |s|
  {
    if s != [] {
      if IsSpace(s[0]) {
        SplitChars(s[1..]);
        assert forall c :: c in s[1..] ==> c in s;
      } else {
        var n := WordEnd(s, 0);
        SplitChars(s[n..]);
        assert forall c :: c in s[n..] ==> c in s;
        assert forall c :: c in s[..n] ==> c in s;
      }
    }
  }

  /** `' '.join(ws)`. */
  function Join(ws: seq<string>): (s: string)
    ensures forall c :: c in s ==> c == ' ' || exists k :: 0 <= k < |ws| && c in ws[k]
  {
    if ws == [] then ""
    else if |ws| == 1 then ws[0]
    else
      var rest := Join(ws[1..]);
      assert forall c :: c in rest ==> c == ' ' || exists k :: 0 <= k < |ws| - 1 && c in ws[1..][k];
      ws[0] + " " + rest
  }

  lemma {:induction false} SplitLeadingSpace(s: string)
    requires s != [] && IsSpace(s[0])
    ensures Split(s) == Split(s[1..])
  {
  }

  lemma {:induction false} SplitWord(w: string, rest: string)
    requires IsWord(w)
    requires rest == [] || IsSpace(rest[0])
    ensures Split(w + rest) == [w] + Split(rest)
  {
    var s := w + rest;
    assert s[0] == w[0];
    assert WordEnd(s, 0) == |w| by {
      WordEndOver(s, 0, |w|);
    }
    assert s[..|w|] == w;
    assert s[|w|..] == rest;
  }

  lemma {:induction false} WordEndOver(s: string, i: nat, j: nat)
    requires i <= j <= |s|
    requires forall k :: i <= k < j ==> !IsSpace(s[k])
    requires j == |s| || IsSpace(s[j])
    ensures WordEnd(s, i) == j
    decreases j - i
  {
    if i < j {
      WordEndOver(s, i + 1, j);
    }
  }

  /** A single word splits to itself. */
  lemma SplitSingleWord(w: string)
    requires IsWord(w)
    ensures Split(w) == [w]
  {
    assert w + "" == w;
    SplitWord(w, "");
  }

  /** Any whitespace character separates: the tokens of `a`, a whitespace
      character and `b` are the tokens of `a` followed by those of `b`.
      With `SplitSingleWord` and `Split("") == []` this determines `split()`
      on every string. */
  lemma {:induction false} SplitAtSpace(a: string, c: char, b: string)
    requires IsSpace(c)
    ensures Split(a + [c] + b) == Split(a) + Split(b)
    decreases |a|
  {
    if a == [] {
      var s := a + [c] + b;
      assert s == [c] + b;
      SplitLeadingSpace(s);
      assert s[1..] == b;
    } else if IsSpace(a[0]) {
      SplitAtSpace(a[1..], c, b);
      SplitAtSpaceAfterSpace(a, c, b);
    } else {
      var m := WordEnd(a, 0);
      LeadingWord(a);
      SplitAtSpace(a[m..], c, b);
      SplitAtSpaceAfterWord(a[..m], a[m..], c, b);
    }
  }

  /** The step of `SplitAtSpace` when `a` starts with whitespace. */
  lemma SplitAtSpaceAfterSpace(a: string, c: char, b: string)
    requires a != [] && IsSpace(a[0])
    requires Split(a[1..] + [c] + b) == Split(a[1..]) + Split(b)
    ensures Split(a + [c] + b) == Split(a) + Split(b)
  {
    var s := a + [c] + b;
    SplitLeadingSpace(s);
    SplitLeadingSpace(a);
    assert s[1..] == a[1..] + [c] + b;
  }

  /** The step of `SplitAtSpace` when `a` is the word `w` followed by `rest`. */
  lemma SplitAtSpaceAfterWord(w: string, rest: string, c: char, b: string)
    requires IsWord(w) && IsSpace(c) && (rest == [] || IsSpace(rest[0]))
    requires Split(rest + [c] + b) == Split(rest) + Split(b)
    ensures Split(w + rest + [c] + b) == Split(w + rest) + Split(b)
  {
    var tail := rest + [c] + b;
    calc {
      Split(w + rest + [c] + b);
      == { SpaceThenTail(w, rest, c, b); }
      Split(w + tail);
      == { SpaceThenTail(w, rest, c, b); SplitWord(w, tail); }
      [w] + Split(tail);
      ==
      [w] + (Split(rest) + Split(b));
      ==
      ([w] + Split(rest)) + Split(b);
      == { SplitWord(w, rest); }
      Split(w + rest) + Split(b);
    }
  }

  lemma SpaceThenTail(w: string, rest: string, c: char, b: string)
    requires IsSpace(c) && (rest == [] || IsSpace(rest[0]))
    ensures IsSpace((rest + [c] + b)[0])
    ensures w + rest + [c] + b == w + (rest + [c] + b)
  {
  }

  /** The word at the start of a string that does not start with whitespace. */
  lemma LeadingWord(a: string)
    requires a != [] && !IsSpace(a[0])
    ensures var m := WordEnd(a, 0);
      IsWord(a[..m]) && (a[m..] == [] || IsSpace(a[m..][0])) && a == a[..m] + a[m..]
  {
  }

  /** Splitting the space-joined tokens gives the tokens back. */
  lemma {:induction false} SplitJoin(ws: seq<string>)
    requires AllWords(ws)
    ensures Split(Join(ws)) == ws
  {
    if ws == [] {
    } else if |ws| == 1 {
      assert ws[0] + "" == ws[0];
      SplitWord(ws[0], "");
    } else {
      var rest := Join(ws[1..]);
      assert AllWords(ws[1..]);
      SplitJoin(ws[1..]);
      assert ws[0] + " " + rest == ws[0] + (" " + rest);
      SplitWord(ws[0], " " + rest);
      SplitLeadingSpace(" " + rest);
      assert (" " + rest)[1..] == rest;
      assert [ws[0]] + ws[1..] == ws;
    }
  }
}
