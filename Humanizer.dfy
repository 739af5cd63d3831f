/** The three mutations that make a reply look typed by a person: dropping
    punctuation, appending an emoji and putting one typo into a word. */
module Humanizer {
  import opened Text
  import opened Lists

  /** The characters `re.sub(r'[,.;:]', '', message)` deletes. */
  predicate IsPunctuation(c: char) {
    c == ',' || c == '.' || c == ';' || c == ':'
  }

  ghost predicate NoPunctuation(s: string) {
    forall i :: 0 <= i < |s| ==> !IsPunctuation(s[i])
  }

  /** The nine emojis a reply may end with, one code point each. */
  const Emojis: seq<char> := [
    '\U{1F44D}', '\U{1F60A}', '\U{1F642}', '\U{1F44C}', '\U{1F4AA}',
    '\U{1F525}', '\U{1F602}', '\U{1F440}', '\U{1F914}'
  ]

  /** The letters a typo may put into a word: the 32 lower-case Cyrillic
      letters other than `ё`. */
  const TypoLetters: string := "йцукенгшщзхъфывапролджэячсмитьбю"

  lemma TypoLettersAreLetters(c: char)
    requires c in TypoLetters
    ensures '\U{430}' <= c <= '\U{44F}'
  {
  }

  /** `re.sub(r'[,.;:]', '', s)`. */
  function StripPunctuation(s: string): (r: string)
    ensures NoPunctuation(r)
    ensures |r| <= |s|
  {
    if s == [] then ""
    else
      var rest := StripPunctuation(s[1..]);
      if IsPunctuation(s[0]) then rest else [s[0]] + rest
  }

  /** Every other character is kept. */
  lemma {:induction false} StripPunctuationChars(s: string)
    ensures forall c :: c in StripPunctuation(s) <==> c in s && !IsPunctuation(c)
    decreases |s|
  {
    if s != [] {
      StripPunctuationChars(s[1..]);
      assert forall c :: c in s <==> c == s[0] || c in s[1..];
    }
  }

  /** Text without punctuation passes through unchanged. */
  lemma {:induction false} StripPunctuationKeeps(s: string)
    requires NoPunctuation(s)
    ensures StripPunctuation(s) == s
  {
    if s != [] {
      StripPunctuationKeeps(s[1..]);
    }
  }

  /** The marks are removed piece by piece: stripping a concatenation is
      concatenating the stripped pieces. With `StripPunctuationKeeps` and
      `StripPunctuationChars` this determines the result on every string. */
  lemma {:induction false} StripPunctuationConcat(a: string, b: string)
    ensures StripPunctuation(a + b) == StripPunctuation(a) + StripPunctuation(b)
    decreases |a|
  {
    if a != [] {
      assert (a + b)[1..] == a[1..] + b;
      StripPunctuationConcat(a[1..], b);
    } else {
      assert a + b == b;
    }
  }

  /** Stripping twice is stripping once. */
  lemma StripPunctuationIdempotent(s: string)
    ensures StripPunctuation(StripPunctuation(s)) == StripPunctuation(s)
  {
    StripPunctuationKeeps(StripPunctuation(s));
  }

  /** `s` followed by a space and one of the emojis. */
  ghost predicate EndsWithEmoji(s: string) {
    |s| >= 2 && s[|s| - 2] == ' ' && s[|s| - 1] in Emojis
  }

  /** `message += " " + random.choice(emojis)`. */
  method AppendEmoji(s: string) returns (r: string)
    ensures |r| == |s| + 2 && r[..|s|] == s
    ensures EndsWithEmoji(r)
    ensures NoPunctuation(s) ==> NoPunctuation(r)
  {
    assert Emojis[0] in Emojis;
    var e :| e in Emojis;
    r := s + [' ', e];
  }

  /** `t` is `w` with the character at one interior position (neither the
      first nor the last) replaced by a typo letter. */
  ghost predicate IsTypoOf(t: string, w: string) {
    |t| == |w| > 3 &&
    exists p :: 1 <= p < |w| - 1 && t[p] in TypoLetters && t[..p] == w[..p] && t[p + 1..] == w[p + 1..]
  }

  /** `ws2` is `ws` with the word at index `j` replaced by a typo of some word
      of `ws`, where `j` is the first index holding the word it held. */
  ghost predicate Retyped(ws: seq<string>, ws2: seq<string>) {
    && |ws2| == |ws|
    && exists j ::
         && 0 <= j < |ws|
         && (forall i :: 0 <= i < j ==> ws[i] != ws[j])
         && (forall i :: 0 <= i < |ws| && i != j ==> ws2[i] == ws[i])
         && (exists w :: w in ws && IsTypoOf(ws2[j], w))
  }

  /** The typo step: a word is picked; if it is longer than 3 characters,
      one interior character of it becomes a typo letter, and the result is
      written over the first occurrence of a second, independently picked
      word; the words are then joined with single spaces. */
  method Misspell(s: string) returns (r: string)
    ensures (forall w :: w in Split(s) ==> |w| <= 3) ==> r == s
    ensures r == s || Retyped(Split(s), Split(r))
    ensures r == s || r == Join(Split(r))
    ensures Split(s) != [] && (forall w :: w in Split(s) ==> |w| > 3) ==>
      Retyped(Split(s), Split(r)) && r == Join(Split(r))
    ensures forall c :: c in r ==> c in s || c in TypoLetters || c == ' '
    ensures NoPunctuation(s) ==> NoPunctuation(r)
  {
    r := s;
    var words := Split(s);
    if words != [] {
      assert words[0] in words;
      var word :| word in words;
      if |word| > 3 {
        var pos :| 1 <= pos <= |word| - 2;
        assert TypoLetters[0] in TypoLetters;
        var letter :| letter in TypoLetters;
        var typo := word[..pos] + [letter] + word[pos + 1..];
        TypoFacts(word, pos, letter, typo);
        var other :| other in words;
        var j := IndexOf(words, other);
        var ws2 := words[j := typo];
        SplitJoin(ws2);
        r := Join(ws2);
        ReplacedChars(s, ws2, j, typo, word);
        RetypedIntro(words, ws2, j, word);
        TypoKeepsNoPunctuation(s, r);
      }
    }
  }

  lemma TypoKeepsNoPunctuation(s: string, r: string)
    requires forall c :: c in r ==> c in s || c in TypoLetters || c == ' '
    ensures NoPunctuation(s) ==> NoPunctuation(r)
  {
    if NoPunctuation(s) {
      forall i | 0 <= i < |r| ensures !IsPunctuation(r[i]) {
        assert r[i] in r;
        if r[i] in TypoLetters {
          TypoLettersAreLetters(r[i]);
        } else if r[i] != ' ' {
          var k :| 0 <= k < |s| && s[k] == r[i];
        }
      }
    }
  }

  lemma RetypedIntro(ws: seq<string>, ws2: seq<string>, j: nat, word: string)
    requires j < |ws| && (forall i :: 0 <= i < j ==> ws[i] != ws[j])
    requires |ws2| == |ws| && word in ws && IsTypoOf(ws2[j], word)
    requires forall i :: 0 <= i < |ws| && i != j ==> ws2[i] == ws[i]
    ensures Retyped(ws, ws2)
  {
  }

  lemma TypoFacts(word: string, pos: nat, letter: char, typo: string)
    requires IsWord(word) && 1 <= pos < |word| - 1 && |word| > 3 && letter in TypoLetters
    requires typo == word[..pos] + [letter] + word[pos + 1..]
    ensures IsWord(typo) && IsTypoOf(typo, word)
    ensures forall c :: c in typo ==> c in word || c in TypoLetters
  {
    assert typo[..pos] == word[..pos] && typo[pos + 1..] == word[pos + 1..];
    assert typo[pos] == letter;
    TypoLettersAreLetters(letter);
    forall k | 0 <= k < |typo| ensures typo[k] == letter || typo[k] == word[k] {
      if k < pos { assert typo[k] == typo[..pos][k]; }
      else if k > pos { assert typo[k] == typo[pos + 1..][k - pos - 1]; }
    }
  }

  lemma ReplacedChars(s: string, ws2: seq<string>, j: nat, typo: string, word: string)
    requires word in Split(s) && j < |Split(s)| && ws2 == Split(s)[j := typo]
    requires forall c :: c in typo ==> c in word || c in TypoLetters
    ensures forall c :: c in Join(ws2) ==> c in s || c in TypoLetters || c == ' '
  {
    var words := Split(s);
    SplitChars(s);
    forall c | c in Join(ws2) && c != ' ' ensures c in s || c in TypoLetters {
      var k :| 0 <= k < |ws2| && c in ws2[k];
      if k != j {
        assert c in words[k];
      } else {
        var q :| 0 <= q < |words| && words[q] == word;
        assert c in words[q] || c in TypoLetters;
      }
    }
  }
}
