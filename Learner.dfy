/** `MessageLearner`: the corpus store as an object whose learning step
    updates its containers in place, and the read-only operations that
    generate and humanize replies from it. Every `random.*` call is a
    nondeterministic choice (`:|`), so each contract speaks of all outcomes
    the random source could produce; the three `random.random() < p` gates
    of `humanize_message` are passed in as booleans. */
module Learner {
  import opened Wrappers
  import opened Lists
  import opened Text
  import opened Counters
  import opened Corpus
  import opened Humanizer

  /** A viable word: one with a non-empty successor counter. */
  predicate HasSuccessors(wa: Associations, w: string) {
    w in wa && wa[w] != map[]
  }

  /** `[w for w in tokens if w in wa and wa[w]]`. */
  function ViableWords(wa: Associations, tokens: seq<string>): (vs: seq<string>)
    ensures forall w :: w in vs <==> w in tokens && HasSuccessors(wa, w)
    ensures |vs| <= |tokens|
  {
    if tokens == [] then []
    else
      var rest := ViableWords(wa, tokens[1..]);
      assert forall w :: w in tokens <==> w == tokens[0] || w in tokens[1..];
      (if HasSuccessors(wa, tokens[0]) then [tokens[0]] else []) + rest
  }

  /** One link of the word chain: `next` is among the five most frequent
      successors of `w` (for some order of ties), and is a most frequent one
      when `w` has at most two successors. */
  ghost predicate ChainStep(wa: Associations, w: string, next: string) {
    && HasSuccessors(wa, w)
    && IsTopKey(wa[w], 5, next)
    && (|wa[w]| <= 2 ==> forall k :: k in wa[w] ==> wa[w][k] <= wa[w][next])
  }

  ghost predicate IsChain(wa: Associations, words: seq<string>) {
    forall i :: 0 <= i < |words| - 1 ==> ChainStep(wa, words[i], words[i + 1])
  }

  /** The index of the first greeting in list order that `m` starts with. */
  function FirstGreeting(gs: seq<string>, m: string): (r: Option<nat>)
    ensures r.Some? ==> r.value < |gs| && StartsWith(m, gs[r.value])
    ensures r.Some? ==> forall j :: 0 <= j < r.value ==> !StartsWith(m, gs[j])
    ensures r.None? ==> forall j :: 0 <= j < |gs| ==> !StartsWith(m, gs[j])
  {
    if gs == [] then None
    else if StartsWith(m, gs[0]) then Some(0)
    else
      match FirstGreeting(gs[1..], m)
      case None => None
      case Some(i) => Some(i + 1)
  }

  /** With the built-in greeting list, "ку бро", "приветик" and
      "приветствую" are never the greeting answered: every message starting
      with them also starts with "ку" or "привет", which come earlier in the
      list. */
  lemma ShadowedGreetings(m: string)
    ensures FirstGreeting(DefaultGreetings, m) != Some(1)
    ensures FirstGreeting(DefaultGreetings, m) != Some(9)
    ensures FirstGreeting(DefaultGreetings, m) != Some(12)
  {
    var gs := DefaultGreetings;
    if StartsWith(m, gs[1]) {
      assert gs[1][..|gs[0]|] == gs[0];
      assert m[..|gs[0]|] == m[..|gs[1]|][..|gs[0]|];
    }
    if StartsWith(m, gs[9]) {
      assert gs[9][..|gs[2]|] == gs[2];
      assert m[..|gs[2]|] == m[..|gs[9]|][..|gs[2]|];
    }
    if StartsWith(m, gs[12]) {
      assert gs[12][..|gs[2]|] == gs[2];
      assert m[..|gs[2]|] == m[..|gs[12]|][..|gs[2]|];
    }
  }

  /** The greeting list after loading: unchanged without stored greetings,
      otherwise `list(set(...))` of both lists, in an order the set picks. */
  method MergeInSetOrder(custom: seq<string>) returns (r: seq<string>)
    ensures r != [] && Distinct(r)
    ensures forall g :: g in r <==> g in DefaultGreetings || g in custom
    ensures custom == [] ==> r == DefaultGreetings
  {
    DefaultGreetingsDistinct();
    r := DefaultGreetings;
    if custom != [] {
      r := Dedup(DefaultGreetings + custom);
      assert DefaultGreetings[0] in r;
      r :| r != [] && Distinct(r) &&
        (forall g :: g in r ==> g in DefaultGreetings || g in custom) &&
        (forall g :: g in DefaultGreetings + custom ==> g in r);
    }
  }

  /** The archiving step of `learn_from_message`: a new message longer than
      3 characters is appended, and the archive is cut to its newest
      `PatternCap` entries after the append. */
  method ArchiveMessage(patterns: seq<string>, m: string) returns (r: seq<string>)
    ensures r == ArchivePattern(patterns, m)
  {
    r := patterns;
    if |m| > 3 && m !in r {
      r := r + [m];
      if |r| > PatternCap {
        r := r[|r| - PatternCap..];
      }
    }
  }

  /** The counting loop of `learn_from_message`:
      `word_associations[tokens[i]][tokens[i + 1]] += 1` for each `i`. */
  method CountPairs(wa: Associations, tokens: seq<string>) returns (counts: Associations)
    ensures counts == AddPairs(wa, tokens)
  {
    counts := wa;
    var i := 0;
    while i + 1 < |tokens|
      invariant i <= |tokens| && (i < |tokens| || tokens == [])
      invariant counts == AddPairs(wa, tokens[..Min(i + 1, |tokens|)])
    {
      assert tokens[..i + 2][..i + 1] == tokens[..i + 1];
      counts := Bump(counts, tokens[i], tokens[i + 1]);
      i := i + 1;
    }
    assert tokens[..Min(i + 1, |tokens|)] == tokens;
  }

  /** The greeting loop of `learn_from_message`: for each greeting in list
      order that applies, the trimmed remainder is appended under it unless
      already there. */
  method RecordGreetings(responses: Responses, greetings: seq<string>, m: string) returns (learned: Responses)
    ensures learned == LearnGreetings(responses, greetings, m)
  {
    learned := responses;
    for j := 0 to |greetings|
      invariant learned == LearnGreetings(responses, greetings[..j], m)
    {
      assert greetings[..j + 1][..j] == greetings[..j];
      var greeting := greetings[j];
      if StartsWith(m, greeting) && |m| > |greeting| + 2 {
        var part := Strip(m[|greeting|..]);
        if part !in Resp(learned, greeting) {
          learned := learned[greeting := Resp(learned, greeting) + [part]];
        }
      }
    }
    assert greetings[..|greetings|] == greetings;
  }

  /** The classification step of `learn_from_message`: the message is
      appended, unless already there, under the key of the first test that
      matches. */
  method FileByKind(responses: Responses, m: string) returns (learned: Responses)
    ensures learned == RecordKind(responses, m)
  {
    var key;
    if Contains(m, "?") {
      key := "questions";
    } else if Contains(m, "!") || Contains(m, "ого") || Contains(m, "вау") || Contains(m, "круто") {
      key := "exclamations";
    } else {
      key := "statements";
    }
    assert key == Classify(m).Key();
    learned := responses;
    if m !in Resp(learned, key) {
      learned := learned[key := Resp(learned, key) + [m]];
    }
  }

  class MessageLearner {
    var greetings: seq<string>
    var responses: Responses
    var wordAssociations: Associations
    var messagePatterns: seq<string>

    ghost predicate Valid()
      reads this
    {
      greetings != [] && Distinct(greetings) && PositiveCounts(wordAssociations)
    }

    /** `__init__` followed by `load_data`, given what reading the data file
        gave. */
    constructor (loaded: LoadOutcome)
      requires loaded.Decoded? ==> PositiveCounts(loaded.data.associations)
      ensures Valid()
      ensures messagePatterns == SeededPatterns(loaded)
      ensures loaded.Decoded? && loaded.data.greetings == [] ==> greetings == DefaultGreetings
      ensures loaded.Decoded? ==>
        && (forall g :: g in greetings <==> g in DefaultGreetings || g in loaded.data.greetings)
        && responses == loaded.data.responses
        && wordAssociations == loaded.data.associations
      ensures !loaded.Decoded? ==> greetings == DefaultGreetings && responses == map[] && wordAssociations == map[]
    {
      DefaultGreetingsDistinct();
      match loaded
      case Decoded(d) =>
        var merged := MergeInSetOrder(d.greetings);
        greetings := merged;
        responses := d.responses;
        wordAssociations := d.associations;
        messagePatterns := SeededPatterns(loaded);
      case _ =>
        greetings := DefaultGreetings;
        responses := map[];
        wordAssociations := map[];
        messagePatterns := SeededPatterns(loaded);
    }

    /** `learn_from_message`: a raw message shorter than 2 characters changes
        nothing; otherwise its normal form is archived, its adjacent token
        pairs counted, its greeting continuations recorded and the message
        filed under its kind. */
    method LearnFromMessage(message: string)
      requires Valid()
      modifies this
      ensures Valid() && greetings == old(greetings)
      ensures |message| < 2 ==>
        && responses == old(responses)
        && wordAssociations == old(wordAssociations)
        && messagePatterns == old(messagePatterns)
      ensures |message| >= 2 ==>
        var m := Normalize(message);
        && messagePatterns == ArchivePattern(old(messagePatterns), m)
        && wordAssociations == AddPairs(old(wordAssociations), Split(m))
        && responses == RecordKind(LearnGreetings(old(responses), greetings, m), m)
    {
      if |message| < 2 {
        return;
      }
      var m := Normalize(message);
      var tokens := Split(m);

      messagePatterns := ArchiveMessage(messagePatterns, m);

      var counts := CountPairs(wordAssociations, tokens);
      AddPairsPositive(wordAssociations, tokens);
      wordAssociations := counts;

      var learned := RecordGreetings(responses, greetings, m);
      learned := FileByKind(learned, m);
      responses := learned;
    }

    /** `get_greeting`: one of the greetings. */
    method GetGreeting() returns (g: string)
      requires Valid()
      ensures g in greetings
    {
      assert greetings[0] in greetings;
      g :| g in greetings;
    }

    /** `get_response_to_greeting`: one of the continuations recorded for
        `greeting`, or `None` when there are none. */
    method GetResponseToGreeting(greeting: string) returns (r: Option<string>)
      ensures r.None? <==> Resp(responses, greeting) == []
      ensures r.Some? ==> r.value in Resp(responses, greeting)
    {
      if greeting in responses && responses[greeting] != [] {
        assert responses[greeting][0] in responses[greeting];
        var x :| x in responses[greeting];
        r := Some(x);
      } else {
        r := None;
      }
    }

    /** The greeting echo for greeting `g`: `g` alone when nothing is recorded
        under it (or the recorded continuation drawn is empty), otherwise `g`,
        a space and a recorded continuation. */
    ghost predicate IsGreetingEcho(g: string, r: string)
      reads this
    {
      && (Resp(responses, g) == [] ==> r == g)
      && (r == g || exists x :: x in Resp(responses, g) && x != "" && r == g + " " + x)
      && (Resp(responses, g) != [] && "" !in Resp(responses, g) ==>
            exists x :: x in Resp(responses, g) && r == g + " " + x)
    }

    /** A word chain starting at a viable input word, at most 11 words long,
        that stopped before 4 words only at a word without successors. */
    ghost predicate IsChainFrom(viable: seq<string>, words: seq<string>)
      reads this
    {
      && 1 <= |words| <= 11
      && words[0] in viable
      && IsChain(wordAssociations, words)
      && (|words| < 4 ==> !HasSuccessors(wordAssociations, words[|words| - 1]))
    }

    /** The fallback reply: a recorded statement, else an archived pattern,
        else one of the fixed generic phrases. */
    ghost predicate IsFallback(r: string)
      reads this
    {
      if Resp(responses, "statements") != [] then r in Resp(responses, "statements")
      else if messagePatterns != [] then r in messagePatterns
      else r in FallbackPhrases
    }

    /** One step of the chain: `most_common(5)` of the successors, then a
        sampled and weighted choice among them, or the top one when there
        are at most two. */
    method NextWord(current: string) returns (next: string)
      requires HasSuccessors(wordAssociations, current)
      ensures ChainStep(wordAssociations, current, next)
    {
      var successors := wordAssociations[current];
      // most_common of a non-empty counter is non-empty, so the source's
      // `else: break` after it is never taken
      var top := MostCommon(successors, 5);
      if |top| > 2 {
        // a sample of three of the top five, then a choice weighted by the
        // (positive) counts: any sampled word may come out
        assert 0 <= 0 < 1 < 2 < |top|;
        var a, b, c :| 0 <= a < b < c < |top|;
        assert top[a] in [top[a], top[b], top[c]];
        next :| next in [top[a], top[b], top[c]];
        var k :| k in {a, b, c} && top[k] == next;
        MostCommonAreTopKeys(successors, 5, top, k);
      } else {
        next := top[0];
        MostCommonAreTopKeys(successors, 5, top, 0);
        FirstIsMax(successors, 5, top);
      }
    }

    /** The Markov branch of `generate_response`: a random viable start
        word, then 3 to 10 steps along the top-5 successors. */
    method ComposeChain(viable: seq<string>) returns (words: seq<string>)
      requires viable != []
      ensures IsChainFrom(viable, words)
    {
      assert viable[0] in viable;
      var start :| start in viable;
      words := [start];
      var current := start;
      var steps :| 3 <= steps <= 10;
      for s := 0 to steps
        invariant |words| == s + 1 && words[0] == start && words[|words| - 1] == current
        invariant IsChain(wordAssociations, words)
      {
        if !HasSuccessors(wordAssociations, current) {
          break;
        }
        var next := NextWord(current);
        current := next;
        words := words + [current];
      }
    }

    /** `generate_response`. With no input: an archived pattern, or a greeting
        when the archive is empty. Otherwise, on the normalised input, the
        first applicable strategy of: the echo of the first greeting in list
        order that the input starts with; a word chain from a viable input
        token; the fallback. */
    method GenerateResponse(input: string) returns (r: string)
      requires Valid()
      ensures input == "" && messagePatterns != [] ==> r in messagePatterns
      ensures input == "" && messagePatterns == [] ==> r in greetings
      ensures input != "" ==>
        var m := Normalize(input);
        match FirstGreeting(greetings, m)
        case Some(i) => IsGreetingEcho(greetings[i], r)
        case None =>
          var viable := ViableWords(wordAssociations, Split(m));
          if viable != [] then exists words :: IsChainFrom(viable, words) && r == Join(words)
          else IsFallback(r)
    {
      if input == "" {
        if messagePatterns != [] {
          assert messagePatterns[0] in messagePatterns;
          r :| r in messagePatterns;
        } else {
          assert greetings[0] in greetings;
          r :| r in greetings;
        }
        return;
      }
      var m := Normalize(input);
      var found := FindGreeting(m);
      if found.Some? {
        r := EchoGreeting(greetings[found.value]);
        return;
      }
      var tokens := Split(m);
      if tokens != [] {
        var viable := ViableWords(wordAssociations, tokens);
        if viable != [] {
          var words := ComposeChain(viable);
          r := Join(words);
          return;
        }
      }
      r := Fallback();
    }

    /** The greeting loop of `generate_response`: the first greeting in list
        order that the normalised input starts with. */
    method FindGreeting(m: string) returns (found: Option<nat>)
      ensures found == FirstGreeting(greetings, m)
    {
      for i := 0 to |greetings|
        invariant forall j :: 0 <= j < i ==> !StartsWith(m, greetings[j])
      {
        if StartsWith(m, greetings[i]) {
          found := Some(i);
          return;
        }
      }
      found := None;
    }

    /** The reply to a message starting with greeting `g`: `g` followed by a
        recorded continuation when one is drawn and non-empty, else `g`. */
    method EchoGreeting(g: string) returns (r: string)
      ensures IsGreetingEcho(g, r)
    {
      var response := GetResponseToGreeting(g);
      if response.Some? && response.value != "" {
        r := g + " " + response.value;
      } else {
        r := g;
      }
    }

    /** The last resort of `generate_response`. */
    method Fallback() returns (r: string)
      ensures IsFallback(r)
    {
      if Resp(responses, "statements") != [] {
        var statements := Resp(responses, "statements");
        assert statements[0] in statements;
        r :| r in statements;
      } else if messagePatterns != [] {
        assert messagePatterns[0] in messagePatterns;
        r :| r in messagePatterns;
      } else {
        assert FallbackPhrases[0] in FallbackPhrases;
        r :| r in FallbackPhrases;
      }
    }

    /** `humanize_message`; `strip`, `emoji` and `typo` stand for the outcomes
        of its three `random.random() < p` tests. `base` is the message (a
        greeting when it is empty) and `pre` the text the typo step starts
        from. */
    method HumanizeMessage(message: string, strip: bool, emoji: bool, typo: bool)
      returns (r: string, ghost base: string, ghost pre: string)
      requires Valid()
      ensures if message == "" then base in greetings else base == message
      ensures var s := if strip then StripPunctuation(base) else base;
        if emoji then |pre| == |s| + 2 && pre[..|s|] == s && EndsWithEmoji(pre) else pre == s
      ensures !typo ==> r == pre
      ensures typo ==> r == pre || Retyped(Split(pre), Split(r))
      ensures typo ==> |Split(r)| == |Split(pre)|
      ensures typo ==> r == pre || r == Join(Split(r))
      ensures typo && Split(pre) != [] && (forall w :: w in Split(pre) ==> |w| > 3) ==>
        Retyped(Split(pre), Split(r)) && r == Join(Split(r))
      ensures typo && (forall w :: w in Split(pre) ==> |w| <= 3) ==> r == pre
      ensures strip ==> NoPunctuation(r)
    {
      r := message;
      if r == "" {
        r := GetGreeting();
      }
      base := r;
      if strip {
        r := StripPunctuation(r);
      }
      if emoji {
        r := AppendEmoji(r);
      }
      pre := r;
      if typo {
        r := Misspell(r);
      }
    }
  }
}
