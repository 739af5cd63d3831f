/** The corpus store of `MessageLearner`: the built-in word lists, and the
    learning step written as pure functions of the old store, one per
    container the learner updates (pattern archive, greeting continuations,
    classification buckets), plus the seeding done right after loading. */
module Corpus {
  import opened Text
  import opened Lists
  import opened Counters

  const DefaultGreetings: seq<string> := [
    "ку", "ку бро", "привет", "хай", "здарова", "йоу", "хеллоу", "салют",
    "здравствуйте", "приветик", "дороу", "хола", "приветствую", "здрасьте"
  ]

  const Phrases: seq<string> := [
    "норм", "как сам", "че каво", "как дела", "что нового", "что делаешь",
    "понятно", "ясно", "согласен", "точно", "реально", "зачет", "круто",
    "да ладно", "серьезно", "жесть", "капец", "ну и ну", "офигеть", "ого"
  ]

  /** The generic replies used when nothing has been learned at all. */
  const FallbackPhrases: seq<string> := ["ну да", "согласен", "точно", "и не говори", "бывает"]

  /** The most message patterns kept after an append. */
  const PatternCap: nat := 5000

  /** A store below this many patterns after loading is topped up with `Phrases`. */
  const SeedThreshold: nat := 10

  /** `responses`: a `defaultdict(list)`; a missing key reads as `[]`. */
  type Responses = map<string, seq<string>>

  function Resp(responses: Responses, key: string): seq<string> {
    if key in responses then responses[key] else []
  }

  /** `if x not in s: s.append(x)`. */
  function AppendNew(s: seq<string>, x: string): (r: seq<string>)
    ensures s <= r && x in r && |r| <= |s| + 1
    ensures x in s ==> r == s
    ensures forall y :: y in r <==> y in s || y == x
    ensures Distinct(s) ==> Distinct(r)
  {
    if x in s then s else s + [x]
  }

  // ---------------------------------------------------- pattern archive

  /** The archive after learning normalised message `m`: appended when longer
      than 3 characters and new, and then cut to the newest `PatternCap`. */
  function ArchivePattern(patterns: seq<string>, m: string): (r: seq<string>)
    ensures |r| <= |patterns| + 1
    ensures forall p :: p in r ==> p in patterns || p == m
  {
    if |m| > 3 && m !in patterns then
      var p := patterns + [m];
      if |p| > PatternCap then p[|p| - PatternCap..] else p
    else
      patterns
  }

  /** A message that is too short or already archived changes nothing. */
  lemma ArchiveSkips(patterns: seq<string>, m: string)
    requires |m| <= 3 || m in patterns
    ensures ArchivePattern(patterns, m) == patterns
  {
  }

  /** After an append the archive is the newest `min(n + 1, 5000)` entries of
      the old archive followed by `m`: the oldest are evicted first. */
  lemma ArchiveKeepsNewest(patterns: seq<string>, m: string)
    requires |m| > 3 && m !in patterns
    ensures var r := ArchivePattern(patterns, m);
      && |r| == Min(|patterns| + 1, PatternCap)
      && r[|r| - 1] == m
      && r[..|r| - 1] == patterns[|patterns| - (|r| - 1)..]
  {
  }

  /** The archive never grows past the cap once it is within it. */
  lemma ArchiveBounded(patterns: seq<string>, m: string)
    requires |patterns| <= PatternCap
    ensures |ArchivePattern(patterns, m)| <= PatternCap
  {
  }

  /** A duplicate-free archive stays duplicate-free, and a message longer
      than 3 characters is then in it exactly once. */
  lemma ArchiveOnce(patterns: seq<string>, m: string)
    requires Distinct(patterns)
    ensures Distinct(ArchivePattern(patterns, m))
    ensures |m| > 3 ==> m in ArchivePattern(patterns, m)
  {
    if |m| > 3 && m !in patterns {
      var p := patterns + [m];
      assert Distinct(p);
      if |p| > PatternCap {
        var r := p[|p| - PatternCap..];
        assert r[|r| - 1] == m;
        forall i, j | 0 <= i < j < |r| ensures r[i] != r[j] {
          assert r[i] == p[i + |p| - PatternCap] && r[j] == p[j + |p| - PatternCap];
        }
      }
    }
  }

  // --------------------------------------------- greeting continuations

  /** `message.startswith(g) and len(message) > len(g) + 2`. */
  predicate GreetingApplies(m: string, g: string) {
    StartsWith(m, g) && |m| > |g| + 2
  }

  /** `message[len(g):].strip()`. */
  function Continuation(m: string, g: string): string
    requires |g| <= |m|
  {
    Strip(m[|g|..])
  }

  /** One pass of the loop over the greetings, for greeting `g`. */
  function LearnGreeting(responses: Responses, g: string, m: string): (r: Responses)
    ensures r.Keys == if GreetingApplies(m, g) then responses.Keys + {g} else responses.Keys
    ensures forall k :: k != g ==> Resp(r, k) == Resp(responses, k)
  {
    if GreetingApplies(m, g) then responses[g := AppendNew(Resp(responses, g), Continuation(m, g))]
    else responses
  }

  /** The responses after the loop over the greetings `gs`, in list order. */
  function LearnGreetings(responses: Responses, gs: seq<string>, m: string): (r: Responses)
    ensures responses.Keys <= r.Keys
    decreases |gs|
  {
    if gs == [] then responses
    else LearnGreeting(LearnGreetings(responses, gs[..|gs| - 1], m), gs[|gs| - 1], m)
  }

  /** The only keys the greeting loop adds are greetings it went over. */
  lemma {:induction false} LearnGreetingsNewKeys(responses: Responses, gs: seq<string>, m: string, k: string)
    requires k in LearnGreetings(responses, gs, m) && k !in responses
    ensures k in gs
    decreases |gs|
  {
    if gs != [] {
      var front := gs[..|gs| - 1];
      if k in LearnGreetings(responses, front, m) {
        LearnGreetingsNewKeys(responses, front, m, k);
      }
    }
  }

  lemma AppendNewTwice(s: seq<string>, x: string)
    ensures AppendNew(AppendNew(s, x), x) == AppendNew(s, x)
  {
  }

  /** Each greeting the message starts with (with more than 2 characters
      after it) has the trimmed remainder recorded once under it; the entry
      of every other key is unchanged. */
  lemma {:induction false} LearnGreetingsEffect(responses: Responses, gs: seq<string>, m: string, k: string)
    ensures Resp(LearnGreetings(responses, gs, m), k) ==
      if k in gs && GreetingApplies(m, k) then AppendNew(Resp(responses, k), Continuation(m, k))
      else Resp(responses, k)
    decreases |gs|
  {
    if gs != [] {
      var front, g := gs[..|gs| - 1], gs[|gs| - 1];
      var before := LearnGreetings(responses, front, m);
      LearnGreetingsEffect(responses, front, m, k);
      assert LearnGreetings(responses, gs, m) == LearnGreeting(before, g, m);
      assert k in gs <==> k in front || k == g by {
        assert gs == front + [g];
      }
      if k == g && GreetingApplies(m, k) {
        if k in front {
          AppendNewTwice(Resp(responses, k), Continuation(m, k));
        }
      } else {
        assert Resp(LearnGreeting(before, g, m), k) == Resp(before, k);
      }
    }
  }

  /** A learned continuation is never empty, because the normalised message
      ends in a non-space character that lies after the greeting. */
  lemma ContinuationNonEmpty(m: string, g: string)
    requires IsStripped(m) && GreetingApplies(m, g)
    ensures Continuation(m, g) != ""
  {
    var rest := m[|g|..];
    assert rest[|rest| - 1] == m[|m| - 1];
    StripNonEmpty(rest);
  }

  // ------------------------------------------------------ classification

  datatype MessageKind = Question | Exclamation | Statement {
    /** The `responses` key the kind is stored under. */
    function Key(): string {
      match this
      case Question => "questions"
      case Exclamation => "exclamations"
      case Statement => "statements"
    }
  }

  /** First match wins: a `?` makes a question, even if an exclamation
      marker is present too. */
  function Classify(m: string): (k: MessageKind)
    ensures k == Question <==> Contains(m, "?")
    ensures k == Exclamation <==>
      !Contains(m, "?") && (Contains(m, "!") || Contains(m, "ого") || Contains(m, "вау") || Contains(m, "круто"))
  {
    if Contains(m, "?") then Question
    else if Contains(m, "!") || Contains(m, "ого") || Contains(m, "вау") || Contains(m, "круто") then Exclamation
    else Statement
  }

  /** The responses after the message is filed under its kind's key. */
  function RecordKind(responses: Responses, m: string): (r: Responses)
    ensures r.Keys == responses.Keys + {Classify(m).Key()}
  {
    var key := Classify(m).Key();
    responses[key := AppendNew(Resp(responses, key), m)]
  }

  /** The message lands in exactly one bucket, its kind's: that bucket keeps
      its old entries and gains the message only when it was absent, and stays
      duplicate-free; every other key keeps its entry. */
  lemma RecordKindEffect(responses: Responses, m: string, k: string)
    ensures var r := RecordKind(responses, m);
      && m in Resp(r, Classify(m).Key())
      && Resp(r, Classify(m).Key()) == AppendNew(Resp(responses, Classify(m).Key()), m)
      && (k != Classify(m).Key() ==> Resp(r, k) == Resp(responses, k))
      && (Distinct(Resp(responses, k)) ==> Distinct(Resp(r, k)))
  {
  }

  // --------------------------------------------------- seeding on load

  /** The fields of the data file, as decoded (a missing field decodes to an
      empty value). */
  datatype StoredCorpus = StoredCorpus(
    responses: Responses,
    associations: Associations,
    patterns: seq<string>,
    greetings: seq<string>)

  /** What reading the data file gave. */
  datatype LoadOutcome = NoFile | Unreadable | Decoded(data: StoredCorpus)

  /** The pattern archive right after loading: with no file or an unreadable
      one the built-in phrases; a decoded archive of fewer than 10 entries is
      topped up with them; a larger one is kept as it is. */
  function SeededPatterns(o: LoadOutcome): (r: seq<string>)
    ensures |r| >= SeedThreshold
    ensures o.Decoded? ==> o.data.patterns <= r
    ensures o.Decoded? && |o.data.patterns| >= SeedThreshold ==> r == o.data.patterns
    ensures (!o.Decoded? || |o.data.patterns| < SeedThreshold) ==>
      && |r| == (if o.Decoded? then |o.data.patterns| else 0) + |Phrases|
      && r[|r| - |Phrases|..] == Phrases
  {
    match o
    case Decoded(d) => if |d.patterns| < SeedThreshold then d.patterns + Phrases else d.patterns
    case _ => [] + Phrases
  }

  /** Duplicates removed, first occurrence kept. */
  function Dedup(s: seq<string>): (r: seq<string>)
    ensures Distinct(r)
    ensures forall x :: x in r <==> x in s
    decreases |s|
  {
    if s == [] then []
    else
      var d := Dedup(s[..|s| - 1]);
      var x := s[|s| - 1];
      assert forall y :: y in s <==> y in s[..|s| - 1] || y == x;
      if x in d then d else d + [x]
  }

  lemma DefaultGreetingsDistinct()
    ensures Distinct(DefaultGreetings)
  {
    forall i, j | 0 <= i < j < |DefaultGreetings| ensures DefaultGreetings[i] != DefaultGreetings[j] {
      DefaultGreetingsDiffer(i, j);
    }
  }

  /** The built-in greetings are pairwise different: each differs from every
      other in its length, in one of its first three letters or in the rest. */
  lemma DefaultGreetingsDiffer(i: nat, j: nat)
    requires i < j < |DefaultGreetings|
    ensures DefaultGreetings[i] != DefaultGreetings[j]
  {
    var a, b := DefaultGreetings[i], DefaultGreetings[j];
    assert |a| != |b| || a[0] != b[0] || a[1] != b[1] || a[2] != b[2] || a[3..] != b[3..];
  }
}
