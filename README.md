# MessageLearner — a Dafny model

This project models the learning-and-generation engine of a Telegram bot that
imitates a human chat participant (`MessageLearner` in `1.py`), and the
bot's list of monitored chats.

The learner keeps four containers:
- a list of greetings;
- `responses`, a `defaultdict(list)` from keys to recorded texts;
- `word_associations`, a table from each word to a `Counter` of the words seen right after it;
- `message_patterns`, an archive of normalised messages, capped at 5000.

Its operations are:
- `learn_from_message`, which updates all four containers;
- `generate_response`: a greeting echo, a Markov-style word chain, or a fallback;
- `humanize_message`: drops punctuation, appends an emoji, puts in a typo;
- `get_greeting` and `get_response_to_greeting`;
- the seeding done by `load_data` right after the data file is read.

The model has these modules:
- `Lists`: the list primitives `list.index` and "no duplicates", shared by the other modules.
- `Text`: Python's `lower`, `strip`, `startswith`, substring `in`, `split()` and `' '.join`.
- `Counters`: the association table, pair counting and `Counter.most_common`.
- `Corpus`: the built-in word lists, and the learning step as pure functions of the old store, one per container. It also has the load-time seeding.
- `Humanizer`: the three humanizing mutations.
- `Learner`: the class `MessageLearner`, whose learning method updates its fields in place. Each loop of `learn_from_message` is a method proved against the function in `Corpus` or `Counters` that specifies it.
- `Chats`: the class `ChatList` over `config.chat_ids`.

Every `random.*` call is a nondeterministic choice, so each contract covers every outcome the random source could produce. The three `random.random() < p` gates of `humanize_message` are boolean parameters.

## Model

| member | source | states |
|---|---|---|
| Text.Lower | 1.py:139 | The model's lowering keeps the length and leaves whitespace exactly where it was. |
| Text.Normalize | 1.py:139 | The normal form `lower().strip()` is no longer than the input and has no surrounding whitespace. |
| Text.NormalizeIdempotent | 1.py:139 | Normalising a normalised message changes nothing, so a stored message is recognised when it arrives again. |
| Text.Strip | 1.py:163 | The result of `strip()` is no longer than the input and neither starts nor ends with whitespace. |
| Text.StripSlice | 1.py:163 | The result of `strip()` is a contiguous piece of the input, and everything cut off on either side is whitespace. |
| Text.StripStripped | 1.py:163 | A string without surrounding whitespace strips to itself. |
| Text.NormalizedIsLower | 1.py:139 | A normal form is lower-cased already: lowering it again changes nothing. |
| Text.StartsWith | 1.py:162 | `s.startswith(p)` holds exactly when `s` is `p` followed by some string. |
| Text.Contains | 1.py:168-172 | The substring test holds exactly when the pattern occurs at some position. |
| Text.Split | 1.py:145 | `split()` yields non-empty tokens without whitespace. |
| Text.SplitChars | 1.py:145 | Every character of a token comes from the split text. |
| Text.SplitSingleWord | 1.py:145 | A single word without whitespace splits to itself. |
| Text.SplitAtSpace | 1.py:145 | Any whitespace character separates: splitting `a`, one whitespace character and `b` gives the tokens of `a` followed by those of `b`. With the empty string and single words this fixes `split()` on every string, tabs, newlines and repeated spaces included. |
| Text.Join | 1.py:243 | Every character of the joined text is a space or a character of some token. |
| Text.SplitJoin | 1.py:270-277 | Splitting the space-joined tokens gives back exactly those tokens. |
| Counters.Bump | 1.py:158 | `+= 1` raises exactly one pair's count by one. Every other count is unchanged. The table gains at most the key of the first word. Positivity of counts is kept. |
| Counters.AddPairs | 1.py:155-158 | Counting the pairs of a token list never drops a word from the table. |
| Counters.AddPairsCount | 1.py:155-158 | After learning a token list, each pair's count has grown by exactly the number of times that pair is adjacent in the list. |
| Counters.CountsGrow | 1.py:155-158 | Learning never lowers a count. |
| Counters.AddPairsKeys | 1.py:155-158 | The only new words in the table are the tokens that have a successor. |
| Counters.AddPairsPositive | 1.py:155-158 | Learning keeps every stored count at least 1. |
| Counters.MostCommon | 1.py:230 | `most_common(n)` returns `min(n, size)` distinct keys in non-increasing order of count. No key left out counts more than a key taken. |
| Counters.MostCommonAreTopKeys | 1.py:230-234 | Every key `most_common(5)` returns has fewer than 5 keys counting strictly more. |
| Counters.FirstIsMax | 1.py:235-236 | The first key of `most_common` has a maximal count. |
| Corpus.AppendNew | 1.py:164-165 | The append-if-absent keeps the old list as a prefix, grows it by at most one, and contains the new item. An item already present leaves the list unchanged, even one with duplicates. Its members are the old ones and the item. A duplicate-free list stays duplicate-free. |
| Corpus.ArchivePattern | 1.py:148-152 | The archive grows by at most one entry, and holds nothing but old entries and the message. |
| Corpus.ArchiveSkips | 1.py:148 | A normalised message of at most 3 characters, or one already archived, leaves the archive unchanged. |
| Corpus.ArchiveKeepsNewest | 1.py:148-152 | After an append, the archive is the newest `min(n + 1, 5000)` old entries followed by the message. The oldest are evicted first. |
| Corpus.ArchiveBounded | 1.py:151-152 | An archive within the 5000 cap stays within it. |
| Corpus.ArchiveOnce | 1.py:148-149 | A duplicate-free archive stays duplicate-free. A message longer than 3 characters is in it afterwards. |
| Corpus.LearnGreeting | 1.py:161-165 | One pass adds the greeting's key exactly when the greeting applies, and leaves every other key's entry as it was. |
| Corpus.LearnGreetings | 1.py:161-165 | The greeting loop drops no key. |
| Corpus.LearnGreetingsNewKeys | 1.py:161-165 | Every key the greeting loop adds is one of the greetings it went over. |
| Corpus.LearnGreetingsEffect | 1.py:161-165 | After the greeting loop, the trimmed remainder is recorded once under each greeting the message starts with, when more than 2 characters follow it. Every other key keeps its entry. |
| Corpus.ContinuationNonEmpty | 1.py:161-163 | A recorded greeting continuation is never empty. |
| Corpus.Classify | 1.py:168-177 | A message is a question exactly when it contains `?`. It is an exclamation exactly when it has no `?` but contains `!`, `ого`, `вау` or `круто`. |
| Corpus.RecordKind | 1.py:167-179 | Filing adds at most one key, the key of the message's kind. |
| Corpus.RecordKindEffect | 1.py:167-179 | The message ends up in its kind's bucket. That bucket keeps its old entries and gains the message only when it was absent, and stays duplicate-free. Every other key keeps its entry. |
| Corpus.SeededPatterns | 1.py:98-118 | After loading, the archive has at least 10 entries. A decoded archive is kept as a prefix, unchanged if it had 10 or more entries. Otherwise the result is exactly the decoded entries, if any, followed by the 20 built-in phrases. |
| Corpus.Dedup | 1.py:105 | The result is duplicate-free and has the same members as the input. |
| Corpus.DefaultGreetingsDistinct | 1.py:72-75 | The 14 built-in greetings are pairwise different. |
| Humanizer.StripPunctuation | 1.py:260-261 | `re.sub(r'[,.;:]', '', s)` leaves no `, . ; :` and makes nothing longer. |
| Humanizer.StripPunctuationChars | 1.py:261 | A character is in the result exactly when it is in the input and is not one of the four marks. |
| Humanizer.StripPunctuationConcat | 1.py:261 | Stripping a concatenation is concatenating the stripped pieces. With `StripPunctuationKeeps` and `StripPunctuationChars` this fixes the result on every string. |
| Humanizer.StripPunctuationKeeps | 1.py:261 | Text without those marks passes through unchanged. |
| Humanizer.StripPunctuationIdempotent | 1.py:261 | Stripping twice is stripping once. |
| Humanizer.AppendEmoji | 1.py:264-266 | The message is kept as a prefix, followed by a space and one of the nine emojis. Text without punctuation stays without it. |
| Humanizer.Misspell | 1.py:269-277 | When no word is longer than 3 characters the text is unchanged. Otherwise the text is unchanged, or its words are those of the input except that the first occurrence of one picked word becomes a one-letter typo of a word of the input, and the text is those words joined with single spaces. When the text has words and all are longer than 3 characters, the typo is always written. Only typo letters and spaces are new. Text without punctuation stays without it. |
| Humanizer.TypoKeepsNoPunctuation | 1.py:275 | Inserting only Cyrillic letters and spaces cannot introduce punctuation. |
| Lists.IndexOf | 1.py:276 | `words.index(x)` is the first index holding `x`. |
| Learner.ViableWords | 1.py:219 | A word is viable exactly when it is an input token with a non-empty successor counter. |
| Learner.FirstGreeting | 1.py:203-204 | The chosen greeting is the first in list order that the input starts with, or none starts it. |
| Learner.ShadowedGreetings | 1.py:203-204 | With the built-in list, "ку бро", "приветик" and "приветствую" are never the greeting answered: "ку" and "привет" come earlier and always match first. |
| Learner.MergeInSetOrder | 1.py:100-105 | Without stored greetings the built-in list is kept. Otherwise the result is a duplicate-free list of exactly the built-in and stored greetings, in any order. |
| Learner.ArchiveMessage | 1.py:148-152 | The archiving code computes the archive `Corpus.ArchivePattern` specifies. |
| Learner.CountPairs | 1.py:155-158 | The counting loop computes the table `Counters.AddPairs` specifies. |
| Learner.RecordGreetings | 1.py:161-165 | The greeting loop computes the responses `Corpus.LearnGreetings` specifies. |
| Learner.FileByKind | 1.py:167-179 | The if/elif chain files the message as `Corpus.RecordKind` specifies. |
| Learner.MessageLearner.constructor | 1.py:70-118 | The store starts valid. With no file or an unreadable file it holds the built-in greetings, empty tables and the phrases. A decoded file gives its responses and counts, the seeded archive, and the built-in greetings merged with the stored ones in any order. |
| Learner.MessageLearner.LearnFromMessage | 1.py:134-179 | A raw message under 2 characters changes nothing. Otherwise the four containers become the archive, pair counts, greeting continuations and kind bucket of the normalised message. The store stays valid. |
| Learner.MessageLearner.GetGreeting | 1.py:181-182 | The result is one of the greetings. |
| Learner.MessageLearner.GetResponseToGreeting | 1.py:184-188 | The result is none exactly when nothing is recorded under the greeting. Otherwise it is one of the recorded texts. |
| Learner.MessageLearner.FindGreeting | 1.py:203-204 | The loop finds the greeting `FirstGreeting` specifies. |
| Learner.MessageLearner.EchoGreeting | 1.py:205-209 | The echo is the greeting alone when nothing is recorded or the drawn text is empty. Otherwise it is the greeting, a space and a recorded continuation. |
| Learner.MessageLearner.NextWord | 1.py:228-237 | The next word is among the top-5 successors of the current one, and a most frequent one when there are at most 2 successors. |
| Learner.MessageLearner.ComposeChain | 1.py:222-243 | The chain starts at a viable word and has 1 to 11 words. Each next word is among the top-5 successors of the previous one, and a most frequent one when there are at most 2 successors. A chain shorter than 4 words stopped at a word without successors. |
| Learner.MessageLearner.Fallback | 1.py:245-251 | The fallback is a recorded statement if any. Otherwise it is an archived pattern if any, else one of the five generic phrases. |
| Learner.MessageLearner.GenerateResponse | 1.py:190-251 | With no input the reply is an archived pattern, or a greeting when the archive is empty. Otherwise, on the normalised input, it is the echo of the first greeting the input starts with. Failing that, it is the joined chain from a viable token, and failing that, the fallback. |
| Learner.MessageLearner.HumanizeMessage | 1.py:253-279 | The base text is the message, or a greeting when the message is empty. The punctuation gate turns it into `StripPunctuation` of it. The emoji gate then appends a space and one of the emojis. Without the typo gate that is the reply. With it, the reply is that text or a retyping of one of its words, joined with single spaces, with the same number of words, and unchanged when no word is longer than 3 characters. When it has words and all are longer than 3 characters, a word is always retyped. The punctuation gate leaves no punctuation through the later steps. |
| Chats.RemoveFirst | 1.py:339 | `list.remove` takes out the first occurrence: the length drops by one, the entries before it keep their places, the entries after it move up one in order, and the multiset loses one copy. |
| Chats.AddThenRemove | 1.py:325-343 | Adding a chat that was not monitored and then removing it restores the list. |
| Chats.RemoveFromDistinct | 1.py:335-343 | In a duplicate-free list, a removed chat is no longer monitored and the list stays duplicate-free. |
| Chats.ChatList.IsBotChat | 1.py:321-323 | A chat is a bot chat exactly when its id is at some position of the monitored list. |
| Chats.ChatList.AddChat | 1.py:325-333 | Reports true exactly when the chat was not monitored, and appends it in that case. Afterwards the chat is monitored. |
| Chats.ChatList.RemoveChat | 1.py:335-343 | Reports true exactly when the chat was monitored, and removes its first occurrence in that case. |

## Left out

- Tokenizing: `nltk.word_tokenize` is a foreign library. The model uses the `str.split()` fallback the source turns to when NLTK fails (1.py:145, 1.py:215).
- Lowercasing: `Text.LowerChar` maps only the ASCII and basic Cyrillic capitals (U+0041–U+005A, U+0400–U+042F). Python's full Unicode case table is not modelled, including its length-changing mappings: `'İ'.lower()` is two code points, so in the source `"İİİ"` normalises to 6 characters and is archived, while the model's normal form has 3 and is not.
- Randomness: the probabilities 0.7, 0.2 and 0.1 of `humanize_message` are not modelled, and neither are the bot's delays. The gates are parameters; every `random.choice` is any member.
- Learner.MessageLearner.ComposeChain: the count-weighted `random.choices` is modelled as "any of the three sampled words", without its distribution.
- Counters.MostCommon: Python orders tied counts by insertion order; the model allows any order of ties, because Dafny maps have no order.
- Learner.MergeInSetOrder: `list(set(...))` has an order chosen by the set. The model allows any order.
- Learner.MessageLearner.constructor: requires every stored count to be at least 1. A data file with zero or negative counts would make `random.choices` raise on all-zero weights; that case is not modelled.
- Learner.MessageLearner.constructor: an exception raised midway through decoding, leaving some fields loaded and others not (1.py:88-115), is not modelled. Only "no file", "unreadable" and "fully decoded" are.
- Reading a `defaultdict` key creates an empty entry (1.py:246, where the `'statements'` entry may be read while absent). The model reads a missing key as empty without creating it. The difference is visible only in what `save_data` writes.
- `save_data`, `load_data`'s JSON decoding and `save_config` are file I/O, and are not modelled.
- `input_message=None` and a `None` message are not modelled; strings only.
- Chats: ids are kept as strings. A numeric id loaded from the config file passes the membership test on string forms (1.py:338), but `chat_ids.remove(chat_id_str)` (1.py:339) then finds no equal element and raises `ValueError`; that is not modelled.
- The Telegram client, `HumanLikeBot`'s event handling, the typing delays and `setup_config` are outside the modelled core.
