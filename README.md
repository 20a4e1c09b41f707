# A verified model of the prompt optimiser in `train_rl.py`

`train_rl.py` tunes the system message of a "trainee" chat persona by evolution:

- every epoch it simulates one conversation per candidate message against a "partner" persona;
- it scores the trainee's replies with a heuristic rubric (`score_response`);
- it keeps the best candidate and blacklists the others;
- it fills the next generation with mutants of the winner, which a language model produces on request (`mutate_prompt`).

This project restates that core in Dafny and proves what the code promises about it. It is split into nine modules:

| module | file | models |
|---|---|---|
| `Wrappers` | wrappers.dfy | `Option`, with `GetOr` for `dict.get(key, default)` |
| `Text` | text.dfy | the Python string operations the core relies on: `split()`, `strip()`, ASCII `lower()`, `str.count`, `set(...)`, `";".join`, `str(int)`, `re.split(r'[.!?]+', ...)` |
| `Scoring` | scoring.dfy | the rubric as a datatype and `score_response` as a sum of one adjustment per criterion |
| `Oracle` | oracle.dfy | `call_model`: the message layout of a chat request and the normalisation of what comes back; the HTTP service is a function parameter |
| `Mutation` | mutation.dfy | `mutate_prompt`: extraction of the `<OUTPUT>` block and the diff label; the diff opcodes come from a `Differ` parameter |
| `Starters` | starters.dfy | `extract_starters`: the line filter, the speaker-prefix removal and the per-file random choice |
| `Evolution` | evolution.dfy | the value-level bookkeeping of `main`: candidate ids, filling a generation, conversations and their averages, selection, loser records, carry-over, the best winner |
| `Training` | training.dfy | `main`'s loop as the class `Controller`, whose fields are the lists and the map the source updates in place |
| `Duration` | duration.dfy | `format_duration` |

Scoring, mutation post-processing, starters, message layout and duration formatting are pure functions with lemmas. The evolutionary loop is imperative. `Controller` has one method per phase of an epoch:

- `Evaluate` and `EvaluateAll` score the population;
- `Judge` selects the winner and records the losers and the winner;
- `Advance` writes the lineage and builds the next generation.

`Run` drives the epochs. It keeps the class invariant `Valid()`, which is built on the module predicate `Training.Consistent`.

How the outside world is represented:

- **Language model.** The service is a function from a running call number and a request to `Some(content)` or `None` (any exception). Because `Controller` counts its calls, any sequence of replies can be expressed.
- **`random.choice`.** It is a nondeterministic choice (`:|`) in `ExtractStarters` and `Simulate`.
- **Rubric and configuration.** They are given already loaded, as datatypes. A file that does not exist is `None`.
- **Numbers.** Rubric numbers, scores and averages are exact `real`s.

## Model

| member | source | states |
|---|---|---|
| Text.Split | train_rl.py:48 | every token of `split()` is non-empty and free of whitespace |
| Text.SplitSkipsSpace | train_rl.py:48 | whitespace before the first token is skipped: it adds no token |
| Text.SplitCutsAtSpace | train_rl.py:48 | a run of non-whitespace that ends at whitespace or at the end of the text is one whole token, and splitting goes on after it, so the text is cut exactly at its whitespace runs |
| Text.SplitKeepsEveryNonSpace | train_rl.py:48 | the tokens, glued together, are exactly the non-whitespace characters of the input in order |
| Text.SplitEmptyIffAllSpace | train_rl.py:48 | `split()` yields no token exactly when the text is all whitespace |
| Text.LStrip | train_rl.py:32 | the result is a suffix of the input, what was removed is whitespace, and it does not start with whitespace |
| Text.RStrip | train_rl.py:32 | the result is a prefix of the input, what was removed is whitespace, and it does not end with whitespace |
| Text.StripBounds | train_rl.py:32 | stripping both ends leaves no whitespace at either end, and leaves nothing exactly for an all-whitespace text |
| Text.Strip | train_rl.py:32 | `strip()` has no whitespace at either end and is empty exactly when the input is all whitespace |
| Text.StripPadded | train_rl.py:69 | surrounding a text with whitespace does not change its `strip()` |
| Text.StripOfTrimmed | train_rl.py:220-222 | a text with no whitespace at either end is its own `strip()` |
| Text.StripEmptyIffNoTokens | train_rl.py:114 | `s.strip()` is empty exactly when `s.split()` is empty, so the blank-piece filter drops exactly the pieces with no words |
| Text.Lower | train_rl.py:53 | lower-casing keeps the length and maps each character independently |
| Text.LowerIdempotent | train_rl.py:69 | lower-casing twice is lower-casing once |
| Text.Count | train_rl.py:74 | non-overlapping occurrences of a non-empty pattern fit in the text; the empty pattern is counted `len + 1` times |
| Text.CountPositiveIffContains | train_rl.py:57 | a non-empty pattern is counted at least once exactly when it occurs as a substring |
| Text.Occurrences | train_rl.py:125 | `list.count(w)` is at most the list length, and positive exactly when `w` is in the list |
| Text.ToSetSize | train_rl.py:54 | `len(set(words)) <= len(words)`, with equality exactly when no word repeats |
| Text.Join | train_rl.py:206 | joining nothing gives `""`; otherwise the result starts with the first part and its length is the parts' lengths plus one separator between each pair of neighbours |
| Text.JoinSingle | train_rl.py:206 | one part joins to itself |
| Text.JoinAppend | train_rl.py:206 | joining one more part appends the separator and that part, so the parts appear in order with the separator between neighbours |
| Text.NatToString | train_rl.py:232 | the decimal text of a number is non-empty and all digits |
| Text.IntToString | train_rl.py:232 | `str(i)` is non-empty and starts with `-` exactly for a negative number |
| Text.ParseNatToString | train_rl.py:232 | reading a printed number back gives the number |
| Text.IntToStringInjective | train_rl.py:232 | distinct integers print differently |
| Text.SentencePieces | train_rl.py:113 | `re.split(r'[.!?]+', s)` yields at least one piece, and no piece holds a terminator |
| Text.SentencePiecesKeepText | train_rl.py:113 | the pieces, glued together, are the input with its terminators removed |
| Text.SentencePiecesOfPlain | train_rl.py:113 | a text without `.`, `!` or `?` is one piece, itself |
| Text.SentencePiecesCut | train_rl.py:113 | a terminator-free text followed by a whole run of terminators is one piece, and splitting goes on after the run, so the text is cut exactly at each maximal run of `.!?` |
| Text.WordCounts | train_rl.py:114 | there is at most one length per sentence piece |
| Text.WordCountsPositive | train_rl.py:114 | since blank pieces are dropped, every sentence length is positive |
| Scoring.CappedReward | train_rl.py:93 | `min(count * reward_per, max_reward)` never exceeds `max_reward` and is the product whenever that fits under the cap |
| Scoring.SquaredDeviations | train_rl.py:117 | a sum of squared deviations is non-negative |
| Scoring.Variance | train_rl.py:117 | the variance is non-negative, so comparing it with `min_std²` stands in for the square root |
| Scoring.LengthAdj | train_rl.py:48-52 | below `min_words` it gives the short penalty (default -2); inside the band, 0; above `max_words`, the long penalty (default -1) |
| Scoring.WordsRepetitionAdj | train_rl.py:53-55 | the penalty (default -1) exactly when `len(set(words)) < len(words) * max_repeat_ratio`, otherwise 0; so never for no words or a ratio of at most 0, and always for a non-empty reply when the ratio exceeds 1 |
| Scoring.RepetitionThreshold | train_rl.py:54 | `len(set) < len * ratio` is false for no words or a non-positive ratio, and true for a ratio above 1 |
| Scoring.ContractionAdj | train_rl.py:56-59 | the contraction reward (default 1) is paid once when any contraction occurs as a case-insensitive substring; an empty list pays nothing |
| Scoring.ContractionPaidOnce | train_rl.py:56-59 | once a contraction occurs, adding text never changes the contraction reward: it is paid once |
| Scoring.QuestionAdj | train_rl.py:60-61 | the question reward (default 1) or nothing, and nothing without a `?` |
| Scoring.QuestionPaidOnce | train_rl.py:60-61 | once a `?` is present, adding more text (or more `?`) does not change the question reward |
| Scoring.OnTopicAdj | train_rl.py:62-68 | nothing for an empty partner message; otherwise the overlap reward when a lower-cased token is shared and the no-overlap penalty when none is |
| Scoring.OriginalityAdj | train_rl.py:69-70 | a non-zero result only for a non-empty partner message equal to the reply after trimming and lower-casing, and then it is the copy penalty (default -2) |
| Scoring.EchoIsPenalised | train_rl.py:69-70 | a reply that echoes a non-empty partner message inside any whitespace padding is charged the copy penalty |
| Scoring.TypoAdj | train_rl.py:72-80 | 0 for an absent section; non-zero only once the typo count reaches `min_typos`; never above `max(0, max_reward)` |
| Scoring.CappedCount | train_rl.py:86 | the capped hedge count is at most the count and at most `max_count` |
| Scoring.HedgingAdj | train_rl.py:83-87 | 0 for an absent section; with a cap and a non-negative rate, at most `max_count * reward_per` |
| Scoring.PhraseAdj | train_rl.py:90-93 | back-channel, callback and empathy rewards: 0 for an absent section and never above `max_reward` |
| Scoring.PronounAdj | train_rl.py:123-126 | the pronoun reward over whole tokens: 0 for an absent section and never above `max_reward` |
| Scoring.UsedMarks | train_rl.py:98 | the marks counted as used are configured marks |
| Scoring.PunctuationAdj | train_rl.py:96-100 | the reward when at least `min_variety` distinct configured marks occur, otherwise 0; 0 for an absent section |
| Scoring.EmojiTotal | train_rl.py:105-108 | the emoji total is non-negative when every item's reward is |
| Scoring.MissingEmojiCountsLengthPlusOne | train_rl.py:107 | an item without an `emoji` key counts the empty string `len(response) + 1` times |
| Scoring.EmojiAdj | train_rl.py:103-109 | 0 for an absent section; at most `max_reward` when set; the plain total when it is absent |
| Scoring.DiversityAdj | train_rl.py:112-120 | 0 for an absent section; the reward (default 0) when there is more than one non-blank sentence and the standard deviation of their lengths reaches `min_std`, and 0 otherwise |
| Scoring.FollowUpAdj | train_rl.py:140-143 | never above `max_reward`; with at most one `?` it is `min(0, max_reward)` |
| Scoring.FillerAdj | train_rl.py:146-150 | 0 for an absent section and never below `max_penalty` |
| Scoring.RichnessAdj | train_rl.py:153-158 | 0 for an absent section; the reward (default 0) when the reply has tokens and their unique-to-total ratio reaches `min_ratio` (default 1.0), and 0 otherwise |
| Scoring.RichnessDefaultMeansNoRepeats | train_rl.py:153-158 | with the default `min_ratio` of 1.0, the reward is paid exactly for non-empty replies with no repeated lower-cased token |
| Scoring.ReadabilityAdj | train_rl.py:161-171 | 0 for an absent section or when a story marker occurs in the lower-cased reply; otherwise the reward (default 0), once, when there are sentences and their mean length lies within `[min_len, max_len]`, and 0 otherwise |
| Scoring.ReadabilityIgnoresMarkersWhenNone | train_rl.py:164-165 | an empty marker list never blocks the readability reward |
| Scoring.ScoreResponse | train_rl.py:46-173 | when every optional section is absent, the score is 5 plus the six mandatory adjustments |
| Scoring.ScoreIsUnclamped | train_rl.py:173 | no clamp: for any reply, partner message, rubric and target, some punctuation reward puts the score above the target, and another puts it below |
| Oracle.LayoutShape | train_rl.py:211-214 | the request holds the system message first, then every dialog entry in order, `user` at even and `assistant` at odd positions |
| Oracle.LayoutKeepsDialog | train_rl.py:211-214 | reading the dialog back out of the message list gives the dialog |
| Oracle.NormaliseSpec | train_rl.py:216-225 | the reply is never empty and has no whitespace at either end; it is the trimmed content when that is non-empty, and `"(no response)"` for empty content or any failure |
| Oracle.NormaliseIdempotent | train_rl.py:220-222 | a normalised reply, normalised again, is unchanged |
| Mutation.FindFrom | train_rl.py:196 | a position found is within bounds and the pattern starts there |
| Mutation.FindFromIsFirst | train_rl.py:196 | the search finds the first occurrence, and reports none exactly when there is none |
| Mutation.Between | train_rl.py:196 | the text between the tags fits inside the reply |
| Mutation.BetweenFound | train_rl.py:196 | when no `<` comes before the opening tag or inside the body, the non-greedy match is the text between the first `<OUTPUT>` and the first `</OUTPUT>` after it |
| Mutation.MutationText | train_rl.py:196-197 | the mutated text is the trimmed inside of the `<OUTPUT>` block when there is one, otherwise the trimmed reply |
| Mutation.ExtractsWrappedText | train_rl.py:196-197 | a reply wrapping its text in the tags yields that text trimmed, whatever follows the closing tag |
| Mutation.UntaggedReplyUsedWhole | train_rl.py:197 | a reply without an opening tag is used whole, trimmed |
| Mutation.TagName | train_rl.py:205 | every opcode tag has a non-empty name |
| Mutation.Fragment | train_rl.py:205 | an edit fragment starts with its tag name |
| Mutation.Changes | train_rl.py:200-205 | one non-empty fragment per non-equal opcode at most, and none exactly when all opcodes are `equal` |
| Mutation.ChangesAppend | train_rl.py:200-205 | one more opcode adds nothing when it is `equal` and its `tag:orig->new` fragment otherwise, so there is one fragment per non-equal opcode, in opcode order |
| Mutation.LabelAppend | train_rl.py:200-206 | one more opcode leaves the label as it is when `equal`; otherwise its fragment becomes the label, or is added after a `;` |
| Mutation.LabelEmptyIffAllEqual | train_rl.py:206 | the `;`-joined label is empty exactly when every opcode is `equal` |
| Mutation.AllEqualMeansSame | train_rl.py:199-205 | opcodes that are all `equal` tile only identical strings |
| Mutation.UnchangedWhenLabelEmpty | train_rl.py:199-206 | an empty label means the mutated text is the prompt itself |
| Mutation.DiffRebuildsMutant | train_rl.py:199-205 | the shared spans and the new slices the label shows, read in order, rebuild the mutated text |
| Mutation.Mutate | train_rl.py:196-207 | the mutant's text is the extracted text and its label is the `;`-joined fragments of the opcodes from the prompt to that text; the label is empty exactly when every opcode is `equal`, and then the text is the prompt |
| Mutation.MutatePrompt | train_rl.py:175-207 | one call with the fixed mutation instructions, whatever the caller's system message; an empty label only for an unchanged prompt |
| Evolution.IdTextInjective | train_rl.py:275 | distinct ids `E{epoch}_C{slot}` never print the same |
| Evolution.Texts | train_rl.py:274 | the texts of a population, position by position |
| Evolution.LoserTexts | train_rl.py:274 | the texts of the loser records, position by position |
| Evolution.Fill | train_rl.py:264-275 | a generation has between 1 and `1 + mutants` members, and the seed comes first |
| Evolution.FillShape | train_rl.py:436-445 | admitted texts are distinct and never banned; each mutant has the seed as parent, the seed's generation, the slot it was made for, that mutant's text and the seed's history plus its label; slots increase |
| Evolution.FillAdmits | train_rl.py:443-445 | a mutant with a new, unbanned text joins the generation in its own slot |
| Evolution.FillSkips | train_rl.py:443 | a mutant repeating an admitted or a banned text leaves the generation as it is |
| Evolution.FillAdmitsFresh | train_rl.py:443-445 | the last mutant, when admitted, takes the id of its own slot |
| Evolution.FillRejectsOnlyRepeats | train_rl.py:443 | a slot left empty had a banned text, or one already admitted from an earlier slot |
| Evolution.FillIsGeneration | train_rl.py:432-446 | a filled generation is well formed (seed in slot 1, at most `population_size` members, distinct texts, parents and generation right, increasing slots) and its ids are distinct |
| Evolution.Converse | train_rl.py:320-349 | after `n` turns the dialog has `n + 1` entries and starts with the starter |
| Evolution.Dialog | train_rl.py:320-349 | a conversation after `n` turns has `n + 1` entries and starts with the starter |
| Evolution.DialogStep | train_rl.py:332 | each turn appends the oracle's reply to the dialog so far |
| Evolution.DialogTurn | train_rl.py:323-346 | an even turn is the trainee's reply to the whole dialog under the candidate text; an odd turn is the partner's reply to the last entry only |
| Evolution.TraineeScores | train_rl.py:333 | one score per even turn, each for a trainee reply against the entry before it |
| Evolution.TotalIsSumOfTraineeScores | train_rl.py:323-334 | the running total is the sum of the trainee scores; partner replies count for nothing |
| Evolution.Average | train_rl.py:350 | the division fails exactly when `turns // 2 == 0`, that is for 0 or 1 turns |
| Evolution.EvenTurnsAverageIsMean | train_rl.py:350 | with an even number of turns the average is the mean of the trainee scores |
| Evolution.OddTurnsDivideByOneLess | train_rl.py:350 | with an odd number of turns (at least 3) the total is divided by one less than the number of scored replies |
| Evolution.FirstMax | train_rl.py:377 | the winner's score is the greatest, and every earlier score is strictly smaller |
| Evolution.FirstMaxUnique | train_rl.py:377 | those two properties determine the winner |
| Evolution.LastMutation | train_rl.py:387 | `history[-1]`, or `None` exactly for an empty history |
| Evolution.LoserRecords | train_rl.py:379-389 | every record is a non-winner of this epoch, copied with its score |
| Evolution.LoserCount | train_rl.py:379-389 | with distinct ids, exactly `len(population) - 1` loser records are appended |
| Evolution.WinnerTextNotLost | train_rl.py:379-389 | no loser record of the epoch carries the winner's text |
| Evolution.CarryOver | train_rl.py:434 | slot 1 of the next generation holds the winner's text and history with the winner as parent |
| Evolution.Best | train_rl.py:455-456 | the reported winner is a recorded one with the greatest score, and the first such record |
| Evolution.MonotoneAppend | train_rl.py:396-399 | a winner scoring at least the previous one, keeping the text on a tie, keeps the winners monotone |
| Evolution.BestIsLast | train_rl.py:455-456 | for monotone winners, the best is the last |
| Starters.IndexOf | train_rl.py:37 | the first colon of a line, or none |
| Starters.StripSpeaker | train_rl.py:37 | the prefix removal leaves a suffix of the line, which starts with non-whitespace whenever something was removed |
| Starters.SpeakerPrefixRemoved | train_rl.py:37 | a speaker word (any case) before the first colon is removed with the colon and the whitespace after it |
| Starters.OtherLinesUnchanged | train_rl.py:37 | a line without a speaker word before its first colon is unchanged |
| Starters.CleanLine | train_rl.py:32-39 | a kept line is non-empty, trimmed at both ends, and its stripped form does not begin with `Chat` |
| Starters.ValidLines | train_rl.py:30-39 | no more valid lines than lines |
| Starters.ValidLinesFromFile | train_rl.py:30-39 | every valid line is the cleaned form of a line of the file |
| Starters.NoValidLinesIffNoneClean | train_rl.py:38-40 | a file has no valid line exactly when no line survives cleaning |
| Starters.Pools | train_rl.py:25-41 | one non-empty pool per existing file with valid lines, at most one per file |
| Starters.KeptLines | train_rl.py:30-39 | the inner loop collects exactly the file's valid lines |
| Starters.ExtractStarters | train_rl.py:22-44 | `["Hello!"]` when no file offers a line; otherwise one starter drawn from each pool, in file order |
| Starters.PooledLinesAreClean | train_rl.py:31-41 | every line of a pool is a kept line of some existing file |
| Starters.SelectedStartersAreClean | train_rl.py:22-44 | every chosen starter is non-empty, trimmed and not from a line beginning with `Chat` |
| Starters.AtMostOnePerExistingFile | train_rl.py:25-41 | there are no more pools, hence starters, than existing files |
| Starters.NoPoolsIffNoCleanLine | train_rl.py:42-43 | the default is used exactly when no line of any existing file survives cleaning |
| Starters.CleanLineMakesPool | train_rl.py:38-41 | one surviving line in an existing file is enough for a pool |
| Training.FirstGenerationConsistent | train_rl.py:264-276 | the first generation satisfies the loop invariant |
| Training.EpochKeepsConsistent | train_rl.py:279-447 | an epoch keeps the invariant; from epoch 2 the carried text scores exactly the last winner's score, so a tie goes to it |
| Training.BestIsCarried | train_rl.py:455-456 | the reported best is the last winner, whose text sits in slot 1 of the current population |
| Training.Controller.MutantsAt | train_rl.py:267-273 | one mutant per mutation call |
| Training.Controller.constructor | train_rl.py:237-259 | the defaults 10, 100 and 10; the starters of `extract_starters`; empty `losers`, `lineage`, archive and `final_winners` |
| Training.Controller.FillGeneration | train_rl.py:267-275 | the generation is `Fill` of the mutants of the next `population_size - 1` calls, against the loser texts |
| Training.Controller.Simulate | train_rl.py:310-350 | the starter is one of the starters, the dialog and the average are those of the conversation, and one call is made per turn |
| Training.Controller.Evaluate | train_rl.py:299-352 | an archived text is not simulated again, makes no call and keeps its stored score; otherwise one conversation from one of the starters is simulated, with one call per turn, and its average is stored under the text; no stored score changes |
| Training.Controller.ScoreNext | train_rl.py:291-352 | scoring one more candidate keeps the scores so far, stores the candidate's score, adds only its text as a new key, with one call per turn, and a new entry is a conversation's average |
| Training.ScoredStep | train_rl.py:299-352 | a stored text keeps the archive and the call count; a new text is stored with its score after one call per turn |
| Training.ArchiveKeys | train_rl.py:352 | keeping the old keys, storing every scored text and nothing else makes the archive's keys the old keys plus the texts |
| Training.Controller.EvaluateAll | train_rl.py:291-374 | no stored score changes; every candidate's score is in the archive; each new entry is the average of a conversation opened by one of the starters; the archive gains exactly the population's texts, with one call per turn for each new one; it fails only when `turns // 2 == 0` |
| Training.Controller.Judge | train_rl.py:377-399 | the first maximum wins; `len(population) - 1` loser records and one winner record are appended; the archive and the call count move as in `EvaluateAll` |
| Training.Controller.Advance | train_rl.py:402-447 | the lineage is saved before the new generation is appended; the new generation is `Fill` of the carried winner with the mutants of the next `population_size - 1` calls, banning the loser texts; it is well formed and free of loser texts |
| Training.Controller.RunEpoch | train_rl.py:279-447 | an epoch keeps `Valid()`, or fails on `turns // 2 == 0`; the archive keeps its scores and gains the generation's texts, each new one a conversation's average; the first best candidate wins, the others are appended to `losers` and the winner's score and text to `final_winners`; the lineage is written, then the generation filled from the winner with the calls after the scoring is appended to it |
| Training.Controller.Start | train_rl.py:262-276 | the first generation is `Fill` of the configured system message, in id `E1_C1` with no parent, with the mutants of the first `population_size - 1` calls; the lineage holds just it, and `Valid()` holds |
| Training.Controller.Run | train_rl.py:235-464 | the run fails exactly when an epoch runs with `turns // 2 == 0`; otherwise the best is reported exactly when an epoch ran, and it is the last winner, whose text is carried |
| Duration.Truncate | train_rl.py:228 | `int(x)` truncates toward zero |
| Duration.ClockOf | train_rl.py:229-230 | the two `divmod`s give minutes and seconds below 60 that add back to the input |
| Duration.ClockUnique | train_rl.py:229-230 | that split is the only one |
| Duration.FormatDuration | train_rl.py:231-233 | the hour field appears exactly when the hour count is non-zero |
| Duration.NoHoursUnderAnHour | train_rl.py:231-233 | under an hour the text is `"{m}m {s}s"` |
| Duration.MinuteTextInjective | train_rl.py:233 | the minutes and seconds can be read back from `"{m}m {s}s"` |
| Duration.HourTextInjective | train_rl.py:232 | the hours and the rest can be read back from `"{h}h {m}m {s}s"` |
| Duration.FormatDurationInjective | train_rl.py:227-233 | different numbers of seconds are never shown the same way |

## Left out

- The HTTP POST, JSON encoding and decoding, and timeouts of `call_model` (train_rl.py:216-225). A `Service` function stands in for them, and the timeout is passed along in the request but has no effect.
- File input and output:
  - loading `config.yaml` and the rubric JSON (train_rl.py:14-20);
  - reading the conversation files;
  - the epoch log files;
  - deleting and dumping the archive, losers and lineage JSON (train_rl.py:253-256, 402-412);
  - the Graphviz DOT text (train_rl.py:413-427).

  The lineage write is kept only as the `savedLineage` field.
- Printing and logging throughout, and the timing and ETA arithmetic on `time.time()` (train_rl.py:285, 355-373, 449-453).
- `difflib.SequenceMatcher`'s matching algorithm. Its opcodes come from a `Differ` assumed to tile both strings (`TilingDiffer`). Whether the oracle's mutation really only reorders sentences and changes one word is up to the oracle, so it is not a property of this code.
- The random choice is nondeterministic, not uniform.
- Case folding is ASCII only: `Lower` and the `re.IGNORECASE` speaker match do not fold non-ASCII letters.
- Rubric arithmetic is exact `real` arithmetic, not IEEE floating point. `float('inf')` defaults are absent bounds.
- The rubric datatype requires all six mandatory sections, although the source reads some of them only on some paths: `length.max_words` only when the reply is not too short (train_rl.py:49-51), `question` only when the reply has a `?` (60-61), `on_topic` only for a non-empty partner message (62-68), `originality` only when the reply echoes that message (69-70). A rubric without such a section runs in the source until that path is taken and raises `KeyError` there; the model cannot express it.
- Split: its own contract states the tokens' shape; where the text is cut is stated by `SplitSkipsSpace` and `SplitCutsAtSpace`.
- Join: its own contract states the length and the first part; the contents are stated by `JoinSingle` and `JoinAppend`.
- SentencePieces: its own contract states the pieces' shape; where the text is cut is stated by `SentencePiecesOfPlain` and `SentencePiecesCut`.
- Changes: its own contract bounds the fragments; which fragment each opcode adds, in order, is stated by `ChangesAppend`.
- Scoring.TypoAdj: `max_typos` is read by the source but never applied, so the model carries the field and ignores it.
- The `except` branches around the trainee and partner calls (train_rl.py:328-331, 342-345) are unreachable, because `call_model` catches every exception.
- `Training.Controller.constructor` fixes the speaker-word list to `Starters.SpeakerWords`. The functions of `Starters` take the word list as a parameter.
- `bridge.py`, `trainee_agent.py`, `partner_agent.py`, `app.py`, `static/main.js` and `test_mutation.py` are not part of this model. They are process plumbing, interactive loops, a web demo and a network-calling script.

## Notes on the code's behaviour

- **Winner scores never decrease.** From the second epoch on, slot 1 carries the last winner's text (train_rl.py:434). That text is found in the archive with the winner's score (299-300), and it comes first, so it wins ties (376). The recorded winner scores therefore never decrease, and the best reported winner is the last one (`Training.EpochKeepsConsistent`, `Training.BestIsCarried`).
- **The loser blacklist spans one run.** `losers` starts empty at train_rl.py:251 on every run, and `losers.json` is written (406-408) but never read back.
- **A rubric with every optional section absent** scores 5 plus what the six mandatory sections contribute under their defaults (train_rl.py:47-70, `Scoring.ScoreResponse`).
- **The division at train_rl.py:350 is unguarded.** `total_score / (turns // 2)` raises `ZeroDivisionError` in the first simulated conversation when `num_dialog_turns` is 0 or 1; the model reports this as the outcome `DivisionByZero`. A negative `num_dialog_turns` runs no turn and divides 0 by `turns // 2`, which is negative, so the average is 0. With an odd number of turns the total is divided by one less than the number of scored replies (`Evolution.OddTurnsDivideByOneLess`).
