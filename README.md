# Wordle solver narrowing engine (ZipfBot), modelled in Dafny

The model covers the candidate-narrowing engine of the Zipf-frequency Wordle bot
(`ZipfBot.py`). The bot holds a list of candidate words (`word_state`) and a
word-to-score dictionary (`zipf_dict`). After each guess it reads one row of
tiles, each a letter plus an evaluation: correct, present, or anything else,
which counts as absent. It then narrows both structures, and picks the next guess
either at random or greedily by score.

Modules:

- `Feedback` (`feedback.dfy`) covers the tile row.
  - Tags: `Correct | Present | Absent`. An unrecognised evaluation string takes the absent branch, so three tags are enough.
  - The first pass: `Accounted`, the letters the row tags correct or present.
  - The rule each tile contributes: `CorrectRules`, `PresentRules`, `AbsentRules`.
  - A per-tag reference reading of the row: `MatchesCorrect`, `MatchesPresent`, `MatchesAbsent`.
- `Narrowing` (`narrowing.dfy`) specifies one update, with the exceptions it raises.
  - The list comprehensions (`Select`).
  - Collapsing each group of sub-lists by `set.intersection` (`Collapse`, `GroupResult`).
  - Dropping the groups that came out empty (`Operands`).
  - The final intersection (`Combine`).
  - `Reduce`: the new set of words, or the exception the update raises.
- `NarrowingProperties` (`narrowing_properties.dfy`) states what an update promises. `ReduceExact` is the exact characterisation, built from the three per-group lemmas and `CombineExact`. The other lemmas state single facts about the tiles, the groups and the error cases.
- `Scenarios` (`scenarios.dfy`) works through concrete rounds.
  - The five-word game: "train" then "grain".
  - The two quirks of the group logic.
- `ScoreTable` and `ScoreTableProperties` (`score_table.dfy`, `score_table_properties.dfy`) cover the dictionary.
  - It is an insertion-ordered list of (word, score) entries with distinct words.
  - Building it from the word list.
  - Re-filtering it to the live words.
  - The first-maximum choice of `max`.
- `Bot` (`zipf_bot.dfy`) holds the class `ZipfBot`.
  - Its fields are `wordState` and `zipfDict`.
  - `UpdateWordState` runs the two passes over the tiles, the collapsing loop and the final intersection step by step. It is proved against `Reduce`.
  - The class also has the random and greedy guess methods.

Behaviour of the code that the model keeps on purpose:

- A group whose intersection comes out empty is dropped, even when it had tiles (ZipfBot.py:171). A row can therefore be only partly enforced. `Scenarios.EmptyGroupDropped` shows a surviving word that breaks a correct tile.
- Non-empty groups with an empty common part leave an empty word state, and nothing is raised (ZipfBot.py:172-173, `Scenarios.DisjointGroupsEmptyState`).
- When all three groups are empty, `set.intersection()` is called with no operands and raises (ZipfBot.py:172). The model returns `Raised(NoOperands)` and leaves the state unchanged (`Scenarios.AllGroupsEmptyRaises`). A word state that lists no words always ends that way on the next update (`NarrowingProperties.EmptyStateRaises`).
- Tiles are not validated: any evaluation other than correct or present is read as absent (ZipfBot.py:146).
- The score table is only re-filtered, never compared with the word list (ZipfBot.py:177). A table loaded from a snapshot need not match the word list. The model proves that an update keeps the table in step when it was in step before (`Bot.ZipfBot.UpdateWordState`). A computed table starts in step (`Bot.ZipfBot.constructor`).
- A correct tile whose position is past the end of some word makes `word[i]` raise (ZipfBot.py:134). The model returns `Raised(IndexOutOfRange)` and leaves the state unchanged.

## Model

| member | source | states |
|---|---|---|
| Feedback.Accounted | ZipfBot.py:115-120 | a letter is in the first-pass list exactly when some tile of the row tags it correct or present |
| Feedback.CorrectRules | ZipfBot.py:126-134 | one positional rule At(i, L) exactly for each correct tile (i, L) |
| Feedback.PresentRules | ZipfBot.py:136-144 | one containment rule Has(L) exactly for each present tile with letter L, without excluding its position |
| Feedback.AbsentRules | ZipfBot.py:146-154 | one exclusion rule Lacks(L) exactly for each absent tile whose letter is not in the first-pass list |
| Narrowing.Select | ZipfBot.py:134 | the comprehension keeps exactly the words of the state the rule holds of, and never grows |
| Narrowing.IntersectAll | ZipfBot.py:165 | a word is in the intersection exactly when it is in every operand |
| Narrowing.Collapse | ZipfBot.py:160-165 | an empty group stays empty; otherwise a word survives exactly when it is in every sub-list |
| Narrowing.GroupResult | ZipfBot.py:159-166 | a word is in a collapsed group exactly when the group has rules, the word is in the state and satisfies every rule |
| Narrowing.Operands | ZipfBot.py:171 | keeps exactly the non-empty group results |
| Narrowing.Apply | ZipfBot.py:122-154 | each group holds one sub-list per rule, and a word is in the sub-list exactly when it is in the state and satisfies that rule |
| Narrowing.IndexFault | ZipfBot.py:134 | true exactly when some correct tile's position is not inside some word of the state, the condition under which `word[i]` at ZipfBot.py:134 raises |
| Narrowing.Combine | ZipfBot.py:171-172 | raises NoOperands exactly when every group is empty; otherwise keeps exactly the words in every non-empty group |
| Narrowing.Reduce | ZipfBot.py:122-172 | raises IndexOutOfRange exactly on an index fault and otherwise only NoOperands; NarrowingProperties.ReduceExact characterises its value |
| NarrowingProperties.CorrectGroupExact | ZipfBot.py:126-134 | the correct group holds exactly the old words matching every correct tile, and is empty when no tile is correct |
| NarrowingProperties.PresentGroupExact | ZipfBot.py:136-144 | the present group holds exactly the old words containing every present letter, and is empty when no tile is present |
| NarrowingProperties.AbsentGroupExact | ZipfBot.py:146-154 | the absent group holds exactly the old words lacking every absent letter not tagged correct or present elsewhere in the row |
| NarrowingProperties.CombineExact | ZipfBot.py:167-172 | the final intersection raises exactly when all three groups are empty; otherwise it keeps exactly the words in every non-empty group |
| NarrowingProperties.ReduceExact | ZipfBot.py:122-172 | an update raises IndexOutOfRange exactly on a short word and NoOperands exactly when all groups are empty; otherwise it keeps exactly the old words satisfying the tiles of every non-empty group |
| NarrowingProperties.ReduceShrinks | ZipfBot.py:171-172 | the new word set is a subset of the old words, so it never grows |
| NarrowingProperties.CorrectTileRespected | ZipfBot.py:126-134 | every surviving word has the correct tile's letter at its position, when the correct group is non-empty |
| NarrowingProperties.PresentTileRespected | ZipfBot.py:136-144 | every surviving word contains the present tile's letter, when the present group is non-empty |
| NarrowingProperties.AbsentTileRespected | ZipfBot.py:146-154 | no surviving word contains an absent letter the row does not tag correct or present, when the absent group is non-empty |
| NarrowingProperties.AccountedAbsentIgnored | ZipfBot.py:115-153 | when every absent tile repeats a letter the row tags correct or present, the absent group is empty and restricts nothing |
| NarrowingProperties.AccountedAbsentTileIgnored | ZipfBot.py:146-154 | an absent tile whose letter the row tags correct or present elsewhere imposes nothing: the absent group is the same with that tile removed |
| NarrowingProperties.AllGroupsLive | ZipfBot.py:167-172 | with all three groups non-empty, the update keeps exactly the old words satisfying every tile of the row |
| NarrowingProperties.MissingTagNoGroup | ZipfBot.py:159-171 | a tag with no tiles (for absent: no unaccounted letter) yields an empty group, which the final step drops |
| NarrowingProperties.ReduceIdempotent | ZipfBot.py:88-172 | applying the same row again to a non-empty result leaves it unchanged |
| NarrowingProperties.EmptyStateRaises | ZipfBot.py:171-172 | a word state listing no words makes every update raise NoOperands, which is why idempotence needs a non-empty result |
| Scenarios.FirstRound | ZipfBot.py:88-172 | guess "train" with t absent, r a present, i n correct narrows train/brain/chair/tiger/grain to exactly brain and grain |
| Scenarios.SecondRound | ZipfBot.py:88-172 | an all-correct row for "grain" then leaves exactly grain |
| Scenarios.EmptyGroupDropped | ZipfBot.py:167-172 | a correct group with an empty intersection is dropped, so a word violating a correct tile survives |
| Scenarios.AllGroupsEmptyRaises | ZipfBot.py:171-172 | with all three groups empty the final intersection has no operands and raises |
| Scenarios.DisjointGroupsEmptyState | ZipfBot.py:171-173 | disjoint non-empty groups give an empty word state without raising |
| Scenarios.DisjointRoundRepeatRaises | ZipfBot.py:171-173 | any listing of the empty state the disjoint round leaves makes the same row raise NoOperands when applied again |
| ScoreTable.Put | ZipfBot.py:56 | a dictionary assignment keeps keys distinct and holds the new entry and every other old entry and nothing else; an existing key keeps its place and takes the new value, and a new key is appended |
| ScoreTable.PutKeys | ZipfBot.py:56 | after an assignment the keys are the old keys plus the assigned one |
| ScoreTable.CreateTable | ZipfBot.py:54-56 | the built table has distinct keys, exactly the words of the list as keys, and each word's own score |
| ScoreTable.Restrict | ZipfBot.py:177 | the re-filtered table holds exactly the old entries whose word is live, with distinct keys kept |
| ScoreTable.FirstMax | ZipfBot.py:81 | the chosen entry has a score no smaller than any other and every earlier entry scores strictly less |
| ScoreTable.Greedy | ZipfBot.py:81 | fails exactly on an empty table; otherwise returns the word of the first entry with a greatest score |
| ScoreTableProperties.RestrictKeys | ZipfBot.py:177 | the re-filtered keys are exactly the old keys that are live, and every kept entry carries its old score |
| ScoreTableProperties.RestrictAppend | ZipfBot.py:177 | re-filtering keeps the entries' relative order |
| ScoreTableProperties.CreateTableOrder | ZipfBot.py:54-56 | from a word list without repeats the table lists each word with its score, in list order |
| ScoreTableProperties.RestrictKeepsStep | ZipfBot.py:177 | a table keyed by the old words, re-filtered to a new state drawn from them, is keyed exactly by the new state |
| ScoreTableProperties.GreedyIsKey | ZipfBot.py:81 | the greedy choice of a non-empty table is one of its keys |
| Bot.ListOf | ZipfBot.py:172 | turning the result set into a list gives each member exactly once |
| Bot.FirstPass | ZipfBot.py:115-120 | the first loop collects exactly the letters tagged correct or present |
| Bot.SecondPass | ZipfBot.py:122-154 | the second loop raises on a short word and otherwise builds the three groups of filtered sub-lists, skipping absent tiles whose letter is accounted for |
| Bot.CollapseGroups | ZipfBot.py:159-166 | the loop replaces each non-empty group by its intersection and leaves empty groups empty |
| Bot.ZipfBot.constructor | ZipfBot.py:25-36 | the table is computed from the word list (and then keyed exactly by it) or is the loaded snapshot |
| Bot.ZipfBot.MakeRandomGuess | ZipfBot.py:59-68 | the random guess is a member of the word state; the draw fails on an empty state |
| Bot.ZipfBot.MakeGuess | ZipfBot.py:74-81 | the greedy guess is the table's first highest-scoring word, a live candidate when the table is in step |
| Bot.ZipfBot.UpdateWordState | ZipfBot.py:88-177 | the new word state lists the set Reduce gives, without repeats; the table is re-filtered to it; on an exception nothing changes; a table in step stays in step |

## Left out

- Browser actions: typing the guess, pressing return, clicking, and reading tile attributes (ZipfBot.py:70-72, 84-86, 236-238). The row of (letter, tag) pairs is an input.
- The game loop `play_wordle` with its pauses, and the base class `Bot`. The base class (`open_wordle`, `get_game_tiles`, `update_game_state` and the initial word list) is not part of this model. The initial word list is a constructor parameter.
- Loading the pickled dictionary (ZipfBot.py:35-36) is file I/O. The loaded table is the constructor parameter `snapshot`.
- `zipf_frequency` is a foreign scorer. It is the parameter `zipf`, with real-valued scores. Floating-point effects such as NaN ordering are not modelled.
- Bot.ZipfBot.MakeRandomGuess: models only the range of the NumPy draw, as a nondeterministic index, not its uniform distribution.
- Logging with `print` (ZipfBot.py:82, 106, 174-175).
- `__rank_word_state` (ZipfBot.py:179-184) is an empty stub with no behaviour.
- `randombot.py`: browser scraping and a printed score that is never returned.
- The order of the new word state: it comes from iterating a Python set, so the model fixes only its members and that they are distinct.
