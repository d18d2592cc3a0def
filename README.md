# Synthetic instruction data generator: acceptance loop and label sampler

This project models the two parts of the system-instruction data generator
that carry real logic, and proves properties of the models in Dafny.

1. **The generation/acceptance loop of `work`** (`src/generate.py`). A work
   item is a row of the sample file: a label combination (topic, intent,
   strength, style) and a required count `n_samples`. While `n_todo > 0`,
   each round does the following:
   - It renders the rejection memory into a feedback string.
   - It asks the generator for `min(5, n_todo)` candidates.
   - It judges every candidate with the validator. Accepted ones are appended
     to the item's output file as records tagged with the combination.
     Rejected ones are pushed into a FIFO memory that holds at most 9 entries.
   - It lowers `n_todo` by the number accepted.

   The LLM generator and validator are oracles passed in as Dafny functions.
   The output directory is a map from file name to the sequence of records
   the file holds. The `--rows` argument is scanned for `[digits:digits]`
   and resolved against the number of rows. `work` then runs on the rows of
   the range in order, until one of them raises.

2. **The label sampler tables** (`src/sampling.py`). The intent x strength
   pair is encoded as one linear index, with inverse decoders. Two
   probability tables, one over topics and one over interactions, are
   completed in place when the module loads: assigned probabilities are
   written into an index vector, and the remaining mass is spread equally
   over every slot still equal to 0. `get_ratio` counts the share of each
   index among a list of choices. Probabilities are exact `real`s.

Modules:
- `Wrappers`: `Option` and `Result`.
- `Labels`: the label lists (5 topics, 3 intents, 2 strengths, 3 styles) and
  the position lookup the `*_s2i` dictionaries perform.
- `PyDict`: a Python dictionary as its list of items in insertion order.
- `Seqs`: small facts about sequence concatenation that the proofs use.
- `Decimal`: `str(n)` and `int(s)` on ASCII digit strings.
- `Completion`: the fill-the-remainder computation as functions over a vector.
- `Sampling`: the index encoding, the `Tables` class with the two in-place
  calculations, and `GetRatio`.
- `AcceptanceLoop`: records, the rejection memory, the feedback string and
  the loop as a state machine over values (`Run`). This is the
  specification the imperative code is proved against.
- `Generate`: the `Deque` and `OutputFiles` classes, and `work` as an
  imperative method whose final state is proved equal to `Run`.
- `RowSelection`: the `[a:b]` search, `ResolveRows`, and the driver loop
  over the selected rows.

Behaviour of the code that the model keeps as written:
- `n_todo` is not capped at zero. A batch with more accepted candidates than
  requested drives it below zero (`AcceptanceLoop.OverfullBatch`).
- A round lowers `n_todo` only by the candidates it accepted. With 3 samples
  and candidates a, b, c of which b is rejected, one sample is still to do
  after the first round (`AcceptanceLoop.OneRoundScenario`).
- A probability slot counts as unset exactly when it holds 0, because the
  fill loop tests `== 0`. An explicitly assigned 0 is therefore refilled
  (`Completion.ExplicitZeroRefilled`).
- Line 44 of `src/sampling.py` writes the fill value into the topic name
  table under the stale loop variable `topic`. The index vector
  `p_topic_from_id` is completed correctly, and the name table only has its
  last key rewritten (`Sampling.TopicNamesStaleKey`,
  `Sampling.StaleTopicKeyExample`).
- The closing `print` of `work` (line 176 of `src/generate.py`) reads
  `f.name`, and `f` is bound only inside a round. On a row whose
  `n_samples` is at most 0 no round runs, so `work` raises
  `UnboundLocalError` and the script stops: the rows after it are not
  worked (`Generate.Work`, `RowSelection.WorkRows`,
  `RowSelection.StopsAtRowWithoutSamples`).

## Model

| member | source | states |
|---|---|---|
| Labels.IndexOf | src/sampling.py:5-20 | the lookup returns the first position holding the name |
| Labels.LabelListsDistinct | src/prompt_divergence.py:71-94 | the four label lists have 5, 3, 2 and 3 entries, none repeated |
| PyDict.GetSet | src/sampling.py:44 | after `d[k] = v`, key `k` reads `v` and every other key reads as before |
| PyDict.SetShape | src/sampling.py:89 | assigning to a present key keeps every key at its position; assigning to an absent key appends one item |
| PyDict.SetTwice | src/sampling.py:44 | writing the same key and value twice equals writing it once |
| Decimal.ParseDigits | src/generate.py:212-213 | `int(str(n)) == n` |
| Decimal.DigitsThenText | src/generate.py:150 | a numeral followed by non-digit text splits back into the same number and text |
| Sampling.InteractionTupleToIdx | src/sampling.py:48-52 | the linear index of a valid pair lies in `[0, 6)` |
| Sampling.InteractionIdToTuple | src/sampling.py:54-57 | every index in range decodes to a valid pair that encodes back to that index |
| Sampling.TupleRoundTrip | src/sampling.py:48-57 | decoding the index of `(intent, strength)` gives `(intent, strength)` back |
| Sampling.InteractionIndexBijective | src/sampling.py:51 | the encoding is one-to-one on intent x strength, and its image is exactly the index range of `p_interaction_from_idx` |
| Sampling.IdToTupleInjective | src/sampling.py:54-57 | two indices in range decode to the same pair only when they are equal |
| Sampling.TruncDiv | src/sampling.py:55 | `int(a / b)` rounds toward zero: the remainder `a - b * q` lies in `[0, b)` for `a >= 0` and in `(-b, 0]` for `a < 0` |
| Sampling.InteractionIdToTupleId | src/sampling.py:59-62 | the strength id is in `[0, 2)`, and on a non-negative index the two ids recompose it as `intent_id * 2 + strength_id` |
| Sampling.TupleIdMatchesTuple | src/sampling.py:54-62 | `interaction_id_2_tuple_id` gives `(idx / 2, idx % 2)`, the positions whose labels `interaction_id_2_tuple` returns |
| Sampling.NegativeIndexTruncates | src/sampling.py:60-61 | on index -3 the truncating quotient gives `(-1, 1)` |
| Sampling.InteractionKeysValues | src/sampling.py:54-57 | slots 0..5 decode to honest/soft, honest/strict, adversarial/soft, adversarial/strict, mixed/soft, mixed/strict |
| Sampling.InteractionKeysDistinct | src/sampling.py:88 | the six slots decode to six different pairs |
| Completion.FillValue | src/sampling.py:39-40 | the fill value times the number of undefined slots is exactly the mass `1 - total_prob` left over |
| Completion.FillZeros | src/sampling.py:41-43 | the fill loop gives every slot still at 0 the fill value, keeps every other slot, and so leaves no slot at 0 when the fill value is nonzero |
| Completion.Complete | src/sampling.py:31-43 | the completed vector keeps its length, keeps every slot the first loop left nonzero, and has no slot at 0 when it was filled with a nonzero value |
| Completion.Assign | src/sampling.py:33-35 | the first loop keeps the vector length |
| Completion.AssignAt | src/sampling.py:33-35 | after the first loop an assigned slot holds its value and every other slot is unchanged |
| Completion.CompleteKeepsAssigned | src/sampling.py:33-43 | completion leaves every explicitly assigned nonzero probability at its slot |
| Completion.CompleteUnassigned | src/sampling.py:38-43 | a slot nothing is assigned to receives `(1 - total) / (size - n_defined)` if it held 0 and some slot is undefined; otherwise it keeps its value |
| Completion.ExplicitZeroRefilled | src/sampling.py:42 | a slot explicitly assigned 0 is refilled like an unset one |
| Completion.CompleteWithoutFill | src/sampling.py:38 | when every slot is defined no fill happens, and every slot holds its assigned value |
| Completion.CompleteSumsToOne | src/sampling.py:29-43 | nonzero probabilities at distinct slots of the zero vector complete to a vector that sums to 1 |
| Completion.AssignZerosSums | src/sampling.py:33-36 | writing nonzero values into distinct zero slots makes the sum the assigned total and removes one zero per pair |
| Completion.SumFillZeros | src/sampling.py:41-43 | filling the zeros with `v` adds `v` once per zero slot |
| Sampling.TopicNamesStaleKey | src/sampling.py:41-44 | as written, the fill loop rewrites only the table's last key, and only when some slot was filled |
| Sampling.StaleTopicKeyExample | src/sampling.py:29-44 | for `{"studying": 0.5}` the index vector becomes `[0.5, 0.125, 0.125, 0.125, 0.125]`, while the name table only rewrites "studying" to 0.125 |
| Sampling.InteractionNamesAgree | src/sampling.py:78-89 | after completion the tuple table holds, under every pair, the value of the index vector at that pair's slot |
| Sampling.SlotNamesStep | src/sampling.py:85-89 | after `i` fill iterations the keys of slots below `i` read their completed values and every other key is unchanged |
| Sampling.ShippedTopicProbabilities | src/sampling.py:22-46 | the shipped topic table defines all 5 topics, so no fill happens and the vector is 0.2 everywhere |
| Sampling.ShippedInteractionProbabilities | src/sampling.py:65-91 | the shipped table leaves (honest, soft) and (mixed, soft) unset; both become 0.1, and the tuple table gains them under the right keys |
| Sampling.Tables.constructor | src/sampling.py:22-29 | the module's initial bindings: the shipped topic table and a zero vector of 5 slots; likewise the shipped interaction table and a zero vector of 6 slots (lines 65-74) |
| Sampling.Tables.CalculatePTopicFromId | src/sampling.py:30-44 | the index vector becomes the completion of the assignment; the name table changes only under the stale last key |
| Sampling.Tables.WriteTopicProbabilities | src/sampling.py:33-36 | the first loop writes every assigned probability into its slot and returns the assigned total |
| Sampling.Tables.FillTopicSlots | src/sampling.py:41-44 | every slot still at 0 receives the fill value, and each such iteration writes the name table under `topic` |
| Sampling.Tables.CalculatePInteractionFromIdx | src/sampling.py:75-89 | the index vector becomes the completion of the assignment, and every filled slot's pair is written in the tuple table |
| Sampling.Tables.WriteInteractionProbabilities | src/sampling.py:78-81 | every configured pair's probability is written at its encoded slot and the total is returned |
| Sampling.Tables.FillInteractionSlots | src/sampling.py:85-89 | every slot still at 0 receives the fill value and its decoded pair gets it in the tuple table |
| Sampling.LoadSampling | src/sampling.py:22-91 | loading the module yields the topic vector `[0.2]*5` and the interaction vector `[0.1, 0.15, 0.05, 0.35, 0.1, 0.25]` |
| Sampling.CountsBelowAll | src/sampling.py:109-111 | when every choice is a valid index, the occurrence counts sum to the number of choices |
| Sampling.RatiosSumToOne | src/sampling.py:112 | the ratios of non-empty choices sum to 1 |
| Sampling.GetRatio | src/sampling.py:108-112 | entry k is (occurrences of k) / `len(choices)`; empty choices with non-empty criteria is a division by zero |
| AcceptanceLoop.SaveRecord | src/generate.py:37-49 | the saved object holds the example's system and user messages and, as `meta`, the combination |
| AcceptanceLoop.Records | src/generate.py:37-49 | one record per accepted example |
| AcceptanceLoop.RecordsFaithful | src/generate.py:37-49 | every record carries its example's two messages and `meta` equal to the combination |
| AcceptanceLoop.Latest | src/generate.py:160-164 | the last `min(len, n)` elements, in order |
| AcceptanceLoop.Remember | src/generate.py:160-164 | a push onto a memory of at most 9 keeps at most 9 entries, ends with the new entry, and equals the last 9 of memory plus entry |
| AcceptanceLoop.RememberAllLatest | src/generate.py:160-164 | after any number of pushes the memory is the last 9 of everything pushed, in insertion order |
| AcceptanceLoop.FromEmptyMemory | src/generate.py:138 | starting empty, after M rejections the memory equals the last min(M, 9) of them |
| AcceptanceLoop.FeedbackLine | src/generate.py:145 | a line quotes the rejected user message after `The message "`, and ends with the explanation and a newline |
| AcceptanceLoop.Feedback | src/generate.py:143-145 | the feedback is `""` exactly when the memory is empty |
| AcceptanceLoop.FeedbackLines | src/generate.py:143-145 | the feedback is the entries' lines in memory order: entry i's line sits between the lines before and after it |
| AcceptanceLoop.FeedbackSection | src/generate.py:103 | the prompt section is the heading, then the feedback unchanged, then a newline |
| AcceptanceLoop.FeedbackSectionInjective | src/generate.py:103 | the section heading can be stripped again, so different feedback gives different prompt sections |
| AcceptanceLoop.EmptyFeedbackSection | src/generate.py:103 | an empty memory still yields the heading around an empty body |
| AcceptanceLoop.RequestSize | src/generate.py:147 | `min(5, n_todo)`: at most 5, at most `n_todo`, and at least 1 while `n_todo > 0` |
| AcceptanceLoop.Judge | src/generate.py:152-164 | a candidate is counted exactly once, as a pass exactly when the validator accepts it; only a pass grows `n_accepted`, `all_examples` and the file, each by one; the memory stays within 9 |
| AcceptanceLoop.ProcessBatch | src/generate.py:151-164 | the candidate loop counts every candidate of the batch once, and `n_accepted`, `all_examples` and the file grow by the number of passes |
| AcceptanceLoop.Round | src/generate.py:142-166 | one round counts every candidate of its batch once, `n_accepted` holds its passes, and `n_todo` falls by exactly that many |
| AcceptanceLoop.Run | src/generate.py:142-166 | the loop ends with `n_todo <= 0` unless the round budget ran out, and `n_todo + total_pass` stays at its initial value |
| AcceptanceLoop.ProcessBatchEffect | src/generate.py:151-164 | a batch appends exactly its accepted candidates, in order, to `all_examples` and the file; counts accepted and rejected; and leaves the memory as the last 9 rejections |
| AcceptanceLoop.AcceptedRejectedSplit | src/generate.py:153-164 | every candidate is either accepted or rejected, never both, and each set holds only candidates with that verdict |
| AcceptanceLoop.RoundEffect | src/generate.py:142-166 | one round lowers `n_todo` by its accepted count and extends the file by exactly those records |
| AcceptanceLoop.TraceFacts | src/generate.py:142 | every state followed by another round had `n_todo > 0`; the loop ends once `n_todo <= 0` or the round budget is spent |
| AcceptanceLoop.RunEffect | src/generate.py:142-166 | over all rounds: accepted candidates are written once each in processing order, rejected ones are never written, and `n_todo` falls by the number accepted |
| AcceptanceLoop.WorkOutcome | src/generate.py:137-166 | at the end `n_todo == n_samples - total_pass`, records written = `total_pass` = `len(all_examples)`, every candidate is counted once, and the memory is the last min(M, 9) rejections |
| AcceptanceLoop.NoRoundWithoutWork | src/generate.py:142 | with `n_todo <= 0` no round runs and nothing is requested |
| AcceptanceLoop.DummyGen | src/generate.py:96-100 | returns exactly `n` placeholder examples |
| AcceptanceLoop.ExactBatchesRun | src/generate.py:142-166 | with batches of exactly the requested size and everything accepted, the loop takes ceil(n/5) rounds and writes n records |
| AcceptanceLoop.DummyGenTermination | src/generate.py:96-100 | with `dummy_gen` and an accepting validator, `n` samples finish in ceil(n/5) rounds with `n` records written and no failures |
| AcceptanceLoop.OneRoundScenario | src/generate.py:147-166 | 3 samples, candidates a, b, c with b rejected: two records (a, c), memory `[b]`, and one sample still to do |
| AcceptanceLoop.OverfullBatch | src/generate.py:166 | three accepted candidates for `n_todo = 2` leave `n_todo == -1`, and the loop stops |
| Generate.Deque.Append | src/generate.py:161 | appends one entry at the newest end |
| Generate.OutputFiles.Open | src/generate.py:150 | opening in mode "a" creates the file empty if it is missing and changes nothing else |
| Generate.OutputPath | src/generate.py:150 | the path is `outputs/combinations/`, the row index, the postfix and `.jsonl`, in that order |
| Generate.TagPostfix | src/generate.py:133-136 | the corrected postfix is empty or starts with `-` |
| Generate.TagPostfixAsWritten | src/generate.py:133-136 | as written, `tag_postfix` is bound exactly for a non-empty tag, to a dash followed by the tag |
| Generate.Deque.PopLeft | src/generate.py:163 | removes and returns the oldest entry |
| Generate.OutputFiles.Write | src/generate.py:150-157 | `save` appends one record to the named file |
| Generate.OutputPathsDistinct | src/generate.py:150 | with a postfix not starting with a digit, different rows write to different files |
| Generate.TagPostfixUnboundForDefaultTag | src/generate.py:133-136 | as written, an empty tag leaves `tag_postfix` unbound |
| Generate.TagPostfixCorrected | src/generate.py:133-136 | the corrected postfix agrees with the code wherever the code binds one, and names the file by the bare index for an empty tag |
| Generate.BuildFeedback | src/generate.py:143-145 | the `+=` loop builds exactly the feedback of the memory's entries |
| Generate.JudgeCandidate | src/generate.py:152-164 | one candidate takes the state to the next state of the specification; only the item's file changes |
| Generate.ProcessCandidates | src/generate.py:150-164 | opening the file and judging the batch gives the specification's batch state |
| Generate.WorkRound | src/generate.py:143-166 | one iteration of the loop computes the specification's next round state |
| Generate.WorkLoop | src/generate.py:137-166 | the loop, run from an empty memory, ends in the state `Run` gives, with the file holding its records |
| Generate.Work | src/generate.py:122-176 | `work(df, idx)` ends in that state; only its own output file changes, and it is untouched when no round ran, in which case the call raises at line 176 |
| Generate.WorkRaisesIffNoSamples | src/generate.py:138-176 | given a round budget, `work` raises at line 176 exactly on a row whose `n_samples` is at most 0 |
| RowSelection.MatchAt | src/generate.py:204 | the groups returned at a position form a match of `\[(\d*):(\d*)\]` there |
| RowSelection.Search | src/generate.py:207 | the groups of the match `re.search` returns are digit strings, so `int` applies to them |
| RowSelection.MatchAtComplete | src/generate.py:204 | every match of `\[(\d*):(\d*)\]` at a position is the one the scanner returns there |
| RowSelection.SearchLeftmost | src/generate.py:207 | the search fails exactly when no position matches, and otherwise returns the leftmost match |
| RowSelection.ResolveRows | src/generate.py:207-222 | a resolved start is a row of the file and the end is at most the row count (`ResolveNumerals` gives the values) |
| RowSelection.InvalidSliceIffNoMatch | src/generate.py:207-215 | the invalid-slice error occurs exactly when nothing in the argument matches `[digits:digits]` |
| RowSelection.ResolveNumerals | src/generate.py:207-222 | `[a:b]` with either side written or blank: the start is `a`, or 0 when blank, and is refused when it is not a row; the end is `b` clamped to the rows, and a blank or 0 end means all rows |
| RowSelection.BlankStart | src/generate.py:212 | `[:5]` starts at row 0 and runs at most five rows |
| RowSelection.BlankEnd | src/generate.py:213-221 | `[3:]` runs from row 3 to the last row, and is refused for a file of at most 3 rows |
| RowSelection.SurroundedRange | src/generate.py:207 | text around the brackets is ignored: `x[1:2]y` selects row 1 |
| RowSelection.DefaultRowsAll | src/generate.py:186-222 | the default `[:]` selects every row, and is refused for an empty file |
| RowSelection.ExplicitZeroEnd | src/generate.py:220-221 | an explicit end of 0 selects up to the last row |
| RowSelection.EmptyRange | src/generate.py:218-222 | a start past the end is not an error; it resolves to an empty range |
| RowSelection.ClippedEnd | src/generate.py:222 | `[4:10]` on 7 rows runs rows 4 to 6 |
| RowSelection.SignedStartRefused | src/generate.py:204-215 | a sign is not a digit, so `[-1:2]` is an invalid slice |
| RowSelection.NoBracketsRefused | src/generate.py:207-215 | text without brackets is an invalid slice |
| RowSelection.MainRows | src/generate.py:203-239 | a refused `--rows` changes no file; otherwise the selected rows are worked on in order, each from what its file held, no other file changes, and the run ends early exactly when a row's `work` raised |
| RowSelection.WorkRows | src/generate.py:238-239 | `for i in range(start, end): work(df, i)` works the rows in order, stops after the first row whose `work` raised, and writes only the worked rows' files |
| RowSelection.StopsAtRowWithoutSamples | src/generate.py:176-239 | a row with `n_samples <= 0` is the last row worked: no row after it is |
| RowSelection.AllRowsWorked | src/generate.py:238-239 | when every row of the range asks for at least one sample, every row is worked and runs at least one round |

## Findings

| source | as written | input that shows it | evidently intended | confidence | as-written member | corrected member |
|---|---|---|---|---|---|---|
| src/generate.py:133-136 | an empty tag assigns `tag = ""` and never binds `tag_postfix` | the default `--tag ""`: the `open` at line 150 raises on the first round of every work item | `tag_postfix = ""` when there is no tag | high, not executed | Generate.TagPostfixUnboundForDefaultTag | Generate.TagPostfixCorrected |

The driver (`RowSelection.MainRows`) uses the corrected `Generate.TagPostfix`.

## Left out

- The LLM client (`ChatOpenAI`, structured output, `invoke`) and the `assert isinstance(resp, Review)`: the generator and validator are oracles passed as parameters. The generator sees the combination, the round number, the requested size and the feedback section. The validator is a function of the candidate.
- Prompt wording: the rendering of `GEN_PROMPT` and `CHECK_SELF_CONTAINED_PROMPT` is left out. Only the feedback section heading of line 103 is modelled. The label wording tables are imported but not defined in `src/prompt_divergence.py`, and the prompt placeholders do not match the keyword names used at line 105-112.
- File system and serialisation: `os.makedirs` and the JSON line format are left out. A file is the sequence of records it holds, and opening in mode "a" creates an empty one.
- `pandas.read_csv`, `argparse`, `load_dotenv` and environment variables: the sample file is a sequence of rows, and `--rows` and `--tag` are strings.
- Randomness: `sample_topic`, `sample_interaction` and `sample_style` (`random.choices`) are left out, and so are empirical frequency claims.
- IEEE floating point: probabilities and ratios are exact reals.
- `print` progress output. Of line 176 only the error it raises when no round ran is modelled.
- Generate.WorkLoop: `while n_todo > 0` has no round limit. The model runs at most `maxRounds` rounds, and says what holds if the budget runs out before `n_todo <= 0`. With a budget of 0 rounds `Generate.Work` reports the line-176 error for every row.
- RowSelection.MatchAtComplete: digits are the ASCII `0`-`9` only. Python's `\d` on a `str` pattern also matches other Unicode decimal digits, which `int` parses, so `[١:٣]` selects rows 1 to 3 in the source but is an invalid slice in the model.
- RowSelection.InvalidSliceIffNoMatch: the same ASCII-only digits. An argument whose only match uses non-ASCII decimal digits is refused in the model but not in the source.
- RowSelection.ResolveRows: the same ASCII-only digits, through `RowSelection.Search` and `Decimal.Parse`.
- Sampling.Tables.CalculatePTopicFromId: requires a non-empty topic table. With an empty table the fill loop reads the unbound loop variable `topic`, which raises in the source.
- Sampling.GetRatio: requires every choice to be a valid non-negative index. Python would accept a negative index counted from the end, and raises on an index past the end.
- Sampling.InteractionTupleToIdx: requires names from the label lists. An unknown name raises `KeyError` in the source.
- Non-distinct slots: the completion sum lemma assumes the table's keys are distinct, which a dictionary guarantees.
