/**
 * `work` (src/generate.py:122-176) as the imperative procedure it is: the
 * locals of the function, the `explanations` deque and the output files are
 * updated step by step, and the whole call is proved to compute the state
 * `AcceptanceLoop.Run` describes.
 */
module Generate {
  import opened Wrappers
  import opened Seqs
  import opened AcceptanceLoop
  import Decimal

  /** A row of the sample file. */
  datatype Row = Row(topic: string, intent: string, strength: string, style: string, nSamples: int)

  function RowCombination(row: Row): Combination {
    Combination(row.topic, row.intent, row.strength, row.style)
  }

  /** A `collections.deque`, with the operations `work` uses. */
  class Deque<T> {
    var items: seq<T>

    constructor ()
      ensures items == []
    {
      items := [];
    }

    function Len(): (n: nat)
      reads this
      ensures n == |items|
    {
      |items|
    }

    method Append(x: T)
      modifies this
      ensures items == old(items) + [x]
    {
      items := items + [x];
    }

    method PopLeft() returns (x: T)
      requires items != []
      modifies this
      ensures x == old(items)[0] && items == old(items)[1..]
    {
      x := items[0];
      items := items[1..];
    }
  }

  /** The contents of the file `name` in the directory `files`; a file that
      does not exist reads as empty. */
  function FileIn(files: map<string, seq<Record>>, name: string): seq<Record> {
    if name in files then files[name] else []
  }

  /** The output directory: the records each file holds.  Opening a file
      with mode "a" creates it empty when it is missing. */
  class OutputFiles {
    var contents: map<string, seq<Record>>

    constructor (initial: map<string, seq<Record>>)
      ensures contents == initial
    {
      contents := initial;
    }

    function Contents(path: string): seq<Record>
      reads this
    {
      FileIn(contents, path)
    }

    method Open(path: string)
      modifies this
      ensures contents == old(contents)[path := old(Contents(path))]
    {
      contents := contents[path := Contents(path)];
    }

    /** `save(f, ...)`: one record appended to the file. */
    method Write(path: string, r: Record)
      modifies this
      ensures contents == old(contents)[path := old(Contents(path)) + [r]]
    {
      contents := contents[path := Contents(path) + [r]];
    }
  }

  // ---------------------------------------------------------------------
  // File names

  /** The directory every output file lives in. */
  const OutputDir := "outputs/combinations/"

  /** `f"outputs/combinations/{idx}{tag_postfix}.jsonl"`: a file of the output
      directory named by the row index, then the postfix, with the `.jsonl`
      extension. */
  function OutputPath(index: nat, postfix: string): (path: string)
    ensures |path| == |OutputDir| + |Decimal.Digits(index)| + |postfix| + 6
    ensures path[..|OutputDir|] == OutputDir
    ensures path[|OutputDir|..|OutputDir| + |Decimal.Digits(index)|] == Decimal.Digits(index)
    ensures path[|path| - 6..] == ".jsonl"
  {
    OutputDir + Decimal.Digits(index) + postfix + ".jsonl"
  }

  /** With a postfix that does not start with a digit, different rows write
      to different files. */
  lemma OutputPathsDistinct(i: nat, j: nat, postfix: string)
    requires postfix == [] || !Decimal.IsDigit(postfix[0])
    ensures OutputPath(i, postfix) == OutputPath(j, postfix) <==> i == j
  {
    var dir := OutputDir;
    var x := postfix + ".jsonl";
    Associative(dir + Decimal.Digits(i), postfix, ".jsonl");
    Associative(dir + Decimal.Digits(j), postfix, ".jsonl");
    Associative(dir, Decimal.Digits(i), x);
    Associative(dir, Decimal.Digits(j), x);
    if OutputPath(i, postfix) == OutputPath(j, postfix) {
      assert (dir + (Decimal.Digits(i) + x))[|dir|..] == Decimal.Digits(i) + x;
      assert (dir + (Decimal.Digits(j) + x))[|dir|..] == Decimal.Digits(j) + x;
      Decimal.DigitsThenText(i, j, x, x);
    }
  }

  /** The postfix the tag evidently should give: `"-" + tag`, or nothing
      for the default empty tag. */
  function TagPostfix(tag: string): (p: string)
    ensures p == [] || p[0] == '-'
  {
    if tag == "" then "" else "-" + tag
  }

  /** Lines 133-136 as written: an empty tag assigns `tag` rather than
      `tag_postfix`, which stays unbound (`None` here); a non-empty tag binds
      it to the tag behind a dash. */
  function TagPostfixAsWritten(tag: string): (p: Option<string>)
    ensures p.Some? <==> tag != ""
    ensures p.Some? ==> |p.value| == |tag| + 1 && p.value[0] == '-' && p.value[1..] == tag
  {
    if tag != "" then Some("-" + tag) else None
  }

  /** With the default `--tag ""`, `tag_postfix` is never bound, so the
      first round of every work item fails at the `open` of line 150. */
  lemma TagPostfixUnboundForDefaultTag()
    ensures TagPostfixAsWritten("") == None
  {
  }

  /** The corrected postfix agrees with the code wherever the code binds
      one, names the file by the bare index for the empty tag, and never
      makes two rows share a file. */
  lemma TagPostfixCorrected(tag: string, i: nat, j: nat)
    ensures TagPostfixAsWritten(tag).Some? ==> TagPostfixAsWritten(tag).value == TagPostfix(tag)
    ensures tag == "" ==> OutputPath(i, TagPostfix(tag)) == OutputDir + Decimal.Digits(i) + ".jsonl"
    ensures OutputPath(i, TagPostfix(tag)) == OutputPath(j, TagPostfix(tag)) <==> i == j
  {
    OutputPathsDistinct(i, j, TagPostfix(tag));
  }

  // ---------------------------------------------------------------------
  // The work item

  /** The feedback loop of src/generate.py:143-145. */
  method BuildFeedback(explanations: Deque<Rejection>) returns (text: string)
    ensures text == Feedback(explanations.items)
  {
    var items := explanations.items;
    text := "";
    var i := 0;
    while i < |items|
      invariant 0 <= i <= |items|
      invariant text == FeedbackUpTo(items, i)
    {
      text := text + FeedbackLine(items[i]);
      i := i + 1;
    }
    FeedbackUpToPrefix(items, i);
    assert items[..i] == items;
  }

  /** One candidate (src/generate.py:152-164): an accepted one is kept,
      counted and saved; a rejected one is counted and pushed into the
      bounded deque. */
  method JudgeCandidate(ex: Example, comb: Combination, check: Validator, path: string,
                        explanations: Deque<Rejection>, out: OutputFiles, nTodo: int, rounds: nat,
                        allExamples0: seq<Example>, nAccepted0: nat, totalPass0: nat, totalFail0: nat,
                        ghost contents0: map<string, seq<Record>>)
    returns (allExamples: seq<Example>, nAccepted: nat, totalPass: nat, totalFail: nat)
    requires path in out.contents
    requires out.contents == Directory(contents0, path, out.Contents(path), true)
    modifies explanations, out
    ensures path in out.contents && out.contents == old(out.contents)[path := out.contents[path]]
    ensures out.contents == Directory(contents0, path, out.Contents(path), true)
    ensures LoopState(nTodo, nAccepted, totalPass, totalFail, allExamples, explanations.items, out.contents[path], rounds)
      == Judge(LoopState(nTodo, nAccepted0, totalPass0, totalFail0, allExamples0, old(explanations.items),
                         old(out.contents[path]), rounds), ex, comb, check)
  {
    allExamples, nAccepted, totalPass, totalFail := allExamples0, nAccepted0, totalPass0, totalFail0;
    var verdict := check(ex);
    if verdict.isSelfContained {
      allExamples := allExamples + [ex];
      nAccepted := nAccepted + 1;
      totalPass := totalPass + 1;
      out.Write(path, SaveRecord(ex, comb));
    } else {
      totalFail := totalFail + 1;
      var r := Rejection(ex, verdict.explanation);
      if explanations.Len() < MemoryCap {
        explanations.Append(r);
      } else {
        var _ := explanations.PopLeft();
        explanations.Append(r);
      }
    }
    UpdateAgain(contents0, path, old(out.contents[path]), out.contents[path]);
  }

  /** The candidate loop of one round (src/generate.py:150-164): the file is
      opened for appending and every candidate is judged in turn. */
  method ProcessCandidates(batch: seq<Example>, comb: Combination, check: Validator, path: string,
                           explanations: Deque<Rejection>, out: OutputFiles, nTodo: int, rounds: nat,
                           allExamples0: seq<Example>, totalPass0: nat, totalFail0: nat)
    returns (allExamples: seq<Example>, nAccepted: nat, totalPass: nat, totalFail: nat)
    modifies explanations, out
    ensures path in out.contents && out.contents == old(out.contents)[path := out.contents[path]]
    ensures LoopState(nTodo, nAccepted, totalPass, totalFail, allExamples, explanations.items, out.contents[path], rounds)
      == ProcessBatch(LoopState(nTodo, 0, totalPass0, totalFail0, allExamples0, old(explanations.items),
                                old(out.Contents(path)), rounds), batch, comb, check)
  {
    ghost var s0 := LoopState(nTodo, 0, totalPass0, totalFail0, allExamples0, explanations.items, out.Contents(path), rounds);
    ghost var contents0 := out.contents;
    allExamples, nAccepted, totalPass, totalFail := allExamples0, 0, totalPass0, totalFail0;
    out.Open(path);
    var i := 0;
    UpdateAgain(contents0, path, out.contents[path], out.contents[path]);
    while i < |batch|
      invariant 0 <= i <= |batch|
      invariant path in out.contents && out.contents == Directory(contents0, path, out.Contents(path), true)
      invariant LoopState(nTodo, nAccepted, totalPass, totalFail, allExamples, explanations.items, out.contents[path], rounds)
        == ProcessBatch(s0, batch[..i], comb, check)
    {
      ProcessBatchSnoc(s0, batch, i, comb, check);
      allExamples, nAccepted, totalPass, totalFail :=
        JudgeCandidate(batch[i], comb, check, path, explanations, out, nTodo, rounds,
                       allExamples, nAccepted, totalPass, totalFail, contents0);
      i := i + 1;
    }
    assert batch[..i] == batch;
    UpdateAgain(contents0, path, out.contents[path], out.contents[path]);
  }

  /** One iteration of `while n_todo > 0` (src/generate.py:143-166): build
      the feedback, request `min(5, n_todo)` candidates, judge them, and
      lower `n_todo` by the number accepted. */
  method WorkRound(comb: Combination, gen: Generator, check: Validator, path: string,
                   explanations: Deque<Rejection>, out: OutputFiles, nTodo0: int, rounds: nat,
                   allExamples0: seq<Example>, nAccepted0: nat, totalPass0: nat, totalFail0: nat,
                   ghost contents0: map<string, seq<Record>>, ghost created: bool)
    returns (nTodo: int, allExamples: seq<Example>, nAccepted: nat, totalPass: nat, totalFail: nat)
    requires nTodo0 > 0
    requires out.contents == Directory(contents0, path, out.Contents(path), created)
    modifies explanations, out
    ensures path in out.contents && out.contents == old(out.contents)[path := out.contents[path]]
    ensures out.contents == Directory(contents0, path, out.Contents(path), true)
    ensures LoopState(nTodo, nAccepted, totalPass, totalFail, allExamples, explanations.items, out.contents[path], rounds + 1)
      == Round(LoopState(nTodo0, nAccepted0, totalPass0, totalFail0, allExamples0, old(explanations.items),
                         old(out.Contents(path)), rounds), comb, Planned(comb, gen), check)
  {
    ghost var s := LoopState(nTodo0, nAccepted0, totalPass0, totalFail0, allExamples0, explanations.items,
                             out.Contents(path), rounds);
    var text := BuildFeedback(explanations);
    var examples := GenerateExamples(gen, comb, rounds, RequestSize(nTodo0), text);
    assert examples == Planned(comb, gen)(s);
    allExamples, nAccepted, totalPass, totalFail :=
      ProcessCandidates(examples, comb, check, path, explanations, out, nTodo0, rounds, allExamples0, totalPass0, totalFail0);
    nTodo := nTodo0 - nAccepted;
    UpdateAgain(contents0, path, old(out.Contents(path)), out.contents[path]);
  }

  /** The directory `work` leaves: `contents0` with `path` set to `file`
      once the file has been opened. */
  ghost function Directory(contents0: map<string, seq<Record>>, path: string, file: seq<Record>, created: bool): map<string, seq<Record>> {
    if created then contents0[path := file] else contents0
  }

  lemma UpdateAgain(m: map<string, seq<Record>>, k: string, a: seq<Record>, b: seq<Record>)
    ensures m[k := a][k := b] == m[k := b]
  {
  }

  /** What `work(df, idx)` computes for a row, given what its file held. */
  function WorkResult(row: Row, file0: seq<Record>, gen: Generator, check: Validator, maxRounds: nat): LoopState {
    var comb := RowCombination(row);
    Run(Start(row.nSamples, file0), comb, Planned(comb, gen), check, maxRounds)
  }

  /** `work(df, idx)`, for at most `maxRounds` rounds, writing to the file
      named by `postfix`.  Its final locals are the state `Run` reaches, the
      file it names ends up holding that state's records, and no other file
      changes.  The closing `print` (src/generate.py:176) reads `f.name`, and
      `f` is bound only by the `with` of a round: when no round ran the call
      raises `UnboundLocalError` there, which `raised` reports. */
  method Work(df: seq<Row>, index: nat, postfix: string, out: OutputFiles,
              gen: Generator, check: Validator, maxRounds: nat) returns (final: LoopState, raised: bool)
    requires index < |df|
    modifies out
    ensures raised <==> final.rounds == 0
    ensures final == WorkResult(df[index], old(out.Contents(OutputPath(index, postfix))), gen, check, maxRounds)
    ensures out.Contents(OutputPath(index, postfix)) == final.file
    ensures out.contents == if final.rounds == 0 then old(out.contents)
                            else old(out.contents)[OutputPath(index, postfix) := final.file]
    ensures forall name :: name != OutputPath(index, postfix) ==> out.Contents(name) == old(out.Contents(name))
  {
    final := WorkOn(df[index], OutputPath(index, postfix), out, gen, check, maxRounds);
    raised := final.rounds == 0;
  }

  /** Given at least one round, `work` raises at line 176 exactly on a row
      whose `n_samples` is at most 0. */
  lemma WorkRaisesIffNoSamples(row: Row, file0: seq<Record>, gen: Generator, check: Validator, maxRounds: nat)
    requires maxRounds > 0
    ensures WorkResult(row, file0, gen, check, maxRounds).rounds == 0 <==> row.nSamples <= 0
  {
    var comb := RowCombination(row);
    var s, plan := Start(row.nSamples, file0), Planned(comb, gen);
    assert WorkResult(row, file0, gen, check, maxRounds) == Run(s, comb, plan, check, maxRounds);
    if row.nSamples > 0 {
      var s1 := Round(s, comb, plan, check);
      assert s1.rounds == 1;
      RunStep(s, comb, plan, check, maxRounds);
    } else {
      RunDone(s, comb, plan, check, maxRounds);
    }
  }


  /** The body of `work` for one row and the file it appends to. */
  method WorkOn(row: Row, path: string, out: OutputFiles,
                gen: Generator, check: Validator, maxRounds: nat) returns (final: LoopState)
    modifies out
    ensures final == WorkResult(row, old(out.Contents(path)), gen, check, maxRounds)
    ensures out.Contents(path) == final.file
    ensures out.contents == if final.rounds == 0 then old(out.contents) else old(out.contents)[path := final.file]
  {
    var explanations := new Deque<Rejection>();
    final := WorkLoop(RowCombination(row), gen, check, path, explanations, out, row.nSamples, maxRounds);
  }

  /** `while n_todo > 0` (src/generate.py:142-166), from the initial locals. */
  method WorkLoop(comb: Combination, gen: Generator, check: Validator, path: string,
                  explanations: Deque<Rejection>, out: OutputFiles, nSamples: int, maxRounds: nat)
    returns (final: LoopState)
    requires explanations.items == []
    modifies explanations, out
    ensures final == Run(Start(nSamples, old(out.Contents(path))), comb, Planned(comb, gen), check, maxRounds)
    ensures out.Contents(path) == final.file
    ensures out.contents == if final.rounds == 0 then old(out.contents) else old(out.contents)[path := final.file]
  {
    var allExamples: seq<Example> := [];
    var nTodo := nSamples;
    var totalPass: nat, totalFail: nat, nAccepted: nat := 0, 0, 0;
    var rounds: nat := 0;
    ghost var plan := Planned(comb, gen);
    ghost var contents0 := out.contents;
    ghost var start := Start(nSamples, out.Contents(path));
    ghost var trace := Trace(start, comb, plan, check, maxRounds);
    TraceFacts(start, comb, plan, check, maxRounds);
    while nTodo > 0 && rounds < maxRounds
      invariant rounds < |trace|
      invariant trace[rounds] == LoopState(nTodo, nAccepted, totalPass, totalFail, allExamples, explanations.items,
                                           out.Contents(path), rounds)
      invariant out.contents == Directory(contents0, path, out.Contents(path), rounds > 0)
      decreases maxRounds - rounds
    {
      nTodo, allExamples, nAccepted, totalPass, totalFail :=
        WorkRound(comb, gen, check, path, explanations, out, nTodo, rounds, allExamples, nAccepted, totalPass, totalFail,
                  contents0, rounds > 0);
      rounds := rounds + 1;
    }
    TraceStop(trace, rounds, maxRounds);
    final := LoopState(nTodo, nAccepted, totalPass, totalFail, allExamples, explanations.items, out.Contents(path), rounds);
  }

  /** A trace in which only the last state may have no work left ends at
      the first state with no work left or at the end of the budget. */
  lemma TraceStop(t: seq<LoopState>, k: nat, fuel: nat)
    requires k < |t| <= fuel + 1
    requires forall j :: 0 <= j < |t| - 1 ==> t[j].nTodo > 0
    requires t[k].nTodo <= 0 || k >= fuel
    ensures k == |t| - 1
  {
  }
}
