/**
 * The generation/acceptance loop of `work` (src/generate.py:122-176) as a
 * state machine over values.  The LLM generator and the LLM validator are
 * oracles passed in as functions.  A round asks for `min(5, n_todo)`
 * candidates, judges each one, appends the accepted ones to the output file
 * as records tagged with the combination, and remembers the last 9
 * rejections, which are rendered into the feedback string of the next round.
 */
module AcceptanceLoop {
  import opened Seqs

  datatype Example = Example(systemMessage: string, userMessage: string)

  /** `comb = (topic, intent, strength, style)`. */
  datatype Combination = Combination(topic: string, intent: string, strength: string, style: string)

  /** The object `save` serialises: the example and its `meta` block. */
  datatype Record = Record(systemMessage: string, userMessage: string, meta: Combination)

  /** What `check_self_contained` returns. */
  datatype Verdict = Verdict(isSelfContained: bool, explanation: string)

  /** An entry of the `explanations` deque. */
  datatype Rejection = Rejection(example: Example, explanation: string)

  /** The generator oracle: combination, round number, requested size and
      the feedback section of the prompt give a batch of candidates. */
  type Generator = (Combination, nat, nat, string) -> seq<Example>

  /** The validator oracle.  As a function it gives the same verdict to equal
      candidates, which the LLM behind `check_self_contained` need not do; no
      property proved here depends on that restriction. */
  type Validator = Example -> Verdict

  /** The `5` of `min(5, n_todo)` (src/generate.py:147). */
  const BatchCap: int := 5

  /** The deque bound of src/generate.py:160. */
  const MemoryCap: nat := 9

  // ---------------------------------------------------------------------
  // Records

  /** `save` (src/generate.py:37-49), without the JSON encoding. */
  function SaveRecord(ex: Example, comb: Combination): (r: Record)
    ensures r.systemMessage == ex.systemMessage && r.userMessage == ex.userMessage && r.meta == comb
  {
    Record(ex.systemMessage, ex.userMessage, comb)
  }

  function Records(exs: seq<Example>, comb: Combination): (rs: seq<Record>)
    ensures |rs| == |exs|
  {
    if exs == [] then [] else Records(exs[..|exs| - 1], comb) + [SaveRecord(exs[|exs| - 1], comb)]
  }

  lemma {:induction false} RecordsAppend(a: seq<Example>, b: seq<Example>, comb: Combination)
    ensures Records(a + b, comb) == Records(a, comb) + Records(b, comb)
  {
    if b != [] {
      InitAppend(a, b);
      RecordsAppend(a, b[..|b| - 1], comb);
    } else {
      AppendEmpty(a);
    }
  }

  /** Every record carries its example's messages and the combination. */
  lemma RecordsFaithful(exs: seq<Example>, comb: Combination)
    ensures forall k :: 0 <= k < |exs| ==>
      Records(exs, comb)[k] == Record(exs[k].systemMessage, exs[k].userMessage, comb)
  {
    RecordsAt(exs, comb);
  }

  lemma {:induction false} RecordsAt(exs: seq<Example>, comb: Combination)
    ensures forall k :: 0 <= k < |exs| ==> Records(exs, comb)[k] == SaveRecord(exs[k], comb)
  {
    if exs != [] {
      RecordsAt(exs[..|exs| - 1], comb);
    }
  }

  // ---------------------------------------------------------------------
  // The rejection memory

  /** The last `n` elements of `s`, or all of them when there are fewer. */
  function Latest<T>(s: seq<T>, n: nat): (r: seq<T>)
    ensures |r| == if |s| <= n then |s| else n
    ensures forall k :: 0 <= k < |r| ==> r[k] == s[|s| - |r| + k]
  {
    if |s| <= n then s else s[|s| - n..]
  }

  /** Pushing a rejection (src/generate.py:160-164): append while there is
      room, otherwise drop the oldest entry first. */
  function Remember(m: seq<Rejection>, r: Rejection): (m': seq<Rejection>)
    ensures |m| <= MemoryCap ==> m' == Latest(m + [r], MemoryCap)
    ensures |m| <= MemoryCap ==> |m'| <= MemoryCap && m'[|m'| - 1] == r
  {
    if |m| < MemoryCap then m + [r] else m[1..] + [r]
  }

  /** Pushing the rejections of `rs` one by one. */
  function RememberAll(m: seq<Rejection>, rs: seq<Rejection>): seq<Rejection> {
    if rs == [] then m else Remember(RememberAll(m, rs[..|rs| - 1]), rs[|rs| - 1])
  }

  /** Keeping the last `n` of a sequence, then appending, then keeping the
      last `n` again, is keeping the last `n` of the whole. */
  lemma LatestAppend<T>(a: seq<T>, b: seq<T>, n: nat)
    ensures Latest(Latest(a, n) + b, n) == Latest(a + b, n)
  {
    if |a| > n {
      var la := a[|a| - n..];
      if |la + b| > n {
        assert (la + b)[|la + b| - n..] == (a + b)[|a + b| - n..];
      }
    } else if |a + b| > n {
      assert Latest(a, n) + b == a + b;
    }
  }

  /** After any number of pushes, the memory holds the last (at most) 9 of
      everything remembered, in insertion order. */
  lemma {:induction false} RememberAllLatest(m: seq<Rejection>, rs: seq<Rejection>)
    requires |m| <= MemoryCap
    ensures RememberAll(m, rs) == Latest(m + rs, MemoryCap)
  {
    if rs != [] {
      var init, last := rs[..|rs| - 1], rs[|rs| - 1];
      assert rs == init + [last];
      RememberAllLatest(m, init);
      RememberStep(m, init, last);
    } else {
      AppendEmpty(m);
    }
  }

  /** One more push keeps the memory equal to the last 9 of everything
      pushed. */
  lemma RememberStep(m: seq<Rejection>, init: seq<Rejection>, last: Rejection)
    requires RememberAll(m, init) == Latest(m + init, MemoryCap)
    ensures RememberAll(m, init + [last]) == Latest(m + (init + [last]), MemoryCap)
  {
    var rs := init + [last];
    assert rs[..|rs| - 1] == init;
    assert RememberAll(m, rs) == Remember(RememberAll(m, init), last);
    LatestAppend(m + init, [last], MemoryCap);
    Associative(m, init, [last]);
  }

  /** From an empty memory the memory is the last min(M, 9) of the M
      rejections. */
  lemma FromEmptyMemory(rs: seq<Rejection>)
    ensures RememberAll([], rs) == Latest(rs, MemoryCap)
  {
    RememberAllLatest([], rs);
    AppendEmpty(rs);
  }

  // ---------------------------------------------------------------------
  // The feedback string

  /** One line of `explanation_str` (src/generate.py:145): it quotes the
      user message after the 13 characters `The message "`, and ends with the
      explanation and a newline. */
  function FeedbackLine(r: Rejection): (line: string)
    ensures var u := r.example.userMessage;
      && |line| == 13 + |u| + 25 + |r.explanation| + 1
      && line[13..13 + |u|] == u
      && line[|line| - 1 - |r.explanation|..|line| - 1] == r.explanation
      && line[|line| - 1] == '\n'
  {
    "The message \"" + r.example.userMessage + "\" is not self-contained. " + r.explanation + "\n"
  }

  /** `explanation_str` after the loop of src/generate.py:143-145; it is
      empty exactly when the memory is. */
  function Feedback(mem: seq<Rejection>): (fb: string)
    ensures fb == "" <==> mem == []
  {
    if mem == [] then "" else Feedback(mem[..|mem| - 1]) + FeedbackLine(mem[|mem| - 1])
  }

  /** The lines of the first `i` memory entries. */
  function FeedbackUpTo(mem: seq<Rejection>, i: nat): string
    requires i <= |mem|
  {
    if i == 0 then "" else FeedbackUpTo(mem, i - 1) + FeedbackLine(mem[i - 1])
  }

  lemma {:induction false} FeedbackUpToPrefix(mem: seq<Rejection>, i: nat)
    requires i <= |mem|
    ensures FeedbackUpTo(mem, i) == Feedback(mem[..i])
  {
    if i > 0 {
      FeedbackUpToPrefix(mem, i - 1);
      PrefixSnoc(mem, i - 1);
      FeedbackSnoc(mem[..i - 1], mem[i - 1]);
    }
  }

  /** The heading line of the feedback section. */
  const SectionHeading := "\n=== SELF-CONTAINED MESSAGE ===\n"

  /** The heading `generate_examples` puts around the feedback
      (src/generate.py:103), even when there is none: the section is the
      heading, the feedback, and a closing newline. */
  function FeedbackSection(fb: string): (section: string)
    ensures |section| == |SectionHeading| + |fb| + 1
    ensures section[..|SectionHeading|] == SectionHeading
    ensures section[|SectionHeading|..|section| - 1] == fb && section[|section| - 1] == '\n'
  {
    SectionHeading + fb + "\n"
  }

  lemma {:induction false} FeedbackAppend(a: seq<Rejection>, b: seq<Rejection>)
    ensures Feedback(a + b) == Feedback(a) + Feedback(b)
  {
    if b == [] {
      AppendEmpty(a);
    } else {
      var b', x := b[..|b| - 1], b[|b| - 1];
      InitAppend(a, b);
      FeedbackAppend(a, b');
      Associative(Feedback(a), Feedback(b'), FeedbackLine(x));
    }
  }

  lemma FeedbackSnoc(m: seq<Rejection>, x: Rejection)
    ensures Feedback(m + [x]) == Feedback(m) + FeedbackLine(x)
  {
    assert (m + [x])[..|m + [x]| - 1] == m;
  }

  /** The feedback is the lines of the memory entries, in memory order: the
      line of entry `i` sits between the lines of the entries before it and
      those after it. */
  lemma FeedbackLines(mem: seq<Rejection>, i: nat)
    requires i < |mem|
    ensures Feedback(mem) == Feedback(mem[..i]) + FeedbackLine(mem[i]) + Feedback(mem[i + 1..])
  {
    var pre, x, post := mem[..i], mem[i], mem[i + 1..];
    var px := pre + [x];
    SplitAt(mem, i);
    FeedbackSnoc(pre, x);
    FeedbackAppend(px, post);
  }

  /** The section heading can be stripped again: different feedback gives a
      different prompt section. */
  lemma FeedbackSectionInjective(a: string, b: string)
    ensures FeedbackSection(a) == FeedbackSection(b) <==> a == b
  {
    if FeedbackSection(a) == FeedbackSection(b) {
      var h := SectionHeading;
      assert FeedbackSection(a)[|h|..|h| + |a|] == a;
      assert FeedbackSection(b)[|h|..|h| + |b|] == b;
    }
  }

  lemma EmptyFeedbackSection()
    ensures FeedbackSection(Feedback([])) == "\n=== SELF-CONTAINED MESSAGE ===\n\n"
  {
  }

  // ---------------------------------------------------------------------
  // One round

  /** `min(5, n_todo)`. */
  function RequestSize(nTodo: int): (k: int)
    ensures k <= BatchCap && k <= nTodo && (k == BatchCap || k == nTodo)
    ensures nTodo > 0 ==> 1 <= k
  {
    if nTodo < BatchCap then nTodo else BatchCap
  }

  /** `generate_examples` (src/generate.py:102-120): the feedback is wrapped in
      its section and handed to the generator with the requested size. */
  function GenerateExamples(gen: Generator, comb: Combination, round: nat, n: nat, fb: string): seq<Example> {
    gen(comb, round, n, FeedbackSection(fb))
  }

  /** The locals of `work` that the loop updates; `nAccepted` is the
      per-round counter and `file` the contents of the output file. */
  datatype LoopState = LoopState(
    nTodo: int, nAccepted: nat, totalPass: nat, totalFail: nat,
    allExamples: seq<Example>, memory: seq<Rejection>, file: seq<Record>, rounds: nat)

  /** The state before the loop (src/generate.py:137-141); the file holds
      what earlier runs appended. */
  function Start(nSamples: int, file: seq<Record>): LoopState {
    LoopState(nSamples, 0, 0, 0, [], [], file, 0)
  }

  /** The body of the candidate loop (src/generate.py:152-164): the candidate
      is counted exactly once, as a pass when the validator accepts it and
      as a fail otherwise; only a pass grows `all_examples`, `n_accepted` and
      the file, each by one; the memory stays within its bound. */
  function Judge(s: LoopState, ex: Example, comb: Combination, check: Validator): (r: LoopState)
    ensures r.totalPass + r.totalFail == s.totalPass + s.totalFail + 1
    ensures r.totalPass == s.totalPass + 1 <==> check(ex).isSelfContained
    ensures r.nAccepted - s.nAccepted == r.totalPass - s.totalPass
    ensures |r.allExamples| - |s.allExamples| == |r.file| - |s.file| == r.totalPass - s.totalPass
    ensures |s.memory| <= MemoryCap ==> |r.memory| <= MemoryCap
    ensures r.nTodo == s.nTodo && r.rounds == s.rounds
  {
    var v := check(ex);
    if v.isSelfContained then
      s.(allExamples := s.allExamples + [ex], nAccepted := s.nAccepted + 1,
         totalPass := s.totalPass + 1, file := s.file + [SaveRecord(ex, comb)])
    else
      s.(totalFail := s.totalFail + 1, memory := Remember(s.memory, Rejection(ex, v.explanation)))
  }

  /** The candidate loop over a whole batch: every candidate is counted
      once, and `n_accepted`, `all_examples` and the file grow by the number
      of passes. */
  function ProcessBatch(s: LoopState, batch: seq<Example>, comb: Combination, check: Validator): (r: LoopState)
    ensures r.totalPass + r.totalFail == s.totalPass + s.totalFail + |batch|
    ensures r.totalPass >= s.totalPass
    ensures r.nAccepted - s.nAccepted == r.totalPass - s.totalPass
    ensures |r.allExamples| - |s.allExamples| == |r.file| - |s.file| == r.totalPass - s.totalPass
    ensures |s.memory| <= MemoryCap ==> |r.memory| <= MemoryCap
    ensures r.nTodo == s.nTodo && r.rounds == s.rounds
  {
    if batch == [] then s
    else Judge(ProcessBatch(s, batch[..|batch| - 1], comb, check), batch[|batch| - 1], comb, check)
  }

  /** One more iteration of the candidate loop judges one more candidate. */
  lemma ProcessBatchSnoc(s: LoopState, batch: seq<Example>, i: nat, comb: Combination, check: Validator)
    requires i < |batch|
    ensures ProcessBatch(s, batch[..i + 1], comb, check)
      == Judge(ProcessBatch(s, batch[..i], comb, check), batch[i], comb, check)
  {
    assert batch[..i + 1][..i] == batch[..i];
  }

  /** The batch a round in state `s` receives: `min(5, n_todo)` candidates
      are requested with the feedback built from the memory.  No batch is
      requested once `n_todo <= 0`. */
  function Batch(s: LoopState, comb: Combination, gen: Generator): seq<Example> {
    if s.nTodo <= 0 then [] else GenerateExamples(gen, comb, s.rounds, RequestSize(s.nTodo), Feedback(s.memory))
  }

  /** Where each round's batch comes from.  The loop below is stated over an
      arbitrary source of batches; `Planned` is the one `work` uses. */
  type Planner = LoopState -> seq<Example>

  function Planned(comb: Combination, gen: Generator): Planner {
    s => Batch(s, comb, gen)
  }

  /** One iteration of `while n_todo > 0` (src/generate.py:142-166): every
      candidate of the batch is counted once, `n_accepted` holds the passes
      of this round, and `n_todo` goes down by exactly that many. */
  function Round(s: LoopState, comb: Combination, plan: Planner, check: Validator): (r: LoopState)
    ensures r.rounds == s.rounds + 1
    ensures r.totalPass + r.totalFail == s.totalPass + s.totalFail + |plan(s)|
    ensures r.nAccepted == r.totalPass - s.totalPass
    ensures r.nTodo == s.nTodo - r.nAccepted
  {
    var s' := ProcessBatch(s.(nAccepted := 0), plan(s), comb, check);
    s'.(nTodo := s.nTodo - s'.nAccepted, rounds := s.rounds + 1)
  }

  /** The loop, run for at most `fuel` rounds.  It stops with `n_todo <= 0`
      unless the budget ran out, and throughout `n_todo + total_pass` stays
      what it was. */
  function Run(s: LoopState, comb: Combination, plan: Planner, check: Validator, fuel: nat): (r: LoopState)
    decreases fuel
    ensures s.rounds <= r.rounds <= s.rounds + fuel
    ensures r.nTodo <= 0 || r.rounds == s.rounds + fuel
    ensures r.totalPass >= s.totalPass && r.nTodo == s.nTodo - (r.totalPass - s.totalPass)
  {
    if s.nTodo <= 0 || fuel == 0 then s else Run(Round(s, comb, plan, check), comb, plan, check, fuel - 1)
  }

  /** The states `Run` passes through, from `s` to the one it returns. */
  function Trace(s: LoopState, comb: Combination, plan: Planner, check: Validator, fuel: nat): (t: seq<LoopState>)
    decreases fuel
    ensures 1 <= |t| <= fuel + 1 && t[0] == s
  {
    if s.nTodo <= 0 || fuel == 0 then [s] else [s] + Trace(Round(s, comb, plan, check), comb, plan, check, fuel - 1)
  }

  /** Each state of the trace is one round after the one before it, only
      states with work left are followed by another, and the trace ends at
      the state `Run` returns, once no work is left or the budget is spent. */
  lemma {:induction false} TraceFacts(s: LoopState, comb: Combination, plan: Planner, check: Validator, fuel: nat)
    decreases fuel
    ensures var t := Trace(s, comb, plan, check, fuel);
      && t[|t| - 1] == Run(s, comb, plan, check, fuel)
      && (t[|t| - 1].nTodo <= 0 || |t| == fuel + 1)
      && forall k :: 0 <= k < |t| - 1 ==> t[k].nTodo > 0 && t[k + 1] == Round(t[k], comb, plan, check)
  {
    if s.nTodo > 0 && fuel > 0 {
      var r := Round(s, comb, plan, check);
      TraceFacts(r, comb, plan, check, fuel - 1);
      TraceFactsStep(s, r, comb, plan, check, fuel);
    }
  }

  /** The step of `TraceFacts`: the trace of `s` is `s` in front of the
      trace of the round after it. */
  lemma TraceFactsStep(s: LoopState, r: LoopState, comb: Combination, plan: Planner, check: Validator, fuel: nat)
    requires s.nTodo > 0 && fuel > 0 && r == Round(s, comb, plan, check)
    requires var t' := Trace(r, comb, plan, check, fuel - 1);
      && t'[|t'| - 1] == Run(r, comb, plan, check, fuel - 1)
      && (t'[|t'| - 1].nTodo <= 0 || |t'| == fuel)
      && forall k :: 0 <= k < |t'| - 1 ==> t'[k].nTodo > 0 && t'[k + 1] == Round(t'[k], comb, plan, check)
    ensures var t := Trace(s, comb, plan, check, fuel);
      && t[|t| - 1] == Run(s, comb, plan, check, fuel)
      && (t[|t| - 1].nTodo <= 0 || |t| == fuel + 1)
      && forall k :: 0 <= k < |t| - 1 ==> t[k].nTodo > 0 && t[k + 1] == Round(t[k], comb, plan, check)
  {
    var t' := Trace(r, comb, plan, check, fuel - 1);
    assert Trace(s, comb, plan, check, fuel) == [s] + t';
    assert Run(s, comb, plan, check, fuel) == Run(r, comb, plan, check, fuel - 1);
    TraceCons(s, t', comb, plan, check);
  }

  /** Putting a state with work left in front of a trace that starts one
      round after it keeps every step a round. */
  lemma TraceCons(s: LoopState, t': seq<LoopState>, comb: Combination, plan: Planner, check: Validator)
    requires s.nTodo > 0 && t' != [] && t'[0] == Round(s, comb, plan, check)
    requires forall k :: 0 <= k < |t'| - 1 ==> t'[k].nTodo > 0 && t'[k + 1] == Round(t'[k], comb, plan, check)
    ensures var t := [s] + t';
      forall k :: 0 <= k < |t| - 1 ==> t[k].nTodo > 0 && t[k + 1] == Round(t[k], comb, plan, check)
  {
    var t := [s] + t';
    forall k | 0 <= k < |t| - 1 ensures t[k].nTodo > 0 && t[k + 1] == Round(t[k], comb, plan, check) {
      if k > 0 {
        assert t[k] == t'[k - 1] && t[k + 1] == t'[k];
      }
    }
  }

  /** Everything the rounds of `Run` hand to the validator, in order. */
  function Candidates(s: LoopState, comb: Combination, plan: Planner, check: Validator, fuel: nat): seq<Example>
    decreases fuel
  {
    if s.nTodo <= 0 || fuel == 0 then []
    else plan(s) + Candidates(Round(s, comb, plan, check), comb, plan, check, fuel - 1)
  }

  // ---------------------------------------------------------------------
  // What the validator decides about a sequence of candidates

  function Accepted(exs: seq<Example>, check: Validator): seq<Example> {
    if exs == [] then []
    else Accepted(exs[..|exs| - 1], check) + (if check(exs[|exs| - 1]).isSelfContained then [exs[|exs| - 1]] else [])
  }

  function Rejected(exs: seq<Example>, check: Validator): seq<Rejection> {
    if exs == [] then []
    else
      var ex := exs[|exs| - 1];
      Rejected(exs[..|exs| - 1], check) + (if check(ex).isSelfContained then [] else [Rejection(ex, check(ex).explanation)])
  }

  lemma {:induction false} AcceptedRejectedSplit(exs: seq<Example>, check: Validator)
    ensures |Accepted(exs, check)| + |Rejected(exs, check)| == |exs|
    ensures forall ex :: ex in Accepted(exs, check) ==> ex in exs && check(ex).isSelfContained
    ensures forall r :: r in Rejected(exs, check) ==> r.example in exs && !check(r.example).isSelfContained
  {
    if exs != [] {
      AcceptedRejectedSplit(exs[..|exs| - 1], check);
    }
  }

  lemma {:induction false} AcceptedAppend(a: seq<Example>, b: seq<Example>, check: Validator)
    ensures Accepted(a + b, check) == Accepted(a, check) + Accepted(b, check)
    ensures Rejected(a + b, check) == Rejected(a, check) + Rejected(b, check)
  {
    if b != [] {
      InitAppend(a, b);
      AcceptedAppend(a, b[..|b| - 1], check);
    } else {
      AppendEmpty(a);
    }
  }

  // ---------------------------------------------------------------------
  // Effects

  /** The candidate loop appends the accepted candidates to `all_examples`
      and to the file, counts them in `n_accepted` and `total_pass`, counts
      the others in `total_fail` and remembers their last 9. */
  lemma {:induction false} ProcessBatchEffect(s: LoopState, batch: seq<Example>, comb: Combination, check: Validator)
    ensures var r := ProcessBatch(s, batch, comb, check);
      var acc := Accepted(batch, check);
      && r.allExamples == s.allExamples + acc
      && r.file == s.file + Records(acc, comb)
      && r.nAccepted == s.nAccepted + |acc|
      && r.totalPass == s.totalPass + |acc|
      && r.totalFail == s.totalFail + |Rejected(batch, check)|
      && (|s.memory| <= MemoryCap ==> r.memory == Latest(s.memory + Rejected(batch, check), MemoryCap))
      && r.nTodo == s.nTodo && r.rounds == s.rounds
  {
    if batch == [] {
      AppendEmpty(s.memory);
    } else {
      var init, ex := batch[..|batch| - 1], batch[|batch| - 1];
      ProcessBatchEffect(s, init, comb, check);
      var p := ProcessBatch(s, init, comb, check);
      var accInit := Accepted(init, check);
      var rejInit := Rejected(init, check);
      if check(ex).isSelfContained {
        RecordsAppend(accInit, [ex], comb);
        assert Records([ex], comb) == [SaveRecord(ex, comb)] by { assert [ex][..0] == []; }
        Associative(s.allExamples, accInit, [ex]);
        Associative(s.file, Records(accInit, comb), [SaveRecord(ex, comb)]);
        assert Rejected(batch, check) == rejInit;
      } else {
        var rj := Rejection(ex, check(ex).explanation);
        assert |Latest(s.memory + rejInit, MemoryCap)| <= MemoryCap;
        LatestAppend(s.memory + rejInit, [rj], MemoryCap);
        Associative(s.memory, rejInit, [rj]);
        assert Accepted(batch, check) == accInit;
      }
    }
  }

  /** What a run of the loop amounts to: every candidate handed to the
      validator is accepted or rejected exactly once, the accepted ones end up
      in `all_examples` and in the file in processing order, `n_todo` goes
      down by their number, and the memory is the last 9 rejections.  The
      loop stopped either because `n_todo <= 0` or because the round budget
      ran out. */
  lemma RunEffect(s: LoopState, comb: Combination, plan: Planner, check: Validator, fuel: nat)
    requires |s.memory| <= MemoryCap
    ensures var r := Run(s, comb, plan, check, fuel);
      var cs := Candidates(s, comb, plan, check, fuel);
      var acc := Accepted(cs, check);
      && r.allExamples == s.allExamples + acc
      && r.file == s.file + Records(acc, comb)
      && r.totalPass == s.totalPass + |acc|
      && r.totalFail == s.totalFail + |Rejected(cs, check)|
      && r.nTodo == s.nTodo - |acc|
      && r.memory == Latest(s.memory + Rejected(cs, check), MemoryCap)
      && (r.nTodo <= 0 || r.rounds == s.rounds + fuel)
      && r.rounds <= s.rounds + fuel
  {
    RunAccepted(s, comb, plan, check, fuel);
    RunRejected(s, comb, plan, check, fuel);
  }

  /** Once `n_todo <= 0` or the budget is spent, nothing more happens. */
  lemma RunDone(s: LoopState, comb: Combination, plan: Planner, check: Validator, fuel: nat)
    requires s.nTodo <= 0 || fuel == 0
    ensures Run(s, comb, plan, check, fuel) == s
    ensures Candidates(s, comb, plan, check, fuel) == []
    ensures Accepted([], check) == [] && Rejected([], check) == []
  {
  }

  /** Unfolding one round of `Run` and of `Candidates`. */
  lemma RunStep(s: LoopState, comb: Combination, plan: Planner, check: Validator, fuel: nat)
    requires s.nTodo > 0 && fuel > 0
    ensures Run(s, comb, plan, check, fuel) == Run(Round(s, comb, plan, check), comb, plan, check, fuel - 1)
    ensures Candidates(s, comb, plan, check, fuel)
      == plan(s) + Candidates(Round(s, comb, plan, check), comb, plan, check, fuel - 1)
  {
  }

  lemma RunAccepted(s: LoopState, comb: Combination, plan: Planner, check: Validator, fuel: nat)
    ensures var r := Run(s, comb, plan, check, fuel);
      var acc := Accepted(Candidates(s, comb, plan, check, fuel), check);
      && r.allExamples == s.allExamples + acc
      && r.file == s.file + Records(acc, comb)
      && r.totalPass == s.totalPass + |acc|
      && r.nTodo == s.nTodo - |acc|
  {
    RunExamples(s, comb, plan, check, fuel);
    RunCounts(s, comb, plan, check, fuel);
  }

  lemma RunExamples(s: LoopState, comb: Combination, plan: Planner, check: Validator, fuel: nat)
    ensures var r := Run(s, comb, plan, check, fuel);
      var acc := Accepted(Candidates(s, comb, plan, check, fuel), check);
      && r.allExamples == s.allExamples + acc
      && r.file == s.file + Records(acc, comb)
  {
    RunAllExamples(s, comb, plan, check, fuel);
    RunFile(s, comb, plan, check, fuel);
  }

  lemma {:induction false} RunAllExamples(s: LoopState, comb: Combination, plan: Planner, check: Validator, fuel: nat)
    decreases fuel
    ensures Run(s, comb, plan, check, fuel).allExamples
      == s.allExamples + Accepted(Candidates(s, comb, plan, check, fuel), check)
  {
    if s.nTodo <= 0 || fuel == 0 {
      RunDone(s, comb, plan, check, fuel);
      AppendEmpty(s.allExamples);
    } else {
      var s1 := Round(s, comb, plan, check);
      var batch, rest := plan(s), Candidates(s1, comb, plan, check, fuel - 1);
      RoundExamples(s, comb, plan, check);
      RunAllExamples(s1, comb, plan, check, fuel - 1);
      RunStep(s, comb, plan, check, fuel);
      assert Run(s1, comb, plan, check, fuel - 1).allExamples
        == s.allExamples + Accepted(batch, check) + Accepted(rest, check);
      AcceptedAppend(batch, rest, check);
      Associative(s.allExamples, Accepted(batch, check), Accepted(rest, check));
    }
  }

  lemma {:induction false} RunFile(s: LoopState, comb: Combination, plan: Planner, check: Validator, fuel: nat)
    decreases fuel
    ensures Run(s, comb, plan, check, fuel).file
      == s.file + Records(Accepted(Candidates(s, comb, plan, check, fuel), check), comb)
  {
    if s.nTodo <= 0 || fuel == 0 {
      RunDone(s, comb, plan, check, fuel);
      AppendEmpty(s.file);
    } else {
      var s1 := Round(s, comb, plan, check);
      var batch, rest := plan(s), Candidates(s1, comb, plan, check, fuel - 1);
      var a, b := Accepted(batch, check), Accepted(rest, check);
      RoundFile(s, comb, plan, check);
      RunFile(s1, comb, plan, check, fuel - 1);
      RunStep(s, comb, plan, check, fuel);
      assert Run(s1, comb, plan, check, fuel - 1).file == s.file + Records(a, comb) + Records(b, comb);
      AcceptedAppend(batch, rest, check);
      FileConcat(s.file, comb, a, b);
    }
  }

  /** Appending the records of two rounds in turn is appending them
      together. */
  lemma FileConcat(file: seq<Record>, comb: Combination, a: seq<Example>, b: seq<Example>)
    ensures file + Records(a, comb) + Records(b, comb) == file + Records(a + b, comb)
  {
    RecordsAppend(a, b, comb);
    Associative(file, Records(a, comb), Records(b, comb));
  }

  lemma {:induction false} RunCounts(s: LoopState, comb: Combination, plan: Planner, check: Validator, fuel: nat)
    decreases fuel
    ensures var r := Run(s, comb, plan, check, fuel);
      var acc := Accepted(Candidates(s, comb, plan, check, fuel), check);
      && r.totalPass == s.totalPass + |acc|
      && r.nTodo == s.nTodo - |acc|
  {
    if s.nTodo <= 0 || fuel == 0 {
      RunDone(s, comb, plan, check, fuel);
    } else {
      var s1 := Round(s, comb, plan, check);
      RoundCounts(s, comb, plan, check);
      RunCounts(s1, comb, plan, check, fuel - 1);
      RunStep(s, comb, plan, check, fuel);
      AcceptedAppend(plan(s), Candidates(s1, comb, plan, check, fuel - 1), check);
    }
  }

  lemma RunRejected(s: LoopState, comb: Combination, plan: Planner, check: Validator, fuel: nat)
    requires |s.memory| <= MemoryCap
    ensures var r := Run(s, comb, plan, check, fuel);
      var rej := Rejected(Candidates(s, comb, plan, check, fuel), check);
      && r.totalFail == s.totalFail + |rej|
      && r.memory == Latest(s.memory + rej, MemoryCap)
  {
    RunFailures(s, comb, plan, check, fuel);
    RunMemory(s, comb, plan, check, fuel);
  }

  lemma {:induction false} RunFailures(s: LoopState, comb: Combination, plan: Planner, check: Validator, fuel: nat)
    decreases fuel
    ensures Run(s, comb, plan, check, fuel).totalFail
      == s.totalFail + |Rejected(Candidates(s, comb, plan, check, fuel), check)|
  {
    if s.nTodo <= 0 || fuel == 0 {
      RunDone(s, comb, plan, check, fuel);
    } else {
      var s1 := Round(s, comb, plan, check);
      RoundCounts(s, comb, plan, check);
      RunFailures(s1, comb, plan, check, fuel - 1);
      RunStep(s, comb, plan, check, fuel);
      AcceptedAppend(plan(s), Candidates(s1, comb, plan, check, fuel - 1), check);
    }
  }

  lemma {:induction false} RunMemory(s: LoopState, comb: Combination, plan: Planner, check: Validator, fuel: nat)
    requires |s.memory| <= MemoryCap
    decreases fuel
    ensures Run(s, comb, plan, check, fuel).memory
      == Latest(s.memory + Rejected(Candidates(s, comb, plan, check, fuel), check), MemoryCap)
  {
    if s.nTodo <= 0 || fuel == 0 {
      AppendEmpty(s.memory);
    } else {
      var s1 := Round(s, comb, plan, check);
      RoundMemory(s, comb, plan, check);
      RunMemory(s1, comb, plan, check, fuel - 1);
      RunMemoryStep(s, s1, comb, plan, check, fuel);
    }
  }

  /** The step of `RunMemory`: the memory after the first round, then after
      the rest of the run, is the memory of the whole run. */
  lemma RunMemoryStep(s: LoopState, s1: LoopState, comb: Combination, plan: Planner, check: Validator, fuel: nat)
    requires s.nTodo > 0 && fuel > 0 && s1 == Round(s, comb, plan, check)
    requires s1.memory == Latest(s.memory + Rejected(plan(s), check), MemoryCap)
    requires Run(s1, comb, plan, check, fuel - 1).memory
      == Latest(s1.memory + Rejected(Candidates(s1, comb, plan, check, fuel - 1), check), MemoryCap)
    ensures Run(s, comb, plan, check, fuel).memory
      == Latest(s.memory + Rejected(Candidates(s, comb, plan, check, fuel), check), MemoryCap)
  {
    var batch, rest := plan(s), Candidates(s1, comb, plan, check, fuel - 1);
    RunStep(s, comb, plan, check, fuel);
    AcceptedAppend(batch, rest, check);
    MemoryStep(s.memory, s1.memory, Rejected(batch, check), Rejected(rest, check), Run(s1, comb, plan, check, fuel - 1).memory);
  }

  /** A memory that was the last 9 of `m + rb` and then took in `rr` is the
      last 9 of `m + (rb + rr)`. */
  lemma MemoryStep(m: seq<Rejection>, m1: seq<Rejection>, rb: seq<Rejection>, rr: seq<Rejection>, final: seq<Rejection>)
    requires m1 == Latest(m + rb, MemoryCap)
    requires final == Latest(m1 + rr, MemoryCap)
    ensures final == Latest(m + (rb + rr), MemoryCap)
  {
    RememberConcat(m, rb, rr);
  }

  /** Remembering `a` and then `b` is remembering `a + b`. */
  lemma RememberConcat(m: seq<Rejection>, a: seq<Rejection>, b: seq<Rejection>)
    ensures Latest(Latest(m + a, MemoryCap) + b, MemoryCap) == Latest(m + (a + b), MemoryCap)
  {
    LatestAppend(m + a, b, MemoryCap);
    Associative(m, a, b);
  }

  /** One round: the batch it asks for is judged as a whole, and `n_todo`
      goes down by the number accepted. */
  lemma RoundEffect(s: LoopState, comb: Combination, plan: Planner, check: Validator)
    ensures var r := Round(s, comb, plan, check);
      var batch := plan(s);
      var acc := Accepted(batch, check);
      && r.allExamples == s.allExamples + acc
      && r.file == s.file + Records(acc, comb)
      && r.totalPass == s.totalPass + |acc|
      && r.totalFail == s.totalFail + |Rejected(batch, check)|
      && r.nTodo == s.nTodo - |acc|
      && (|s.memory| <= MemoryCap ==> r.memory == Latest(s.memory + Rejected(batch, check), MemoryCap))
      && r.rounds == s.rounds + 1
  {
    RoundCounts(s, comb, plan, check);
    RoundExamples(s, comb, plan, check);
    RoundFile(s, comb, plan, check);
    RoundMemory(s, comb, plan, check);
  }

  lemma RoundCounts(s: LoopState, comb: Combination, plan: Planner, check: Validator)
    ensures var r := Round(s, comb, plan, check);
      && r.totalPass == s.totalPass + |Accepted(plan(s), check)|
      && r.totalFail == s.totalFail + |Rejected(plan(s), check)|
      && r.nTodo == s.nTodo - |Accepted(plan(s), check)|
      && r.rounds == s.rounds + 1
  {
    ProcessBatchEffect(s.(nAccepted := 0), plan(s), comb, check);
  }

  lemma RoundExamples(s: LoopState, comb: Combination, plan: Planner, check: Validator)
    ensures Round(s, comb, plan, check).allExamples == s.allExamples + Accepted(plan(s), check)
  {
    ProcessBatchEffect(s.(nAccepted := 0), plan(s), comb, check);
  }

  lemma RoundFile(s: LoopState, comb: Combination, plan: Planner, check: Validator)
    ensures Round(s, comb, plan, check).file == s.file + Records(Accepted(plan(s), check), comb)
  {
    ProcessBatchEffect(s.(nAccepted := 0), plan(s), comb, check);
  }

  lemma RoundMemory(s: LoopState, comb: Combination, plan: Planner, check: Validator)
    ensures |s.memory| <= MemoryCap ==>
      Round(s, comb, plan, check).memory == Latest(s.memory + Rejected(plan(s), check), MemoryCap)
  {
    ProcessBatchEffect(s.(nAccepted := 0), plan(s), comb, check);
  }

  /** One call of `work`: `n_todo == n_samples - total_pass`, the file grew
      by exactly the `total_pass` accepted records, `all_examples` holds the
      same candidates, and the memory is the last min(M, 9) of the M
      rejections. */
  lemma WorkOutcome(nSamples: int, file0: seq<Record>, comb: Combination, plan: Planner, check: Validator, fuel: nat)
    ensures var r := Run(Start(nSamples, file0), comb, plan, check, fuel);
      var cs := Candidates(Start(nSamples, file0), comb, plan, check, fuel);
      && r.nTodo == nSamples - r.totalPass
      && r.totalPass == |r.allExamples|
      && r.allExamples == Accepted(cs, check)
      && r.file == file0 + Records(r.allExamples, comb)
      && |r.file| == |file0| + r.totalPass
      && r.totalPass + r.totalFail == |cs|
      && r.memory == Latest(Rejected(cs, check), MemoryCap)
      && |r.memory| <= MemoryCap
      && (r.nTodo <= 0 || r.rounds == fuel)
  {
    var s := Start(nSamples, file0);
    RunEffect(s, comb, plan, check, fuel);
    var cs := Candidates(s, comb, plan, check, fuel);
    AcceptedRejectedSplit(cs, check);
    AppendEmpty(Accepted(cs, check));
    AppendEmpty(Rejected(cs, check));
  }

  /** The loop stops once `n_todo <= 0`: no round runs from such a state, and
      with no `sample` requested the file is left alone. */
  lemma NoRoundWithoutWork(s: LoopState, comb: Combination, plan: Planner, check: Validator, fuel: nat)
    requires s.nTodo <= 0
    ensures Run(s, comb, plan, check, fuel) == s
    ensures Candidates(s, comb, plan, check, fuel) == []
  {
  }

  // ---------------------------------------------------------------------
  // An exact generator and an accepting validator

  /** `dummy_gen` (src/generate.py:96-100): `n` placeholder examples.  The
      source wraps them in an `Examples` object; this is its `.examples`
      list, the part `work` iterates over. */
  function DummyGen(comb: Combination, round: nat, n: nat, section: string): (exs: seq<Example>)
    ensures |exs| == n
    ensures forall k :: 0 <= k < n ==> exs[k] == Example("system message ...", "user message ...")
  {
    seq(n, _ => Example("system message ...", "user message ..."))
  }

  function AcceptAll(ex: Example): Verdict {
    Verdict(true, "")
  }

  /** `ceil(m / 5)`. */
  function RoundsNeeded(m: nat): nat {
    (m + 4) / 5
  }

  /** With batches of exactly the requested size and a validator that
      accepts everything, the loop needs ceil(n / 5) rounds and then has
      accepted exactly the `n` it was asked for. */
  lemma {:induction false} ExactBatchesRun(s: LoopState, comb: Combination, plan: Planner, fuel: nat)
    requires s.nTodo >= 0 && fuel >= RoundsNeeded(s.nTodo)
    requires forall t: LoopState :: t.nTodo > 0 ==> |plan(t)| == RequestSize(t.nTodo)
    decreases fuel
    ensures var r := Run(s, comb, plan, AcceptAll, fuel);
      && r.nTodo == 0
      && r.rounds == s.rounds + RoundsNeeded(s.nTodo)
      && r.totalPass == s.totalPass + s.nTodo
      && r.totalFail == s.totalFail
      && r.memory == s.memory
      && |r.file| == |s.file| + s.nTodo
  {
    if s.nTodo > 0 {
      var k := RequestSize(s.nTodo);
      AllAccepted(s.(nAccepted := 0), plan(s), comb);
      var s1 := Round(s, comb, plan, AcceptAll);
      assert s1.nTodo == s.nTodo - k;
      assert RoundsNeeded(s.nTodo) == 1 + RoundsNeeded(s1.nTodo);
      ExactBatchesRun(s1, comb, plan, fuel - 1);
    }
  }

  /** A generator that returns exactly the requested count gives such
      batches. */
  lemma PlannedExact(comb: Combination, gen: Generator)
    requires forall c, r, k, f :: |gen(c, r, k, f)| == k
    ensures forall t: LoopState :: t.nTodo > 0 ==> |Planned(comb, gen)(t)| == RequestSize(t.nTodo)
  {
  }

  lemma {:induction false} AllAccepted(s: LoopState, batch: seq<Example>, comb: Combination)
    ensures var r := ProcessBatch(s, batch, comb, AcceptAll);
      && r.nAccepted == s.nAccepted + |batch|
      && r.totalPass == s.totalPass + |batch|
      && |r.file| == |s.file| + |batch|
      && r.totalFail == s.totalFail && r.memory == s.memory
      && r.nTodo == s.nTodo && r.rounds == s.rounds
  {
    if batch != [] {
      AllAccepted(s, batch[..|batch| - 1], comb);
    }
  }

  /** `dummy_gen` is such a generator: a work item of `n` samples ends after
      ceil(n / 5) rounds with `n` records written. */
  lemma DummyGenTermination(nSamples: nat, file0: seq<Record>, comb: Combination, fuel: nat)
    requires fuel >= RoundsNeeded(nSamples)
    ensures var r := Run(Start(nSamples, file0), comb, Planned(comb, DummyGen), AcceptAll, fuel);
      && r.nTodo == 0 && r.totalPass == nSamples && r.totalFail == 0
      && r.rounds == RoundsNeeded(nSamples)
      && |r.file| == |file0| + nSamples
  {
    PlannedExact(comb, DummyGen);
    ExactBatchesRun(Start(nSamples, file0), comb, Planned(comb, DummyGen), fuel);
  }

  // ---------------------------------------------------------------------
  // Scenarios

  /** A work item of three samples whose first request (three candidates,
      empty feedback) yields a, b, c, of which only b is rejected: after one
      round two records are written, the memory holds b's rejection, and one
      sample is still to do. */
  lemma OneRoundScenario(comb: Combination, file0: seq<Record>, gen: Generator, check: Validator, a: Example, b: Example, c: Example)
    requires gen(comb, 0, 3, FeedbackSection("")) == [a, b, c]
    requires check(a).isSelfContained && !check(b).isSelfContained && check(c).isSelfContained
    ensures var r := Round(Start(3, file0), comb, Planned(comb, gen), check);
      var rj := Rejection(b, check(b).explanation);
      && r.nTodo == 1 && r.totalPass == 2 && r.totalFail == 1 && r.rounds == 1
      && r.allExamples == [a, c]
      && r.file == file0 + [SaveRecord(a, comb), SaveRecord(c, comb)]
      && r.memory == [rj]
      && Feedback(r.memory) == FeedbackLine(rj)
  {
    var s0 := Start(3, file0);
    var rj := Rejection(b, check(b).explanation);
    FirstRequest(comb, gen, file0);
    ThreeVerdicts(a, b, c, check);
    RoundEffect(s0, comb, Planned(comb, gen), check);
    assert Records([a, c], comb) == [SaveRecord(a, comb), SaveRecord(c, comb)] by {
      assert [a, c][..1] == [a];
    }
    AppendEmpty([rj]);
    FeedbackSnoc([], rj);
  }

  /** The first request of a work item of three samples: three candidates,
      with the feedback section of an empty memory. */
  lemma FirstRequest(comb: Combination, gen: Generator, file0: seq<Record>)
    ensures Planned(comb, gen)(Start(3, file0)) == gen(comb, 0, 3, FeedbackSection(""))
  {
    assert RequestSize(3) == 3;
  }

  /** Judging a, b, c with only b rejected. */
  lemma ThreeVerdicts(a: Example, b: Example, c: Example, check: Validator)
    requires check(a).isSelfContained && !check(b).isSelfContained && check(c).isSelfContained
    ensures Accepted([a, b, c], check) == [a, c]
    ensures Rejected([a, b, c], check) == [Rejection(b, check(b).explanation)]
  {
    var batch := [a, b, c];
    assert batch[..2] == [a, b] && [a, b][..1] == [a] && [a][..0] == [];
    assert Accepted([a], check) == [a] && Rejected([a], check) == [];
    assert Accepted([a, b], check) == [a];
  }

  /** There is no cap on `n_todo`: a generator that returns more candidates
      than requested can drive it below zero, and the loop then stops. */
  lemma OverfullBatch(comb: Combination, file0: seq<Record>, fuel: nat)
    requires fuel >= 1
    ensures var e := Example("s", "u");
      var gen: Generator := (cm, r, k, f) => [e, e, e];
      var r := Run(Start(2, file0), comb, Planned(comb, gen), AcceptAll, fuel);
      r.nTodo == -1 && r.rounds == 1 && r.totalPass == 3
  {
    var e := Example("s", "u");
    var gen: Generator := (cm, r, k, f) => [e, e, e];
    var s := Start(2, file0);
    assert Planned(comb, gen)(s) == [e, e, e];
    AllAccepted(s.(nAccepted := 0), [e, e, e], comb);
    var s1 := Round(s, comb, Planned(comb, gen), AcceptAll);
    assert s1.nTodo == -1;
  }
}
