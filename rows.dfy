/**
 * The command line driver of src/generate.py:200-239: the `--rows`
 * argument is searched for `[<digits>:<digits>]`, the two numerals become
 * a start and an end row, checked and clipped against the number of rows
 * of the sample file, and `work` runs on every row of the range in order.
 */
module RowSelection {
  import opened Wrappers
  import opened AcceptanceLoop
  import opened Generate
  import Decimal

  // ---------------------------------------------------------------------
  // The pattern \[(\d*):(\d*)\]

  /** The end of the run of digits that starts at `i`. */
  function DigitRun(s: string, i: nat): (j: nat)
    requires i <= |s|
    ensures i <= j <= |s|
    ensures forall k :: i <= k < j ==> Decimal.IsDigit(s[k])
    ensures j == |s| || !Decimal.IsDigit(s[j])
    decreases |s| - i
  {
    if i == |s| || !Decimal.IsDigit(s[i]) then i else DigitRun(s, i + 1)
  }

  /** Whether the pattern matches at `p` with groups `g1` and `g2`: `s`
      holds `[`, `g1`, `:`, `g2`, `]` from `p` on, both groups digits. */
  predicate IsMatch(s: string, p: nat, g1: string, g2: string) {
    var a := p + 1 + |g1|;
    var b := a + 1 + |g2|;
    && Decimal.AllDigits(g1) && Decimal.AllDigits(g2) && b < |s|
    && s[p] == '[' && s[p + 1..a] == g1 && s[a] == ':' && s[a + 1..b] == g2 && s[b] == ']'
  }

  /** The match at `p`.  A run of digits never ends in `:` or `]`, so the
      greedy groups take the whole runs and there is nothing to backtrack.
      The groups it returns form a match (`MatchAtComplete` gives the
      converse). */
  function MatchAt(s: string, p: nat): (m: Option<(string, string)>)
    requires p <= |s|
    ensures m.Some? ==> IsMatch(s, p, m.value.0, m.value.1)
  {
    if p < |s| && s[p] == '[' then
      var a := DigitRun(s, p + 1);
      if a < |s| && s[a] == ':' then
        var b := DigitRun(s, a + 1);
        if b < |s| && s[b] == ']' then Some((s[p + 1..a], s[a + 1..b])) else None
      else None
    else None
  }

  /** `re.search`: the match at the leftmost position that has one
      (`SearchLeftmost`).  Its groups are digits, so `int` applies to them. */
  function Search(s: string, p: nat): (m: Option<(string, string)>)
    requires p <= |s|
    decreases |s| - p
    ensures m.Some? ==> Decimal.AllDigits(m.value.0) && Decimal.AllDigits(m.value.1)
  {
    if MatchAt(s, p).Some? then MatchAt(s, p)
    else if p == |s| then None
    else Search(s, p + 1)
  }

  lemma DigitRunAt(s: string, i: nat, j: nat)
    requires i <= j < |s|
    requires forall k :: i <= k < j ==> Decimal.IsDigit(s[k])
    requires !Decimal.IsDigit(s[j])
    ensures DigitRun(s, i) == j
    decreases j - i
  {
    if i < j {
      DigitRunAt(s, i + 1, j);
    }
  }

  /** Every match at `p` is the one `MatchAt` returns. */
  lemma MatchAtComplete(s: string, p: nat, g1: string, g2: string)
    requires p <= |s| && IsMatch(s, p, g1, g2)
    ensures MatchAt(s, p) == Some((g1, g2))
  {
    var a, b := p + 1 + |g1|, p + 2 + |g1| + |g2|;
    forall k | p + 1 <= k < a ensures Decimal.IsDigit(s[k]) {
      assert s[k] == s[p + 1..a][k - p - 1];
    }
    forall k | a + 1 <= k < b ensures Decimal.IsDigit(s[k]) {
      assert s[k] == s[a + 1..b][k - a - 1];
    }
    DigitRunAt(s, p + 1, a);
    DigitRunAt(s, a + 1, b);
  }

  /** A position matches with at most one pair of groups. */
  lemma MatchUnique(s: string, p: nat, g1: string, g2: string, h1: string, h2: string)
    requires p <= |s| && IsMatch(s, p, g1, g2) && IsMatch(s, p, h1, h2)
    ensures g1 == h1 && g2 == h2
  {
    MatchAtComplete(s, p, g1, g2);
    MatchAtComplete(s, p, h1, h2);
  }

  /** `Search` is `re.search`: it fails exactly when no position from `p`
      on matches, and otherwise returns the match at the leftmost position
      that does. */
  lemma {:induction false} SearchLeftmost(s: string, p: nat)
    requires p <= |s|
    ensures Search(s, p).None? <==> forall q :: p <= q <= |s| ==> MatchAt(s, q).None?
    ensures Search(s, p).Some? ==> exists q :: p <= q <= |s| && MatchAt(s, q) == Search(s, p)
                                     && forall r :: p <= r < q ==> MatchAt(s, r).None?
  {
    SearchNone(s, p);
    SearchFound(s, p);
  }

  lemma {:induction false} SearchNone(s: string, p: nat)
    requires p <= |s|
    decreases |s| - p
    ensures Search(s, p).None? <==> forall q :: p <= q <= |s| ==> MatchAt(s, q).None?
  {
    if MatchAt(s, p).None? && p < |s| {
      SearchNone(s, p + 1);
      assert Search(s, p) == Search(s, p + 1);
      if Search(s, p).None? {
        forall q | p <= q <= |s| ensures MatchAt(s, q).None? {
          if q > p {
            assert p + 1 <= q <= |s|;
          }
        }
      }
    }
  }

  lemma {:induction false} SearchFound(s: string, p: nat)
    requires p <= |s|
    decreases |s| - p
    ensures Search(s, p).Some? ==> exists q :: p <= q <= |s| && MatchAt(s, q) == Search(s, p)
                                     && forall r :: p <= r < q ==> MatchAt(s, r).None?
  {
    if MatchAt(s, p).Some? {
      assert MatchAt(s, p) == Search(s, p);
    } else if p < |s| {
      SearchFound(s, p + 1);
      assert Search(s, p) == Search(s, p + 1);
      if Search(s, p + 1).Some? {
        var q :| p + 1 <= q <= |s| && MatchAt(s, q) == Search(s, p + 1)
                 && forall r :: p + 1 <= r < q ==> MatchAt(s, r).None?;
        SkipNoMatch(s, p, q);
      }
    }
  }

  /** No match at `p` and none from `p + 1` up to `q`: none from `p` up to `q`. */
  lemma SkipNoMatch(s: string, p: nat, q: nat)
    requires p < q <= |s| && MatchAt(s, p).None?
    requires forall r :: p + 1 <= r < q ==> MatchAt(s, r).None?
    ensures forall r :: p <= r < q ==> MatchAt(s, r).None?
  {
  }

  // ---------------------------------------------------------------------
  // Resolving the range

  datatype RowsError =
    | InvalidSlice      // line 215: `--rows` holds no `[a:b]`
    | TooFewRows        // line 219: the start row is not a row of the file

  /** Lines 207-222: `int(g1)` or 0, `int(g2)` or `None`; a start at or
      past the last row is refused; an end that is `None` or 0 becomes the
      number of rows; then the end is clipped to the number of rows. */
  function ResolveRows(rows: string, nRows: nat): (r: Result<(nat, nat), RowsError>)
    ensures r.Success? ==> r.value.0 < nRows && r.value.1 <= nRows
  {
    match Search(rows, 0)
    case None => Failure(InvalidSlice)
    case Some((g1, g2)) =>
      var start := if g1 == "" then 0 else Decimal.Parse(g1);
      var end: Option<nat> := if g2 == "" then None else Some(Decimal.Parse(g2));
      if start >= nRows then Failure(TooFewRows)
      else
        var e := if end == None || end.value == 0 then nRows else end.value;
        Success((start, if e < nRows then e else nRows))
  }

  /** `--rows` is refused as an invalid slice exactly when no position of it
      matches the pattern. */
  lemma InvalidSliceIffNoMatch(rows: string, nRows: nat)
    ensures ResolveRows(rows, nRows) == Failure(InvalidSlice)
        <==> forall p: nat, g1: string, g2: string :: p <= |rows| ==> !IsMatch(rows, p, g1, g2)
  {
    SearchLeftmost(rows, 0);
    if ResolveRows(rows, nRows) == Failure(InvalidSlice) {
      forall p: nat, g1: string, g2: string | p <= |rows| ensures !IsMatch(rows, p, g1, g2) {
        if IsMatch(rows, p, g1, g2) {
          MatchAtComplete(rows, p, g1, g2);
        }
      }
    } else {
      var q :| 0 <= q <= |rows| && MatchAt(rows, q) == Search(rows, 0);
      assert IsMatch(rows, q, MatchAt(rows, q).value.0, MatchAt(rows, q).value.1);
    }
  }

  /** A side of `[a:b]` as it may be written: the digits of a number, or
      nothing. */
  function Numeral(n: Option<nat>): (s: string)
    ensures Decimal.AllDigits(s) && (s == "" <==> n.None?)
  {
    if n.None? then "" else Decimal.Digits(n.value)
  }

  /** The numerals written in `[a:b]` come back out, each side written or
      left blank: the start is `a`, or 0 when blank, and is refused at or past
      the last row; the end is `b` clipped to the rows, or all rows when `b`
      is blank or 0. */
  lemma ResolveNumerals(a: Option<nat>, b: Option<nat>, nRows: nat)
    ensures ResolveRows("[" + Numeral(a) + ":" + Numeral(b) + "]", nRows) ==
      var start := if a.None? then 0 else a.value;
      if start >= nRows then Failure(TooFewRows)
      else Success((start, if b.None? || b.value == 0 || b.value >= nRows then nRows else b.value))
  {
    var g1, g2 := Numeral(a), Numeral(b);
    NumeralsMatch(g1, g2);
    var start := if a.None? then 0 else a.value;
    var end: Option<nat> := if b.None? then None else Some(b.value);
    if a.Some? {
      Decimal.ParseDigits(a.value);
    }
    if b.Some? {
      Decimal.ParseDigits(b.value);
    }
    assert start == if g1 == "" then 0 else Decimal.Parse(g1);
    assert end == if g2 == "" then None else Some(Decimal.Parse(g2));
  }

  /** `[g1:g2]` on its own is a match at its first position. */
  lemma NumeralsMatch(g1: string, g2: string)
    requires Decimal.AllDigits(g1) && Decimal.AllDigits(g2)
    ensures Search("[" + g1 + ":" + g2 + "]", 0) == Some((g1, g2))
  {
    var rows := "[" + g1 + ":" + g2 + "]";
    var a := 1 + |g1|;
    assert rows == ((("[" + g1) + ":") + g2) + "]";
    assert rows[1..a] == g1;
    assert rows[a + 1..a + 1 + |g2|] == g2;
    assert rows[0] == '[' && rows[a] == ':' && rows[a + 1 + |g2|] == ']';
    MatchAtComplete(rows, 0, g1, g2);
  }

  /** The default `--rows "[:]"` selects every row, and is refused for an
      empty sample file. */
  lemma DefaultRowsAll(nRows: nat)
    ensures ResolveRows("[:]", nRows) == if nRows == 0 then Failure(TooFewRows) else Success((0, nRows))
  {
    MatchAtComplete("[:]", 0, "", "");
  }

  /** The `if not end_idx` quirk: an explicit end of 0 selects up to the
      last row, as if no end had been written. */
  lemma ExplicitZeroEnd(nRows: nat)
    requires nRows > 2
    ensures ResolveRows("[2:0]", nRows) == Success((2, nRows))
  {
    ResolveNumerals(Some(2), Some(0), nRows);
    assert "[" + Numeral(Some(2)) + ":" + Numeral(Some(0)) + "]" == "[2:0]";
  }

  /** A start past the end gives an empty range rather than an error. */
  lemma EmptyRange(nRows: nat)
    requires nRows > 5
    ensures ResolveRows("[5:3]", nRows) == Success((5, 3))
  {
    ResolveNumerals(Some(5), Some(3), nRows);
    assert "[" + Numeral(Some(5)) + ":" + Numeral(Some(3)) + "]" == "[5:3]";
  }

  /** The end is clipped to the rows: `[4:10]` on a file of 7 rows runs
      rows 4, 5 and 6. */
  lemma ClippedEnd()
    ensures ResolveRows("[4:10]", 7) == Success((4, 7))
    ensures ResolveRows("[4:10]", 12) == Success((4, 10))
  {
    FourToTen();
    ResolveNumerals(Some(4), Some(10), 7);
    ResolveNumerals(Some(4), Some(10), 12);
  }

  /** The numerals of `[4:10]`. */
  lemma FourToTen()
    ensures "[" + Numeral(Some(4)) + ":" + Numeral(Some(10)) + "]" == "[4:10]"
  {
    assert Decimal.Digits(4) == "4";
    assert Decimal.Digits(10) == Decimal.Digits(1) + "0";
    assert Decimal.Digits(10) == "10";
  }

  /** A blank start is row 0: `[:5]` runs the first five rows, or all rows
      of a shorter file. */
  lemma BlankStart(nRows: nat)
    ensures ResolveRows("[:5]", nRows) ==
      if nRows == 0 then Failure(TooFewRows) else Success((0, if nRows < 5 then nRows else 5))
  {
    ResolveNumerals(None, Some(5), nRows);
    assert Decimal.Digits(5) == "5";
    assert "[" + Numeral(None) + ":" + Numeral(Some(5)) + "]" == "[:5]";
  }

  /** A blank end is the last row: `[3:]` runs from row 3 to the end, and is
      refused for a file of at most 3 rows. */
  lemma BlankEnd(nRows: nat)
    ensures ResolveRows("[3:]", nRows) == if nRows <= 3 then Failure(TooFewRows) else Success((3, nRows))
  {
    ResolveNumerals(Some(3), None, nRows);
    assert Decimal.Digits(3) == "3";
    assert "[" + Numeral(Some(3)) + ":" + Numeral(None) + "]" == "[3:]";
  }

  /** Text around the brackets is ignored. */
  lemma SurroundedRange()
    ensures ResolveRows("x[1:2]y", 5) == Success((1, 2))
  {
    var s := "x[1:2]y";
    assert MatchAt(s, 0).None?;
    assert s[1..6] == "[" + "1" + ":" + "2" + "]";
    MatchAtComplete(s, 1, "1", "2");
    assert Search(s, 0) == Some(("1", "2"));
    assert Decimal.Parse("1") == 1 by { assert "1"[..0] == []; }
    assert Decimal.Parse("2") == 2 by { assert "2"[..0] == []; }
  }

  /** A sign is not a digit: `[-1:2]` is refused. */
  lemma SignedStartRefused()
    ensures ResolveRows("[-1:2]", 5) == Failure(InvalidSlice)
  {
    var t := "[-1:2]";
    assert DigitRun(t, 1) == 1;
    assert MatchAt(t, 0).None? && MatchAt(t, 1).None? && MatchAt(t, 2).None?;
    assert MatchAt(t, 3).None? && MatchAt(t, 4).None? && MatchAt(t, 5).None? && MatchAt(t, 6).None?;
  }

  /** Text without brackets is refused. */
  lemma NoBracketsRefused()
    ensures ResolveRows("abc", 5) == Failure(InvalidSlice)
  {
    var u := "abc";
    assert MatchAt(u, 0).None? && MatchAt(u, 1).None? && MatchAt(u, 2).None? && MatchAt(u, 3).None?;
  }

  // ---------------------------------------------------------------------
  // The driver

  /** How a run of the script ends once the sample file is read. */
  datatype Outcome =
    | Refused(error: RowsError)       // lines 215, 219: no row is worked
    | Finished(finals: seq<LoopState>) // every row of the range was worked
    | Stopped(finals: seq<LoopState>)  // the last row's `work` raised at line 176

  /** Lines 203-239 after the sample file is read: resolve `--rows`, then
      run the rows of the range in order.  A refused `--rows` changes
      nothing; a `work` that raises ends the script, so the rows after it are
      not worked. */
  method MainRows(df: seq<Row>, rows: string, tag: string, out: OutputFiles,
                  gen: Generator, check: Validator, maxRounds: nat)
    returns (res: Outcome)
    modifies out
    ensures res.Refused? <==> ResolveRows(rows, |df|).Failure?
    ensures res.Refused? ==> res.error == ResolveRows(rows, |df|).error && out.contents == old(out.contents)
    ensures !res.Refused? ==>
      && ResolveRows(rows, |df|).Success?
      && Ran(df, ResolveRows(rows, |df|).value.0, ResolveRows(rows, |df|).value.1, RowPaths(TagPostfix(tag)),
             old(out.contents), out.contents, Worker(gen, check, maxRounds), res.finals)
      && (res.Stopped? <==> res.finals != [] && res.finals[|res.finals| - 1].rounds == 0)
  {
    var range := ResolveRows(rows, |df|);
    if range.Failure? {
      return Refused(range.error);
    }
    var finals, raised := WorkRows(df, range.value.0, range.value.1, TagPostfix(tag), out, gen, check, maxRounds);
    res := if raised then Stopped(finals) else Finished(finals);
  }

  /** The work on one row: the row and what its file held give the final
      state. */
  type RowWork = (Row, seq<Record>) -> LoopState

  /** `work(df, idx)` for at most `maxRounds` rounds, as `WorkResult` gives it. */
  function Worker(gen: Generator, check: Validator, maxRounds: nat): RowWork {
    (row: Row, file0: seq<Record>) => WorkResult(row, file0, gen, check, maxRounds)
  }

  /** The file each row index writes to. */
  type RowPath = nat -> string

  /** Row `idx` writes to `OutputPath(idx, postfix)`. */
  function RowPaths(postfix: string): RowPath {
    (index: nat) => OutputPath(index, postfix)
  }

  /** The final states of the work on `n` rows from `start` on, each
      started from what its file held in `before`. */
  ghost function Expected(df: seq<Row>, start: nat, n: nat, path: RowPath, before: map<string, seq<Record>>,
                          work: RowWork): (r: seq<LoopState>)
    requires start + n <= |df|
    ensures |r| == n
    decreases n
  {
    if n == 0 then [] else
      Expected(df, start, n - 1, path, before, work)
      + [work(df[start + n - 1], FileIn(before, path(start + n - 1)))]
  }

  /** Entry `k` of `Expected` is the work on row `start + k`. */
  lemma {:induction false} ExpectedAt(df: seq<Row>, start: nat, n: nat, path: RowPath, before: map<string, seq<Record>>,
                                      work: RowWork, k: nat)
    requires start + n <= |df| && k < n
    ensures Expected(df, start, n, path, before, work)[k] == work(df[start + k], FileIn(before, path(start + k)))
    decreases n
  {
    if k < n - 1 {
      ExpectedAt(df, start, n - 1, path, before, work, k);
    }
  }

  /** What working rows `start` to `start + |finals| - 1` did, from
      directory `before` to `after`: `finals` are the final states
      `Expected` gives, the file of row `start + k` then holds the records of
      entry `k`, and every file none of these rows names is as it was. */
  ghost predicate Worked(df: seq<Row>, start: nat, path: RowPath,
                         before: map<string, seq<Record>>, after: map<string, seq<Record>>,
                         work: RowWork, finals: seq<LoopState>)
  {
    && start + |finals| <= |df|
    && finals == Expected(df, start, |finals|, path, before, work)
    && FilesHold(after, path, start, finals)
    && OthersKept(before, after, path, start, start + |finals|)
  }

  /** The file of row `start + k` holds the records of `finals[k]`. */
  ghost predicate FilesHold(files: map<string, seq<Record>>, path: RowPath, start: nat, finals: seq<LoopState>) {
    forall k :: 0 <= k < |finals| ==> FileIn(files, path(start + k)) == finals[k].file
  }

  /** Every file that no row from `start` to `end - 1` names is the same in
      `before` and `after`. */
  ghost predicate OthersKept(before: map<string, seq<Record>>, after: map<string, seq<Record>>,
                             path: RowPath, start: nat, end: nat) {
    forall name :: (forall i :: start <= i < end ==> name != path(i)) ==> FileIn(after, name) == FileIn(before, name)
  }

  /** What `for i in range(start, end): work(df, i)` did: the rows from
      `start` on were worked in order, every one but the last ran a round,
      and the loop stopped early only because the last one ran none (and so
      raised). */
  ghost predicate Ran(df: seq<Row>, start: nat, end: nat, path: RowPath,
                      before: map<string, seq<Record>>, after: map<string, seq<Record>>,
                      work: RowWork, finals: seq<LoopState>)
  {
    var size := if start < end then end - start else 0;
    && |finals| <= size
    && Worked(df, start, path, before, after, work, finals)
    && (forall k :: 0 <= k < |finals| - 1 ==> finals[k].rounds > 0)
    && (|finals| < size ==> finals != [] && finals[|finals| - 1].rounds == 0)
  }

  /** `for i in range(start, end): work(df, i)` (lines 238-239); `raised`
      tells whether it ended on a `work` that raised. */
  method WorkRows(df: seq<Row>, start: nat, end: nat, postfix: string, out: OutputFiles,
                  gen: Generator, check: Validator, maxRounds: nat)
    returns (finals: seq<LoopState>, raised: bool)
    requires start <= |df| && end <= |df|
    requires postfix == [] || !Decimal.IsDigit(postfix[0])
    modifies out
    ensures Ran(df, start, end, RowPaths(postfix), old(out.contents), out.contents, Worker(gen, check, maxRounds), finals)
    ensures raised <==> finals != [] && finals[|finals| - 1].rounds == 0
  {
    finals, raised := [], false;
    var i := start;
    ghost var contents0 := out.contents;
    ghost var path, work := RowPaths(postfix), Worker(gen, check, maxRounds);
    while i < end && !raised
      invariant start <= i <= (if start < end then end else start)
      invariant |finals| == i - start
      invariant Worked(df, start, path, contents0, out.contents, work, finals)
      invariant forall k :: 0 <= k < |finals| - 1 ==> finals[k].rounds > 0
      invariant raised <==> finals != [] && finals[|finals| - 1].rounds == 0
    {
      ghost var before := out.contents;
      var final, r := WorkRow(df, i, postfix, out, gen, check, maxRounds);
      PathsBefore(start, i, postfix);
      WorkedStep(df, start, i, path, contents0, before, out.contents, work, finals, final);
      RaisedStep(finals, final);
      finals, i, raised := finals + [final], i + 1, r;
    }
    RanOnExit(df, start, end, path, contents0, out.contents, work, finals, raised);
  }

  /** A row worked after rows that all ran a round leaves every row but the
      last with a round run. */
  lemma RaisedStep(finals: seq<LoopState>, final: LoopState)
    requires forall k :: 0 <= k < |finals| ==> finals[k].rounds > 0
    ensures var f := finals + [final];
      forall k :: 0 <= k < |f| - 1 ==> f[k].rounds > 0
  {
    var f := finals + [final];
    forall k | 0 <= k < |f| - 1 ensures f[k].rounds > 0 {
      assert f[k] == finals[k];
    }
  }

  /** The loop over the rows stops at `end` or at the first row that
      raised; either way `Ran` holds of what it did. */
  lemma RanOnExit(df: seq<Row>, start: nat, end: nat, path: RowPath,
                  before: map<string, seq<Record>>, after: map<string, seq<Record>>,
                  work: RowWork, finals: seq<LoopState>, raised: bool)
    requires start + |finals| <= (if start < end then end else start)
    requires start + |finals| >= end || raised
    requires Worked(df, start, path, before, after, work, finals)
    requires forall k :: 0 <= k < |finals| - 1 ==> finals[k].rounds > 0
    requires raised <==> finals != [] && finals[|finals| - 1].rounds == 0
    ensures Ran(df, start, end, path, before, after, work, finals)
  {
  }

  /** `work(df, i)` as one step of the driver loop: what `Work` promises,
      stated through `FileIn`, `RowPaths` and `Worker`. */
  method WorkRow(df: seq<Row>, i: nat, postfix: string, out: OutputFiles,
                 gen: Generator, check: Validator, maxRounds: nat) returns (final: LoopState, raised: bool)
    requires i < |df|
    modifies out
    ensures raised <==> final.rounds == 0
    ensures final == Worker(gen, check, maxRounds)(df[i], FileIn(old(out.contents), RowPaths(postfix)(i)))
    ensures FileIn(out.contents, RowPaths(postfix)(i)) == final.file
    ensures forall name :: name != RowPaths(postfix)(i) ==> FileIn(out.contents, name) == FileIn(old(out.contents), name)
  {
    final, raised := Work(df, i, postfix, out, gen, check, maxRounds);
  }

  /** One more row worked keeps `Worked` when row `i`'s file is none of the
      files of the rows before it. */
  lemma WorkedStep(df: seq<Row>, start: nat, i: nat, path: RowPath,
                   files0: map<string, seq<Record>>, before: map<string, seq<Record>>, after: map<string, seq<Record>>,
                   work: RowWork, finals: seq<LoopState>, final: LoopState)
    requires start <= i < |df| && |finals| == i - start
    requires forall j :: start <= j < i ==> path(j) != path(i)
    requires Worked(df, start, path, files0, before, work, finals)
    requires final == work(df[i], FileIn(before, path(i)))
    requires FileIn(after, path(i)) == final.file
    requires forall name :: name != path(i) ==> FileIn(after, name) == FileIn(before, name)
    ensures Worked(df, start, path, files0, after, work, finals + [final])
  {
    UntouchedAt(start, i, path, files0, before);
    ExpectedSnoc(df, start, |finals|, path, files0, work, finals, final);
    RanStepEarlierFiles(start, i, path, before, after, finals, final);
    RanStepOtherFiles(start, i, path, files0, before, after);
  }

  /** The file of row `i` is, before row `i` runs, as it was at the start
      when no earlier row names it. */
  lemma UntouchedAt(start: nat, i: nat, path: RowPath,
                    files0: map<string, seq<Record>>, before: map<string, seq<Record>>)
    requires forall j :: start <= j < i ==> path(j) != path(i)
    requires OthersKept(files0, before, path, start, i)
    ensures FileIn(before, path(i)) == FileIn(files0, path(i))
  {
  }

  /** One more row extends the expected finals by that row's result. */
  lemma ExpectedSnoc(df: seq<Row>, start: nat, n: nat, path: RowPath, files0: map<string, seq<Record>>,
                     work: RowWork, finals: seq<LoopState>, final: LoopState)
    requires start + n < |df|
    requires finals == Expected(df, start, n, path, files0, work)
    requires final == work(df[start + n], FileIn(files0, path(start + n)))
    ensures Expected(df, start, n + 1, path, files0, work) == finals + [final]
  {
  }

  /** The files of the rows before `i` are not touched by row `i`, whose
      own file now holds its records. */
  lemma RanStepEarlierFiles(start: nat, i: nat, path: RowPath,
                            before: map<string, seq<Record>>, after: map<string, seq<Record>>,
                            finals: seq<LoopState>, final: LoopState)
    requires start + |finals| == i
    requires forall j :: start <= j < i ==> path(j) != path(i)
    requires FilesHold(before, path, start, finals)
    requires FileIn(after, path(i)) == final.file
    requires forall name :: name != path(i) ==> FileIn(after, name) == FileIn(before, name)
    ensures FilesHold(after, path, start, finals + [final])
  {
    var f := finals + [final];
    forall k | 0 <= k < |f|
      ensures FileIn(after, path(start + k)) == f[k].file
    {
      if k < |finals| {
        assert start <= start + k < i;
        assert f[k] == finals[k];
      }
    }
  }

  /** A file no row up to `i` names is as it was at the start. */
  lemma RanStepOtherFiles(start: nat, i: nat, path: RowPath,
                          files0: map<string, seq<Record>>, before: map<string, seq<Record>>, after: map<string, seq<Record>>)
    requires start <= i
    requires OthersKept(files0, before, path, start, i)
    requires forall name :: name != path(i) ==> FileIn(after, name) == FileIn(before, name)
    ensures OthersKept(files0, after, path, start, i + 1)
  {
    forall name | forall j :: start <= j < i + 1 ==> name != path(j)
      ensures FileIn(after, name) == FileIn(files0, name)
    {
      assert name != path(i);
      forall j: nat | start <= j < i ensures name != path(j) {
        assert start <= j < i + 1;
      }
    }
  }

  /** A row whose `n_samples` is at most 0 ends the script: `work` raises on
      it, so no row after it is worked. */
  lemma StopsAtRowWithoutSamples(df: seq<Row>, start: nat, end: nat, postfix: string,
                                 before: map<string, seq<Record>>, after: map<string, seq<Record>>,
                                 gen: Generator, check: Validator, maxRounds: nat, finals: seq<LoopState>, j: nat)
    requires maxRounds > 0
    requires Ran(df, start, end, RowPaths(postfix), before, after, Worker(gen, check, maxRounds), finals)
    requires start <= j < end <= |df| && df[j].nSamples <= 0
    ensures |finals| <= j - start + 1
  {
    if |finals| > j - start + 1 {
      var path, work := RowPaths(postfix), Worker(gen, check, maxRounds);
      ExpectedAt(df, start, |finals|, path, before, work, j - start);
      WorkRaisesIffNoSamples(df[j], FileIn(before, path(j)), gen, check, maxRounds);
    }
  }

  /** When every row of the range asks for at least one sample, every row
      is worked and none raises. */
  lemma AllRowsWorked(df: seq<Row>, start: nat, end: nat, postfix: string,
                      before: map<string, seq<Record>>, after: map<string, seq<Record>>,
                      gen: Generator, check: Validator, maxRounds: nat, finals: seq<LoopState>)
    requires maxRounds > 0 && start <= end <= |df|
    requires Ran(df, start, end, RowPaths(postfix), before, after, Worker(gen, check, maxRounds), finals)
    requires forall j :: start <= j < end ==> df[j].nSamples > 0
    ensures |finals| == end - start
    ensures forall k :: 0 <= k < |finals| ==> finals[k].rounds > 0
  {
    var path, work := RowPaths(postfix), Worker(gen, check, maxRounds);
    forall k | 0 <= k < |finals| ensures finals[k].rounds > 0 {
      ExpectedAt(df, start, |finals|, path, before, work, k);
      WorkRaisesIffNoSamples(df[start + k], FileIn(before, path(start + k)), gen, check, maxRounds);
    }
  }

  /** Row `i`'s file is none of the files of the rows before it. */
  lemma PathsBefore(start: nat, i: nat, postfix: string)
    requires postfix == [] || !Decimal.IsDigit(postfix[0])
    ensures forall j :: start <= j < i ==> RowPaths(postfix)(j) != RowPaths(postfix)(i)
  {
    forall j | start <= j < i ensures OutputPath(j, postfix) != OutputPath(i, postfix) {
      OutputPathsDistinct(j, i, postfix);
    }
  }
}
