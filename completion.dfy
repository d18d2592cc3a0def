/**
 * "Fill the remaining probability mass equally among the unset slots", the
 * computation shared by `_calculate_p_topic_from_id` and
 * `_calculate_p_interaction_from_idx` (src/sampling.py:29-46, 74-91), stated
 * over an index-keyed vector of exact reals.
 *
 * An assignment is the list of (slot, probability) pairs the dictionary
 * iteration visits, in iteration order.  Completing a vector first writes
 * every pair into its slot, then, if fewer pairs than slots were given,
 * writes (1 - sum of assigned) / (slots - pairs) into every slot that still
 * holds 0.  As in the source, a slot is "unset" exactly when it holds 0, so
 * an explicitly assigned 0 is overwritten as well.
 */
module Completion {

  type Assignment = seq<(nat, real)>

  function Sum(p: seq<real>): real {
    if p == [] then 0.0 else Sum(p[..|p| - 1]) + p[|p| - 1]
  }

  function Zeros(n: nat): seq<real> {
    seq(n, _ => 0.0)
  }

  function CountZeros(p: seq<real>): nat {
    if p == [] then 0 else CountZeros(p[..|p| - 1]) + (if p[|p| - 1] == 0.0 then 1 else 0)
  }

  predicate InRange(items: Assignment, n: nat) {
    forall k :: 0 <= k < |items| ==> items[k].0 < n
  }

  /** Distinct dictionary keys map to distinct slots. */
  predicate DistinctSlots(items: Assignment) {
    forall k, l :: 0 <= k < l < |items| ==> items[k].0 != items[l].0
  }

  predicate NonzeroValues(items: Assignment) {
    forall k :: 0 <= k < |items| ==> items[k].1 != 0.0
  }

  function Slots(items: Assignment): set<nat> {
    set k | 0 <= k < |items| :: items[k].0
  }

  /** `total_prob`: the sum of the assigned probabilities. */
  function Total(items: Assignment): real {
    if items == [] then 0.0 else Total(items[..|items| - 1]) + items[|items| - 1].1
  }

  /** The first loop: every pair is written into its slot, in order. */
  function Assign(p: seq<real>, items: Assignment): (r: seq<real>)
    requires InRange(items, |p|)
    ensures |r| == |p|
  {
    if items == [] then p
    else Assign(p, items[..|items| - 1])[items[|items| - 1].0 := items[|items| - 1].1]
  }

  /** The second loop: every slot still equal to 0 receives `v`, every other
      slot keeps its value, so with a nonzero `v` no slot is left unset. */
  function FillZeros(p: seq<real>, v: real): (r: seq<real>)
    ensures |r| == |p|
    ensures forall i :: 0 <= i < |p| ==> r[i] == if p[i] == 0.0 then v else p[i]
    ensures v != 0.0 ==> 0.0 !in r
  {
    seq(|p|, i requires 0 <= i < |p| => if p[i] == 0.0 then v else p[i])
  }

  /** `remaining_probs / (size - n_defined)`: given to each of the
      `size - n_defined` slots, it makes up exactly the mass left over. */
  function FillValue(n: nat, items: Assignment): (v: real)
    requires |items| < n
    ensures v * (n - |items|) as real == 1.0 - Total(items)
  {
    (1.0 - Total(items)) / (n - |items|) as real
  }

  /** The whole calculation: completion only writes slots the assignment
      left at 0, and when it fills them with a nonzero value none is left
      unset. */
  function Complete(p: seq<real>, items: Assignment): (r: seq<real>)
    requires InRange(items, |p|)
    ensures |r| == |p|
    ensures forall i :: 0 <= i < |p| && Assign(p, items)[i] != 0.0 ==> r[i] == Assign(p, items)[i]
    ensures |items| < |p| && FillValue(|p|, items) != 0.0 ==> 0.0 !in r
  {
    var a := Assign(p, items);
    if |items| < |p| then FillZeros(a, FillValue(|p|, items)) else a
  }

  /** One more iteration of the first loop writes one more pair and adds its
      probability to the running total. */
  lemma AssignPrefix(p: seq<real>, items: Assignment, k: nat)
    requires InRange(items, |p|) && k < |items|
    ensures InRange(items[..k], |p|) && InRange(items[..k + 1], |p|)
    ensures Assign(p, items[..k + 1]) == Assign(p, items[..k])[items[k].0 := items[k].1]
    ensures Total(items[..k + 1]) == Total(items[..k]) + items[k].1
  {
    assert items[..k + 1][..k] == items[..k];
  }

  /** After the first loop, an assigned slot holds its assigned value and
      every other slot is untouched. */
  lemma {:induction false} AssignAt(p: seq<real>, items: Assignment, i: nat)
    requires InRange(items, |p|) && DistinctSlots(items) && i < |p|
    ensures forall k :: 0 <= k < |items| && items[k].0 == i ==> Assign(p, items)[i] == items[k].1
    ensures i !in Slots(items) ==> Assign(p, items)[i] == p[i]
  {
    if items != [] {
      var init := items[..|items| - 1];
      assert Slots(init) <= Slots(items) by {
        forall s | s in Slots(init) ensures s in Slots(items) {
          var k :| 0 <= k < |init| && init[k].0 == s;
          assert items[k].0 == s;
        }
      }
      assert items[|items| - 1].0 in Slots(items);
      AssignAt(p, init, i);
      forall k | 0 <= k < |items| - 1 && items[k].0 == i
        ensures Assign(p, init)[i] == items[k].1
      {
        assert init[k] == items[k];
      }
    }
  }

  /** Completion leaves every explicitly assigned nonzero probability at its
      slot. */
  lemma CompleteKeepsAssigned(p: seq<real>, items: Assignment, k: nat)
    requires InRange(items, |p|) && DistinctSlots(items)
    requires k < |items| && items[k].1 != 0.0
    ensures Complete(p, items)[items[k].0] == items[k].1
  {
    AssignAt(p, items, items[k].0);
  }

  /** A slot no pair names keeps its old value, or receives the fill value
      when it held 0 and fewer pairs than slots were given. */
  lemma CompleteUnassigned(p: seq<real>, items: Assignment, i: nat)
    requires InRange(items, |p|) && DistinctSlots(items)
    requires i < |p| && i !in Slots(items)
    ensures Complete(p, items)[i] ==
      if |items| < |p| && p[i] == 0.0 then FillValue(|p|, items) else p[i]
  {
    AssignAt(p, items, i);
  }

  /** The quirk of testing "unset" with `== 0`: a slot explicitly assigned 0
      is refilled like an unset one. */
  lemma ExplicitZeroRefilled(p: seq<real>, items: Assignment, k: nat)
    requires InRange(items, |p|) && DistinctSlots(items)
    requires k < |items| && items[k].1 == 0.0 && |items| < |p|
    ensures Complete(p, items)[items[k].0] == FillValue(|p|, items)
  {
    AssignAt(p, items, items[k].0);
  }

  /** When every slot is defined no fill happens: the vector is the
      assignment, so even a 0 stays. */
  lemma CompleteWithoutFill(p: seq<real>, items: Assignment)
    requires InRange(items, |p|) && DistinctSlots(items) && |items| >= |p|
    ensures Complete(p, items) == Assign(p, items)
    ensures forall k :: 0 <= k < |items| ==> Complete(p, items)[items[k].0] == items[k].1
  {
    forall k | 0 <= k < |items| ensures Complete(p, items)[items[k].0] == items[k].1 {
      AssignAt(p, items, items[k].0);
    }
  }

  lemma {:induction false} SumUpdate(s: seq<real>, i: nat, v: real)
    requires i < |s|
    ensures Sum(s[i := v]) == Sum(s) - s[i] + v
  {
    var n := |s|;
    if i < n - 1 {
      assert s[i := v][..n - 1] == s[..n - 1][i := v];
      SumUpdate(s[..n - 1], i, v);
    } else {
      assert s[i := v][..n - 1] == s[..n - 1];
    }
  }

  lemma {:induction false} CountZerosUpdate(s: seq<real>, i: nat, v: real)
    requires i < |s| && s[i] == 0.0 && v != 0.0
    ensures CountZeros(s[i := v]) + 1 == CountZeros(s)
  {
    var n := |s|;
    if i < n - 1 {
      assert s[i := v][..n - 1] == s[..n - 1][i := v];
      CountZerosUpdate(s[..n - 1], i, v);
    } else {
      assert s[i := v][..n - 1] == s[..n - 1];
    }
  }

  lemma {:induction false} ZerosSums(n: nat)
    ensures Sum(Zeros(n)) == 0.0 && CountZeros(Zeros(n)) == n
  {
    if n > 0 {
      assert Zeros(n)[..n - 1] == Zeros(n - 1);
      ZerosSums(n - 1);
    }
  }

  /** Writing nonzero values into distinct slots of a zero vector: the sum
      becomes the assigned total and one zero disappears per pair. */
  lemma {:induction false} AssignZerosSums(n: nat, items: Assignment)
    requires InRange(items, n) && DistinctSlots(items) && NonzeroValues(items)
    ensures Sum(Assign(Zeros(n), items)) == Total(items)
    ensures CountZeros(Assign(Zeros(n), items)) + |items| == n
  {
    if items == [] {
      ZerosSums(n);
    } else {
      var init := items[..|items| - 1];
      var last := items[|items| - 1];
      AssignZerosSums(n, init);
      AssignAt(Zeros(n), init, last.0);
      forall k | 0 <= k < |init| ensures init[k].0 != last.0 {
        assert init[k] == items[k];
      }
      SumUpdate(Assign(Zeros(n), init), last.0, last.1);
      CountZerosUpdate(Assign(Zeros(n), init), last.0, last.1);
    }
  }

  lemma {:induction false} SumFillZeros(p: seq<real>, v: real)
    ensures Sum(FillZeros(p, v)) == Sum(p) + CountZeros(p) as real * v
  {
    if p != [] {
      var n := |p|;
      var f, init := FillZeros(p, v), p[..n - 1];
      assert f[..n - 1] == FillZeros(init, v);
      assert Sum(f) == Sum(FillZeros(init, v)) + f[n - 1];
      assert CountZeros(p) == CountZeros(init) + (if p[n - 1] == 0.0 then 1 else 0);
      SumFillZeros(init, v);
      assert Sum(init) + p[n - 1] == Sum(p);
    }
  }

  /** Starting from the all-zero vector, nonzero probabilities at distinct
      slots complete to a vector that sums to 1 whenever some slot is left
      for the remainder. */
  lemma CompleteSumsToOne(n: nat, items: Assignment)
    requires InRange(items, n) && DistinctSlots(items) && NonzeroValues(items)
    requires |items| < n
    ensures Sum(Complete(Zeros(n), items)) == 1.0
  {
    var a := Assign(Zeros(n), items);
    var v := FillValue(n, items);
    AssignZerosSums(n, items);
    var t, m := Total(items), (n - |items|) as real;
    SumFillZerosCounted(a, v, t, m);
    RemainderFills(t, m, v);
    assert Complete(Zeros(n), items) == FillZeros(a, v);
  }

  lemma SumFillZerosCounted(p: seq<real>, v: real, t: real, m: real)
    requires Sum(p) == t && CountZeros(p) as real == m
    ensures Sum(FillZeros(p, v)) == t + m * v
  {
    SumFillZeros(p, v);
  }

  /** Spreading 1 - t evenly over m slots restores a total of 1. */
  lemma RemainderFills(t: real, m: real, v: real)
    requires m != 0.0 && v == (1.0 - t) / m
    ensures t + m * v == 1.0
  {
  }
}
