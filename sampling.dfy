/**
 * The label sampler tables of src/sampling.py: the intent x strength linear
 * index and its inverses, the two module-level tables that are completed in
 * place when the module is loaded, and the occurrence ratio of a draw.
 *
 * The dictionaries are modelled by PyDict.
 */
module Sampling {
  import opened Wrappers
  import opened Labels
  import opened Completion
  import PyDict
  type Dict<K, V> = PyDict.Dict<K, V>

  /** `len(TOPICS)`, the length of `p_topic_from_id`, written out. */
  const NTopics: nat := 5

  lemma NTopicsCounts()
    ensures NTopics == |Topics|
  {
  }

  /** `len(INTENTS) * len(STRENGTHS)`, the length of `p_interaction_from_idx`,
      written out. */
  const NInteractions: nat := 6

  lemma NInteractionsCounts()
    ensures NInteractions == |Intents| * |Strengths|
  {
  }

  // ---------------------------------------------------------------------
  // The intent x strength index

  /** `topic_s2i[topic]`. */
  function TopicId(topic: string): (i: nat)
    requires topic in Topics
    ensures i < |Topics| && Topics[i] == topic
  {
    IndexOf(Topics, topic)
  }

  /** `interaction_tuple_2_idx` (src/sampling.py:48-52). */
  function InteractionTupleToIdx(intent: string, strength: string): (idx: nat)
    requires intent in Intents && strength in Strengths
    ensures idx < NInteractions
  {
    IndexOf(Intents, intent) * |Strengths| + IndexOf(Strengths, strength)
  }

  /** Python's `int(a / b)` for a positive divisor: the quotient truncated
      toward zero (Dafny's `/` rounds down on negative dividends). */
  function TruncDiv(a: int, b: int): (q: int)
    requires b > 0
    ensures a >= 0 ==> 0 <= a - b * q < b
    ensures a < 0 ==> -b < a - b * q <= 0
  {
    if a >= 0 then a / b else -((-a) / b)
  }

  /** `interaction_id_2_tuple_id` (src/sampling.py:59-62).  Python's `%` with a
      positive divisor is never negative, as Dafny's is.  On a non-negative
      index the two ids are quotient and remainder, so they recompose the
      index. */
  function InteractionIdToTupleId(idx: int): (ids: (int, int))
    ensures 0 <= ids.1 < |Strengths|
    ensures idx >= 0 ==> ids.0 >= 0 && ids.0 * |Strengths| + ids.1 == idx
  {
    (TruncDiv(idx, |Strengths|), idx % |Strengths|)
  }

  /** `interaction_id_2_tuple` (src/sampling.py:54-57); read back through
      `interaction_tuple_2_idx` it gives the index it was called with. */
  function InteractionIdToTuple(idx: int): (t: (string, string))
    requires 0 <= idx < NInteractions
    ensures t.0 in Intents && t.1 in Strengths
    ensures InteractionTupleToIdx(t.0, t.1) == idx
  {
    var ids := InteractionIdToTupleId(idx);
    LabelListsDistinct();
    IndexOfAt(Intents, ids.0);
    IndexOfAt(Strengths, ids.1);
    (Intents[ids.0], Strengths[ids.1])
  }

  /** Distinct indices decode to distinct pairs. */
  lemma IdToTupleInjective(j: int, k: int)
    requires 0 <= j < NInteractions && 0 <= k < NInteractions
    ensures InteractionIdToTuple(j) == InteractionIdToTuple(k) <==> j == k
  {
    var tj, tk := InteractionIdToTuple(j), InteractionIdToTuple(k);
    if tj == tk {
      assert InteractionTupleToIdx(tj.0, tj.1) == InteractionTupleToIdx(tk.0, tk.1);
    }
  }

  /** Encoding a pair and decoding the index gives the pair back. */
  lemma TupleRoundTrip(intent: string, strength: string)
    requires intent in Intents && strength in Strengths
    ensures InteractionIdToTuple(InteractionTupleToIdx(intent, strength)) == (intent, strength)
  {
    var i, s := IndexOf(Intents, intent), IndexOf(Strengths, strength);
    assert (i * 2 + s) / 2 == i && (i * 2 + s) % 2 == s;
  }

  /** The indices the encoding takes on the intent x strength product. */
  function InteractionImage(): set<nat> {
    set i, s | i in Intents && s in Strengths :: InteractionTupleToIdx(i, s)
  }

  /** The encoding maps the intent x strength product one-to-one onto the
      index range of `p_interaction_from_idx`. */
  lemma InteractionIndexBijective()
    ensures forall i, s, i', s' ::
      (i in Intents && s in Strengths && i' in Intents && s' in Strengths &&
       InteractionTupleToIdx(i, s) == InteractionTupleToIdx(i', s')) ==> i == i' && s == s'
    ensures forall idx :: idx in InteractionImage() <==> 0 <= idx < NInteractions
  {
    forall i, s, i', s' | i in Intents && s in Strengths && i' in Intents && s' in Strengths &&
      InteractionTupleToIdx(i, s) == InteractionTupleToIdx(i', s')
      ensures i == i' && s == s'
    {
      TupleRoundTrip(i, s);
      TupleRoundTrip(i', s');
    }
    var image := InteractionImage();
    forall idx | 0 <= idx < NInteractions ensures idx in image {
      var t := InteractionIdToTuple(idx);
      assert InteractionTupleToIdx(t.0, t.1) in image;
    }
  }

  /** On every valid index the positional decoder agrees with plain division
      and remainder, and names the same labels as `interaction_id_2_tuple`. */
  lemma TupleIdMatchesTuple(idx: int)
    requires 0 <= idx < NInteractions
    ensures InteractionIdToTupleId(idx) == (idx / |Strengths|, idx % |Strengths|)
    ensures var ids := InteractionIdToTupleId(idx);
      0 <= ids.0 < |Intents| && 0 <= ids.1 < |Strengths| &&
      InteractionIdToTuple(idx) == (Intents[ids.0], Strengths[ids.1])
  {
  }

  /** Truncation toward zero is visible on a negative index. */
  lemma NegativeIndexTruncates()
    ensures InteractionIdToTupleId(-3) == (-1, 1)
  {
  }

  // ---------------------------------------------------------------------
  // The shipped tables

  const ShippedTopicTable: Dict<string, real> :=
    [("studying", 0.2), ("AI", 0.2), ("math", 0.2), ("business", 0.2), ("general_knowledge", 0.2)]

  const ShippedInteractionTable: Dict<(string, string), real> :=
    [(("adversarial", "strict"), 0.35), (("mixed", "strict"), 0.25),
     (("honest", "strict"), 0.15), (("adversarial", "soft"), 0.05)]

  predicate ValidTopicTable(d: Dict<string, real>) {
    PyDict.DistinctKeys(d) && forall k :: 0 <= k < |d| ==> d[k].0 in Topics
  }

  predicate ValidInteractionTable(d: Dict<(string, string), real>) {
    PyDict.DistinctKeys(d) && forall k :: 0 <= k < |d| ==> d[k].0.0 in Intents && d[k].0.1 in Strengths
  }

  /** The (slot, probability) pairs the first topic loop writes. */
  function TopicAssignment(d: Dict<string, real>): Assignment
    requires ValidTopicTable(d)
  {
    seq(|d|, k requires 0 <= k < |d| => (TopicId(d[k].0), d[k].1))
  }

  /** The (slot, probability) pairs the first interaction loop writes. */
  function InteractionAssignment(d: Dict<(string, string), real>): Assignment
    requires ValidInteractionTable(d)
  {
    seq(|d|, k requires 0 <= k < |d| => (InteractionTupleToIdx(d[k].0.0, d[k].0.1), d[k].1))
  }

  lemma TopicAssignmentWellFormed(d: Dict<string, real>)
    requires ValidTopicTable(d)
    ensures InRange(TopicAssignment(d), |Topics|) && DistinctSlots(TopicAssignment(d))
  {
  }

  lemma InteractionAssignmentWellFormed(d: Dict<(string, string), real>)
    requires ValidInteractionTable(d)
    ensures InRange(InteractionAssignment(d), NInteractions) && DistinctSlots(InteractionAssignment(d))
  {
    var a := InteractionAssignment(d);
    forall k, l | 0 <= k < l < |a| ensures a[k].0 != a[l].0 {
      TupleRoundTrip(d[k].0.0, d[k].0.1);
      TupleRoundTrip(d[l].0.0, d[l].0.1);
    }
  }

  /** The topic name table after `i` iterations of the fill loop
      (src/sampling.py:41-44).  Line 44 writes under `key`; the source passes
      `topic`, the loop variable left over from the first loop, which names
      the LAST key of the table whatever slot is being filled. */
  function TopicNamesFilled(d: Dict<string, real>, key: string, a: seq<real>, v: real, i: nat): Dict<string, real>
    requires i <= |a|
  {
    if i == 0 then d
    else
      var prev := TopicNamesFilled(d, key, a, v, i - 1);
      if a[i - 1] == 0.0 then PyDict.Set(prev, key, v) else prev
  }

  /** A name table after `i` iterations of a fill loop that, for every slot
      `j` still at 0 in `a`, writes `v` under `keys[j]`.  The interaction fill
      loop (src/sampling.py:85-89) is this loop with the pairs the slots decode
      to as keys. */
  function SlotNamesFilled<K(==)>(d: Dict<K, real>, keys: seq<K>, a: seq<real>, v: real, i: nat): Dict<K, real>
    requires i <= |a| <= |keys|
  {
    if i == 0 then d
    else
      var prev := SlotNamesFilled(d, keys, a, v, i - 1);
      if a[i - 1] == 0.0 then PyDict.Set(prev, keys[i - 1], v) else prev
  }

  /** One more iteration of a slot fill loop. */
  lemma SlotNamesNext<K>(d: Dict<K, real>, keys: seq<K>, a: seq<real>, v: real, i: nat)
    requires i < |a| <= |keys|
    ensures SlotNamesFilled(d, keys, a, v, i + 1) ==
      if a[i] == 0.0 then PyDict.Set(SlotNamesFilled(d, keys, a, v, i), keys[i], v)
      else SlotNamesFilled(d, keys, a, v, i)
  {
  }

  /** The pair every slot of `p_interaction_from_idx` decodes to. */
  function InteractionKeys(): (ks: seq<(string, string)>)
    ensures |ks| == NInteractions
    ensures forall j :: 0 <= j < NInteractions ==> ks[j] == InteractionIdToTuple(j)
  {
    seq(NInteractions, j requires 0 <= j < NInteractions => InteractionIdToTuple(j))
  }

  /** The decoded pairs, slot by slot. */
  lemma InteractionKeysValues()
    ensures InteractionKeys() == [("honest", "soft"), ("honest", "strict"), ("adversarial", "soft"),
                                  ("adversarial", "strict"), ("mixed", "soft"), ("mixed", "strict")]
  {
    var ks := InteractionKeys();
    KeyAt(0, 0); KeyAt(0, 1); KeyAt(1, 0); KeyAt(1, 1); KeyAt(2, 0); KeyAt(2, 1);
  }

  lemma KeyAt(i: nat, s: nat)
    requires i < |Intents| && s < |Strengths|
    ensures i * |Strengths| + s < NInteractions
    ensures InteractionKeys()[i * |Strengths| + s] == (Intents[i], Strengths[s])
  {
    TupleIdxAt(i, s);
    TupleRoundTrip(Intents[i], Strengths[s]);
  }

  /** The decoded pairs are all different. */
  lemma InteractionKeysDistinct()
    ensures Distinct(InteractionKeys())
  {
    var ks := InteractionKeys();
    forall j, k | 0 <= j < k < |ks| ensures ks[j] != ks[k] {
      IdToTupleInjective(j, k);
    }
  }

  /** As written, the whole fill loop changes one entry of the topic name
      table: the last key gets the fill value as soon as any slot is filled,
      and no filled topic gets an entry of its own. */
  lemma {:induction false} TopicNamesStaleKey(d: Dict<string, real>, key: string, a: seq<real>, v: real, i: nat)
    requires i <= |a|
    ensures TopicNamesFilled(d, key, a, v, i) == if 0.0 in a[..i] then PyDict.Set(d, key, v) else d
  {
    if i > 0 {
      TopicNamesStaleKey(d, key, a, v, i - 1);
      assert a[..i] == a[..i - 1] + [a[i - 1]];
      PyDict.SetTwice(d, key, v);
    }
  }

  /** The positions of the label names, as the `*_s2i` tables give them. */
  lemma LabelIndices()
    ensures IndexOf(Topics, "studying") == 0 && IndexOf(Topics, "AI") == 1 && IndexOf(Topics, "math") == 2
    ensures IndexOf(Topics, "business") == 3 && IndexOf(Topics, "general_knowledge") == 4
    ensures IndexOf(Intents, "honest") == 0 && IndexOf(Intents, "adversarial") == 1 && IndexOf(Intents, "mixed") == 2
    ensures IndexOf(Strengths, "soft") == 0 && IndexOf(Strengths, "strict") == 1
  {
    LabelListsDistinct();
    IndexOfAt(Topics, 0); IndexOfAt(Topics, 1); IndexOfAt(Topics, 2); IndexOfAt(Topics, 3); IndexOfAt(Topics, 4);
    IndexOfAt(Intents, 0); IndexOfAt(Intents, 1); IndexOfAt(Intents, 2);
    IndexOfAt(Strengths, 0); IndexOfAt(Strengths, 1);
  }

  /** A table naming one topic shows the stale key: the index vector gives the
      four other topics 0.125, while the name table only rewrites the one key
      it already had. */
  lemma StaleTopicKeyExample()
    ensures var d := [("studying", 0.5)];
      && ValidTopicTable(d)
      && InRange(TopicAssignment(d), |Topics|)
      && |TopicAssignment(d)| < |Topics|
      && Complete(Zeros(|Topics|), TopicAssignment(d)) == [0.5, 0.125, 0.125, 0.125, 0.125]
      && TopicNamesFilled(d, "studying", Assign(Zeros(|Topics|), TopicAssignment(d)),
           FillValue(|Topics|, TopicAssignment(d)), |Topics|) == [("studying", 0.125)]
  {
    var d := [("studying", 0.5)];
    assert d[0].0 == Topics[0];
    TopicIdAt(0);
    var asg := TopicAssignment(d);
    assert asg[0] == (0, 0.5);
    assert asg[..0] == [];
    var z := Zeros(5);
    var a := Assign(z, asg);
    assert Slots(asg) == {0};
    forall i | 0 <= i < 5 ensures a[i] == [0.5, 0.0, 0.0, 0.0, 0.0][i] {
      AssignAt(z, asg, i);
    }
    assert Total(asg) == 0.5 by { assert Total(asg[..0]) == 0.0; }
    assert FillValue(5, asg) == 0.125;
    TopicNamesStaleKey(d, "studying", a, 0.125, 5);
    assert a[..5][1] == 0.0;
  }

  /** The slot of a topic name is its position in the vocabulary. */
  lemma TopicIdAt(k: nat)
    requires k < |Topics|
    ensures TopicId(Topics[k]) == k
  {
    LabelListsDistinct();
    IndexOfAt(Topics, k);
  }

  /** The slot of a pair of names is intent position * 2 + strength position. */
  lemma TupleIdxAt(i: nat, s: nat)
    requires i < |Intents| && s < |Strengths|
    ensures InteractionTupleToIdx(Intents[i], Strengths[s]) == i * |Strengths| + s
  {
    LabelListsDistinct();
    IndexOfAt(Intents, i);
    IndexOfAt(Strengths, s);
  }

  /** Reading the interaction table by the pair a slot decodes to, before the
      fill loop: the assigned pairs are there with their slot's value, the
      others are absent. */
  lemma InteractionTableBySlot(d: Dict<(string, string), real>, j: nat)
    requires ValidInteractionTable(d) && j < NInteractions
    ensures InRange(InteractionAssignment(d), NInteractions)
    ensures var asg := InteractionAssignment(d);
      PyDict.Get(d, InteractionIdToTuple(j)) ==
        if j in Slots(asg) then Some(Assign(Zeros(NInteractions), asg)[j]) else None
  {
    var asg := InteractionAssignment(d);
    InteractionAssignmentWellFormed(d);
    var t := InteractionIdToTuple(j);
    AssignAt(Zeros(NInteractions), asg, j);
    PyDict.GetNone(d, t);
    if j in Slots(asg) {
      var k :| 0 <= k < |asg| && asg[k].0 == j;
      TupleRoundTrip(d[k].0.0, d[k].0.1);
      PyDict.GetAt(d, k);
    } else {
      forall k | 0 <= k < |d| ensures d[k].0 != t {
        assert asg[k].0 in Slots(asg);
      }
    }
  }

  /** A slot fill loop keeps the name table in step with the index vector:
      after `i` iterations, the key of every slot below `i` reads back the
      completed value `c[j]`, and every other key is untouched.  `a` is the
      vector before the loop and `c` the one after it; the key of a nonzero
      slot of `a` already has that value in the table. */
  lemma {:induction false} SlotNamesStep<K>(d: Dict<K, real>, keys: seq<K>, a: seq<real>, c: seq<real>, v: real, i: nat)
    requires Distinct(keys) && |a| == |keys| && |c| == |keys| && i <= |keys|
    requires forall j :: 0 <= j < |keys| ==> c[j] == if a[j] == 0.0 then v else a[j]
    requires forall j :: 0 <= j < |keys| && a[j] != 0.0 ==> PyDict.Get(d, keys[j]) == Some(a[j])
    ensures forall j :: 0 <= j < i ==> PyDict.Get(SlotNamesFilled(d, keys, a, v, i), keys[j]) == Some(c[j])
    ensures forall j :: i <= j < |keys| ==>
      PyDict.Get(SlotNamesFilled(d, keys, a, v, i), keys[j]) == PyDict.Get(d, keys[j])
  {
    if i > 0 {
      SlotNamesStep(d, keys, a, c, v, i - 1);
      var prev := SlotNamesFilled(d, keys, a, v, i - 1);
      if a[i - 1] == 0.0 {
        forall j | 0 <= j < |keys|
          ensures PyDict.Get(PyDict.Set(prev, keys[i - 1], v), keys[j]) ==
            if j == i - 1 then Some(v) else PyDict.Get(prev, keys[j])
        {
          PyDict.GetSet(prev, keys[i - 1], v, keys[j]);
        }
      }
    }
  }

  /** Before the fill loop, a nonzero slot of the index vector is a pair of
      the table with that probability. */
  lemma InteractionTableNonzero(d: Dict<(string, string), real>)
    requires ValidInteractionTable(d)
    ensures InRange(InteractionAssignment(d), NInteractions)
    ensures var a := Assign(Zeros(NInteractions), InteractionAssignment(d));
      forall j :: 0 <= j < NInteractions && a[j] != 0.0 ==> PyDict.Get(d, InteractionKeys()[j]) == Some(a[j])
  {
    InteractionAssignmentWellFormed(d);
    var asg := InteractionAssignment(d);
    var a := Assign(Zeros(NInteractions), asg);
    forall j | 0 <= j < NInteractions && a[j] != 0.0
      ensures PyDict.Get(d, InteractionKeys()[j]) == Some(a[j])
    {
      InteractionTableBySlot(d, j);
      AssignAt(Zeros(NInteractions), asg, j);
    }
  }

  /** The completed interaction name table has, under every pair, the value
      the completed index vector has at the pair's slot. */
  lemma InteractionNamesAgree(d: Dict<(string, string), real>)
    requires ValidInteractionTable(d) && |d| < NInteractions
    ensures InRange(InteractionAssignment(d), NInteractions)
    ensures var asg := InteractionAssignment(d);
      var names := SlotNamesFilled(d, InteractionKeys(), Assign(Zeros(NInteractions), asg), FillValue(NInteractions, asg), NInteractions);
      forall i, s :: i in Intents && s in Strengths ==>
        PyDict.Get(names, (i, s)) == Some(Complete(Zeros(NInteractions), asg)[InteractionTupleToIdx(i, s)])
  {
    InteractionTableNonzero(d);
    var asg := InteractionAssignment(d);
    var a := Assign(Zeros(NInteractions), asg);
    var v := FillValue(NInteractions, asg);
    var c := FillZeros(a, v);
    assert Complete(Zeros(NInteractions), asg) == c;
    FilledNamesAgree(d, a, v, c);
  }

  /** Filling the zero slots of `a` with `v`, by name and by index, gives
      the same values under every pair. */
  lemma FilledNamesAgree(d: Dict<(string, string), real>, a: seq<real>, v: real, c: seq<real>)
    requires |a| == NInteractions && |c| == NInteractions
    requires forall j :: 0 <= j < NInteractions ==> c[j] == if a[j] == 0.0 then v else a[j]
    requires forall j :: 0 <= j < NInteractions && a[j] != 0.0 ==> PyDict.Get(d, InteractionKeys()[j]) == Some(a[j])
    ensures forall i, s :: i in Intents && s in Strengths ==>
      PyDict.Get(SlotNamesFilled(d, InteractionKeys(), a, v, NInteractions), (i, s)) == Some(c[InteractionTupleToIdx(i, s)])
  {
    var keys := InteractionKeys();
    InteractionKeysDistinct();
    SlotNamesStep(d, keys, a, c, v, NInteractions);
    PairsReadBack(SlotNamesFilled(d, keys, a, v, NInteractions), c);
  }

  /** A table in which the pair of every slot reads back that slot's value
      reads back, under every named pair, the value at the pair's index. */
  lemma PairsReadBack(names: Dict<(string, string), real>, c: seq<real>)
    requires |c| == NInteractions
    requires forall j :: 0 <= j < NInteractions ==> PyDict.Get(names, InteractionKeys()[j]) == Some(c[j])
    ensures forall i, s :: i in Intents && s in Strengths ==>
      PyDict.Get(names, (i, s)) == Some(c[InteractionTupleToIdx(i, s)])
  {
    forall i, s | i in Intents && s in Strengths
      ensures PyDict.Get(names, (i, s)) == Some(c[InteractionTupleToIdx(i, s)])
    {
      TupleRoundTrip(i, s);
      assert InteractionKeys()[InteractionTupleToIdx(i, s)] == (i, s);
    }
  }

  /** The shipped topic table names every topic, so nothing is filled. */
  lemma ShippedTopicProbabilities()
    ensures ValidTopicTable(ShippedTopicTable)
    ensures InRange(TopicAssignment(ShippedTopicTable), |Topics|)
    ensures |TopicAssignment(ShippedTopicTable)| == |Topics|
    ensures Complete(Zeros(|Topics|), TopicAssignment(ShippedTopicTable)) == [0.2, 0.2, 0.2, 0.2, 0.2]
  {
    var d := ShippedTopicTable;
    LabelListsDistinct();
    assert d[0] == (Topics[0], 0.2) && d[1] == (Topics[1], 0.2) && d[2] == (Topics[2], 0.2);
    assert d[3] == (Topics[3], 0.2) && d[4] == (Topics[4], 0.2);
    assert forall k :: 0 <= k < |d| ==> d[k] == (Topics[k], 0.2);
    var asg := TopicAssignment(d);
    forall k | 0 <= k < |asg| ensures asg[k] == (k, 0.2) {
      TopicIdAt(k);
    }
    var z := Zeros(5);
    var c := Complete(z, asg);
    forall i | 0 <= i < 5 ensures c[i] == 0.2 {
      assert asg[i].0 == i;
      AssignAt(z, asg, i);
    }
  }

  /** The shipped interaction table leaves (honest, soft) and (mixed, soft)
      unset; both receive (1 - 0.8) / 2 = 0.1, and the pair table gains them,
      in slot order, after the four configured pairs. */
  lemma ShippedInteractionProbabilities()
    ensures ValidInteractionTable(ShippedInteractionTable)
    ensures var asg := InteractionAssignment(ShippedInteractionTable);
      && InRange(asg, NInteractions)
      && |asg| < NInteractions
      && Complete(Zeros(NInteractions), asg) == [0.1, 0.15, 0.05, 0.35, 0.1, 0.25]
      && SlotNamesFilled(ShippedInteractionTable, InteractionKeys(), Assign(Zeros(NInteractions), asg),
           FillValue(NInteractions, asg), NInteractions)
         == ShippedInteractionTable + [(("honest", "soft"), 0.1), (("mixed", "soft"), 0.1)]
  {
    var d := ShippedInteractionTable;
    LabelListsDistinct();
    ShippedInteractionKeys();
    var asg := InteractionAssignment(d);
    TupleIdxAt(1, 1); TupleIdxAt(2, 1); TupleIdxAt(0, 1); TupleIdxAt(1, 0);
    assert asg[0] == (3, 0.35) && asg[1] == (5, 0.25) && asg[2] == (1, 0.15) && asg[3] == (2, 0.05);
    InteractionAssignmentWellFormed(d);
    ShippedInteractionVector(asg);
    ShippedInteractionNames(Assign(Zeros(NInteractions), asg));
  }

  /** The index vector of the shipped interaction assignment, before and
      after the fill loop. */
  lemma ShippedInteractionVector(asg: Assignment)
    requires |asg| == 4 && InRange(asg, NInteractions) && DistinctSlots(asg)
    requires asg[0] == (3, 0.35) && asg[1] == (5, 0.25) && asg[2] == (1, 0.15) && asg[3] == (2, 0.05)
    ensures Assign(Zeros(NInteractions), asg) == [0.0, 0.15, 0.05, 0.35, 0.0, 0.25]
    ensures FillValue(NInteractions, asg) == 0.1
    ensures Complete(Zeros(NInteractions), asg) == [0.1, 0.15, 0.05, 0.35, 0.1, 0.25]
  {
    var z := Zeros(NInteractions);
    assert NInteractions == 6;
    var a := Assign(z, asg);
    assert Slots(asg) == {3, 5, 1, 2};
    forall i | 0 <= i < NInteractions ensures a[i] == [0.0, 0.15, 0.05, 0.35, 0.0, 0.25][i] {
      AssignAt(z, asg, i);
    }
    ShippedInteractionTotal(asg);
    assert FillValue(NInteractions, asg) == 0.2 / 2.0;
  }

  /** The keys of the shipped interaction table, by position. */
  lemma ShippedInteractionKeys()
    ensures var d := ShippedInteractionTable;
      && |d| == 4
      && d[0] == ((Intents[1], Strengths[1]), 0.35) && d[1] == ((Intents[2], Strengths[1]), 0.25)
      && d[2] == ((Intents[0], Strengths[1]), 0.15) && d[3] == ((Intents[1], Strengths[0]), 0.05)
      && ValidInteractionTable(d)
  {
    LabelListsDistinct();
  }

  lemma ShippedInteractionTotal(asg: Assignment)
    requires |asg| == 4
    requires asg[0].1 == 0.35 && asg[1].1 == 0.25 && asg[2].1 == 0.15 && asg[3].1 == 0.05
    ensures Total(asg) == 0.8
  {
    assert asg[..1][..0] == [];
    assert asg[..2][..1] == asg[..1] && asg[..3][..2] == asg[..2] && asg[..4][..3] == asg[..3];
    assert asg[..4] == asg;
    assert Total(asg[..1]) == 0.35;
    assert Total(asg[..2]) == 0.6;
    assert Total(asg[..3]) == 0.75;
  }

  lemma ShippedInteractionNames(a: seq<real>)
    requires a == [0.0, 0.15, 0.05, 0.35, 0.0, 0.25]
    ensures SlotNamesFilled(ShippedInteractionTable, InteractionKeys(), a, 0.1, NInteractions)
         == ShippedInteractionTable + [(("honest", "soft"), 0.1), (("mixed", "soft"), 0.1)]
  {
    var d, keys := ShippedInteractionTable, InteractionKeys();
    assert NInteractions == 6;
    var n1 := d + [(("honest", "soft"), 0.1)];
    ShippedNamesFirstSlots(a);
    SlotNamesNext(d, keys, a, 0.1, 4);
    SlotNamesNext(d, keys, a, 0.1, 5);
    InteractionKeysValues();
    ShippedNamesAbsent();
    PyDict.SetShape(n1, ("mixed", "soft"), 0.1);
  }

  /** Neither pair the shipped table leaves out is in it, nor is the second
      one after the first is added. */
  lemma ShippedNamesAbsent()
    ensures !PyDict.HasKey(ShippedInteractionTable, ("honest", "soft"))
    ensures !PyDict.HasKey(ShippedInteractionTable + [(("honest", "soft"), 0.1)], ("mixed", "soft"))
  {
    ShippedInteractionKeys();
  }

  /** Slots 0 to 3 of the shipped vector: only slot 0 is empty. */
  lemma ShippedNamesFirstSlots(a: seq<real>)
    requires a == [0.0, 0.15, 0.05, 0.35, 0.0, 0.25]
    ensures SlotNamesFilled(ShippedInteractionTable, InteractionKeys(), a, 0.1, 4)
         == ShippedInteractionTable + [(("honest", "soft"), 0.1)]
  {
    var d, keys := ShippedInteractionTable, InteractionKeys();
    InteractionKeysValues();
    ShippedNamesAbsent();
    PyDict.SetShape(d, ("honest", "soft"), 0.1);
    SlotNamesNext(d, keys, a, 0.1, 0);
    SlotNamesNext(d, keys, a, 0.1, 1);
    SlotNamesNext(d, keys, a, 0.1, 2);
    SlotNamesNext(d, keys, a, 0.1, 3);
  }



  // ---------------------------------------------------------------------
  // The module-level tables, completed in place on load

  class Tables {
    var pTopicFromStr: Dict<string, real>
    var pTopicFromId: array<real>
    var pInteractionFromTuple: Dict<(string, string), real>
    var pInteractionFromIdx: array<real>

    ghost predicate Valid()
      reads this
    {
      && pTopicFromId.Length == NTopics
      && pInteractionFromIdx.Length == NInteractions
      && pTopicFromId != pInteractionFromIdx
    }

    /** The module's initial bindings (src/sampling.py:22-29, 65-74). */
    constructor ()
      ensures Valid() && fresh(pTopicFromId) && fresh(pInteractionFromIdx)
      ensures pTopicFromStr == ShippedTopicTable && pInteractionFromTuple == ShippedInteractionTable
      ensures pTopicFromId[..] == Zeros(|Topics|) && pInteractionFromIdx[..] == Zeros(NInteractions)
    {
      pTopicFromStr := ShippedTopicTable;
      pTopicFromId := new real[|Topics|](_ => 0.0);
      pInteractionFromTuple := ShippedInteractionTable;
      pInteractionFromIdx := new real[NInteractions](_ => 0.0);
    }

    /** `_calculate_p_topic_from_id` (src/sampling.py:30-44). */
    method CalculatePTopicFromId()
      requires Valid() && ValidTopicTable(pTopicFromStr) && pTopicFromStr != []
      modifies this`pTopicFromStr, pTopicFromId
      ensures Valid() && InRange(TopicAssignment(old(pTopicFromStr)), |Topics|)
      ensures pTopicFromId[..] == Complete(old(pTopicFromId[..]), TopicAssignment(old(pTopicFromStr)))
      ensures var asg := TopicAssignment(old(pTopicFromStr));
        var lastKey := old(pTopicFromStr)[|old(pTopicFromStr)| - 1].0;
        pTopicFromStr ==
          if |asg| < |Topics| && 0.0 in Assign(old(pTopicFromId[..]), asg)
          then PyDict.Set(old(pTopicFromStr), lastKey, FillValue(|Topics|, asg))
          else old(pTopicFromStr)
    {
      ghost var d := pTopicFromStr;
      ghost var p0 := pTopicFromId[..];
      ghost var asg := TopicAssignment(d);
      TopicAssignmentWellFormed(d);
      var totalProb := WriteTopicProbabilities(asg);
      // The first loop's variable outlives it: as the table is not empty, it
      // holds the last key, and the fill loop writes under that key.
      var topic := pTopicFromStr[|pTopicFromStr| - 1].0;
      ghost var a := pTopicFromId[..];
      var nDefined := |pTopicFromStr|;
      if nDefined < |Topics| {
        var remainingProbs := 1.0 - totalProb;
        var prob := remainingProbs / (|Topics| - nDefined) as real;
        assert prob == FillValue(|Topics|, asg);
        FillTopicSlots(prob, topic);
        TopicNamesStaleKey(d, topic, a, prob, NTopics);
        assert a[..NTopics] == a;
      }
    }

    /** The first loop of `_calculate_p_topic_from_id` (src/sampling.py:33-36):
        every configured topic's probability is written at its slot. */
    method WriteTopicProbabilities(ghost asg: Assignment) returns (totalProb: real)
      requires Valid() && ValidTopicTable(pTopicFromStr) && pTopicFromStr != []
      requires asg == TopicAssignment(pTopicFromStr)
      modifies pTopicFromId
      ensures Valid() && InRange(asg, |Topics|)
      ensures pTopicFromId[..] == Assign(old(pTopicFromId[..]), asg)
      ensures totalProb == Total(asg)
    {
      TopicAssignmentWellFormed(pTopicFromStr);
      ghost var p0 := pTopicFromId[..];
      var topics := pTopicFromStr;
      totalProb := 0.0;
      for k := 0 to |topics|
        invariant InRange(asg[..k], |Topics|)
        invariant pTopicFromId[..] == Assign(p0, asg[..k])
        invariant totalProb == Total(asg[..k])
      {
        var key, prob := topics[k].0, topics[k].1;
        AssignPrefix(p0, asg, k);
        WriteTopicSlot(key, prob);
        totalProb := totalProb + prob;
      }
      assert asg[..|asg|] == asg;
    }

    /** `p_topic_from_id[topic_s2i[topic]] = prob`. */
    method WriteTopicSlot(topic: string, prob: real)
      requires Valid() && topic in Topics
      modifies pTopicFromId
      ensures Valid()
      ensures pTopicFromId[..] == old(pTopicFromId[..])[TopicId(topic) := prob]
    {
      var topicId := TopicId(topic);
      pTopicFromId[topicId] := prob;
    }

    /** The fill loop of `_calculate_p_topic_from_id` (src/sampling.py:40-44):
        every slot still at 0 receives `prob`, and each time the name table is
        written under `topic`. */
    method FillTopicSlots(prob: real, topic: string)
      requires Valid()
      modifies this`pTopicFromStr, pTopicFromId
      ensures Valid()
      ensures pTopicFromId[..] == FillZeros(old(pTopicFromId[..]), prob)
      ensures pTopicFromStr == TopicNamesFilled(old(pTopicFromStr), topic, old(pTopicFromId[..]), prob, NTopics)
    {
      ghost var a := pTopicFromId[..];
      for i := 0 to NTopics
        invariant forall j :: 0 <= j < i ==> pTopicFromId[j] == FillZeros(a, prob)[j]
        invariant forall j :: i <= j < NTopics ==> pTopicFromId[j] == a[j]
        invariant pTopicFromStr == TopicNamesFilled(old(pTopicFromStr), topic, a, prob, i)
      {
        FillTopicSlot(i, prob, topic);
      }
      assert pTopicFromId[..] == FillZeros(a, prob);
    }

    /** One iteration of the topic fill loop: slot `i`, if still at 0,
        receives `prob`, and so does the name table under `topic`. */
    method FillTopicSlot(i: nat, prob: real, topic: string)
      requires Valid() && i < NTopics
      modifies this`pTopicFromStr, pTopicFromId
      ensures Valid()
      ensures pTopicFromId[i] == if old(pTopicFromId[i]) == 0.0 then prob else old(pTopicFromId[i])
      ensures forall j :: 0 <= j < NTopics && j != i ==> pTopicFromId[j] == old(pTopicFromId[j])
      ensures pTopicFromStr ==
        if old(pTopicFromId[i]) == 0.0 then PyDict.Set(old(pTopicFromStr), topic, prob) else old(pTopicFromStr)
    {
      if pTopicFromId[i] == 0.0 {
        pTopicFromId[i] := prob;
        pTopicFromStr := PyDict.Set(pTopicFromStr, topic, prob);
      }
    }

    /** `_calculate_p_interaction_from_idx` (src/sampling.py:75-89). */
    method CalculatePInteractionFromIdx()
      requires Valid() && ValidInteractionTable(pInteractionFromTuple)
      modifies this`pInteractionFromTuple, pInteractionFromIdx
      ensures Valid() && InRange(InteractionAssignment(old(pInteractionFromTuple)), NInteractions)
      ensures pInteractionFromIdx[..] ==
        Complete(old(pInteractionFromIdx[..]), InteractionAssignment(old(pInteractionFromTuple)))
      ensures var asg := InteractionAssignment(old(pInteractionFromTuple));
        pInteractionFromTuple ==
          if |asg| < NInteractions
          then SlotNamesFilled(old(pInteractionFromTuple), InteractionKeys(), Assign(old(pInteractionFromIdx[..]), asg),
                 FillValue(NInteractions, asg), NInteractions)
          else old(pInteractionFromTuple)
    {
      ghost var d := pInteractionFromTuple;
      ghost var asg := InteractionAssignment(d);
      InteractionAssignmentWellFormed(d);
      var totalProb := WriteInteractionProbabilities();
      ghost var a := pInteractionFromIdx[..];
      var nDefined := |pInteractionFromTuple|;
      if nDefined < pInteractionFromIdx.Length {
        var remainingProbs := 1.0 - totalProb;
        var prob := remainingProbs / (pInteractionFromIdx.Length - nDefined) as real;
        assert prob == FillValue(NInteractions, asg);
        FillInteractionSlots(prob);
        assert pInteractionFromIdx[..] == FillZeros(a, prob);
      }
    }

    /** The first loop of `_calculate_p_interaction_from_idx`
        (src/sampling.py:78-81): every configured pair's probability is
        written at its slot. */
    method WriteInteractionProbabilities() returns (totalProb: real)
      requires Valid() && ValidInteractionTable(pInteractionFromTuple)
      modifies pInteractionFromIdx
      ensures Valid() && InRange(InteractionAssignment(pInteractionFromTuple), NInteractions)
      ensures pInteractionFromIdx[..] == Assign(old(pInteractionFromIdx[..]), InteractionAssignment(pInteractionFromTuple))
      ensures totalProb == Total(InteractionAssignment(pInteractionFromTuple))
    {
      ghost var asg := InteractionAssignment(pInteractionFromTuple);
      InteractionAssignmentWellFormed(pInteractionFromTuple);
      totalProb := 0.0;
      for k := 0 to |pInteractionFromTuple|
        invariant InRange(asg[..k], pInteractionFromIdx.Length)
        invariant pInteractionFromIdx[..] == Assign(old(pInteractionFromIdx[..]), asg[..k])
        invariant totalProb == Total(asg[..k])
      {
        var intent, strength, prob :=
          pInteractionFromTuple[k].0.0, pInteractionFromTuple[k].0.1, pInteractionFromTuple[k].1;
        var interactionIdx := InteractionTupleToIdx(intent, strength);
        AssignPrefix(old(pInteractionFromIdx[..]), asg, k);
        pInteractionFromIdx[interactionIdx] := prob;
        totalProb := totalProb + prob;
      }
      assert asg[..|asg|] == asg;
    }

    /** The fill loop of `_calculate_p_interaction_from_idx`
        (src/sampling.py:85-89): every slot still at 0 receives `prob`, and the
        pair the slot decodes to is written in the name table. */
    method FillInteractionSlots(prob: real)
      requires Valid()
      modifies this`pInteractionFromTuple, pInteractionFromIdx
      ensures Valid()
      ensures pInteractionFromIdx[..] == FillZeros(old(pInteractionFromIdx[..]), prob)
      ensures pInteractionFromTuple ==
        SlotNamesFilled(old(pInteractionFromTuple), InteractionKeys(), old(pInteractionFromIdx[..]), prob, NInteractions)
    {
      ghost var a := pInteractionFromIdx[..];
      for i := 0 to pInteractionFromIdx.Length
        invariant forall j :: 0 <= j < i ==> pInteractionFromIdx[j] == FillZeros(a, prob)[j]
        invariant forall j :: i <= j < NInteractions ==> pInteractionFromIdx[j] == a[j]
        invariant pInteractionFromTuple == SlotNamesFilled(old(pInteractionFromTuple), InteractionKeys(), a, prob, i)
      {
        SlotNamesNext(old(pInteractionFromTuple), InteractionKeys(), a, prob, i);
        FillInteractionSlot(i, prob);
      }
      assert pInteractionFromIdx[..] == FillZeros(a, prob);
    }

    /** One iteration of the interaction fill loop: slot `i`, if still at 0,
        receives `prob`, and so does the pair it decodes to. */
    method FillInteractionSlot(i: nat, prob: real)
      requires Valid() && i < NInteractions
      modifies this`pInteractionFromTuple, pInteractionFromIdx
      ensures Valid()
      ensures pInteractionFromIdx[i] == if old(pInteractionFromIdx[i]) == 0.0 then prob else old(pInteractionFromIdx[i])
      ensures forall j :: 0 <= j < NInteractions && j != i ==> pInteractionFromIdx[j] == old(pInteractionFromIdx[j])
      ensures pInteractionFromTuple ==
        if old(pInteractionFromIdx[i]) == 0.0
        then PyDict.Set(old(pInteractionFromTuple), InteractionKeys()[i], prob)
        else old(pInteractionFromTuple)
    {
      if pInteractionFromIdx[i] == 0.0 {
        pInteractionFromIdx[i] := prob;
        var interactionTuple := InteractionIdToTuple(i);
        assert interactionTuple == InteractionKeys()[i];
        pInteractionFromTuple := PyDict.Set(pInteractionFromTuple, interactionTuple, prob);
      }
    }
  }

  /** Loading the module: the initial bindings followed by the two calls at
      src/sampling.py:46 and 91. */
  method LoadSampling() returns (t: Tables)
    ensures fresh(t) && t.Valid()
    ensures t.pTopicFromId[..] == [0.2, 0.2, 0.2, 0.2, 0.2]
    ensures t.pTopicFromStr == ShippedTopicTable
    ensures t.pInteractionFromIdx[..] == [0.1, 0.15, 0.05, 0.35, 0.1, 0.25]
    ensures t.pInteractionFromTuple ==
      ShippedInteractionTable + [(("honest", "soft"), 0.1), (("mixed", "soft"), 0.1)]
  {
    ShippedTopicProbabilities();
    ShippedInteractionProbabilities();
    t := new Tables();
    t.CalculatePTopicFromId();
    t.CalculatePInteractionFromIdx();
  }

  // ---------------------------------------------------------------------
  // Occurrence ratios

  function Occurrences(choices: seq<nat>, k: nat): nat {
    if choices == [] then 0
    else Occurrences(choices[..|choices| - 1], k) + (if choices[|choices| - 1] == k then 1 else 0)
  }

  /** The occurrence counts of the values below `n`, added up. */
  function CountsBelow(choices: seq<nat>, n: nat): nat {
    if n == 0 then 0 else CountsBelow(choices, n - 1) + Occurrences(choices, n - 1)
  }

  /** When every choice is below `n`, the counts below `n` add up to the
      number of choices. */
  lemma {:induction false} CountsBelowAll(choices: seq<nat>, n: nat)
    requires forall c :: c in choices ==> c < n
    ensures CountsBelow(choices, n) == |choices|
  {
    if choices != [] {
      var init, last := choices[..|choices| - 1], choices[|choices| - 1];
      assert choices == init + [last];
      assert last in choices;
      forall c | c in init ensures c < n {
        assert c in choices;
      }
      CountsBelowAll(init, n);
      CountsBelowSnoc(init, last, n);
    } else {
      CountsBelowNone(n);
    }
  }

  lemma {:induction false} CountsBelowNone(n: nat)
    ensures CountsBelow([], n) == 0
  {
    if n > 0 {
      CountsBelowNone(n - 1);
    }
  }

  lemma {:induction false} CountsBelowSnoc(init: seq<nat>, last: nat, n: nat)
    ensures CountsBelow(init + [last], n) == CountsBelow(init, n) + (if last < n then 1 else 0)
  {
    var s := init + [last];
    assert s[..|s| - 1] == init;
    if n > 0 {
      CountsBelowSnoc(init, last, n - 1);
    }
  }

  function SumNat(s: seq<nat>): nat {
    if s == [] then 0 else SumNat(s[..|s| - 1]) + s[|s| - 1]
  }

  /** A list of occurrence counts adds up to the counts below its length. */
  lemma {:induction false} SumOfCounts(occ: seq<nat>, choices: seq<nat>)
    requires forall k :: 0 <= k < |occ| ==> occ[k] == Occurrences(choices, k)
    ensures SumNat(occ) == CountsBelow(choices, |occ|)
  {
    if occ != [] {
      SumOfCounts(occ[..|occ| - 1], choices);
    }
  }

  /** Dividing every entry by the same positive total divides the sum. */
  lemma {:induction false} SumOfShares(r: seq<real>, occ: seq<nat>, total: nat)
    requires |r| == |occ| && total > 0
    requires forall k :: 0 <= k < |r| ==> r[k] == occ[k] as real / total as real
    ensures Sum(r) == SumNat(occ) as real / total as real
  {
    if r != [] {
      var n := |r|;
      var t := total as real;
      SumOfShares(r[..n - 1], occ[..n - 1], total);
      var a, b := SumNat(occ[..n - 1]) as real, occ[n - 1] as real;
      assert SumNat(occ) as real == a + b;
      assert Sum(r) == a / t + b / t;
      SharesAdd(a, b, t);
    }
  }

  lemma SharesAdd(a: real, b: real, t: real)
    requires t != 0.0
    ensures a / t + b / t == (a + b) / t
  {
  }

  /** The shares of all values below `|r|` among choices that are all below
      `|r|` add up to 1. */
  lemma RatiosSumToOne(choices: seq<nat>, r: seq<real>)
    requires choices != [] && forall c :: c in choices ==> c < |r|
    requires forall k :: 0 <= k < |r| ==> r[k] == Occurrences(choices, k) as real / |choices| as real
    ensures Sum(r) == 1.0
  {
    var occ := seq(|r|, k requires 0 <= k < |r| => Occurrences(choices, k));
    SumOfShares(r, occ, |choices|);
    SumOfCounts(occ, choices);
    CountsBelowAll(choices, |r|);
    assert SumNat(occ) == |choices|;
    DivSelf(|choices| as real);
  }

  lemma DivSelf(t: real)
    requires t != 0.0
    ensures t / t == 1.0
  {
  }

  /** `get_ratio` (src/sampling.py:108-112): the share of each criterion index
      among the choices.  Python raises ZeroDivisionError (here None) when
      there are no choices but some criteria; with neither it returns []. */
  method GetRatio<T>(choices: seq<nat>, criteria: seq<T>) returns (ratios: Option<seq<real>>)
    requires forall c :: c in choices ==> c < |criteria|
    ensures ratios.None? <==> choices == [] && criteria != []
    ensures ratios.Some? ==> |ratios.value| == |criteria|
    ensures ratios.Some? ==> forall k :: 0 <= k < |criteria| ==>
      ratios.value[k] == Occurrences(choices, k) as real / |choices| as real
    ensures ratios.Some? && choices != [] ==> Sum(ratios.value) == 1.0
  {
    var occurrencies := new nat[|criteria|](_ => 0);
    for i := 0 to |choices|
      invariant forall k :: 0 <= k < occurrencies.Length ==> occurrencies[k] == Occurrences(choices[..i], k)
    {
      var c := choices[i];
      assert choices[..i + 1][..i] == choices[..i];
      assert c in choices;
      occurrencies[c] := occurrencies[c] + 1;
    }
    assert choices[..|choices|] == choices;
    if choices == [] && occurrencies.Length > 0 {
      ratios := None;
    } else {
      var n := occurrencies.Length;
      var r := seq(n, k requires 0 <= k < n reads occurrencies =>
        occurrencies[k] as real / |choices| as real);
      if choices != [] {
        RatiosSumToOne(choices, r);
      }
      ratios := Some(r);
    }
  }
}
