/**
 * The label vocabularies of src/prompt_divergence.py:71-94 and the
 * name-to-position lookup that src/sampling.py builds from them with
 * `{k: i for i, k in enumerate(...)}` (src/sampling.py:5-20).
 */
module Labels {

  const Topics: seq<string> := ["studying", "AI", "math", "business", "general_knowledge"]
  const Intents: seq<string> := ["honest", "adversarial", "mixed"]
  const Strengths: seq<string> := ["soft", "strict"]
  const Styles: seq<string> := ["concise", "formal", "verbose"]

  predicate Distinct<T(==)>(s: seq<T>) {
    forall i, j :: 0 <= i < j < |s| ==> s[i] != s[j]
  }

  /** The position of `x` in `s`; on a list without repeats this is the value
      of the `*_s2i` dictionaries built by enumeration. */
  function IndexOf<T(==)>(s: seq<T>, x: T): (i: nat)
    requires x in s
    ensures i < |s| && s[i] == x
    ensures forall j :: 0 <= j < i ==> s[j] != x
  {
    if s[0] == x then 0 else 1 + IndexOf(s[1..], x)
  }

  /** On a list without repeats, looking a name up and reading that position
      back are inverse to each other. */
  lemma IndexOfAt<T>(s: seq<T>, i: nat)
    requires Distinct(s) && i < |s|
    ensures IndexOf(s, s[i]) == i
  {
  }

  lemma LabelListsDistinct()
    ensures |Topics| == 5 && |Intents| == 3 && |Strengths| == 2 && |Styles| == 3
    ensures Distinct(Topics) && Distinct(Intents) && Distinct(Strengths) && Distinct(Styles)
  {
  }
}
