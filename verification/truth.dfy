/**
 * The rating scale (`class Truth`): the eight labels in order from most
 * false to most true, the position map built from them, and the split of
 * the scale into a false half and a true half.
 */
module Truth {

  /** `Truth.both`. */
  const Both: seq<string> := [
    "Pants on Fire!",
    "Full Flop",
    "Mostly False",
    "False",
    "No Flip",
    "Half-True",
    "Mostly True",
    "True"
  ]

  /** `Truth.lies`. */
  const Lies: set<string> := {"Pants on Fire!", "Full Flop", "Mostly False", "False"}

  /** `Truth.truth`. */
  const Truths: set<string> := {"True", "Mostly True", "Half-True", "No Flip"}

  /** No label occurs twice in `labels`. */
  predicate Distinct(labels: seq<string>) {
    forall i, j :: 0 <= i < j < |labels| ==> labels[i] != labels[j]
  }

  /**
   * `{label: i for i, label in enumerate(labels)}`: each label maps to its
   * position, and a label that occurs again is overwritten by its last position.
   */
  function PositionMap(labels: seq<string>): (m: map<string, nat>)
    ensures m.Keys == set l | l in labels
    ensures forall l :: l in m ==> m[l] < |labels| && labels[m[l]] == l
    ensures forall l, j :: l in m && m[l] < j < |labels| ==> labels[j] != l
    decreases |labels|
  {
    if labels == [] then map[]
    else
      var last := |labels| - 1;
      var init := labels[..last];
      assert labels == init + [labels[last]];
      PositionMap(init)[labels[last] := last]
  }

  /** `Truth.to_int`. */
  const ToInt: map<string, nat> := PositionMap(Both)

  /** Over distinct labels the position map sends every label to its own index. */
  lemma PositionMapOfDistinct(labels: seq<string>)
    requires Distinct(labels)
    ensures forall i :: 0 <= i < |labels| ==> labels[i] in PositionMap(labels) && PositionMap(labels)[labels[i]] == i
  {
  }

  /** The scale lists no label twice. */
  lemma BothDistinct()
    ensures Distinct(Both)
  {
  }

  /** `to_int` maps each label of `both` to its index, knows no other label, and is injective. */
  lemma ToIntIsPosition()
    ensures ToInt.Keys == set l | l in Both
    ensures forall i :: 0 <= i < |Both| ==> ToInt[Both[i]] == i
    ensures forall l :: l in ToInt ==> ToInt[l] < 8
    ensures forall l, l' :: l in ToInt && l' in ToInt && l != l' ==> ToInt[l] != ToInt[l']
  {
    BothDistinct();
    PositionMapOfDistinct(Both);
  }

  /** The two ends of the scale. */
  lemma ToIntEnds()
    ensures "Pants on Fire!" in ToInt && ToInt["Pants on Fire!"] == 0
    ensures "True" in ToInt && ToInt["True"] == 7
  {
    ToIntIsPosition();
    assert Both[0] == "Pants on Fire!" && Both[7] == "True";
  }

  /** `lies` and `truth` are disjoint and together hold exactly the labels of `both`. */
  lemma LiesAndTruthsCover()
    ensures Lies !! Truths
    ensures Lies + Truths == set l | l in Both
  {
  }

  /** The first four positions of `both` are the lies, the last four the truths. */
  lemma HalvesByPosition(i: nat)
    requires i < |Both|
    ensures Both[i] in Lies <==> i < 4
    ensures Both[i] in Truths <==> i >= 4
  {
  }

  /** A known label is a lie iff its code is below 4, and a truth iff its code is 4 or more. */
  lemma LiesAndTruthsSplitAtFour()
    ensures forall l :: l in ToInt ==> (l in Lies <==> ToInt[l] < 4)
    ensures forall l :: l in ToInt ==> (l in Truths <==> ToInt[l] >= 4)
  {
    forall l | l in ToInt
      ensures (l in Lies <==> ToInt[l] < 4) && (l in Truths <==> ToInt[l] >= 4)
    {
      var i := ToInt[l];
      assert i < |Both| && Both[i] == l;
      HalvesByPosition(i);
    }
  }
}
