/** Cell codes of the building map: the characters the grid stores, as their code points. */
module Cells {

  /** An empty place (' '). */
  const EmptyPlace: int := 32

  /** What the bounds-checked read returns outside the grid ('\0'); also the fill of a fresh buffer. */
  const InvalidPlace: int := 0

  /** A building that no component has claimed yet ('#'). */
  const BuildingPlace: int := 35

  /** The first label code ('$'). */
  const FirstLabel: int := 36

  /** How many label codes there are before they repeat (212 - 36). */
  const LabelCount: int := 176

  predicate IsLabel(c: int) {
    FirstLabel <= c < FirstLabel + LabelCount
  }

  /** The label given to the component found when `k` components had been found before it. */
  function LabelFor(k: nat): (c: int)
    ensures IsLabel(c)
    ensures c != BuildingPlace && c != EmptyPlace && c != InvalidPlace
    ensures k < LabelCount ==> c == FirstLabel + k
  {
    k % LabelCount + FirstLabel
  }

  /** Labels alias with period 176: two components get the same label exactly when their
      discovery ranks agree modulo 176. */
  lemma LabelsAlias(k: nat, k': nat)
    ensures LabelFor(k) == LabelFor(k') <==> k % LabelCount == k' % LabelCount
    ensures LabelFor(k + LabelCount) == LabelFor(k)
  {
  }
}
