/** What several of the models share: bytes, options, and a few facts about sequences. */
module Common {
  type Byte = b: int | 0 <= b < 256

  datatype Option<+T> = None | Some(value: T)

  ghost predicate NoRepeats<T>(xs: seq<T>) {
    forall i, j | 0 <= i < j < |xs| :: xs[i] != xs[j]
  }

  lemma {:induction false} NoRepeatsAppend<T>(xs: seq<T>, ys: seq<T>)
    requires NoRepeats(xs) && NoRepeats(ys) && forall y | y in ys :: y !in xs
    ensures NoRepeats(xs + ys)
  {
    assert forall j | 0 <= j < |ys| :: ys[j] in ys;
  }

  // A list without its p-th element.
  function Cut<T>(xs: seq<T>, p: nat): (ys: seq<T>)
    requires p < |xs|
    ensures |ys| == |xs| - 1 && forall k | 0 <= k < |ys| :: ys[k] == xs[if k < p then k else k + 1]
  {
    xs[..p] + xs[p + 1..]
  }

  lemma {:induction false} Associate<T>(xs: seq<T>, ys: seq<T>, zs: seq<T>)
    ensures xs + (ys + zs) == xs + ys + zs
  {}
}
