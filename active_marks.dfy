/** The "active" class of a list of elements (theme buttons, navigation links).
    Both the theme controller and the section engine re-scan every element,
    remove `active`, and add it back exactly when the element's key (its
    `data-theme` or its `href`) equals the current target. */
module ActiveMarks {

  /** An element of such a list: its key and whether it carries `active`. */
  datatype Marked<K> = Marked(key: K, active: bool)

  /** One element after the re-scan: same key, active iff the key is the target. */
  function Mark<K(==)>(m: Marked<K>, target: K): Marked<K>
  {
    Marked(m.key, m.key == target)
  }

  /** The whole list after the re-scan. */
  function MarkAll<K(==)>(xs: seq<Marked<K>>, target: K): (r: seq<Marked<K>>)
    ensures |r| == |xs|
    ensures forall i :: 0 <= i < |xs| ==> r[i].key == xs[i].key
    ensures forall i :: 0 <= i < |xs| ==> (r[i].active <==> xs[i].key == target)
  {
    if xs == [] then [] else [Mark(xs[0], target)] + MarkAll(xs[1..], target)
  }

  /** Keys of a list, in order. */
  function Keys<K>(xs: seq<Marked<K>>): (r: seq<K>)
    ensures |r| == |xs| && forall i :: 0 <= i < |xs| ==> r[i] == xs[i].key
  {
    if xs == [] then [] else [xs[0].key] + Keys(xs[1..])
  }

  /** Every element is active exactly when its key is the target. */
  ghost predicate InSync<K>(xs: seq<Marked<K>>, target: K)
  {
    forall i :: 0 <= i < |xs| ==> (xs[i].active <==> xs[i].key == target)
  }

  /** The re-scan keeps the keys and their order, and leaves the list in sync. */
  lemma MarkAllKeepsKeys<K>(xs: seq<Marked<K>>, target: K)
    ensures Keys(MarkAll(xs, target)) == Keys(xs)
    ensures InSync(MarkAll(xs, target), target)
  {
  }

  /** A list already in sync with the target is left as it is. */
  lemma MarkAllInSync<K>(xs: seq<Marked<K>>, target: K)
    requires InSync(xs, target)
    ensures MarkAll(xs, target) == xs
  {
  }

  /** Only the last re-scan matters: earlier flags are all overwritten. */
  lemma MarkAllOverwrites<K>(xs: seq<Marked<K>>, first: K, second: K)
    ensures MarkAll(MarkAll(xs, first), second) == MarkAll(xs, second)
  {
  }

  /** With distinct keys, exactly the one element whose key is the target is active. */
  lemma ExactlyOneActive<K>(xs: seq<Marked<K>>, target: K, k: int)
    requires 0 <= k < |xs| && xs[k].key == target
    requires forall i, j :: 0 <= i < j < |xs| ==> xs[i].key != xs[j].key
    ensures MarkAll(xs, target)[k].active
    ensures forall i :: 0 <= i < |xs| && MarkAll(xs, target)[i].active ==> i == k
  {
  }

  /** The in-place re-scan of an element list (`forEach` over the elements:
      remove `active`, then add it back when the key matches). */
  method MarkInPlace<K(==)>(a: array<Marked<K>>, target: K)
    modifies a
    ensures a[..] == MarkAll(old(a[..]), target)
  {
    var i := 0;
    while i < a.Length
      invariant 0 <= i <= a.Length
      invariant forall k :: 0 <= k < i ==> a[k] == Mark(old(a[k]), target)
      invariant forall k :: i <= k < a.Length ==> a[k] == old(a[k])
    {
      a[i] := a[i].(active := false);
      if a[i].key == target {
        a[i] := a[i].(active := true);
      }
      i := i + 1;
    }
  }
}
