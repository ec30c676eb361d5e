/**
 * Selection bitsets and the ordered visitors of a structure.
 *
 * A bitset over [0, count) is a seq<bool>; a selection is the `test`
 * callback it exposes, applied to the atom proxy positioned at an index.
 */
module Selection {
  import opened Wrappers

  /** The bond columns that the bond bitset reads: the two atoms a bond joins. */
  datatype Bond = Bond(atomIndex1: nat, atomIndex2: nat)

  /** TypedFastBitSet.has: an index outside the set's domain is not a member. */
  predicate Has(bs: seq<bool>, k: int)
  {
    0 <= k < |bs| && bs[k]
  }

  /** TypedFastBitSet.intersection: the receiver keeps its size and loses every bit the other set lacks. */
  function Intersection(a: seq<bool>, b: seq<bool>): (r: seq<bool>)
    ensures |r| == |a|
    ensures forall k :: 0 <= k < |a| ==> (r[k] <==> a[k] && Has(b, k))
  {
    seq(|a|, k requires 0 <= k < |a| => a[k] && Has(b, k))
  }

  /** Whether a selection picks atom i: with no selection, every atom is picked. */
  predicate Picks(selection: Option<nat -> bool>, i: nat)
  {
    selection.None? || selection.value(i)
  }

  /** getAtomBitSet: bit i is set iff the selection's test accepts atom i. */
  method GetAtomBitSet(atomCount: nat, selection: Option<nat -> bool>) returns (bs: seq<bool>)
    ensures |bs| == atomCount
    ensures forall i :: 0 <= i < atomCount ==> (bs[i] <==> Picks(selection, i))
  {
    bs := seq(atomCount, _ => false);
    if selection.Some? {
      var test := selection.value;
      var i := 0;
      while i < atomCount
        invariant 0 <= i <= atomCount && |bs| == atomCount
        invariant forall k :: 0 <= k < i ==> (bs[k] <==> test(k))
        invariant forall k :: i <= k < atomCount ==> !bs[k]
      {
        if test(i) {
          bs := bs[i := true];
        }
        i := i + 1;
      }
    } else {
      bs := seq(atomCount, _ => true);
    }
  }

  /** getBondBitSet: a bond is selected iff both of its atoms are. */
  method GetBondBitSet(atomCount: nat, bonds: seq<Bond>, selection: Option<nat -> bool>) returns (bbs: seq<bool>)
    ensures |bbs| == |bonds|
    ensures forall i :: 0 <= i < |bonds| ==>
      (bbs[i] <==> selection.None? ||
                   (&& bonds[i].atomIndex1 < atomCount && Picks(selection, bonds[i].atomIndex1)
                    && bonds[i].atomIndex2 < atomCount && Picks(selection, bonds[i].atomIndex2)))
  {
    var n := |bonds|;
    bbs := seq(n, _ => false);
    if selection.Some? {
      var abs := GetAtomBitSet(atomCount, selection);
      var i := 0;
      while i < n
        invariant 0 <= i <= n && |bbs| == n
        invariant forall k :: 0 <= k < i ==> (bbs[k] <==> Has(abs, bonds[k].atomIndex1) && Has(abs, bonds[k].atomIndex2))
        invariant forall k :: i <= k < n ==> !bbs[k]
      {
        if Has(abs, bonds[i].atomIndex1) && Has(abs, bonds[i].atomIndex2) {
          bbs := bbs[i := true];
        }
        i := i + 1;
      }
    } else {
      bbs := seq(n, _ => true);
    }
  }

  /** eachAtom: the atom indices handed to the callback, in call order.
      With a cached atom bitset and a selection, the two are intersected. */
  method EachAtom(atomCount: nat, atomBitSet: Option<seq<bool>>, selection: Option<nat -> bool>) returns (visited: seq<nat>)
    requires atomBitSet.Some? ==> |atomBitSet.value| == atomCount
    ensures forall a, b :: 0 <= a < b < |visited| ==> visited[a] < visited[b]
    ensures forall k: nat :: k in visited <==>
      k < atomCount && Picks(selection, k) && (atomBitSet.None? || atomBitSet.value[k])
  {
    var abs: Option<seq<bool>> := atomBitSet;
    if selection.Some? {
      var sel := GetAtomBitSet(atomCount, selection);
      if abs.Some? {
        abs := Some(Intersection(sel, abs.value));
      } else {
        abs := Some(sel);
      }
    }
    assert abs.Some? ==> |abs.value| == atomCount;
    assert forall k :: 0 <= k < atomCount ==>
      ((abs.None? || abs.value[k]) <==> Picks(selection, k) && (atomBitSet.None? || atomBitSet.value[k]));
    visited := [];
    var i := 0;
    while i < atomCount
      invariant 0 <= i <= atomCount
      invariant abs.Some? ==> |abs.value| == atomCount
      invariant forall a, b :: 0 <= a < b < |visited| ==> visited[a] < visited[b]
      invariant forall a :: 0 <= a < |visited| ==> visited[a] < i
      invariant forall k: nat :: k in visited <==> k < i && (abs.None? || abs.value[k])
    {
      if abs.None? || abs.value[i] {
        visited := visited + [i];
      }
      i := i + 1;
    }
  }

  /** eachResidueN: the residue windows passed to the callback, one per call. */
  method EachResidueN(residueCount: nat, n: nat) returns (calls: seq<seq<nat>>)
    ensures |calls| == if residueCount < n then 0 else residueCount - n + 1
    ensures forall k :: 0 <= k < |calls| ==> |calls[k]| == n
    ensures forall k, t :: 0 <= k < |calls| && 0 <= t < n ==> calls[k][t] == k + t
  {
    calls := [];
    if residueCount < n {
      return;
    }
    var window := new nat[n];
    for i := 0 to n
      invariant forall t :: 0 <= t < i ==> window[t] == t
    {
      window[i] := i;
    }
    var w0 := window[..];
    assert |w0| == n && forall t :: 0 <= t < n ==> w0[t] == t;
    calls := [w0];
    for j := n to residueCount
      invariant |calls| == j - n + 1
      invariant forall t :: 0 <= t < n ==> window[t] == j - n + t
      invariant forall k :: 0 <= k < |calls| ==> |calls[k]| == n
      invariant forall k, t :: 0 <= k < |calls| && 0 <= t < n ==> calls[k][t] == k + t
    {
      for i := 0 to n
        invariant forall t :: 0 <= t < i ==> window[t] == j - n + t + 1
        invariant forall t :: i <= t < n ==> window[t] == j - n + t
      {
        window[i] := window[i] + 1;
      }
      var w := window[..];
      assert |w| == n && forall t :: 0 <= t < n ==> w[t] == |calls| + t;
      calls := calls + [w];
    }
  }

  /** Fiber.eachAtomN: windows of n consecutive computed atoms, sliding by one.
      With n == 0 the first call gets no atom and each later call the one
      atom just pushed, because shifting an empty array removes nothing. */
  method EachAtomN<T>(atoms: seq<T>, n: nat) returns (calls: seq<seq<T>>)
    ensures |calls| == if |atoms| < n then 0 else |atoms| - n + 1
    ensures n > 0 ==> forall k :: 0 <= k < |calls| ==> calls[k] == atoms[k..k + n]
    ensures n == 0 ==> calls[0] == [] && forall k :: 1 <= k < |calls| ==> calls[k] == [atoms[k - 1]]
  {
    calls := [];
    if |atoms| < n {
      return;
    }
    var window := atoms[..n];
    calls := [window];
    var i := n;
    while i < |atoms|
      invariant n <= i <= |atoms|
      invariant |calls| == i - n + 1
      invariant n > 0 ==> window == atoms[i - n..i]
      invariant n > 0 ==> forall k :: 0 <= k < |calls| ==> calls[k] == atoms[k..k + n]
      invariant n == 0 ==> calls[0] == [] && forall k :: 1 <= k < |calls| ==> calls[k] == [atoms[k - 1]]
      invariant n == 0 ==> window == if i == 0 then [] else [atoms[i - 1]]
    {
      if n > 0 {
        SlideWindow(atoms, n, i, window);
      }
      window := if window == [] then [atoms[i]] else window[1..] + [atoms[i]];
      calls := calls + [window];
      i := i + 1;
    }
  }

  /** Dropping the oldest atom of a full window and pushing the next one
      moves the window along by one. */
  lemma SlideWindow<T>(atoms: seq<T>, n: nat, i: nat, window: seq<T>)
    requires 0 < n <= i < |atoms| && window == atoms[i - n..i]
    ensures window != [] && window[1..] + [atoms[i]] == atoms[i + 1 - n..i + 1]
  {
  }
}
