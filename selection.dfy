/** The elements of a sequence that a boolean mask selects, in order: the shape of
    a list grown by a run of conditional appends. */
module Selection {

  /** No element occurs twice. */
  predicate Distinct<T(==)>(xs: seq<T>) {
    forall i, j | 0 <= i < j < |xs| :: xs[i] != xs[j]
  }

  /** The number of `true` entries in `mask`. */
  function CountTrue(mask: seq<bool>): nat
  {
    if mask == [] then 0 else (if mask[0] then 1 else 0) + CountTrue(mask[1..])
  }

  /** `x` alone when `c` holds, nothing otherwise. */
  function Chosen<T>(c: bool, x: T): seq<T>
  {
    if c then [x] else []
  }

  /** The elements of `xs` whose entry in `mask` is true, in order. */
  function Select<T>(xs: seq<T>, mask: seq<bool>): (r: seq<T>)
    requires |mask| == |xs|
    ensures |r| == CountTrue(mask)
  {
    if xs == [] then [] else Chosen(mask[0], xs[0]) + Select(xs[1..], mask[1..])
  }

  /** Every selected element comes from `xs`. */
  lemma {:induction false} SelectIn<T>(xs: seq<T>, mask: seq<bool>, a: nat)
    requires |mask| == |xs| && a < CountTrue(mask)
    ensures Select(xs, mask)[a] in xs
  {
    var n := if mask[0] then 1 else 0;
    if a >= n {
      SelectIn(xs[1..], mask[1..], a - n);
    }
  }

  /** `acc` extended, element by element, with each element of `xs` whose entry
      in `mask` is true: a list grown by conditional appends. */
  function AppendSelected<T>(acc: seq<T>, xs: seq<T>, mask: seq<bool>): seq<T>
    requires |mask| == |xs|
    decreases |xs|
  {
    if xs == [] then acc else AppendSelected(acc + Chosen(mask[0], xs[0]), xs[1..], mask[1..])
  }

  /** Growing a list by conditional appends leaves it followed by the selection. */
  lemma {:induction false} AppendSelectedIsConcat<T>(acc: seq<T>, xs: seq<T>, mask: seq<bool>)
    requires |mask| == |xs|
    ensures AppendSelected(acc, xs, mask) == acc + Select(xs, mask)
    decreases |xs|
  {
    if xs != [] {
      AppendSelectedIsConcat(acc + Chosen(mask[0], xs[0]), xs[1..], mask[1..]);
      assert (acc + Chosen(mask[0], xs[0])) + Select(xs[1..], mask[1..])
          == acc + (Chosen(mask[0], xs[0]) + Select(xs[1..], mask[1..]));
    }
  }

  /** Unfolding the conditional appends at position `k`. */
  lemma AppendSelectedAt<T>(acc: seq<T>, xs: seq<T>, mask: seq<bool>, k: nat)
    requires |mask| == |xs| && k < |xs|
    ensures AppendSelected(acc, xs[k..], mask[k..])
         == AppendSelected(acc + Chosen(mask[k], xs[k]), xs[k + 1..], mask[k + 1..])
  {
    assert xs[k..][0] == xs[k] && xs[k..][1..] == xs[k + 1..];
    assert mask[k..][0] == mask[k] && mask[k..][1..] == mask[k + 1..];
  }

  /** Nothing outside `xs` is selected. */
  lemma {:induction false} SelectNotIn<T>(xs: seq<T>, mask: seq<bool>, x: T)
    requires |mask| == |xs| && x !in xs
    ensures x !in Select(xs, mask)
  {
    if xs != [] {
      assert x !in xs[1..];
      SelectNotIn(xs[1..], mask[1..], x);
    }
  }

  /** Three conditional appends from position `k` on, written out. */
  lemma AppendSelectedThree<T>(acc: seq<T>, xs: seq<T>, mask: seq<bool>, k: nat)
    requires |mask| == |xs| && k + 3 <= |xs|
    ensures AppendSelected(acc, xs[k..], mask[k..])
         == AppendSelected(acc + Chosen(mask[k], xs[k]) + Chosen(mask[k + 1], xs[k + 1])
              + Chosen(mask[k + 2], xs[k + 2]), xs[k + 3..], mask[k + 3..])
  {
    AppendSelectedAt(acc, xs, mask, k);
    AppendSelectedAt(acc + Chosen(mask[k], xs[k]), xs, mask, k + 1);
    AppendSelectedAt(acc + Chosen(mask[k], xs[k]) + Chosen(mask[k + 1], xs[k + 1]), xs, mask, k + 2);
  }

  /** Nine conditional appends, written out one after the other. */
  lemma AppendSelectedNine<T>(acc: seq<T>, xs: seq<T>, mask: seq<bool>)
    requires |mask| == |xs| == 9
    ensures AppendSelected(acc, xs, mask)
      == acc + Chosen(mask[0], xs[0]) + Chosen(mask[1], xs[1]) + Chosen(mask[2], xs[2])
         + Chosen(mask[3], xs[3]) + Chosen(mask[4], xs[4]) + Chosen(mask[5], xs[5])
         + Chosen(mask[6], xs[6]) + Chosen(mask[7], xs[7]) + Chosen(mask[8], xs[8])
  {
    assert xs[0..] == xs && mask[0..] == mask;
    var a := acc;
    AppendSelectedThree(a, xs, mask, 0);
    a := a + Chosen(mask[0], xs[0]) + Chosen(mask[1], xs[1]) + Chosen(mask[2], xs[2]);
    AppendSelectedThree(a, xs, mask, 3);
    a := a + Chosen(mask[3], xs[3]) + Chosen(mask[4], xs[4]) + Chosen(mask[5], xs[5]);
    AppendSelectedThree(a, xs, mask, 6);
    assert xs[9..] == [];
  }

  /** With distinct elements, `xs[i]` is selected exactly when `mask[i]` holds. */
  lemma {:induction false} SelectHas<T>(xs: seq<T>, mask: seq<bool>, i: nat)
    requires |mask| == |xs| && Distinct(xs) && i < |xs|
    ensures xs[i] in Select(xs, mask) <==> mask[i]
  {
    var rest := Select(xs[1..], mask[1..]);
    assert xs[0] !in xs[1..];
    SelectNotIn(xs[1..], mask[1..], xs[0]);
    if i > 0 {
      SelectHas(xs[1..], mask[1..], i - 1);
    }
  }

  /** With distinct elements, selection keeps the order of `xs`. */
  lemma {:induction false} SelectOrdered<T>(xs: seq<T>, mask: seq<bool>, a: nat, b: nat, i: nat, j: nat)
    requires |mask| == |xs| && Distinct(xs)
    requires a < b < |Select(xs, mask)| && i < |xs| && j < |xs|
    requires Select(xs, mask)[a] == xs[i] && Select(xs, mask)[b] == xs[j]
    ensures i < j
  {
    var head := Chosen(mask[0], xs[0]);
    var rest := Select(xs[1..], mask[1..]);
    assert Select(xs, mask) == head + rest;
    assert xs[0] !in xs[1..];
    assert Select(xs, mask)[b] == rest[b - |head|];
    SelectIn(xs[1..], mask[1..], b - |head|);
    if a >= |head| {
      assert Select(xs, mask)[a] == rest[a - |head|];
      SelectIn(xs[1..], mask[1..], a - |head|);
      SelectOrdered(xs[1..], mask[1..], a - |head|, b - |head|, i - 1, j - 1);
    }
  }

  /** Selection from distinct elements has distinct elements. */
  lemma {:induction false} SelectDistinct<T>(xs: seq<T>, mask: seq<bool>)
    requires |mask| == |xs| && Distinct(xs)
    ensures Distinct(Select(xs, mask))
  {
    if xs != [] {
      var rest := Select(xs[1..], mask[1..]);
      SelectDistinct(xs[1..], mask[1..]);
      assert xs[0] !in xs[1..];
      SelectNotIn(xs[1..], mask[1..], xs[0]);
    }
  }

  /** The same mask picks elements of two sequences at matching positions. */
  lemma {:induction false} SelectPaired<T, U>(xs: seq<T>, ys: seq<U>, mask: seq<bool>, b: nat)
    requires |mask| == |xs| == |ys| && b < CountTrue(mask)
    ensures exists j | 0 <= j < |xs| ::
      mask[j] && Select(xs, mask)[b] == xs[j] && Select(ys, mask)[b] == ys[j]
  {
    var n := if mask[0] then 1 else 0;
    if b < n {
      assert mask[0] && Select(xs, mask)[b] == xs[0] && Select(ys, mask)[b] == ys[0];
    } else {
      SelectPaired(xs[1..], ys[1..], mask[1..], b - n);
      var j :| 0 <= j < |xs| - 1 && mask[1..][j] && Select(xs[1..], mask[1..])[b - n] == xs[1..][j]
        && Select(ys[1..], mask[1..])[b - n] == ys[1..][j];
      assert mask[j + 1] && Select(xs, mask)[b] == xs[j + 1] && Select(ys, mask)[b] == ys[j + 1];
    }
  }

  /** After a prefix that holds none of the elements of `xs`, an element of `xs`
      occurs exactly when it is selected, and only past the prefix. */
  lemma PrefixSelectHas<T>(prefix: seq<T>, xs: seq<T>, mask: seq<bool>, i: nat)
    requires |mask| == |xs| && Distinct(xs) && i < |xs|
    requires forall k | 0 <= k < |xs| :: xs[k] !in prefix
    ensures xs[i] in prefix + Select(xs, mask) <==> mask[i]
    ensures forall a | 0 <= a < |prefix + Select(xs, mask)| && (prefix + Select(xs, mask))[a] == xs[i] ::
      |prefix| <= a
  {
    SelectHas(xs, mask, i);
    assert forall a | 0 <= a < |prefix| :: (prefix + Select(xs, mask))[a] == prefix[a];
  }

  /** Past such a prefix the selected elements keep the order of `xs`. */
  lemma PrefixSelectOrdered<T>(prefix: seq<T>, xs: seq<T>, mask: seq<bool>, a: nat, b: nat, i: nat, j: nat)
    requires |mask| == |xs| && Distinct(xs) && i < |xs| && j < |xs|
    requires forall k | 0 <= k < |xs| :: xs[k] !in prefix
    requires a < b < |prefix + Select(xs, mask)|
    requires (prefix + Select(xs, mask))[a] == xs[i] && (prefix + Select(xs, mask))[b] == xs[j]
    ensures |prefix| <= a && i < j
  {
    PrefixSelectHas(prefix, xs, mask, i);
    var selected := Select(xs, mask);
    assert (prefix + selected)[a] == selected[a - |prefix|];
    assert (prefix + selected)[b] == selected[b - |prefix|];
    SelectOrdered(xs, mask, a - |prefix|, b - |prefix|, i, j);
  }

  /** A distinct prefix followed by a selection of distinct elements not in it
      has no element twice. */
  lemma PrefixSelectDistinct<T>(prefix: seq<T>, xs: seq<T>, mask: seq<bool>)
    requires |mask| == |xs| && Distinct(prefix) && Distinct(xs)
    requires forall k | 0 <= k < |xs| :: xs[k] !in prefix
    ensures Distinct(prefix + Select(xs, mask))
  {
    var selected := Select(xs, mask);
    var all := prefix + selected;
    SelectDistinct(xs, mask);
    forall a, b | 0 <= a < b < |all|
      ensures all[a] != all[b]
    {
      if a < |prefix| && |prefix| <= b {
        SelectIn(xs, mask, b - |prefix|);
        var k :| 0 <= k < |xs| && selected[b - |prefix|] == xs[k];
        assert all[b] == xs[k] && all[a] in prefix;
      } else if |prefix| <= a {
        assert all[a] == selected[a - |prefix|] && all[b] == selected[b - |prefix|];
      }
    }
  }
}
