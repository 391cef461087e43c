/** The list mutator behind a committed drag gesture: the element at `from`
    is taken out and reinserted at `to`, the rows in between shifting by one
    slot. `MoveTo` is the remove-then-insert reading; `Reorder` is the
    shifting loop the component actually runs, proved equal to it. */
module Reorder {

  /** Remove the element at `from`, then insert it so that it lands at `to`. */
  function MoveTo<T>(s: seq<T>, from: nat, to: nat): (r: seq<T>)
    requires from < |s| && to < |s|
    ensures |r| == |s|
    ensures r[to] == s[from]
  {
    var rest := Without(s, from);
    rest[..to] + [s[from]] + rest[to..]
  }

  /** Sequence `s` with position `k` taken out. */
  function Without<T>(s: seq<T>, k: nat): (r: seq<T>)
    requires k < |s|
    ensures |r| == |s| - 1
  {
    s[..k] + s[k + 1..]
  }

  /** Where each position of the result comes from: the moved element lands
      at `to`, the span between shifts by one towards `from`, and every other
      position keeps its element. */
  lemma MoveToAt<T>(s: seq<T>, from: nat, to: nat, k: nat)
    requires from < |s| && to < |s| && k < |s|
    ensures MoveTo(s, from, to)[k] ==
      if k == to then s[from]
      else if from < to && from <= k < to then s[k + 1]
      else if to < from && to < k <= from then s[k - 1]
      else s[k]
  {
    var rest := Without(s, from);
    assert |rest| == |s| - 1;
    assert forall i :: 0 <= i < |rest| ==> rest[i] == (if i < from then s[i] else s[i + 1]);
    var r := MoveTo(s, from, to);
    assert r == rest[..to] + [s[from]] + rest[to..];
    if k < to {
      assert r[k] == rest[k];
    } else if k > to {
      assert r[k] == rest[k - 1];
    }
  }

  /** Every position outside the span between the two indices is untouched. */
  lemma MoveToOutside<T>(s: seq<T>, from: nat, to: nat, k: nat)
    requires from < |s| && to < |s| && k < |s|
    requires (k < from && k < to) || (k > from && k > to)
    ensures MoveTo(s, from, to)[k] == s[k]
  {
    MoveToAt(s, from, to, k);
  }

  /** Moving a row onto itself changes nothing. */
  lemma MoveToSame<T>(s: seq<T>, i: nat)
    requires i < |s|
    ensures MoveTo(s, i, i) == s
  {
    forall k | 0 <= k < |s|
      ensures MoveTo(s, i, i)[k] == s[k]
    {
      MoveToAt(s, i, i, k);
    }
  }

  /** The relative order of all the other elements is preserved: removing the
      moved element from the result gives the input without it. */
  lemma MoveToKeepsOthersInOrder<T>(s: seq<T>, from: nat, to: nat)
    requires from < |s| && to < |s|
    ensures Without(MoveTo(s, from, to), to) == Without(s, from)
  {
    var rest := Without(s, from);
    var r := MoveTo(s, from, to);
    assert r[..to] == rest[..to];
    assert r[to + 1..] == rest[to..];
    assert rest == rest[..to] + rest[to..];
  }

  /** No element is lost or duplicated. */
  lemma MoveToPermutes<T>(s: seq<T>, from: nat, to: nat)
    requires from < |s| && to < |s|
    ensures multiset(MoveTo(s, from, to)) == multiset(s)
  {
    var rest := Without(s, from);
    assert s == s[..from] + [s[from]] + s[from + 1..];
    assert multiset(s) == multiset(rest) + multiset{s[from]};
    assert rest == rest[..to] + rest[to..];
    assert multiset(rest) == multiset(rest[..to]) + multiset(rest[to..]);
  }

  /** Moving back restores the original list. */
  lemma MoveToInverse<T>(s: seq<T>, i: nat, j: nat)
    requires i < |s| && j < |s|
    ensures MoveTo(MoveTo(s, i, j), j, i) == s
  {
    var r := MoveTo(s, i, j);
    forall k | 0 <= k < |s|
      ensures MoveTo(r, j, i)[k] == s[k]
    {
      MoveToAt(r, j, i, k);
      if k == i {
        MoveToAt(s, i, j, j);
      } else if j < i && j <= k < i {
        MoveToAt(s, i, j, k + 1);
      } else if i < j && i < k <= j {
        MoveToAt(s, i, j, k - 1);
      } else {
        MoveToAt(s, i, j, k);
      }
    }
  }

  /** Swapping two neighbours is the same as moving one onto the other. */
  lemma SwapIsMove<T>(s: seq<T>, i: nat, j: nat)
    requires i < |s| && j < |s|
    requires i + 1 == j || j + 1 == i
    ensures s[i := s[j]][j := s[i]] == MoveTo(s, i, j)
  {
    forall k | 0 <= k < |s|
      ensures s[i := s[j]][j := s[i]][k] == MoveTo(s, i, j)[k]
    {
      MoveToAt(s, i, j, k);
    }
  }

  /** The two drag scenarios on a three-row list. */
  lemma MoveToExamples()
    ensures MoveTo(['a', 'b', 'c'], 0, 2) == ['b', 'c', 'a']
    ensures MoveTo(['a', 'b', 'c'], 2, 0) == ['c', 'a', 'b']
  {
    var s := ['a', 'b', 'c'];
    assert s[..0] + s[1..] == ['b', 'c'];
    assert s[..2] + s[3..] == ['a', 'b'];
  }

  /** The shifting loop of the component, over a sequence value instead of
      an array: save the selected element, shift the span between by one
      slot towards the selected position, then write the saved element at
      the hovered position. */
  method Reorder<T>(a: seq<T>, selected: nat, hovered: nat) returns (r: seq<T>)
    requires selected < |a| && hovered < |a|
    ensures r == MoveTo(a, selected, hovered)
  {
    var tmp := a[selected];
    r := a;
    if selected < hovered {
      var i := selected + 1;
      while i <= hovered
        invariant selected + 1 <= i <= hovered + 1
        invariant |r| == |a|
        invariant forall k :: selected <= k < i - 1 ==> r[k] == a[k + 1]
        invariant forall k :: 0 <= k < selected || i - 1 <= k < |a| ==> r[k] == a[k]
      {
        assert r[i] == a[i];
        r := r[i - 1 := r[i]];
        i := i + 1;
      }
    } else {
      var i: int := selected - 1;
      while i >= hovered
        invariant hovered - 1 <= i <= selected - 1
        invariant |r| == |a|
        invariant forall k :: i + 1 < k <= selected ==> r[k] == a[k - 1]
        invariant forall k :: 0 <= k <= i + 1 || selected < k < |a| ==> r[k] == a[k]
      {
        assert r[i] == a[i];
        r := r[i + 1 := r[i]];
        i := i - 1;
      }
    }
    r := r[hovered := tmp];
    forall k | 0 <= k < |a|
      ensures r[k] == MoveTo(a, selected, hovered)[k]
    {
      MoveToAt(a, selected, hovered, k);
    }
  }
}
