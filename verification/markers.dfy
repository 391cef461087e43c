/** The shift markers shown while a row is dragged: every time the hovered
    row changes, all markers are cleared, then the rows between the dragged
    row and the hovered one are marked with the direction they will shift
    if the gesture ends there. */
module Markers {
  import Reorder

  datatype Marker = Unmarked | Upward | Downward

  /** Set rows `lo` up to (not including) `hi` to `m`, one row at a time. */
  function Mark(marks: seq<Marker>, lo: nat, hi: nat, m: Marker): (r: seq<Marker>)
    requires hi <= |marks|
    ensures |r| == |marks|
    ensures forall k :: 0 <= k < |r| ==> r[k] == if lo <= k < hi then m else marks[k]
    decreases hi - lo
  {
    if lo >= hi then marks else Mark(marks[lo := m], lo + 1, hi, m)
  }

  /** Every row unmarked. */
  ghost predicate AllUnmarked(marks: seq<Marker>)
  {
    forall k :: 0 <= k < |marks| ==> marks[k] == Unmarked
  }

  /** Clearing the markers of every row. */
  function ClearAll(marks: seq<Marker>): (r: seq<Marker>)
    ensures |r| == |marks| && AllUnmarked(r)
  {
    Mark(marks, 0, |marks|, Unmarked)
  }

  /** The markers for a drag of row `selected` hovering row `hovered`: rows
      after the dragged one up to the hovered one shift up; rows from the
      hovered one up to the dragged one shift down; nothing else is marked. */
  ghost predicate Shows(marks: seq<Marker>, selected: nat, hovered: nat)
  {
    forall k :: 0 <= k < |marks| ==>
      && (marks[k] == Upward <==> selected < k <= hovered)
      && (marks[k] == Downward <==> hovered <= k < selected)
  }

  /** The hover handler's marker update: clear all, then mark the span. */
  function Remark(marks: seq<Marker>, selected: nat, hovered: nat): (r: seq<Marker>)
    requires selected < |marks| && hovered < |marks|
    ensures |r| == |marks|
    ensures Shows(r, selected, hovered)
  {
    var cleared := ClearAll(marks);
    if hovered > selected then Mark(cleared, selected + 1, hovered + 1, Upward)
    else Mark(cleared, hovered, selected, Downward)
  }

  /** The dragged row is never marked, and every marked row lies between
      the dragged row and the hovered one. */
  lemma ShowsSkipsSelected(marks: seq<Marker>, selected: nat, hovered: nat)
    requires selected < |marks| && Shows(marks, selected, hovered)
    ensures marks[selected] == Unmarked
    ensures forall k :: 0 <= k < |marks| && marks[k] != Unmarked ==>
      (selected < k <= hovered) || (hovered <= k < selected)
  {
  }

  /** The markers depend only on the two rows, not on what was shown before. */
  lemma RemarkForgetsHistory(m1: seq<Marker>, m2: seq<Marker>, selected: nat, hovered: nat)
    requires |m1| == |m2| && selected < |m1| && hovered < |m1|
    ensures Remark(m1, selected, hovered) == Remark(m2, selected, hovered)
  {
    var r1, r2 := Remark(m1, selected, hovered), Remark(m2, selected, hovered);
    forall k | 0 <= k < |r1| ensures r1[k] == r2[k] {
      if r1[k] == Unmarked {
        assert !(selected < k <= hovered) && !(hovered <= k < selected);
      }
    }
  }

  /** The markers preview the reorder a release would commit: a row marked
      upward moves one slot up, a row marked downward one slot down, and
      any other row but the dragged one stays put. */
  lemma ShowsPreviewsReorder<T>(s: seq<T>, marks: seq<Marker>, selected: nat, hovered: nat, k: nat)
    requires |marks| == |s| && selected < |s| && hovered < |s| && k < |s|
    requires Shows(marks, selected, hovered) && k != selected
    ensures marks[k] == Upward ==> Reorder.MoveTo(s, selected, hovered)[k - 1] == s[k]
    ensures marks[k] == Downward ==> Reorder.MoveTo(s, selected, hovered)[k + 1] == s[k]
    ensures marks[k] == Unmarked ==> Reorder.MoveTo(s, selected, hovered)[k] == s[k]
  {
    if marks[k] == Upward {
      Reorder.MoveToAt(s, selected, hovered, k - 1);
    } else if marks[k] == Downward {
      Reorder.MoveToAt(s, selected, hovered, k + 1);
    } else {
      Reorder.MoveToAt(s, selected, hovered, k);
    }
  }
}
