/** Mapping a vertical pointer position inside a list to a row slot. Rows
    are `RowHeight` high and separated by a `RowMargin` gap; a position in
    the gap after a row's content belongs to no row. Coordinates are
    relative to the list's top-left corner. */
module Geometry {

  const RowHeight: int := 26
  const RowMargin: int := 5
  /** Distance from the top of one row to the top of the next. */
  const Pitch: int := RowHeight + RowMargin

  /** `floor(y / (h + m))`: the slot whose pitch band contains `y`. */
  function Slot(y: int): (r: int)
    ensures r * Pitch <= y < r * Pitch + Pitch
  {
    y / Pitch
  }

  /** `y` lies over the content band of row `k` (both ends included). */
  predicate OnRow(k: int, y: int)
  {
    k * Pitch <= y <= k * Pitch + RowHeight
  }

  /** The margin test of the component: past the content of its slot. */
  predicate InGap(y: int)
  {
    y > Slot(y) * Pitch + RowHeight
  }

  /** The gap is the band of `RowMargin` positions after each row's
      content: offsets 27 to 30 within a pitch. The offset 26 itself is
      still on the row. */
  lemma InGapIffOffset(y: int)
    ensures InGap(y) <==> y % Pitch > RowHeight
    ensures !InGap(Slot(y) * Pitch + RowHeight)
  {
  }

  /** `y` is in the gap exactly when it is over no row, and a position over
      a row is over the row its slot names. */
  lemma InGapIffOnNoRow(y: int)
    ensures InGap(y) <==> forall k :: !OnRow(k, y)
    ensures forall k :: OnRow(k, y) ==> k == Slot(y)
  {
    if !InGap(y) {
      assert OnRow(Slot(y), y);
    }
  }

  /** Slots never decrease as the pointer moves down. */
  lemma SlotMonotone(y1: int, y2: int)
    requires y1 <= y2
    ensures Slot(y1) <= Slot(y2)
  {
  }

  /** The pointer is inside the list's bounding rectangle. */
  predicate Within(x: int, y: int, width: int, height: int)
  {
    0 <= x <= width && 0 <= y <= height
  }

  /** The hovered row during a move: the slot of `y` when the pointer is
      inside the list and over a row's content, otherwise -1. */
  function HoverIndex(x: int, y: int, width: int, height: int): (r: int)
    ensures r != -1 ==> Within(x, y, width, height) && 0 <= r && OnRow(r, y)
    ensures r == -1 <==> !Within(x, y, width, height) || forall k :: !OnRow(k, y)
  {
    InGapIffOnNoRow(y);
    if InGap(y) || !Within(x, y, width, height) then -1 else Slot(y)
  }

  /** Inside a list no taller than `rows` pitches minus one position, a
      valid hover always names one of its rows. */
  lemma HoverIndexBelow(x: int, y: int, width: int, height: int, rows: nat)
    requires height < rows * Pitch
    ensures HoverIndex(x, y, width, height) < rows
  {
  }
}
