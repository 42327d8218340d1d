/**
 The virtual viewport of the workstation runtime (workstation.js, class
 `VirtualViewport`), in exact arithmetic: which items are rendered at a scroll offset, and
 how a long list is compressed into a scroll range the browser can hold.
 */
module VirtualViewport {

  const MAX_SCROLL_SIZE: real := 8000000.0

  datatype Viewport = Viewport(count: nat, estimate: real, overscan: nat)

  /** The constructor's checks. */
  predicate Valid(v: Viewport) {
    v.estimate > 0.0
  }

  function Ceil(x: real): int {
    -((-x).Floor)
  }

  function MaxInt(a: int, b: int): int {
    if a < b then b else a
  }

  function MinInt(a: int, b: int): int {
    if b < a then b else a
  }

  function Max(a: real, b: real): real {
    if a < b then b else a
  }

  function Min(a: real, b: real): real {
    if b < a then b else a
  }

  datatype Range = Range(start: int, end: int)

  /** `range`. */
  function RangeAt(v: Viewport, offset: real, size: real): Range
    requires Valid(v)
  {
    var start := MaxInt(0, (offset / v.estimate).Floor - v.overscan);
    Range(start, MinInt(v.count, start + Ceil(size / v.estimate) + v.overscan * 2))
  }

  predicate Contains(r: Range, i: int) {
    r.start <= i < r.end
  }

  /** Item `i` shows a part of itself between `offset` and `offset + size`. */
  predicate Intersects(v: Viewport, i: int, offset: real, size: real) {
    i as real * v.estimate < offset + size && offset < (i + 1) as real * v.estimate
  }

  // ------------------------------------------------------------ real arithmetic

  lemma DivideLess(x: real, y: real, unit: real)
    requires unit > 0.0
    ensures x * unit < y <==> x < y / unit
    ensures y < x * unit <==> y / unit < x
    ensures y == x * unit <==> y / unit == x
  {
    var q := y / unit;
    assert q * unit == y;
    if x < q {
      assert (q - x) * unit > 0.0;
    } else if q < x {
      assert (x - q) * unit > 0.0;
    }
  }

  lemma DivideSum(x: real, y: real, unit: real)
    requires unit > 0.0
    ensures (x + y) / unit == x / unit + y / unit
  {
  }

  lemma CeilBounds(x: real)
    ensures x <= Ceil(x) as real < x + 1.0
  {
  }

  // ------------------------------------------------------------------ coverage

  /** The range in units of the item size: item `i` is at least `f` and at most `f + c`. */
  lemma IntersectionBounds(v: Viewport, i: int, offset: real, size: real)
    requires Valid(v) && Intersects(v, i, offset, size)
    ensures (offset / v.estimate).Floor <= i <= (offset / v.estimate).Floor + Ceil(size / v.estimate)
  {
    var a, b := offset / v.estimate, size / v.estimate;
    DivideLess(i as real, offset + size, v.estimate);
    DivideLess((i + 1) as real, offset, v.estimate);
    DivideSum(offset, size, v.estimate);
    CeilBounds(b);
    assert i as real < a + b && a < (i + 1) as real;
    assert (a.Floor + Ceil(b) + 1) as real > i as real;
  }

  /** With an overscan, every visible item is rendered, and not many more. */
  lemma RangeCovers(v: Viewport, offset: real, size: real, i: int)
    requires Valid(v) && v.overscan >= 1
    requires 0 <= i < v.count && Intersects(v, i, offset, size)
    ensures Contains(RangeAt(v, offset, size), i)
  {
    IntersectionBounds(v, i, offset, size);
  }

  /** The overscan reaches to both sides: around a visible item, as many items before it and one fewer after. */
  lemma OverscanReaches(v: Viewport, offset: real, size: real, i: int, j: int)
    requires Valid(v) && v.overscan >= 1
    requires 0 <= i < v.count && Intersects(v, i, offset, size)
    requires 0 <= j < v.count && i - v.overscan <= j < i + v.overscan
    ensures Contains(RangeAt(v, offset, size), j)
  {
    IntersectionBounds(v, i, offset, size);
  }

  /**
   However long the list: no more rows than fit the window and the overscan on both sides are
   rendered, and all of them are items of the list.
   */
  lemma RangeIsBounded(v: Viewport, offset: real, size: real, i: int)
    requires Valid(v) && Contains(RangeAt(v, offset, size), i)
    ensures var r := RangeAt(v, offset, size);
            && 0 <= r.start <= i < r.end <= v.count
            && r.end - r.start <= Ceil(size / v.estimate) + 2 * v.overscan
            && ((r.end - r.start) as real - 1.0 - 2.0 * v.overscan as real) * v.estimate < size
  {
    var b := size / v.estimate;
    var spare := RangeAt(v, offset, size).end - RangeAt(v, offset, size).start - 1 - 2 * v.overscan;
    CeilBounds(b);
    DivideLess(spare as real, size, v.estimate);
  }

  /** Every range, with or without anything in it, spans at most that many items. */
  lemma RangeSpan(v: Viewport, offset: real, size: real)
    requires Valid(v)
    ensures var r := RangeAt(v, offset, size);
            r.end - r.start <= Ceil(size / v.estimate) + 2 * v.overscan
  {
  }

  ghost predicate AlwaysCovers(overscan: nat) {
    forall v: Viewport, offset: real, size: real, i: int |
      Valid(v) && v.overscan == overscan && 0 <= i < v.count && Intersects(v, i, offset, size) ::
      Contains(RangeAt(v, offset, size), i)
  }

  /** Without an overscan the last partly visible item can be missed. */
  lemma OverscanIsNeeded(overscan: nat)
    ensures AlwaysCovers(overscan) <==> overscan >= 1
  {
    if overscan >= 1 {
      forall v: Viewport, offset: real, size: real, i: int |
        Valid(v) && v.overscan == overscan && 0 <= i < v.count && Intersects(v, i, offset, size)
        ensures Contains(RangeAt(v, offset, size), i)
      {
        RangeCovers(v, offset, size, i);
      }
    } else {
      var v := Viewport(10, 1.0, 0);
      assert (0.5 / 1.0).Floor == 0 && Ceil(1.0 / 1.0) == 1;
      assert Intersects(v, 1, 0.5, 1.0);
      assert !Contains(RangeAt(v, 0.5, 1.0), 1);
    }
  }

  // --------------------------------------------------------------- compression

  function Total(v: Viewport): real {
    v.count as real * v.estimate
  }

  /** How far the scroll bar can move over a list of `total` pixels; the canvas has a limit. */
  function PhysicalRange(total: real, height: real): real {
    Max(0.0, Min(total, MAX_SCROLL_SIZE) - height)
  }

  /** The offset into the list that a scroll position stands for, as `render` computes it. */
  function LogicalOffset(total: real, scrollTop: real, height: real): real {
    var physicalRange := PhysicalRange(total, height);
    if physicalRange == 0.0 then 0.0
    else scrollTop / physicalRange * Max(0.0, total - height)
  }

  /** `scrollToIndex`: the scroll position it asks for, `at` being where the item begins. */
  function ScrollTopFor(total: real, at: real, height: real): real {
    var physicalRange := PhysicalRange(total, height);
    Min(physicalRange, at / Max(1.0, total - height) * physicalRange)
  }

  /** Where item `i` begins. */
  function Begin(v: Viewport, i: int): real {
    i as real * v.estimate
  }

  function OffsetAfterScroll(total: real, at: real, height: real): real {
    LogicalOffset(total, ScrollTopFor(total, at, height), height)
  }

  function RenderedAfterScroll(v: Viewport, i: int, height: real): Range
    requires Valid(v)
  {
    RangeAt(v, OffsetAfterScroll(Total(v), Begin(v, i), height), height)
  }

  /** A list taller than the window leaves the scroll bar room to move. */
  lemma ScrollBarMoves(total: real, height: real)
    requires height < MAX_SCROLL_SIZE && total > height
    ensures PhysicalRange(total, height) > 0.0
  {
  }

  lemma OffsetAsFraction(total: real, top: real, height: real, physical: real, logical: real)
    requires physical == PhysicalRange(total, height) && logical == Max(0.0, total - height) && physical > 0.0
    ensures LogicalOffset(total, top, height) == top / physical * logical
  {
  }

  lemma ScrollTopAsFraction(total: real, at: real, height: real, physical: real, scale: real)
    requires physical == PhysicalRange(total, height) && scale == Max(1.0, total - height)
    ensures ScrollTopFor(total, at, height) == Min(physical, at / scale * physical)
  {
  }

  /** What the round trip through the compressed range makes of a target position. */
  ghost predicate LandsAt(spare: real, at: real, offset: real) {
    && (at >= spare && at >= 1.0 ==> offset == spare)
    && (at < spare && spare >= 1.0 ==> offset == at)
    && (at < 1.0 && spare < 1.0 ==> 0.0 <= offset <= at)
  }

  /** Going through the compressed range and back. */
  lemma ScrollRoundTrip(total: real, at: real, height: real)
    requires at >= 0.0 && 1.0 <= height < MAX_SCROLL_SIZE && total > height
    ensures LandsAt(total - height, at, OffsetAfterScroll(total, at, height))
  {
    var physical, spare := PhysicalRange(total, height), total - height;
    var top := ScrollTopFor(total, at, height);
    ScrollBarMoves(total, height);
    ScrollTopAsFraction(total, at, height, physical, Max(1.0, spare));
    OffsetAsFraction(total, top, height, physical, spare);
    ThereAndBack(physical, spare, at, top);
  }

  lemma ThereAndBack(physical: real, spare: real, at: real, top: real)
    requires physical > 0.0 && spare > 0.0 && at >= 0.0
    requires top == Min(physical, at / Max(1.0, spare) * physical)
    ensures LandsAt(spare, at, top / physical * spare)
  {
    var fraction := at / Max(1.0, spare);
    FractionOfSpare(at, spare, fraction);
    ScaleBack(fraction, physical, top);
    Landing(at, spare, fraction, top / physical);
  }

  lemma Landing(at: real, spare: real, fraction: real, position: real)
    requires position == Min(1.0, fraction)
    requires LandsAt(spare, at, if fraction > 1.0 then spare else fraction * spare)
    ensures LandsAt(spare, at, position * spare)
  {
    assert position * spare == if fraction > 1.0 then spare else fraction * spare;
  }

  lemma NonNegativeProduct(x: real, y: real)
    requires x >= 0.0 && y >= 0.0
    ensures x * y >= 0.0
  {
  }

  /** The part of the spare range that a target position stands for. */
  lemma FractionOfSpare(at: real, spare: real, fraction: real)
    requires at >= 0.0 && spare > 0.0 && fraction == at / Max(1.0, spare)
    ensures fraction >= 0.0
    ensures LandsAt(spare, at, if fraction > 1.0 then spare else fraction * spare)
  {
    if spare >= 1.0 {
      DivideLess(1.0, at, spare);
      DivideLess(0.0, at, spare);
      assert fraction * spare == at;
    } else {
      assert at / 1.0 == at;
      SmallSpare(at, spare);
    }
  }

  lemma SmallSpare(at: real, spare: real)
    requires at >= 0.0 && 0.0 < spare < 1.0
    ensures LandsAt(spare, at, if at > 1.0 then spare else at * spare)
  {
    NonNegativeProduct(at, 1.0 - spare);
    NonNegativeProduct(at, spare);
    assert at * (1.0 - spare) == at - at * spare;
  }

  /** The scroll position as a part of the physical range. */
  lemma ScaleBack(fraction: real, physical: real, top: real)
    requires physical > 0.0 && fraction >= 0.0 && top == Min(physical, fraction * physical)
    ensures top / physical == Min(1.0, fraction)
  {
    if fraction > 1.0 {
      assert (fraction - 1.0) * physical > 0.0;
      assert physical / physical == 1.0;
    } else {
      assert (1.0 - fraction) * physical >= 0.0;
      assert fraction * physical / physical == fraction;
    }
  }

  lemma DivideMonotone(x: real, y: real, unit: real)
    requires unit > 0.0 && x <= y
    ensures x / unit <= y / unit
  {
    DivideLess(y / unit, x, unit);
  }

  lemma UnitsOf(v: Viewport, i: int)
    requires Valid(v)
    ensures Begin(v, i) / v.estimate == i as real
  {
    DivideLess(i as real, Begin(v, i), v.estimate);
  }

  /** At an offset where the item begins, or at the end of the list, the item is in the range. */
  lemma ShownAt(v: Viewport, i: int, offset: real, height: real)
    requires Valid(v) && 0 <= i < v.count && height >= 1.0
    requires 0.0 <= offset <= Begin(v, i)
    requires offset == Begin(v, i) || offset + height == Total(v) || Begin(v, i) < height
    ensures Contains(RangeAt(v, offset, height), i)
  {
    var a, b := offset / v.estimate, height / v.estimate;
    InUnits(v, i, offset, height, a, b);
    ShownInUnits(a, b, i, v.count, v.overscan);
  }

  lemma InUnits(v: Viewport, i: int, offset: real, height: real, a: real, b: real)
    requires Valid(v) && height >= 1.0 && 0.0 <= offset <= Begin(v, i)
    requires a == offset / v.estimate && b == height / v.estimate
    ensures b > 0.0 && 0.0 <= a <= i as real
    ensures offset == Begin(v, i) ==> a == i as real
    ensures offset + height == Total(v) ==> a + b == v.count as real
    ensures Begin(v, i) < height ==> (i as real) < b
  {
    UnitsOf(v, i);
    UnitsOf(v, v.count);
    DivideMonotone(0.0, offset, v.estimate);
    DivideMonotone(offset, Begin(v, i), v.estimate);
    DivideSum(offset, height, v.estimate);
    DivideLess(0.0, height, v.estimate);
    DivideLess(i as real, height, v.estimate);
  }

  /** The same in units of the item size. */
  lemma ShownInUnits(a: real, b: real, i: int, count: nat, overscan: nat)
    requires 0 <= i < count && b > 0.0 && 0.0 <= a <= i as real
    requires a == i as real || a + b == count as real || (i as real) < b
    ensures var start := MaxInt(0, a.Floor - overscan);
            start <= i < MinInt(count, start + Ceil(b) + overscan * 2)
  {
    CeilBounds(b);
    assert a.Floor <= i && Ceil(b) >= 1;
    if a + b == count as real {
      assert (a.Floor + Ceil(b) + 1) as real > count as real;
    } else if a == i as real {
      assert a.Floor == i;
    }
  }

  /** After `scrollToIndex(i)` item `i` is rendered, for every list and every usual window height. */
  lemma ScrollToIndexShowsItem(v: Viewport, i: int, height: real)
    requires Valid(v) && 0 <= i < v.count && 1.0 <= height < MAX_SCROLL_SIZE
    ensures Contains(RenderedAfterScroll(v, i, height), i)
  {
    NonNegativeProduct(i as real, v.estimate);
    if Total(v) <= height {
      ShortListIsShown(v, i, height);
    } else {
      ItemsEndInside(v, i);
      ScrollRoundTrip(Total(v), Begin(v, i), height);
      ShownAt(v, i, OffsetAfterScroll(Total(v), Begin(v, i), height), height);
    }
  }

  lemma ItemsEndInside(v: Viewport, i: int)
    requires Valid(v) && 0 <= i < v.count
    ensures Begin(v, i) < Total(v)
  {
    NonNegativeProduct((v.count - i - 1) as real, v.estimate);
    assert (v.count - i - 1) as real * v.estimate == Total(v) - Begin(v, i) - v.estimate;
  }

  /** A list no taller than the window is rendered whole. */
  lemma ShortListIsShown(v: Viewport, i: int, height: real)
    requires Valid(v) && 0 <= i < v.count && height >= 1.0 && Total(v) <= height
    ensures Contains(RangeAt(v, 0.0, height), i)
  {
    CeilBounds(height / v.estimate);
    DivideLess(v.count as real, height, v.estimate);
    assert (0.0 / v.estimate).Floor == 0 by {
      assert 0.0 / v.estimate == 0.0;
    }
    assert v.count <= Ceil(height / v.estimate);
  }

  ghost predicate ScrollAlwaysShows(height: real) {
    forall v: Viewport, i: int | Valid(v) && 0 <= i < v.count :: Contains(RenderedAfterScroll(v, i, height), i)
  }

  /**
   The window must be lower than the compressed canvas: at or above 8,000,000 pixels the
   scroll bar has nowhere to go and a longer list cannot be scrolled at all.
   */
  lemma ScrollShowsExactly(height: real)
    requires height >= 1.0
    ensures ScrollAlwaysShows(height) <==> height < MAX_SCROLL_SIZE
  {
    if height < MAX_SCROLL_SIZE {
      forall v: Viewport, i: int | Valid(v) && 0 <= i < v.count
        ensures Contains(RenderedAfterScroll(v, i, height), i)
      {
        ScrollToIndexShowsItem(v, i, height);
      }
    } else {
      var v := Viewport(3, height, 0);
      assert PhysicalRange(Total(v), height) == 0.0;
      assert 0.0 / height == 0.0 && height / height == 1.0;
      assert Ceil(1.0) == 1;
      assert !Contains(RenderedAfterScroll(v, 2, height), 2);
    }
  }

  /** A list that fits the canvas is not compressed: the offset is where the scroll bar is. */
  lemma FittingListIsNotCompressed(total: real, top: real, height: real)
    requires height < total <= MAX_SCROLL_SIZE
    ensures LogicalOffset(total, top, height) == top
  {
    var physical := total - height;
    assert PhysicalRange(total, height) == physical;
    OffsetAsFraction(total, top, height, physical, physical);
    assert top / physical * physical == top;
  }

  /** At the end of the scroll bar the offset is at the end of the list, however it is compressed. */
  lemma EndOfBarIsEndOfList(total: real, height: real)
    requires height < total && height < MAX_SCROLL_SIZE
    ensures LogicalOffset(total, (if total < MAX_SCROLL_SIZE then total else MAX_SCROLL_SIZE) - height, height)
         == total - height
  {
    var physical, logical := PhysicalRange(total, height), total - height;
    var canvas := if total < MAX_SCROLL_SIZE then total else MAX_SCROLL_SIZE;
    assert physical == canvas - height > 0.0;
    OffsetAsFraction(total, canvas - height, height, physical, logical);
    assert physical / physical == 1.0 && 1.0 * logical == logical;
  }

  /** And the last item is rendered there. */
  lemma EndOfBarShowsLastItem(v: Viewport, height: real)
    requires Valid(v) && 1.0 <= height < MAX_SCROLL_SIZE && height < Total(v)
    ensures var canvas := if Total(v) < MAX_SCROLL_SIZE then Total(v) else MAX_SCROLL_SIZE;
            var offset := LogicalOffset(Total(v), canvas - height, height);
            v.count > 0 && Contains(RangeAt(v, offset, height), v.count - 1)
  {
    EndOfBarIsEndOfList(Total(v), height);
    LastShownAtEnd(v, Total(v) - height, height);
  }

  lemma LastShownAtEnd(v: Viewport, offset: real, height: real)
    requires Valid(v) && height >= 1.0 && offset > 0.0 && offset + height == Total(v)
    ensures v.count > 0 && Contains(RangeAt(v, offset, height), v.count - 1)
  {
    var a, b := offset / v.estimate, height / v.estimate;
    EndInUnits(v, offset, height, a, b);
    LastInUnits(a, b, v.count, v.overscan);
  }

  lemma EndInUnits(v: Viewport, offset: real, height: real, a: real, b: real)
    requires Valid(v) && height >= 1.0 && offset > 0.0 && offset + height == Total(v)
    requires a == offset / v.estimate && b == height / v.estimate
    ensures a > 0.0 && b > 0.0 && a + b == v.count as real
  {
    UnitsOf(v, v.count);
    DivideSum(offset, height, v.estimate);
    DivideLess(0.0, height, v.estimate);
    DivideLess(0.0, offset, v.estimate);
  }

  lemma LastInUnits(a: real, b: real, count: nat, overscan: nat)
    requires a > 0.0 && b > 0.0 && a + b == count as real
    ensures var start := MaxInt(0, a.Floor - overscan);
            count > 0 && start <= count - 1 < MinInt(count, start + Ceil(b) + overscan * 2)
  {
    CeilBounds(b);
    assert (a.Floor + Ceil(b) + 1) as real > count as real;
    assert a.Floor < count && Ceil(b) >= 1;
  }

  // ------------------------------------------------------------------ the rows

  /** A row element, told apart by the order in which the renderer made it. */
  datatype Row = Row(serial: nat)

  class Mount {
    const viewport: Viewport
    var mounted: map<int, Row>
    var made: nat

    constructor (viewport: Viewport)
      ensures this.viewport == viewport && mounted == map[] && made == 0
    {
      this.viewport, mounted, made := viewport, map[], 0;
    }

    /**
     `render`: exactly the rows of the range are mounted, rows that stay in the range are
     reused, and the renderer is called once for each row that is new.
     */
    method Render(scrollTop: real, height: real)
      requires Valid(viewport)
      modifies this
      ensures var range := RangeAt(viewport, LogicalOffset(Total(viewport), scrollTop, height), height);
              && (forall i :: i in mounted <==> Contains(range, i))
              && (forall i | i in mounted && i in old(mounted) :: mounted[i] == old(mounted)[i])
              && (forall i | i in mounted && i !in old(mounted) :: old(made) <= mounted[i].serial < made)
              && made == old(made) + |mounted.Keys - old(mounted).Keys|
    {
      var range := RangeAt(viewport, LogicalOffset(Total(viewport), scrollTop, height), height);
      var next, added := RenderRows(mounted, made, range.start, range.end);
      mounted, made := next, made + added;
    }
  }

  /** The rows from `start` up to `end`, each taken over from `mounted` or made since serial `first`. */
  ghost predicate RowsOf(next: map<int, Row>, mounted: map<int, Row>, first: nat, made: nat, start: int, end: int) {
    && (forall i :: i in next <==> start <= i < end)
    && (forall i | i in next && i in mounted :: next[i] == mounted[i])
    && (forall i | i in next && i !in mounted :: first <= next[i].serial < first + made)
  }

  function NewRows(next: map<int, Row>, mounted: map<int, Row>): nat {
    |next.Keys - mounted.Keys|
  }

  method RenderRows(mounted: map<int, Row>, first: nat, start: int, end: int) returns (next: map<int, Row>, made: nat)
    ensures RowsOf(next, mounted, first, made, start, end)
    ensures made == NewRows(next, mounted)
  {
    next, made := map[], 0;
    NothingNew(mounted);
    for index := start to MaxInt(start, end)
      invariant RowsOf(next, mounted, first, made, start, index)
      invariant made == NewRows(next, mounted)
    {
      if index in mounted {
        RowKept(next, mounted, first, made, start, index);
        RowCounted(next, mounted, index, mounted[index]);
        next := next[index := mounted[index]];
      } else {
        RowMade(next, mounted, first, made, start, index);
        RowCounted(next, mounted, index, Row(first + made));
        next, made := next[index := Row(first + made)], made + 1;
      }
    }
  }

  lemma RowKept(next: map<int, Row>, mounted: map<int, Row>, first: nat, made: nat, start: int, index: int)
    requires RowsOf(next, mounted, first, made, start, index) && start <= index && index in mounted
    ensures RowsOf(next[index := mounted[index]], mounted, first, made, start, index + 1)
  {
  }

  lemma RowMade(next: map<int, Row>, mounted: map<int, Row>, first: nat, made: nat, start: int, index: int)
    requires RowsOf(next, mounted, first, made, start, index) && start <= index && index !in mounted
    ensures RowsOf(next[index := Row(first + made)], mounted, first, made + 1, start, index + 1)
  {
  }

  lemma NothingNew(mounted: map<int, Row>)
    ensures NewRows(map[], mounted) == 0
  {
    var none: map<int, Row> := map[];
    assert none.Keys - mounted.Keys == {};
  }

  lemma RowCounted(next: map<int, Row>, mounted: map<int, Row>, k: int, row: Row)
    requires k !in next
    ensures NewRows(next[k := row], mounted) == NewRows(next, mounted) + if k in mounted then 0 else 1
  {
    KeyAdded(next, k, row);
    CountAdded(next.Keys, mounted.Keys, k, next[k := row].Keys);
  }

  lemma KeyAdded<T>(m: map<int, T>, k: int, v: T)
    ensures m[k := v].Keys == m.Keys + {k}
  {
  }

  lemma CountAdded(keys: set<int>, before: set<int>, k: int, grown: set<int>)
    requires k !in keys && grown == keys + {k}
    ensures |grown - before| == |keys - before| + if k in before then 0 else 1
  {
    if k in before {
      assert grown - before == keys - before;
    } else {
      assert grown - before == (keys - before) + {k};
    }
  }
}
