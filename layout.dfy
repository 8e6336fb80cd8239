/** The grid layout: writes row-major positions, in place, into the
    placeable items of a container. */
module Layout {
  import opened Arith
  import opened Geometry
  import opened Containers

  /** What the layout is given: the size of the grid area, the size of one
      item, and the number of columns (`horizontal`) and rows (`vertical`). */
  datatype GridConfig = GridConfig(gridSize: Rect, itemSize: Rect, repetitions: DirectionalCount)

  /** How many items get a position: every cell is filled while items last;
      surplus items are left alone. */
  function PlacedCount(items: nat, repetitions: DirectionalCount): (r: nat)
    ensures r <= items && r <= repetitions.horizontal * repetitions.vertical
    ensures r == items || r == repetitions.horizontal * repetitions.vertical
    ensures repetitions.horizontal == 0 || repetitions.vertical == 0 ==> r == 0
  {
    var cells := repetitions.horizontal * repetitions.vertical;
    if items < cells then items else cells
  }

  /** The position of the item at row-major index `i`: its column `i mod
      columns` times the item width, its row `i div columns` times the item
      height. The grid area's own size plays no part. */
  function CellPosition(i: nat, itemSize: Rect, columns: nat): Vec2
    requires columns > 0
  {
    Vec2((i % columns) * itemSize.width, (i / columns) * itemSize.height)
  }

  /** The grid starts at the origin and grows right and down: with a
      non-negative item size no position is negative, the first row lies on
      the top edge, and the first column on the left edge. */
  lemma CellPositionEdges(i: nat, itemSize: Rect, columns: nat)
    requires columns > 0
    ensures itemSize.width >= 0 && itemSize.height >= 0 ==>
      0 <= CellPosition(i, itemSize, columns).x && 0 <= CellPosition(i, itemSize, columns).y
    ensures i < columns ==> CellPosition(i, itemSize, columns) == Vec2(i * itemSize.width, 0)
    ensures i % columns == 0 ==> CellPosition(i, itemSize, columns).x == 0
  {
    if i < columns {
      DivModUnique(i, columns, 0, i);
    }
    if itemSize.width >= 0 && itemSize.height >= 0 {
      MulMonotone(0, i % columns, itemSize.width);
      MulMonotone(0, i / columns, itemSize.height);
    }
  }

  /** Every cell of a `columns` by `rows` grid is the position of exactly the
      index `row * columns + col`, and that index is within the grid. */
  lemma GridCovers(itemSize: Rect, columns: nat, rows: nat, col: nat, row: nat)
    requires col < columns && row < rows
    ensures row * columns + col < columns * rows
    ensures CellPosition(row * columns + col, itemSize, columns) == Vec2(col * itemSize.width, row * itemSize.height)
  {
    RowMajor(row, col, columns, rows);
  }

  /** Every index within the grid lands on a cell of the grid. */
  lemma CellInGrid(itemSize: Rect, columns: nat, rows: nat, i: nat)
    requires i < columns * rows
    ensures columns > 0
    ensures exists col: nat, row: nat ::
      (col < columns && row < rows &&
       CellPosition(i, itemSize, columns) == Vec2(col * itemSize.width, row * itemSize.height))
  {
    RowMajorInverse(i, columns, rows);
    var col: nat, row: nat := i % columns, i / columns;
    assert CellPosition(i, itemSize, columns) == Vec2(col * itemSize.width, row * itemSize.height);
  }

  /** With a non-empty item size, distinct indices get distinct positions:
      no two items are stacked on one cell. */
  lemma CellsDistinct(itemSize: Rect, columns: nat, i: nat, j: nat)
    requires columns > 0 && itemSize.width > 0 && itemSize.height > 0
    requires i != j
    ensures CellPosition(i, itemSize, columns) != CellPosition(j, itemSize, columns)
  {
    assert i == (i / columns) * columns + i % columns;
    assert j == (j / columns) * columns + j % columns;
    if i % columns != j % columns {
      MulInjective(i % columns, j % columns, itemSize.width);
    } else {
      MulInjective(i / columns, j / columns, itemSize.height);
    }
  }

  /** `items[k]` does not occur again among the entries after it, up to `n`. */
  ghost predicate LastUpTo(items: seq<Positionable>, k: int, n: int)
    requires 0 <= k < n <= |items|
  {
    forall j :: k < j < n ==> items[j] != items[k]
  }

  /** Overwrites, in place, the position of each of the first
      `PlacedCount` items with its row-major cell. An item held at two indices
      keeps the cell of the later one; items past the grid are untouched. */
  method LayoutGrid(c: Container<Positionable>, config: GridConfig)
    modifies c.items
    ensures c.items == old(c.items)
    ensures var n := PlacedCount(|c.items|, config.repetitions);
      forall i :: 0 <= i < n && LastUpTo(c.items, i, n) ==>
        config.repetitions.horizontal > 0 &&
        c.items[i].position == CellPosition(i, config.itemSize, config.repetitions.horizontal)
    ensures var n := PlacedCount(|c.items|, config.repetitions);
      forall o :: o in c.items && o !in c.items[..n] ==> o.position == old(o.position)
  {
    var items := c.items;
    var columns := config.repetitions.horizontal;
    var n := PlacedCount(|items|, config.repetitions);
    for i := 0 to n
      invariant n == 0 || columns > 0
      invariant forall k :: 0 <= k < i && LastUpTo(items, k, i) ==>
        items[k].position == CellPosition(k, config.itemSize, columns)
      invariant forall o :: o in items && o !in items[..i] ==> o.position == old(o.position)
    {
      items[i].position := CellPosition(i, config.itemSize, columns);
      assert items[..i + 1] == items[..i] + [items[i]];
    }
  }
}
