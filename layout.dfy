/**
 The grid layout of the document view: a flat, ordered list of document
 names is cut into rows of a fixed width, and the last row, when it is
 short, is completed with placeholder cells. This module is the value-level
 specification of what DocumentModuleViewModel builds, and the lemmas below
 are the guarantees the grid gives to the page that renders it.
 */
module GridLayout {

  datatype Option<+T> = None | Some(value: T)

  /** One grid cell (DocumentItemViewModel). `name` and `icon` are C# strings
      that may be null (None); `isNotDummy` tells a real document from a
      placeholder that only squares off the last row. */
  datatype DocumentItem = DocumentItem(name: Option<string>, icon: Option<string>, isNotDummy: bool)

  /** A freshly constructed item: both strings unset and, by the constructor,
      a real (not dummy) cell. */
  const NewItem := DocumentItem(None, None, true)

  /** The cell added for one document: a new item whose name is the document. */
  function RealCell(document: string): DocumentItem
  {
    NewItem.(name := Some(document))
  }

  /** The filler cell: a new item with only `isNotDummy` switched off. */
  const Placeholder := NewItem.(isNotDummy := false)

  /** The real cells of a run of documents, in order. */
  function Reals(items: seq<string>): seq<DocumentItem>
  {
    seq(|items|, i requires 0 <= i < |items| => RealCell(items[i]))
  }

  /** `n` placeholder cells. */
  function Padding(n: nat): seq<DocumentItem>
  {
    seq(n, _ => Placeholder)
  }

  /** The rows built for `items` at width `w`: full rows of `w` documents,
      then, if documents remain, one row of them padded out to `w` cells. */
  function Partition(items: seq<string>, w: int): (grid: seq<seq<DocumentItem>>)
    requires w >= 1
    ensures forall i :: 0 <= i < |grid| ==> |grid[i]| == w
    ensures grid == [] <==> items == []
    decreases |items|
  {
    if items == [] then []
    else if |items| <= w then [Reals(items) + Padding(w - |items|)]
    else [Reals(items[..w])] + Partition(items[w..], w)
  }

  /** What the view model builds for any width the caller passes. A width of
      zero or less never seals a row, so all documents end up in a single
      row that is never padded. */
  function Layout(items: seq<string>, rowWidth: int): (grid: seq<seq<DocumentItem>>)
    ensures grid == [] <==> items == []
    ensures rowWidth >= 1 ==> forall i :: 0 <= i < |grid| ==> |grid[i]| == rowWidth
  {
    if rowWidth >= 1 then Partition(items, rowWidth)
    else if items == [] then []
    else [Reals(items)]
  }

  /** The real cells of one row, in order. */
  function RealsOf(row: seq<DocumentItem>): seq<DocumentItem>
  {
    if row == [] then []
    else (if row[0].isNotDummy then [row[0]] else []) + RealsOf(row[1..])
  }

  /** The real cells of a grid, read row by row, left to right. */
  function RealCells(grid: seq<seq<DocumentItem>>): seq<DocumentItem>
  {
    if grid == [] then [] else RealsOf(grid[0]) + RealCells(grid[1..])
  }

  /** The number of placeholder cells in a row. */
  function PlaceholdersOf(row: seq<DocumentItem>): nat
  {
    if row == [] then 0
    else (if row[0].isNotDummy then 0 else 1) + PlaceholdersOf(row[1..])
  }

  /** The number of placeholder cells in a grid. */
  function Placeholders(grid: seq<seq<DocumentItem>>): nat
  {
    if grid == [] then 0 else PlaceholdersOf(grid[0]) + Placeholders(grid[1..])
  }

  // ---------------------------------------------------------------------
  // Facts about rows of cells

  lemma {:induction false} RealsOfAppend(a: seq<DocumentItem>, b: seq<DocumentItem>)
    ensures RealsOf(a + b) == RealsOf(a) + RealsOf(b)
    ensures PlaceholdersOf(a + b) == PlaceholdersOf(a) + PlaceholdersOf(b)
    decreases |a|
  {
    if a != [] {
      assert (a + b)[1..] == a[1..] + b;
      RealsOfAppend(a[1..], b);
    } else {
      assert a + b == b;
    }
  }

  lemma {:induction false} RealsOfReals(items: seq<string>)
    ensures RealsOf(Reals(items)) == Reals(items)
    ensures PlaceholdersOf(Reals(items)) == 0
    decreases |items|
  {
    if items != [] {
      assert Reals(items)[1..] == Reals(items[1..]);
      RealsOfReals(items[1..]);
    }
  }

  lemma {:induction false} RealsOfPadding(n: nat)
    ensures RealsOf(Padding(n)) == []
    ensures PlaceholdersOf(Padding(n)) == n
  {
    if n > 0 {
      assert Padding(n)[1..] == Padding(n - 1);
      RealsOfPadding(n - 1);
    }
  }

  /** One more document adds its cell at the end of the run. */
  lemma RealsSnoc(items: seq<string>, lo: nat, hi: nat)
    requires lo <= hi < |items|
    ensures Reals(items[lo..hi + 1]) == Reals(items[lo..hi]) + [RealCell(items[hi])]
  {
    assert Reals(items[lo..hi + 1]) == Reals(items[lo..hi]) + [RealCell(items[hi])];
  }

  lemma RealsAppend(a: seq<string>, b: seq<string>)
    ensures Reals(a + b) == Reals(a) + Reals(b)
  {
  }

  // ---------------------------------------------------------------------
  // Arithmetic on row offsets

  lemma MulGrows(x: int, w: int)
    requires x >= 1 && w >= 1
    ensures x * w >= w
  {
    var k := x - 1;
    assert x * w == k * w + w;
    assert k * w >= 0;
  }

  /** Euclidean division is determined by its quotient-remainder equation. */
  lemma DivModUnique(a: int, w: int, q: int, r: int)
    requires w >= 1 && 0 <= r < w && a == q * w + r
    ensures a / w == q && a % w == r
  {
    var d, m := a / w, a % w;
    assert a == d * w + m && 0 <= m < w;
    assert (q - d) * w == m - r;
    if q - d >= 1 {
      MulGrows(q - d, w);
    } else if d - q >= 1 {
      MulGrows(d - q, w);
    }
  }

  // ---------------------------------------------------------------------
  // Structure of the partition

  /** Cutting the input after a whole number of rows cuts the grid between
      the same rows: the rows already sealed are never touched again. */
  lemma {:induction false} PartitionSplit(p: seq<string>, q: seq<string>, w: int)
    requires w >= 1 && |p| % w == 0
    ensures Partition(p + q, w) == Partition(p, w) + Partition(q, w)
    decreases |p|
  {
    if p == [] {
      assert p + q == q;
    } else {
      var c := |p| / w;
      assert |p| == c * w;
      MulGrows(c, w);
      var rest := p[w..];
      DivModUnique(|rest|, w, c - 1, 0);
      assert (p + q)[..w] == p[..w];
      assert (p + q)[w..] == rest + q;
      if |p + q| <= w {
        assert q == [] && rest == [];
        assert p + q == p;
      } else {
        PartitionSplit(rest, q, w);
        if |p| == w {
          assert p[..w] == p && rest == [] && rest + q == q;
          FullRow(p, w);
        }
      }
    }
  }

  /** A run of exactly `w` documents is one full row with no padding. */
  lemma FullRow(chunk: seq<string>, w: int)
    requires w >= 1 && |chunk| == w
    ensures Partition(chunk, w) == [Reals(chunk)]
  {
    assert Padding(0) == [];
    assert Reals(chunk) + [] == Reals(chunk);
  }

  /** Sealing a full row of the documents after a whole number of rows
      appends that row, unpadded, to the rows before it. */
  lemma PartitionSealRow(items: seq<string>, sealed: nat, w: int)
    requires w >= 1 && sealed % w == 0 && sealed + w <= |items|
    ensures Partition(items[..sealed + w], w) ==
      Partition(items[..sealed], w) + [Reals(items[sealed..sealed + w])]
  {
    assert items[..sealed + w] == items[..sealed] + items[sealed..sealed + w];
    PartitionSplit(items[..sealed], items[sealed..sealed + w], w);
    FullRow(items[sealed..sealed + w], w);
  }

  /** When fewer than `w` documents remain after a whole number of rows,
      they form the last row, padded with placeholders up to `w` cells. */
  lemma PartitionLastRow(items: seq<string>, sealed: nat, w: int)
    requires w >= 1 && sealed % w == 0 && sealed < |items| < sealed + w
    ensures Partition(items, w) ==
      Partition(items[..sealed], w) + [Reals(items[sealed..]) + Padding(w - (|items| - sealed))]
  {
    assert items[..sealed] + items[sealed..] == items;
    PartitionSplit(items[..sealed], items[sealed..], w);
  }

  /** Cell `j` of row `i` shows document `i * w + j`, or is a placeholder
      when there are not that many documents. */
  lemma {:induction false} PartitionCellAt(items: seq<string>, w: int, i: nat, j: nat)
    requires w >= 1 && i < |Partition(items, w)| && j < w
    ensures i * w + j < |items| ==> Partition(items, w)[i][j] == RealCell(items[i * w + j])
    ensures i * w + j >= |items| ==> Partition(items, w)[i][j] == Placeholder
    decreases |items|
  {
    if |items| > w && i > 0 {
      PartitionCellAt(items[w..], w, i - 1, j);
      assert (i - 1) * w + j + w == i * w + j;
    }
  }

  /** Only the last row can hold fewer than `w` documents: a grid of g rows
      holds more than (g - 1) * w and at most g * w documents. */
  lemma {:induction false} PartitionRowBounds(items: seq<string>, w: int)
    requires w >= 1 && items != []
    ensures (|Partition(items, w)| - 1) * w < |items| <= |Partition(items, w)| * w
    decreases |items|
  {
    if |items| > w {
      PartitionRowBounds(items[w..], w);
      var g := |Partition(items[w..], w)|;
      assert |Partition(items, w)| == g + 1;
      assert (g + 1) * w == g * w + w;
    }
  }

  /** The grid has ceil(|items| / w) rows. */
  lemma PartitionRowCount(items: seq<string>, w: int)
    requires w >= 1
    ensures |Partition(items, w)| == (|items| + w - 1) / w
  {
    var n, g := |items|, |Partition(items, w)|;
    if items == [] {
      DivModUnique(w - 1, w, 0, w - 1);
    } else {
      PartitionRowBounds(items, w);
      assert (g - 1) * w == g * w - w;
      DivModUnique(n + w - 1, w, g, n + w - 1 - g * w);
    }
  }

  /** Rows before the last are full of documents: cell j of row i (with i
      not the last row) always has a document, because i * w + j < (g - 1) * w. */
  lemma EarlierRowsFull(items: seq<string>, w: int, i: nat, j: nat)
    requires w >= 1 && i < |Partition(items, w)| - 1 && j < w
    ensures i * w + j < |items|
  {
    var g := |Partition(items, w)|;
    PartitionRowBounds(items, w);
    MulGrows(g - 1 - i, w);
    assert (g - 1 - i) * w == (g - 1) * w - i * w;
  }

  // ---------------------------------------------------------------------
  // The guarantees of the grid

  /** Reading the real cells row by row, left to right, gives back the
      documents in their original order, one cell per document. */
  lemma {:induction false} RealCellsInOrder(items: seq<string>, w: int)
    requires w >= 1
    ensures RealCells(Partition(items, w)) == Reals(items)
    ensures |RealCells(Partition(items, w))| == |items|
    ensures forall k :: 0 <= k < |items| ==>
      RealCells(Partition(items, w))[k].name == Some(items[k]) && RealCells(Partition(items, w))[k].isNotDummy
    decreases |items|
  {
    var grid: seq<seq<DocumentItem>> := Partition(items, w);
    if items == [] {
    } else if |items| <= w {
      RealsOfAppend(Reals(items), Padding(w - |items|));
      RealsOfReals(items);
      RealsOfPadding(w - |items|);
      assert grid[1..] == [];
      assert RealCells(grid) == RealsOf(grid[0]) + [];
    } else {
      RealCellsInOrder(items[w..], w);
      RealsOfReals(items[..w]);
      assert grid[1..] == Partition(items[w..], w);
      RealsAppend(items[..w], items[w..]);
      assert items[..w] + items[w..] == items;
    }
  }

  /** The placeholders fill exactly the cells not taken by documents. */
  lemma {:induction false} PlaceholderTotal(items: seq<string>, w: int)
    requires w >= 1
    ensures Placeholders(Partition(items, w)) == |Partition(items, w)| * w - |items|
    decreases |items|
  {
    var n := |items|;
    if items == [] {
    } else if n <= w {
      PlaceholdersOneRow(items, w);
    } else {
      PlaceholdersPeel(items, w);
      PlaceholderTotal(items[w..], w);
      var g := |Partition(items[w..], w)|;
      assert (g + 1) * w == g * w + w;
    }
  }

  lemma PlaceholdersOneRow(items: seq<string>, w: int)
    requires w >= 1 && 0 < |items| <= w
    ensures |Partition(items, w)| == 1 && Placeholders(Partition(items, w)) == w - |items|
  {
    var grid: seq<seq<DocumentItem>> := Partition(items, w);
    RealsOfAppend(Reals(items), Padding(w - |items|));
    RealsOfReals(items);
    RealsOfPadding(w - |items|);
    assert grid[1..] == [];
  }

  lemma PlaceholdersPeel(items: seq<string>, w: int)
    requires w >= 1 && |items| > w
    ensures |Partition(items, w)| == |Partition(items[w..], w)| + 1
    ensures Placeholders(Partition(items, w)) == Placeholders(Partition(items[w..], w))
  {
    var grid: seq<seq<DocumentItem>> := Partition(items, w);
    RealsOfReals(items[..w]);
    assert grid[1..] == Partition(items[w..], w);
  }

  /** Placeholders make up exactly the missing part of the last row:
      w - |items| mod w of them when the remainder is not zero, none when it is. */
  lemma PlaceholderCount(items: seq<string>, w: int)
    requires w >= 1
    ensures Placeholders(Partition(items, w)) == if |items| % w == 0 then 0 else w - |items| % w
  {
    var n, g := |items|, |Partition(items, w)|;
    PlaceholderTotal(items, w);
    if items == [] {
      DivModUnique(0, w, 0, 0);
    } else {
      PartitionRowBounds(items, w);
      var missing := g * w - n;
      assert 0 <= missing < w;
      if missing == 0 {
        DivModUnique(n, w, g, 0);
      } else {
        assert n == (g - 1) * w + (w - missing);
        DivModUnique(n, w, g - 1, w - missing);
      }
    }
  }

  /** Every row before the last holds only real cells; placeholders appear
      only in the last row, and there only after all of its real cells. */
  lemma PlaceholdersOnlyAtEnd(items: seq<string>, w: int)
    requires w >= 1
    ensures forall i: int, j: int :: 0 <= i < |Partition(items, w)| - 1 && 0 <= j < w ==>
      Partition(items, w)[i][j].isNotDummy
    ensures forall i: int, j: int, k: int ::
      (0 <= i < |Partition(items, w)| && 0 <= j <= k < w && !Partition(items, w)[i][j].isNotDummy) ==>
        i == |Partition(items, w)| - 1 && !Partition(items, w)[i][k].isNotDummy
  {
    var grid: seq<seq<DocumentItem>> := Partition(items, w);
    forall i: nat, j: nat | i < |grid| - 1 && j < w
      ensures grid[i][j].isNotDummy
    {
      PartitionCellAt(items, w, i, j);
      EarlierRowsFull(items, w, i, j);
    }
    forall i: nat, j: nat, k: nat | i < |grid| && j <= k < w && !grid[i][j].isNotDummy
      ensures i == |grid| - 1 && !grid[i][k].isNotDummy
    {
      PartitionCellAt(items, w, i, j);
      PartitionCellAt(items, w, i, k);
      if i < |grid| - 1 {
        EarlierRowsFull(items, w, i, j);
      }
    }
  }

  /** When the documents fill whole rows there is no placeholder at all and
      no trailing row: exactly |items| / w rows. */
  lemma ExactMultiple(items: seq<string>, w: int)
    requires w >= 1 && |items| % w == 0
    ensures |Partition(items, w)| == |items| / w
    ensures Placeholders(Partition(items, w)) == 0
    ensures forall i: int, j: int :: 0 <= i < |Partition(items, w)| && 0 <= j < w ==>
      Partition(items, w)[i][j].isNotDummy
  {
    var grid: seq<seq<DocumentItem>> := Partition(items, w);
    var n, g := |items|, |grid|;
    assert Placeholders(grid) == 0 && n == g * w by {
      PlaceholderCount(items, w);
      PlaceholderTotal(items, w);
    }
    assert n / w == g by {
      DivModUnique(n, w, g, 0);
    }
    forall i: nat, j: nat | i < g && j < w
      ensures grid[i][j].isNotDummy
    {
      PartitionCellAt(items, w, i, j);
      if i < g - 1 {
        EarlierRowsFull(items, w, i, j);
      } else {
        WithinLastRow(g, w, j);
      }
    }
  }

  lemma WithinLastRow(g: int, w: int, j: int)
    requires g >= 1 && 0 <= j < w
    ensures (g - 1) * w + j < g * w
  {
    assert (g - 1) * w == g * w - w;
  }

  /** Every cell keeps the defaults of a new item except what the view model
      sets: no cell has an icon, real cells carry a name and placeholders
      carry none. */
  lemma CellFields(items: seq<string>, rowWidth: int)
    ensures forall i: int, j: int :: 0 <= i < |Layout(items, rowWidth)| && 0 <= j < |Layout(items, rowWidth)[i]| ==>
      Layout(items, rowWidth)[i][j].icon == None &&
      (Layout(items, rowWidth)[i][j].isNotDummy <==> Layout(items, rowWidth)[i][j].name.Some?)
  {
    var grid: seq<seq<DocumentItem>> := Layout(items, rowWidth);
    forall i: nat, j: nat | i < |grid| && j < |grid[i]|
      ensures grid[i][j].icon == None && (grid[i][j].isNotDummy <==> grid[i][j].name.Some?)
    {
      if rowWidth >= 1 {
        PartitionCellAt(items, rowWidth, i, j);
      }
    }
  }

  /** A width of zero or less (which the view model does not reject) gives
      one row holding every document, in order, with no padding. */
  lemma NonPositiveWidth(items: seq<string>, rowWidth: int)
    requires rowWidth < 1 && items != []
    ensures |Layout(items, rowWidth)| == 1
    ensures RealCells(Layout(items, rowWidth)) == Layout(items, rowWidth)[0] == Reals(items)
    ensures Placeholders(Layout(items, rowWidth)) == 0
  {
    RealsOfReals(items);
    assert Layout(items, rowWidth)[1..] == [];
  }

  // Worked layouts

  /** Five documents in rows of three: one full row, then a row with one
      placeholder. */
  lemma FiveInRowsOfThree()
    ensures Layout(["a", "b", "c", "d", "e"], 3) ==
      [[RealCell("a"), RealCell("b"), RealCell("c")], [RealCell("d"), RealCell("e"), Placeholder]]
  {
    var items := ["a", "b", "c", "d", "e"];
    assert items[..3] == ["a", "b", "c"] && items[3..] == ["d", "e"];
    assert Reals(["a", "b", "c"]) == [RealCell("a"), RealCell("b"), RealCell("c")];
    assert Reals(["d", "e"]) + Padding(1) == [RealCell("d"), RealCell("e"), Placeholder];
    assert Partition(["d", "e"], 3) == [[RealCell("d"), RealCell("e"), Placeholder]];
  }

  /** Six documents in rows of three: two full rows and no placeholder. */
  lemma SixInRowsOfThree()
    ensures Layout(["a", "b", "c", "d", "e", "f"], 3) ==
      [[RealCell("a"), RealCell("b"), RealCell("c")], [RealCell("d"), RealCell("e"), RealCell("f")]]
  {
    var items := ["a", "b", "c", "d", "e", "f"];
    assert items[..3] == ["a", "b", "c"] && items[3..] == ["d", "e", "f"];
    assert Reals(["a", "b", "c"]) == [RealCell("a"), RealCell("b"), RealCell("c")];
    assert Reals(["d", "e", "f"]) + Padding(0) == [RealCell("d"), RealCell("e"), RealCell("f")];
    assert Partition(["d", "e", "f"], 3) == [[RealCell("d"), RealCell("e"), RealCell("f")]];
  }

  /** One document in a row of five: four placeholders complete the row. */
  lemma OneInRowOfFive()
    ensures Layout(["x"], 5) == [[RealCell("x"), Placeholder, Placeholder, Placeholder, Placeholder]]
  {
    assert Reals(["x"]) + Padding(4) == [RealCell("x"), Placeholder, Placeholder, Placeholder, Placeholder];
  }

  /** Width zero is not rejected: the document still gets a one-cell row. */
  lemma OneAtWidthZero()
    ensures Layout(["x"], 0) == [[RealCell("x")]]
  {
    assert Reals(["x"]) == [RealCell("x")];
  }
}
