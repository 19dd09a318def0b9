/**
 The view models of the document grid, in the form the application builds
 them: a row object whose cell list grows by appending, and a module view
 model whose constructor walks the documents once, fills the current row,
 seals it into the collection when it is full, and pads a short last row
 with placeholders. The loop is also written as a function on values
 (Place, Fold, Finish), which is proved to build GridLayout.Layout; the
 constructor is proved to build what that function builds.
 */
module DocumentViewModel {
  import opened GridLayout

  const Int32Min: int := -0x8000_0000
  const Int32Max: int := 0x7fff_ffff

  /** C# `int` subtraction in an unchecked context: the exact difference,
      wrapped back into the 32-bit range. */
  function Sub32(a: int, b: int): (r: int)
    requires Int32Min <= a <= Int32Max && Int32Min <= b <= Int32Max
    ensures Int32Min <= r <= Int32Max
    ensures Int32Min <= a - b <= Int32Max ==> r == a - b
    ensures a - b < Int32Min ==> r == a - b + 0x1_0000_0000
    ensures a - b > Int32Max ==> r == a - b - 0x1_0000_0000
  {
    var d := a - b;
    if d < Int32Min then d + 0x1_0000_0000
    else if d > Int32Max then d - 0x1_0000_0000
    else d
  }

  /** The placeholders the padding loop adds, as the code computes them:
      `rowWidth - count` in 32-bit arithmetic, and none when that is not
      positive. */
  function DummyCountAsWritten(rowWidth: int, count: int): nat
    requires Int32Min <= rowWidth <= Int32Max && 0 <= count <= Int32Max
  {
    var dummyCount := Sub32(rowWidth, count);
    if dummyCount > 0 then dummyCount else 0
  }

  /** The placeholders that complete a row of `count` cells to `rowWidth`:
      the missing cells, or none when the row is already that wide. */
  function PaddingCount(rowWidth: int, count: nat): (k: nat)
    ensures count < rowWidth ==> count + k == rowWidth
    ensures count >= rowWidth ==> k == 0
  {
    if count < rowWidth then rowWidth - count else 0
  }

  /** Wherever the subtraction does not overflow, the code's padding is
      exactly the missing cells. */
  lemma DummyCountAgrees(rowWidth: int, count: int)
    requires Int32Min <= rowWidth <= Int32Max && 0 <= count <= Int32Max
    requires Int32Min <= rowWidth - count
    ensures DummyCountAsWritten(rowWidth, count) == PaddingCount(rowWidth, count)
  {
  }

  /** With `rowWidth` = int.MinValue and one document, `rowWidth - count`
      wraps to int.MaxValue, so the code would append 2147483647
      placeholders to a one-cell row instead of none. */
  lemma DummyCountOverflow()
    ensures DummyCountAsWritten(Int32Min, 1) == Int32Max
    ensures PaddingCount(Int32Min, 1) == 0
  {
  }

  /** The state of the constructor's loop: the cells of the rows added to
      the collection so far, the cells of the current row object, and the
      number of documents placed in the current row. After a row is added
      the current row is still that same row, with index 0. */
  datatype Fill = Fill(rows: seq<seq<DocumentItem>>, row: seq<DocumentItem>, index: int)

  /** One pass of the loop: start a new row when the index is 0, append the
      document's cell, and add the row to the collection once it holds
      `rowWidth` cells. */
  function Place(f: Fill, document: string, rowWidth: int): Fill
  {
    var row := (if f.index == 0 then [] else f.row) + [RealCell(document)];
    if f.index + 1 == rowWidth then Fill(f.rows + [row], row, 0)
    else Fill(f.rows, row, f.index + 1)
  }

  /** The loop's state after the documents `items`, from an empty
      collection. */
  function Fold(items: seq<string>, rowWidth: int): Fill
    decreases |items|
  {
    if items == [] then Fill([], [], 0)
    else Place(Fold(items[..|items| - 1], rowWidth), items[|items| - 1], rowWidth)
  }

  /** After the loop: a current row that was not added is padded with
      placeholders and added. */
  function Finish(f: Fill, rowWidth: int): seq<seq<DocumentItem>>
  {
    if f.index != 0 && |f.row| > 0 then f.rows + [f.row + Padding(PaddingCount(rowWidth, |f.row|))]
    else f.rows
  }

  /** What the loop keeps with a positive width: fewer than `rowWidth`
      documents in the current row, the rows added so far are the partition
      of the documents before them (a whole number of rows of them), and the
      current row holds the rest. */
  ghost predicate Shaped(items: seq<string>, rowWidth: int, f: Fill)
    requires rowWidth >= 1
  {
    var sealed := |items| - f.index;
    && 0 <= f.index < rowWidth && sealed == |f.rows| * rowWidth
    && f.rows == Partition(items[..sealed], rowWidth)
    && (f.index != 0 ==> f.row == Reals(items[sealed..]))
  }

  /** The cell list of the current row after placing `x`. */
  lemma PlaceRow(items: seq<string>, x: string, rowWidth: int, f: Fill)
    requires 0 <= f.index <= |items|
    requires f.index != 0 ==> f.row == Reals(items[|items| - f.index..])
    ensures Place(f, x, rowWidth).row == Reals((items + [x])[|items| - f.index..])
  {
    var s0 := |items| - f.index;
    var next := items + [x];
    RealsSnoc(next, s0, |items|);
    assert next[s0..|items| + 1] == next[s0..];
    assert next[s0..|items|] == items[s0..];
    if f.index == 0 {
      assert Reals(next[s0..|items|]) == [];
    }
  }

  lemma PlaceShaped(items: seq<string>, x: string, rowWidth: int, f: Fill)
    requires rowWidth >= 1 && Shaped(items, rowWidth, f)
    ensures Shaped(items + [x], rowWidth, Place(f, x, rowWidth))
  {
    PlaceRow(items, x, rowWidth, f);
    if f.index + 1 == rowWidth {
      PlaceSeals(items, x, rowWidth, f);
    } else {
      PlaceContinues(items, x, rowWidth, f);
    }
  }

  lemma PlaceSeals(items: seq<string>, x: string, rowWidth: int, f: Fill)
    requires rowWidth >= 1 && f.index + 1 == rowWidth && Shaped(items, rowWidth, f)
    requires Place(f, x, rowWidth).row == Reals((items + [x])[|items| - f.index..])
    ensures Shaped(items + [x], rowWidth, Place(f, x, rowWidth))
  {
    var s0 := |items| - f.index;
    var next := items + [x];
    assert next[..s0] == items[..s0];
    DivModUnique(s0, rowWidth, |f.rows|, 0);
    SealStep(next, s0, rowWidth, f.rows, Place(f, x, rowWidth).row);
    assert next[..|next|] == next;
    assert (|f.rows| + 1) * rowWidth == |f.rows| * rowWidth + rowWidth;
  }

  lemma SealStep(next: seq<string>, s0: nat, w: int, rows: seq<seq<DocumentItem>>, row: seq<DocumentItem>)
    requires w >= 1 && s0 % w == 0 && s0 + w == |next|
    requires rows == Partition(next[..s0], w) && row == Reals(next[s0..])
    ensures rows + [row] == Partition(next, w)
  {
    PartitionSealRow(next, s0, w);
    assert next[..s0 + w] == next;
    assert next[s0..] == next[s0..s0 + w];
  }

  lemma PlaceContinues(items: seq<string>, x: string, rowWidth: int, f: Fill)
    requires rowWidth >= 1 && f.index + 1 != rowWidth && Shaped(items, rowWidth, f)
    requires Place(f, x, rowWidth).row == Reals((items + [x])[|items| - f.index..])
    ensures Shaped(items + [x], rowWidth, Place(f, x, rowWidth))
  {
    var s0 := |items| - f.index;
    var next := items + [x];
    assert next[..s0] == items[..s0];
  }

  lemma {:induction false} FoldShaped(items: seq<string>, rowWidth: int)
    requires rowWidth >= 1
    ensures Shaped(items, rowWidth, Fold(items, rowWidth))
    decreases |items|
  {
    if items == [] {
      assert items[..0] == [];
    } else {
      var init := items[..|items| - 1];
      FoldShaped(init, rowWidth);
      PlaceShaped(init, items[|items| - 1], rowWidth, Fold(init, rowWidth));
      assert init + [items[|items| - 1]] == items;
    }
  }

  /** With no positive width no row is ever added: the current row holds
      every document. */
  lemma {:induction false} FoldNarrow(items: seq<string>, rowWidth: int)
    requires rowWidth < 1
    ensures Fold(items, rowWidth).rows == []
    ensures Fold(items, rowWidth).index == |items|
    ensures Fold(items, rowWidth).row == Reals(items)
    decreases |items|
  {
    if items != [] {
      var init := items[..|items| - 1];
      FoldNarrow(init, rowWidth);
      RealsSnoc(items, 0, |init|);
      assert items[0..|init|] == init && items[0..|init| + 1] == items;
    }
  }

  /** The loop followed by the padding step builds exactly the layout. */
  lemma FoldLayout(items: seq<string>, rowWidth: int)
    ensures Finish(Fold(items, rowWidth), rowWidth) == Layout(items, rowWidth)
  {
    if rowWidth >= 1 {
      FoldShaped(items, rowWidth);
      FinishShaped(items, rowWidth, Fold(items, rowWidth));
    } else {
      FoldNarrow(items, rowWidth);
      if items != [] {
        assert Reals(items) + Padding(0) == Reals(items);
      }
    }
  }

  lemma FinishShaped(items: seq<string>, rowWidth: int, f: Fill)
    requires rowWidth >= 1 && Shaped(items, rowWidth, f)
    ensures Finish(f, rowWidth) == Partition(items, rowWidth)
  {
    if f.index != 0 {
      var sealed := |items| - f.index;
      DivModUnique(sealed, rowWidth, |f.rows|, 0);
      PadStep(items, sealed, rowWidth, f.rows, f.row);
    } else {
      assert Finish(f, rowWidth) == f.rows;
      assert f.rows == Partition(items, rowWidth) by {
        assert items[..|items| - f.index] == items;
      }
    }
  }

  lemma PadStep(items: seq<string>, sealed: nat, w: int, rows: seq<seq<DocumentItem>>, row: seq<DocumentItem>)
    requires w >= 1 && sealed % w == 0 && sealed < |items| < sealed + w
    requires rows == Partition(items[..sealed], w) && row == Reals(items[sealed..])
    ensures rows + [row + Padding(PaddingCount(w, |row|))] == Partition(items, w)
  {
    PartitionLastRow(items, sealed, w);
  }

  /** The end of the constructor with only the count test: a current row
      that was already added is padded and added again. */
  function FinishWithoutIndexTest(f: Fill, rowWidth: int): seq<seq<DocumentItem>>
  {
    if |f.row| > 0 then f.rows + [f.row + Padding(PaddingCount(rowWidth, |f.row|))]
    else f.rows
  }

  /** When the documents fill whole rows, the current row after the loop is
      the row added last, with index 0; the index test is what keeps it from
      being added a second time. */
  lemma {:induction false} IndexTestNeeded(items: seq<string>, rowWidth: int)
    requires rowWidth >= 1 && items != [] && |items| % rowWidth == 0
    ensures Fold(items, rowWidth).index == 0
    ensures Fold(items, rowWidth).rows != [] && Fold(items, rowWidth).row == Fold(items, rowWidth).rows[|Fold(items, rowWidth).rows| - 1]
    ensures |FinishWithoutIndexTest(Fold(items, rowWidth), rowWidth)| == |Layout(items, rowWidth)| + 1
  {
    var f := Fold(items, rowWidth);
    assert f.index == 0 by {
      FoldShaped(items, rowWidth);
      NoRemainder(|items|, f.index, rowWidth, |f.rows|);
    }
    var init := items[..|items| - 1];
    assert f.rows != [] && f.row == f.rows[|f.rows| - 1] by {
      FoldShaped(init, rowWidth);
      assert f == Place(Fold(init, rowWidth), items[|items| - 1], rowWidth);
    }
    assert Layout(items, rowWidth) == f.rows by {
      FoldLayout(items, rowWidth);
    }
  }

  lemma NoRemainder(n: int, index: int, w: int, q: int)
    requires w >= 1 && 0 <= index < w && n - index == q * w && n % w == 0
    ensures index == 0
  {
    DivModUnique(n, w, q, index);
  }

  /** One grid row (DocumentViewRowViewModel): a row number that nothing
      assigns, and the cells appended to it. */
  class DocumentViewRow {
    var rowNumber: int
    var cells: seq<DocumentItem>

    constructor ()
      ensures rowNumber == 0 && cells == []
    {
      rowNumber := 0;
      cells := [];
    }

    /** Appends one cell at the end of the row. */
    method Add(item: DocumentItem)
      modifies this
      ensures cells == old(cells) + [item]
      ensures rowNumber == old(rowNumber)
    {
      cells := cells + [item];
    }

    /** Appends `count` placeholder cells, one at a time. */
    method AddPlaceholders(count: nat)
      modifies this
      ensures cells == old(cells) + Padding(count)
      ensures rowNumber == old(rowNumber)
    {
      for i := 0 to count
        invariant cells == old(cells) + Padding(i)
        invariant rowNumber == old(rowNumber)
      {
        Add(Placeholder);
        assert Padding(i) + [Placeholder] == Padding(i + 1);
      }
    }
  }

  /** No row object occurs twice. */
  predicate Distinct(rows: seq<DocumentViewRow>)
  {
    forall i, j :: 0 <= i < j < |rows| ==> rows[i] != rows[j]
  }

  /** `rows` are distinct row objects, numbered 0, holding the cells `grid`. */
  predicate Holds(rows: seq<DocumentViewRow>, grid: seq<seq<DocumentItem>>)
    reads rows
  {
    && |rows| == |grid|
    && (forall i :: 0 <= i < |rows| ==> rows[i].cells == grid[i] && rows[i].rowNumber == 0)
    && Distinct(rows)
  }

  lemma HoldsAppend(rows: seq<DocumentViewRow>, grid: seq<seq<DocumentItem>>, row: DocumentViewRow)
    requires Holds(rows, grid) && row !in rows && row.rowNumber == 0
    ensures Holds(rows + [row], grid + [row.cells])
  {
  }

  /** The end of the constructor: pads a current row that was not added
      with placeholders and adds it. */
  method AddLastRow(collection: seq<DocumentViewRow>, documentRow: DocumentViewRow, index: int, rowWidth: int, ghost f: Fill)
    returns (rows: seq<DocumentViewRow>)
    requires Holds(collection, f.rows) && documentRow.cells == f.row && documentRow.rowNumber == 0
    requires index == f.index && (index != 0 ==> documentRow !in collection)
    modifies documentRow
    ensures Holds(rows, Finish(f, rowWidth))
    ensures rows == collection || rows == collection + [documentRow]
  {
    rows := collection;
    if index != 0 && |documentRow.cells| > 0 {
      var dummyCount := PaddingCount(rowWidth, |documentRow.cells|);
      documentRow.AddPlaceholders(dummyCount);
      HoldsAppend(collection, f.rows, documentRow);
      rows := collection + [documentRow];
    }
  }

  /** The document grid (DocumentModuleViewModel). */
  class DocumentModule {
    var documentCollection: seq<DocumentViewRow>

    /** Lays `documentItems` out in rows of `rowWidth` cells: the cells of
        the rows are exactly GridLayout.Layout(documentItems, rowWidth), the
        rows are new and distinct objects, and every row number is left at 0. */
    constructor (documentItems: seq<string>, rowWidth: int)
      requires Int32Min <= rowWidth <= Int32Max && |documentItems| <= Int32Max
      ensures |documentCollection| == |Layout(documentItems, rowWidth)|
      ensures forall i :: 0 <= i < |documentCollection| ==>
        documentCollection[i].cells == Layout(documentItems, rowWidth)[i]
      ensures forall r :: r in documentCollection ==> fresh(r) && r.rowNumber == 0
      ensures Distinct(documentCollection)
    {
      var collection: seq<DocumentViewRow> := [];
      var index := 0;
      var documentRow := new DocumentViewRow();
      for k := 0 to |documentItems|
        invariant index == Fold(documentItems[..k], rowWidth).index
        invariant Holds(collection, Fold(documentItems[..k], rowWidth).rows)
        invariant documentRow.cells == Fold(documentItems[..k], rowWidth).row
        invariant index != 0 ==> documentRow !in collection
        // After a row is added, documentRow still refers to that row.
        invariant index == 0 ==> k == 0 || (collection != [] && documentRow == collection[|collection| - 1])
        invariant fresh(documentRow) && documentRow.rowNumber == 0
        invariant forall r :: r in collection ==> fresh(r)
      {
        assert documentItems[..k + 1][..k] == documentItems[..k];
        if index == 0 {
          documentRow := new DocumentViewRow();
        }
        documentRow.Add(RealCell(documentItems[k]));
        index := index + 1;
        if index == rowWidth {
          HoldsAppend(collection, Fold(documentItems[..k], rowWidth).rows, documentRow);
          collection := collection + [documentRow];
          index := 0;
        }
      }
      // With index == 0 the current row is the untouched initial row or the
      // row already added; the index test keeps the latter from being
      // padded and added a second time.
      assert documentItems[..|documentItems|] == documentItems;
      collection := AddLastRow(collection, documentRow, index, rowWidth, Fold(documentItems, rowWidth));
      FoldLayout(documentItems, rowWidth);
      documentCollection := collection;
    }
  }
}
