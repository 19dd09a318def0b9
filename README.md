# MarixView document grid

MarixView shows a list of documents as a grid. Its view model,
`DocumentModuleViewModel`, takes an ordered list of document names and a row
width, and builds a collection of row view models, each holding cell view
models. It cuts the list into rows of `rowWidth` cells. A short last row is
completed with placeholder cells (`IsNotDummy == false`) so that every row
has the same width.

The project has two modules.

- `layout.dfy`, module `GridLayout`, is the value-level specification.
  - The cell record (`DocumentItem`) and its defaults: a real cell for a document, and a placeholder.
  - `Partition`, the chunk-and-pad layout for a positive width.
  - `Layout`, what the view model builds for any width.
  - The guarantees the grid gives the page: row widths, row count, document order, where and how many placeholders, and cell fields.
- `view_model.dfy`, module `DocumentViewModel`, models the classes.
  - `DocumentViewRow` is `DocumentViewRowViewModel`: a row number and a cell list that grows by appending.
  - `DocumentModule` is `DocumentModuleViewModel`. Its constructor runs the same loop as the C# constructor, padding the last row by the corrected count `PaddingCount` (see Findings): the `index` counter, the `documentRow` reference that is replaced only when `index == 0`, and the collection that rows are appended to.
  - The constructor is proved to build exactly `Layout(documentItems, rowWidth)`. Its rows are new, distinct objects whose row numbers stay 0.
  - The proof goes through a value model of the loop. `Place` is one pass and `Fold` is the state after a list of documents. `Finish` is the padding step (lines 90-100), which the constructor performs by calling `AddLastRow`.
  - `FoldLayout` ties that value model to `Layout`.
  - After a row is added, the loop state keeps referring to that row until the next document arrives, just as `documentRow` does. `IndexTestNeeded` shows that the `index != 0` test at line 90 is what keeps a row that was already added from being added twice.

The code does not reject a `rowWidth` below 1, and the model keeps that
behaviour rather than adding an argument check:

- the row is never sealed inside the loop;
- every document lands in one row;
- the padding count is not positive unless `rowWidth - Count` wraps below int.MinValue, so no padding is added;
- that single row is added (`NonPositiveWidth`, `OneAtWidthZero`).

C# `int` is modelled as a bounded `int`: the constructor requires the width
and the document count to lie in the 32-bit range. The padding count
`rowWidth - Count` is written out in 32-bit wrapping arithmetic in
`DummyCountAsWritten`; see Findings.

## Model

| member | source | states |
|---|---|---|
| GridLayout.Partition | MarixView/MarixView/DocumentViewModel.cs:83-97 | with a positive width every row has exactly `w` cells, and there are no rows exactly when there are no documents |
| GridLayout.Layout | MarixView/MarixView/DocumentViewModel.cs:68-101 | for any width there are no rows exactly when the list is empty; with a positive width every row has `rowWidth` cells |
| GridLayout.PartitionSplit | MarixView/MarixView/DocumentViewModel.cs:83-87 | after a whole number of full rows, the rows of the rest are simply appended: Partition(p + q) == Partition(p) + Partition(q) when \|p\| is a multiple of w |
| GridLayout.PartitionSealRow | MarixView/MarixView/DocumentViewModel.cs:83-87 | sealing a full row after whole rows appends exactly the real cells of those w documents |
| GridLayout.PartitionLastRow | MarixView/MarixView/DocumentViewModel.cs:90-99 | a partial last row is the remaining documents' cells followed by w minus their number placeholders, appended after the full rows |
| GridLayout.PartitionCellAt | MarixView/MarixView/DocumentViewModel.cs:73-97 | cell j of row i is the real cell of document i*w+j when that document exists, and a placeholder otherwise |
| GridLayout.PartitionRowBounds | MarixView/MarixView/DocumentViewModel.cs:73-100 | for a non-empty list, (rows - 1) * w < \|items\| <= rows * w |
| GridLayout.PartitionRowCount | MarixView/MarixView/DocumentViewModel.cs:73-100 | the number of rows is ceil(\|items\| / w) = (\|items\| + w - 1) / w |
| GridLayout.EarlierRowsFull | MarixView/MarixView/DocumentViewModel.cs:80-87 | every position of a row before the last holds a document |
| GridLayout.RealCellsInOrder | MarixView/MarixView/DocumentViewModel.cs:73-81 | reading the real cells row by row gives one cell per document, in input order, each named by its document and marked not dummy |
| GridLayout.PlaceholderTotal | MarixView/MarixView/DocumentViewModel.cs:90-99 | the placeholders fill exactly the cells not taken by documents: rows * w - \|items\| |
| GridLayout.PlaceholderCount | MarixView/MarixView/DocumentViewModel.cs:92-97 | there are w - \|items\| mod w placeholders when the remainder is non-zero, and none when it is zero |
| GridLayout.PlaceholdersOnlyAtEnd | MarixView/MarixView/DocumentViewModel.cs:90-99 | rows before the last hold only real cells; a placeholder occurs only in the last row, and every cell after it is a placeholder too |
| GridLayout.ExactMultiple | MarixView/MarixView/DocumentViewModel.cs:83-90 | when the count is a multiple of w there are exactly \|items\| / w rows, no placeholder and no trailing row |
| GridLayout.CellFields | MarixView/MarixView/DocumentViewModel.cs:80-96 | no cell has an icon, real cells carry a name and placeholders carry none |
| GridLayout.NonPositiveWidth | MarixView/MarixView/DocumentViewModel.cs:83-100 | a width below 1 gives one row holding every document in order, with no placeholder |
| GridLayout.FiveInRowsOfThree | MarixView/MarixView/DocumentViewModel.cs:68-101 | a, b, c, d, e at width 3 give rows [a, b, c] and [d, e, placeholder] |
| GridLayout.SixInRowsOfThree | MarixView/MarixView/DocumentViewModel.cs:68-101 | a to f at width 3 give two full rows and no placeholder |
| GridLayout.OneInRowOfFive | MarixView/MarixView/DocumentViewModel.cs:68-101 | x at width 5 gives one row: x and four placeholders |
| GridLayout.OneAtWidthZero | MarixView/MarixView/DocumentViewModel.cs:83-100 | x at width 0 gives one row holding only x, since nothing rejects the width |
| DocumentViewModel.Sub32 | MarixView/MarixView/DocumentViewModel.cs:92 | C# unchecked int subtraction: the result is in the 32-bit range, equals the difference when that fits, and wraps by 2^32 when it does not |
| DocumentViewModel.PaddingCount | MarixView/MarixView/DocumentViewModel.cs:92-97 | the padding completes a short row to exactly rowWidth cells, and is zero for a row already that wide |
| DocumentViewModel.DummyCountAgrees | MarixView/MarixView/DocumentViewModel.cs:92-97 | wherever rowWidth - Count does not overflow, the code's padding equals PaddingCount |
| DocumentViewModel.DummyCountOverflow | MarixView/MarixView/DocumentViewModel.cs:92-97 | at rowWidth = int.MinValue with one document the code's padding count is int.MaxValue, while PaddingCount is 0 |
| DocumentViewModel.PlaceShaped | MarixView/MarixView/DocumentViewModel.cs:75-87 | one pass of the loop keeps the loop state shaped: fewer than rowWidth documents pending, the added rows are the partition of the documents before them, and the current row holds the rest |
| DocumentViewModel.FoldShaped | MarixView/MarixView/DocumentViewModel.cs:73-88 | after any list of documents the loop state is shaped as above |
| DocumentViewModel.FoldNarrow | MarixView/MarixView/DocumentViewModel.cs:73-88 | with a width below 1 the loop adds no row, the index counts every document, and the current row holds them all |
| DocumentViewModel.FoldLayout | MarixView/MarixView/DocumentViewModel.cs:68-101 | the loop followed by the padding step builds exactly Layout(items, rowWidth), for every width |
| DocumentViewModel.IndexTestNeeded | MarixView/MarixView/DocumentViewModel.cs:90 | when the documents fill whole rows, the current row after the loop is the row added last, with index 0, and omitting the index test would add it a second time |
| DocumentViewModel.DocumentViewRow.constructor | MarixView/MarixView/DocumentViewModel.cs:54-57 | a new row has row number 0 and an empty cell list |
| DocumentViewModel.DocumentViewRow.Add | MarixView/MarixView/DocumentViewModel.cs:80 | the cell is appended at the end and nothing else changes |
| DocumentViewModel.DocumentViewRow.AddPlaceholders | MarixView/MarixView/DocumentViewModel.cs:94-97 | appending count placeholders one at a time leaves the old cells followed by exactly count placeholders |
| DocumentViewModel.AddLastRow | MarixView/MarixView/DocumentViewModel.cs:90-100 | from the loop's final state, the collection becomes Finish of that state; the only row it may add is the current row |
| DocumentViewModel.DocumentModule.constructor | MarixView/MarixView/DocumentViewModel.cs:68-101 | the collection has the rows of Layout(documentItems, rowWidth), cell for cell; the rows are new, pairwise distinct objects with row number 0 |

## Left out

- `ViewModelBase.SetProperty` and the property-change notifications of all three classes are not modelled. `ViewModelBase` is not part of this model, and the notifications only drive UI data binding. Properties are plain fields or values.
- The property setters that replace `DocumentCollection` or `DocumentViewRowCollection` go through `SetProperty` and are not modelled.
- The change notifications of `ObservableCollection` are not modelled; a collection is a sequence that is only appended to.
- Cells are values (`DocumentItem`) rather than objects. Their properties are set once, in the object initializer, and never changed by this code, so cell identity is not modelled.
- `MarixView/MarixView/MarixViewPage.xaml.cs` is not part of this model. It is page glue: template selection, size-change handling on floating-point width and height, and list view setup. The widths it passes (3 and 5) appear only as worked layouts.
- GridLayout.CellFields: document names are non-null strings. A null entry in `documentItems` would give a real cell whose name is null, which the model does not represent.
- The `index++` counter is not given a 32-bit bound. It never exceeds the document count, which is itself at most int.MaxValue.
- DocumentViewModel.DocumentModule.constructor: pads the last row by `PaddingCount` (see Findings), so it differs from the code when `rowWidth - Count` wraps, that is for rowWidth < int.MinValue + \|documentItems\|, where the code keeps appending placeholders.
- DocumentViewModel.AddLastRow: pads by `PaddingCount` rather than the wrapping `rowWidth - Count`, and differs from the code when that subtraction wraps.
- DocumentViewModel.FoldLayout: `Finish` pads by `PaddingCount`, so the equality with Layout describes the corrected code and differs from the code as written when `rowWidth - Count` wraps.
- GridLayout.NonPositiveWidth: one unpadded row is the corrected behaviour; for rowWidth < int.MinValue + \|items\| the code's wrapped padding count is positive and it pads that row.
- A null `documentItems` throws NullReferenceException at line 73; the model's sequence cannot be null, so that case is not represented.
- The `foreach` over an `IList` is modelled as an indexed loop over the sequence. Changes to the list during enumeration are not modelled.

## Findings

| source | as written | input that shows it | evidently intended | confidence | as-written member | corrected member |
|---|---|---|---|---|---|---|
| MarixView/MarixView/DocumentViewModel.cs:92 | `int dummyCount = rowWidth - Count` in unchecked 32-bit arithmetic | rowWidth = int.MinValue (-2147483648) and one document: the difference wraps to 2147483647, so the loop at lines 94-97 appends placeholders to a one-cell row until the collection fails | the padding completes a short row to rowWidth, and is none when the width is below the row's length | not executed; follows from C# unchecked int semantics | DocumentViewModel.DummyCountOverflow | DocumentViewModel.PaddingCount |
