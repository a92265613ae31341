/** Columns of cells, stored as a sequence of blocks of cells of one type. */
module ColumnStore {
  datatype ElementType = EmptyType | BooleanType | NumericType | StringType | FormulaType

  /** What a calculated formula cell holds. */
  datatype ResultType = BooleanResult | ValueResult | StringResult | ErrorResult | MatrixResult

  datatype CellKind = NoCell | BooleanCell | NumericCell | StringCell | FormulaCell(result: ResultType)

  /** Formula blocks hold the results of their cells. */
  datatype Block = Block(cellType: ElementType, size: nat, results: seq<ResultType>) {
    predicate Valid() {
      size > 0 && |results| == if cellType.FormulaType? then size else 0
    }

    function Cell(offset: nat): CellKind
      requires Valid() && offset < size
    {
      match cellType
      case EmptyType => NoCell
      case BooleanType => BooleanCell
      case NumericType => NumericCell
      case StringType => StringCell
      case FormulaType => FormulaCell(results[offset])
    }
  }

  type Column = seq<Block>

  predicate AllValid(c: Column) {
    forall k :: 0 <= k < |c| ==> c[k].Valid()
  }

  /** Neighbouring blocks differ in type: blocks of one type are merged. */
  predicate Merged(c: Column) {
    forall j, k :: 0 <= j && k == j + 1 < |c| ==> c[j].cellType != c[k].cellType
  }

  predicate IsColumn(c: Column) {
    AllValid(c) && Merged(c)
  }

  /** The number of rows before a block. */
  function Start(c: Column, k: nat): nat
    requires k <= |c|
  {
    if k == 0 then 0 else Start(c, k - 1) + c[k - 1].size
  }

  function Size(c: Column): nat {
    Start(c, |c|)
  }

  lemma {:induction false} StartGrows(c: Column, j: nat, k: nat)
    requires j <= k <= |c|
    ensures Start(c, j) <= Start(c, k)
    decreases k
  {
    if j == k {
    } else {
      StartGrows(c, j, k - 1);
    }
  }

  /** The block of a row, and the offset of the row in it. */
  function FindFrom(c: Column, k: nat, offset: nat): (p: (nat, nat))
    requires k <= |c| && Start(c, k) + offset < Size(c)
    ensures p.0 < |c| && p.1 < c[p.0].size && Start(c, p.0) + p.1 == Start(c, k) + offset
    decreases |c| - k
  {
    if offset < c[k].size then (k, offset) else FindFrom(c, k + 1, offset - c[k].size)
  }

  function Position(c: Column, row: nat): (p: (nat, nat))
    requires row < Size(c)
    ensures p.0 < |c| && p.1 < c[p.0].size && Start(c, p.0) + p.1 == row
  {
    FindFrom(c, 0, row)
  }

  /** The cell-by-cell view of a column. */
  function CellAt(c: Column, row: nat): CellKind
    requires AllValid(c) && row < Size(c)
  {
    var p := Position(c, row);
    c[p.0].Cell(p.1)
  }

  /** Every row is in exactly one block. */
  lemma OneBlock(c: Column, k: nat, o: nat, p: nat, q: nat)
    requires k < |c| && o < c[k].size && p < |c| && q < c[p].size && Start(c, k) + o == Start(c, p) + q
    ensures k == p && o == q
  {
    if p < k {
      StartGrows(c, p + 1, k);
    } else if k < p {
      StartGrows(c, k + 1, p);
    }
  }

  lemma PositionUnique(c: Column, k: nat, offset: nat)
    requires k < |c| && offset < c[k].size
    ensures Start(c, k) + offset < Size(c) && Position(c, Start(c, k) + offset) == (k, offset)
  {
    StartGrows(c, k + 1, |c|);
    var (p, q) := Position(c, Start(c, k) + offset);
    OneBlock(c, k, offset, p, q);
  }

  lemma CellOfBlock(c: Column, k: nat, offset: nat)
    requires AllValid(c) && k < |c| && offset < c[k].size
    ensures Start(c, k) + offset < Size(c) && CellAt(c, Start(c, k) + offset) == c[k].Cell(offset)
  {
    assert Position(c, Start(c, k) + offset) == (k, offset) by {
      PositionUnique(c, k, offset);
    }
    StartGrows(c, k + 1, |c|);
  }

  /** The kind of a cell is that of its block. */
  lemma CellHasType(c: Column, k: nat, offset: nat)
    requires AllValid(c) && k < |c| && offset < c[k].size
    ensures Start(c, k) + offset < Size(c)
    ensures var cell := CellAt(c, Start(c, k) + offset);
      && (cell == NoCell <==> c[k].cellType.EmptyType?)
      && (cell == BooleanCell <==> c[k].cellType.BooleanType?)
      && (cell == NumericCell <==> c[k].cellType.NumericType?)
      && (cell == StringCell <==> c[k].cellType.StringType?)
      && (c[k].cellType.FormulaType? ==> cell == FormulaCell(c[k].results[offset]))
  {
    CellOfBlock(c, k, offset);
  }
}
