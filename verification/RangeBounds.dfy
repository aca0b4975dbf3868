/** When the merged bounds of a range plan keep every record that satisfies the predicates: a test on the predicates
    alone (src/query/query_engine.cpp:465-473). */
module RangeBounds {
  import opened Rows
  import opened Plans

  /** A field of a column: its null bit and its value. */
  datatype Cell = Cell(isNull: bool, value: int)

  predicate CellSatisfies(field: Field, cell: Cell, p: Predicate) {
    var isNull := field.nullable && cell.isNull;
    match p.op
    case Null => isNull
    case NotNull => !isNull
    case _ => !isNull && p.operand.Some? && Holds(p.op, cell.value, p.operand.value)
  }

  /** The predicates on column c hold of a field of it. */
  predicate Allowed(desc: Descriptor, preds: seq<Predicate>, c: nat, cell: Cell)
    requires c < |desc|
  {
    forall i :: 0 <= i < |preds| && preds[i].column == c ==> CellSatisfies(desc[c], cell, preds[i])
  }

  lemma RowByCells(desc: Descriptor, preds: seq<Predicate>, row: Row)
    requires ColumnsOk(desc, preds) && FitsRow(desc, row)
    ensures SatisfiesAll(desc, row, preds) <==>
            forall c :: 0 <= c < |desc| ==> Allowed(desc, preds, c, Cell(row.nulls[c], row.values[c]))
  {
    if forall c :: 0 <= c < |desc| ==> Allowed(desc, preds, c, Cell(row.nulls[c], row.values[c])) {
      forall i | 0 <= i < |preds| ensures Satisfies(desc, row, preds[i]) {
        var c := preds[i].column;
        assert CellSatisfies(desc[c], Cell(row.nulls[c], row.values[c]), preds[i]);
      }
    } else {
      var c :| 0 <= c < |desc| && !Allowed(desc, preds, c, Cell(row.nulls[c], row.values[c]));
      var i :| 0 <= i < |preds| && preds[i].column == c
               && !CellSatisfies(desc[c], Cell(row.nulls[c], row.values[c]), preds[i]);
      assert !Satisfies(desc, row, preds[i]);
    }
  }

  // ---------------------------------------------------------------- values worth testing

  /** The smallest and the largest operand, or 0. */
  function Least(preds: seq<Predicate>): int {
    if preds == [] then 0
    else
      var p, m := preds[|preds| - 1], Least(preds[..|preds| - 1]);
      if p.operand.Some? && p.operand.value < m then p.operand.value else m
  }

  function Greatest(preds: seq<Predicate>): int {
    if preds == [] then 0
    else
      var p, m := preds[|preds| - 1], Greatest(preds[..|preds| - 1]);
      if p.operand.Some? && p.operand.value > m then p.operand.value else m
  }

  lemma {:induction false} OperandsWithin(preds: seq<Predicate>, i: nat)
    requires i < |preds|
    ensures preds[i].operand.Some? ==> Least(preds) <= preds[i].operand.value <= Greatest(preds)
  {
    if i < |preds| - 1 {
      assert preds[..|preds| - 1][i] == preds[i];
      OperandsWithin(preds[..|preds| - 1], i);
    }
  }

  lemma {:induction false} BoundsWithin(preds: seq<Predicate>)
    requires OperandsOk(preds)
    ensures var b := MergedBounds(preds);
            && Least(preds) <= Greatest(preds)
            && (b.lower.Some? ==> Least(preds) <= b.lower.value <= Greatest(preds))
            && (b.upper.Some? ==> Least(preds) <= b.upper.value <= Greatest(preds))
  {
    if preds != [] { BoundsWithin(preds[..|preds| - 1]); }
  }

  /** All values below the operands are alike, and so are all above them. */
  function Nearest(preds: seq<Predicate>, v: int): (n: int)
    ensures Least(preds) <= Greatest(preds) ==> Least(preds) - 1 <= n <= Greatest(preds) + 1
  {
    if v < Least(preds) then Least(preds) - 1 else if v > Greatest(preds) then Greatest(preds) + 1 else v
  }

  lemma NearestAlike(desc: Descriptor, preds: seq<Predicate>, c: nat, v: int)
    requires c < |desc| && OperandsOk(preds)
    ensures Allowed(desc, preds, c, Cell(false, Nearest(preds, v))) <==> Allowed(desc, preds, c, Cell(false, v))
    ensures Within(Nearest(preds, v), MergedBounds(preds)) <==> Within(v, MergedBounds(preds))
  {
    BoundsWithin(preds);
    forall i | 0 <= i < |preds|
      ensures CellSatisfies(desc[c], Cell(false, Nearest(preds, v)), preds[i]) <==>
              CellSatisfies(desc[c], Cell(false, v), preds[i])
    {
      OperandsWithin(preds, i);
    }
  }

  // ---------------------------------------------------------------- the test

  /** Some field of column c meets the predicates on it: a null, or a value among or next to the operands. */
  predicate Feasible(desc: Descriptor, preds: seq<Predicate>, c: nat)
    requires c < |desc|
  {
    || Allowed(desc, preds, c, Cell(true, 0))
    || exists v :: Least(preds) - 1 <= v <= Greatest(preds) + 1 && Allowed(desc, preds, c, Cell(false, v))
  }

  /** Some value outside the merged bounds, among or next to the operands, meets the predicates on column c. */
  predicate CutsInto(desc: Descriptor, preds: seq<Predicate>, c: nat)
    requires c < |desc| && OperandsOk(preds)
  {
    exists v :: Least(preds) - 1 <= v <= Greatest(preds) + 1 && Allowed(desc, preds, c, Cell(false, v))
                && !Within(v, MergedBounds(preds))
  }

  lemma FeasibleIff(desc: Descriptor, preds: seq<Predicate>, c: nat)
    requires c < |desc| && OperandsOk(preds)
    ensures Feasible(desc, preds, c) <==> exists cell :: Allowed(desc, preds, c, cell)
  {
    if cell :| Allowed(desc, preds, c, cell) {
      if desc[c].nullable && cell.isNull {
        SameCell(desc, preds, c, cell, Cell(true, 0));
      } else {
        SameCell(desc, preds, c, cell, Cell(false, cell.value));
        NearestAlike(desc, preds, c, cell.value);
        BoundsWithin(preds);
        var n := Nearest(preds, cell.value);
        assert Least(preds) - 1 <= n <= Greatest(preds) + 1;
      }
    }
  }

  // The value of a null does not matter, nor the null bit of a column without nulls.
  lemma SameCell(desc: Descriptor, preds: seq<Predicate>, c: nat, x: Cell, y: Cell)
    requires c < |desc| && (desc[c].nullable && x.isNull <==> desc[c].nullable && y.isNull)
    requires (desc[c].nullable && x.isNull) || x.value == y.value
    ensures Allowed(desc, preds, c, x) <==> Allowed(desc, preds, c, y)
  {
    forall i | 0 <= i < |preds| ensures CellSatisfies(desc[c], x, preds[i]) <==> CellSatisfies(desc[c], y, preds[i]) {
    }
  }

  lemma CutCell(desc: Descriptor, preds: seq<Predicate>, c: nat) returns (cell: Cell)
    requires c < |desc| && OperandsOk(preds) && CutsInto(desc, preds, c)
    ensures Allowed(desc, preds, c, cell) && !Within(cell.value, MergedBounds(preds))
  {
    var v :| Least(preds) - 1 <= v <= Greatest(preds) + 1 && Allowed(desc, preds, c, Cell(false, v))
             && !Within(v, MergedBounds(preds));
    cell := Cell(false, v);
  }

  lemma NearCell(desc: Descriptor, preds: seq<Predicate>, c: nat, p: nat, cell: Cell) returns (v: int)
    requires c < |desc| && OperandsOk(preds) && p < |preds| && preds[p].column == c && Comparison(preds[p].op)
    requires Allowed(desc, preds, c, cell)
    ensures Least(preds) - 1 <= v <= Greatest(preds) + 1 && Allowed(desc, preds, c, Cell(false, v))
    ensures Within(v, MergedBounds(preds)) <==> Within(cell.value, MergedBounds(preds))
  {
    assert CellSatisfies(desc[c], cell, preds[p]);
    SameCell(desc, preds, c, cell, Cell(false, cell.value));
    NearestAlike(desc, preds, c, cell.value);
    BoundsWithin(preds);
    v := Nearest(preds, cell.value);
  }

  lemma NotCut(desc: Descriptor, preds: seq<Predicate>, c: nat, v: int)
    requires c < |desc| && OperandsOk(preds) && !CutsInto(desc, preds, c)
    requires Least(preds) - 1 <= v <= Greatest(preds) + 1 && Allowed(desc, preds, c, Cell(false, v))
    ensures Within(v, MergedBounds(preds))
  {
  }

  /** No record at all satisfies the predicates iff some column allows no field. */
  lemma NoneSatisfiesIff(desc: Descriptor, preds: seq<Predicate>)
    requires ColumnsOk(desc, preds) && OperandsOk(preds)
    ensures (forall row | FitsRow(desc, row) :: !SatisfiesAll(desc, row, preds)) <==>
            exists d :: 0 <= d < |desc| && !Feasible(desc, preds, d)
  {
    hide Feasible, Allowed, SatisfiesAll;
    if d :| 0 <= d < |desc| && !Feasible(desc, preds, d) {
      FeasibleIff(desc, preds, d);
      forall row | FitsRow(desc, row) ensures !SatisfiesAll(desc, row, preds) {
        RowByCells(desc, preds, row);
        assert !Allowed(desc, preds, d, Cell(row.nulls[d], row.values[d]));
      }
    } else if desc == [] {
      RowByCells(desc, preds, Row([], [], 0));
      assert FitsRow(desc, Row([], [], 0));
    } else {
      var row := RowWith(desc, preds, 0, CellOf(desc, preds, 0));
    }
  }

  /** The merged bounds keep every record that satisfies the predicates iff some column allows no field at all, or no
      value that the driving column allows lies outside them; only values among and next to the operands need to be
      tried. */
  lemma AdmitsAllIff(desc: Descriptor, preds: seq<Predicate>, c: nat, p: nat)
    requires ColumnsOk(desc, preds) && OperandsOk(preds) && c < |desc|
    requires p < |preds| && preds[p].column == c && Comparison(preds[p].op)
    ensures AdmitsAll(desc, preds, c) <==>
            !CutsInto(desc, preds, c) || exists d :: 0 <= d < |desc| && !Feasible(desc, preds, d)
  {
    hide Feasible, CutsInto, Allowed, SatisfiesAll;
    NoneSatisfiesIff(desc, preds);
    if !CutsInto(desc, preds, c) {
      forall row | FitsRow(desc, row) && SatisfiesAll(desc, row, preds)
        ensures Within(row.values[c], MergedBounds(preds))
      {
        RowByCells(desc, preds, row);
        var cell := Cell(row.nulls[c], row.values[c]);
        var v := NearCell(desc, preds, c, p, cell);
        NotCut(desc, preds, c, v);
      }
    } else if forall d :: 0 <= d < |desc| ==> Feasible(desc, preds, d) {
      var cell := CutCell(desc, preds, c);
      var row := RowWith(desc, preds, c, cell);
      assert !Within(row.values[c], MergedBounds(preds));
    }
  }

  lemma RowWith(desc: Descriptor, preds: seq<Predicate>, c: nat, cell: Cell) returns (row: Row)
    requires ColumnsOk(desc, preds) && OperandsOk(preds) && c < |desc| && Allowed(desc, preds, c, cell)
    requires forall d :: 0 <= d < |desc| ==> Feasible(desc, preds, d)
    ensures FitsRow(desc, row) && SatisfiesAll(desc, row, preds) && row.values[c] == cell.value
  {
    var cells := seq(|desc|, d requires 0 <= d < |desc| => if d == c then cell else CellOf(desc, preds, d));
    row := Row(seq(|desc|, d requires 0 <= d < |desc| => cells[d].isNull),
               seq(|desc|, d requires 0 <= d < |desc| => cells[d].value), 0);
    forall d | 0 <= d < |desc| ensures Allowed(desc, preds, d, Cell(row.nulls[d], row.values[d])) {
      assert Cell(row.nulls[d], row.values[d]) == cells[d];
    }
    RowByCells(desc, preds, row);
  }

  ghost function CellOf(desc: Descriptor, preds: seq<Predicate>, c: nat): (cell: Cell)
    requires c < |desc| && OperandsOk(preds) && Feasible(desc, preds, c)
    ensures Allowed(desc, preds, c, cell)
  {
    FeasibleIff(desc, preds, c);
    var cell :| Allowed(desc, preds, c, cell); cell
  }
}
