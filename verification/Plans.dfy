/** Predicates on columns, the choice of a plan for each and its cost (src/query/query_engine.cpp,
    src/data/predicate_operator_helper.h). */
module Plans {
  import opened Wrappers
  import opened Rows

  datatype Op = Equal | Unequal | Less | LessEqual | Greater | GreaterEqual | Null | NotNull

  datatype Plan = ConstantEmpty | FullScanCompare | FullScanNullCheck | IndexSearch | PartialIndexScan

  /** A predicate on one column; a comparison with no operand is one with a null. */
  datatype Predicate = Predicate(column: nat, op: Op, operand: Option<int>, plan: Plan, cost: nat)

  predicate Comparison(op: Op) { op != Null && op != NotNull }

  predicate LowerOp(op: Op) { op == Greater || op == GreaterEqual }
  predicate UpperOp(op: Op) { op == Less || op == LessEqual }

  predicate Holds(op: Op, a: int, b: int)
    requires Comparison(op)
  {
    match op
    case Equal => a == b
    case Unequal => a != b
    case Less => a < b
    case LessEqual => a <= b
    case Greater => a > b
    case GreaterEqual => a >= b
  }

  function Reversed(op: Op): Op {
    match op
    case Less => Greater
    case LessEqual => GreaterEqual
    case Greater => Less
    case GreaterEqual => LessEqual
    case _ => op
  }

  /** A comparison read from its right side. */
  lemma ReversedHolds(op: Op, a: int, b: int)
    requires Comparison(op)
    ensures Comparison(Reversed(op)) && Reversed(Reversed(op)) == op
    ensures Holds(Reversed(op), b, a) <==> Holds(op, a, b)
  {
  }

  predicate ColumnsOk(desc: Descriptor, preds: seq<Predicate>) {
    forall i :: 0 <= i < |preds| ==> preds[i].column < |desc|
  }

  /** SQL's reading of a predicate: comparisons are false of nulls. */
  ghost predicate Satisfies(desc: Descriptor, row: Row, p: Predicate)
    requires p.column < |desc| && FitsRow(desc, row)
  {
    var isNull := IsNull(desc, row, p.column);
    match p.op
    case Null => isNull
    case NotNull => !isNull
    case _ => !isNull && p.operand.Some? && Holds(p.op, row.values[p.column], p.operand.value)
  }

  ghost predicate SatisfiesAll(desc: Descriptor, row: Row, preds: seq<Predicate>)
    requires ColumnsOk(desc, preds) && FitsRow(desc, row)
  {
    forall i :: 0 <= i < |preds| ==> Satisfies(desc, row, preds[i])
  }

  /** Comparisons in the list have an operand to compare with. */
  predicate OperandsOk(preds: seq<Predicate>) {
    forall i :: 0 <= i < |preds| && Comparison(preds[i].op) ==> preds[i].operand.Some?
  }

  /** The filter of the source: a loop that leaves at the first predicate that fails, testing the
      negated comparison. */
  method RecordSatisfies(desc: Descriptor, row: Row, preds: seq<Predicate>) returns (b: bool)
    requires ColumnsOk(desc, preds) && FitsRow(desc, row) && OperandsOk(preds)
    ensures b <==> SatisfiesAll(desc, row, preds)
  {
    for i := 0 to |preds|
      invariant forall j :: 0 <= j < i ==> Satisfies(desc, row, preds[j])
    {
      var p := preds[i];
      var isNull := IsNull(desc, row, p.column);
      var v := row.values[p.column];
      match p.op {
        case Equal => if isNull || v != p.operand.value { return false; }
        case Unequal => if isNull || v == p.operand.value { return false; }
        case Less => if isNull || v >= p.operand.value { return false; }
        case LessEqual => if isNull || v > p.operand.value { return false; }
        case Greater => if isNull || v <= p.operand.value { return false; }
        case GreaterEqual => if isNull || v < p.operand.value { return false; }
        case Null => if !isNull { return false; }
        case NotNull => if isNull { return false; }
      }
    }
    return true;
  }

  // ---------------------------------------------------------------- plans and costs

  function ChoosePlan(field: Field, op: Op): Plan {
    match op
    case Equal => if field.indexed then IndexSearch else FullScanCompare
    case Unequal => FullScanCompare
    case Less => if field.indexed then PartialIndexScan else FullScanCompare
    case LessEqual => if field.indexed then PartialIndexScan else FullScanCompare
    case Greater => if field.indexed then PartialIndexScan else FullScanCompare
    case GreaterEqual => if field.indexed then PartialIndexScan else FullScanCompare
    case Null => if field.nullable then FullScanNullCheck else ConstantEmpty
    case NotNull => FullScanNullCheck
  }

  const TABLE_SCAN := 3
  const INDEX_SEARCH := 10
  const PARTIAL_INDEX_SCAN := 2
  const NULL_CHECK := 2
  const EMPTY_RESULT := 1

  function Cost(field: Field, count: nat, plan: Plan): nat {
    match plan
    case ConstantEmpty => EMPTY_RESULT
    case FullScanCompare => TABLE_SCAN * count * field.length
    case FullScanNullCheck => TABLE_SCAN * NULL_CHECK * count
    case IndexSearch => INDEX_SEARCH * field.length
    case PartialIndexScan => (INDEX_SEARCH + PARTIAL_INDEX_SCAN * count) * field.length
  }

  /** A predicate with the plan and cost that the engine gives it. */
  function Planned(desc: Descriptor, count: nat, c: nat, op: Op, operand: Option<int>): Predicate
    requires c < |desc|
  {
    var plan := if Comparison(op) && operand.None? then ConstantEmpty else ChoosePlan(desc[c], op);
    Predicate(c, op, operand, plan, Cost(desc[c], count, plan))
  }

  /** An index is used exactly for comparisons other than inequality, on an indexed column, with a value. */
  lemma PlannedIndex(desc: Descriptor, count: nat, c: nat, op: Op, operand: Option<int>)
    requires c < |desc|
    ensures var p := Planned(desc, count, c, op, operand);
            && p.column == c && p.op == op && p.operand == operand && p.cost == Cost(desc[c], count, p.plan)
            && (p.plan == IndexSearch <==> desc[c].indexed && op == Equal && operand.Some?)
            && (p.plan == PartialIndexScan <==> desc[c].indexed && (LowerOp(op) || UpperOp(op)) && operand.Some?)
            && (p.plan == ConstantEmpty <==>
                  if Comparison(op) then operand.None? else op == Null && !desc[c].nullable)
  {
  }

  /** How plans compare: searching an index is never dearer than scanning it and beats comparing all records from 4
      records on; scanning part of an index does from 11 records on; looking for nulls does in any column of more than
      two bytes, once there is a record. */
  lemma CostsOrdered(field: Field, count: nat)
    requires field.length >= 1
    ensures Cost(field, count, IndexSearch) < Cost(field, count, FullScanCompare) <==> count >= 4
    ensures Cost(field, count, PartialIndexScan) < Cost(field, count, FullScanCompare) <==> count > 10
    ensures Cost(field, count, IndexSearch) <= Cost(field, count, PartialIndexScan)
    ensures Cost(field, count, IndexSearch) == Cost(field, count, PartialIndexScan) <==> count == 0
    ensures Cost(field, count, FullScanNullCheck) < Cost(field, count, FullScanCompare) <==>
              field.length > 2 && count > 0
  {
    var l := field.length;
    ScaledLess(INDEX_SEARCH, TABLE_SCAN * count, l);
    ScaledLess(INDEX_SEARCH + PARTIAL_INDEX_SCAN * count, TABLE_SCAN * count, l);
    ScaledLess(INDEX_SEARCH, INDEX_SEARCH + PARTIAL_INDEX_SCAN * count, l);
    if count > 0 { ScaledLess(NULL_CHECK, l, TABLE_SCAN * count); }
    assert TABLE_SCAN * count * l == l * (TABLE_SCAN * count);
  }

  lemma ScaledLess(a: int, b: int, l: nat)
    requires l >= 1
    ensures a * l < b * l <==> a < b
    ensures a * l == b * l <==> a == b
  {
    assert b * l - a * l == (b - a) * l;
    ScaledSign(b - a, l);
  }

  lemma ScaledSign(d: int, l: nat)
    requires l >= 1
    ensures (d > 0 ==> d * l > 0) && (d == 0 ==> d * l == 0) && (d < 0 ==> d * l < 0)
  {
  }

  /** What a list of predicates handed to the gathering step looks like: planned and sorted by cost. */
  ghost predicate Prepared(desc: Descriptor, count: nat, preds: seq<Predicate>) {
    && (forall i :: 0 <= i < |preds| ==>
          preds[i].column < |desc| && preds[i] == Planned(desc, count, preds[i].column, preds[i].op, preds[i].operand))
    && (forall i, j :: 0 <= i < j < |preds| ==> preds[i].cost <= preds[j].cost)
  }

  lemma PreparedColumns(desc: Descriptor, count: nat, preds: seq<Predicate>)
    requires Prepared(desc, count, preds)
    ensures ColumnsOk(desc, preds)
  {
  }

  predicate LengthsOk(desc: Descriptor) {
    forall c :: 0 <= c < |desc| ==> desc[c].length >= 1
  }

  lemma ProductAtLeast(a: nat, b: nat)
    requires a >= 1 && b >= 1
    ensures a * b >= a && a * b >= b
  {
  }

  // Every other plan costs more than the constant empty result, unless the table is empty.
  lemma EmptyIsCheapest(field: Field, count: nat, plan: Plan)
    requires field.length >= 1
    requires plan == IndexSearch || plan == PartialIndexScan || (count >= 1 && plan != ConstantEmpty)
    ensures Cost(field, count, plan) > EMPTY_RESULT
  {
    if count >= 1 { ProductAtLeast(count, field.length); }
    ProductAtLeast(INDEX_SEARCH + PARTIAL_INDEX_SCAN * count, field.length);
  }

  /** A comparison with a null drives every non-empty table to the empty plan, and an index plan
      is never chosen beside it: wherever operands are looked at, they are there. */
  lemma NullOperandDrives(desc: Descriptor, count: nat, preds: seq<Predicate>)
    requires Prepared(desc, count, preds) && LengthsOk(desc) && preds != []
    ensures OperandsOk(preds) || preds[0].plan == ConstantEmpty ||
        (count == 0 && preds[0].plan in {FullScanCompare, FullScanNullCheck})
  {
    if !OperandsOk(preds) {
      var i :| 0 <= i < |preds| && Comparison(preds[i].op) && preds[i].operand.None?;
      assert preds[i].cost == EMPTY_RESULT;
      if preds[0].plan != ConstantEmpty && (count >= 1 || preds[0].plan in {IndexSearch, PartialIndexScan}) {
        EmptyIsCheapest(desc[preds[0].column], count, preds[0].plan);
      }
    }
  }

  /** The empty plan is right: the predicate that calls for it is false of every row. */
  lemma EmptyPlanRight(desc: Descriptor, count: nat, p: Predicate, row: Row)
    requires p.column < |desc| && p == Planned(desc, count, p.column, p.op, p.operand) && FitsRow(desc, row)
    requires p.plan == ConstantEmpty
    ensures !Satisfies(desc, row, p)
  {
  }

  // ---------------------------------------------------------------- range bounds

  datatype Bounds = Bounds(lower: Option<int>, upper: Option<int>)

  function Narrowed(b: Bounds, p: Predicate): Bounds
    requires Comparison(p.op) ==> p.operand.Some?
  {
    if LowerOp(p.op) && (b.lower.None? || p.operand.value > b.lower.value) then b.(lower := p.operand)
    else if UpperOp(p.op) && (b.upper.None? || p.operand.value < b.upper.value) then b.(upper := p.operand)
    else b
  }

  /** The bounds a range plan scans between: from every range predicate, whatever its column. */
  function MergedBounds(preds: seq<Predicate>): Bounds
    requires OperandsOk(preds)
  {
    if preds == [] then Bounds(None, None) else Narrowed(MergedBounds(preds[..|preds| - 1]), preds[|preds| - 1])
  }

  /** The merged bounds are the greatest of the lower operands and the least of the upper ones, if there are any. */
  lemma {:induction false} MergedExtremes(preds: seq<Predicate>)
    requires OperandsOk(preds)
    ensures var b := MergedBounds(preds).lower;
            && (b.None? <==> forall i :: 0 <= i < |preds| ==> !LowerOp(preds[i].op))
            && (b.Some? ==>
                  && (exists i :: 0 <= i < |preds| && LowerOp(preds[i].op) && preds[i].operand == b)
                  && forall i :: 0 <= i < |preds| && LowerOp(preds[i].op) ==> preds[i].operand.value <= b.value)
    ensures var b := MergedBounds(preds).upper;
            && (b.None? <==> forall i :: 0 <= i < |preds| ==> !UpperOp(preds[i].op))
            && (b.Some? ==>
                  && (exists i :: 0 <= i < |preds| && UpperOp(preds[i].op) && preds[i].operand == b)
                  && forall i :: 0 <= i < |preds| && UpperOp(preds[i].op) ==> b.value <= preds[i].operand.value)
  {
    if preds != [] {
      var rest, p := preds[..|preds| - 1], preds[|preds| - 1];
      MergedExtremes(rest);
      assert preds[|preds| - 1] == p && forall i :: 0 <= i < |rest| ==> preds[i] == rest[i];
    }
  }

  predicate Within(v: int, b: Bounds) {
    (b.lower.Some? ==> b.lower.value <= v) && (b.upper.Some? ==> v <= b.upper.value)
  }

  /** All range predicates are on the column of the first one. */
  predicate OneRangeColumn(preds: seq<Predicate>)
  {
    forall i :: 0 <= i < |preds| && (LowerOp(preds[i].op) || UpperOp(preds[i].op)) ==>
        preds[i].column == preds[0].column
  }

  lemma {:induction false} BoundsAdmit(desc: Descriptor, row: Row, preds: seq<Predicate>, c: nat)
    requires ColumnsOk(desc, preds) && FitsRow(desc, row) && OperandsOk(preds) && c < |desc|
    requires forall i :: 0 <= i < |preds| && (LowerOp(preds[i].op) || UpperOp(preds[i].op)) ==> preds[i].column == c
    requires SatisfiesAll(desc, row, preds)
    ensures Within(row.values[c], MergedBounds(preds))
  {
    if preds != [] {
      var rest := preds[..|preds| - 1];
      forall i | 0 <= i < |rest| ensures Satisfies(desc, row, rest[i]) { assert rest[i] == preds[i]; }
      BoundsAdmit(desc, row, rest, c);
      assert Satisfies(desc, row, preds[|preds| - 1]);
    }
  }

  /** The bounds keep every row that satisfies all predicates. */
  ghost predicate AdmitsAll(desc: Descriptor, preds: seq<Predicate>, c: nat)
    requires ColumnsOk(desc, preds) && OperandsOk(preds) && c < |desc|
  {
    forall row :: FitsRow(desc, row) && SatisfiesAll(desc, row, preds) ==> Within(row.values[c], MergedBounds(preds))
  }

  lemma OneRangeAdmits(desc: Descriptor, preds: seq<Predicate>)
    requires preds != [] && ColumnsOk(desc, preds) && OperandsOk(preds) && OneRangeColumn(preds)
    ensures AdmitsAll(desc, preds, preds[0].column)
  {
    forall row | FitsRow(desc, row) && SatisfiesAll(desc, row, preds)
      ensures Within(row.values[preds[0].column], MergedBounds(preds))
    {
      BoundsAdmit(desc, row, preds, preds[0].column);
    }
  }
}
