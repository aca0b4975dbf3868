/** The bits of a record as an insertion assembles them (src/query/query_engine.cpp:25-69): null bits, reference count
    and fields, and when a field reads back as it was given. */
module RecordBits {
  import opened Wrappers
  import opened Rows
  import opened Layout
  import opened Integrity

  const MAX_FIELDS := 32

  type Bits = seq<bool>

  /** Where the bits of field c start; field |desc| is the end of the record. */
  function FieldStart(desc: Descriptor, c: nat): nat
    requires c <= |desc|
  {
    8 * FieldOffset(desc, c)
  }

  /** The bits of field c of a record. */
  function FieldBits(desc: Descriptor, record: Bits, c: nat): Bits
    requires |record| == FieldStart(desc, |desc|) && c < |desc|
  {
    Bounded(desc, c);
    record[FieldStart(desc, c)..FieldStart(desc, c + 1)]
  }

  lemma Bounded(desc: Descriptor, c: nat)
    requires c < |desc|
    ensures FieldStart(desc, 0) <= FieldStart(desc, c) <= FieldStart(desc, c + 1) <= FieldStart(desc, |desc|)
    ensures FieldStart(desc, c + 1) == FieldStart(desc, c) + 8 * desc[c].length
  {
    FieldsInRecord(desc, c, |desc|);
    OffsetsGrow(desc, c + 1, |desc|);
  }

  lemma Apart(desc: Descriptor, c: nat, d: nat)
    requires c < |desc| && d < |desc| && c != d
    ensures FieldStart(desc, c + 1) <= FieldStart(desc, d) || FieldStart(desc, d + 1) <= FieldStart(desc, c)
  {
    if c < d { OffsetsGrow(desc, c + 1, d); } else { OffsetsGrow(desc, d + 1, c); }
  }

  /** The reference count lies behind the null bits, if there are any (src/record/table.cpp:205-214). */
  function CountStart(desc: Descriptor): nat { if NullMapped(desc) then 64 else 0 }

  /** Null bits, reference count and fields lie apart. */
  lemma HeaderApart(desc: Descriptor, c: nat)
    requires |desc| <= MAX_FIELDS && c < |desc|
    ensures NullMapped(desc) ==> c < 64 <= CountStart(desc) && 64 <= FieldStart(desc, 0)
    ensures ReferenceCounted(desc) ==> CountStart(desc) + 32 <= FieldStart(desc, 0)
    ensures FieldStart(desc, 0) == (if NullMapped(desc) then 64 else 0) + (if ReferenceCounted(desc) then 32 else 0)
    ensures FieldStart(desc, 0) <= FieldStart(desc, c) <= FieldStart(desc, |desc|)
    ensures FieldStart(desc, c + 1) == FieldStart(desc, c) + 8 * desc[c].length
  {
    Bounded(desc, c);
  }

  /** Fields with as many bits as their columns have. */
  predicate CellsFit(desc: Descriptor, cols: seq<nat>, cells: seq<Option<Bits>>) {
    && |cols| == |cells| && DifferentColumns(cols)
    && forall i :: 0 <= i < |cols| ==>
         cols[i] < |desc| && (cells[i].Some? ==> |cells[i].value| == 8 * desc[cols[i]].length)
  }

  /** Clearing the null bit of a given field hits bit b, from field i on. */
  ghost predicate Cleared(cols: seq<nat>, cells: seq<Option<Bits>>, i: nat, n: nat, b: int)
    requires n <= |cols| && |cols| == |cells|
  {
    exists j :: i <= j < n && cells[j].Some? && cols[j] == b
  }

  /** Column c is given no value. */
  ghost predicate NotGiven(cols: seq<nat>, cells: seq<Option<Bits>>, c: nat)
    requires |cols| == |cells|
  {
    forall i :: 0 <= i < |cols| && cols[i] == c ==> cells[i].None?
  }

  /** No null bit that is cleared from field i on is a set bit of field i. */
  ghost predicate Spared(desc: Descriptor, cols: seq<nat>, cells: seq<Option<Bits>>, i: nat)
    requires CellsFit(desc, cols, cells) && i < |cols| && cells[i].Some?
  {
    Bounded(desc, cols[i]);
    var start, end := FieldStart(desc, cols[i]), FieldStart(desc, cols[i] + 1);
    forall b :: start <= b < end && Cleared(cols, cells, i, |cols|, b) ==> !cells[i].value[b - start]
  }

  /** Bit b of the record after the first n cells. */
  ghost predicate Assembled(desc: Descriptor, cols: seq<nat>, cells: seq<Option<Bits>>, n: nat, record: Bits)
    requires CellsFit(desc, cols, cells) && n <= |cols|
  {
    && |record| == FieldStart(desc, |desc|)
    && (forall i :: 0 <= i < n && cells[i].Some? ==> Written(desc, cols, cells, i, n, record))
    && (NullMapped(desc) ==> forall c :: 0 <= c < |desc| && c < |record| ==>
          record[c] == !Cleared(cols, cells, 0, n, c))
    && (ReferenceCounted(desc) ==>
          forall b :: CountStart(desc) <= b < CountStart(desc) + 32 && b < |record| ==> !record[b])
    && (forall c: nat :: c < |desc| && !Cleared(cols, cells, 0, n, c) ==> Blank(desc, record, c))
  }

  /** No bit of field c is set. */
  ghost predicate Blank(desc: Descriptor, record: Bits, c: nat)
    requires c < |desc| && |record| == FieldStart(desc, |desc|)
  {
    Bounded(desc, c);
    forall b :: FieldStart(desc, c) <= b < FieldStart(desc, c + 1) ==> !record[b]
  }

  ghost predicate Written(desc: Descriptor, cols: seq<nat>, cells: seq<Option<Bits>>, i: nat, n: nat, record: Bits)
    requires CellsFit(desc, cols, cells) && i < n <= |cols| && cells[i].Some?
    requires |record| == FieldStart(desc, |desc|)
  {
    Bounded(desc, cols[i]);
    var start, end := FieldStart(desc, cols[i]), FieldStart(desc, cols[i] + 1);
    forall b :: start <= b < end ==>
      record[b] == (cells[i].value[b - start] && !Cleared(cols, cells, i, n, b))
  }

  // ---------------------------------------------------------------- one cell after the other

  lemma ClearedNext(cols: seq<nat>, cells: seq<Option<Bits>>, i: nat, n: nat, b: int)
    requires n < |cols| == |cells|
    ensures Cleared(cols, cells, i, n + 1, b) <==>
              Cleared(cols, cells, i, n, b) || (i <= n && cells[n].Some? && cols[n] == b)
  {
  }

  lemma FirstBits(desc: Descriptor, cols: seq<nat>, cells: seq<Option<Bits>>, record: Bits)
    requires CellsFit(desc, cols, cells) && |desc| <= MAX_FIELDS && |record| == FieldStart(desc, |desc|)
    requires forall b :: 0 <= b < |record| ==> record[b] == (NullMapped(desc) && b < MAX_FIELDS)
    ensures Assembled(desc, cols, cells, 0, record)
  {
    forall c | 0 <= c < |desc| ensures Blank(desc, record, c) {
      Bounded(desc, c);
      HeaderApart(desc, c);
      assert NullMapped(desc) ==> FieldStart(desc, c) >= 64;
      forall b | FieldStart(desc, c) <= b < FieldStart(desc, c + 1) ensures !record[b] { }
    }
    assert NullMapped(desc) ==> forall c :: 0 <= c < |desc| && c < |record| ==>
        record[c] == !Cleared(cols, cells, 0, 0, c);
    assert (ReferenceCounted(desc) ==>
          forall b :: CountStart(desc) <= b < CountStart(desc) + 32 && b < |record| ==> !record[b]);
  }

  /** The record after one cell more, bit by bit. */
  ghost predicate CellSet(desc: Descriptor, c: nat, cell: Option<Bits>, was: Bits, record: Bits)
    requires c < |desc| && (cell.Some? ==> |cell.value| == 8 * desc[c].length) && |was| == FieldStart(desc, |desc|)
  {
    Bounded(desc, c);
    var start, end := FieldStart(desc, c), FieldStart(desc, c + 1);
    if cell.None? then record == was
    else
      && |record| == |was|
      && forall b :: 0 <= b < |was| ==>
           record[b] == (b != c && if start <= b < end then cell.value[b - start] else was[b])
  }

  lemma OthersWritten(desc: Descriptor, cols: seq<nat>, cells: seq<Option<Bits>>, i: nat, j: nat, was: Bits,
                      record: Bits)
    requires CellsFit(desc, cols, cells) && j < i < |cols| && |was| == FieldStart(desc, |desc|)
    requires cells[j].Some? && Written(desc, cols, cells, j, i, was)
    requires CellSet(desc, cols[i], cells[i], was, record)
    ensures Written(desc, cols, cells, j, i + 1, record)
  {
    hide FieldStart, Cleared;
    Bounded(desc, cols[j]);
    Bounded(desc, cols[i]);
    Apart(desc, cols[i], cols[j]);
    var start := FieldStart(desc, cols[j]);
    forall b | start <= b < FieldStart(desc, cols[j] + 1)
      ensures record[b] == (cells[j].value[b - start] && !Cleared(cols, cells, j, i + 1, b))
    {
      ClearedNext(cols, cells, j, i, b);
    }
  }

  lemma OneWritten(desc: Descriptor, cols: seq<nat>, cells: seq<Option<Bits>>, i: nat, was: Bits, record: Bits)
    requires CellsFit(desc, cols, cells) && i < |cols| && |was| == FieldStart(desc, |desc|) && cells[i].Some?
    requires CellSet(desc, cols[i], cells[i], was, record)
    ensures Written(desc, cols, cells, i, i + 1, record)
  {
    hide FieldStart;
    Bounded(desc, cols[i]);
    var start := FieldStart(desc, cols[i]);
    forall b | start <= b < FieldStart(desc, cols[i] + 1)
      ensures record[b] == (cells[i].value[b - start] && !Cleared(cols, cells, i, i + 1, b))
    {
      ClearedNext(cols, cells, i, i, b);
    }
  }

  lemma OthersBlank(desc: Descriptor, c: nat, d: nat, cell: Option<Bits>, was: Bits, record: Bits)
    requires c < |desc| && d < |desc| && (cell.Some? ==> c != d) && |was| == FieldStart(desc, |desc|)
    requires (cell.Some? ==> |cell.value| == 8 * desc[c].length)
    requires CellSet(desc, c, cell, was, record) && Blank(desc, was, d)
    ensures Blank(desc, record, d)
  {
    hide FieldStart;
    Bounded(desc, c);
    Bounded(desc, d);
    if c != d { Apart(desc, c, d); }
  }

  lemma HeaderNext(desc: Descriptor, cols: seq<nat>, cells: seq<Option<Bits>>, i: nat, was: Bits, record: Bits)
    requires CellsFit(desc, cols, cells) && |desc| <= MAX_FIELDS && i < |cols|
    requires |was| == FieldStart(desc, |desc|) && CellSet(desc, cols[i], cells[i], was, record)
    ensures forall c :: 0 <= c < |desc| && c < |was| && NullMapped(desc) && was[c] == !Cleared(cols, cells, 0, i, c) ==>
              record[c] == !Cleared(cols, cells, 0, i + 1, c)
    ensures ReferenceCounted(desc) ==>
              forall b :: CountStart(desc) <= b < CountStart(desc) + 32 && b < |was| && !was[b] ==> !record[b]
  {
    hide FieldStart, Cleared;
    Bounded(desc, cols[i]);
    HeaderApart(desc, cols[i]);
    forall c | 0 <= c < |desc| && c < |was| && NullMapped(desc) && was[c] == !Cleared(cols, cells, 0, i, c)
      ensures record[c] == !Cleared(cols, cells, 0, i + 1, c)
    {
      ClearedNext(cols, cells, 0, i, c);
    }
  }

  lemma NextBits(desc: Descriptor, cols: seq<nat>, cells: seq<Option<Bits>>, i: nat, was: Bits, record: Bits)
    requires CellsFit(desc, cols, cells) && |desc| <= MAX_FIELDS && i < |cols| && Assembled(desc, cols, cells, i, was)
    requires CellSet(desc, cols[i], cells[i], was, record)
    ensures Assembled(desc, cols, cells, i + 1, record)
  {
    hide FieldStart, Cleared, Written, Blank, NullMapped, ReferenceCounted, CountStart;
    HeaderNext(desc, cols, cells, i, was, record);
    forall j | 0 <= j < i + 1 && cells[j].Some? ensures Written(desc, cols, cells, j, i + 1, record) {
      if j < i {
        OthersWritten(desc, cols, cells, i, j, was, record);
      } else {
        OneWritten(desc, cols, cells, i, was, record);
      }
    }
    forall c: nat | c < |desc| && !Cleared(cols, cells, 0, i + 1, c)
      ensures Blank(desc, record, c)
    {
      ClearedNext(cols, cells, 0, i, c);
      OthersBlank(desc, cols[i], c, cells[i], was, record);
    }
  }

  /** What the assembled bits say of each field. */
  lemma FieldReads(desc: Descriptor, cols: seq<nat>, cells: seq<Option<Bits>>, record: Bits, i: nat)
    requires CellsFit(desc, cols, cells) && i < |cols| && cells[i].Some? && |record| == FieldStart(desc, |desc|)
    requires Written(desc, cols, cells, i, |cols|, record)
    ensures FieldBits(desc, record, cols[i]) == cells[i].value <==> Spared(desc, cols, cells, i)
  {
    hide FieldStart, Cleared;
    Bounded(desc, cols[i]);
    var start, bits := FieldStart(desc, cols[i]), FieldBits(desc, record, cols[i]);
    assert forall k :: 0 <= k < |bits| ==> bits[k] == record[start + k];
    if bits == cells[i].value {
      forall b | start <= b < FieldStart(desc, cols[i] + 1) && Cleared(cols, cells, i, |cols|, b)
        ensures !cells[i].value[b - start]
      {
        assert bits[b - start] == record[b];
      }
    }
  }

  lemma NullBitIs(desc: Descriptor, cols: seq<nat>, cells: seq<Option<Bits>>, c: nat)
    requires CellsFit(desc, cols, cells)
    ensures !Cleared(cols, cells, 0, |cols|, c) <==> NotGiven(cols, cells, c)
  {
  }

  /** A record of zeros with all null bits set, if it has any. */
  function BlankRecord(desc: Descriptor): (record: Bits)
    ensures |record| == FieldStart(desc, |desc|)
    ensures forall b :: 0 <= b < |record| ==> record[b] == (NullMapped(desc) && b < MAX_FIELDS)
  {
    seq(FieldStart(desc, |desc|), b => NullMapped(desc) && b < MAX_FIELDS)
  }

  /** Writes a field that is given and clears its null bit, where that would be. */
  method SetCell(desc: Descriptor, c: nat, cell: Option<Bits>, was: Bits) returns (record: Bits)
    requires c < |desc| && (cell.Some? ==> |cell.value| == 8 * desc[c].length) && |was| == FieldStart(desc, |desc|)
    ensures CellSet(desc, c, cell, was, record)
  {
    hide FieldStart;
    Bounded(desc, c);
    record := was;
    if cell.Some? {
      var start, end := FieldStart(desc, c), FieldStart(desc, c + 1);
      record := was[..start] + cell.value + was[end..];
      assert forall b :: 0 <= b < |was| ==> record[b] == if start <= b < end then cell.value[b - start] else was[b];
      if c < |record| {  // else the bit lies behind the record
        record := record[c := false];
      }
    }
  }

  lemma CellFits(desc: Descriptor, cols: seq<nat>, cells: seq<Option<Bits>>, i: nat)
    requires CellsFit(desc, cols, cells) && i < |cols|
    ensures |cols| == |cells| && cols[i] < |desc| && (cells[i].Some? ==> |cells[i].value| == 8 * desc[cols[i]].length)
  {
  }

  lemma AssembledLength(desc: Descriptor, cols: seq<nat>, cells: seq<Option<Bits>>, n: nat, record: Bits)
    requires CellsFit(desc, cols, cells) && n <= |cols| && Assembled(desc, cols, cells, n, record)
    ensures |record| == FieldStart(desc, |desc|)
  {
  }

  lemma BitsRead(desc: Descriptor, cols: seq<nat>, cells: seq<Option<Bits>>, record: Bits)
    requires CellsFit(desc, cols, cells) && |desc| <= MAX_FIELDS && Assembled(desc, cols, cells, |cols|, record)
    ensures |record| == FieldStart(desc, |desc|)
    ensures forall i :: 0 <= i < |cols| && cells[i].Some? ==>
              (FieldBits(desc, record, cols[i]) == cells[i].value <==> Spared(desc, cols, cells, i))
    ensures forall c: nat :: c < |desc| && NotGiven(cols, cells, c) ==> Blank(desc, record, c)
    ensures NullMapped(desc) ==>
              |desc| <= |record| && forall c: nat :: c < |desc| ==> (record[c] <==> NotGiven(cols, cells, c))
    ensures ReferenceCounted(desc) ==>
              && CountStart(desc) + 32 <= |record|
              && forall b :: CountStart(desc) <= b < CountStart(desc) + 32 ==> !record[b]
  {
    hide FieldStart, Cleared, Written, Blank, NullMapped, Spared, NotGiven, FieldBits;
    forall i | 0 <= i < |cols| && cells[i].Some?
      ensures FieldBits(desc, record, cols[i]) == cells[i].value <==> Spared(desc, cols, cells, i)
    {
      FieldReads(desc, cols, cells, record, i);
    }
    forall c: nat | c < |desc| && NotGiven(cols, cells, c) ensures Blank(desc, record, c) {
      NullBitIs(desc, cols, cells, c);
    }
    if |desc| > 0 { HeaderApart(desc, |desc| - 1); }
    if NullMapped(desc) {
      assert |desc| <= |record|;
      forall c: nat | c < |desc| ensures record[c] <==> NotGiven(cols, cells, c) {
        NullBitIs(desc, cols, cells, c);
      }
    }
    if ReferenceCounted(desc) {
      var c :| 0 <= c < |desc| && desc[c].primary;
      HeaderApart(desc, c);
    }
  }

  /** Assembles a record: all null bits are set at first, and that of each given field is cleared once the field is
      written, also in records without null bits.  A field reads back as given exactly when none of the bits cleared
      from then on is a set bit of it. */
  method AssembleBits(desc: Descriptor, cols: seq<nat>, cells: seq<Option<Bits>>)
    returns (record: Bits, o: Outcome<Error>)
    requires CellsFit(desc, cols, cells) && |desc| <= MAX_FIELDS
    ensures o.Done? <==> forall i :: 0 <= i < |cols| && cells[i].None? ==> desc[cols[i]].nullable
    ensures !o.Done? ==> o.error == InvalidNullField
    ensures o.Done? ==> |record| == FieldStart(desc, |desc|)
    ensures o.Done? ==> forall i :: 0 <= i < |cols| && cells[i].Some? ==>
              (FieldBits(desc, record, cols[i]) == cells[i].value <==> Spared(desc, cols, cells, i))
    ensures o.Done? ==> forall c: nat :: c < |desc| && NotGiven(cols, cells, c) ==> Blank(desc, record, c)
    ensures o.Done? && NullMapped(desc) ==>
              |desc| <= |record| && forall c: nat :: c < |desc| ==> (record[c] <==> NotGiven(cols, cells, c))
    ensures o.Done? && ReferenceCounted(desc) ==>
              && CountStart(desc) + 32 <= |record|
              && forall b :: CountStart(desc) <= b < CountStart(desc) + 32 ==> !record[b]
  {
    assert |cols| == |cells| && forall i :: 0 <= i < |cols| ==> cols[i] < |desc|;
    hide *;
    record := BlankRecord(desc);
    FirstBits(desc, cols, cells, record);
    for i := 0 to |cols|
      invariant Assembled(desc, cols, cells, i, record)
      invariant forall j :: 0 <= j < i && cells[j].None? ==> desc[cols[j]].nullable
    {
      CellFits(desc, cols, cells, i);
      if cells[i].None? && !desc[cols[i]].nullable {
        return record, Failed(InvalidNullField);
      }
      ghost var was := record;
      AssembledLength(desc, cols, cells, i, was);
      record := SetCell(desc, cols[i], cells[i], record);
      NextBits(desc, cols, cells, i, was, record);
    }
    BitsRead(desc, cols, cells, record);
    o := Done;
  }

  /** Every field reads back as given in a table with null bits or a reference count. */
  lemma HeaderSpares(desc: Descriptor, cols: seq<nat>, cells: seq<Option<Bits>>, i: nat)
    requires CellsFit(desc, cols, cells) && |desc| <= MAX_FIELDS && i < |cols| && cells[i].Some?
    requires NullMapped(desc) || ReferenceCounted(desc)
    ensures Spared(desc, cols, cells, i)
  {
    HeaderApart(desc, cols[i]);
  }

  const NUMBER := Field(4, false, false, false, None, false)

  /** In a table with one number and nothing else, 1 reads back as 0. */
  lemma OneReadsZero()
    ensures CellsFit([NUMBER], [0], [One()]) && !Spared([NUMBER], [0], [One()], 0)
    ensures forall record: Bits :: |record| == FieldStart([NUMBER], 1) ==>
              (Written([NUMBER], [0], [One()], 0, 1, record) ==> Blank([NUMBER], record, 0))
  {
    var desc := [NUMBER];
    assert desc[0] == NUMBER && forall c :: 0 <= c < |desc| ==> desc[c] == NUMBER;
    assert FieldStart(desc, 0) == 0 && FieldStart(desc, 1) == 32;
    assert One().Some? && [0][0] == 0;
    assert Cleared([0], [One()], 0, 1, 0);
    assert One().value[0];
  }

  function One(): Option<Bits> { Some(seq(32, k => k == 0)) }
}
