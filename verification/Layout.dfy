/** Where entries and records lie in a page, and fields in a record: the arithmetic of src/index/index_manager.cpp,
    src/record/record_manager.cpp and src/parsing/parser.cpp. */
module Layout {
  import opened Sizes
  import opened Rows

  const INDEX_HEADER := 8       // key count and leaf flag, aligned
  const SLOT_BYTES := 8         // a record offset, child pointer or link
  const DATA_HEADER := 72       // record count, free link and a 512-bit slot bitmap

  /** The key length stored in an index header: values of a non-unique index are preceded by a
      record offset. */
  function KeyLength(dataLength: nat, unique: bool): nat {
    if unique then dataLength else dataLength + SLOT_BYTES
  }

  /** Entries per index node, rounded down to an even number; 0 means the entry is oversized. */
  function NodeCapacity(keyLength: nat): nat {
    (PAGE_SIZE - INDEX_HEADER - 8) / (keyLength + SLOT_BYTES) / 2 * 2
  }

  function PointerPosition(i: nat, keyLength: nat): nat { i * (SLOT_BYTES + keyLength) }

  function KeyPosition(i: nat, keyLength: nat): nat { PointerPosition(i, keyLength) + SLOT_BYTES }

  lemma DivisionBound(a: nat, b: nat)
    requires b > 0
    ensures a / b * b <= a < (a / b + 1) * b
  {
  }

  lemma ProductGrows(a: nat, b: nat, c: nat)
    requires a <= b
    ensures a * c <= b * c
  {
  }

  /** The capacity is the largest even number of entries that leaves room for the trailing slot
      and the alignment; it is at least 2 exactly when two entries fit. */
  lemma CapacityLargest(keyLength: nat)
    ensures NodeCapacity(keyLength) % 2 == 0
    ensures NodeCapacity(keyLength) * (keyLength + SLOT_BYTES) <= PAGE_SIZE - INDEX_HEADER - 8
    ensures (NodeCapacity(keyLength) + 2) * (keyLength + SLOT_BYTES) > PAGE_SIZE - INDEX_HEADER - 8
    ensures NodeCapacity(keyLength) >= 2 <==> 2 * (keyLength + SLOT_BYTES) <= PAGE_SIZE - INDEX_HEADER - 8
    ensures NodeCapacity(keyLength) != 0 ==> NodeCapacity(keyLength) >= 2
  {
    var e := keyLength + SLOT_BYTES;
    var q := (PAGE_SIZE - INDEX_HEADER - 8) / e;
    DivisionBound(PAGE_SIZE - INDEX_HEADER - 8, e);
    var c := q / 2 * 2;
    assert c <= q <= c + 1;
    ProductGrows(c, q, e);
    ProductGrows(q + 1, c + 2, e);
    if c >= 2 { ProductGrows(2, c, e); }
  }

  /** Every entry of a node, its key included, and the trailing slot of a full node lie inside
      the page. */
  lemma EntriesInPage(i: nat, keyLength: nat)
    requires i <= NodeCapacity(keyLength)
    ensures INDEX_HEADER + PointerPosition(i, keyLength) + SLOT_BYTES <= PAGE_SIZE
    ensures i < NodeCapacity(keyLength) ==> INDEX_HEADER + KeyPosition(i, keyLength) + keyLength <= PAGE_SIZE
  {
    hide NodeCapacity;
    CapacityLargest(keyLength);
    ProductGrows(i, NodeCapacity(keyLength), SLOT_BYTES + keyLength);
    if i < NodeCapacity(keyLength) { ProductGrows(i + 1, NodeCapacity(keyLength), SLOT_BYTES + keyLength); }
  }

  /** A block move of the entries of a node from position i on, with the trailing slot, to
      position j stays inside both pages whenever the entries fit behind j: what the buffers of
      module IndexNodes demand of every move in insertions, splits and deletions. */
  lemma MovesInPage(i: nat, count: nat, j: nat, keyLength: nat)
    requires i <= count <= NodeCapacity(keyLength) && j + (count - i) <= NodeCapacity(keyLength)
    ensures PointerPosition(i, keyLength) <= KeyPosition(count, keyLength)
    ensures var length := KeyPosition(count, keyLength) - PointerPosition(i, keyLength);
            && INDEX_HEADER + PointerPosition(i, keyLength) + length <= PAGE_SIZE
            && INDEX_HEADER + PointerPosition(j, keyLength) + length ==
                 INDEX_HEADER + PointerPosition(j + (count - i), keyLength) + SLOT_BYTES
            && INDEX_HEADER + PointerPosition(j, keyLength) + length <= PAGE_SIZE
  {
    hide NodeCapacity;
    var e := SLOT_BYTES + keyLength;
    ProductGrows(i, count, e);
    EntriesInPage(count, keyLength);
    EntriesInPage(j + (count - i), keyLength);
    assert (j + (count - i)) * e == j * e + count * e - i * e;
  }

  /** Record slots per data page; 0 means the record is oversized. */
  function SlotsPerPage(recordLength: nat): nat
    requires recordLength > 0
  {
    var fit := (PAGE_SIZE - DATA_HEADER - 8) / recordLength;
    if fit < MAX_SLOTS then fit else MAX_SLOTS
  }

  /** Every slot has its bit in the bitmap and its bytes inside the page, apart from those of
      every other slot; a page has two slots exactly when two records fit. */
  lemma SlotsInPage(recordLength: nat, s: nat, t: nat)
    requires recordLength > 0 && s < t < SlotsPerPage(recordLength)
    ensures t < MAX_SLOTS
    ensures recordLength * s + recordLength <= recordLength * t
    ensures DATA_HEADER + recordLength * t + recordLength <= PAGE_SIZE
  {
    var fit := (PAGE_SIZE - DATA_HEADER - 8) / recordLength;
    DivisionBound(PAGE_SIZE - DATA_HEADER - 8, recordLength);
    ProductGrows(t + 1, fit, recordLength);
    ProductGrows(s + 1, t, recordLength);
  }

  lemma SlotsIff(recordLength: nat, n: nat)
    requires recordLength > 0 && n <= MAX_SLOTS
    ensures n <= SlotsPerPage(recordLength) <==> n * recordLength <= PAGE_SIZE - DATA_HEADER - 8
  {
    var fit := (PAGE_SIZE - DATA_HEADER - 8) / recordLength;
    DivisionBound(PAGE_SIZE - DATA_HEADER - 8, recordLength);
    if n <= fit {
      ProductGrows(n, fit, recordLength);
    } else {
      ProductGrows(fit + 1, n, recordLength);
    }
  }

  // ---------------------------------------------------------------- records

  const NULL_BITMAP := 8        // one bit for each of at most 32 fields, in a 64-bit word
  const REFERENCE_COUNT := 4

  /** Where field c of a record starts: behind the null bits, if a field can be null, the reference count, if there is a
      primary key, and the fields before. */
  function FieldOffset(desc: Descriptor, c: nat): nat
    requires c <= |desc|
  {
    if c == 0 then
      (if NullMapped(desc) then NULL_BITMAP else 0) + (if ReferenceCounted(desc) then REFERENCE_COUNT else 0)
    else FieldOffset(desc, c - 1) + desc[c - 1].length
  }

  function RecordLength(desc: Descriptor): nat { FieldOffset(desc, |desc|) }

  /** Fields lie one behind the other, behind what precedes them, and inside the record. */
  lemma {:induction false} FieldsInRecord(desc: Descriptor, c: nat, d: nat)
    requires c < d <= |desc|
    ensures FieldOffset(desc, 0) <= FieldOffset(desc, c)
    ensures FieldOffset(desc, c) + desc[c].length <= FieldOffset(desc, d) <= RecordLength(desc)
    decreases c + |desc| - d
  {
    if c > 0 { FieldsInRecord(desc, c - 1, d); }
    if d < |desc| { FieldsInRecord(desc, c, d + 1); }
    OffsetsGrow(desc, c + 1, d);
  }

  lemma {:induction false} OffsetsGrow(desc: Descriptor, c: nat, d: nat)
    requires c <= d <= |desc|
    ensures FieldOffset(desc, c) <= FieldOffset(desc, d)
    decreases d
  {
    if c < d { OffsetsGrow(desc, c, d - 1); }
  }

  /** The loop over the declared fields. */
  method LayOutRecord(desc: Descriptor) returns (offsets: seq<nat>, length: nat)
    ensures |offsets| == |desc| && forall c :: 0 <= c < |desc| ==> offsets[c] == FieldOffset(desc, c)
    ensures length == RecordLength(desc)
  {
    offsets, length := [], 0;
    if NullMapped(desc) {
      length := length + NULL_BITMAP;
    }
    if ReferenceCounted(desc) {
      length := length + REFERENCE_COUNT;
    }
    for i := 0 to |desc|
      invariant |offsets| == i && length == FieldOffset(desc, i)
      invariant forall c :: 0 <= c < i ==> offsets[c] == FieldOffset(desc, c)
    {
      offsets := offsets + [length];
      length := length + desc[i].length;
    }
  }
}
