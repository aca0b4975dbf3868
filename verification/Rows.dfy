/** Records and their descriptors (src/data). */
module Rows {
  import opened Wrappers

  /** A record: null bits, field values and, in tables with a primary key, a reference count.
      A value is the rank of the field's bytes in the order of its type (module KeyOrder). */
  datatype Row = Row(nulls: seq<bool>, values: seq<int>, refs: nat)

  /** A referenced primary key column. */
  datatype ForeignKey = ForeignKey(table: string, column: nat)

  datatype Field = Field(length: nat, nullable: bool, unique: bool, primary: bool, foreign: Option<ForeignKey>,
      indexed: bool)

  type Descriptor = seq<Field>

  predicate FitsRow(desc: Descriptor, row: Row) {
    |row.nulls| == |desc| && |row.values| == |desc|
  }

  /** Null bits count only in nullable columns. */
  predicate IsNull(desc: Descriptor, row: Row, c: nat)
    requires c < |desc| && FitsRow(desc, row)
  {
    desc[c].nullable && row.nulls[c]
  }

  /** Records of a table with a nullable column have null bits. */
  predicate NullMapped(desc: Descriptor) {
    exists c :: 0 <= c < |desc| && desc[c].nullable
  }

  /** Records of a table with a primary key carry a reference count. */
  predicate ReferenceCounted(desc: Descriptor) {
    exists c :: 0 <= c < |desc| && desc[c].primary
  }
}
