/** The order of field values and of index keys (src/data/data_comparator.h,
    src/data/index_key_comparator.h) and its ranking by integers, which the index model uses. */
module KeyOrder {

  import opened Sizes
  import opened TableFiles

  predicate Int32(x: int) { -TWO31 <= x < TWO31 }

  /** A 32-bit result: wraps around. */
  function Wrap32(x: int): (r: int)
    ensures Int32(r)
  {
    (x + TWO31) % TWO32 - TWO31
  }

  /** A field's bytes: a 32-bit number (INTEGER, DATE) or the zero-ended characters of a CHAR. */
  datatype Data = Number(n: int) | Chars(bytes: seq<int>)

  /** Byte-wise comparison up to the first difference or the end of both strings. */
  function StrCmp(a: seq<int>, b: seq<int>): int {
    if a == [] || b == [] then 0
    else if a[0] != b[0] then a[0] - b[0]
    else if a[0] == 0 then 0
    else StrCmp(a[1..], b[1..])
  }

  function Compare(a: Data, b: Data): int {
    if a.Number? && b.Number? then Wrap32(a.n - b.n)
    else if a.Chars? && b.Chars? then StrCmp(a.bytes, b.bytes)
    else 0
  }

  // ---------------------------------------------------------------- numbers

  /** The subtraction of the source orders two numbers right iff their difference is a 32-bit
      number. */
  lemma NumbersComparedIff(a: int, b: int)
    requires Int32(a) && Int32(b)
    ensures Compare(Number(a), Number(b)) == 0 <==> a == b
    ensures (Compare(Number(a), Number(b)) < 0 <==> a < b) <==> Int32(a - b)
  {
  }

  /** Numbers too far apart compare the wrong way round, so that the comparison is no order on
      all 32-bit numbers. */
  lemma FarNumbersMisordered()
    ensures Compare(Number(-2), Number(0x7fff_ffff)) > 0
    ensures Compare(Number(-2), Number(0)) < 0 && Compare(Number(0), Number(0x7fff_ffff)) < 0
  {
  }

  // ---------------------------------------------------------------- strings

  predicate IsByte(x: int) { 0 <= x < 256 }

  /** Zero from the first zero on: how an assembled record holds a CHAR. */
  predicate Padded(s: seq<int>) {
    && (forall i :: 0 <= i < |s| ==> IsByte(s[i]))
    && (forall i, j :: 0 <= i < j < |s| && s[i] == 0 ==> s[j] == 0)
  }

  function Power256(n: nat): (r: int)
    ensures r > 0
  {
    if n == 0 then 1 else 256 * Power256(n - 1)
  }

  /** The bytes read as one big-endian number. */
  function BytesRank(s: seq<int>): int {
    if s == [] then 0 else s[0] * Power256(|s| - 1) + BytesRank(s[1..])
  }

  lemma RankStep(a: int, b: int, p: int, x: int, y: int)
    requires p > 0 && 0 <= x < p && 0 <= y < p && a < b
    ensures a * p + x < b * p + y
  {
    assert a * p + p == (a + 1) * p;
    assert (a + 1) * p <= b * p;
  }

  lemma ProductNonnegative(a: int, p: int)
    requires 0 <= a && 0 <= p
    ensures 0 <= a * p
  {
  }

  lemma {:induction false} BytesRankBound(s: seq<int>)
    requires forall i :: 0 <= i < |s| ==> IsByte(s[i])
    ensures 0 <= BytesRank(s) < Power256(|s|)
  {
    if s != [] {
      BytesRankBound(s[1..]);
      var p := Power256(|s| - 1);
      RankStep(s[0], 256, p, BytesRank(s[1..]), 0);
      ProductNonnegative(s[0], p);
    }
  }

  lemma {:induction false} ZerosRank(s: seq<int>, t: seq<int>)
    requires |s| == |t| && (forall i :: 0 <= i < |s| ==> s[i] == 0) && (forall i :: 0 <= i < |t| ==> t[i] == 0)
    ensures s == t && BytesRank(s) == BytesRank(t)
  {
  }

  /** String comparison orders padded strings of one length as their ranks. */
  lemma {:induction false} StrCmpRank(a: seq<int>, b: seq<int>)
    requires |a| == |b| && Padded(a) && Padded(b)
    ensures StrCmp(a, b) < 0 <==> BytesRank(a) < BytesRank(b)
    ensures StrCmp(a, b) == 0 <==> a == b
    ensures BytesRank(a) == BytesRank(b) <==> a == b
  {
    if a != [] {
      BytesRankBound(a[1..]);
      BytesRankBound(b[1..]);
      var p := Power256(|a| - 1);
      if a[0] < b[0] {
        RankStep(a[0], b[0], p, BytesRank(a[1..]), BytesRank(b[1..]));
      } else if b[0] < a[0] {
        RankStep(b[0], a[0], p, BytesRank(b[1..]), BytesRank(a[1..]));
      } else if a[0] == 0 {
        ZerosRank(a, b);
      } else {
        StrCmpRank(a[1..], b[1..]);
        assert a == [a[0]] + a[1..] && b == [b[0]] + b[1..];
      }
    }
  }

  // ---------------------------------------------------------------- field values

  function DataRank(d: Data): int {
    match d
    case Number(n) => n
    case Chars(s) => BytesRank(s)
  }

  /** Two values of one column: numbers whose difference is a 32-bit number, or padded strings
      of one length. */
  predicate Comparable(a: Data, b: Data) {
    || (a.Number? && b.Number? && Int32(a.n) && Int32(b.n) && Int32(a.n - b.n))
    || (a.Chars? && b.Chars? && |a.bytes| == |b.bytes| && Padded(a.bytes) && Padded(b.bytes))
  }

  /** The comparator and byte equality agree with the ranks. */
  lemma CompareRank(a: Data, b: Data)
    requires Comparable(a, b)
    ensures Compare(a, b) < 0 <==> DataRank(a) < DataRank(b)
    ensures Compare(a, b) == 0 <==> DataRank(a) == DataRank(b)
    ensures Compare(a, b) == 0 <==> a == b
  {
    if a.Chars? { StrCmpRank(a.bytes, b.bytes); }
  }

  // ---------------------------------------------------------------- index keys

  predicate OffsetInRange(r: Rid) { Int32(r.page) && Int32(r.slot) }

  /** The eight bytes of a record offset read as one signed 64-bit number, little-endian. */
  function Int64View(r: Rid): int {
    r.slot * TWO32 + r.page % TWO32
  }

  /** A key of a non-unique index is the record offset followed by the value; a unique index
      uses the value alone. */
  datatype Key = Key(data: Data, rid: Rid)

  predicate Less(a: Key, b: Key, unique: bool) {
    if unique then Compare(a.data, b.data) < 0
    else
      var c := Compare(a.data, b.data);
      c < 0 || (c == 0 && Int64View(a.rid) < Int64View(b.rid))
  }

  function OffsetRank(r: Rid): int { Int64View(r) + TWO63 }

  function ValueKey(value: int, rid: Rid, unique: bool): int {
    if unique then value else value * TWO64 + OffsetRank(rid)
  }

  function KeyRank(k: Key, unique: bool): int { ValueKey(DataRank(k.data), k.rid, unique) }

  lemma OffsetView(a: Rid, b: Rid)
    requires OffsetInRange(a) && OffsetInRange(b)
    ensures 0 <= OffsetRank(a) < TWO64
    ensures Int64View(a) == Int64View(b) <==> a == b
    ensures 0 <= a.page && 0 <= b.page ==>
              (Int64View(a) < Int64View(b) <==> a.slot < b.slot || (a.slot == b.slot && a.page < b.page))
  {
  }

  lemma ValueKeyOrder(v: int, r: Rid, w: int, s: Rid)
    requires OffsetInRange(r) && OffsetInRange(s)
    ensures ValueKey(v, r, false) < ValueKey(w, s, false) <==> v < w || (v == w && Int64View(r) < Int64View(s))
    ensures ValueKey(v, r, false) == ValueKey(w, s, false) <==> v == w && r == s
  {
    OffsetView(r, s);
    OffsetView(s, r);
    if v < w {
      RankStep(v, w, TWO64, OffsetRank(r), OffsetRank(s));
    } else if w < v {
      RankStep(w, v, TWO64, OffsetRank(s), OffsetRank(r));
    }
  }

  /** The comparator of the index is the order of the ranks, and two keys have one rank iff their
      bytes are equal: so any set of comparable keys is strictly totally ordered. */
  lemma KeyRankOrder(a: Key, b: Key, unique: bool)
    requires Comparable(a.data, b.data) && OffsetInRange(a.rid) && OffsetInRange(b.rid)
    ensures Less(a, b, unique) <==> KeyRank(a, unique) < KeyRank(b, unique)
    ensures KeyRank(a, unique) == KeyRank(b, unique) <==> a.data == b.data && (unique || a.rid == b.rid)
  {
    CompareRank(a.data, b.data);
    ValueKeyOrder(DataRank(a.data), a.rid, DataRank(b.data), b.rid);
  }

  const LEAST := Rid(-1, -1)
  const GREATEST := Rid(0x7fff_ffff, 0x7fff_ffff)

  /** Offsets of records: data pages and slots are counted from 1 and 0. */
  predicate RealOffset(r: Rid) {
    1 <= r.page < TWO31 - 1 && 0 <= r.slot < TWO31
  }

  /** The two sentinels used in searches bracket exactly the entries with a given value. */
  lemma SentinelsBracket(v: int, w: int, r: Rid)
    requires RealOffset(r)
    ensures ValueKey(v, LEAST, false) < ValueKey(w, r, false) < ValueKey(v, GREATEST, false) <==> v == w
    ensures ValueKey(v, LEAST, false) <= ValueKey(w, r, false) <==> v <= w
    ensures ValueKey(w, r, false) < ValueKey(v, GREATEST, false) <==> w <= v
  {
    ValueKeyOrder(v, LEAST, w, r);
    ValueKeyOrder(w, r, v, GREATEST);
  }
}
