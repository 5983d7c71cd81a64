/** Columnar layouts: list columns as offsets, values and validity, and the INET struct column. */
module Columns {
  import opened Bytes
  import opened Wrappers
  import opened Inet

  // ----- List columns -----

  /** Row `i` is `values[offsets[i]..offsets[i + 1]]`, or null. A value may itself be null. */
  datatype ListColumn<T> = ListColumn(offsets: seq<nat>, values: seq<Option<T>>, valid: seq<bool>)

  ghost predicate WellFormed<T>(col: ListColumn<T>) {
    |col.offsets| == |col.valid| + 1 && col.offsets[0] == 0 &&
    (forall i, j :: 0 <= i <= j < |col.offsets| ==> col.offsets[i] <= col.offsets[j]) &&
    col.offsets[|col.valid|] == |col.values|
  }

  function RowValues<T>(col: ListColumn<T>, i: nat): seq<Option<T>>
    requires WellFormed(col) && i < |col.valid|
  {
    col.values[col.offsets[i]..col.offsets[i + 1]]
  }

  /** A list builder: values are appended one by one, then the row is closed. */
  class ListBuilder<T> {
    var offsets: seq<nat>
    var vals: seq<Option<T>>
    var valid: seq<bool>

    /** The rows closed so far, as a column; values appended since wait for their row. */
    ghost predicate Valid()
      reads this
    {
      |offsets| > 0 && offsets[|offsets| - 1] <= |vals| &&
      WellFormed(Closed())
    }

    ghost function Closed(): ListColumn<T>
      reads this
    {
      var end := if |offsets| > 0 && offsets[|offsets| - 1] <= |vals| then offsets[|offsets| - 1] else 0;
      ListColumn(offsets, vals[..end], valid)
    }

    ghost function Open(): seq<Option<T>>
      reads this
      requires Valid()
    {
      vals[offsets[|offsets| - 1]..]
    }

    constructor ()
      ensures Valid() && Open() == [] && valid == []
    {
      offsets := [0];
      vals := [];
      valid := [];
    }

    method AppendValue(x: T)
      requires Valid()
      modifies `vals
      ensures Valid() && Closed() == old(Closed()) && Open() == old(Open()) + [Some(x)]
    {
      ghost var before := Closed();
      vals := vals + [Some(x)];
      assert Closed() == before;
    }

    /** Close the row: the values appended since the last row are its content. */
    method Append(isValid: bool)
      requires Valid()
      modifies `offsets, `valid
      ensures Valid() && Open() == [] && valid == old(valid) + [isValid]
      ensures forall i :: 0 <= i < |old(valid)| ==> RowValues(Closed(), i) == RowValues(old(Closed()), i)
      ensures RowValues(Closed(), |old(valid)|) == old(Open())
    {
      offsets := offsets + [|vals|];
      valid := valid + [isValid];
      assert Closed().values == vals;
    }
  }

  method AppendValues<T>(b: ListBuilder<T>, xs: seq<T>)
    requires b.Valid() && b.Open() == []
    modifies b`vals
    ensures b.Valid() && b.Closed() == old(b.Closed()) && b.Open() == AllPresent(xs)
  {
    for k := 0 to |xs|
      invariant b.Valid() && b.Closed() == old(b.Closed()) && b.Open() == AllPresent(xs[..k])
    {
      b.AppendValue(xs[k]);
      assert AllPresent(xs[..k + 1]) == AllPresent(xs[..k]) + [Some(xs[k])];
    }
    assert xs[..|xs|] == xs;
  }

  /** Build a list column from optional rows: reading any row back gives it. */
  method BuildList<T>(rows: seq<Option<seq<T>>>) returns (col: ListColumn<T>)
    ensures WellFormed(col) && |col.valid| == |rows|
    ensures forall i :: 0 <= i < |rows| ==> RowAt(col, i) == Present(rows[i])
  {
    var b := new ListBuilder<T>();
    for i := 0 to |rows|
      invariant b.Valid() && fresh(b) && b.Open() == [] && |b.valid| == i
      invariant forall j :: 0 <= j < i ==> RowAt(b.Closed(), j) == Present(rows[j])
    {
      ghost var before := b.Closed();
      match rows[i] {
        case Some(xs) =>
          AppendValues(b, xs);
          b.Append(true);
        case None =>
          b.Append(false);
      }
      forall j | 0 <= j < i
        ensures RowAt(b.Closed(), j) == Present(rows[j])
      {
        assert RowValues(b.Closed(), j) == RowValues(before, j);
        assert RowAt(before, j) == Present(rows[j]);
      }
    }
    assert b.vals[..|b.vals|] == b.vals;
    col := ListColumn(b.offsets, b.vals, b.valid);
    assert col == b.Closed();
  }

  function AllPresent<T>(xs: seq<T>): seq<Option<T>> {
    seq(|xs|, i requires 0 <= i < |xs| => Some(xs[i]))
  }

  ghost function Present<T>(row: Option<seq<T>>): Option<seq<Option<T>>> {
    if row.None? then None else Some(AllPresent(row.value))
  }

  function RowAt<T>(col: ListColumn<T>, i: nat): Option<seq<Option<T>>>
    requires WellFormed(col) && i < |col.valid|
  {
    if col.valid[i] then Some(RowValues(col, i)) else None
  }

  // ----- Reading integer lists of several widths -----

  datatype Width = UInt32 | UInt64 | Int32 | Int64 | Unsupported

  const TWO_32: int := 0x1_0000_0000

  type Asn = v: nat | v < 0x1_0000_0000

  /** `as u32`: the low 32 bits. */
  function AsU32(v: int): Asn {
    v % TWO_32
  }

  /** How a column of the given element width stores the ASN `v`; 32-bit signed elements wrap. */
  function Store(width: Width, v: Asn): (stored: int)
    ensures width == Int32 ==> -0x8000_0000 <= stored < 0x8000_0000
    ensures width != Int32 ==> 0 <= stored < 0x1_0000_0000
  {
    if width == Int32 && v >= TWO_32 / 2 then v - TWO_32 else v
  }

  /** The elements as 32-bit numbers, nulls as 0; an unsupported element type reads as empty. */
  function IntArrayToU32(width: Width, values: seq<Option<int>>): seq<Asn> {
    if width == Unsupported then []
    else seq(|values|, i requires 0 <= i < |values| => if values[i].Some? then AsU32(values[i].value) else 0)
  }

  function ListU32At(width: Width, col: ListColumn<int>, i: nat): Option<seq<Asn>>
    requires WellFormed(col) && i < |col.valid|
  {
    var row := RowAt(col, i);
    if row.None? then None else Some(IntArrayToU32(width, row.value))
  }

  function StoreRow(width: Width, row: Option<seq<Asn>>): Option<seq<int>> {
    if row.None? then None
    else Some(seq(|row.value|, i requires 0 <= i < |row.value| => Store(width, row.value[i])))
  }

  /** `row` is in the column at `i`, every element stored at the width or null. */
  ghost predicate Stored(width: Width, col: ListColumn<int>, i: nat, row: Option<seq<Option<Asn>>>)
    requires WellFormed(col) && i < |col.valid|
  {
    match (RowAt(col, i), row)
    case (None, None) => true
    case (Some(cells), Some(asns)) =>
      |cells| == |asns| &&
      forall j :: 0 <= j < |asns| ==> cells[j] == if asns[j].Some? then Some(Store(width, asns[j].value)) else None
    case _ => false
  }

  function NullsAsZero(asns: seq<Option<Asn>>): seq<Asn> {
    seq(|asns|, i requires 0 <= i < |asns| => if asns[i].Some? then asns[i].value else 0)
  }

  /** Reading a row gives the ASNs stored, at any width, and 0 for null elements; a null row reads as
      null, and a row of an unsupported element type as empty. */
  lemma ReadStored(width: Width, col: ListColumn<int>, i: nat, row: Option<seq<Option<Asn>>>)
    requires WellFormed(col) && i < |col.valid| && Stored(width, col, i, row)
    ensures ListU32At(width, col, i) ==
            if row.None? then None else Some(if width == Unsupported then [] else NullsAsZero(row.value))
  {
    if row.Some? && width != Unsupported {
      assert IntArrayToU32(width, RowAt(col, i).value) == NullsAsZero(row.value);
    }
  }

  /** Build a column of AS paths stored at a supported width: reading any row back gives its path. */
  method BuildPaths(width: Width, rows: seq<Option<seq<Asn>>>) returns (col: ListColumn<int>)
    requires width != Unsupported
    ensures WellFormed(col) && |col.valid| == |rows|
    ensures forall i :: 0 <= i < |rows| ==> ListU32At(width, col, i) == rows[i]
  {
    col := BuildList(seq(|rows|, i requires 0 <= i < |rows| => StoreRow(width, rows[i])));
    forall i | 0 <= i < |rows|
      ensures ListU32At(width, col, i) == rows[i]
    {
      var row := if rows[i].None? then None else Some(AllPresent(rows[i].value));
      assert RowAt(col, i) == Present(StoreRow(width, rows[i]));
      ReadStored(width, col, i, row);
      assert rows[i].Some? ==> NullsAsZero(row.value) == rows[i].value;
    }
  }

  // ----- INET columns -----

  datatype InetColumn = InetColumn(ipType: seq<byte>, address: seq<seq<byte>>, mask: seq<nat>, valid: seq<bool>)

  const ZERO_ADDRESS: seq<byte> := [0, 0, 0, 0, 0, 0, 0, 0, 0, 0, 0, 0, 0, 0, 0, 0]

  /** Row `i` of the struct column. */
  function InetAt(col: InetColumn, i: nat): Option<InetVal>
    requires i < |col.valid| == |col.ipType| == |col.address| == |col.mask|
  {
    if col.valid[i] then Some(InetVal(col.ipType[i], col.address[i], col.mask[i])) else None
  }

  /** Every child has one entry a row, sixteen bytes of address each, and reads back the cell. */
  method BuildInet(vals: seq<Option<InetVal>>) returns (col: InetColumn)
    requires forall v :: v in vals && v.Some? ==> |v.value.addressLe| == 16
    ensures |col.valid| == |col.ipType| == |col.address| == |col.mask| == |vals|
    ensures forall a :: a in col.address ==> |a| == 16
    ensures forall i :: 0 <= i < |vals| ==> InetAt(col, i) == vals[i]
  {
    var ipType: seq<byte> := [];
    var address: seq<seq<byte>> := [];
    var mask: seq<nat> := [];
    var valid: seq<bool> := [];
    for i := 0 to |vals|
      invariant |valid| == |ipType| == |address| == |mask| == i
      invariant forall a :: a in address ==> |a| == 16
      invariant forall j :: 0 <= j < i ==> InetAt(InetColumn(ipType, address, mask, valid), j) == vals[j]
    {
      match vals[i] {
        case Some(iv) =>
          assert vals[i] in vals;
          ipType := ipType + [iv.ipType];
          address := address + [iv.addressLe];
          mask := mask + [iv.mask];
          valid := valid + [true];
        case None =>
          ipType := ipType + [0];
          address := address + [ZERO_ADDRESS];
          mask := mask + [0];
          valid := valid + [false];
      }
    }
    col := InetColumn(ipType, address, mask, valid);
  }
}
