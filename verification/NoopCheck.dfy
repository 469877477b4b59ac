/** rowsEqual and valuesEqual (internal/esserver/write.go): whether an update changes anything. */
module NoopCheck {
  import opened Wrappers
  import opened GoValues
  import opened JsonEquality
  import opened StoreWrite

  // A comparison needs the JSON decoder too: the first value of a text.
  type Decoder = string -> Option<Json>

  // The double a number is compared as, stored or written.
  function NumberOf(v: GoValue, go: Go): Option<GoFloat> {
    match v
    case Number(s) => (match go.float64(s) case Some(x) => Some(Finite(x)) case None => None)
    case Int64(n) => Some(Finite(go.nearest(n)))
    case Float64(x) => Some(x)
    case _ => None
  }

  // Float comparison: NaN equals nothing.
  predicate SameFloat(a: GoFloat, b: GoFloat) {
    !a.NaN? && a == b
  }

  predicate NumberEqual(a: GoValue, b: GoValue, go: Go) {
    var x, y := NumberOf(a, go), NumberOf(b, go);
    x.Some? && y.Some? && SameFloat(x.value, y.value)
  }

  predicate JsonEqual(a: string, b: GoValue, decode: Decoder) {
    && (b.Bytes? || b.Raw?)
    && decode(a).Some? && decode(b.json).Some? && JsonValueEqual(decode(a).value, decode(b.json).value)
  }

  /** valuesEqual. Narrow integers and single floats, which reads return as types of their own, equal
      nothing. */
  predicate ValuesEqual(a: GoValue, b: GoValue, go: Go, decode: Decoder) {
    match a
    case Nil => b.Nil?
    case Text(x) => b == a
    case Truth(x) => b == a
    case Number(_) => NumberEqual(a, b, go)
    case Int64(_) => NumberEqual(a, b, go)
    case Float64(_) => NumberEqual(a, b, go)
    case Vector(xs) => b == a
    case Bytes(json) => JsonEqual(json, b, decode)
    case Raw(json) => JsonEqual(json, b, decode)
    case _ => false
  }

  // The double a value is compared as.
  ghost predicate AsDouble(v: GoValue, x: real, go: Go) {
    || (v.Number? && go.float64(v.literal) == Some(x))
    || (v.Int64? && x == go.nearest(v.n))
    || (v.Float64? && v.x == Finite(x))
  }

  /** When two cells say the same: nulls, equal strings, booleans or vectors, numbers with one double, JSON texts
      of one value. */
  ghost predicate SaysSame(a: GoValue, b: GoValue, go: Go, decode: Decoder) {
    || ((a.Nil? || a.Text? || a.Truth? || a.Vector?) && a == b)
    || (exists x :: AsDouble(a, x, go) && AsDouble(b, x, go))
    || (a.Float64? && a == b && a.x.Infinite?)
    || ((a.Bytes? || a.Raw?) && (b.Bytes? || b.Raw?)
        && exists j :: decode(a.json) == Some(j) && decode(b.json) == Some(j))
  }

  lemma {:induction false} NumberOfIsDouble(v: GoValue, go: Go)
    ensures forall x :: AsDouble(v, x, go) <==> NumberOf(v, go) == Some(Finite(x))
  {
  }

  /** The comparison holds of exactly those. */
  lemma {:induction false} ValuesEqualMeans(a: GoValue, b: GoValue, go: Go, decode: Decoder)
    ensures ValuesEqual(a, b, go, decode) <==> SaysSame(a, b, go, decode)
  {
    hide JsonValueEqual;
    if (a.Bytes? || a.Raw?) && (b.Bytes? || b.Raw?) && decode(a.json).Some? && decode(b.json).Some? {
      EqualsExactly(decode(a.json).value, decode(b.json).value);
    }
    NumberOfIsDouble(a, go);
    NumberOfIsDouble(b, go);
    if NumberEqual(a, b, go) && NumberOf(a, go).value.Finite? {
      assert AsDouble(a, NumberOf(a, go).value.value, go);
    }
  }

  ghost predicate RowsEqual(a: WriteRow, b: WriteRow, go: Go, decode: Decoder) {
    |a| == |b| && forall k :: k in a ==> k in b && ValuesEqual(a[k], b[k], go, decode)
  }

  /** rowsEqual: whatever order the map hands out its names in. */
  method CompareRows(a: WriteRow, b: WriteRow, go: Go, decode: Decoder) returns (equal: bool)
    ensures equal <==> RowsEqual(a, b, go, decode)
  {
    if |a| != |b| {
      return false;
    }
    var todo := a.Keys;
    while todo != {}
      invariant todo <= a.Keys && forall k :: k in a.Keys - todo ==> k in b && ValuesEqual(a[k], b[k], go, decode)
      decreases |todo|
    {
      var k :| k in todo;
      if k !in b || !ValuesEqual(a[k], b[k], go, decode) {
        return false;
      }
      todo := todo - {k};
    }
    return true;
  }

  // ----- soundness -----

  // A cell some accepted value is stored as.
  ghost predicate Storable(f: FieldMeta, c: GoValue, go: Go) {
    exists v :: WriteValue(f, v, go) == Good(c)
  }

  // The same cell; a JSON cell may be spelled differently.
  predicate SameCell(a: GoValue, b: GoValue, decode: Decoder) {
    a == b || (a.Bytes? && JsonEqual(a.json, b, decode))
  }

  // An integer cell that its double tells apart from every other integer.
  predicate Small(c: GoValue) {
    c.Int64? ==> -TWO_53 < c.n < TWO_53
  }

  lemma NearestTellsApart(n: int, m: int, go: Go)
    requires go.Faithful() && -TWO_53 < n < TWO_53 && go.nearest(m) == go.nearest(n)
    ensures m == n
  {
  }

  /** The noop check is sound: a stored cell that compares equal to a merged value is what writing that
      value would store. */
  lemma EqualValueStoresSame(f: FieldMeta, c: GoValue, v: GoValue, go: Go, decode: Decoder)
    requires go.Faithful() && Storable(f, c, go) && Small(c) && ValuesEqual(c, v, go, decode)
    ensures WriteValue(f, v, go).Good? && SameCell(c, WriteValue(f, v, go).cell, decode)
  {
    hide Go.Faithful;
    var w :| WriteValue(f, w, go) == Good(c);
    AcceptedIsTyped(f, w, go);
    match c {
      case Int64(n) => IntegerStoresSame(f, n, v, go);
      case Float64(x) => FloatStoresSame(f, c, v, go);
      case _ =>
    }
  }

  lemma IntegerStoresSame(f: FieldMeta, n: int, v: GoValue, go: Go)
    requires go.Faithful() && Small(Int64(n)) && f.native.TInt64? && NumberEqual(Int64(n), v, go)
    ensures WriteValue(f, v, go) == Good(Int64(n))
  {
    match v {
      case Number(s) =>
        if go.int64(s).Some? {
          NearestTellsApart(n, go.int64(s).value, go);
        }
      case Int64(m) => NearestTellsApart(n, m, go);
      case Float64(x) =>
    }
  }

  lemma FloatStoresSame(f: FieldMeta, c: GoValue, v: GoValue, go: Go)
    requires c.Float64? && c.x.Finite? && f.native.TFloat64? && NumberEqual(c, v, go)
    ensures WriteValue(f, v, go) == Good(c)
  {
  }

  // A stored row: every field has a cell that is null where that is allowed, or storable.
  ghost predicate StoredRow(meta: Meta, row: WriteRow, go: Go) {
    forall i :: 0 <= i < |meta.fields| ==>
      meta.fields[i].name in row && Storable(meta.fields[i], row[meta.fields[i].name], go)
  }

  // Every integer cell of a field is one its double tells apart.
  ghost predicate SmallCells(meta: Meta, row: WriteRow) {
    forall i :: 0 <= i < |meta.fields| && meta.fields[i].name in row ==> Small(row[meta.fields[i].name])
  }

  // Writing the merged row would leave every cell as it is.
  ghost predicate WritesSame(meta: Meta, stored: WriteRow, merged: WriteRow, go: Go, decode: Decoder) {
    forall i :: 0 <= i < |meta.fields| ==>
      var f := meta.fields[i];
      && f.name in stored && f.name in merged && WriteValue(f, merged[f.name], go).Good?
      && SameCell(stored[f.name], CellOf(f, merged, go), decode)
  }

  /** Soundness for whole rows: if the merged row compares equal to the stored one, writing it would leave
      every cell as it is. */
  lemma {:induction false} NoopIsSound(meta: Meta, stored: WriteRow, merged: WriteRow, go: Go, decode: Decoder)
    requires go.Faithful() && StoredRow(meta, stored, go) && SmallCells(meta, stored)
    requires RowsEqual(stored, merged, go, decode)
    ensures WritesSame(meta, stored, merged, go, decode)
  {
    hide Go.Faithful, Storable, WriteValue, ValuesEqual, SameCell, Small;
    forall i | 0 <= i < |meta.fields|
      ensures var f := meta.fields[i];
        && f.name in stored && f.name in merged && WriteValue(f, merged[f.name], go).Good?
        && SameCell(stored[f.name], CellOf(f, merged, go), decode)
    {
      var f := meta.fields[i];
      EqualValueStoresSame(f, stored[f.name], merged[f.name], go, decode);
    }
  }

  // ----- exactly when it is sound -----

  /** A value that compares equal to an integer cell stores that integer exactly when the cell is below
      2^53 or the value spells the integer out. */
  lemma {:induction false} EqualIntegerStoresWhen(f: FieldMeta, n: int, v: GoValue, go: Go, decode: Decoder)
    requires go.Faithful() && f.native.TInt64? && InBoundaries(n, TInt64) && ValuesEqual(Int64(n), v, go, decode)
    ensures WriteValue(f, v, go) == Good(Int64(n))
       <==> -TWO_53 < n < TWO_53 || v == Int64(n) || (v.Number? && go.int64(v.literal) == Some(n))
  {
    if -TWO_53 < n < TWO_53 {
      IntegerStoresSame(f, n, v, go);
    } else {
      NearestIsFar(n, go);
    }
  }

  lemma {:induction false} NearestIsFar(n: int, go: Go)
    requires go.Faithful() && !(-TWO_53 < n < TWO_53)
    ensures !IsSmallInteger(go.nearest(n))
  {
  }

  // What a decoded body holds.
  predicate Decoded(v: GoValue) {
    v.Nil? || v.Text? || v.Number? || v.Truth? || v.Raw? || v.Vector?
  }

  ghost predicate DecodedRow(doc: WriteRow) {
    forall k :: k in doc ==> Decoded(doc[k])
  }

  // A literal with a fraction or an exponent that reads as the integer's nearest double.
  predicate SpellsDouble(s: string, n: int, go: Go) {
    go.float64(s) == Some(go.nearest(n)) && go.int64(s).None?
  }

  // Every double has one: 9007199254740992.0, say.
  ghost predicate SpellsDoubles(go: Go) {
    forall n :: InBoundaries(n, TInt64) ==> exists s :: SpellsDouble(s, n, go)
  }

  // Whatever a document writes that compares equal to the cell stores it again.
  ghost predicate EqualsStoreSame(f: FieldMeta, c: GoValue, go: Go, decode: Decoder) {
    forall v :: Decoded(v) && ValuesEqual(c, v, go, decode) ==> WriteValue(f, v, go) == Good(c)
  }

  /** For an integer cell the check is right about every document exactly below 2^53. */
  lemma {:induction false} NoopExactWhen(f: FieldMeta, n: int, go: Go, decode: Decoder)
    requires go.Faithful() && SpellsDoubles(go) && f.native.TInt64? && InBoundaries(n, TInt64)
    ensures EqualsStoreSame(f, Int64(n), go, decode) <==> -TWO_53 < n < TWO_53
  {
    hide Go.Faithful, WriteValue;
    forall v | ValuesEqual(Int64(n), v, go, decode)
      ensures -TWO_53 < n < TWO_53 ==> WriteValue(f, v, go) == Good(Int64(n))
    {
      EqualIntegerStoresWhen(f, n, v, go, decode);
    }
    var s :| SpellsDouble(s, n, go);
    EqualIntegerStoresWhen(f, n, Number(s), go, decode);
  }

  lemma {:induction false} OnlyEqualsSelf(c: GoValue, v: GoValue, go: Go, decode: Decoder)
    requires ValuesEqual(c, v, go, decode)
    ensures ValuesEqual(c, c, go, decode)
  {
    if c.Bytes? || c.Raw? {
      EqualsExactly(decode(c.json).value, decode(c.json).value);
    }
  }

  lemma {:induction false} EqualRowsSelf(a: WriteRow, b: WriteRow, go: Go, decode: Decoder)
    requires RowsEqual(a, b, go, decode)
    ensures RowsEqual(a, a, go, decode)
  {
    hide ValuesEqual;
    forall k | k in a ensures ValuesEqual(a[k], a[k], go, decode) {
      OnlyEqualsSelf(a[k], b[k], go, decode);
    }
  }

  lemma {:induction false} UnsmallCell(f: FieldMeta, c: GoValue, go: Go, decode: Decoder) returns (s: string)
    requires go.Faithful() && SpellsDoubles(go) && Storable(f, c, go) && !Small(c)
    ensures ValuesEqual(c, Number(s), go, decode) && !WriteValue(f, Number(s), go).Good?
  {
    var w :| WriteValue(f, w, go) == Good(c);
    hide Go.Faithful;
    AcceptedIsTyped(f, w, go);
    NearestIsFar(c.n, go);
    s :| SpellsDouble(s, c.n, go);
  }

  /** For a stored row and the documents laid over it: taking an equal merged row for no change is always
      right exactly when the row's integers are below 2^53, or the row holds a cell no value compares equal
      to. */
  lemma {:induction false} NoopRowExactWhen(meta: Meta, stored: WriteRow, go: Go, decode: Decoder)
    requires go.Faithful() && SpellsDoubles(go) && StoredRow(meta, stored, go)
    ensures (forall doc :: DecodedRow(doc) && RowsEqual(stored, stored + doc, go, decode) ==>
              WritesSame(meta, stored, stored + doc, go, decode))
       <==> SmallCells(meta, stored) || !RowsEqual(stored, stored, go, decode)
  {
    hide Go.Faithful, SpellsDoubles, Storable, WriteValue, ValuesEqual, Small, WritesSame, SmallCells, RowsEqual;
    forall doc: WriteRow | RowsEqual(stored, stored + doc, go, decode)
      ensures RowsEqual(stored, stored, go, decode)
      ensures SmallCells(meta, stored) ==> WritesSame(meta, stored, stored + doc, go, decode)
    {
      EqualRowsSelf(stored, stored + doc, go, decode);
      if SmallCells(meta, stored) {
        NoopIsSound(meta, stored, stored + doc, go, decode);
      }
    }
    if RowsEqual(stored, stored, go, decode) && !SmallCells(meta, stored) {
      var doc := UnsoundMerge(meta, stored, go, decode);
    }
  }

  // A document that makes an equal row, which would be written differently.
  lemma {:induction false} UnsoundMerge(meta: Meta, stored: WriteRow, go: Go, decode: Decoder)
    returns (doc: WriteRow)
    requires go.Faithful() && SpellsDoubles(go) && StoredRow(meta, stored, go)
    requires RowsEqual(stored, stored, go, decode) && !SmallCells(meta, stored)
    ensures DecodedRow(doc) && RowsEqual(stored, stored + doc, go, decode)
    ensures !WritesSame(meta, stored, stored + doc, go, decode)
  {
    hide Go.Faithful, SpellsDoubles, Storable, WriteValue, ValuesEqual, Small;
    var i :| 0 <= i < |meta.fields| && meta.fields[i].name in stored && !Small(stored[meta.fields[i].name]);
    var name := meta.fields[i].name;
    var s := UnsmallCell(meta.fields[i], stored[name], go, decode);
    doc := map[name := Number(s)];
    assert (stored + doc).Keys == stored.Keys;
  }

  /** The input that shows it: two integers with one nearest double compare equal, and an update from one
      to the other is taken for a noop. */
  lemma {:induction false} NoopUnsoundBeyond(f: FieldMeta, n: int, m: int, s: string, go: Go, decode: Decoder)
    requires f.native.TInt64? && go.nearest(n) == go.nearest(m) && n != m
    requires go.int64(s) == Some(m) && InBoundaries(m, TInt64) && go.Faithful()
    ensures ValuesEqual(Int64(n), Number(s), go, decode)
    ensures WriteValue(f, Number(s), go) == Good(Int64(m)) != Good(Int64(n))
    ensures !(-TWO_53 < n < TWO_53)
  {
    if -TWO_53 < n < TWO_53 {
      NearestTellsApart(n, m, go);
    }
  }
}
