/** The strict write path (internal/store/write.go): validation of the rows against the schema and the
    column form they are sent in. */
module StoreWrite {
  import opened Wrappers
  import opened GoValues
  import opened Arithmetic

  datatype Native =
    | TString | TInt8 | TInt16 | TInt32 | TInt64 | TFloat32 | TFloat64 | TBool | TJson | TFloatVector | TOther

  datatype FieldMeta =
    FieldMeta(name: string, native: Native, nullable: bool, autoId: bool, primaryKey: bool, maxLength: nat, dim: nat)

  datatype Meta = Meta(fields: seq<FieldMeta>, functionOutputs: seq<string>) {
    // A schema names no field twice.
    ghost predicate Valid() {
      forall i, j :: 0 <= i < j < |fields| ==> fields[i].name != fields[j].name
    }
  }

  datatype Class =
    | UnknownField | FunctionField | AutoId | Missing | NullCell | WrongType | OutOfRange | TooLong | WrongDim
    | Unwritable

  datatype Checked = Good(cell: GoValue) | Bad(reason: Class)

  // ----- one cell -----

  predicate IsInteger(native: Native) {
    native.TInt8? || native.TInt16? || native.TInt32? || native.TInt64?
  }

  function IntMax(native: Native): int {
    match native
    case TInt8 => 0x7f
    case TInt16 => 0x7fff
    case TInt32 => 0x7fff_ffff
    case _ => 0x7fff_ffff_ffff_ffff
  }

  predicate InBoundaries(n: int, native: Native) {
    -IntMax(native) - 1 <= n <= IntMax(native)
  }

  function Width(native: Native): nat
    ensures Width(native) > 0
  {
    match native
    case TInt8 => 8
    case TInt16 => 16
    case TInt32 => 32
    case _ => 64
  }

  // In two's complement.
  predicate FitsWidth(n: int, native: Native) {
    -(Power(2, Width(native) - 1) as int) <= n < Power(2, Width(native) - 1)
  }

  /** The range an integer field checks is that of its width. */
  lemma {:induction false} BoundariesFit(n: int, native: Native)
    requires IsInteger(native)
    ensures InBoundaries(n, native) <==> FitsWidth(n, native)
  {
    hide Power;
    WidthPowers();
  }

  function IntegerCell(n: int, native: Native): GoValue {
    match native
    case TInt8 => Int8(n)
    case TInt16 => Int16(n)
    case TInt32 => Int32(n)
    case _ => Int64(n)
  }

  function WriteInteger(f: FieldMeta, v: GoValue, go: Go): Checked {
    match ToInt64(v, go)
    case None => Bad(WrongType)
    case Some(n) => if InBoundaries(n, f.native) then Good(IntegerCell(n, f.native)) else Bad(OutOfRange)
  }

  function WriteFloat(f: FieldMeta, v: GoValue, go: Go): Checked {
    match ToFloat64(v, go)
    case None => Bad(WrongType)
    case Some(Finite(x)) =>
      if f.native.TFloat32? then
        if -MAX_FLOAT32 <= x <= MAX_FLOAT32 then Good(Float32(Finite(go.narrow(x)))) else Bad(OutOfRange)
      else Good(Float64(Finite(x)))
    case Some(_) => Bad(OutOfRange)
  }

  function WriteJson(v: GoValue, go: Go): Checked {
    match v
    case Raw(json) => Good(Bytes(json))
    case Bytes(json) => Good(v)
    case Text(s) => if go.isJson(s) then Good(Bytes(s)) else Bad(WrongType)
    case _ => Bad(WrongType)
  }

  function WriteVector(f: FieldMeta, v: GoValue): Checked {
    if !v.Vector? then Bad(WrongType)
    else if f.dim > 0 && |v.xs| != f.dim then Bad(WrongDim)
    else if exists i :: 0 <= i < |v.xs| && !v.xs[i].Finite? then Bad(OutOfRange)
    else Good(v)
  }

  /** writeValue: the cell in its storage encoding, or the class of its rejection. */
  function WriteValue(f: FieldMeta, v: GoValue, go: Go): Checked {
    if v.Nil? then (if f.nullable then Good(Nil) else Bad(NullCell))
    else match f.native
      case TString =>
        if !v.Text? then Bad(WrongType)
        else if f.maxLength > 0 && ByteLength(v.text) > f.maxLength then Bad(TooLong)
        else Good(v)
      case TFloat32 => WriteFloat(f, v, go)
      case TFloat64 => WriteFloat(f, v, go)
      case TBool => if v.Truth? then Good(v) else Bad(WrongType)
      case TJson => WriteJson(v, go)
      case TFloatVector => WriteVector(f, v)
      case TOther => Bad(Unwritable)
      case _ => WriteInteger(f, v, go)
  }

  // The Go type a column of each storage type is built from.
  predicate OfNative(c: GoValue, native: Native) {
    match native
    case TString => c.Text?
    case TInt8 => c.Int8? && InBoundaries(c.n, native)
    case TInt16 => c.Int16? && InBoundaries(c.n, native)
    case TInt32 => c.Int32? && InBoundaries(c.n, native)
    case TInt64 => c.Int64? && InBoundaries(c.n, native)
    case TFloat32 => c.Float32? && c.x.Finite?
    case TFloat64 => c.Float64? && c.x.Finite?
    case TBool => c.Truth?
    case TJson => c.Bytes?
    case TFloatVector => c.Vector? && forall i :: 0 <= i < |c.xs| ==> c.xs[i].Finite?
    case TOther => false
  }

  /** What is accepted has the type its column is built from, so no cast can fail; and null only where null
      is allowed. */
  lemma AcceptedIsTyped(f: FieldMeta, v: GoValue, go: Go)
    requires WriteValue(f, v, go).Good?
    ensures var c := WriteValue(f, v, go).cell;
      (c.Nil? <==> v.Nil?) && (c.Nil? ==> f.nullable) && (!c.Nil? ==> OfNative(c, f.native))
  {
  }

  /** Writing back what a read returned: a stored cell is accepted again, unchanged, exactly when its
      field is not one of the two narrow integer types. */
  lemma StoredIsWritable(f: FieldMeta, v: GoValue, go: Go)
    requires WriteValue(f, v, go).Good? && !v.Nil? && go.Faithful()
    ensures var c := WriteValue(f, v, go).cell;
      && (WriteValue(f, c, go) == Good(c) <==> !f.native.TInt8? && !f.native.TInt16?)
      && (f.native.TInt8? || f.native.TInt16? ==> WriteValue(f, c, go) == Bad(WrongType))
  {
  }

  // The float a value is read as: a literal's double, an integer's nearest one, a float itself.
  ghost predicate ReadsAsFloat(v: GoValue, x: real, go: Go) {
    || (v.Number? && go.float64(v.literal) == Some(x))
    || (v.Int64? && x == go.nearest(v.n))
    || (v.Float64? && v.x == Finite(x)) || (v.Float32? && v.x == Finite(x))
  }

  /** What a field of each storage type stores of a value that is not null: strings within the length, booleans
      and JSON texts as they are, finite floats - as singles if the column is, and then within their range -
      and vectors of the right dimension with finite elements. Integers have a statement of their own. */
  ghost predicate Stores(f: FieldMeta, v: GoValue, c: GoValue, go: Go) {
    match f.native
    case TString => v.Text? && c == v && (f.maxLength == 0 || Utf8Bytes(v.text) <= f.maxLength)
    case TBool => v.Truth? && c == v
    case TFloat32 =>
      exists x :: ReadsAsFloat(v, x, go) && -MAX_FLOAT32 <= x <= MAX_FLOAT32 && c == Float32(Finite(go.narrow(x)))
    case TFloat64 => exists x :: ReadsAsFloat(v, x, go) && c == Float64(Finite(x))
    case TJson =>
      (v.Raw? && c == Bytes(v.json)) || (v.Bytes? && c == v) || (v.Text? && go.isJson(v.text) && c == Bytes(v.text))
    case TFloatVector =>
      v.Vector? && c == v && (f.dim == 0 || |v.xs| == f.dim) && forall x :: x in v.xs ==> x.Finite?
    case TOther => false
    case _ => exists n :: Denotes(v, n, go) && FitsWidth(n, f.native)
                && (SpelledAsInteger(v, go) || -TWO_53 < n < TWO_53) && c == IntegerCell(n, f.native)
  }

  /** A value is stored exactly as its field's type says. */
  lemma {:induction false} WritesWhatStores(f: FieldMeta, v: GoValue, c: GoValue, go: Go)
    ensures WriteValue(f, v, go) == Good(c) <==> if v.Nil? then f.nullable && c.Nil? else Stores(f, v, c, go)
  {
    hide WriteValue, Stores;
    if v.Nil? {
      NilStores(f, c, go);
    } else if IsInteger(f.native) {
      IntegersStore(f, v, c, go);
    } else if f.native.TFloat32? || f.native.TFloat64? {
      FloatsStore(f, v, c, go);
    } else {
      OthersStore(f, v, c, go);
    }
  }

  lemma {:induction false} NilStores(f: FieldMeta, c: GoValue, go: Go)
    ensures WriteValue(f, Nil, go) == Good(c) <==> f.nullable && c.Nil?
  {
  }

  lemma {:induction false} FloatsStore(f: FieldMeta, v: GoValue, c: GoValue, go: Go)
    requires (f.native.TFloat32? || f.native.TFloat64?) && !v.Nil?
    ensures WriteValue(f, v, go) == Good(c) <==> Stores(f, v, c, go)
  {
    hide ToFloat64, ReadsAsFloat;
    FloatReads(v, go);
  }

  lemma {:induction false} OthersStore(f: FieldMeta, v: GoValue, c: GoValue, go: Go)
    requires !v.Nil? && !IsInteger(f.native) && !f.native.TFloat32? && !f.native.TFloat64?
    ensures WriteValue(f, v, go) == Good(c) <==> Stores(f, v, c, go)
  {
    hide ByteLength, Utf8Bytes;
    if v.Text? {
      ByteLengthIsUtf8(v.text);
    }
    VectorsFinite(v);
  }

  lemma {:induction false} FloatReads(v: GoValue, go: Go)
    ensures forall x :: ReadsAsFloat(v, x, go) <==> ToFloat64(v, go) == Some(Finite(x))
  {
  }

  lemma {:induction false} VectorsFinite(v: GoValue)
    ensures v.Vector? ==>
      ((exists i :: 0 <= i < |v.xs| && !v.xs[i].Finite?) <==> !(forall x :: x in v.xs ==> x.Finite?))
  {
  }

  lemma {:induction false} IntegersStore(f: FieldMeta, v: GoValue, c: GoValue, go: Go)
    requires IsInteger(f.native) && !v.Nil?
    ensures WriteValue(f, v, go) == Good(c) <==> Stores(f, v, c, go)
  {
    hide Denotes, SpelledAsInteger, InBoundaries, FitsWidth, ToInt64;
    forall n ensures WriteValue(f, v, go) == Good(IntegerCell(n, f.native)) <==>
                     Denotes(v, n, go) && FitsWidth(n, f.native) && (SpelledAsInteger(v, go) || -TWO_53 < n < TWO_53)
    {
      IntegersAreExact(f, v, n, go);
      BoundariesFit(n, f.native);
    }
  }

  // The integer a value stands for, as a number and not as its nearest double.
  ghost predicate Denotes(v: GoValue, n: int, go: Go) {
    match v
    case Number(s) => go.int64(s) == Some(n) || (go.int64(s).None? && go.float64(s) == Some(n as real))
    case Float64(Finite(x)) => x == n as real
    case Int64(m) => m == n
    case Int32(m) => m == n
    case _ => false
  }

  predicate SpelledAsInteger(v: GoValue, go: Go) {
    v.Int64? || v.Int32? || (v.Number? && go.int64(v.literal).Some?)
  }

  /** An integer field takes a value exactly when it stands for an integer in the field's range - spelled as
      a 64-bit integer, or as a float below 2^53 - and stores that integer, never rounded or wrapped. */
  lemma IntegersAreExact(f: FieldMeta, v: GoValue, n: int, go: Go)
    requires IsInteger(f.native) && !v.Nil?
    ensures WriteValue(f, v, go) == Good(IntegerCell(n, f.native)) <==>
      Denotes(v, n, go) && InBoundaries(n, f.native) && (SpelledAsInteger(v, go) || -TWO_53 < n < TWO_53)
  {
  }

  // ----- all cells -----

  ghost predicate Known(meta: Meta, name: string) {
    exists i :: 0 <= i < |meta.fields| && meta.fields[i].name == name
  }

  // A supplied cell that may be stored in its field.
  ghost predicate Fits(meta: Meta, name: string, v: GoValue, go: Go) {
    && name !in meta.functionOutputs
    && Known(meta, name)
    && forall i :: 0 <= i < |meta.fields| && meta.fields[i].name == name ==>
         !meta.fields[i].autoId && WriteValue(meta.fields[i], v, go).Good?
  }

  ghost predicate RowFits(meta: Meta, row: WriteRow, go: Go) {
    forall name :: name in row ==> Fits(meta, name, row[name], go)
  }

  // A field every row must supply.
  predicate Required(f: FieldMeta) {
    !f.autoId && !f.nullable
  }

  /** The declarative rule: every supplied cell fits a known, non-generated field, and every absent field is
      nullable or auto-generated. */
  ghost predicate Accepts(meta: Meta, rows: seq<WriteRow>, go: Go) {
    && (forall j :: 0 <= j < |rows| ==> RowFits(meta, rows[j], go))
    && (forall i, j :: 0 <= i < |meta.fields| && 0 <= j < |rows| ==>
      meta.fields[i].autoId || meta.fields[i].nullable || meta.fields[i].name in rows[j])
  }

  datatype Rejection = Rejection(reason: Class, field: string)

  // What a rejected cell did wrong.
  ghost predicate CellViolates(meta: Meta, name: string, v: GoValue, reason: Class, go: Go) {
    if reason.FunctionField? then name in meta.functionOutputs
    else if reason.UnknownField? then !Known(meta, name)
    else
      exists i :: 0 <= i < |meta.fields| && meta.fields[i].name == name
        && (if reason.AutoId? then meta.fields[i].autoId else WriteValue(meta.fields[i], v, go) == Bad(reason))
  }

  ghost predicate Misses(meta: Meta, row: WriteRow, name: string) {
    name !in row && exists i :: 0 <= i < |meta.fields| && meta.fields[i].name == name && Required(meta.fields[i])
  }

  // The rejection names a violation that is really there.
  ghost predicate Justified(meta: Meta, rows: seq<WriteRow>, r: Rejection, go: Go) {
    exists j :: 0 <= j < |rows| && RowJustifies(meta, rows[j], r, go)
  }

  ghost predicate RowJustifies(meta: Meta, row: WriteRow, r: Rejection, go: Go) {
    if r.reason.Missing? then Misses(meta, row, r.field)
    else r.field in row && CellViolates(meta, r.field, row[r.field], r.reason, go)
  }

  // What a row puts in a field.
  function CellOf(f: FieldMeta, row: WriteRow, go: Go): GoValue {
    if f.name in row && WriteValue(f, row[f.name], go).Good? then WriteValue(f, row[f.name], go).cell else Nil
  }

  method IndexByName(meta: Meta) returns (byName: map<string, nat>)
    requires meta.Valid()
    ensures forall name :: name in byName <==> Known(meta, name)
    ensures forall name :: name in byName ==> byName[name] < |meta.fields| && meta.fields[byName[name]].name == name
  {
    byName := map[];
    for i := 0 to |meta.fields|
      invariant forall k :: 0 <= k < i ==> meta.fields[k].name in byName
      invariant forall name :: name in byName ==> byName[name] < i && meta.fields[byName[name]].name == name
    {
      byName := byName[meta.fields[i].name := i];
    }
  }

  /** One cell of the validation: where it goes and what is stored, or why not. */
  method CheckCell(meta: Meta, byName: map<string, nat>, name: string, v: GoValue, go: Go)
    returns (i: nat, r: Checked)
    requires meta.Valid()
    requires forall n :: n in byName <==> Known(meta, n)
    requires forall n :: n in byName ==> byName[n] < |meta.fields| && meta.fields[byName[n]].name == n
    ensures r.Good? <==> Fits(meta, name, v, go)
    ensures r.Good? ==> i < |meta.fields| && meta.fields[i].name == name && WriteValue(meta.fields[i], v, go) == r
    ensures r.Bad? ==> !r.reason.Missing? && CellViolates(meta, name, v, r.reason, go)
  {
    hide WriteValue;
    if name in meta.functionOutputs {
      return 0, Bad(FunctionField);
    }
    if name !in byName {
      return 0, Bad(UnknownField);
    }
    i := byName[name];
    if meta.fields[i].autoId {
      return i, Bad(AutoId);
    }
    r := WriteValue(meta.fields[i], v, go);
    NeverMissing(meta.fields[i], v, go);
  }

  lemma NeverMissing(f: FieldMeta, v: GoValue, go: Go)
    ensures WriteValue(f, v, go).Bad? ==>
      var c := WriteValue(f, v, go).reason; !c.Missing? && !c.FunctionField? && !c.UnknownField? && !c.AutoId?
  {
  }
}
