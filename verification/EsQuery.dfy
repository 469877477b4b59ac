/** The Elasticsearch query tree (internal/translate/es/query.go) and the set of rows it matches.
    Matching is two-valued: a row whose field is missing does not match a clause on that field. */
module EsQuery {
  import opened Wrappers
  import opened Text
  import opened Milvus
  import opened Schema

  // A JSON scalar as written.
  datatype Scalar = JsonNumber(text: string) | JsonString(text: string) | JsonBool(flag: bool)

  datatype Bound = Bound(op: string, value: Scalar)

  datatype Query =
    | MatchAll
    | MatchNone
    | Bool(must: seq<Query>, filter: seq<Query>, should: seq<Query>, mustNot: seq<Query>, minShould: nat)
    | Term(field: string, value: Scalar)
    | Terms(field: string, values: seq<Scalar>)
    | Match(field: string, value: Scalar, operator: string)
    | Range(field: string, bounds: seq<Bound>)
    | Exists(field: string)

  // The shapes parseTerms and parseRange let through.
  ghost predicate Parsed(q: Query) {
    match q
    case Bool(must, filter, should, mustNot, _) =>
      forall c :: c in must || c in filter || c in should || c in mustNot ==> Parsed(c)
    case Terms(_, values) => values != []
    case Range(_, bounds) => bounds != []
    case _ => true
  }

  function FormatBool(b: bool): string {
    if b then "true" else "false"
  }

  predicate HasDateMath(s: string) {
    exists i :: 0 <= i < |s| - 1 && s[i] == '|' && s[i + 1] == '|'
  }

  function DateValue(s: string, readers: Readers): Result<Value> {
    if HasDateMath(s) then Err(Unsupported)
    else match readers.millis(s) case Some(ms) => Ok(Int(ms)) case None => Err(Illegal)
  }

  /** The storage encoding of a query value, by the type of the field it is compared with. */
  function Coerce(field: string, v: Scalar, schema: Catalog, readers: Readers): Result<Value> {
    match v
    case JsonNumber(text) =>
      if schema.TypeOf(field).Keyword? then Ok(Str(text))
      else if readers.int64(text).Some? then Ok(Int(readers.int64(text).value))
      else (match readers.float64(text) case Some(f) => Ok(Float(f)) case None => Err(Illegal))
    case JsonString(text) =>
      (match schema.TypeOf(field)
       case Date => DateValue(text, readers)
       case Number => (match readers.float64(text) case Some(f) => Ok(Float(f)) case None => Err(Illegal))
       case Boolean => if text == "true" || text == "false" then Ok(Flag(text == "true")) else Err(Illegal)
       case _ => Ok(Str(text)))
    case JsonBool(flag) =>
      (match schema.TypeOf(field)
       case Number => Ok(Int(if flag then 1 else 0))
       case Keyword => Ok(Str(FormatBool(flag)))
       case AnalyzedText => Ok(Str(FormatBool(flag)))
       case _ => Ok(Flag(flag)))
  }

  function Tokenize(s: string): seq<string> {
    Fields(s, IsSpace)
  }

  // A match clause over one of these types is an exact comparison, over any other a token match.
  predicate ComparesExactly(t: FieldType) {
    t.Keyword? || t.Number? || t.Boolean?
  }

  function ScalarText(v: Scalar): string {
    match v
    case JsonNumber(text) => text
    case JsonString(text) => text
    case JsonBool(flag) => FormatBool(flag)
  }

  // ----- what a scalar stands for -----

  // The text of a scalar as written.
  ghost predicate IsText(v: Scalar, text: string) {
    v == JsonString(text) || v == JsonNumber(text) || (v == JsonBool(true) && text == "true")
    || (v == JsonBool(false) && text == "false")
  }

  // A number as written: a 64-bit integer if it is one, otherwise a float.
  ghost predicate IsNumber(text: string, l: Literal, readers: Readers) {
    (exists n :: readers.int64(text) == Some(n) && l == NumberLiteral(Decimal(n)))
    || (readers.int64(text).None? && exists f :: readers.float64(text) == Some(f) && l == NumberLiteral(f))
  }

  // Date math has a double bar before its adjustments.
  ghost predicate DateMath(text: string) {
    exists anchor, adjustments :: text == anchor + "||" + adjustments
  }

  /** Elasticsearch's coercions: the literal a scalar stands for in a comparison with a field of a type. A
      keyword is compared as text and a boolean as a boolean; a number takes numeric strings, and booleans
      as 1 and 0; a date takes date strings. A scalar the type has no reading of stands for nothing. */
  ghost predicate Denotes(t: FieldType, v: Scalar, l: Literal, readers: Readers) {
    match t
    case Keyword => exists text :: IsText(v, text) && l == TextLiteral(text)
    case Number =>
      || (v.JsonNumber? && IsNumber(v.text, l, readers))
      || (v.JsonString? && exists f :: readers.float64(v.text) == Some(f) && l == NumberLiteral(f))
      || (v == JsonBool(true) && l == NumberLiteral("1")) || (v == JsonBool(false) && l == NumberLiteral("0"))
    case Boolean =>
      || (v in {JsonBool(true), JsonString("true")} && l == TruthLiteral(true))
      || (v in {JsonBool(false), JsonString("false")} && l == TruthLiteral(false))
      || (v.JsonNumber? && IsNumber(v.text, l, readers))
    case Date =>
      || (v.JsonString? && !DateMath(v.text)
          && exists ms :: readers.millis(v.text) == Some(ms) && l == NumberLiteral(Decimal(ms)))
      || (v.JsonNumber? && IsNumber(v.text, l, readers))
      || (v.JsonBool? && l == TruthLiteral(v.flag))
    case AnalyzedText =>
      if v.JsonNumber? then IsNumber(v.text, l, readers) else exists text :: IsText(v, text) && l == TextLiteral(text)
    case _ =>
      || (v.JsonNumber? && IsNumber(v.text, l, readers))
      || (v.JsonString? && l == TextLiteral(v.text)) || (v.JsonBool? && l == TruthLiteral(v.flag))
  }

  lemma {:induction false} OneText(v: Scalar, text: string)
    ensures IsText(v, text) <==> text == ScalarText(v)
  {
  }

  lemma {:induction false} HasDateMathIs(s: string)
    ensures HasDateMath(s) <==> DateMath(s)
  {
    if i :| 0 <= i < |s| - 1 && s[i] == '|' && s[i + 1] == '|' {
      assert s == s[..i] + "||" + s[i + 2..];
    }
    if anchor, adjustments :| s == anchor + "||" + adjustments {
      assert s[|anchor|] == '|' && s[|anchor| + 1] == '|';
    }
  }

  lemma {:induction false} SmallDecimals()
    ensures Decimal(0) == "0" && Decimal(1) == "1"
  {
  }

  /** The storage encoding of a scalar is, as the dialect reads it, the one literal the scalar stands for; it
      is refused exactly when the scalar stands for nothing. */
  lemma {:induction false} CoerceDenotes(field: string, v: Scalar, schema: Catalog, readers: Readers)
    ensures var coerced := Coerce(field, v, schema, readers);
      forall l :: Denotes(schema.TypeOf(field), v, l, readers) <==> coerced.Ok? && l == ReadBack(coerced.value)
  {
    hide Decimal;
    forall text ensures IsText(v, text) <==> text == ScalarText(v) {
      OneText(v, text);
    }
    if v.JsonString? {
      HasDateMathIs(v.text);
    }
    SmallDecimals();
  }

  // How a field's cell compares with a scalar.
  ghost predicate ValueHolds(field: string, op: string, v: Scalar, w: World)
    requires w.row(field).Some?
  {
    exists l :: Denotes(w.schema.TypeOf(field), v, l, w.readers) && w.server.Holds(op, w.row(field).value, l)
  }

  lemma {:induction false} ValueHoldsCoerced(field: string, op: string, v: Scalar, w: World)
    requires w.row(field).Some?
    ensures var coerced := Coerce(field, v, w.schema, w.readers);
      ValueHolds(field, op, v, w)
      <==> coerced.Ok? && w.server.Holds(op, w.row(field).value, ReadBack(coerced.value))
  {
    hide Coerce, Denotes;
    CoerceDenotes(field, v, w.schema, w.readers);
  }

  // Every term of the text, of which there is one at least, or some term of it.
  ghost predicate TokensHold(field: string, v: Scalar, operator: string, w: World)
    requires w.row(field).Some?
  {
    var cell := w.row(field).value;
    exists text :: IsText(v, text) && (exists t :: WordIn(text, t, IsSpace) && w.server.contains(cell, t))
      && (operator == "and" ==> forall t :: WordIn(text, t, IsSpace) ==> w.server.contains(cell, t))
  }

  lemma {:induction false} TokensHoldTokenized(field: string, v: Scalar, operator: string, w: World)
    requires w.row(field).Some?
    ensures var tokens := Tokenize(ScalarText(v));
      TokensHold(field, v, operator, w)
      <==> if operator == "and"
           then tokens != [] && forall t :: t in tokens ==> w.server.contains(w.row(field).value, t)
           else exists t :: t in tokens && w.server.contains(w.row(field).value, t)
  {
    hide WordIn, IsSpace;
    var text := ScalarText(v);
    OneText(v, text);
    FieldsAreRuns(text, IsSpace);
    forall other ensures IsText(v, other) <==> other == text {
      OneText(v, other);
    }
    var tokens := Tokenize(text);
    assert tokens != [] ==> tokens[0] in tokens;
  }

  /** Which rows Elasticsearch matches. */
  ghost predicate Matches(q: Query, w: World) {
    match q
    case MatchAll => true
    case MatchNone => false
    case Bool(must, filter, should, mustNot, minShould) =>
      && (forall c :: c in must ==> Matches(c, w))
      && (forall c :: c in filter ==> Matches(c, w))
      && (forall c :: c in mustNot ==> !Matches(c, w))
      && (should == [] || CountMatches(should, w) >= minShould)
    case Term(f, v) => w.row(f).Some? && ValueHolds(f, EQ, v, w)
    case Terms(f, vs) => w.row(f).Some? && exists v :: v in vs && ValueHolds(f, EQ, v, w)
    case Match(f, v, operator) =>
      w.row(f).Some? &&
      if w.schema.TypeOf(f) in {Keyword, Number, Boolean} then ValueHolds(f, EQ, v, w)
      else TokensHold(f, v, operator, w)
    case Range(f, bounds) => w.row(f).Some? && forall b :: b in bounds ==> ValueHolds(f, b.op, b.value, w)
    case Exists(f) => w.row(f).Some?
  }

  ghost function CountMatches(qs: seq<Query>, w: World): nat {
    if qs == [] then 0 else (if Matches(qs[0], w) then 1 else 0) + CountMatches(qs[1..], w)
  }

  lemma CountBounds(qs: seq<Query>, w: World)
    ensures CountMatches(qs, w) <= |qs|
    ensures CountMatches(qs, w) > 0 <==> exists c :: c in qs && Matches(c, w)
  {
    if qs != [] {
      CountBounds(qs[1..], w);
      assert forall c :: c in qs <==> c == qs[0] || c in qs[1..];
    }
  }
}
