/** stripWhereQualifiers (internal/translate/pg/parser.go): a column may be written with its table's name or
    alias in front. Stripping the qualifier keeps the clause's value; any other table is refused. */
module PgQualifiers {
  import opened Wrappers
  import opened Loops
  import opened Milvus
  import opened Schema
  import opened PgWhere
  import opened PgExact
  import PgRoundTrip

  // strings.Cut at the first dot: the table's own columns lose the qualifier.
  function StripName(col: string, names: set<string>): Result<string> {
    var d := PgRoundTrip.FirstDot(col);
    if d == |col| then Ok(col) else if col[..d] in names then Ok(col[d + 1..]) else Err(Unsupported)
  }

  // The same predicate on another column.
  function Renamed(w: Where, col: string): Where {
    match w
    case WCol(_) => WCol(col)
    case WCmp(op, _, val) => WCmp(op, col, val)
    case WIn(_, vals, negated) => WIn(col, vals, negated)
    case WBetween(_, lo, hi, negated) => WBetween(col, lo, hi, negated)
    case WNull(_, negated) => WNull(col, negated)
    case _ => w
  }

  function Strip(w: Where, names: set<string>): Result<Where>
    decreases w, 1
  {
    match w
    case WTrue => Ok(w)
    case WFalse => Ok(w)
    case WNot(c) =>
      var child :- Strip(c, names);
      Ok(WNot(child))
    case WAnd(parts) =>
      var stripped :- StripParts(parts, names);
      Ok(WAnd(stripped))
    case WOr(parts) =>
      var stripped :- StripParts(parts, names);
      Ok(WOr(stripped))
    case _ =>
      var col :- StripName(w.col, names);
      Ok(Renamed(w, col))
  }

  function StripParts(ws: seq<Where>, names: set<string>): (r: Result<seq<Where>>)
    ensures r.Ok? ==> |r.value| == |ws| && forall i :: 0 <= i < |ws| ==> Strip(ws[i], names) == Ok(r.value[i])
    decreases ws, 0
  {
    if ws == [] then Ok([])
    else
      var head :- Strip(ws[0], names);
      var tail :- StripParts(ws[1..], names);
      Ok([head] + tail)
  }

  method StripQualifiers(w: Where, names: set<string>) returns (r: Result<Where>)
    ensures r == Strip(w, names)
    decreases w, 2
  {
    match w
    case WTrue => return Ok(w);
    case WFalse => return Ok(w);
    case WNot(c) =>
      var child := StripQualifiers(c, names);
      return if child.Err? then Err(child.error) else Ok(WNot(child.value));
    case WAnd(parts) =>
      var stripped := StripList(parts, w, names);
      return if stripped.Err? then Err(stripped.error) else Ok(WAnd(stripped.value));
    case WOr(parts) =>
      var stripped := StripList(parts, w, names);
      return if stripped.Err? then Err(stripped.error) else Ok(WOr(stripped.value));
    case _ =>
      var col := StripName(w.col, names);
      return if col.Err? then Err(col.error) else Ok(Renamed(w, col.value));
  }

  // stripParts
  method StripList(parts: seq<Where>, ghost w: Where, names: set<string>) returns (r: Result<seq<Where>>)
    requires forall c :: c in parts ==> c < w
    ensures r == StripParts(parts, names)
    decreases w, 0
  {
    var out: seq<Where> := [];
    Start(parts, StripParts(parts, names));
    for i := 0 to |parts|
      invariant StripParts(parts, names) == Prefixed(out, StripParts(parts[i..], names))
    {
      Rest(parts, i);
      var part := StripQualifiers(parts[i], names);
      if part.Err? {
        return Err(part.error);
      }
      Append(out, part.value, StripParts(parts[i + 1..], names));
      out := out + [part.value];
    }
    Finish(out);
    return Ok(out);
  }

  // ----- meaning -----

  /** A world in which the columns are also known by their qualified names. */
  ghost predicate KnowsQualified(qualified: World, plain: World, names: set<string>) {
    && qualified.server == plain.server && qualified.readers == plain.readers
    && forall col :: StripName(col, names).Ok? ==>
         && qualified.row(col) == plain.row(StripName(col, names).value)
         && qualified.schema.TypeOf(col) == plain.schema.TypeOf(StripName(col, names).value)
  }

  function Names(types: map<string, FieldType>, names: set<string>): set<string> {
    types.Keys + set n, c | n in names && c in types :: n + "." + c
  }

  // A world and its columns' qualified names.
  function Qualified(w: World, names: set<string>): World {
    var types := map col | col in Names(w.schema.types, names) && StripName(col, names).Ok? ::
      w.schema.TypeOf(StripName(col, names).value);
    w.(row := col => if StripName(col, names).Ok? then w.row(StripName(col, names).value) else None,
       schema := w.schema.(types := types))
  }

  lemma {:induction false} QualifiedKnows(w: World, names: set<string>)
    ensures KnowsQualified(Qualified(w, names), w, names)
  {
    forall col | StripName(col, names).Ok?
      ensures Qualified(w, names).schema.TypeOf(col) == w.schema.TypeOf(StripName(col, names).value)
    {
      var name := StripName(col, names).value;
      if name in w.schema.types {
        var d := PgRoundTrip.FirstDot(col);
        assert d < |col| ==> col == col[..d] + "." + name;
        assert col in Names(w.schema.types, names);
      }
    }
  }

  lemma SameCoercion(col: string, name: string, l: SqlLiteral, a: Catalog, b: Catalog, readers: Readers)
    requires a.TypeOf(col) == b.TypeOf(name)
    ensures Coerce(col, l, a, readers) == Coerce(name, l, b, readers)
  {
  }

  lemma SameOrdering(col: string, l: SqlLiteral, qualified: World, plain: World, names: set<string>)
    requires KnowsQualified(qualified, plain, names) && StripName(col, names).Ok?
    ensures Ordering(col, l, qualified) == Ordering(StripName(col, names).value, l, plain)
  {
    hide Coerce, StripName;
    SameCoercion(col, StripName(col, names).value, l, qualified.schema, plain.schema, plain.readers);
  }

  lemma LeafTruth(w: Where, qualified: World, plain: World, names: set<string>)
    requires !w.WTrue? && !w.WFalse? && !w.WNot? && !w.WAnd? && !w.WOr?
    requires KnowsQualified(qualified, plain, names) && StripName(w.col, names).Ok?
    ensures WhereTruth(Renamed(w, StripName(w.col, names).value), plain) == WhereTruth(w, qualified)
  {
    hide Ordering, StripName;
    var name := StripName(w.col, names).value;
    forall l ensures Ordering(w.col, l, qualified) == Ordering(name, l, plain) {
      SameOrdering(w.col, l, qualified, plain, names);
    }
  }

  /** What is left after stripping has, over the plain columns, the value the clause as written has over the
      qualified ones. */
  lemma {:induction false} StripKeepsTruth(w: Where, qualified: World, plain: World, names: set<string>)
    requires KnowsQualified(qualified, plain, names) && Strip(w, names).Ok?
    ensures WhereTruth(Strip(w, names).value, plain) == WhereTruth(w, qualified)
    decreases w
  {
    hide KnowsQualified, StripName;
    if w.WNot? {
      StripKeepsTruth(w.child, qualified, plain, names);
    } else if w.WAnd? || w.WOr? {
      var stripped := StripParts(w.parts, names).value;
      forall i | 0 <= i < |stripped|
        ensures w.parts[i] in w.parts && stripped[i] in stripped
        ensures WhereTruth(stripped[i], plain) == WhereTruth(w.parts[i], qualified)
      {
        StripKeepsTruth(w.parts[i], qualified, plain, names);
      }
      assert forall t: Truth :: SomePart(stripped, t, plain) <==> SomePart(w.parts, t, qualified);
      GroupTruth(stripped, plain);
      GroupTruth(w.parts, qualified);
    } else if !w.WTrue? && !w.WFalse? {
      LeafTruth(w, qualified, plain, names);
    }
  }
}
