/** What a collection's schema answers the translators, and the text readers both fronts rely on. */
module Schema {
  import opened Wrappers
  import opened Milvus

  datatype FieldType = Keyword | AnalyzedText | Number | Boolean | Date | Vector | UnknownType

  datatype Catalog = Catalog(types: map<string, FieldType>, nulls: set<string>) {
    function TypeOf(field: string): FieldType {
      if field in types then types[field] else UnknownType
    }

    predicate Nullable(field: string) {
      field in nulls
    }

    // Nulls only sit in the fields the schema declares nullable; no field has the empty name.
    ghost predicate Describes(row: Row) {
      "" !in nulls && forall f :: !Nullable(f) ==> row(f).Some?
    }
  }

  // Number and date parsing: a 64-bit integer, the text of a float, epoch milliseconds.
  datatype Readers = Readers(
    int64: string -> Option<int>, float64: string -> Option<string>, millis: string -> Option<int>)

  // What a filter is asked about: a row, the server's reading of its cells, the schema.
  datatype World = World(row: Row, server: Server, schema: Catalog, readers: Readers)

  // The filter of a plan; NoMatch is answered without asking the server.
  datatype Plan = NoMatch | Filter(expr: Expr)

  // The rows a plan returns: none at all, or those its filter is true on.
  predicate Answers(plan: Plan, row: Row, server: Server) {
    plan.Filter? && Passes(plan.expr, row, server)
  }
}
