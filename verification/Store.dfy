/** The collection a search runs on and what Milvus answers about it: a page of a query is the matches
    from an offset on, in ascending primary-key order. The search relies on this; nothing here proves it
    of the server. */
module Store {
  import opened Wrappers
  import opened Milvus
  import opened Rows
  import RowSort
  import RenderRead
  import Emitted

  function Select(rows: seq<Record>, keep: Record -> bool): seq<Record> {
    if rows == [] then []
    else (if keep(rows[0]) then [rows[0]] else []) + Select(rows[1..], keep)
  }

  // From offset on, limit rows at most.
  function Window(rows: seq<Record>, offset: nat, limit: nat): seq<Record> {
    if limit <= 0 then []
    else if offset >= |rows| then []
    else rows[offset..if offset + limit > |rows| then |rows| else offset + limit]
  }

  function Fetched(r: Record, fetch: seq<string>): Record {
    map f | f in fetch && f in r :: r[f]
  }

  function AllFetched(rows: seq<Record>, fetch: seq<string>): (out: seq<Record>)
    ensures |out| == |rows| && forall i :: 0 <= i < |rows| ==> out[i] == Fetched(rows[i], fetch)
  {
    if rows == [] then [] else [Fetched(rows[0], fetch)] + AllFetched(rows[1..], fetch)
  }

  // A key cell as a literal, so that the cursor can ride Render.
  function ScalarValue(c: Cell, rt: Runtime): Value {
    match c
    case StrCell(s) => Str(s)
    case IntCell(n) => Int(n)
    case RealCell(_) => Float(rt.show(c))
    case BoolCell(b) => Flag(b)
    case OtherCell(_) => Str(rt.show(c))
  }

  class Collection {
    const pk: string
    const rows: seq<Record>
    const server: Server
    const rt: Runtime
    var queries: nat // page queries served

    constructor (pk: string, rows: seq<Record>, server: Server, rt: Runtime)
      ensures this.pk == pk && this.rows == rows && this.server == server && this.rt == rt && queries == 0
    {
      this.pk := pk;
      this.rows := rows;
      this.server := server;
      this.rt := rt;
      queries := 0;
    }

    /** Rows in strictly ascending key order, keys of one kind, string or 64-bit integer; the server's
        comparison of a key with a key literal is that order. */
    ghost predicate Valid() {
      && Emitted.IsName(pk)
      && (forall r: Record :: r in rows ==> pk in r && (r[pk].StrCell? || r[pk].IntCell?))
      && RowSort.InKeyOrder(rows, pk, rt)
      && forall a: Record, b: Record :: a in rows && b in rows ==>
           server.Holds(GT, a[pk], ReadBack(ScalarValue(b[pk], rt))) == RowSort.KeyLess(b, a, pk, rt)
    }

    predicate Selects(e: Expr, r: Record) {
      Passes(e, AsRow(r), server)
    }

    function Matching(e: Expr): seq<Record> {
      Select(rows, r => Selects(e, r))
    }

    // What the server makes of a filter text; a text it cannot read is an error.
    function Answer(text: string): Result<seq<Record>> {
      match RenderRead.Read(text)
      case None => Err(Internal)
      case Some(e) => Ok(Matching(e))
    }

    method QueryPage(text: string, fetch: seq<string>, offset: nat, limit: nat) returns (r: Result<seq<Record>>)
      modifies this`queries
      ensures queries == old(queries) + 1
      ensures r == match Answer(text)
                   case Err(e) => Err(e) case Ok(all) => Ok(AllFetched(Window(all, offset, limit), fetch))
    {
      queries := queries + 1;
      var all := Answer(text);
      if all.Err? { return Err(all.error); }
      return Ok(AllFetched(Window(all.value, offset, limit), fetch));
    }

    // count(*)
    method Count(text: string) returns (r: Result<nat>)
      ensures r == match Answer(text) case Err(e) => Err(e) case Ok(all) => Ok(|all|)
    {
      var all := Answer(text);
      return if all.Err? then Err(all.error) else Ok(|all.value|);
    }
  }
}
