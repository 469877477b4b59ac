/** SplitStatements (internal/catalog/split.go): splitting a query string at its semicolons commutes
    with lexing it, through literals, escape strings and nested comments. */
module SqlSplit {
  import opened Wrappers
  import opened Text
  import opened SqlTokens
  import opened SqlLexer
  import opened SqlLocal

  const SEMICOLON := Op(";")

  // The offsets the lexer hands out: within the text from `from` on, increasing.
  ghost predicate Placing(ps: seq<Placed>, from: nat, sql: string) {
    && from <= |sql|
    && (forall i :: 0 <= i < |ps| ==> from <= ps[i].pos <= |sql| && (ps[i].token == SEMICOLON ==> ps[i].pos < |sql|))
    && (forall i, j :: 0 <= i < j < |ps| ==> ps[i].pos < ps[j].pos)
  }

  function NonBlank(part: string): seq<string> {
    if Trim(part) == "" then [] else [Trim(part)]
  }

  // The statements among the tokens still to be walked, the current one starting at `start`.
  function Parts(sql: string, ps: seq<Placed>, start: nat): seq<string>
    requires Placing(ps, start, sql)
  {
    if ps == [] || ps[0].token.Eof? then NonBlank(sql[start..])
    else if ps[0].token == SEMICOLON then NonBlank(sql[start..ps[0].pos]) + Parts(sql, ps[1..], ps[0].pos + 1)
    else Parts(sql, ps[1..], start)
  }

  function Split(sql: string): seq<string> {
    var lexed := Lex(sql, 0, CATALOG);
    if lexed.Err? then [sql]
    else
      LexPlaces(sql, 0, sql, CATALOG);
      var parts := Parts(sql, lexed.value, 0);
      if parts == [] then [sql] else parts
  }

  lemma {:induction false} LexPlaces(s: string, base: nat, sql: string, d: Dialect)
    requires base <= |sql| && s == sql[base..] && Lex(s, base, d).Ok?
    ensures Placing(Lex(s, base, d).value, base, sql)
    decreases |s|
  {
    hide Turned;
    if s != "" {
      var n := Turned(s, d).length;
      assert s[n..] == sql[base + n..];
      LexPlaces(s[n..], base + n, sql, d);
    }
  }

  // ----- the first statement -----

  // The tokens before the first semicolon or the end.
  function Leading(ps: seq<Placed>): seq<Placed> {
    if ps == [] || ps[0].token.Eof? || ps[0].token == SEMICOLON then [] else [ps[0]] + Leading(ps[1..])
  }

  // The offset of the first semicolon that is a token; the length of the text if there is none.
  function StatementLength(s: string, d: Dialect): (k: nat)
    ensures k <= |s|
    decreases |s|
  {
    if s == "" || Turned(s, d).Fail? then |s|
    else if Turned(s, d).Emit? && Turned(s, d).token == SEMICOLON then 0
    else Turned(s, d).length + StatementLength(s[Turned(s, d).length..], d)
  }

  lemma {:induction false} SemicolonTurn(s: string, d: Dialect)
    requires s != "" && Turned(s, d).Emit? && Turned(s, d).token == SEMICOLON
    ensures Turned(s, d).length == 1 && s[0] == ';'
  {
    hide WordLength, CommentLength, Quoted, Escaped, NumberLength, Operator, SkipDigits;
  }

  // What the tokens of a text are after its first statement.
  function Remaining(s: string, base: nat, k: nat, d: Dialect): Result<seq<Placed>>
    requires k <= |s|
  {
    if k == |s| then Ok([Placed(Eof, base + k)])
    else
      var rest :- Lex(s[k + 1..], base + k + 1, d);
      Ok([Placed(SEMICOLON, base + k)] + rest)
  }

  ghost predicate Separates(s: string, base: nat, d: Dialect) {
    && Lex(s, base, d).Ok?
    && var k, ps := StatementLength(s, d), Lex(s, base, d).value;
    && (k < |s| ==> s[k] == ';')
    && Tokens(s[..k], d) == Ok(Words(Leading(ps)))
    && Remaining(s, base, k, d).Ok?
    && ps == Leading(ps) + Remaining(s, base, k, d).value
  }

  /** A text that lexes is its first statement, which lexes on its own into the tokens it has in place,
      and, after a semicolon, the rest. */
  lemma {:induction false} FirstStatement(s: string, base: nat, d: Dialect)
    requires Lex(s, base, d).Ok?
    ensures Separates(s, base, d)
    decreases |s|
  {
    hide Turned, Tokens, Words, Separates, Leading, StatementLength, Remaining;
    if s == "" {
      NoStatement("", base, d);
    } else if Turned(s, d).Emit? && Turned(s, d).token == SEMICOLON {
      NoStatement(s, base, d);
    } else {
      var n := Turned(s, d).length;
      FirstStatement(s[n..], base + n, d);
      StatementTurn(s, base, d);
    }
  }

  lemma {:induction false} NoStatement(s: string, base: nat, d: Dialect)
    requires Lex(s, base, d).Ok?
    requires s == "" || (Turned(s, d).Emit? && Turned(s, d).token == SEMICOLON)
    ensures Separates(s, base, d)
  {
    hide Turned, Tokens;
    TokensTurn("", d);
    assert s[..0] == "";
    if s != "" {
      SemicolonTurn(s, d);
      assert s[1..] == s[0 + 1..];
    }
    var ps := Lex(s, base, d).value;
    assert Leading(ps) == [] && Words([]) == [] && [] + Remaining(s, base, 0, d).value == ps;
  }

  lemma {:induction false} StatementTurn(s: string, base: nat, d: Dialect)
    requires s != "" && Lex(s, base, d).Ok?
    requires !(Turned(s, d).Emit? && Turned(s, d).token == SEMICOLON)
    requires Separates(s[Turned(s, d).length..], base + Turned(s, d).length, d)
    ensures Separates(s, base, d)
  {
    hide Turned, Tokens, Words, Leading, Remaining;
    var n, k := Turned(s, d).length, StatementLength(s, d);
    var inner := s[n..];
    var ps, more := Lex(s, base, d).value, Lex(inner, base + n, d).value;
    RemainingTurn(s, base, n, k, d);
    var a := s[..k];
    assert s == a + s[k..] && inner[..k - n] == a[n..];
    TurnIsLocal(a, s[k..], d);
    TokensTurn(a, d);
    if Turned(s, d).Emit? {
      EmitsNoEnd(s, d);
      LeadingStep(ps, more, Placed(Turned(s, d).token, base));
      assert ps == [ps[0]] + (Leading(more) + Remaining(s, base, k, d).value);
    }
  }

  lemma {:induction false} RemainingTurn(s: string, base: nat, n: nat, k: nat, d: Dialect)
    requires n <= k <= |s|
    ensures Remaining(s[n..], base + n, k - n, d) == Remaining(s, base, k, d)
  {
    if k < |s| {
      assert s[n..][k - n + 1..] == s[k + 1..];
    }
  }

  lemma {:induction false} LeadingStep(ps: seq<Placed>, rest: seq<Placed>, p: Placed)
    requires ps == [p] + rest && !p.token.Eof? && p.token != SEMICOLON
    ensures Leading(ps) == [p] + Leading(rest) && Words(Leading(ps)) == [p.token] + Words(Leading(rest))
  {
    assert Leading(ps) == [p] + Leading(rest);
  }

  // ----- all statements -----

  function WithoutSemicolons(ts: seq<Token>): seq<Token> {
    if ts == [] then [] else (if ts[0] == SEMICOLON then [] else [ts[0]]) + WithoutSemicolons(ts[1..])
  }

  // The tokens of several texts, one after another.
  function AllTokens(parts: seq<string>, d: Dialect): Result<seq<Token>> {
    if parts == [] then Ok([])
    else
      var head :- Tokens(parts[0], d);
      var tail :- AllTokens(parts[1..], d);
      Ok(head + tail)
  }

  // A trimmed, non-empty text that is a single statement.
  ghost predicate Statement(part: string, d: Dialect) {
    part != "" && Trim(part) == part && Tokens(part, d).Ok? && SEMICOLON !in Tokens(part, d).value
  }

  lemma {:induction false} CatalogIsTight()
    ensures Tight(CATALOG)
  {
    hide TightOperator;
    TableSize();
    FirstTight();
    LastTight();
  }

  lemma {:induction false} TableSize()
    ensures CATALOG.operators == CATALOG_OPERATORS && |CATALOG_OPERATORS| == 26
  {
  }

  lemma {:induction false} FirstTight()
    ensures forall i :: 0 <= i < 13 ==> TightOperator(CATALOG_OPERATORS[i])
  {
  }

  lemma {:induction false} LastTight()
    ensures forall i :: 13 <= i < 26 ==> TightOperator(CATALOG_OPERATORS[i])
  {
  }

  // Nothing but white space and semicolons.
  ghost predicate Hollow(s: string) {
    forall i :: 0 <= i < |s| ==> IsSpace(s[i]) || s[i] == ';'
  }

  lemma {:induction false} TrimOfSpace(s: string)
    ensures Trim(s) == "" <==> AllSpace(s)
  {
    TrimLeftOfSpace(s);
    TrimRightEnds(TrimLeft(s));
    TrimLeftStarts(s);
    if TrimLeft(s) != "" {
      TrimRightOf(TrimLeft(s));
    }
  }

  lemma {:induction false} TrimLeftOfSpace(s: string)
    ensures TrimLeft(s) == "" <==> AllSpace(s)
  {
    if s != "" && IsSpace(s[0]) {
      TrimLeftOfSpace(s[1..]);
      assert forall i :: 1 <= i < |s| ==> s[i] == s[1..][i - 1];
    }
  }

  lemma {:induction false} TrimRightOf(s: string)
    requires s != "" && !IsSpace(s[0])
    ensures TrimRight(s) != ""
  {
    if IsSpace(s[|s| - 1]) {
      TrimRightOf(s[..|s| - 1]);
    }
  }

  // Outside white space a semicolon would be a token.
  lemma {:induction false} HollowStatement(s: string)
    requires Hollow(s) && Tokens(s, CATALOG).Ok? && SEMICOLON !in Tokens(s, CATALOG).value
    ensures AllSpace(s)
  {
    hide Tokens, Turned, CATALOG;
    if s != "" {
      CatalogIsTight();
      TokensTurn(s, CATALOG);
      if IsSpace(s[0]) {
        SpaceTurn(s, CATALOG);
        HollowStatement(s[1..]);
        assert forall i :: 1 <= i < |s| ==> s[i] == s[1..][i - 1];
      } else {
        SemicolonIsToken(s);
      }
    }
  }

  lemma {:induction false} SemicolonIsToken(s: string)
    requires s != "" && s[0] == ';'
    ensures Turned(s, CATALOG) == Emit(SEMICOLON, 1)
  {
    hide WordLength, CommentLength, Quoted, Escaped, NumberLength, SkipDigits;
    SemicolonListed(s);
    assert !("--" <= s) && !("/*" <= s);
  }

  lemma {:induction false} SemicolonListed(s: string)
    requires s != "" && s[0] == ';'
    ensures Operator(s, CATALOG_OPERATORS) == ";"
  {
    assert forall i :: 0 <= i < 11 ==> StartsOtherwise(CATALOG_OPERATORS[i]);
    assert forall i :: 11 <= i < 21 ==> StartsOtherwise(CATALOG_OPERATORS[i]);
    assert CATALOG_OPERATORS[21] == ";";
    OtherwiseSkipped(s, CATALOG_OPERATORS, 21);
  }

  predicate StartsOtherwise(op: string) {
    op != "" && op[0] != ';'
  }

  lemma {:induction false} OtherwiseSkipped(s: string, operators: seq<string>, k: nat)
    requires s != "" && s[0] == ';' && k < |operators| && operators[k] == ";"
    requires forall i :: 0 <= i < k ==> StartsOtherwise(operators[i])
    ensures Operator(s, operators) == ";"
  {
    assert ";" <= s;
    FirstOperator(s, operators, k);
  }

  lemma {:induction false} StatementOf(segment: string, ts: seq<Token>)
    requires Tokens(segment, CATALOG) == Ok(ts) && SEMICOLON !in ts
    ensures AllTokens(NonBlank(segment), CATALOG) == Ok(ts)
    ensures forall p :: p in NonBlank(segment) ==> Statement(p, CATALOG)
    ensures NonBlank(segment) == [] <==> Hollow(segment)
  {
    hide Tokens, CATALOG;
    CatalogIsTight();
    TrimOfSpace(segment);
    if Hollow(segment) {
      HollowStatement(segment);
    }
    TrimKeepsTokens(segment, CATALOG);
    TrimIdempotent(segment);
    TokensTurn("", CATALOG);
    if Trim(segment) != "" {
      assert NonBlank(segment)[1..] == [] && ts + [] == ts;
    }
  }

  lemma {:induction false} LeadingWords(ps: seq<Placed>, rest: seq<Placed>)
    ensures SEMICOLON !in Words(Leading(ps))
    ensures WithoutSemicolons(Words(Leading(ps) + rest)) == Words(Leading(ps)) + WithoutSemicolons(Words(rest))
  {
    if Leading(ps) == [] {
      assert [] + rest == rest;
    } else {
      LeadingWords(ps[1..], rest);
      WordsAhead(ps[0], Leading(ps[1..]), rest);
    }
  }

  lemma {:induction false} WordsAhead(p: Placed, more: seq<Placed>, rest: seq<Placed>)
    requires !p.token.Eof? && p.token != SEMICOLON
    ensures Words([p] + more) == [p.token] + Words(more)
    ensures WithoutSemicolons(Words([p] + more + rest)) == [p.token] + WithoutSemicolons(Words(more + rest))
  {
    assert ([p] + more)[1..] == more && ([p] + more + rest)[1..] == more + rest;
    var tail := Words(more + rest);
    assert Words([p] + more + rest) == [p.token] + tail;
    assert ([p.token] + tail)[1..] == tail;
  }

  lemma {:induction false} PartsOver(sql: string, ps: seq<Placed>, rest: seq<Placed>, start: nat)
    requires Placing(Leading(ps) + rest, start, sql) && Placing(rest, start, sql)
    ensures Parts(sql, Leading(ps) + rest, start) == Parts(sql, rest, start)
  {
    var all := Leading(ps) + rest;
    if Leading(ps) == [] {
      assert all == rest;
    } else {
      assert all[1..] == Leading(ps[1..]) + rest;
      PartsOver(sql, ps[1..], rest, start);
    }
  }

  lemma {:induction false} AllTokensAppend(ps: seq<string>, qs: seq<string>, d: Dialect)
    requires AllTokens(ps, d).Ok? && AllTokens(qs, d).Ok?
    ensures AllTokens(ps + qs, d) == Ok(AllTokens(ps, d).value + AllTokens(qs, d).value)
  {
    hide Tokens;
    if ps == [] {
      assert ps + qs == qs && [] + AllTokens(qs, d).value == AllTokens(qs, d).value;
    } else {
      assert (ps + qs)[0] == ps[0] && (ps + qs)[1..] == ps[1..] + qs;
      AllTokensAppend(ps[1..], qs, d);
      var head, tail, more := Tokens(ps[0], d).value, AllTokens(ps[1..], d).value, AllTokens(qs, d).value;
      assert head + (tail + more) == head + tail + more;
    }
  }

  lemma {:induction false} PartsLex(sql: string, start: nat)
    requires start <= |sql| && Lex(sql[start..], start, CATALOG).Ok?
    ensures var ps := Lex(sql[start..], start, CATALOG).value;
      && Placing(ps, start, sql)
      && (forall p :: p in Parts(sql, ps, start) ==> Statement(p, CATALOG))
      && AllTokens(Parts(sql, ps, start), CATALOG) == Ok(WithoutSemicolons(Words(ps)))
      && (Parts(sql, ps, start) == [] <==> Hollow(sql[start..]))
    decreases |sql| - start
  {
    hide Lex, Hollow, Tokens, Words, Parts, AllTokens, NonBlank, Leading, WithoutSemicolons, StatementLength,
      Placing, CATALOG;
    var s := sql[start..];
    var ps, k := Lex(s, start, CATALOG).value, StatementLength(s, CATALOG);
    LexPlaces(s, start, sql, CATALOG);
    FirstStatement(s, start, CATALOG);
    var after := Remaining(s, start, k, CATALOG).value;
    PlacingSuffix(Leading(ps), after, start, sql);
    PartsOver(sql, ps, after, start);
    LeadingWords(ps, after);
    assert s[..k] == sql[start..start + k];
    StatementOf(s[..k], Words(Leading(ps)));
    if k == |s| {
      assert sql[start..start + k] == sql[start..] == s;
      LastPart(sql, start, start + k);
      assert Words(Leading(ps)) + [] == Words(Leading(ps));
    } else {
      assert s[k + 1..] == sql[start + k + 1..];
      PartsLex(sql, start + k + 1);
      var rest := Lex(s[k + 1..], start + k + 1, CATALOG).value;
      NextPart(sql, start, start + k, rest);
      HollowParts(s, k);
      AllTokensAppend(NonBlank(s[..k]), Parts(sql, rest, start + k + 1), CATALOG);
    }
  }

  lemma {:induction false} HollowParts(s: string, k: nat)
    requires k < |s| && s[k] == ';'
    ensures Hollow(s) <==> Hollow(s[..k]) && Hollow(s[k + 1..])
  {
    if Hollow(s[..k]) && Hollow(s[k + 1..]) {
      forall i | 0 <= i < |s| ensures IsSpace(s[i]) || s[i] == ';' {
        if i < k {
          assert s[..k][i] == s[i];
        } else if i > k {
          assert s[k + 1..][i - k - 1] == s[i];
        }
      }
    }
  }

  lemma {:induction false} PlacingSuffix(head: seq<Placed>, rest: seq<Placed>, start: nat, sql: string)
    requires Placing(head + rest, start, sql)
    ensures Placing(rest, start, sql)
  {
    assert forall i :: 0 <= i < |rest| ==> rest[i] == (head + rest)[|head| + i];
  }

  lemma {:induction false} LastPart(sql: string, start: nat, end: nat)
    requires start <= |sql| && end == |sql|
    ensures Placing([Placed(Eof, end)], start, sql)
    ensures Parts(sql, [Placed(Eof, end)], start) == NonBlank(sql[start..])
    ensures WithoutSemicolons(Words([Placed(Eof, end)])) == []
  {
    assert Words([Placed(Eof, end)]) == [];
  }

  lemma {:induction false} NextPart(sql: string, start: nat, k: nat, rest: seq<Placed>)
    requires start <= k < |sql| && Placing(rest, k + 1, sql) && Placing([Placed(SEMICOLON, k)] + rest, start, sql)
    ensures Parts(sql, [Placed(SEMICOLON, k)] + rest, start) == NonBlank(sql[start..k]) + Parts(sql, rest, k + 1)
    ensures WithoutSemicolons(Words([Placed(SEMICOLON, k)] + rest)) == WithoutSemicolons(Words(rest))
  {
    hide NonBlank;
    var all := [Placed(SEMICOLON, k)] + rest;
    assert all[1..] == rest;
    assert Words(all) == [SEMICOLON] + Words(rest);
    assert ([SEMICOLON] + Words(rest))[1..] == Words(rest);
  }

  /** Splitting commutes with lexing. Of an input that lexes, the parts are trimmed single statements
      exactly when it is more than white space and semicolons; and then the tokens of the parts, one part
      after another, are the input's tokens without the semicolons. */
  lemma {:induction false} SplitCommutes(sql: string)
    requires Tokens(sql, CATALOG).Ok?
    ensures !Hollow(sql) <==> forall p :: p in Split(sql) ==> Statement(p, CATALOG)
    ensures !Hollow(sql) ==>
      AllTokens(Split(sql), CATALOG) == Ok(WithoutSemicolons(Tokens(sql, CATALOG).value))
  {
    hide Lex, Words, Parts, Placing, CATALOG, WithoutSemicolons;
    assert sql[0..] == sql;
    PartsLex(sql, 0);
    if Hollow(sql) {
      assert Split(sql) == [sql] && sql in Split(sql);
      if Statement(sql, CATALOG) {
        HollowStatement(sql);
        TrimOfSpace(sql);
      }
    }
  }

  /** An input that does not lex, or is only white space and semicolons, comes back unsplit. */
  lemma {:induction false} Unsplit(sql: string)
    requires Tokens(sql, CATALOG).Err? || Hollow(sql)
    ensures Split(sql) == [sql]
  {
    hide Words, Parts, Placing, CATALOG;
    assert sql[0..] == sql;
    if Tokens(sql, CATALOG).Ok? {
      PartsLex(sql, 0);
    }
  }

  /** Splitting a statement again gives back just that statement. */
  lemma {:induction false} SplitOfStatement(part: string)
    requires Statement(part, CATALOG)
    ensures Split(part) == [part]
  {
    hide Lex, Turned, CATALOG, Parts, NonBlank, Placing, Leading, Words;
    var ps, k := Lex(part, 0, CATALOG).value, StatementLength(part, CATALOG);
    assert part[0..] == part;
    LexPlaces(part, 0, part, CATALOG);
    FirstStatement(part, 0, CATALOG);
    var after := Remaining(part, 0, k, CATALOG).value;
    PlacingSuffix(Leading(ps), after, 0, part);
    PartsOver(part, ps, after, 0);
    if k < |part| {
      SemicolonAmong(Leading(ps), after);
    } else {
      LastPart(part, 0, k);
      WholePart(part);
    }
  }

  lemma {:induction false} SemicolonAmong(head: seq<Placed>, rest: seq<Placed>)
    requires rest != [] && rest[0].token == SEMICOLON
    ensures SEMICOLON in Words(head + rest)
  {
    if head == [] {
      assert head + rest == rest;
    } else {
      assert (head + rest)[1..] == head[1..] + rest;
      SemicolonAmong(head[1..], rest);
    }
  }

  lemma {:induction false} WholePart(part: string)
    requires Trim(part) == part && part != ""
    ensures NonBlank(part) == [part]
  {
  }
}
