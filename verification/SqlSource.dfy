/** From SQL text to rows: a WHERE clause spelled as text is lexed back into its tokens, parsed,
    resolved, folded, lowered, and sent as text that selects exactly the rows SQL passes. */
module SqlSource {
  import opened Wrappers
  import opened Text
  import opened SqlTokens
  import opened SqlLexer
  import opened SqlLocal
  import Schema
  import PgWhere
  import PgExact
  import SqlOperators
  import PgGrammar
  import PgRoundTrip
  import PgQualifiers
  import Emitted
  import FiniteNumbers

  // ----- spelling tokens -----

  function Doubled(s: string, quote: char): string {
    if s == "" then "" else (if s[0] == quote then [quote, quote] else [s[0]]) + Doubled(s[1..], quote)
  }

  function Spell(t: Token): string {
    match t
    case Eof => ""
    case Ident(name, quoted) => if quoted then "\"" + Doubled(name, '"') + "\"" else name
    case Text(text) => "'" + Doubled(text, '\'') + "'"
    case _ => t.text
  }

  function SpellAll(ts: seq<Token>): string {
    if ts == [] then "" else Spell(ts[0]) + (if |ts| == 1 then "" else " " + SpellAll(ts[1..]))
  }

  /** The tokens a source can spell: words that are or are not keywords, any quoted text, one number, one
      operator of the table, one placeholder. */
  predicate Spellable(t: Token, d: Dialect) {
    match t
    case Eof => false
    case Keyword(w) => IsIdentifier(w) && Upper(w) == w && w in d.keywords
    case Ident(name, quoted) => quoted || IsPlainName(name, d)
    case Text(_) => true
    case Digits(text) => text != "" && StartsNumber(text) && NumberLength(text) == |text|
    case Op(op) => op in d.operators && Operator(op, d.operators) == op
    case Param(text) => |text| > 1 && text[0] == '$' && IsDigit(text[1]) && SkipDigits(text, 1) == |text|
  }

  // No operator holds a blank or starts like anything else.
  ghost predicate Plain(d: Dialect) {
    forall i :: 0 <= i < |d.operators| ==> PlainOperator(d.operators[i])
  }

  predicate PlainOperator(op: string) {
    && op != "" && !IsGap(op[0]) && op[0] != '\'' && op[0] != '"' && op[0] != '$' && !IsDigit(op[0])
    && !IsIdentStart(op[0])
    && ' ' !in op && !("--" <= op) && !("/*" <= op) && !(op[0] == '.' && |op| > 1)
  }

  // What follows a token in a spelled source.
  predicate Spaced(rest: string) {
    rest == "" || rest[0] == ' '
  }

  // ----- each token is lexed back -----

  lemma {:induction false} QuotedStep(c: char, quote: char, tail: string)
    ensures c != quote ==> Quoted([c] + tail, quote) == Longer(c, 1, Quoted(tail, quote))
    ensures Quoted([quote, quote] + tail, quote) == Longer(quote, 2, Quoted(tail, quote))
    ensures (tail == "" || tail[0] != quote) ==> Quoted([quote] + tail, quote) == Literal("", 1)
  {
    hide Longer;
    assert ([c] + tail)[1..] == tail && ([quote, quote] + tail)[2..] == tail;
  }

  lemma {:induction false} DoubledReads(s: string, quote: char, rest: string)
    requires Spaced(rest) && (quote == '\'' || quote == '"')
    ensures Quoted(Doubled(s, quote) + ([quote] + rest), quote) == Literal(s, |Doubled(s, quote)| + 1)
  {
    hide Quoted;
    var end := [quote] + rest;
    if s == "" {
      assert Doubled(s, quote) + end == end;
      QuotedStep(quote, quote, rest);
    } else {
      var more := Doubled(s[1..], quote);
      DoubledReads(s[1..], quote, rest);
      QuotedStep(s[0], quote, more + end);
      assert [quote, quote] + more + end == [quote, quote] + (more + end);
      assert [s[0]] + more + end == [s[0]] + (more + end);
      assert [s[0]] + s[1..] == s;
    }
  }

  lemma {:induction false} RunExtends(a: string, rest: string, isSeparator: char -> bool)
    requires rest == "" || isSeparator(rest[0])
    ensures WordLength(a + rest, isSeparator) == WordLength(a, isSeparator)
  {
    if a == "" {
      assert a + rest == rest;
    } else {
      assert (a + rest)[0] == a[0] && (a + rest)[1..] == a[1..] + rest;
      RunExtends(a[1..], rest, isSeparator);
    }
  }

  lemma {:induction false} DigitsExtend(a: string, rest: string, j: nat)
    requires Spaced(rest) && j <= |a|
    ensures SkipDigits(a + rest, j) == SkipDigits(a, j)
  {
    assert (a + rest)[j..] == a[j..] + rest;
    RunExtends(a[j..], rest, NotDigit);
  }

  lemma {:induction false} NumberExtends(a: string, rest: string)
    requires Spaced(rest)
    ensures NumberLength(a + rest) == NumberLength(a)
  {
    hide WordLength, SkipDigits;
    var s, whole := a + rest, SkipDigits(a, 0);
    DigitsExtend(a, rest, 0);
    At(a, rest, whole);
    if whole < |a| && a[whole] == '.' {
      DigitsExtend(a, rest, whole + 1);
      ExponentExtends(a, rest, SkipDigits(a, whole + 1));
    } else {
      ExponentExtends(a, rest, whole);
    }
  }

  lemma {:induction false} At(a: string, rest: string, j: nat)
    requires Spaced(rest) && j <= |a|
    ensures j < |a| ==> (a + rest)[j] == a[j]
    ensures j == |a| && rest != "" ==> (a + rest)[j] == ' '
  {
  }

  lemma {:induction false} ExponentExtends(a: string, rest: string, j: nat)
    requires Spaced(rest) && j <= |a|
    ensures SkipExponent(a + rest, j) == SkipExponent(a, j)
  {
    hide WordLength, SkipDigits;
    At(a, rest, j);
    if j < |a| && (a[j] == 'e' || a[j] == 'E') {
      At(a, rest, j + 1);
      var k := SkipSign(a, j + 1);
      At(a, rest, k);
      if k < |a| {
        DigitsExtend(a, rest, k);
      }
    }
  }

  lemma {:induction false} BlankStops(op: string, a: string, rest: string)
    requires ' ' !in op && Spaced(rest)
    ensures op <= a + rest ==> op <= a
  {
    assert op <= a + rest ==> forall i :: 0 <= i < |op| ==> (a + rest)[i] == op[i];
    assert rest != "" ==> (a + rest)[|a|] == ' ';
  }

  lemma {:induction false} OperatorExtends(a: string, rest: string, operators: seq<string>)
    requires Spaced(rest) && forall op :: op in operators ==> ' ' !in op
    ensures Operator(a + rest, operators) == Operator(a, operators)
  {
    if operators != [] {
      var op := operators[0];
      PrefixIsLocal(a, rest, op);
      assert op in operators;
      BlankStops(op, a, rest);
      OperatorExtends(a, rest, operators[1..]);
    }
  }

  // ----- each token is lexed back -----

  /** A spelled token is one turn of the lexer, whatever follows after a blank. */
  lemma {:induction false} SpelledTurn(t: Token, rest: string, d: Dialect)
    requires Spellable(t, d) && Plain(d) && Spaced(rest)
    ensures Spell(t) != "" && Turned(Spell(t) + rest, d) == Emit(t, |Spell(t)|)
  {
    hide WordLength, CommentLength, Quoted, Escaped, NumberLength, Operator, SkipDigits, Upper;
    match t {
      case Keyword(w) => WordTurn(w, rest, d);
      case Ident(name, quoted) => if quoted { QuotedTurn(name, '"', rest, d); } else { WordTurn(name, rest, d); }
      case Text(text) => QuotedTurn(text, '\'', rest, d);
      case Digits(text) => NumberTurn(text, rest, d);
      case Op(op) => OperatorTurn(op, rest, d);
      case Param(text) => ParamTurn(text, rest, d);
    }
  }

  lemma {:induction false} WordTurn(w: string, rest: string, d: Dialect)
    requires IsIdentifier(w) && Spaced(rest)
    ensures Turned(w + rest, d) == Emit(WordToken(w, d), |w|)
  {
    hide WordLength, CommentLength, Quoted, Escaped, NumberLength, Operator, SkipDigits, WordToken;
    var s := w + rest;
    RunExtends(w, rest, NotIdentPart);
    IdentifierParts(w);
    assert s[0] == w[0] && s[..|w|] == w;
    if |s| > 1 {
      At(w, rest, 1);
    }
  }

  lemma {:induction false} IdentifierParts(w: string)
    requires WordLength(w, NotIdentPart) == |w|
    ensures forall i :: 0 <= i < |w| ==> IsIdentPart(w[i])
  {
    assert forall i :: 0 <= i < |w| ==> !NotIdentPart(w[i]);
  }

  lemma {:induction false} QuotedTurn(text: string, quote: char, rest: string, d: Dialect)
    requires Spaced(rest) && (quote == '\'' || quote == '"')
    ensures var written := [quote] + Doubled(text, quote) + [quote];
      Turned(written + rest, d) == Emit(if quote == '"' then Ident(text, true) else Text(text), |written|)
  {
    hide WordLength, CommentLength, Quoted, Escaped, NumberLength, Operator, SkipDigits, Doubled;
    var s := [quote] + Doubled(text, quote) + [quote] + rest;
    assert s[0] == quote && s[1..] == Doubled(text, quote) + ([quote] + rest);
    DoubledReads(text, quote, rest);
  }

  lemma {:induction false} NumberTurn(text: string, rest: string, d: Dialect)
    requires text != "" && StartsNumber(text) && NumberLength(text) == |text| && Spaced(rest)
    ensures Turned(text + rest, d) == Emit(Digits(text), |text|)
  {
    hide WordLength, CommentLength, Quoted, Escaped, NumberLength, Operator, SkipDigits;
    var s := text + rest;
    NumberExtends(text, rest);
    assert s[0] == text[0] && s[..|text|] == text && (|text| > 1 ==> s[1] == text[1]);
  }

  lemma {:induction false} OperatorTurn(op: string, rest: string, d: Dialect)
    requires Plain(d) && Spellable(Op(op), d) && Spaced(rest)
    ensures op != "" && Turned(op + rest, d) == Emit(Op(op), |op|)
  {
    hide WordLength, CommentLength, Quoted, Escaped, NumberLength, Operator, SkipDigits;
    var s := op + rest;
    assert PlainOperator(op);
    OperatorExtends(op, rest, d.operators) by {
      forall o | o in d.operators ensures ' ' !in o { assert PlainOperator(o); }
    }
    assert s[0] == op[0];
    Prefixes(op, rest);
    if |s| > 1 {
      At(op, rest, 1);
    }
  }

  lemma {:induction false} Prefixes(op: string, rest: string)
    requires op != "" && Spaced(rest)
    ensures "--" <= op + rest <==> "--" <= op
    ensures "/*" <= op + rest <==> "/*" <= op
  {
    PrefixIsLocal(op, rest, "--");
    PrefixIsLocal(op, rest, "/*");
    if |op + rest| > 1 {
      At(op, rest, 1);
    }
  }

  lemma {:induction false} ParamTurn(text: string, rest: string, d: Dialect)
    requires Spellable(Param(text), d) && Spaced(rest)
    ensures Turned(text + rest, d) == Emit(Param(text), |text|)
  {
    hide WordLength, CommentLength, Quoted, Escaped, NumberLength, Operator, SkipDigits;
    var s := text + rest;
    DigitsExtend(text, rest, 1);
    assert s[0] == text[0] && s[1] == text[1] && s[..|text|] == text;
  }

  // ----- whole sources -----

  /** Spelling tokens and lexing them is the identity. */
  lemma {:induction false} SpelledLexes(ts: seq<Token>, d: Dialect)
    requires Plain(d) && forall t :: t in ts ==> Spellable(t, d)
    ensures Tokens(SpellAll(ts), d) == Ok(ts)
  {
    hide Turned, Tokens, Spell, Spellable, Plain;
    TokensTurn(SpellAll(ts), d);
    if ts != [] {
      var rest := if |ts| == 1 then "" else " " + SpellAll(ts[1..]);
      var s := Spell(ts[0]) + rest;
      assert ts[0] in ts;
      SpelledTurn(ts[0], rest, d);
      SpelledLexes(ts[1..], d);
      assert s[|Spell(ts[0])|..] == rest;
      if |ts| == 1 {
        TokensTurn("", d);
        assert [ts[0]] + [] == ts;
      } else {
        BlankLexes(SpellAll(ts[1..]), d);
        assert [ts[0]] + ts[1..] == ts;
      }
    }
  }

  lemma {:induction false} BlankLexes(s: string, d: Dialect)
    ensures Tokens(s, d).Ok? ==> Tokens(" " + s, d) == Tokens(s, d)
  {
    hide Tokens;
    TokensTurn(" " + s, d);
    assert Turned(" " + s, d) == Skip(1) && (" " + s)[1..] == s;
  }

  // ----- the dialect of queries -----

  lemma {:induction false} QueryIsPlain()
    ensures Plain(QUERY)
  {
    hide PlainOperator;
    QueryTable();
    FirstPlain();
    MiddlePlain();
    LastPlain();
  }

  lemma {:induction false} QueryTable()
    ensures QUERY.operators == QUERY_OPERATORS && |QUERY_OPERATORS| == 20
  {
  }

  lemma {:induction false} FirstPlain()
    ensures forall i :: 0 <= i < 5 ==> PlainOperator(QUERY_OPERATORS[i])
  {
  }

  lemma {:induction false} MiddlePlain()
    ensures forall i :: 5 <= i < 12 ==> PlainOperator(QUERY_OPERATORS[i])
  {
  }

  lemma {:induction false} LastPlain()
    ensures forall i :: 12 <= i < 20 ==> PlainOperator(QUERY_OPERATORS[i])
  {
  }

  // ----- what can be written -----

  // A number as the lexer reads one, with or without a minus.
  predicate WrittenNumber(text: string) {
    var digits := if text != "" && text[0] == '-' then text[1..] else text;
    digits != "" && StartsNumber(digits) && NumberLength(digits) == |digits|
  }

  predicate WrittenLiteral(l: PgWhere.SqlLiteral) {
    PgRoundTrip.SpelledLiteral(l) && (l.Number? ==> WrittenNumber(l.text))
  }

  // A name, or a qualifier and a name.
  predicate WrittenName(name: string) {
    var d := PgRoundTrip.FirstDot(name);
    name != "" && (d < |name| ==> '.' !in name[d + 1..])
  }

  predicate WrittenOperand(v: PgWhere.Operand) {
    match v case Column(name) => WrittenName(name) case Constant(l) => WrittenLiteral(l)
  }

  /** The clauses that can be written down: compare operators, lists that are not empty, groups of two or more,
      names with one qualifier at most, numbers the lexer reads. */
  predicate CanBeWritten(p: PgWhere.Predicate) {
    match p
    case Comparison(l, op, r) => PgGrammar.IsCompareOp(op) && WrittenOperand(l) && WrittenOperand(r)
    case InTail(l, vs, _) => vs != [] && WrittenOperand(l) && forall v :: v in vs ==> WrittenLiteral(v)
    case BetweenTail(l, lo, hi, _) => WrittenOperand(l) && WrittenLiteral(lo) && WrittenLiteral(hi)
    case NullTest(l, _) => WrittenOperand(l)
    case Bare(v) => WrittenOperand(v)
    case Negation(c) => CanBeWritten(c)
    case Conjunction(parts) => |parts| >= 2 && forall c :: c in parts ==> CanBeWritten(c)
    case Disjunction(parts) => |parts| >= 2 && forall c :: c in parts ==> CanBeWritten(c)
  }

  ghost predicate AllSpellable(ts: seq<Token>) {
    forall t :: t in ts ==> Spellable(t, QUERY)
  }

  lemma {:induction false} BothSpellable(a: seq<Token>, b: seq<Token>)
    requires AllSpellable(a) && AllSpellable(b)
    ensures AllSpellable(a + b)
  {
  }

  // The words and signs the grammar uses are in the dialect's tables.
  lemma {:induction false} WordsSpellable(w: string)
    requires w in {"AND", "OR", "NOT", "IN", "IS", "NULL", "BETWEEN", "TRUE", "FALSE"}
    ensures AllSpellable([Keyword(w)])
  {
    WordIsUpper(w);
    assert w in QUERY_KEYWORDS;
  }

  lemma {:induction false} WordIsUpper(w: string)
    requires w in {"AND", "OR", "NOT", "IN", "IS", "NULL", "BETWEEN", "TRUE", "FALSE"}
    ensures IsIdentifier(w) && Upper(w) == w
  {
    hide IsIdentifier, Upper;
    Letters(w);
    CapitalsAreWords(w);
  }

  lemma {:induction false} Letters(w: string)
    requires w in {"AND", "OR", "NOT", "IN", "IS", "NULL", "BETWEEN", "TRUE", "FALSE"}
    ensures w != "" && forall i :: 0 <= i < |w| ==> 'A' <= w[i] <= 'Z'
  {
  }

  lemma {:induction false} CapitalsAreWords(w: string)
    requires w != "" && forall i :: 0 <= i < |w| ==> 'A' <= w[i] <= 'Z'
    ensures IsIdentifier(w) && Upper(w) == w
  {
    assert forall i :: 0 <= i < |w| ==> !NotIdentPart(w[i]);
    assert WordLength(w, NotIdentPart) == |w|;
  }

  lemma {:induction false} SignsSpellable(op: string)
    requires op in {"=", "<>", "!=", "<", "<=", ">", ">=", "(", ")", ",", ".", "-"}
    ensures AllSpellable([Op(op)])
  {
    hide Operator;
    SignListed(op);
    SqlOperators.QueryTakesLongest(op, op);
    assert Operator(op, QUERY_OPERATORS) == op;
  }

  lemma {:induction false} SignListed(op: string)
    requires op in {"=", "<>", "!=", "<", "<=", ">", ">=", "(", ")", ",", ".", "-"}
    ensures op in QUERY_OPERATORS
  {
    assert QUERY_OPERATORS[9..] == ["=", "<", ">", "*", "(", ")", ",", ".", ";", "+", "-"];
    assert QUERY_OPERATORS[5..9] == ["<=", ">=", "<>", "!="];
    assert forall o :: o in QUERY_OPERATORS[9..] || o in QUERY_OPERATORS[5..9] ==> o in QUERY_OPERATORS;
  }

  lemma {:induction false} LiteralSpellable(l: PgWhere.SqlLiteral)
    requires WrittenLiteral(l)
    ensures AllSpellable(PgRoundTrip.PrintLiteral(l))
  {
    hide Spellable;
    match l {
      case Number(text) =>
        SignsSpellable("-");
        DigitsSpellable(if text != "" && text[0] == '-' then text[1..] else text);
      case String(text) => TextSpellable(text);
      case Boolean(text) => WordsSpellable(if text == "true" then "TRUE" else "FALSE");
      case Null => WordsSpellable("NULL");
    }
  }

  lemma {:induction false} DigitsSpellable(text: string)
    requires text != "" && StartsNumber(text) && NumberLength(text) == |text|
    ensures Spellable(Digits(text), QUERY)
  {
  }

  lemma {:induction false} TextSpellable(text: string)
    ensures Spellable(Text(text), QUERY)
  {
  }

  lemma {:induction false} NameSpellable(name: string)
    requires '.' !in name
    ensures Spellable(PgRoundTrip.PrintName(name), QUERY)
  {
  }

  lemma {:induction false} OperandSpellable(v: PgWhere.Operand)
    requires WrittenOperand(v)
    ensures AllSpellable(PgRoundTrip.PrintOperand(v))
  {
    hide Spellable, PgRoundTrip.PrintName;
    if v.Constant? {
      LiteralSpellable(v.literal);
    } else {
      var d := PgRoundTrip.FirstDot(v.name);
      BeforeDot(v.name);
      NameSpellable(v.name[..d]);
      SignsSpellable(".");
      if d == |v.name| {
        assert v.name[..d] == v.name;
      } else {
        NameSpellable(v.name[d + 1..]);
      }
    }
  }

  lemma {:induction false} BeforeDot(name: string)
    ensures '.' !in name[..PgRoundTrip.FirstDot(name)]
  {
    if name != "" && name[0] != '.' {
      BeforeDot(name[1..]);
      var d := PgRoundTrip.FirstDot(name[1..]);
      assert name[..d + 1] == [name[0]] + name[1..][..d];
    }
  }

  lemma {:induction false} ListSpellable(ls: seq<PgWhere.SqlLiteral>)
    requires forall l :: l in ls ==> WrittenLiteral(l)
    ensures AllSpellable(PgRoundTrip.PrintList(ls))
  {
    hide AllSpellable, WrittenLiteral, PgRoundTrip.PrintLiteral;
    NothingSpellable();
    if ls != [] {
      LiteralSpellable(ls[0]);
      SignsSpellable(",");
      ListSpellable(ls[1..]);
      BothSpellable(PgRoundTrip.PrintLiteral(ls[0]), [Op(",")]);
      BothSpellable(PgRoundTrip.PrintLiteral(ls[0]) + [Op(",")], PgRoundTrip.PrintList(ls[1..]));
    }
  }

  lemma {:induction false} NothingSpellable()
    ensures AllSpellable([])
  {
  }

  lemma {:induction false} ParenthesizedSpellable(ts: seq<Token>)
    requires AllSpellable(ts)
    ensures AllSpellable(PgRoundTrip.Parenthesized(ts))
  {
    hide AllSpellable;
    SignsSpellable("(");
    SignsSpellable(")");
    BothSpellable([Op("(")], ts);
    BothSpellable([Op("(")] + ts, [Op(")")]);
  }

  lemma {:induction false} NotSpellable(negated: bool)
    ensures AllSpellable(PgRoundTrip.NotIf(negated))
  {
    hide AllSpellable;
    WordsSpellable("NOT");
    NothingSpellable();
  }

  /** Every token of a clause that can be written is one the lexer knows. */
  lemma {:induction false} PrintSpellable(p: PgWhere.Predicate)
    requires CanBeWritten(p)
    ensures AllSpellable(PgRoundTrip.Print(p)) && PgRoundTrip.Printable(p)
    decreases p, 1
  {
    hide AllSpellable, WrittenOperand, WrittenLiteral, PgRoundTrip.PrintLiteral, PgRoundTrip.PrintOperand,
      PgRoundTrip.PrintList, PgRoundTrip.Parenthesized, PgRoundTrip.NotIf;
    match p {
      case Negation(c) =>
        PrintSpellable(c);
        TightSpellable(c);
        WordsSpellable("NOT");
        BothSpellable([Keyword("NOT")], PgRoundTrip.PrintTight(c));
      case Conjunction(parts) => AndsSpellable(parts);
      case Disjunction(parts) => OrsSpellable(parts);
      case _ => AtomSpellable(p);
    }
  }

  lemma {:induction false} AtomSpellable(p: PgWhere.Predicate)
    requires CanBeWritten(p) && PgExact.IsAtom(p)
    ensures AllSpellable(PgRoundTrip.Print(p)) && PgRoundTrip.Printable(p)
  {
    hide AllSpellable, PgRoundTrip.PrintLiteral, PgRoundTrip.PrintOperand, PgRoundTrip.PrintList,
      PgRoundTrip.Parenthesized, PgRoundTrip.NotIf;
    var left := PgRoundTrip.LeftOf(p);
    OperandSpellable(left);
    var head := PgRoundTrip.PrintOperand(left);
    match p {
      case Comparison(l, op, r) =>
        OperandSpellable(r);
        SignsSpellable(op);
        BothSpellable(head, [Op(op)]);
        BothSpellable(head + [Op(op)], PgRoundTrip.PrintOperand(r));
      case InTail(l, vs, negated) =>
        NotSpellable(negated);
        WordsSpellable("IN");
        ListSpellable(vs);
        ParenthesizedSpellable(PgRoundTrip.PrintList(vs));
        BothSpellable(head, PgRoundTrip.NotIf(negated));
        BothSpellable(head + PgRoundTrip.NotIf(negated), [Keyword("IN")]);
        BothSpellable(head + PgRoundTrip.NotIf(negated) + [Keyword("IN")],
          PgRoundTrip.Parenthesized(PgRoundTrip.PrintList(vs)));
      case BetweenTail(l, lo, hi, negated) => BetweenSpellable(l, lo, hi, negated);
      case NullTest(l, negated) =>
        NotSpellable(negated);
        WordsSpellable("IS");
        WordsSpellable("NULL");
        BothSpellable(head, [Keyword("IS")]);
        BothSpellable(head + [Keyword("IS")], PgRoundTrip.NotIf(negated));
        BothSpellable(head + [Keyword("IS")] + PgRoundTrip.NotIf(negated), [Keyword("NULL")]);
      case Bare(v) =>
    }
  }

  lemma {:induction false} BetweenSpellable(l: PgWhere.Operand, lo: PgWhere.SqlLiteral, hi: PgWhere.SqlLiteral,
    negated: bool)
    requires AllSpellable(PgRoundTrip.PrintOperand(l)) && WrittenLiteral(lo) && WrittenLiteral(hi)
    ensures AllSpellable(PgRoundTrip.Print(PgWhere.BetweenTail(l, lo, hi, negated)))
  {
    hide AllSpellable, PgRoundTrip.PrintLiteral, PgRoundTrip.PrintOperand, PgRoundTrip.NotIf, WrittenLiteral;
    var a, b := PgRoundTrip.PrintOperand(l), PgRoundTrip.NotIf(negated);
    var c, d := PgRoundTrip.PrintLiteral(lo), PgRoundTrip.PrintLiteral(hi);
    NotSpellable(negated);
    WordsSpellable("BETWEEN");
    WordsSpellable("AND");
    LiteralSpellable(lo);
    LiteralSpellable(hi);
    BothSpellable(a, b);
    BothSpellable(a + b, [Keyword("BETWEEN")]);
    BothSpellable(a + b + [Keyword("BETWEEN")], c);
    BothSpellable(a + b + [Keyword("BETWEEN")] + c, [Keyword("AND")]);
    BothSpellable(a + b + [Keyword("BETWEEN")] + c + [Keyword("AND")], d);
  }

  lemma {:induction false} TightSpellable(p: PgWhere.Predicate)
    requires AllSpellable(PgRoundTrip.Print(p))
    ensures AllSpellable(PgRoundTrip.PrintTight(p)) && AllSpellable(PgRoundTrip.PrintMiddle(p))
  {
    hide AllSpellable, PgRoundTrip.Print;
    ParenthesizedSpellable(PgRoundTrip.Print(p));
  }

  lemma {:induction false} AndsSpellable(ps: seq<PgWhere.Predicate>)
    requires forall c :: c in ps ==> CanBeWritten(c)
    ensures AllSpellable(PgRoundTrip.PrintAnds(ps)) && forall c :: c in ps ==> PgRoundTrip.Printable(c)
    decreases ps, 0
  {
    hide AllSpellable, CanBeWritten, PgRoundTrip.Print, PgRoundTrip.PrintTight, PgRoundTrip.Printable;
    NothingSpellable();
    if ps != [] {
      PrintSpellable(ps[0]);
      TightSpellable(ps[0]);
      AndsSpellable(ps[1..]);
      WordsSpellable("AND");
      BothSpellable(PgRoundTrip.PrintTight(ps[0]), [Keyword("AND")]);
      BothSpellable(PgRoundTrip.PrintTight(ps[0]) + [Keyword("AND")], PgRoundTrip.PrintAnds(ps[1..]));
      assert forall c :: c in ps <==> c == ps[0] || c in ps[1..];
    }
  }

  lemma {:induction false} OrsSpellable(ps: seq<PgWhere.Predicate>)
    requires forall c :: c in ps ==> CanBeWritten(c)
    ensures AllSpellable(PgRoundTrip.PrintOrs(ps)) && forall c :: c in ps ==> PgRoundTrip.Printable(c)
    decreases ps, 0
  {
    hide AllSpellable, CanBeWritten, PgRoundTrip.Print, PgRoundTrip.PrintMiddle, PgRoundTrip.Printable;
    NothingSpellable();
    if ps != [] {
      PrintSpellable(ps[0]);
      TightSpellable(ps[0]);
      OrsSpellable(ps[1..]);
      WordsSpellable("OR");
      BothSpellable(PgRoundTrip.PrintMiddle(ps[0]), [Keyword("OR")]);
      BothSpellable(PgRoundTrip.PrintMiddle(ps[0]) + [Keyword("OR")], PgRoundTrip.PrintOrs(ps[1..]));
      assert forall c :: c in ps <==> c == ps[0] || c in ps[1..];
    }
  }

  // ----- end to end -----

  // Lexing, parsing, resolving the table's own names and planning a WHERE clause given as text.
  function Compile(source: string, names: set<string>, schema: Schema.Catalog, readers: Schema.Readers)
    : Result<Schema.Plan>
  {
    var ts :- Tokens(source, QUERY);
    var parsed :- PgGrammar.ParseOr(ts + [Eof]);
    var w :- PgQualifiers.Strip(parsed.value, names);
    if parsed.rest == [Eof] then PgExact.PlanOf(w, schema, readers) else Err(Parsing)
  }

  /** A WHERE clause spelled as SQL text, its columns quoted where they have to be and under their table's
      name or alias or under none, compiles; and when the literals left after folding are finite, the server,
      reading the text it is sent for it, selects exactly the rows SQL passes; otherwise it cannot read that
      text. */
  lemma {:induction false} SourceAnswers(p: PgWhere.Predicate, names: set<string>, w: Schema.World)
    requires CanBeWritten(p)
    requires PgExact.Harmless(p, true) && FiniteNumbers.Spellings(w.readers)
    requires PgWhere.Resolve(p).Ok? && PgQualifiers.Strip(PgWhere.Resolve(p).value, names).Ok?
    requires Emitted.Columned(PgQualifiers.Strip(PgWhere.Resolve(p).value, names).value)
    requires PgExact.PlanOf(PgQualifiers.Strip(PgWhere.Resolve(p).value, names).value, w.schema, w.readers).Ok?
    ensures var plan := Compile(SpellAll(PgRoundTrip.Print(p)), names, w.schema, w.readers);
      var stripped := PgQualifiers.Strip(PgWhere.Resolve(p).value, names).value;
      var finite := FiniteNumbers.FiniteWhere(PgWhere.Fold(stripped), w.schema, w.readers);
      var passes := PgExact.SqlTruth(p, PgQualifiers.Qualified(w, names)).True?;
      && plan.Ok?
      && (Emitted.Understood(plan.value) <==> finite)
      && (Emitted.TextSelects(plan.value, w.row, w.server) <==> finite && passes)
  {
    hide Tokens, QUERY, SpellAll, Spellable, PgGrammar.ParseOr, PgRoundTrip.Print, PgRoundTrip.Printable,
      PgExact.Harmless, PgExact.SqlTruth, PgExact.WhereTruth, Emitted.TextSelects, Emitted.Understood, PgExact.PlanOf,
      PgWhere.Resolve, PgQualifiers.Strip, PgQualifiers.Qualified, PgQualifiers.KnowsQualified;
    var resolved, qualified := PgWhere.Resolve(p).value, PgQualifiers.Qualified(w, names);
    QueryIsPlain();
    PrintSpellable(p);
    SpelledLexes(PgRoundTrip.Print(p), QUERY);
    EndTerminates();
    PgRoundTrip.LooseInverts(p, [Eof]);
    PgRoundTrip.PrintableWellFormed(p);
    PgExact.ResolveKeepsVerdict(p, true, qualified);
    PgQualifiers.QualifiedKnows(w, names);
    PgQualifiers.StripKeepsTruth(resolved, qualified, w, names);
    Emitted.WhereTextAnswers(PgQualifiers.Strip(resolved, names).value, w);
  }

  /** Every column has such a spelling: a name without a dot, a keyword or not, is one token the lexer reads. */
  lemma {:induction false} NamesAreSpellable(name: string)
    requires name != "" && '.' !in name
    ensures Spellable(PgRoundTrip.PrintName(name), QUERY)
    ensures Tokens(Spell(PgRoundTrip.PrintName(name)), QUERY) == Ok([PgRoundTrip.PrintName(name)])
  {
    hide Tokens, QUERY, SqlLexer.IsPlainName;
    QueryIsPlain();
    var t := PgRoundTrip.PrintName(name);
    assert SpellAll([t]) == Spell(t) + "" == Spell(t);
    SpelledLexes([t], QUERY);
  }

  lemma {:induction false} EndTerminates()
    ensures PgRoundTrip.Terminates([Eof])
  {
  }
}
