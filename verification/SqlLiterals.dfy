/** How the lexer reads the literals that have a notation of their own: escaped strings and numbers; and
    that keywords are recognized in either case. */
module SqlLiterals {
  import opened Text
  import opened SqlTokens
  import opened SqlLexer

  // ----- escaped strings -----

  // How one character of an escaped string is written.
  datatype Piece = Plain(c: char) | DoubledQuote | Backslash(letter: char)

  function WrittenPiece(p: Piece): string {
    match p case Plain(c) => [c] case DoubledQuote => "''" case Backslash(letter) => ['\\', letter]
  }

  function MeantBy(p: Piece): char {
    match p
    case Plain(c) => c
    case DoubledQuote => '\''
    case Backslash(letter) => if letter in ESCAPES then ESCAPES[letter] else letter
  }

  function Written(ps: seq<Piece>): string {
    if ps == [] then "" else WrittenPiece(ps[0]) + Written(ps[1..])
  }

  function Meant(ps: seq<Piece>): (s: string)
    ensures |s| == |ps|
  {
    if ps == [] then "" else [MeantBy(ps[0])] + Meant(ps[1..])
  }

  predicate Sound(p: Piece) {
    p.Plain? ==> p.c != '\'' && p.c != '\\'
  }

  lemma {:induction false} PieceReads(p: Piece, tail: string)
    requires Sound(p)
    ensures Escaped(WrittenPiece(p) + tail) == Longer(MeantBy(p), |WrittenPiece(p)|, Escaped(tail))
  {
    var s := WrittenPiece(p) + tail;
    match p {
      case Plain(c) => assert s[1..] == tail;
      case DoubledQuote => assert s[2..] == tail;
      case Backslash(letter) =>
        assert s[2..] == tail;
        EscapesStandFor(letter);
    }
  }

  /** An escaped string is read back character by character up to its closing quote. */
  lemma {:induction false} EscapedReads(ps: seq<Piece>, rest: string)
    requires (forall p :: p in ps ==> Sound(p)) && (rest == "" || rest[0] != '\'')
    ensures Escaped(Written(ps) + ("'" + rest)) == Literal(Meant(ps), |Written(ps)| + 1)
  {
    hide Escaped, MeantBy, WrittenPiece;
    if ps == [] {
      assert "" + ("'" + rest) == "'" + rest;
      CloseReads(rest);
    } else {
      EscapedReads(ps[1..], rest);
      PieceReads(ps[0], Written(ps[1..]) + ("'" + rest));
      assert Written(ps) + ("'" + rest) == WrittenPiece(ps[0]) + (Written(ps[1..]) + ("'" + rest));
    }
  }

  lemma {:induction false} CloseReads(rest: string)
    requires rest == "" || rest[0] != '\''
    ensures Escaped("'" + rest) == Literal("", 1)
  {
  }

  /** Without a closing quote, or cut off after a backslash, it is no literal. */
  lemma {:induction false} EscapedOpen(ps: seq<Piece>)
    requires forall p :: p in ps ==> Sound(p)
    ensures Escaped(Written(ps)).Unterminated? && Escaped(Written(ps) + "\\").Unterminated?
  {
    hide MeantBy, WrittenPiece;
    if ps == [] {
      assert "" + "\\" == "\\";
    } else {
      EscapedOpen(ps[1..]);
      PieceReads(ps[0], Written(ps[1..]));
      PieceReads(ps[0], Written(ps[1..]) + "\\");
      assert Written(ps) + "\\" == WrittenPiece(ps[0]) + (Written(ps[1..]) + "\\");
    }
  }

  /** Where the dialect has them, an E of either case before a quote opens an escaped string; elsewhere it is a
      word of its own. */
  lemma {:induction false} EscapeTurn(e: char, ps: seq<Piece>, rest: string, d: Dialect)
    requires e in {'E', 'e'} && (forall p :: p in ps ==> Sound(p)) && (rest == "" || rest[0] != '\'')
    ensures Turned([e] + ("'" + (Written(ps) + ("'" + rest))), d)
         == if d.escapes then Emit(Text(Meant(ps)), |Written(ps)| + 3) else Emit(WordToken([e], d), 1)
  {
    hide Escaped, Written, Quoted, CommentLength, NumberLength, Operator, WordToken, Meant;
    var s := [e] + ("'" + (Written(ps) + ("'" + rest)));
    EscapedReads(ps, rest);
    assert s[2..] == Written(ps) + ("'" + rest) && s[1] == '\'' && s[..1] == [e];
    WordOfOne(s);
  }

  lemma {:induction false} WordOfOne(s: string)
    requires |s| > 1 && IsIdentPart(s[0]) && s[1] == '\''
    ensures WordLength(s, NotIdentPart) == 1
  {
    assert s[1..][0] == '\'';
  }

  // ----- numbers -----

  predicate AllDigits(s: string) {
    forall i :: 0 <= i < |s| ==> IsDigit(s[i])
  }

  lemma {:induction false} RunOfDigits(ds: string, rest: string)
    requires AllDigits(ds) && (rest == "" || !IsDigit(rest[0]))
    ensures WordLength(ds + rest, NotDigit) == |ds|
  {
    if ds == "" {
      assert ds + rest == rest;
    } else {
      assert (ds + rest)[1..] == ds[1..] + rest;
      RunOfDigits(ds[1..], rest);
    }
  }

  // Digits that start at j of a text are passed over.
  lemma {:induction false} PastDigits(before: string, ds: string, rest: string)
    requires AllDigits(ds) && (rest == "" || !IsDigit(rest[0]))
    ensures SkipDigits(before + (ds + rest), |before|) == |before| + |ds|
  {
    RunOfDigits(ds, rest);
    assert (before + (ds + rest))[|before|..] == ds + rest;
  }

  /** The exponent: a mark, a sign or none, and digits. A mark that no digit follows is not part of the number. */
  lemma {:induction false} ExponentReads(before: string, mark: string, sign: string, power: string, rest: string)
    requires mark in {"e", "E"} && sign in {"", "+", "-"} && AllDigits(power) && (rest == "" || !IsDigit(rest[0]))
    requires power == "" && sign == "" ==> rest == "" || (rest[0] != '+' && rest[0] != '-')
    ensures var s := before + (mark + (sign + (power + rest)));
      SkipExponent(s, |before|) == if power == "" then |before| else |before| + 1 + |sign| + |power|
  {
    hide WordLength, SkipDigits;
    var s := before + (mark + (sign + (power + rest)));
    var k := |before| + 1 + |sign|;
    assert s[|before|] == mark[0];
    assert s == (before + mark + sign) + (power + rest);
    PastDigits(before + mark + sign, power, rest);
    assert sign != "" ==> s[|before| + 1] == sign[0];
    assert sign == "" && power != "" ==> s[|before| + 1] == power[0];
    assert power != "" ==> s[k] == power[0];
    assert power == "" && rest != "" ==> s[k] == rest[0];
    assert SkipSign(s, |before| + 1) == k by {
      assert sign == "" && power == "" && rest != "" ==> s[|before| + 1] == rest[0];
    }
  }

  // What follows a number's digits does not go on with it.
  predicate EndsNumber(rest: string) {
    rest == "" || (!IsDigit(rest[0]) && rest[0] != 'e' && rest[0] != 'E')
  }

  function Pointed(point: bool, fraction: string): (s: string)
    ensures |s| == if point then 1 + |fraction| else 0
  {
    if point then "." + fraction else ""
  }

  lemma {:induction false} WholeReads(whole: string, rest: string)
    requires AllDigits(whole) && (rest == "" || !IsDigit(rest[0]))
    ensures SkipDigits(whole + rest, 0) == |whole|
  {
    hide WordLength, SkipDigits, AllDigits, IsDigit;
    PastDigits("", whole, rest);
    assert "" + (whole + rest) == whole + rest;
  }

  lemma {:induction false} FractionReads(whole: string, fraction: string, tail: string)
    requires AllDigits(fraction) && (tail == "" || !IsDigit(tail[0]))
    ensures SkipDigits(whole + ("." + fraction + tail), |whole| + 1) == |whole| + 1 + |fraction|
  {
    hide WordLength, SkipDigits, AllDigits, IsDigit;
    PastDigits(whole + ".", fraction, tail);
    assert (whole + ".") + (fraction + tail) == whole + ("." + fraction + tail);
  }

  // The digits before and after the point.
  lemma {:induction false} MantissaReads(whole: string, point: bool, fraction: string, tail: string)
    requires AllDigits(whole) && AllDigits(fraction) && (point || fraction == "")
    requires tail == "" || (!IsDigit(tail[0]) && (point || tail[0] != '.'))
    ensures var s := whole + (Pointed(point, fraction) + tail); var j := SkipDigits(s, 0);
      j == |whole| && |whole| <= |s| && (point <==> j < |s| && s[j] == '.')
      && (point ==> SkipDigits(s, j + 1) == |whole| + 1 + |fraction|)
  {
    hide WordLength, SkipDigits, AllDigits;
    if point {
      var rest := "." + fraction + tail;
      WholeReads(whole, rest);
      FractionReads(whole, fraction, tail);
      assert (whole + rest)[|whole|] == rest[0] == '.';
    } else {
      assert Pointed(point, fraction) + tail == tail;
      WholeReads(whole, tail);
      assert tail != "" ==> (whole + tail)[|whole|] == tail[0];
    }
  }

  /** A number: digits, a point and digits, and an exponent, of which the last two may be missing. */
  lemma {:induction false} NumeralReads(whole: string, point: bool, fraction: string, mark: string, sign: string,
    power: string, rest: string)
    requires AllDigits(whole) && AllDigits(fraction) && AllDigits(power) && (point || fraction == "")
    requires mark in {"", "e", "E"} && sign in {"", "+", "-"}
    requires (mark == "" <==> power == "") && (mark == "" ==> sign == "")
    requires EndsNumber(rest) && (!point && mark == "" ==> rest == "" || rest[0] != '.')
    ensures var number := whole + (Pointed(point, fraction) + (mark + (sign + power)));
      NumberLength(number + rest) == |number|
  {
    hide WordLength, SkipDigits, SkipExponent, AllDigits, Pointed, EndsNumber;
    var pointed := Pointed(point, fraction);
    var tail := (mark + (sign + power)) + rest;
    ScaleReads(whole + pointed, mark, sign, power, rest);
    MantissaReads(whole, point, fraction, tail);
    Regrouped(whole, pointed, mark + (sign + power), rest);
  }

  lemma {:induction false} Regrouped(a: string, b: string, c: string, d: string)
    ensures (a + (b + c)) + d == (a + b) + (c + d) == a + (b + (c + d))
  {
    assert (a + (b + c)) + d == (a + b) + (c + d);
  }

  /** Such a text that starts with a digit, or with a point and a digit, is one number token. */
  lemma {:induction false} NumeralTurn(whole: string, point: bool, fraction: string, mark: string, sign: string,
    power: string, rest: string, d: Dialect)
    requires AllDigits(whole) && AllDigits(fraction) && AllDigits(power) && (point || fraction == "")
    requires mark in {"", "e", "E"} && sign in {"", "+", "-"}
    requires (mark == "" <==> power == "") && (mark == "" ==> sign == "")
    requires EndsNumber(rest) && (!point && mark == "" ==> rest == "" || rest[0] != '.')
    requires whole != "" || fraction != ""
    ensures var number := whole + (Pointed(point, fraction) + (mark + (sign + power)));
      Turned(number + rest, d) == Emit(Digits(number), |number|)
  {
    hide WordLength, SkipDigits, SkipExponent, NumberLength, Quoted, CommentLength, Escaped, Operator, EndsNumber;
    var scale := mark + (sign + power);
    var number := whole + (Pointed(point, fraction) + scale);
    NumeralReads(whole, point, fraction, mark, sign, power, rest);
    StartsAsNumber(whole, point, fraction, scale + rest);
    Regrouped(whole, Pointed(point, fraction), scale, rest);
    assert (number + rest)[..|number|] == number;
  }

  lemma {:induction false} StartsAsNumber(whole: string, point: bool, fraction: string, tail: string)
    requires AllDigits(whole) && AllDigits(fraction) && (point || fraction == "") && (whole != "" || fraction != "")
    ensures var s := whole + (Pointed(point, fraction) + tail); s != "" && StartsNumber(s)
  {
    var s := whole + (Pointed(point, fraction) + tail);
    if whole != "" {
      assert s[0] == whole[0];
    } else {
      assert s[0] == '.' && s[1] == fraction[0];
    }
  }

  // What follows the mantissa, and that it starts with no digit.
  lemma {:induction false} ScaleReads(before: string, mark: string, sign: string, power: string, rest: string)
    requires mark in {"", "e", "E"} && sign in {"", "+", "-"} && AllDigits(power)
    requires (mark == "" <==> power == "") && (mark == "" ==> sign == "") && EndsNumber(rest)
    ensures var tail := (mark + (sign + power)) + rest;
      (tail == "" || !IsDigit(tail[0])) && (mark != "" ==> tail != "" && tail[0] != '.')
        && (mark == "" ==> tail == rest)
      && SkipExponent(before + tail, |before|) == |before| + |mark + (sign + power)|
  {
    hide WordLength, SkipDigits, SkipExponent, AllDigits;
    if mark == "" {
      NoExponent(before, rest);
      assert (mark + (sign + power)) + rest == rest;
    } else {
      ExponentReads(before, mark, sign, power, rest);
      assert (mark + (sign + power)) + rest == mark + (sign + (power + rest));
    }
  }

  lemma {:induction false} NoExponent(before: string, rest: string)
    requires rest == "" || (rest[0] != 'e' && rest[0] != 'E')
    ensures SkipExponent(before + rest, |before|) == |before|
  {
    assert rest != "" ==> (before + rest)[|before|] == rest[0];
  }

  // ----- keywords -----

  /** A small letter reads as its capital, any other character as itself. */
  lemma {:induction false} UpperLetters(s: string, i: nat, k: nat)
    requires i < |s| && k < 26
    ensures s[i] == SMALL_LETTERS[k] ==> Upper(s)[i] == CAPITAL_LETTERS[k]
    ensures s[i] !in SMALL_LETTERS ==> Upper(s)[i] == s[i]
  {
    LetterNumbers(k);
    LowerClass(s[i]);
  }

  lemma {:induction false} LetterNumbers(k: nat)
    requires k < 26
    ensures SMALL_LETTERS[k] as int == 'a' as int + k && CAPITAL_LETTERS[k] as int == 'A' as int + k
  {
  }
}
