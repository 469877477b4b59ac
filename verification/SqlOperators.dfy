/** The operator tables. Both are documented as listing the longest operators first, so that the longest
    one that fits is taken; the catalog's table does not. */
module SqlOperators {
  import opened SqlTokens
  import opened SqlLexer
  import opened SqlLocal

  // The operator taken is the longest that fits.
  ghost predicate TakesLongest(operators: seq<string>) {
    forall s, k :: 0 <= k < |operators| && operators[k] <= s ==> |operators[k]| <= |Operator(s, operators)|
  }

  // No operator hides a longer one listed after it.
  ghost predicate Unshadowed(operators: seq<string>) {
    forall i, j :: 0 <= i < j < |operators| ==> !(operators[i] < operators[j])
  }

  ghost predicate Distinct(operators: seq<string>) {
    forall i, j :: 0 <= i < j < |operators| ==> operators[i] != operators[j]
  }

  // Where the operator taken is listed, ahead of any other that fits.
  lemma {:induction false} TakenFrom(s: string, operators: seq<string>, k: nat) returns (i: nat)
    requires k < |operators| && operators[k] <= s
    ensures i <= k && Operator(s, operators) == operators[i] && operators[i] <= s
  {
    if operators[0] <= s {
      return 0;
    } else {
      var j := TakenFrom(s, operators[1..], k - 1);
      return j + 1;
    }
  }

  lemma PrefixesNest(p: string, q: string, s: string)
    requires p <= s && q <= s
    ensures |p| < |q| ==> p < q
  {
    assert forall i :: 0 <= i < |p| && i < |q| ==> p[i] == s[i] == q[i];
  }

  lemma ShadowLoses(operators: seq<string>, i: nat, j: nat)
    requires Distinct(operators) && i < j < |operators| && operators[i] < operators[j]
    ensures |Operator(operators[j], operators)| < |operators[j]|
  {
    var taken := TakenFrom(operators[j], operators, i);
    assert operators[taken] != operators[j];
  }

  /** Searching a table in order takes the longest operator on every source exactly when none is listed
      behind a prefix of itself. */
  lemma LongestExactlyUnshadowed(operators: seq<string>)
    requires Distinct(operators)
    ensures TakesLongest(operators) <==> Unshadowed(operators)
  {
    forall s, k | Unshadowed(operators) && 0 <= k < |operators| && operators[k] <= s
      ensures |operators[k]| <= |Operator(s, operators)|
    {
      var i := TakenFrom(s, operators, k);
      PrefixesNest(operators[i], operators[k], s);
    }
    forall i, j | TakesLongest(operators) && 0 <= i < j < |operators| ensures !(operators[i] < operators[j]) {
      if operators[i] < operators[j] {
        ShadowLoses(operators, i, j);
      }
    }
  }

  /** The query dialect's table keeps its promise. */
  lemma QueryTakesLongest(s: string, op: string)
    requires op in QUERY_OPERATORS && op <= s
    ensures |op| <= |Operator(s, QUERY_OPERATORS)|
  {
    var k :| 0 <= k < |QUERY_OPERATORS| && QUERY_OPERATORS[k] == op;
    var i := TakenFrom(s, QUERY_OPERATORS, k);
    QueryLengths();
  }

  lemma QueryLengths()
    ensures |QUERY_OPERATORS| == 20
    ensures forall i :: 0 <= i < 4 ==> |QUERY_OPERATORS[i]| == 3
    ensures forall i :: 4 <= i < 9 ==> |QUERY_OPERATORS[i]| == 2
    ensures forall i :: 9 <= i < 20 ==> |QUERY_OPERATORS[i]| == 1
  {
  }

  /** The catalog's table does not: every source that starts with one of its two doubled tildes loses the
      second one, so neither is ever a token. */
  lemma CatalogLosesTildes(s: string)
    ensures "~~" <= s ==> Operator(s, CATALOG_OPERATORS) == "~"
    ensures "!~~" <= s ==> Operator(s, CATALOG_OPERATORS) == "!~"
    ensures Operator(s, CATALOG_OPERATORS) != "~~" && Operator(s, CATALOG_OPERATORS) != "!~~"
  {
    hide Operator;
    if "~~" <= s {
      Tilde(s);
    }
    if "!~~" <= s {
      BangTilde(s);
    }
    OperatorFits(s);
  }

  // The two texts differ in one of their first three characters.
  predicate DifferSoon(p: string, q: string) {
    || (|p| > 0 && |q| > 0 && p[0] != q[0])
    || (|p| > 1 && |q| > 1 && p[1] != q[1])
    || (|p| > 2 && |q| > 2 && p[2] != q[2])
  }

  lemma TakenAt(s: string, start: string, k: nat)
    requires k < |CATALOG_OPERATORS| && start <= s && CATALOG_OPERATORS[k] <= start
    requires forall i :: 0 <= i < k ==> DifferSoon(CATALOG_OPERATORS[i], start)
    ensures Operator(s, CATALOG_OPERATORS) == CATALOG_OPERATORS[k]
  {
    FirstOperator(s, CATALOG_OPERATORS, k);
  }

  lemma Tilde(s: string)
    requires "~~" <= s
    ensures Operator(s, CATALOG_OPERATORS) == "~"
  {
    assert forall i :: 0 <= i < 7 ==> DifferSoon(CATALOG_OPERATORS[i], "~~");
    assert CATALOG_OPERATORS[7] == "~" && "~" <= "~~";
    TakenAt(s, "~~", 7);
  }

  lemma BangTilde(s: string)
    requires "!~~" <= s
    ensures Operator(s, CATALOG_OPERATORS) == "!~"
  {
    assert forall i :: 0 <= i < 6 ==> DifferSoon(CATALOG_OPERATORS[i], "!~~");
    assert CATALOG_OPERATORS[6] == "!~" && "!~" <= "!~~";
    TakenAt(s, "!~~", 6);
  }

  // On this source the operator taken is the longest that fits.
  ghost predicate TakesLongestOn(s: string, operators: seq<string>) {
    forall k :: 0 <= k < |operators| && operators[k] <= s ==> |operators[k]| <= |Operator(s, operators)|
  }

  /** Those are all: the catalog's table takes the longest operator exactly on the sources that start with
      neither of the two. */
  lemma CatalogTakesLongestWhen(s: string)
    ensures TakesLongestOn(s, CATALOG_OPERATORS) <==> !("~~" <= s) && !("!~~" <= s)
  {
    hide Operator, CATALOG_OPERATORS;
    CatalogLosesTildes(s);
    TildesListed();
    if !("~~" <= s) && !("!~~" <= s) {
      forall k | 0 <= k < |CATALOG_OPERATORS| && CATALOG_OPERATORS[k] <= s
        ensures |CATALOG_OPERATORS[k]| <= |Operator(s, CATALOG_OPERATORS)|
      {
        var i := TakenFrom(s, CATALOG_OPERATORS, k);
        OnlyTildesHide(i, k);
        PrefixesNest(CATALOG_OPERATORS[i], CATALOG_OPERATORS[k], s);
      }
    }
  }

  lemma TildesListed()
    ensures |CATALOG_OPERATORS| == 26 && CATALOG_OPERATORS[8] == "~~" && CATALOG_OPERATORS[9] == "!~~"
  {
  }

  // The only operators listed behind a prefix of themselves.
  lemma OnlyTildesHide(i: nat, k: nat)
    requires i <= k < |CATALOG_OPERATORS| && k != 8 && k != 9
    ensures !(CATALOG_OPERATORS[i] < CATALOG_OPERATORS[k])
  {
    CatalogLengths();
    if k == 4 {
      assert forall j :: 0 <= j < 4 ==> DifferSoon(CATALOG_OPERATORS[j], CATALOG_OPERATORS[4]);
    } else if k == 10 || k == 11 {
      assert DifferSoon(CATALOG_OPERATORS[7], CATALOG_OPERATORS[10]);
      assert DifferSoon(CATALOG_OPERATORS[7], CATALOG_OPERATORS[11]);
    }
  }

  lemma CatalogLengths()
    ensures |CATALOG_OPERATORS| == 26
    ensures forall i :: 0 <= i < 4 ==> |CATALOG_OPERATORS[i]| == 2
    ensures |CATALOG_OPERATORS[4]| == 3 && |CATALOG_OPERATORS[5]| == |CATALOG_OPERATORS[6]| == 2
    ensures |CATALOG_OPERATORS[7]| == 1 && |CATALOG_OPERATORS[10]| == |CATALOG_OPERATORS[11]| == 2
    ensures |CATALOG_OPERATORS[8]| == 2 && |CATALOG_OPERATORS[9]| == 3
    ensures forall i :: 12 <= i < 26 ==> |CATALOG_OPERATORS[i]| == 1
  {
  }

  lemma OperatorFits(s: string)
    ensures Operator(s, CATALOG_OPERATORS) <= s
  {
  }
}
