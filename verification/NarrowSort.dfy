/** Sorting on an 8-, 16- or 32-bit integer or a single-float column (internal/store/milvus.go). The client
    returns such a cell as a Go type of its own, which compareScalar compares as printed text, so the order
    is the numbers' order only for some numbers: this says for which. */
module NarrowSort {
  import opened Arithmetic
  import opened Milvus
  import opened Rows
  import opened RowSort

  function Sign(n: int): int {
    if n < 0 then -1 else if n > 0 then 1 else 0
  }

  function Length(n: nat): nat {
    |Digits(n)|
  }

  // ----- the text order of natural numbers -----

  lemma {:induction false} CompareAppend(s: string, t: string, c: char, d: char)
    requires |s| == |t|
    ensures CompareText(s + [c], t + [d])
         == if CompareText(s, t) != 0 then CompareText(s, t) else CompareText([c], [d])
  {
    if s == "" {
      assert s + [c] == [c] && t + [d] == [d];
    } else {
      assert (s + [c])[1..] == s[1..] + [c] && (t + [d])[1..] == t[1..] + [d];
      CompareAppend(s[1..], t[1..], c, d);
    }
  }

  // A text against a longer one: what the longer one starts with decides, and a start comes first.
  lemma {:induction false} CompareLonger(s: string, t: string, more: string)
    requires |s| == |t| && more != ""
    ensures CompareText(s, t + more) == if CompareText(s, t) != 0 then CompareText(s, t) else -1
  {
    if s == "" {
      assert t + more == more;
    } else {
      assert (t + more)[1..] == t[1..] + more;
      CompareLonger(s[1..], t[1..], more);
    }
  }

  lemma {:induction false} SameLengthCompares(a: nat, b: nat)
    requires Length(a) == Length(b)
    ensures CompareText(Digits(a), Digits(b)) == Sign(a - b)
  {
    if a < 10 {
      assert Length(b) == 1;
    } else {
      assert b >= 10;
      SameLengthCompares(a / 10, b / 10);
      CompareAppend(Digits(a / 10), Digits(b / 10), Digit(a % 10), Digit(b % 10));
    }
  }

  lemma {:induction false} LongerIsLarger(a: nat, b: nat)
    ensures a <= b ==> Length(a) <= Length(b)
  {
    if a <= b && b >= 10 && a >= 10 {
      LongerIsLarger(a / 10, b / 10);
    }
  }

  lemma {:induction false} DivideTwice(b: nat, m: nat)
    requires m > 0
    ensures b / 10 / m == b / (10 * m)
  {
    var q, r := b / 10, b % 10;
    var x, y := q / m, q % m;
    assert q == m * x + y;
    assert b == (10 * m) * x + (10 * y + r);
    QuotientIs(b, 10 * m, x, 10 * y + r);
  }

  // A number without its last k digits.
  function Cut(b: nat, k: nat): nat {
    if k == 0 then b else Cut(b / 10, k - 1)
  }

  lemma {:induction false} CutDivides(b: nat, k: nat)
    ensures Cut(b, k) == b / Power(10, k)
  {
    if k > 0 {
      CutDivides(b / 10, k - 1);
      DivideTwice(b, Power(10, k - 1));
    }
  }

  lemma {:induction false} LastDigit(b: nat)
    requires Length(b) > 1
    ensures Digits(b) == Digits(b / 10) + [Digit(b % 10)] && Length(b / 10) == Length(b) - 1
  {
  }

  // Its digits are the first ones of the number.
  lemma {:induction false} FirstDigits(b: nat, k: nat) returns (more: string)
    requires k < Length(b)
    ensures Digits(b) == Digits(Cut(b, k)) + more && |more| == k
  {
    hide Digits, Digit;
    if k == 0 {
      more := "";
    } else {
      LastDigit(b);
      var front := FirstDigits(b / 10, k - 1);
      more := front + [Digit(b % 10)];
    }
  }

  lemma {:induction false} NaturalsCompare(a: nat, b: nat)
    requires a < b
    ensures Length(a) <= Length(b)
    ensures CompareText(Digits(a), Digits(b)) == if a <= b / Power(10, Length(b) - Length(a)) then -1 else 1
  {
    hide Digits, CompareText, Power;
    LongerIsLarger(a, b);
    var k := Length(b) - Length(a);
    CutDivides(b, k);
    var more := FirstDigits(b, k);
    SameLengthCompares(a, Cut(b, k));
    if k > 0 {
      CompareLonger(Digits(a), Digits(Cut(b, k)), more);
    }
  }

  // ----- the text order of integers -----

  /** Whether the smaller of two integers also comes first as text. Digits decide among numbers that are
      not negative, against the larger one cut to the length of the smaller; among negative numbers that
      is upside down; and the minus sign comes before every digit. */
  predicate TextAgrees(a: int, b: int)
    requires a < b
  {
    if a >= 0 then LongerIsLarger(a, b); a <= b / Power(10, Length(b) - Length(a))
    else if b >= 0 then true
    else LongerIsLarger(-b, -a); -b > -a / Power(10, Length(-a) - Length(-b))
  }

  lemma {:induction false} IntegersCompare(a: int, b: int)
    requires a < b
    ensures CompareText(Decimal(a), Decimal(b)) == if TextAgrees(a, b) then -1 else 1
  {
    if a >= 0 {
      NaturalsCompare(a, b);
    } else if b >= 0 {
      assert Decimal(a)[0] == '-' && '0' <= Decimal(b)[0] <= '9';
    } else {
      NaturalsCompare(-b, -a);
      TextOpposite(Digits(-b), Digits(-a));
      assert Decimal(a)[1..] == Digits(-a) && Decimal(b)[1..] == Digits(-b);
      CompareIsSign(Digits(-a), Digits(-b));
    }
  }

  lemma {:induction false} CompareIsSign(s: string, t: string)
    ensures CompareText(s, t) in {-1, 0, 1}
  {
    if s != "" && t != "" && s[0] == t[0] {
      CompareIsSign(s[1..], t[1..]);
    }
  }

  // ----- a sorted column -----

  /** What a row's cell stands for, in a column whose cells are compared as text. Different numbers are printed
      differently. */
  ghost predicate TextColumn(rows: seq<Record>, field: string, number: Record -> real, rt: Runtime) {
    && (forall r: Record :: r in rows && field in r ==> r[field].OtherCell?)
    && forall x: Record, y: Record | x in rows && y in rows && field in x && field in y ::
         rt.show(x[field]) == rt.show(y[field]) ==> number(x) == number(y)
  }

  // By number, the rows without one last.
  ghost predicate InNumberOrder(rows: seq<Record>, c: SortClause, number: Record -> real) {
    forall i, j :: 0 <= i < j < |rows| && c.field in rows[j] ==>
      c.field in rows[i]
      && if c.desc then number(rows[i]) >= number(rows[j]) else number(rows[i]) <= number(rows[j])
  }

  // Of two rows the one with the smaller number has the smaller text.
  ghost predicate TextFollows(x: Record, y: Record, field: string, number: Record -> real, rt: Runtime) {
    field in x && field in y && number(x) < number(y) ==> CompareText(rt.show(x[field]), rt.show(y[field])) < 0
  }

  ghost predicate AllTextFollows(rows: seq<Record>, field: string, number: Record -> real, rt: Runtime) {
    forall x, y :: x in rows && y in rows ==> TextFollows(x, y, field, number, rt)
  }

  lemma {:induction false} TextIsUniform(rows: seq<Record>, c: SortClause, number: Record -> real, rt: Runtime)
    requires TextColumn(rows, c.field, number, rt)
    ensures AllUniform(rows, [c])
  {
    forall a, b | a in rows && b in rows ensures Uniform(a, b, [c]) {}
  }

  // What comparing two rows of such a column comes to.
  lemma {:induction false} TextRowsCompare(x: Record, y: Record, c: SortClause, rt: Runtime)
    requires (c.field in x ==> x[c.field].OtherCell?) && (c.field in y ==> y[c.field].OtherCell?)
    ensures CompareRows(x, y, [c], rt)
         == if c.field in x && c.field in y then
              (if c.desc then -CompareText(rt.show(x[c.field]), rt.show(y[c.field]))
               else CompareText(rt.show(x[c.field]), rt.show(y[c.field])))
            else if c.field in x then -1 else if c.field in y then 1 else 0
  {
    assert [c][1..] == [];
  }

  /** A search sorted on a column whose cells are compared as text - an 8-, 16- or 32-bit integer or a single
      float - returns its rows in the order of the numbers, nulls last, exactly when of any two rows the one
      with the smaller number has the smaller text. */
  lemma {:induction false} TextColumnSorts(rows: seq<Record>, c: SortClause, number: Record -> real, pk: string,
    rt: Runtime)
    requires TextColumn(rows, c.field, number, rt) && InKeyOrder(rows, pk, rt)
    ensures InNumberOrder(StableSort(rows, [c], rt), c, number) <==> AllTextFollows(rows, c.field, number, rt)
  {
    hide CompareRows, CompareText, KeyLess, StableSort, Uniform, InKeyOrder, AllUniform, TextFollows;
    var out := StableSort(rows, [c], rt);
    TextIsUniform(rows, c, number, rt);
    SortOrders(rows, [c], pk, rt);
    SortKeeps(rows, [c], rt);
    SameElements(out, rows);
    if AllTextFollows(rows, c.field, number, rt) {
      FollowingSorts(out, c, number, pk, rt);
    }
    if InNumberOrder(out, c, number) {
      forall x, y | x in rows && y in rows ensures TextFollows(x, y, c.field, number, rt) {
        SortedFollows(out, x, y, c, number, pk, rt);
      }
    }
  }

  lemma {:induction false} FollowingSorts(out: seq<Record>, c: SortClause, number: Record -> real, pk: string,
    rt: Runtime)
    requires TextColumn(out, c.field, number, rt) && Ordered(out, [c], pk, rt)
    requires AllTextFollows(out, c.field, number, rt)
    ensures InNumberOrder(out, c, number)
  {
    hide CompareRows, CompareText, KeyLess;
    forall i, j | 0 <= i < j < |out| && c.field in out[j]
      ensures c.field in out[i]
      ensures if c.desc then number(out[i]) >= number(out[j]) else number(out[i]) <= number(out[j])
    {
      var x, y := out[i], out[j];
      assert x in out && y in out && Before(x, y, [c], pk, rt);
      TextRowsCompare(x, y, c, rt);
      assert TextFollows(x, y, c.field, number, rt) && TextFollows(y, x, c.field, number, rt);
      if c.field in x {
        TextOpposite(rt.show(x[c.field]), rt.show(y[c.field]));
      }
    }
  }

  lemma {:induction false} SortedFollows(out: seq<Record>, x: Record, y: Record, c: SortClause,
    number: Record -> real, pk: string, rt: Runtime)
    requires TextColumn(out, c.field, number, rt) && Ordered(out, [c], pk, rt) && InNumberOrder(out, c, number)
    requires x in out && y in out
    ensures TextFollows(x, y, c.field, number, rt)
  {
    hide CompareRows, CompareText, KeyLess;
    if c.field in x && c.field in y && number(x) < number(y) {
      var i :| 0 <= i < |out| && out[i] == x;
      var j :| 0 <= j < |out| && out[j] == y;
      TextOpposite(rt.show(x[c.field]), rt.show(y[c.field]));
      TextRowsCompare(x, y, c, rt);
      TextRowsCompare(y, x, c, rt);
      if i < j {
        assert Before(x, y, [c], pk, rt);
      } else {
        assert Before(y, x, [c], pk, rt);
      }
    }
  }

  // ----- a column of narrow integers -----

  // In either order.
  predicate SortsAsNumbers(a: int, b: int) {
    a == b || if a < b then TextAgrees(a, b) else TextAgrees(b, a)
  }

  /** Two narrow integer cells compare as their numbers exactly where text and numbers agree. */
  lemma {:induction false} NarrowIntegersSortAsText(a: Cell, b: Cell, m: int, n: int, rt: Runtime)
    requires a.OtherCell? && b.OtherCell? && rt.show(a) == Decimal(m) && rt.show(b) == Decimal(n)
    ensures CompareCell(a, b, rt) == Sign(m - n) <==> SortsAsNumbers(m, n)
    ensures CompareCell(a, b, rt) == 0 <==> m == n
  {
    hide CompareText, TextAgrees, Decimal;
    TextOpposite(Decimal(m), Decimal(n));
    CompareIsSign(Decimal(m), Decimal(n));
    CompareIsSign(Decimal(n), Decimal(m));
    if m < n {
      IntegersCompare(m, n);
    } else if n < m {
      IntegersCompare(n, m);
    }
  }

  // A column of narrow integers: where there is a cell, it is printed as the row's number.
  ghost predicate NarrowColumn(rows: seq<Record>, field: string, number: Record -> int, rt: Runtime) {
    forall r: Record :: r in rows && field in r ==> r[field].OtherCell? && rt.show(r[field]) == Decimal(number(r))
  }

  ghost predicate AllSortAsNumbers(rows: seq<Record>, field: string, number: Record -> int) {
    forall x: Record, y: Record :: x in rows && y in rows && field in x && field in y ==>
      SortsAsNumbers(number(x), number(y))
  }

  function AsReal(number: Record -> int): Record -> real {
    r => number(r) as real
  }

  lemma {:induction false} NarrowTextFollows(x: Record, y: Record, field: string, number: Record -> int, rt: Runtime)
    requires NarrowColumn([x, y], field, number, rt)
    ensures TextFollows(x, y, field, AsReal(number), rt) && TextFollows(y, x, field, AsReal(number), rt)
       <==> (field in x && field in y ==> SortsAsNumbers(number(x), number(y)))
    ensures field in x && field in y && rt.show(x[field]) == rt.show(y[field]) ==> number(x) == number(y)
  {
    hide CompareText, TextAgrees, Decimal;
    assert x in [x, y] && y in [x, y];
    if field in x && field in y {
      NarrowIntegersSortAsText(x[field], y[field], number(x), number(y), rt);
      TextOpposite(Decimal(number(x)), Decimal(number(y)));
      if number(x) < number(y) {
        IntegersCompare(number(x), number(y));
      } else if number(y) < number(x) {
        IntegersCompare(number(y), number(x));
      }
    }
  }

  /** Among narrow integers the texts follow the numbers exactly when text and numbers agree on every two. */
  lemma {:induction false} NarrowColumnSorts(rows: seq<Record>, c: SortClause, number: Record -> int, pk: string,
    rt: Runtime)
    requires NarrowColumn(rows, c.field, number, rt) && InKeyOrder(rows, pk, rt)
    ensures InNumberOrder(StableSort(rows, [c], rt), c, AsReal(number)) <==> AllSortAsNumbers(rows, c.field, number)
  {
    hide StableSort, SortsAsNumbers, InKeyOrder, InNumberOrder, TextFollows, Decimal;
    forall x, y | x in rows && y in rows
      ensures TextFollows(x, y, c.field, AsReal(number), rt) && TextFollows(y, x, c.field, AsReal(number), rt)
         <==> (c.field in x && c.field in y ==> SortsAsNumbers(number(x), number(y)))
      ensures c.field in x && c.field in y && rt.show(x[c.field]) == rt.show(y[c.field]) ==> number(x) == number(y)
    {
      NarrowTextFollows(x, y, c.field, number, rt);
    }
    TextColumnSorts(rows, c, AsReal(number), pk, rt);
  }

  /** The input that shows it: 9 and 10, in either order of keys, come back as 10 and 9. */
  lemma {:induction false} TenComesBeforeNine()
    ensures !SortsAsNumbers(9, 10)
  {
    assert Digits(10) == Digits(1) + [Digit(0)];
    assert Power(10, 1) == 10 * Power(10, 0);
  }
}
