/** What the order of a sorted search says of the cells themselves: numbers by size, texts by their first
    difference, false before true, descending the other way round, missing cells last either way, and the
    primary key among equals. */
module SortMeaning {
  import opened Milvus
  import opened Rows
  import opened RowSort
  import opened Store
  import opened StoreSearch
  import StoreResults

  // ----- cells -----

  // They agree up to k, where a ends or has the smaller character.
  ghost predicate DifferAt(a: string, b: string, k: nat) {
    && k <= |a| && k < |b| && (forall i :: 0 <= i < k ==> a[i] == b[i])
    && (k == |a| || a[k] < b[k])
  }

  ghost predicate TextBelow(a: string, b: string) {
    exists k: nat :: DifferAt(a, b, k)
  }

  ghost predicate CellBelow(a: Cell, b: Cell) {
    || (a.StrCell? && b.StrCell? && TextBelow(a.str, b.str))
    || (a.IntCell? && b.IntCell? && a.number < b.number)
    || (a.RealCell? && b.RealCell? && a.float < b.float)
    || (a.BoolCell? && b.BoolCell? && !a.flag && b.flag)
  }

  lemma {:induction false} TextBelowTail(a: string, b: string)
    requires a != "" && b != "" && a[0] == b[0]
    ensures TextBelow(a, b) <==> TextBelow(a[1..], b[1..])
  {
    if k: nat :| DifferAt(a, b, k) {
      forall i | 0 <= i < k - 1 ensures a[1..][i] == b[1..][i] {
        assert a[i + 1] == b[i + 1];
      }
      assert DifferAt(a[1..], b[1..], k - 1);
    }
    if k: nat :| DifferAt(a[1..], b[1..], k) {
      forall i | 0 <= i < k + 1 ensures a[i] == b[i] {
        assert i > 0 ==> a[1..][i - 1] == b[1..][i - 1];
      }
      assert DifferAt(a, b, k + 1);
    }
  }

  lemma {:induction false} TextsCompare(a: string, b: string)
    ensures CompareText(a, b) < 0 <==> TextBelow(a, b)
  {
    if a == "" {
      assert b != "" ==> DifferAt(a, b, 0);
    } else if b != "" {
      if a[0] == b[0] {
        TextsCompare(a[1..], b[1..]);
        TextBelowTail(a, b);
      } else if a[0] < b[0] {
        assert DifferAt(a, b, 0);
      }
    }
  }

  /** Two cells of one kind, strings, integers, doubles or booleans, compare as what they hold. */
  lemma {:induction false} CellsCompare(a: Cell, b: Cell, rt: Runtime)
    requires SameKind(a, b) && !a.OtherCell?
    ensures CompareCell(a, b, rt) < 0 <==> CellBelow(a, b)
    ensures CompareCell(a, b, rt) > 0 <==> CellBelow(b, a)
    ensures CompareCell(a, b, rt) == 0 <==> a == b
  {
    hide CompareText, TextBelow;
    if a.StrCell? {
      TextsCompare(a.str, b.str);
      TextsCompare(b.str, a.str);
      TextOpposite(a.str, b.str);
    }
  }

  // ----- rows -----

  // The two rows are the same to a clause.
  predicate TiesOn(a: Record, b: Record, field: string) {
    (field in a <==> field in b) && (field in a ==> a[field] == b[field])
  }

  // A clause puts a in front.
  ghost predicate Leads(a: Record, b: Record, c: SortClause) {
    && c.field in a
    && (c.field !in b || if c.desc then CellBelow(b[c.field], a[c.field]) else CellBelow(a[c.field], b[c.field]))
  }

  // The first clause they differ on puts a in front.
  ghost predicate LeadsAt(a: Record, b: Record, sorts: seq<SortClause>, k: nat) {
    k < |sorts| && (forall i :: 0 <= i < k ==> TiesOn(a, b, sorts[i].field)) && Leads(a, b, sorts[k])
  }

  ghost predicate Precedes(a: Record, b: Record, sorts: seq<SortClause>) {
    exists k: nat :: LeadsAt(a, b, sorts, k)
  }

  ghost predicate Ties(a: Record, b: Record, sorts: seq<SortClause>) {
    forall c :: c in sorts ==> TiesOn(a, b, c.field)
  }

  // Each sorted column holds cells of one kind, and none that is compared as printed text.
  ghost predicate Typed(a: Record, b: Record, sorts: seq<SortClause>) {
    forall c :: c in sorts && c.field in a && c.field in b ==>
      SameKind(a[c.field], b[c.field]) && !a[c.field].OtherCell?
  }

  lemma {:induction false} ClausesCompare(a: Record, b: Record, c: SortClause, rt: Runtime)
    requires Typed(a, b, [c])
    ensures CompareClause(a, b, c, rt) < 0 <==> Leads(a, b, c)
    ensures CompareClause(a, b, c, rt) == 0 <==> TiesOn(a, b, c.field)
  {
    hide CompareCell, CellBelow;
    assert c in [c];
    if c.field in a && c.field in b {
      CellsCompare(a[c.field], b[c.field], rt);
    }
  }

  lemma {:induction false} PrecedesTail(a: Record, b: Record, sorts: seq<SortClause>)
    requires sorts != []
    ensures Precedes(a, b, sorts)
       <==> Leads(a, b, sorts[0]) || (TiesOn(a, b, sorts[0].field) && Precedes(a, b, sorts[1..]))
    ensures Ties(a, b, sorts) <==> TiesOn(a, b, sorts[0].field) && Ties(a, b, sorts[1..])
  {
    hide Leads, TiesOn;
    assert forall c :: c in sorts <==> c == sorts[0] || c in sorts[1..];
    if k: nat :| LeadsAt(a, b, sorts, k) {
      if k > 0 {
        forall i | 0 <= i < k - 1 ensures TiesOn(a, b, sorts[1..][i].field) {
          assert sorts[1..][i] == sorts[i + 1];
        }
        assert LeadsAt(a, b, sorts[1..], k - 1);
      }
    }
    if Leads(a, b, sorts[0]) {
      assert LeadsAt(a, b, sorts, 0);
    }
    if TiesOn(a, b, sorts[0].field) && Precedes(a, b, sorts[1..]) {
      var k: nat :| LeadsAt(a, b, sorts[1..], k);
      forall i | 0 <= i < k + 1 ensures TiesOn(a, b, sorts[i].field) {
        assert i > 0 ==> sorts[i] == sorts[1..][i - 1];
      }
      assert LeadsAt(a, b, sorts, k + 1);
    }
  }

  lemma {:induction false} RowsCompare(a: Record, b: Record, sorts: seq<SortClause>, rt: Runtime)
    requires Typed(a, b, sorts)
    ensures CompareRows(a, b, sorts, rt) < 0 <==> Precedes(a, b, sorts)
    ensures CompareRows(a, b, sorts, rt) == 0 <==> Ties(a, b, sorts)
  {
    hide Leads, TiesOn, CompareClause, Precedes, Ties;
    if sorts == [] {
      NothingPrecedes(a, b);
    } else {
      assert sorts[0] in sorts && forall c :: c in [sorts[0]] ==> c in sorts;
      ClausesCompare(a, b, sorts[0], rt);
      RowsCompare(a, b, sorts[1..], rt);
      PrecedesTail(a, b, sorts);
      LeadsOrTies(a, b, sorts[0]);
    }
  }

  lemma {:induction false} NothingPrecedes(a: Record, b: Record)
    ensures !Precedes(a, b, []) && Ties(a, b, [])
  {
  }

  lemma {:induction false} LeadsOrTies(a: Record, b: Record, c: SortClause)
    requires Typed(a, b, [c])
    ensures !(Leads(a, b, c) && TiesOn(a, b, c.field))
  {
    hide TextBelow;
    assert c in [c];
    if c.field in a && c.field in b && a[c.field] == b[c.field] && a[c.field].StrCell? {
      TextsCompare(a[c.field].str, a[c.field].str);
      TextOpposite(a[c.field].str, a[c.field].str);
    }
  }

  // ----- sorted results -----

  // Every row stands before the next ones by the clauses or, tied on all of them, by its key.
  ghost predicate InSortOrder(rows: seq<Record>, sorts: seq<SortClause>, pk: string) {
    forall i, j :: 0 <= i < j < |rows| ==> InFront(rows[i], rows[j], sorts, pk)
  }

  ghost predicate InFront(a: Record, b: Record, sorts: seq<SortClause>, pk: string) {
    Precedes(a, b, sorts) || (Ties(a, b, sorts) && pk in a && pk in b && CellBelow(a[pk], b[pk]))
  }

  ghost predicate AllTyped(rows: seq<Record>, sorts: seq<SortClause>) {
    forall a, b :: a in rows && b in rows ==> Typed(a, b, sorts)
  }

  ghost predicate Keyed(rows: seq<Record>, pk: string) {
    forall r: Record :: r in rows ==> pk in r && (r[pk].StrCell? || r[pk].IntCell?)
  }

  /** Keys stand in the order of the strings or numbers they are. */
  lemma {:induction false} KeysCompare(a: Record, b: Record, pk: string, rt: Runtime)
    requires Keyed([a, b], pk)
    ensures KeyLess(a, b, pk, rt) <==> CellBelow(a[pk], b[pk])
  {
    hide CompareCell;
    assert a in [a, b] && b in [a, b];
    if SameKind(a[pk], b[pk]) {
      CellsCompare(a[pk], b[pk], rt);
    }
  }

  lemma {:induction false} OrderedMeans(rows: seq<Record>, sorts: seq<SortClause>, pk: string, rt: Runtime)
    requires AllTyped(rows, sorts) && Keyed(rows, pk)
    ensures Ordered(rows, sorts, pk, rt) <==> InSortOrder(rows, sorts, pk)
  {
    hide Precedes, Ties, CellBelow, KeyLess, CompareRows, Typed;
    forall i, j | 0 <= i < j < |rows|
      ensures Before(rows[i], rows[j], sorts, pk, rt) <==> InFront(rows[i], rows[j], sorts, pk)
    {
      assert rows[i] in rows && rows[j] in rows;
      RowsCompare(rows[i], rows[j], sorts, rt);
      KeysCompare(rows[i], rows[j], pk, rt);
    }
  }

  /** The one arrangement of the matches that a sorted search produces, told without its comparison. */
  lemma {:induction false} SortedMatchesMean(coll: Collection, e: Expr, sorts: seq<SortClause>, arranged: seq<Record>)
    requires coll.Valid() && AllTyped(coll.Matching(e), sorts)
    ensures (multiset(arranged) == multiset(coll.Matching(e)) && InSortOrder(arranged, sorts, coll.pk))
       <==> arranged == StableSort(coll.Matching(e), sorts, coll.rt)
  {
    hide InKeyOrder, Ordered, StableSort, InSortOrder, Typed, Uniform, KeyLess;
    var matches := coll.Matching(e);
    TypedIsUniform(matches, sorts);
    SelectWithin(coll.rows, r => coll.Selects(e, r));
    StoreResults.SortedMatches(coll, e, sorts, arranged);
    if multiset(arranged) == multiset(matches) {
      SameElements(arranged, matches);
      OrderedMeans(arranged, sorts, coll.pk, coll.rt);
    } else if arranged == StableSort(matches, sorts, coll.rt) {
      SortKeeps(matches, sorts, coll.rt);
    }
  }

  lemma {:induction false} TypedIsUniform(rows: seq<Record>, sorts: seq<SortClause>)
    requires AllTyped(rows, sorts)
    ensures AllUniform(rows, sorts)
  {
    forall a, b | a in rows && b in rows ensures Uniform(a, b, sorts) {
      assert Typed(a, b, sorts);
    }
  }

  /** So its first sort column reads from the smallest cell to the largest, or the other way round, and ends
      with the rows that have none. */
  lemma {:induction false} FirstColumnSorts(rows: seq<Record>, sorts: seq<SortClause>, pk: string, i: nat, j: nat)
    requires sorts != [] && InSortOrder(rows, sorts, pk) && i < j < |rows| && sorts[0].field in rows[j]
    ensures var c := sorts[0];
      c.field in rows[i]
      && var (x, y) := (rows[i][c.field], rows[j][c.field]);
        x == y || if c.desc then CellBelow(y, x) else CellBelow(x, y)
  {
    hide CellBelow;
    assert InFront(rows[i], rows[j], sorts, pk);
    PrecedesTail(rows[i], rows[j], sorts);
  }

  /** The pages of an unsorted search follow the keys. */
  lemma {:induction false} MatchesFollowKeys(coll: Collection, e: Expr)
    requires coll.Valid()
    ensures forall i, j :: 0 <= i < j < |coll.Matching(e)| ==>
      var a, b := coll.Matching(e)[i], coll.Matching(e)[j];
      coll.pk in a && coll.pk in b && CellBelow(a[coll.pk], b[coll.pk])
  {
    hide CellBelow, KeyLess;
    var rows := coll.Matching(e);
    SelectWithin(coll.rows, r => coll.Selects(e, r));
    SelectInOrder(coll.rows, r => coll.Selects(e, r), coll.pk, coll.rt);
    forall i, j | 0 <= i < j < |rows|
      ensures coll.pk in rows[i] && coll.pk in rows[j] && CellBelow(rows[i][coll.pk], rows[j][coll.pk])
    {
      assert rows[i] in rows && rows[j] in rows;
      KeysCompare(rows[i], rows[j], coll.pk, coll.rt);
    }
  }
}
