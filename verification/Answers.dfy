/**
 What make_one_rel returns, row by row, for every query over distinct tables whose plan can be executed, and exactly
 when the rows are the answer.
 */
module Answers {
  import opened Defs
  import opened Relational
  import opened Planning
  import opened OneRel
  import opened Dropping
  import opened Execution
  import opened Catalog

  /** The plan yields nothing, whatever the tables hold. */
  ghost predicate Emptied(tables: seq<string>, conds: seq<Condition>) {
    Misplaced(tables, conds) || (|tables| > 1 && Unmet(tables, Left(tables, conds)))
  }

  /** The rows of an executable plan: none for an emptied query, and otherwise the answer without conditions outside FROM. */
  ghost predicate RowsAre(db: Database, p: Plan, tables: seq<string>, conds: seq<Condition>) {
    Executable(p) ==> Rows(db, p) == if Emptied(tables, conds) then {} else Answer(db, tables, InScope(tables, conds))
  }

  ghost predicate Answers(db: Database, p: Plan, tables: seq<string>, conds: seq<Condition>) {
    Executable(p) && Rows(db, p) == Answer(db, tables, conds)
  }

  /**
   The plan answers the query if and only if the query is admissible, or it can be executed and neither it nor the
   query yields anything.
   */
  ghost predicate RightExactly(db: Database, catalog: map<string, TabMeta>, p: Plan, tables: seq<string>, conds: seq<Condition>)
    requires tables != [] && tables[0] in catalog
  {
    Answers(db, p, tables, conds) <==>
      || Admissible(tables, conds)
      || (CanRun(catalog, tables, conds) && Answer(db, tables, conds) == {}
          && (Emptied(tables, conds) || Answer(db, tables, InScope(tables, conds)) == {}))
  }

  /** For every query over distinct tables and every database. */
  lemma RowsOfPlan(db: Database, catalog: map<string, TabMeta>, tables: seq<string>, conds: seq<Condition>)
    requires Plannable(catalog, tables, conds) && NoDuplicates(tables)
    ensures RowsAre(db, PlanOf(catalog, tables, conds), tables, conds)
  {
    ExecutableIff(catalog, tables, conds);
    hide PlanOf, Rows, Answer, Misplaced, Unmet, NullChild, InScope, Executable;
    if Misplaced(tables, conds) {
      MisplacedAlwaysEmpty(db, catalog, tables, conds);
    } else if Emptied(tables, conds) {
      UnmetAlwaysEmpty(db, catalog, tables, conds);
    } else if Executable(PlanOf(catalog, tables, conds)) {
      OutsideDropped(catalog, tables, conds);
      InScopeAdmissible(catalog, tables, conds);
      OneRelAnswersQuery(db, catalog, tables, InScope(tables, conds));
    }
  }

  /** A condition outside FROM leaves a query without answers. */
  lemma OutsideNoAnswer(db: Database, tables: seq<string>, conds: seq<Condition>, c: Condition)
    requires c in conds && !Within(c, TableSet(tables))
    ensures Answer(db, tables, conds) == {}
  {
    CrossKeys(db, tables);
    var i :| 0 <= i < |conds| && conds[i] == c;
    forall row | row in Cross(db, tables) ensures !AllHold(db, conds, row) { assert !Holds(db, conds[i], row); }
  }

  /** No condition of an admissible query breaks the plan. */
  lemma AdmissibleRuns(catalog: map<string, TabMeta>, tables: seq<string>, conds: seq<Condition>)
    requires Plannable(catalog, tables, conds) && Admissible(tables, conds)
    ensures CanRun(catalog, tables, conds)
  {
    PlanParts(catalog, tables, conds);
    ScansAreMade(catalog, tables, conds, |tables|);
    var rest := Scans(catalog, tables, conds, |tables|).1;
    assert forall c | c in rest :: c in conds && Within(c, TableSet(tables));
    hide Scans, ScansMade, Left;
    if rest != [] { NoneNull(tables, Names(rest[0]), rest[1..]); }
  }

  lemma {:induction false} NoneNull(tables: seq<string>, seen: set<string>, rest: seq<Condition>)
    requires forall c | c in rest :: Within(c, TableSet(tables))
    ensures !NullAfter(tables, seen, rest)
    decreases rest
  {
    if rest != [] {
      assert Within(rest[0], TableSet(tables));
      NoneNull(tables, seen + Names(rest[0]), rest[1..]);
    }
  }

  /**
   When the plan answers the query: for an admissible query always, and for any other query exactly on the databases
   where it can be executed, the query has no answers and the plan yields none either.
   */
  lemma AnswersIff(db: Database, catalog: map<string, TabMeta>, tables: seq<string>, conds: seq<Condition>)
    requires Plannable(catalog, tables, conds) && NoDuplicates(tables)
    ensures RightExactly(db, catalog, PlanOf(catalog, tables, conds), tables, conds)
  {
    RowsOfPlan(db, catalog, tables, conds);
    ExecutableIff(catalog, tables, conds);
    hide PlanOf, Rows, Answer, Unmet, NullChild, InScope, Executable, CanRun;
    if Admissible(tables, conds) {
      AdmissibleRuns(catalog, tables, conds);
      OneRelAnswersQuery(db, catalog, tables, conds);
    } else if c :| c in conds && !Within(c, TableSet(tables)) {
      OutsideNoAnswer(db, tables, conds, c);
    } else {
      assert Misplaced(tables, conds);
    }
  }

  /** With all conditions on FROM tables a query that is not admissible is answered only where it has no answer. */
  lemma AnswersIffWithin(db: Database, catalog: map<string, TabMeta>, tables: seq<string>, conds: seq<Condition>)
    requires Plannable(catalog, tables, conds) && NoDuplicates(tables)
    requires forall c | c in conds :: Within(c, TableSet(tables))
    ensures Answers(db, PlanOf(catalog, tables, conds), tables, conds) <==>
            Admissible(tables, conds) || (Answer(db, tables, conds) == {} && !IndexFirst(catalog, tables, conds))
  {
    AnswersIff(db, catalog, tables, conds);
    WithinRuns(catalog, tables, conds);
    hide PlanOf, Rows, Answer, Unmet, NullChild, InScope, Executable, IndexFirst;
    InScopeAll(tables, conds);
  }

  lemma WithinRuns(catalog: map<string, TabMeta>, tables: seq<string>, conds: seq<Condition>)
    requires Plannable(catalog, tables, conds) && forall c | c in conds :: Within(c, TableSet(tables))
    ensures CanRun(catalog, tables, conds) <==> !(Misplaced(tables, conds) && IndexFirst(catalog, tables, conds))
  {
    PlanParts(catalog, tables, conds);
    ScansAreMade(catalog, tables, conds, |tables|);
    var rest := Scans(catalog, tables, conds, |tables|).1;
    assert forall c | c in rest :: c in conds && Within(c, TableSet(tables));
    hide Scans, ScansMade, Left, Misplaced, IndexFirst;
    if rest != [] { NoneNull(tables, Names(rest[0]), rest[1..]); }
  }

  lemma RowsEverywhere(catalog: map<string, TabMeta>, tables: seq<string>, conds: seq<Condition>)
    requires Plannable(catalog, tables, conds) && NoDuplicates(tables)
    ensures var p := PlanOf(catalog, tables, conds);
            forall db :: RowsAre(db, p, tables, conds) && RightExactly(db, catalog, p, tables, conds)
  {
    hide PlanOf, RowsAre, RightExactly;
    forall db ensures RowsAre(db, PlanOf(catalog, tables, conds), tables, conds)
              ensures RightExactly(db, catalog, PlanOf(catalog, tables, conds), tables, conds)
    {
      RowsOfPlan(db, catalog, tables, conds);
      AnswersIff(db, catalog, tables, conds);
    }
  }

  // ----- Inputs on which rows are lost or added, or the plan cannot be executed -----

  /** Rows are lost: FROM a, b with a comparison of two columns of b. */
  lemma MisplacedComparison(catalog: map<string, TabMeta>, a: string, b: string, c: Condition)
    requires Plannable(catalog, [a, b], [c]) && a != b && c.lhs.tabName == c.rhsCol.tabName == b && !c.isRhsVal
    requires c.op == OpEq || c.op == OpLe || c.op == OpGe
    requires !IndexFirst(catalog, [a, b], [c])
    ensures Executable(PlanOf(catalog, [a, b], [c]))
    ensures exists db :: Rows(db, PlanOf(catalog, [a, b], [c])) == {} != Answer(db, [a, b], [c])
  {
    ExecutableIff(catalog, [a, b], [c]);
    assert forall d | d in [c] :: Within(d, TableSet([a, b]));
    WithinRuns(catalog, [a, b], [c]);
    hide PlanOf, Rows, Answer, IndexFirst;
    var db := LostRow(a, b, c);
    assert c in [c];
    MisplacedAlwaysEmpty(db, catalog, [a, b], [c]);
  }

  lemma LostRow(a: string, b: string, c: Condition) returns (db: Database)
    requires a != b && c.lhs.tabName == c.rhsCol.tabName == b && !c.isRhsVal
    requires c.op == OpEq || c.op == OpLe || c.op == OpGe
    ensures Answer(db, [a, b], [c]) != {}
  {
    var rid := Rid(1, 0);
    var tuple: Tuple := map[c.lhs.colName := IntVal(0), c.rhsCol.colName := IntVal(0)];
    db := map[a := map[rid := map[]], b := map[rid := tuple]];
    var row: Row := map[a := rid, b := rid];
    CrossMeaning(db, [a, b], row);
    assert Holds(db, c, row);
    assert row in Answer(db, [a, b], [c]);
  }

  /** Rows are added: FROM a with a condition on another table returns all of a. */
  lemma OutsideCondition(catalog: map<string, TabMeta>, a: string, c: Condition)
    requires Plannable(catalog, [a], [c]) && c.lhs.tabName != a && c.isRhsVal
    ensures Executable(PlanOf(catalog, [a], [c]))
    ensures forall db :: Rows(db, PlanOf(catalog, [a], [c])) == TableRows(db, a) && Answer(db, [a], [c]) == {}
    ensures exists db :: TableRows(db, a) != {}
  {
    assert InScope([a], [c]) == InScope([a], []) == [];
    assert !Misplaced([a], [c]);
    ExecutableIff(catalog, [a], [c]);
    hide Executable;
    forall db ensures Rows(db, PlanOf(catalog, [a], [c])) == TableRows(db, a) && Answer(db, [a], [c]) == {} {
      RowsOfPlan(db, catalog, [a], [c]);
      hide PlanOf, Rows;
      OutsideNoAnswer(db, [a], [c], c);
      forall row ensures row in Answer(db, [a], []) <==> row in TableRows(db, a) {
        CrossMeaning(db, [a], row);
        TableRowsMeaning(db, a, row);
        assert TableSet([a]) == {a};
      }
    }
    var db: Database := map[a := map[Rid(1, 0) := map[]]];
    assert map[a := Rid(1, 0)] in TableRows(db, a);
  }

  /** A null child: FROM a, b WHERE a.x = z.y, with z any table of the database that is not in FROM. */
  lemma NullChildInput(catalog: map<string, TabMeta>, a: string, b: string, c: Condition)
    requires Plannable(catalog, [a, b], [c]) && !c.isRhsVal && c.lhs.tabName == a && c.rhsCol.tabName !in [a, b]
    ensures !Executable(PlanOf(catalog, [a, b], [c]))
    ensures forall db :: Answer(db, [a, b], [c]) == {} && !Answers(db, PlanOf(catalog, [a, b], [c]), [a, b], [c])
  {
    ExecutableIff(catalog, [a, b], [c]);
    assert !PopsForSome([a, b], c) && Left([a, b], [c]) == [c] + Left([a, b], []);
    hide Executable, PlanOf;
    forall db ensures Answer(db, [a, b], [c]) == {} { OutsideNoAnswer(db, [a, b], [c], c); }
  }

  /** An assertion: FROM a, b WHERE a.k = v AND b.x = b.y, with an index on a.k. */
  lemma RefusedIndexScan(catalog: map<string, TabMeta>, a: string, b: string, point: Condition, c: Condition)
    requires Plannable(catalog, [a, b], [point, c]) && a != b && c.lhs.tabName == c.rhsCol.tabName == b
    requires point.isRhsVal && point.op == OpEq && point.lhs.tabName == a && HasIndex(catalog[a], [point.lhs.colName])
    ensures !Executable(PlanOf(catalog, [a, b], [point, c]))
  {
    var conds := [point, c];
    ExecutableIff(catalog, [a, b], conds);
    assert c in conds;
    assert conds[..1] == [point] && conds[..1][..0] == [];
    assert PointCols(a, conds[..1]) == [point.lhs.colName];
    assert PointCols(a, conds) == [point.lhs.colName];
    hide Executable, PlanOf, NullChild;
  }
}
