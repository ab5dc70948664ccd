/**
 Conditions, plan trees and their relational meaning.

 A result row picks one record (a `Rid`) for every table it covers.  Two records with equal
 bytes have different rids, so a set of such rows is the bag of tuples SQL asks for.
 */
module Relational {
  import opened Defs

  datatype TabCol = TabCol(tabName: string, colName: string)

  datatype CompOp = OpEq | OpNe | OpLt | OpGt | OpLe | OpGe

  datatype Value = IntVal(i: int) | FloatVal(f: real) | StrVal(s: string)

  datatype Condition = Condition(lhs: TabCol, op: CompOp, isRhsVal: bool, rhsCol: TabCol, rhsVal: Value)

  type Tuple = map<string, Value>
  type Database = map<string, map<Rid, Tuple>>
  type Row = map<string, Rid>

  datatype ScanKind = SeqScan | IndexScan

  datatype ScanPlan = ScanPlan(kind: ScanKind, tabName: string, conds: seq<Condition>, indexCols: seq<string>)

  /** A plan tree as a value.  `Null` is the null pointer a failed look-up leaves in a join. */
  datatype Plan =
    | Null
    | Scan(scan: ScanPlan)
    | Join(left: Plan, right: Plan, conds: seq<Condition>)

  // ----- Conditions -----

  function SwapOp(op: CompOp): CompOp {
    match op
    case OpEq => OpEq
    case OpNe => OpNe
    case OpLt => OpGt
    case OpGt => OpLt
    case OpLe => OpGe
    case OpGe => OpLe
  }

  /** The condition with its two columns exchanged and its operator turned round. */
  function Swap(c: Condition): Condition {
    c.(lhs := c.rhsCol, rhsCol := c.lhs, op := SwapOp(c.op))
  }

  function CompareStrings(s: string, t: string): int {
    if s == [] && t == [] then 0
    else if s == [] then -1
    else if t == [] then 1
    else if s[0] != t[0] then (if s[0] < t[0] then -1 else 1)
    else CompareStrings(s[1..], t[1..])
  }

  function TypeRank(v: Value): int {
    if v.IntVal? then 0 else if v.FloatVal? then 1 else 2
  }

  function Compare(a: Value, b: Value): int {
    match (a, b)
    case (IntVal(x), IntVal(y)) => if x < y then -1 else if x > y then 1 else 0
    case (FloatVal(x), FloatVal(y)) => if x < y then -1 else if x > y then 1 else 0
    case (StrVal(x), StrVal(y)) => CompareStrings(x, y)
    case _ => TypeRank(a) - TypeRank(b)
  }

  predicate Satisfies(op: CompOp, cmp: int) {
    match op
    case OpEq => cmp == 0
    case OpNe => cmp != 0
    case OpLt => cmp < 0
    case OpGt => cmp > 0
    case OpLe => cmp <= 0
    case OpGe => cmp >= 0
  }

  predicate HasCell(db: Database, row: Row, col: TabCol) {
    && col.tabName in row && col.tabName in db && row[col.tabName] in db[col.tabName]
    && col.colName in db[col.tabName][row[col.tabName]]
  }

  function Cell(db: Database, row: Row, col: TabCol): Value
    requires HasCell(db, row, col)
  {
    db[col.tabName][row[col.tabName]][col.colName]
  }

  predicate Holds(db: Database, c: Condition, row: Row) {
    && HasCell(db, row, c.lhs)
    && (c.isRhsVal || HasCell(db, row, c.rhsCol))
    && Satisfies(c.op, Compare(Cell(db, row, c.lhs), if c.isRhsVal then c.rhsVal else Cell(db, row, c.rhsCol)))
  }

  predicate AllHold(db: Database, conds: seq<Condition>, row: Row) {
    forall i | 0 <= i < |conds| :: Holds(db, conds[i], row)
  }

  lemma {:induction false} CompareStringsFlips(s: string, t: string)
    ensures CompareStrings(s, t) == -CompareStrings(t, s)
  {
    if s != [] && t != [] && s[0] == t[0] { CompareStringsFlips(s[1..], t[1..]); }
  }

  lemma SwapKeepsMeaning(db: Database, c: Condition, row: Row)
    requires !c.isRhsVal
    ensures Holds(db, Swap(c), row) <==> Holds(db, c, row)
  {
    if HasCell(db, row, c.lhs) && HasCell(db, row, c.rhsCol) {
      var a, b := Cell(db, row, c.lhs), Cell(db, row, c.rhsCol);
      if a.StrVal? && b.StrVal? { CompareStringsFlips(a.s, b.s); }
      assert Compare(a, b) == -Compare(b, a);
    }
  }

  /** A condition up to exchanging its operands. */
  function Class(c: Condition): set<Condition> {
    if c.isRhsVal then {c} else {c, Swap(c)}
  }

  lemma SwapSameClass(c: Condition)
    ensures !c.isRhsVal ==> Swap(Swap(c)) == c && Class(Swap(c)) == Class(c)
  {
  }

  function ClassBag(conds: seq<Condition>): multiset<set<Condition>> {
    if conds == [] then multiset{} else multiset{Class(conds[0])} + ClassBag(conds[1..])
  }

  lemma {:induction false} ClassBagAppend(a: seq<Condition>, b: seq<Condition>)
    ensures ClassBag(a + b) == ClassBag(a) + ClassBag(b)
  {
    if a == [] {
      assert a + b == b;
    } else {
      assert (a + b)[1..] == a[1..] + b;
      ClassBagAppend(a[1..], b);
    }
  }

  lemma {:induction false} ClassBagMember(conds: seq<Condition>, k: set<Condition>)
    ensures k in ClassBag(conds) <==> exists i :: 0 <= i < |conds| && Class(conds[i]) == k
  {
    if conds != [] {
      ClassBagMember(conds[1..], k);
      if k in ClassBag(conds[1..]) {
        var i :| 0 <= i < |conds[1..]| && Class(conds[1..][i]) == k;
        assert Class(conds[i + 1]) == k;
      }
      if i :| 0 <= i < |conds| && Class(conds[i]) == k {
        assert i > 0 ==> conds[1..][i - 1] == conds[i];
      }
    }
  }

  ghost predicate BagHolds(db: Database, bag: multiset<set<Condition>>, row: Row) {
    forall k, c | k in bag && c in k :: Holds(db, c, row)
  }

  lemma ClassBagHolds(db: Database, conds: seq<Condition>, row: Row)
    ensures BagHolds(db, ClassBag(conds), row) <==> AllHold(db, conds, row)
  {
    hide Holds, ClassBag;
    if BagHolds(db, ClassBag(conds), row) {
      forall i | 0 <= i < |conds| ensures Holds(db, conds[i], row) {
        ClassBagMember(conds, Class(conds[i]));
        assert conds[i] in Class(conds[i]);
      }
    }
    if AllHold(db, conds, row) {
      forall k, c | k in ClassBag(conds) && c in k ensures Holds(db, c, row) {
        ClassBagMember(conds, k);
        var i :| 0 <= i < |conds| && Class(conds[i]) == k;
        if !conds[i].isRhsVal { SwapKeepsMeaning(db, conds[i], row); }
      }
    }
  }

  // ----- Plan trees -----

  function Tables(p: Plan): set<string> {
    match p
    case Null => {}
    case Scan(s) => {s.tabName}
    case Join(l, r, _) => Tables(l) + Tables(r)
  }

  /** All conditions of a plan, each up to operand exchange. */
  function PlanBag(p: Plan): multiset<set<Condition>> {
    match p
    case Null => multiset{}
    case Scan(s) => ClassBag(s.conds)
    case Join(l, r, conds) => PlanBag(l) + PlanBag(r) + ClassBag(conds)
  }

  predicate OnTable(c: Condition, t: string) {
    c.lhs.tabName == t && (c.isRhsVal || c.rhsCol.tabName == t)
  }

  predicate Between(c: Condition, left: set<string>, right: set<string>) {
    !c.isRhsVal && c.lhs.tabName in left && c.rhsCol.tabName in right
  }

  predicate Within(c: Condition, tables: set<string>) {
    c.lhs.tabName in tables && (c.isRhsVal || c.rhsCol.tabName in tables)
  }

  /** No null child, no table twice, scan conditions local, join conditions with their sides on the matching subtrees. */
  ghost predicate WellFormed(p: Plan) {
    match p
    case Null => false
    case Scan(s) => forall c | c in s.conds :: OnTable(c, s.tabName)
    case Join(l, r, conds) =>
      && WellFormed(l) && WellFormed(r) && Tables(l) !! Tables(r)
      && forall c | c in conds :: Between(c, Tables(l), Tables(r))
  }

  function TableOf(db: Database, t: string): map<Rid, Tuple> {
    if t in db then db[t] else map[]
  }

  /** What a plan computes: filtered scans, and nested-loop joins of the children's rows. */
  function Rows(db: Database, p: Plan): set<Row> {
    match p
    case Null => {}
    case Scan(s) =>
      set rid | rid in TableOf(db, s.tabName) && AllHold(db, s.conds, map[s.tabName := rid]) :: map[s.tabName := rid]
    case Join(l, r, conds) => NestedLoop(db, Rows(db, l), Rows(db, r), conds)
  }

  function NestedLoop(db: Database, ls: set<Row>, rs: set<Row>, conds: seq<Condition>): set<Row> {
    set x, y | x in ls && y in rs && AllHold(db, conds, x + y) :: x + y
  }

  /** What the query asks for: the cross product of the FROM tables, filtered by every WHERE condition. */
  function Cross(db: Database, tables: seq<string>): set<Row> {
    if tables == [] then {map[]}
    else set x, y | x in TableRows(db, tables[0]) && y in Cross(db, tables[1..]) :: x + y
  }

  function TableRows(db: Database, t: string): set<Row> {
    set rid | rid in TableOf(db, t) :: map[t := rid]
  }

  function Answer(db: Database, tables: seq<string>, conds: seq<Condition>): set<Row> {
    set row | row in Cross(db, tables) && AllHold(db, conds, row)
  }

  function TableSet(tables: seq<string>): set<string> {
    set t | t in tables
  }

  ghost predicate Covers(db: Database, tables: set<string>, row: Row) {
    row.Keys == tables && forall t | t in tables :: row[t] in TableOf(db, t)
  }

  function Restrict(row: Row, tables: set<string>): Row {
    map t | t in row && t in tables :: row[t]
  }

  lemma HoldsOnPart(db: Database, c: Condition, part: Row, row: Row)
    requires part.Keys <= row.Keys && forall t | t in part :: part[t] == row[t]
    requires Within(c, part.Keys)
    ensures Holds(db, c, part) <==> Holds(db, c, row)
  {
  }

  lemma ClassWithin(conds: seq<Condition>, tables: set<string>, k: set<Condition>, c: Condition)
    requires k in ClassBag(conds) && c in k
    requires forall d | d in conds :: Within(d, tables)
    ensures Within(c, tables)
  {
    ClassBagMember(conds, k);
    var i :| 0 <= i < |conds| && Class(conds[i]) == k;
    assert Within(conds[i], tables);
  }

  /** Every condition of a well-formed plan only names tables of the plan. */
  lemma {:induction false} BagScoped(p: Plan, k: set<Condition>, c: Condition)
    requires WellFormed(p) && k in PlanBag(p) && c in k
    ensures Within(c, Tables(p))
  {
    match p
    case Scan(s) =>
      assert forall d | d in s.conds :: OnTable(d, s.tabName) && Within(d, Tables(p));
      ClassWithin(s.conds, Tables(p), k, c);
    case Join(l, r, conds) =>
      if k in PlanBag(l) { BagScoped(l, k, c); }
      else if k in PlanBag(r) { BagScoped(r, k, c); }
      else {
        assert forall d | d in conds :: Between(d, Tables(l), Tables(r)) && Within(d, Tables(p));
        ClassWithin(conds, Tables(p), k, c);
      }
  }

  lemma BagHoldsOnPart(db: Database, p: Plan, part: Row, row: Row)
    requires WellFormed(p) && part.Keys == Tables(p)
    requires part.Keys <= row.Keys && forall t | t in part :: part[t] == row[t]
    ensures BagHolds(db, PlanBag(p), part) <==> BagHolds(db, PlanBag(p), row)
  {
    forall k, c | k in PlanBag(p) && c in k ensures Holds(db, c, part) <==> Holds(db, c, row) {
      BagScoped(p, k, c);
      HoldsOnPart(db, c, part, row);
    }
  }

  lemma BagHoldsUnion(db: Database, a: multiset<set<Condition>>, b: multiset<set<Condition>>, row: Row)
    ensures BagHolds(db, a + b, row) <==> BagHolds(db, a, row) && BagHolds(db, b, row)
  {
    if BagHolds(db, a + b, row) {
      forall k, c | k in a && c in k ensures Holds(db, c, row) { assert k in a + b; }
      forall k, c | k in b && c in k ensures Holds(db, c, row) { assert k in a + b; }
    }
  }

  /** Two row sets joined under conditions: exactly the rows whose two parts come from either side. */
  lemma JoinRow(db: Database, ls: set<Row>, rs: set<Row>, left: set<string>, right: set<string>,
                conds: seq<Condition>, row: Row)
    requires left !! right
    requires forall x | x in ls :: x.Keys == left
    requires forall y | y in rs :: y.Keys == right
    ensures row in NestedLoop(db, ls, rs, conds) <==>
            row.Keys == left + right && Restrict(row, left) in ls && Restrict(row, right) in rs && AllHold(db, conds, row)
  {
    var l, r := Restrict(row, left), Restrict(row, right);
    if x, y :| x in ls && y in rs && AllHold(db, conds, x + y) && x + y == row {
      assert l == x;
      assert r == y;
    }
    if row.Keys == left + right {
      assert l + r == row;
    }
  }

  ghost predicate MeaningAt(db: Database, p: Plan, row: Row) {
    row in Rows(db, p) <==> Covers(db, Tables(p), row) && BagHolds(db, PlanBag(p), row)
  }

  lemma CoversParts(db: Database, left: set<string>, right: set<string>, row: Row)
    requires row.Keys == left + right
    ensures Covers(db, left + right, row) <==> Covers(db, left, Restrict(row, left)) && Covers(db, right, Restrict(row, right))
  {
    var x, y := Restrict(row, left), Restrict(row, right);
    assert x.Keys == left && y.Keys == right;
    if Covers(db, left, x) && Covers(db, right, y) {
      forall t | t in left + right ensures row[t] in TableOf(db, t) {
        if t in left { assert x[t] == row[t]; } else { assert y[t] == row[t]; }
      }
    }
  }

  lemma JoinBagHolds(db: Database, p: Plan, row: Row)
    requires p.Join? && WellFormed(p) && row.Keys == Tables(p)
    ensures BagHolds(db, PlanBag(p), row) <==>
            && BagHolds(db, PlanBag(p.left), Restrict(row, Tables(p.left)))
            && BagHolds(db, PlanBag(p.right), Restrict(row, Tables(p.right)))
            && AllHold(db, p.conds, row)
  {
    hide BagHolds, Holds, AllHold, ClassBag, Between;
    BagHoldsUnion(db, PlanBag(p.left) + PlanBag(p.right), ClassBag(p.conds), row);
    BagHoldsUnion(db, PlanBag(p.left), PlanBag(p.right), row);
    ClassBagHolds(db, p.conds, row);
    BagHoldsOnPart(db, p.left, Restrict(row, Tables(p.left)), row);
    BagHoldsOnPart(db, p.right, Restrict(row, Tables(p.right)), row);
  }

  lemma {:induction false} RowKeys(db: Database, p: Plan)
    ensures forall row | row in Rows(db, p) :: row.Keys == Tables(p)
  {
    if p.Join? {
      RowKeys(db, p.left);
      RowKeys(db, p.right);
    }
  }

  lemma JoinMeaning(db: Database, p: Plan, row: Row)
    requires p.Join? && WellFormed(p)
    requires MeaningAt(db, p.left, Restrict(row, Tables(p.left)))
    requires MeaningAt(db, p.right, Restrict(row, Tables(p.right)))
    ensures MeaningAt(db, p, row)
  {
    RowKeys(db, p.left);
    RowKeys(db, p.right);
    JoinRow(db, Rows(db, p.left), Rows(db, p.right), Tables(p.left), Tables(p.right), p.conds, row);
    if row.Keys == Tables(p) {
      CoversParts(db, Tables(p.left), Tables(p.right), row);
      JoinBagHolds(db, p, row);
    }
  }

  /** The rows of a well-formed plan: every choice of records of its tables that meets every condition in the tree. */
  lemma {:induction false} RowsMeaning(db: Database, p: Plan, row: Row)
    requires WellFormed(p)
    ensures MeaningAt(db, p, row)
  {
    match p
    case Scan(s) =>
      ClassBagHolds(db, s.conds, row);
      if Covers(db, Tables(p), row) {
        assert row == map[s.tabName := row[s.tabName]];
      }
    case Join(l, r, conds) =>
      RowsMeaning(db, l, Restrict(row, Tables(l)));
      RowsMeaning(db, r, Restrict(row, Tables(r)));
      JoinMeaning(db, p, row);
  }

  lemma {:induction false} CrossKeys(db: Database, tables: seq<string>)
    ensures forall row | row in Cross(db, tables) :: row.Keys == TableSet(tables)
  {
    if tables != [] {
      CrossKeys(db, tables[1..]);
      assert TableSet(tables) == {tables[0]} + TableSet(tables[1..]);
    }
  }

  lemma TableRowsMeaning(db: Database, t: string, row: Row)
    ensures row in TableRows(db, t) <==> Covers(db, {t}, row)
  {
    if Covers(db, {t}, row) { assert row == map[t := row[t]]; }
  }

  lemma {:induction false} CrossMeaning(db: Database, tables: seq<string>, row: Row)
    requires NoDuplicates(tables)
    ensures row in Cross(db, tables) <==> Covers(db, TableSet(tables), row)
  {
    if tables == [] {
      assert Covers(db, {}, row) ==> row == map[];
    } else {
      var t, rest := tables[0], TableSet(tables[1..]);
      assert TableSet(tables) == {t} + rest && t !in rest;
      assert Cross(db, tables) == NestedLoop(db, TableRows(db, t), Cross(db, tables[1..]), []);
      CrossKeys(db, tables[1..]);
      JoinRow(db, TableRows(db, t), Cross(db, tables[1..]), {t}, rest, [], row);
      if row.Keys == {t} + rest {
        CrossMeaning(db, tables[1..], Restrict(row, rest));
        TableRowsMeaning(db, t, Restrict(row, {t}));
        CoversParts(db, {t}, rest, row);
      }
    }
  }

  /** A plan that covers the FROM tables and carries the WHERE conditions, none lost and none duplicated. */
  ghost predicate Correct(p: Plan, tables: seq<string>, conds: seq<Condition>) {
    WellFormed(p) && Tables(p) == TableSet(tables) && PlanBag(p) == ClassBag(conds)
  }

  lemma CorrectPlanAnswersQuery(db: Database, p: Plan, tables: seq<string>, conds: seq<Condition>)
    requires NoDuplicates(tables) && Correct(p, tables, conds)
    ensures Rows(db, p) == Answer(db, tables, conds)
  {
    forall row ensures row in Rows(db, p) <==> row in Answer(db, tables, conds) {
      RowsMeaning(db, p, row);
      CrossMeaning(db, tables, row);
      ClassBagHolds(db, conds, row);
    }
  }
}
