/**
 The shape of the plan make_one_rel returns: which scans use an index and what that index is on, and in which order the
 tables stand in the join tree.
 */
module PlanShape {
  import opened Defs
  import opened Relational
  import opened Planning
  import opened OneRel
  import opened Catalog

  // ----- Leaves -----

  /** The scans at the leaves, from left to right. */
  function LeafScans(p: Plan): seq<ScanPlan> {
    match p
    case Null => []
    case Scan(s) => [s]
    case Join(l, r, _) => LeafScans(l) + LeafScans(r)
  }

  /** Their tables. */
  function Order(p: Plan): seq<string> {
    match p
    case Null => []
    case Scan(s) => [s.tabName]
    case Join(l, r, _) => Order(l) + Order(r)
  }

  lemma {:induction false} OrderTables(p: Plan)
    ensures forall t :: t in Order(p) <==> t in Tables(p)
  {
    if p.Join? {
      OrderTables(p.left);
      OrderTables(p.right);
    }
  }

  lemma {:induction false} LeafIn(p: Plan, scans: seq<ScanPlan>, s: ScanPlan)
    requires LeavesFrom(p, scans) && s in LeafScans(p)
    ensures s in scans
  {
    if p.Join? {
      if s in LeafScans(p.left) { LeafIn(p.left, scans, s); } else { LeafIn(p.right, scans, s); }
    }
  }

  // ----- Index scans -----

  /**
   The scan uses an index exactly when the table has one on the columns its conditions fix, named in the order of the
   conditions; it names these columns then, and none otherwise.
   */
  ghost predicate ScanRight(tab: TabMeta, s: ScanPlan) {
    exists cols :: AreFixed(s.tabName, s.conds, cols) && (s.kind == IndexScan <==> HasIndex(tab, cols))
                   && s.indexCols == if s.kind == IndexScan then cols else []
  }

  lemma ChosenIsRight(catalog: map<string, TabMeta>, s: ScanPlan)
    requires s.tabName in catalog && WellChosen(catalog, s)
    ensures ScanRight(catalog[s.tabName], s)
  {
    PointColsFixed(s.tabName, s.conds);
  }

  /** Every leaf of the plan is a scan of its table, with an index exactly where one matches. */
  lemma PlanScans(catalog: map<string, TabMeta>, tables: seq<string>, conds: seq<Condition>)
    requires Plannable(catalog, tables, conds)
    ensures forall s | s in LeafScans(PlanOf(catalog, tables, conds)) :: s.tabName in catalog && ScanRight(catalog[s.tabName], s)
  {
    var (scans, rest) := Scans(catalog, tables, conds, |tables|);
    ScansAreMade(catalog, tables, conds, |tables|);
    OneRelLeaves(scans, rest);
    hide Scans, ScansMade, WellChosen, ScanRight, JoinTree, CrossRest;
    forall s | s in LeafScans(PlanOf(catalog, tables, conds)) ensures s.tabName in catalog && ScanRight(catalog[s.tabName], s) {
      if |tables| > 1 { LeafIn(PlanOf(catalog, tables, conds), scans, s); }
      ChosenIsRight(catalog, s);
    }
  }

  /** On every row an index scan returns, each column of its index equals the value one of its conditions asks for. */
  lemma IndexColumnsFixed(db: Database, tab: TabMeta, s: ScanPlan, row: Row, col: string)
    requires ScanRight(tab, s) && row in Rows(db, Scan(s)) && col in s.indexCols
    ensures HasCell(db, row, TabCol(s.tabName, col))
    ensures exists c :: c in s.conds && IsPoint(c, s.tabName) && Compare(Cell(db, row, TabCol(s.tabName, col)), c.rhsVal) == 0
  {
    var cols :| AreFixed(s.tabName, s.conds, cols) && s.indexCols == if s.kind == IndexScan then cols else [];
    var at: seq<int> :| PointsAt(s.tabName, s.conds, at) && NamedAt(s.conds, at, cols);
    var k :| 0 <= k < |cols| && cols[k] == col;
    assert at[k] in at;
    var c := s.conds[at[k]];
    assert IsPoint(c, s.tabName) && c.lhs == TabCol(s.tabName, col);
    assert AllHold(db, s.conds, row);
    assert Holds(db, c, row);
  }

  // ----- The order of the tables -----

  /** The tables of a condition that are not there yet go in front, the left one first. */
  function InFront(order: seq<string>, c: Condition): seq<string> {
    (if c.lhs.tabName in order then [] else [c.lhs.tabName]) +
    (if c.rhsCol.tabName in order then [] else [c.rhsCol.tabName]) + order
  }

  function AllInFront(order: seq<string>, conds: seq<Condition>): seq<string>
    decreases conds
  {
    if conds == [] then order else AllInFront(InFront(order, conds[0]), conds[1..])
  }

  /** Tables no condition has brought in go in front one by one. */
  function RestInFront(order: seq<string>, tables: seq<string>): seq<string>
    decreases tables
  {
    if tables == [] then order
    else RestInFront(if tables[0] in order then order else [tables[0]] + order, tables[1..])
  }

  /** The conditions between two tables. */
  function JoinConds(conds: seq<Condition>): seq<Condition> {
    if conds == [] then []
    else (if !conds[0].isRhsVal && conds[0].lhs.tabName != conds[0].rhsCol.tabName then [conds[0]] else []) + JoinConds(conds[1..])
  }

  /** The order the query asks for: the join conditions one after the other, then FROM. */
  function QueryOrder(tables: seq<string>, conds: seq<Condition>): seq<string>
    requires tables != []
  {
    RestInFront(if JoinConds(conds) == [] then [tables[0]] else AllInFront([], JoinConds(conds)), tables)
  }

  lemma {:induction false} PushOrder(c: Condition, p: Plan)
    ensures Order(Push(c, p).1) == Order(p)
  {
    if p.Join? {
      PushOrder(c, p.left);
      PushOrder(c, p.right);
    }
  }

  lemma AttachOrder(p: Plan, left: Plan, right: Plan, c: Condition, needReverse: bool)
    requires !left.Join? && !right.Join? && needReverse == (right != Null)
    ensures Order(Attach(p, left, right, needReverse, c)) == Order(left) + Order(right) + Order(p)
  {
    PushOrder(c, p);
    hide Push;
  }

  lemma PlaceOneOrder(b: Build, scans: seq<ScanPlan>, c: Condition)
    requires |b.flags| == |scans| && c.lhs.tabName != c.rhsCol.tabName
    requires FindScan(scans, c.lhs.tabName) < |scans| && FindScan(scans, c.rhsCol.tabName) < |scans|
    requires c.lhs.tabName in b.joined <==> c.lhs.tabName in Order(b.plan)
    requires c.rhsCol.tabName in b.joined <==> c.rhsCol.tabName in Order(b.plan)
    ensures Order(Place(b, scans, c).plan) == InFront(Order(b.plan), c)
  {
    var (l, r) := (c.lhs.tabName, c.rhsCol.tabName);
    var left := if l in b.joined then Null else PoppedScan(scans, l);
    var right := if r in b.joined then Null else PoppedScan(scans, r);
    AttachOrder(b.plan, left, right, c, r !in b.joined);
    hide Attach;
    assert Place(b, scans, c).plan == Attach(b.plan, left, right, r !in b.joined, c);
  }

  lemma PlaceOrder(tables: seq<string>, scans: seq<ScanPlan>, total: multiset<set<Condition>>, b: Build, rest: seq<Condition>)
    requires |b.flags| == |scans| && Building(tables, scans, total, b, rest) && rest != []
    ensures Order(Place(b, scans, rest[0]).plan) == InFront(Order(b.plan), rest[0])
  {
    assert JoinCond(rest[0], tables);
    FoundScan(tables, scans, rest[0].lhs.tabName);
    FoundScan(tables, scans, rest[0].rhsCol.tabName);
    OrderTables(b.plan);
    hide Place, InFront, Account, WellFormed;
    PlaceOneOrder(b, scans, rest[0]);
  }

  lemma {:induction false} PlaceAllOrder(tables: seq<string>, scans: seq<ScanPlan>, total: multiset<set<Condition>>, b: Build, rest: seq<Condition>)
    requires |b.flags| == |scans| && Building(tables, scans, total, b, rest)
    ensures Order(PlaceAll(b, scans, rest).plan) == AllInFront(Order(b.plan), rest)
    decreases rest
  {
    hide Building, Place, InFront;
    if rest != [] {
      PlaceOrder(tables, scans, total, b, rest);
      PlaceBuilds(tables, scans, total, b, rest);
      PlaceAllOrder(tables, scans, total, Place(b, scans, rest[0]), rest[1..]);
    }
  }

  lemma {:induction false} CrossRestOrder(p: Plan, tables: seq<string>, scans: seq<ScanPlan>, flags: seq<int>, i: nat)
    requires i <= |scans| == |flags| == |tables| && NoDuplicates(tables)
    requires forall k | 0 <= k < |scans| :: scans[k].tabName == tables[k]
    requires forall k | i <= k < |scans| :: flags[k] == -1 <==> tables[k] !in Order(p)
    ensures Order(CrossRest(p, scans, flags, i)) == RestInFront(Order(p), tables[i..])
    decreases |scans| - i
  {
    if i < |scans| {
      var q := if flags[i] == -1 then Join(Scan(scans[i]), p, []) else p;
      assert Order(q) == if flags[i] == -1 then [tables[i]] + Order(p) else Order(p);
      CrossRestOrder(q, tables, scans, flags, i + 1);
      assert tables[i..][1..] == tables[i + 1..];
    }
  }

  lemma JoinTreeOrder(tables: seq<string>, scans: seq<ScanPlan>, total: multiset<set<Condition>>, rest: seq<Condition>)
    requires NoDuplicates(tables) && ScansFor(scans, tables) && tables != [] && "" !in tables
    requires Account(scans, total, multiset{}, InitialBuild(|scans|).flags, rest)
    requires forall c | c in rest :: JoinCond(c, tables)
    ensures Order(JoinTree(scans, rest).plan) == if rest == [] then [tables[0]] else AllInFront([], rest)
  {
    if rest != [] {
      BuildingStart(tables, scans, total, rest);
      var b := Start(InitialBuild(|scans|), scans, rest[0]);
      PlaceAllOrder(tables, scans, total, b, rest[1..]);
      assert JoinCond(rest[0], tables);
      FoundScan(tables, scans, rest[0].lhs.tabName);
      FoundScan(tables, scans, rest[0].rhsCol.tabName);
      assert Order(b.plan) == InFront([], rest[0]);
    }
  }

  lemma TreeOrder(tables: seq<string>, scans: seq<ScanPlan>, total: multiset<set<Condition>>, rest: seq<Condition>)
    requires NoDuplicates(tables) && ScansFor(scans, tables) && tables != [] && "" !in tables
    requires Account(scans, total, multiset{}, InitialBuild(|scans|).flags, rest)
    requires forall c | c in rest :: JoinCond(c, tables)
    ensures var b := JoinTree(scans, rest);
            Order(CrossRest(b.plan, scans, b.flags, 0)) == RestInFront(if rest == [] then [tables[0]] else AllInFront([], rest), tables)
  {
    JoinTreeOrder(tables, scans, total, rest);
    JoinTreeBuilds(tables, scans, total, rest);
    hide JoinTree, Account, InitialBuild, WellFormed;
    var b := JoinTree(scans, rest);
    OrderTables(b.plan);
    CrossRestOrder(b.plan, tables, scans, b.flags, 0);
    assert tables[0..] == tables;
  }

  // ----- What the scans leave is the list of join conditions -----

  lemma {:induction false} KeptJoins(conds: seq<Condition>, t: string)
    ensures JoinConds(Kept(conds, t)) == JoinConds(conds)
  {
    if conds != [] {
      var n := |conds| - 1;
      KeptJoins(conds[..n], t);
      assert conds == conds[..n] + [conds[n]];
      JoinCondsAppend(conds[..n], [conds[n]]);
      JoinCondsAppend(Kept(conds[..n], t), if Pops(conds[n], t) then [] else [conds[n]]);
    }
  }

  lemma {:induction false} JoinCondsAppend(a: seq<Condition>, b: seq<Condition>)
    ensures JoinConds(a + b) == JoinConds(a) + JoinConds(b)
    decreases a
  {
    if a == [] {
      assert a + b == b;
    } else {
      assert (a + b)[1..] == a[1..] + b;
      JoinCondsAppend(a[1..], b);
    }
  }

  lemma {:induction false} ScansLeave(catalog: map<string, TabMeta>, tables: seq<string>, conds: seq<Condition>, i: nat)
    requires i <= |tables| && forall t | t in tables :: t in catalog
    ensures JoinConds(Scans(catalog, tables, conds, i).1) == JoinConds(conds)
  {
    if i > 0 {
      ScansLeave(catalog, tables, conds, i - 1);
      KeptJoins(Scans(catalog, tables, conds, i - 1).1, tables[i - 1]);
    }
  }

  lemma {:induction false} AllJoins(rest: seq<Condition>, tables: seq<string>)
    requires forall c | c in rest :: JoinCond(c, tables)
    ensures JoinConds(rest) == rest
  {
    if rest != [] {
      assert JoinCond(rest[0], tables);
      AllJoins(rest[1..], tables);
    }
  }

  lemma OneTable(tables: seq<string>, rest: seq<Condition>)
    requires |tables| == 1 && forall c | c in rest :: JoinCond(c, tables)
    ensures JoinConds(rest) == [] && RestInFront([tables[0]], tables) == [tables[0]]
  {
    assert forall t | t in tables :: t == tables[0];
    assert forall i | 0 <= i < |rest| :: rest[i] in rest && !JoinCond(rest[i], tables);
    assert tables[1..] == [] && tables[0] in [tables[0]];
    assert RestInFront([tables[0]], tables) == RestInFront([tables[0]], tables[1..]);
  }

  /** For every admissible query the tables stand in the join tree in the order the query asks for. */
  lemma PlanOrder(catalog: map<string, TabMeta>, tables: seq<string>, conds: seq<Condition>)
    requires Plannable(catalog, tables, conds) && Admissible(tables, conds)
    ensures Order(PlanOf(catalog, tables, conds)) == QueryOrder(tables, conds)
  {
    ScansReady(catalog, tables, conds);
    var (scans, rest) := Scans(catalog, tables, conds, |tables|);
    ScansLeave(catalog, tables, conds, |tables|);
    AllJoins(rest, tables);
    hide Scans, Account, JoinConds, JoinTree, CrossRest, WellFormed, RestInFront, AllInFront, JoinCond;
    if |tables| == 1 { OneTable(tables, rest); } else { TreeOrder(tables, scans, ClassBag(conds), rest); }
  }
}
