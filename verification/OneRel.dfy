/**
 make_one_rel on values: the scans, the join tree grown from the remaining conditions, and the cross
 joins at the end.  The main results say when the tree answers the query.
 */
module OneRel {
  import opened Defs
  import opened Relational
  import opened Planning
  import opened Catalog

  // ----- Scans -----

  /** The columns of `t` that a condition compares with a value for equality, in the order of the conditions. */
  function PointCols(t: string, conds: seq<Condition>): seq<string> {
    if conds == [] then [] else
      var c := conds[|conds| - 1];
      PointCols(t, conds[..|conds| - 1]) +
      if c.isRhsVal && c.op == OpEq && c.lhs.tabName == t then [c.lhs.colName] else []
  }

  /** The condition fixes a column of `t` to one value. */
  predicate IsPoint(c: Condition, t: string) {
    c.isRhsVal && c.op == OpEq && c.lhs.tabName == t
  }

  /** `at` lists, in ascending order, exactly the positions of the conditions that fix a column of `t`. */
  ghost predicate PointsAt(t: string, conds: seq<Condition>, at: seq<int>) {
    && (forall i, j | 0 <= i < j < |at| :: at[i] < at[j])
    && forall k :: k in at <==> 0 <= k < |conds| && IsPoint(conds[k], t)
  }

  /** `cols` are the columns these conditions fix, in the order of the conditions. */
  ghost predicate AreFixed(t: string, conds: seq<Condition>, cols: seq<string>) {
    exists at: seq<int> :: PointsAt(t, conds, at) && NamedAt(conds, at, cols)
  }

  ghost predicate NamedAt(conds: seq<Condition>, at: seq<int>, cols: seq<string>) {
    |cols| == |at| && forall k | 0 <= k < |at| :: 0 <= at[k] < |conds| && cols[k] == conds[at[k]].lhs.colName
  }

  lemma {:induction false} PointColsAt(t: string, conds: seq<Condition>) returns (at: seq<int>)
    ensures PointsAt(t, conds, at) && NamedAt(conds, at, PointCols(t, conds))
  {
    if conds == [] {
      at := [];
    } else {
      var n := |conds| - 1;
      var front := PointColsAt(t, conds[..n]);
      assert forall k | k in front :: k < n && conds[k] == conds[..n][k];
      at := front + if IsPoint(conds[n], t) then [n] else [];
      forall k ensures k in at <==> 0 <= k < |conds| && IsPoint(conds[k], t) {
        assert k in front <==> 0 <= k < n && IsPoint(conds[..n][k], t);
      }
    }
  }

  /** get_index_cols looks at exactly the columns fixed by an equality with a value, in the order of the conditions. */
  lemma PointColsFixed(t: string, conds: seq<Condition>)
    ensures AreFixed(t, conds, PointCols(t, conds))
  {
    var at := PointColsAt(t, conds);
  }

  ghost predicate HasIndex(tab: TabMeta, cols: seq<string>) {
    exists k :: 0 <= k < |tab.indexes| && IndexOn(tab.indexes[k], cols)
  }

  /** An index scan exactly when an index matches the point conditions, and then on those columns. */
  ghost predicate WellChosen(catalog: map<string, TabMeta>, s: ScanPlan)
    requires s.tabName in catalog
  {
    && (s.kind == IndexScan <==> HasIndex(catalog[s.tabName], PointCols(s.tabName, s.conds)))
    && s.indexCols == if s.kind == IndexScan then PointCols(s.tabName, s.conds) else []
  }

  /** The scans made so far and the conditions left account for the query's conditions. */
  ghost predicate ScanAccount(conds: seq<Condition>, scans: seq<ScanPlan>, rest: seq<Condition>) {
    UnusedBag(scans, seq(|scans|, _ => -1), |scans|) + ClassBag(rest) == ClassBag(conds)
  }

  /** No condition is left that one of the scans made should have taken. */
  ghost predicate RestAfter(tables: seq<string>, i: nat, conds: seq<Condition>, rest: seq<Condition>)
    requires i <= |tables|
  {
    && (forall c | c in rest :: c in conds)
    && (i > 0 ==> forall c | c in rest :: c.lhs.tabName != c.rhsCol.tabName)
    && (forall c | c in rest && c.isRhsVal :: c.lhs.tabName !in tables[..i])
    && (i == 0 ==> rest == conds)
  }

  ghost predicate AllLocal(scans: seq<ScanPlan>) {
    forall j | 0 <= j < |scans| :: WellFormed(Scan(scans[j]))
  }

  /** Every one-table comparison ends up in the first scan. */
  ghost predicate FirstTakesAll(conds: seq<Condition>, scans: seq<ScanPlan>) {
    scans != [] ==> forall c | c in conds && c.lhs.tabName == c.rhsCol.tabName :: c in scans[0].conds
  }

  ghost predicate ScansOf(tables: seq<string>, conds: seq<Condition>, scans: seq<ScanPlan>) {
    && |scans| <= |tables| && (forall j | 0 <= j < |scans| :: scans[j].tabName == tables[j])
    && (Admissible(tables, conds) ==> AllLocal(scans))
    && FirstTakesAll(conds, scans)
  }

  ghost predicate ScansMade(tables: seq<string>, conds: seq<Condition>, scans: seq<ScanPlan>, rest: seq<Condition>) {
    ScansOf(tables, conds, scans) && RestAfter(tables, |scans|, conds, rest) && ScanAccount(conds, scans, rest)
  }

  lemma ScansMadeStart(tables: seq<string>, conds: seq<Condition>)
    ensures ScansMade(tables, conds, [], conds)
  {
  }

  lemma ScanAccountStep(conds: seq<Condition>, scans: seq<ScanPlan>, rest: seq<Condition>, s: ScanPlan)
    requires ScanAccount(conds, scans, rest) && s.conds == Popped(rest, s.tabName)
    ensures ScanAccount(conds, scans + [s], Kept(rest, s.tabName))
  {
    var i := |scans|;
    PopSplits(rest, s.tabName);
    hide ClassBag, Popped, Kept;
    assert seq(i + 1, _ => -1)[..i] == seq(i, _ => -1) && (scans + [s])[..i] == scans;
    UnusedBagPrefix(scans, seq(i, _ => -1), scans + [s], seq(i + 1, _ => -1), i);
    BagSlide(UnusedBag(scans, seq(i, _ => -1), i), ClassBag(s.conds), ClassBag(Kept(rest, s.tabName)));
  }

  lemma RestAfterStep(tables: seq<string>, i: nat, conds: seq<Condition>, rest: seq<Condition>)
    requires i < |tables| && RestAfter(tables, i, conds, rest)
    ensures RestAfter(tables, i + 1, conds, Kept(rest, tables[i]))
  {
    PopSplits(rest, tables[i]);
    assert tables[..i + 1] == tables[..i] + [tables[i]];
  }

  lemma LocalStep(scans: seq<ScanPlan>, s: ScanPlan)
    requires AllLocal(scans) && WellFormed(Scan(s))
    ensures AllLocal(scans + [s])
  {
  }

  lemma FirstStep(conds: seq<Condition>, scans: seq<ScanPlan>, rest: seq<Condition>, s: ScanPlan)
    requires FirstTakesAll(conds, scans) && s.conds == Popped(rest, s.tabName) && (scans == [] ==> rest == conds)
    ensures FirstTakesAll(conds, scans + [s])
  {
    if scans == [] {
      PopSplits(rest, s.tabName);
      forall c | c in conds && c.lhs.tabName == c.rhsCol.tabName ensures c in s.conds { assert Pops(c, s.tabName); }
    }
  }

  lemma ScanLocal(tables: seq<string>, conds: seq<Condition>, i: nat, rest: seq<Condition>, s: ScanPlan)
    requires i < |tables| && RestAfter(tables, i, conds, rest) && Admissible(tables, conds)
    requires forall c | c in conds :: Analyzed(c)
    requires s.tabName == tables[i] && s.conds == Popped(rest, s.tabName)
    ensures WellFormed(Scan(s))
  {
    PopSplits(rest, s.tabName);
    hide Admissible;
    forall c | c in s.conds ensures OnTable(c, s.tabName) { PoppedLocal(tables, i, conds, rest, c); }
  }

  lemma ScansOfStep(tables: seq<string>, conds: seq<Condition>, scans: seq<ScanPlan>, rest: seq<Condition>, s: ScanPlan)
    requires ScansOf(tables, conds, scans) && |scans| < |tables| && RestAfter(tables, |scans|, conds, rest)
    requires forall c | c in conds :: Analyzed(c)
    requires s.tabName == tables[|scans|] && s.conds == Popped(rest, s.tabName)
    ensures ScansOf(tables, conds, scans + [s])
  {
    FirstStep(conds, scans, rest, s);
    hide Admissible, AllLocal, FirstTakesAll, WellFormed, Popped, Analyzed;
    if Admissible(tables, conds) {
      ScanLocal(tables, conds, |scans|, rest, s);
      LocalStep(scans, s);
    }
  }

  lemma PoppedLocal(tables: seq<string>, i: nat, conds: seq<Condition>, rest: seq<Condition>, c: Condition)
    requires i < |tables| && RestAfter(tables, i, conds, rest) && Admissible(tables, conds)
    requires c in rest && Pops(c, tables[i]) && Analyzed(c)
    ensures OnTable(c, tables[i])
  {
    assert c in conds;
  }

  ghost function MakeScan(catalog: map<string, TabMeta>, t: string, conds: seq<Condition>): ScanPlan
    requires t in catalog
  {
    var cols := PointCols(t, conds);
    if HasIndex(catalog[t], cols) then ScanPlan(IndexScan, t, conds, cols) else ScanPlan(SeqScan, t, conds, [])
  }

  lemma ScanChosen(catalog: map<string, TabMeta>, t: string, conds: seq<Condition>)
    requires t in catalog
    ensures WellChosen(catalog, MakeScan(catalog, t, conds))
  {
  }

  /** The scans of the first `i` tables and the conditions they leave. */
  ghost function Scans(catalog: map<string, TabMeta>, tables: seq<string>, conds: seq<Condition>, i: nat)
    : (r: (seq<ScanPlan>, seq<Condition>))
    requires i <= |tables| && forall t | t in tables :: t in catalog
    ensures |r.0| == i
  {
    if i == 0 then ([], conds) else
      var (scans, rest) := Scans(catalog, tables, conds, i - 1);
      var t := tables[i - 1];
      (scans + [MakeScan(catalog, t, Popped(rest, t))], Kept(rest, t))
  }

  lemma {:induction false} ScansAreMade(catalog: map<string, TabMeta>, tables: seq<string>, conds: seq<Condition>, i: nat)
    requires i <= |tables| && forall t | t in tables :: t in catalog
    requires forall c | c in conds :: Analyzed(c)
    ensures var (scans, rest) := Scans(catalog, tables, conds, i);
            && |scans| == i && ScansMade(tables, conds, scans, rest)
            && (forall s | s in scans :: s.tabName in catalog && WellChosen(catalog, s))
            && forall s | s in scans :: AreFixed(s.tabName, s.conds, PointCols(s.tabName, s.conds))
  {
    hide ScansOf, RestAfter, ScanAccount, Analyzed, WellChosen, Popped, Kept, AreFixed;
    if i == 0 {
      ScansMadeStart(tables, conds);
    } else {
      assert tables[i - 1] in tables;
      ScansAreMade(catalog, tables, conds, i - 1);
      var (scans, rest) := Scans(catalog, tables, conds, i - 1);
      var scan := MakeScan(catalog, tables[i - 1], Popped(rest, tables[i - 1]));
      ScanChosen(catalog, tables[i - 1], Popped(rest, tables[i - 1]));
      PointColsFixed(scan.tabName, scan.conds);
      ScansOfStep(tables, conds, scans, rest, scan);
      RestAfterStep(tables, i - 1, conds, rest);
      ScanAccountStep(conds, scans, rest, scan);
    }
  }

  /** What is left after the scans are made, for an admissible query: conditions between two FROM tables. */
  lemma ScansMadeRest(tables: seq<string>, conds: seq<Condition>, scans: seq<ScanPlan>, rest: seq<Condition>)
    requires ScansMade(tables, conds, scans, rest) && |scans| == |tables| > 0
    requires Admissible(tables, conds) && forall c | c in conds :: Analyzed(c)
    ensures ScansFor(scans, tables) && forall c | c in rest :: JoinCond(c, tables)
  {
    assert tables[..|tables|] == tables;
    forall c | c in rest ensures JoinCond(c, tables) { assert c in conds && Within(c, TableSet(tables)); }
  }

  // ----- Joins -----

  /** The tree so far, the scan flags, and the joined-table list, which starts as one empty name per FROM table. */
  datatype Build = Build(plan: Plan, flags: seq<int>, joined: seq<string>)

  function FindScan(scans: seq<ScanPlan>, t: string): (k: nat)
    ensures k <= |scans| && (k < |scans| ==> scans[k].tabName == t)
    ensures forall j | 0 <= j < k :: scans[j].tabName != t
  {
    if scans == [] then 0 else if scans[0].tabName == t then 0 else 1 + FindScan(scans[1..], t)
  }

  /** What pop_scan returns. */
  function PoppedScan(scans: seq<ScanPlan>, t: string): Plan {
    var k := FindScan(scans, t);
    if k < |scans| then Scan(scans[k]) else Null
  }

  /** What pop_scan does to the flags and the joined tables. */
  function MarkUsed(b: Build, scans: seq<ScanPlan>, t: string): Build
    requires |b.flags| == |scans|
  {
    var k := FindScan(scans, t);
    if k < |scans| then b.(flags := b.flags[k := 1], joined := b.joined + [t]) else b
  }

  /** The first join, from the first condition. */
  function Start(b: Build, scans: seq<ScanPlan>, c: Condition): (b': Build)
    requires |b.flags| == |scans|
    ensures |b'.flags| == |scans|
  {
    var b2 := MarkUsed(MarkUsed(b, scans, c.lhs.tabName), scans, c.rhsCol.tabName);
    b2.(plan := Join(PoppedScan(scans, c.lhs.tabName), PoppedScan(scans, c.rhsCol.tabName), [c]))
  }

  /** One round of the loop that places the remaining conditions. */
  function Place(b: Build, scans: seq<ScanPlan>, c: Condition): (b': Build)
    requires |b.flags| == |scans|
    ensures |b'.flags| == |scans|
  {
    var needLeft := c.lhs.tabName !in b.joined;
    var left := if needLeft then PoppedScan(scans, c.lhs.tabName) else Null;
    var b1 := if needLeft then MarkUsed(b, scans, c.lhs.tabName) else b;
    var needRight := c.rhsCol.tabName !in b1.joined;
    var right := if needRight then PoppedScan(scans, c.rhsCol.tabName) else Null;
    var b2 := if needRight then MarkUsed(b1, scans, c.rhsCol.tabName) else b1;
    b2.(plan := Attach(b.plan, left, right, needRight, c))
  }

  /** The tree with the scans just popped for a condition, and the condition, added. */
  function Attach(p: Plan, left: Plan, right: Plan, needReverse: bool, c: Condition): Plan {
    if left != Null && right != Null then Join(Join(left, right, [c]), p, [])
    else if left != Null || right != Null then
      if needReverse then Join(right, p, [Swap(c)]) else Join(left, p, [c])
    else Push(c, p).1
  }

  function PlaceAll(b: Build, scans: seq<ScanPlan>, rest: seq<Condition>): (b': Build)
    requires |b.flags| == |scans|
    ensures |b'.flags| == |scans|
    decreases rest
  {
    if rest == [] then b else PlaceAll(Place(b, scans, rest[0]), scans, rest[1..])
  }

  /** Cross joins with the scans from `i` on that no condition used. */
  function CrossRest(p: Plan, scans: seq<ScanPlan>, flags: seq<int>, i: nat): Plan
    requires i <= |scans| == |flags|
    decreases |scans| - i
  {
    if i == |scans| then p
    else CrossRest(if flags[i] == -1 then Join(Scan(scans[i]), p, []) else p, scans, flags, i + 1)
  }

  function InitialBuild(n: nat): Build {
    Build(Null, seq(n, _ => -1), seq(n, _ => ""))
  }

  /** The tree before the cross joins, and the flags. */
  function JoinTree(scans: seq<ScanPlan>, rest: seq<Condition>): (b: Build)
    requires scans != []
    ensures |b.flags| == |scans|
  {
    var b := InitialBuild(|scans|);
    if rest != [] then PlaceAll(Start(b, scans, rest[0]), scans, rest[1..])
    else b.(plan := Scan(scans[0]), flags := b.flags[0 := 1])
  }

  /** The plan make_one_rel returns. */
  ghost function PlanOf(catalog: map<string, TabMeta>, tables: seq<string>, conds: seq<Condition>): Plan
    requires tables != [] && forall t | t in tables :: t in catalog
  {
    var (scans, rest) := Scans(catalog, tables, conds, |tables|);
    if |tables| == 1 then Scan(scans[0]) else
      var b := JoinTree(scans, rest);
      CrossRest(b.plan, scans, b.flags, 0)
  }

  // ----- The tree is complete so far -----

  ghost predicate JoinedIs(joined: seq<string>, p: Plan) {
    forall t :: t in joined <==> t == "" || t in Tables(p)
  }

  ghost predicate Building(tables: seq<string>, scans: seq<ScanPlan>, total: multiset<set<Condition>>, b: Build, rest: seq<Condition>) {
    "" !in tables && Growing(tables, scans, total, b.plan, b.flags, rest) && JoinedIs(b.joined, b.plan)
  }

  lemma FoundScan(tables: seq<string>, scans: seq<ScanPlan>, t: string)
    requires ScansFor(scans, tables) && t in tables
    ensures FindScan(scans, t) < |scans| && tables[FindScan(scans, t)] == t
  {
    var i :| 0 <= i < |tables| && tables[i] == t;
    assert scans[i].tabName == t;
  }

  lemma BuildingStart(tables: seq<string>, scans: seq<ScanPlan>, total: multiset<set<Condition>>, rest: seq<Condition>)
    requires NoDuplicates(tables) && ScansFor(scans, tables) && "" !in tables && rest != []
    requires Account(scans, total, multiset{}, InitialBuild(|scans|).flags, rest)
    requires forall c | c in rest :: JoinCond(c, tables)
    ensures Building(tables, scans, total, Start(InitialBuild(|scans|), scans, rest[0]), rest[1..])
  {
    var c := rest[0];
    assert JoinCond(c, tables);
    FoundScan(tables, scans, c.lhs.tabName);
    FoundScan(tables, scans, c.rhsCol.tabName);
    var joined := seq(|scans|, _ => "");
    assert joined[0] == "" && forall t | t in joined :: t == "";
    GrowingStart(tables, scans, total, InitialBuild(|scans|).flags, rest,
                 FindScan(scans, c.lhs.tabName), FindScan(scans, c.rhsCol.tabName));
  }

  lemma PlaceTwo(tables: seq<string>, scans: seq<ScanPlan>, total: multiset<set<Condition>>, b: Build, rest: seq<Condition>)
    requires Building(tables, scans, total, b, rest) && rest != []
    requires rest[0].lhs.tabName !in b.joined && rest[0].rhsCol.tabName !in b.joined
    ensures Building(tables, scans, total, Place(b, scans, rest[0]), rest[1..])
  {
    hide Account, WellFormed;
    var c := rest[0];
    assert JoinCond(c, tables);
    FoundScan(tables, scans, c.lhs.tabName);
    FoundScan(tables, scans, c.rhsCol.tabName);
    GrowingAddTwo(tables, scans, total, b.plan, b.flags, rest, FindScan(scans, c.lhs.tabName), FindScan(scans, c.rhsCol.tabName));
  }

  lemma GrowOne(tables: seq<string>, scans: seq<ScanPlan>, total: multiset<set<Condition>>, b: Build,
                rest: seq<Condition>, i: nat, c: Condition)
    requires Building(tables, scans, total, b, rest) && rest != [] && c in Class(rest[0])
    requires i < |tables| && tables[i] == c.lhs.tabName && c.lhs.tabName !in b.joined && c.rhsCol.tabName in b.joined
    ensures Building(tables, scans, total, Build(Join(Scan(scans[i]), b.plan, [c]), b.flags[i := 1], b.joined + [tables[i]]), rest[1..])
  {
    assert JoinCond(rest[0], tables);
    SwapSameClass(rest[0]);
    assert ClassBag([c]) == multiset{Class(rest[0])};
    assert ClassBag(rest) == ClassBag([c]) + ClassBag(rest[1..]);
    assert Between(c, {tables[i]}, Tables(b.plan));
    hide Account, WellFormed, ClassBag;
    GrowingAddScan(tables, scans, total, b.plan, b.flags, rest, i, [c], rest[1..]);
  }

  lemma PlaceOne(tables: seq<string>, scans: seq<ScanPlan>, total: multiset<set<Condition>>, b: Build, rest: seq<Condition>)
    requires Building(tables, scans, total, b, rest) && rest != []
    requires rest[0].lhs.tabName in b.joined <==> rest[0].rhsCol.tabName !in b.joined
    ensures Building(tables, scans, total, Place(b, scans, rest[0]), rest[1..])
  {
    var c := rest[0];
    assert JoinCond(c, tables);
    FoundScan(tables, scans, c.lhs.tabName);
    FoundScan(tables, scans, c.rhsCol.tabName);
    hide Growing, JoinedIs;
    if c.rhsCol.tabName in b.joined {
      GrowOne(tables, scans, total, b, rest, FindScan(scans, c.lhs.tabName), c);
    } else {
      GrowOne(tables, scans, total, b, rest, FindScan(scans, c.rhsCol.tabName), Swap(c));
    }
  }

  lemma PlacePush(tables: seq<string>, scans: seq<ScanPlan>, total: multiset<set<Condition>>, b: Build, rest: seq<Condition>)
    requires Building(tables, scans, total, b, rest) && rest != []
    requires rest[0].lhs.tabName in b.joined && rest[0].rhsCol.tabName in b.joined
    ensures Building(tables, scans, total, Place(b, scans, rest[0]), rest[1..])
  {
    assert JoinCond(rest[0], tables);
    GrowingPush(tables, scans, total, b.plan, b.flags, rest);
    WholeOnceEach(b.plan);
    var path := PushAttaches(rest[0], b.plan);
    AttachKeeps(rest[0], b.plan, Push(rest[0], b.plan).1, path);
  }

  lemma PlaceBuilds(tables: seq<string>, scans: seq<ScanPlan>, total: multiset<set<Condition>>, b: Build, rest: seq<Condition>)
    requires |b.flags| == |scans| && Building(tables, scans, total, b, rest) && rest != []
    ensures Building(tables, scans, total, Place(b, scans, rest[0]), rest[1..])
  {
    hide Building, Place;
    var c := rest[0];
    if c.lhs.tabName in b.joined && c.rhsCol.tabName in b.joined {
      PlacePush(tables, scans, total, b, rest);
    } else if c.lhs.tabName !in b.joined && c.rhsCol.tabName !in b.joined {
      PlaceTwo(tables, scans, total, b, rest);
    } else {
      PlaceOne(tables, scans, total, b, rest);
    }
  }

  lemma {:induction false} PlaceAllBuilds(tables: seq<string>, scans: seq<ScanPlan>,
                                          total: multiset<set<Condition>>, b: Build, rest: seq<Condition>)
    requires |b.flags| == |scans| && Building(tables, scans, total, b, rest)
    ensures Building(tables, scans, total, PlaceAll(b, scans, rest), [])
    decreases rest
  {
    hide Building, Place;
    if rest != [] {
      PlaceBuilds(tables, scans, total, b, rest);
      PlaceAllBuilds(tables, scans, total, Place(b, scans, rest[0]), rest[1..]);
    }
  }

  /** Flags with the unused scans below `i` marked as used. */
  function UsedBelow(flags: seq<int>, i: nat): seq<int> {
    seq(|flags|, k requires 0 <= k < |flags| => if k < i then 1 else flags[k])
  }

  lemma {:induction false} CrossRestCompletes(tables: seq<string>, scans: seq<ScanPlan>, total: multiset<set<Condition>>,
                                              p: Plan, flags: seq<int>, i: nat)
    requires i <= |scans| == |flags| && Growing(tables, scans, total, p, UsedBelow(flags, i), [])
    requires forall k | 0 <= k < |flags| :: flags[k] == 1 || flags[k] == -1
    ensures var q := CrossRest(p, scans, flags, i); WellFormed(q) && Tables(q) == TableSet(tables) && PlanBag(q) == total
    decreases |scans| - i
  {
    hide Account, WellFormed, ScansFor, Tables, PlanBag;
    if i == |scans| {
      GrowingDone(tables, scans, total, p, UsedBelow(flags, i));
    } else if flags[i] == -1 {
      assert UsedBelow(flags, i)[i := 1] == UsedBelow(flags, i + 1);
      GrowingAddScan(tables, scans, total, p, UsedBelow(flags, i), [], i, [], []);
      CrossRestCompletes(tables, scans, total, Join(Scan(scans[i]), p, []), flags, i + 1);
    } else {
      assert UsedBelow(flags, i) == UsedBelow(flags, i + 1);
      CrossRestCompletes(tables, scans, total, p, flags, i + 1);
    }
  }

  // ----- Every leaf is one of the scans -----

  lemma {:induction false} PlaceAllLeaves(b: Build, scans: seq<ScanPlan>, rest: seq<Condition>)
    requires |b.flags| == |scans| && LeavesFrom(b.plan, scans)
    ensures LeavesFrom(PlaceAll(b, scans, rest).plan, scans)
    decreases rest
  {
    if rest != [] {
      PushLeaves(rest[0], b.plan, scans);
      PlaceAllLeaves(Place(b, scans, rest[0]), scans, rest[1..]);
    }
  }

  lemma {:induction false} CrossRestLeaves(p: Plan, scans: seq<ScanPlan>, flags: seq<int>, i: nat)
    requires i <= |scans| == |flags| && LeavesFrom(p, scans)
    ensures LeavesFrom(CrossRest(p, scans, flags, i), scans)
    decreases |scans| - i
  {
    if i < |scans| {
      CrossRestLeaves(if flags[i] == -1 then Join(Scan(scans[i]), p, []) else p, scans, flags, i + 1);
    }
  }

  lemma OneRelLeaves(scans: seq<ScanPlan>, rest: seq<Condition>)
    requires scans != []
    ensures var b := JoinTree(scans, rest); LeavesFrom(CrossRest(b.plan, scans, b.flags, 0), scans)
  {
    if rest != [] { PlaceAllLeaves(Start(InitialBuild(|scans|), scans, rest[0]), scans, rest[1..]); }
    var b := JoinTree(scans, rest);
    CrossRestLeaves(b.plan, scans, b.flags, 0);
  }

  // ----- A table named twice -----

  /** Scans marked as used are in the tree, unless the tree is broken; a repeated table's later scan is never marked. */
  ghost predicate Honest(scans: seq<ScanPlan>, b: Build) {
    && |b.flags| == |scans|
    && (forall i | 0 <= i < |scans| :: b.flags[i] == 1 || b.flags[i] == -1)
    && (WellFormed(b.plan) ==> forall i | 0 <= i < |scans| && b.flags[i] == 1 :: scans[i].tabName in Tables(b.plan))
    && (forall i | 0 <= i < |scans| && b.flags[i] == 1 :: FindScan(scans, scans[i].tabName) == i)
  }

  lemma {:induction false} FindFirst(scans: seq<ScanPlan>, i: nat)
    requires i < |scans|
    ensures FindScan(scans, scans[i].tabName) <= i
  {
    if i > 0 { FindFirst(scans[1..], i - 1); }
  }

  lemma {:induction false} PushTables(c: Condition, p: Plan)
    ensures Tables(Push(c, p).1) == Tables(p)
    ensures WellFormed(Push(c, p).1) ==> WellFormed(p)
  {
    if p.Join? {
      PushTables(c, p.left);
      PushTables(c, p.right);
      forall d | d in p.conds && WellFormed(Push(c, p).1) ensures Between(d, Tables(p.left), Tables(p.right)) {
        assert d in Push(c, p).1.conds;
      }
    }
  }

  lemma StartHonest(scans: seq<ScanPlan>, c: Condition)
    ensures Honest(scans, Start(InitialBuild(|scans|), scans, c))
  {
  }

  lemma AttachWhole(p: Plan, left: Plan, right: Plan, needReverse: bool, c: Condition)
    requires !left.Join? && !right.Join? && (right != Null ==> needReverse)
    ensures var q := Attach(p, left, right, needReverse, c);
            WellFormed(q) ==> WellFormed(p) && Tables(p) <= Tables(q) && Tables(left) <= Tables(q) && Tables(right) <= Tables(q)
  {
    PushTables(c, p);
    var q := Attach(p, left, right, needReverse, c);
    if left != Null && right != Null {
      assert Tables(q) == Tables(q.left) + Tables(p) && Tables(q.left) == Tables(left) + Tables(right);
    } else if left != Null || right != Null {
      assert Tables(q) == Tables(q.left) + Tables(p) && !WellFormed(Null);
    } else {
      assert Tables(left) == {} && Tables(right) == {};
    }
  }

  lemma MarkHonest(scans: seq<ScanPlan>, b: Build, t: string)
    requires |b.flags| == |scans| && forall i | 0 <= i < |scans| :: b.flags[i] == 1 || b.flags[i] == -1
    requires forall i | 0 <= i < |scans| && b.flags[i] == 1 :: FindScan(scans, scans[i].tabName) == i
    ensures var f := MarkUsed(b, scans, t).flags;
            && |f| == |scans| && (forall i | 0 <= i < |scans| :: f[i] == 1 || f[i] == -1)
            && (forall i | 0 <= i < |scans| && f[i] == 1 :: FindScan(scans, scans[i].tabName) == i)
            && (forall i | 0 <= i < |scans| && f[i] == 1 :: b.flags[i] == 1 || {scans[i].tabName} == Tables(PoppedScan(scans, t)))
  {
  }

  lemma PlaceHonest(scans: seq<ScanPlan>, b: Build, c: Condition)
    requires Honest(scans, b)
    ensures Honest(scans, Place(b, scans, c))
  {
    MarkHonest(scans, b, c.lhs.tabName);
    var b1 := if c.lhs.tabName !in b.joined then MarkUsed(b, scans, c.lhs.tabName) else b;
    MarkHonest(scans, b1, c.rhsCol.tabName);
    var needReverse := c.rhsCol.tabName !in b1.joined;
    var left := if c.lhs.tabName !in b.joined then PoppedScan(scans, c.lhs.tabName) else Null;
    var right := if needReverse then PoppedScan(scans, c.rhsCol.tabName) else Null;
    AttachWhole(b.plan, left, right, needReverse, c);
    hide Attach, WellFormed, MarkUsed;
  }

  lemma {:induction false} PlaceAllHonest(scans: seq<ScanPlan>, b: Build, rest: seq<Condition>)
    requires Honest(scans, b)
    ensures Honest(scans, PlaceAll(b, scans, rest))
    decreases rest
  {
    hide Place;
    if rest != [] {
      PlaceHonest(scans, b, rest[0]);
      PlaceAllHonest(scans, Place(b, scans, rest[0]), rest[1..]);
    }
  }

  lemma {:induction false} CrossRestBroken(p: Plan, scans: seq<ScanPlan>, flags: seq<int>, i: nat)
    requires i <= |scans| == |flags|
    ensures WellFormed(CrossRest(p, scans, flags, i)) ==> WellFormed(p)
    decreases |scans| - i
  {
    if i < |scans| { CrossRestBroken(if flags[i] == -1 then Join(Scan(scans[i]), p, []) else p, scans, flags, i + 1); }
  }

  /** Cross-joining an unused scan of a table that is in the tree, or that an earlier unused scan brings in, breaks the plan. */
  lemma {:induction false} CrossRestTwice(p: Plan, scans: seq<ScanPlan>, flags: seq<int>, k: nat, i: nat, j: nat)
    requires k <= j < |scans| == |flags| && flags[j] == -1 && i < j && scans[i].tabName == scans[j].tabName
    requires scans[i].tabName in Tables(p) || (k <= i && flags[i] == -1)
    ensures !WellFormed(CrossRest(p, scans, flags, k))
    decreases |scans| - k
  {
    var q := if flags[k] == -1 then Join(Scan(scans[k]), p, []) else p;
    if k == j {
      CrossRestBroken(q, scans, flags, k + 1);
    } else {
      CrossRestTwice(q, scans, flags, k + 1, i, j);
    }
  }

  lemma TwiceIsBroken(scans: seq<ScanPlan>, rest: seq<Condition>, i: nat, j: nat)
    requires i < j < |scans| && scans[i].tabName == scans[j].tabName
    ensures var b := JoinTree(scans, rest); !WellFormed(CrossRest(b.plan, scans, b.flags, 0))
  {
    var b := JoinTree(scans, rest);
    if rest != [] {
      StartHonest(scans, rest[0]);
      PlaceAllHonest(scans, Start(InitialBuild(|scans|), scans, rest[0]), rest[1..]);
    }
    assert Honest(scans, b);
    FindFirst(scans, i);
    assert b.flags[j] == -1;
    CrossRestBroken(b.plan, scans, b.flags, 0);
    if WellFormed(b.plan) { CrossRestTwice(b.plan, scans, b.flags, 0, i, j); }
  }

  // ----- Main results -----

  lemma BuildingSingle(tables: seq<string>, scans: seq<ScanPlan>, total: multiset<set<Condition>>)
    requires NoDuplicates(tables) && ScansFor(scans, tables) && tables != []
    requires Account(scans, total, multiset{}, InitialBuild(|scans|).flags, [])
    ensures Growing(tables, scans, total, Scan(scans[0]), InitialBuild(|scans|).flags[0 := 1], [])
  {
    var flags := InitialBuild(|scans|).flags;
    UnusedBagFlip(scans, flags, |scans|, 0);
    assert ClassBag(scans[0].conds) + UnusedBag(scans, flags[0 := 1], |scans|) == UnusedBag(scans, flags, |scans|);
  }

  lemma JoinTreeBuilds(tables: seq<string>, scans: seq<ScanPlan>, total: multiset<set<Condition>>, rest: seq<Condition>)
    requires NoDuplicates(tables) && ScansFor(scans, tables) && tables != [] && "" !in tables
    requires Account(scans, total, multiset{}, InitialBuild(|scans|).flags, rest)
    requires forall c | c in rest :: JoinCond(c, tables)
    ensures var b := JoinTree(scans, rest); Growing(tables, scans, total, b.plan, b.flags, [])
  {
    hide Account, Place, Start, JoinCond, Growing;
    if rest != [] {
      BuildingStart(tables, scans, total, rest);
      PlaceAllBuilds(tables, scans, total, Start(InitialBuild(|scans|), scans, rest[0]), rest[1..]);
    } else {
      BuildingSingle(tables, scans, total);
    }
  }

  lemma JoinTreeCompletes(tables: seq<string>, scans: seq<ScanPlan>, total: multiset<set<Condition>>, rest: seq<Condition>)
    requires NoDuplicates(tables) && ScansFor(scans, tables) && tables != [] && "" !in tables
    requires Account(scans, total, multiset{}, InitialBuild(|scans|).flags, rest)
    requires forall c | c in rest :: JoinCond(c, tables)
    ensures var b := JoinTree(scans, rest); var q := CrossRest(b.plan, scans, b.flags, 0);
            WellFormed(q) && Tables(q) == TableSet(tables) && PlanBag(q) == total
  {
    hide JoinTree, Account, InitialBuild, WellFormed;
    JoinTreeBuilds(tables, scans, total, rest);
    var b := JoinTree(scans, rest);
    assert UsedBelow(b.flags, 0) == b.flags;
    CrossRestCompletes(tables, scans, total, b.plan, b.flags, 0);
  }

  ghost predicate Plannable(catalog: map<string, TabMeta>, tables: seq<string>, conds: seq<Condition>) {
    && tables != [] && "" !in tables
    && (forall t | t in tables :: t in catalog)
    && forall c | c in conds :: Analyzed(c)
  }

  lemma ScansReady(catalog: map<string, TabMeta>, tables: seq<string>, conds: seq<Condition>)
    requires Plannable(catalog, tables, conds) && Admissible(tables, conds)
    ensures var (scans, rest) := Scans(catalog, tables, conds, |tables|);
            && ScansFor(scans, tables) && (forall c | c in rest :: JoinCond(c, tables))
            && Account(scans, ClassBag(conds), multiset{}, InitialBuild(|scans|).flags, rest)
  {
    ScansAreMade(catalog, tables, conds, |tables|);
    hide Scans, WellFormed, Analyzed, Within, UnusedBag, ClassBag;
    var (scans, rest) := Scans(catalog, tables, conds, |tables|);
    ScansMadeRest(tables, conds, scans, rest);
    var unused := UnusedBag(scans, InitialBuild(|scans|).flags, |scans|);
    assert multiset{} + unused == unused;
  }

  lemma SingleComplete(tables: seq<string>, scans: seq<ScanPlan>, total: multiset<set<Condition>>, rest: seq<Condition>)
    requires |tables| == 1 && ScansFor(scans, tables) && forall c | c in rest :: JoinCond(c, tables)
    requires Account(scans, total, multiset{}, InitialBuild(|scans|).flags, rest)
    ensures WellFormed(Scan(scans[0])) && Tables(Scan(scans[0])) == TableSet(tables) && PlanBag(Scan(scans[0])) == total
  {
    assert forall i | 0 <= i < |rest| :: !JoinCond(rest[i], tables);
    assert rest == [];
    hide Account, PlanBag;
    BuildingSingle(tables, scans, total);
    GrowingDone(tables, scans, total, Scan(scans[0]), InitialBuild(|scans|).flags[0 := 1]);
  }

  lemma AdmissibleIsCorrect(catalog: map<string, TabMeta>, tables: seq<string>, conds: seq<Condition>)
    requires Plannable(catalog, tables, conds) && Admissible(tables, conds)
    ensures Correct(PlanOf(catalog, tables, conds), tables, conds)
  {
    hide Scans, WellFormed, ClassBag, Account, ScansFor, JoinCond, JoinTree, InitialBuild, TableSet, Tables, PlanBag;
    ScansReady(catalog, tables, conds);
    var (scans, rest) := Scans(catalog, tables, conds, |tables|);
    if |tables| == 1 {
      SingleComplete(tables, scans, ClassBag(conds), rest);
    } else {
      JoinTreeCompletes(tables, scans, ClassBag(conds), rest);
    }
  }

  /**
   make_one_rel builds a correct plan (every table a leaf once, every condition once up to operand
   exchange, join conditions with their sides on the matching subtrees, no null child) exactly for
   the admissible queries.
   */
  lemma CorrectIffAdmissible(catalog: map<string, TabMeta>, tables: seq<string>, conds: seq<Condition>)
    requires Plannable(catalog, tables, conds)
    ensures Correct(PlanOf(catalog, tables, conds), tables, conds) <==> Admissible(tables, conds)
  {
    ScansAreMade(catalog, tables, conds, |tables|);
    var (scans, rest) := Scans(catalog, tables, conds, |tables|);
    var p := PlanOf(catalog, tables, conds);
    if Admissible(tables, conds) { AdmissibleIsCorrect(catalog, tables, conds); }
    if Correct(p, tables, conds) {
      hide Scans, WellFormed, JoinTree, CrossRest, Analyzed;
      OneRelLeaves(scans, rest);
      if |tables| > 1 { NoneTwice(tables, scans, rest); }
      OnlyAdmissible(tables, conds, scans, p);
    }
  }

  lemma NoneTwice(tables: seq<string>, scans: seq<ScanPlan>, rest: seq<Condition>)
    requires |scans| == |tables| > 0 && forall i | 0 <= i < |scans| :: scans[i].tabName == tables[i]
    requires var b := JoinTree(scans, rest); WellFormed(CrossRest(b.plan, scans, b.flags, 0))
    ensures NoDuplicates(tables)
  {
    hide WellFormed, JoinTree, CrossRest;
    forall i, j | 0 <= i < j < |tables| ensures tables[i] != tables[j] {
      if tables[i] == tables[j] { TwiceIsBroken(scans, rest, i, j); }
    }
  }

  /** On every database the plan of an admissible query yields the filtered cross product. */
  lemma OneRelAnswersQuery(db: Database, catalog: map<string, TabMeta>, tables: seq<string>, conds: seq<Condition>)
    requires Plannable(catalog, tables, conds) && Admissible(tables, conds)
    ensures Rows(db, PlanOf(catalog, tables, conds)) == Answer(db, tables, conds)
  {
    hide PlanOf;
    AdmissibleIsCorrect(catalog, tables, conds);
    CorrectPlanAnswersQuery(db, PlanOf(catalog, tables, conds), tables, conds);
  }
}
