/**
 Which conditions the plan of make_one_rel applies: those that empty its result on every database, and
 those on tables outside FROM that it drops.
 */
module Dropping {
  import opened Defs
  import opened Relational
  import opened Planning
  import opened OneRel
  import opened Catalog

  // ----- What a caller can see in a query -----

  /** Some condition compares two columns of one table that is not the first. */
  ghost predicate Misplaced(tables: seq<string>, conds: seq<Condition>) {
    tables != [] && exists c :: c in conds && c.lhs.tabName == c.rhsCol.tabName != tables[0]
  }

  /** The conditions on FROM tables only. */
  function InScope(tables: seq<string>, conds: seq<Condition>): seq<Condition> {
    if conds == [] then [] else
      (if Within(conds[0], TableSet(tables)) then [conds[0]] else []) + InScope(tables, conds[1..])
  }

  predicate PopsForSome(tables: seq<string>, c: Condition) {
    exists t :: t in tables && Pops(c, t)
  }

  /** The conditions no scan takes: between two tables, or on a table that is not in FROM. */
  function Left(tables: seq<string>, conds: seq<Condition>): seq<Condition> {
    if conds == [] then [] else
      (if PopsForSome(tables, conds[0]) then [] else [conds[0]]) + Left(tables, conds[1..])
  }

  function Names(c: Condition): set<string> {
    if c.isRhsVal then {c.lhs.tabName} else {c.lhs.tabName, c.rhsCol.tabName}
  }

  // Below, `seen` are the tables that earlier join conditions name.

  /** The condition joins a FROM table not joined yet, on its left, with a table outside FROM. */
  predicate NullAt(tables: seq<string>, seen: set<string>, c: Condition) {
    !c.isRhsVal && c.lhs.tabName in tables && c.lhs.tabName !in seen && c.rhsCol.tabName !in tables
  }

  /** The same with the sides exchanged. */
  predicate UnmetAt(tables: seq<string>, seen: set<string>, c: Condition) {
    !c.isRhsVal && c.rhsCol.tabName in tables && c.rhsCol.tabName !in seen && c.lhs.tabName !in tables
  }

  predicate NullAfter(tables: seq<string>, seen: set<string>, rest: seq<Condition>)
    decreases rest
  {
    rest != [] && (NullAt(tables, seen, rest[0]) || NullAfter(tables, seen + Names(rest[0]), rest[1..]))
  }

  predicate UnmetAfter(tables: seq<string>, seen: set<string>, rest: seq<Condition>)
    decreases rest
  {
    rest != [] && (UnmetAt(tables, seen, rest[0]) || UnmetAfter(tables, seen + Names(rest[0]), rest[1..]))
  }

  /** Among the join conditions one puts a null child into the tree. */
  predicate NullChild(tables: seq<string>, rest: seq<Condition>) {
    rest != [] && (!Within(rest[0], TableSet(tables)) || NullAfter(tables, Names(rest[0]), rest[1..]))
  }

  /** Among the join conditions one is put where no row can meet it. */
  predicate Unmet(tables: seq<string>, rest: seq<Condition>) {
    rest != [] && UnmetAfter(tables, Names(rest[0]), rest[1..])
  }

  // ----- Once a tree yields nothing it stays so -----

  lemma {:induction false} PushShrinks(db: Database, c: Condition, p: Plan)
    ensures Rows(db, Push(c, p).1) <= Rows(db, p)
  {
    if p.Join? {
      PushShrinks(db, c, p.left);
      PushShrinks(db, c, p.right);
      hide Holds;
      if Push(c, p).1.conds != p.conds && Push(c, p).0 == 3 && Push(c, p.left).0 != 3 && Push(c, p.right).0 != 3 {
        var d := Push(c, p).1.conds[|p.conds|];
        forall row | AllHold(db, p.conds + [d], row) ensures AllHold(db, p.conds, row) {
          assert forall i | 0 <= i < |p.conds| :: (p.conds + [d])[i] == p.conds[i];
        }
      }
    }
  }

  lemma JoinDry(db: Database, l: Plan, r: Plan, conds: seq<Condition>)
    requires Rows(db, l) == {} || Rows(db, r) == {}
    ensures Rows(db, Join(l, r, conds)) == {}
  {
  }

  lemma PlaceDry(db: Database, b: Build, scans: seq<ScanPlan>, c: Condition)
    requires |b.flags| == |scans| && Rows(db, b.plan) == {}
    ensures Rows(db, Place(b, scans, c).plan) == {}
  {
    PushShrinks(db, c, b.plan);
    hide Rows, Push, PoppedScan, MarkUsed;
    forall l, conds ensures Rows(db, Join(l, b.plan, conds)) == {} { JoinDry(db, l, b.plan, conds); }
  }

  lemma {:induction false} PlaceAllDry(db: Database, b: Build, scans: seq<ScanPlan>, rest: seq<Condition>)
    requires |b.flags| == |scans| && Rows(db, b.plan) == {}
    ensures Rows(db, PlaceAll(b, scans, rest).plan) == {}
    decreases rest
  {
    if rest != [] {
      hide Rows, Place;
      PlaceDry(db, b, scans, rest[0]);
      PlaceAllDry(db, Place(b, scans, rest[0]), scans, rest[1..]);
    }
  }

  lemma {:induction false} CrossRestDry(db: Database, p: Plan, scans: seq<ScanPlan>, flags: seq<int>, i: nat)
    requires i <= |scans| == |flags|
    requires Rows(db, p) == {} || exists j :: i <= j < |scans| && flags[j] == -1 && Rows(db, Scan(scans[j])) == {}
    ensures Rows(db, CrossRest(p, scans, flags, i)) == {}
    decreases |scans| - i
  {
    if i < |scans| {
      hide Rows;
      var q := if flags[i] == -1 then Join(Scan(scans[i]), p, []) else p;
      if flags[i] == -1 && (Rows(db, p) == {} || Rows(db, Scan(scans[i])) == {}) { JoinDry(db, Scan(scans[i]), p, []); }
      CrossRestDry(db, q, scans, flags, i + 1);
    }
  }

  // ----- A misplaced comparison -----

  /** A condition on another table keeps a scan from returning anything. */
  lemma ForeignScanDry(db: Database, s: ScanPlan, c: Condition)
    requires c in s.conds && c.lhs.tabName != s.tabName
    ensures Rows(db, Scan(s)) == {}
  {
    var i :| 0 <= i < |s.conds| && s.conds[i] == c;
    forall rid | rid in TableOf(db, s.tabName) ensures !AllHold(db, s.conds, map[s.tabName := rid]) {
      assert !Holds(db, s.conds[i], map[s.tabName := rid]);
    }
  }

  /** The first scan yields nothing and is either still to be joined or in the tree already. */
  ghost predicate FirstDry(db: Database, scans: seq<ScanPlan>, b: Build) {
    |b.flags| == |scans| && scans != [] && (b.flags[0] == -1 || Rows(db, b.plan) == {})
  }

  lemma PoppedDry(db: Database, b: Build, scans: seq<ScanPlan>, t: string)
    requires |b.flags| == |scans| && scans != [] && b.flags[0] == -1 && Rows(db, Scan(scans[0])) == {}
    ensures MarkUsed(b, scans, t).flags[0] == -1 || (PoppedScan(scans, t) != Null && Rows(db, PoppedScan(scans, t)) == {})
  {
    hide Rows;
  }

  lemma StartFirstDry(db: Database, b: Build, scans: seq<ScanPlan>, c: Condition)
    requires FirstDry(db, scans, b) && b.flags[0] == -1 && Rows(db, Scan(scans[0])) == {}
    ensures FirstDry(db, scans, Start(b, scans, c))
  {
    var b1 := MarkUsed(b, scans, c.lhs.tabName);
    PoppedDry(db, b, scans, c.lhs.tabName);
    if b1.flags[0] == -1 { PoppedDry(db, b1, scans, c.rhsCol.tabName); }
    hide Rows, MarkUsed, PoppedScan;
    var l, r := PoppedScan(scans, c.lhs.tabName), PoppedScan(scans, c.rhsCol.tabName);
    if Rows(db, l) == {} || Rows(db, r) == {} { JoinDry(db, l, r, [c]); }
  }

  lemma AttachDry(db: Database, p: Plan, left: Plan, right: Plan, needReverse: bool, c: Condition)
    requires (left != Null && Rows(db, left) == {}) || (right != Null && Rows(db, right) == {} && needReverse)
    ensures Rows(db, Attach(p, left, right, needReverse, c)) == {}
  {
    assert Rows(db, Null) == {};
    hide Rows, Push;
    if left != Null && right != Null {
      JoinDry(db, left, right, [c]);
      JoinDry(db, Join(left, right, [c]), p, []);
    } else if needReverse {
      JoinDry(db, right, p, [Swap(c)]);
    } else {
      JoinDry(db, left, p, [c]);
    }
  }

  lemma PlaceFirstDry(db: Database, b: Build, scans: seq<ScanPlan>, c: Condition)
    requires FirstDry(db, scans, b) && Rows(db, Scan(scans[0])) == {}
    ensures FirstDry(db, scans, Place(b, scans, c))
  {
    if Rows(db, b.plan) == {} {
      PlaceDry(db, b, scans, c);
    } else {
      PoppedDry(db, b, scans, c.lhs.tabName);
      var b1 := if c.lhs.tabName !in b.joined then MarkUsed(b, scans, c.lhs.tabName) else b;
      if b1.flags[0] == -1 { PoppedDry(db, b1, scans, c.rhsCol.tabName); }
      hide Rows, MarkUsed, PoppedScan, Attach;
      var left := if c.lhs.tabName !in b.joined then PoppedScan(scans, c.lhs.tabName) else Null;
      var needRight := c.rhsCol.tabName !in b1.joined;
      var right := if needRight then PoppedScan(scans, c.rhsCol.tabName) else Null;
      if Place(b, scans, c).flags[0] != -1 { AttachDry(db, b.plan, left, right, needRight, c); }
    }
  }

  lemma {:induction false} PlaceAllFirstDry(db: Database, b: Build, scans: seq<ScanPlan>, rest: seq<Condition>)
    requires FirstDry(db, scans, b) && Rows(db, Scan(scans[0])) == {}
    ensures FirstDry(db, scans, PlaceAll(b, scans, rest))
    decreases rest
  {
    if rest != [] {
      hide Rows, Place;
      PlaceFirstDry(db, b, scans, rest[0]);
      PlaceAllFirstDry(db, Place(b, scans, rest[0]), scans, rest[1..]);
    }
  }

  lemma JoinTreeFirstDry(db: Database, scans: seq<ScanPlan>, rest: seq<Condition>)
    requires scans != [] && Rows(db, Scan(scans[0])) == {}
    ensures FirstDry(db, scans, JoinTree(scans, rest))
  {
    hide Rows, Place, Start;
    if rest != [] {
      StartFirstDry(db, InitialBuild(|scans|), scans, rest[0]);
      PlaceAllFirstDry(db, Start(InitialBuild(|scans|), scans, rest[0]), scans, rest[1..]);
    }
  }

  lemma FirstScanTakes(tables: seq<string>, conds: seq<Condition>, scans: seq<ScanPlan>, rest: seq<Condition>, c: Condition)
    requires ScansMade(tables, conds, scans, rest) && scans != [] && c in conds && c.lhs.tabName == c.rhsCol.tabName
    ensures c in scans[0].conds && scans[0].tabName == tables[0]
  {
    hide RestAfter, ScanAccount, AllLocal, Admissible;
  }

  /** A comparison within a table other than the first empties the result on every database, whatever else is asked. */
  lemma MisplacedAlwaysEmpty(db: Database, catalog: map<string, TabMeta>, tables: seq<string>, conds: seq<Condition>)
    requires Plannable(catalog, tables, conds) && Misplaced(tables, conds)
    ensures Rows(db, PlanOf(catalog, tables, conds)) == {}
  {
    var c :| c in conds && c.lhs.tabName == c.rhsCol.tabName != tables[0];
    ScansAreMade(catalog, tables, conds, |tables|);
    hide Scans, Rows, JoinTree, ScansMade, WellChosen, AreFixed, PointCols, Analyzed;
    var (scans, rest) := Scans(catalog, tables, conds, |tables|);
    FirstScanTakes(tables, conds, scans, rest, c);
    ForeignScanDry(db, scans[0], c);
    if |tables| > 1 {
      JoinTreeFirstDry(db, scans, rest);
      var b := JoinTree(scans, rest);
      CrossRestDry(db, b.plan, scans, b.flags, 0);
    }
  }

  // ----- Which conditions are left for the joins -----

  lemma PopCons(conds: seq<Condition>, t: string)
    requires conds != []
    ensures Popped(conds, t) == (if Pops(conds[0], t) then [conds[0]] else []) + Popped(conds[1..], t)
    ensures Kept(conds, t) == (if Pops(conds[0], t) then [] else [conds[0]]) + Kept(conds[1..], t)
  {
    PopInOrder([conds[0]], conds[1..], t);
    assert [conds[0]] + conds[1..] == conds;
    assert [conds[0]][..0] == [];
  }

  lemma PopsForOneMore(tables: seq<string>, t: string, c: Condition)
    ensures PopsForSome(tables + [t], c) <==> PopsForSome(tables, c) || Pops(c, t)
  {
    assert t in tables + [t];
  }

  lemma {:induction false} KeptLeft(tables: seq<string>, t: string, conds: seq<Condition>)
    ensures Kept(Left(tables, conds), t) == Left(tables + [t], conds)
  {
    if conds != [] {
      var c, rest := conds[0], Left(tables, conds[1..]);
      hide PopsForSome, Kept, Pops;
      KeptLeft(tables, t, conds[1..]);
      PopsForOneMore(tables, t, c);
      PopCons([c] + rest, t);
      assert ([c] + rest)[1..] == rest;
      assert [] + rest == rest && [] + Kept(rest, t) == Kept(rest, t);
    }
  }

  lemma {:induction false} LeftNone(conds: seq<Condition>)
    ensures Left([], conds) == conds
  {
    if conds != [] { LeftNone(conds[1..]); }
  }

  lemma {:induction false} RestIsLeft(catalog: map<string, TabMeta>, tables: seq<string>, conds: seq<Condition>, i: nat)
    requires i <= |tables| && forall t | t in tables :: t in catalog
    ensures Scans(catalog, tables, conds, i).1 == Left(tables[..i], conds)
  {
    hide Left, Kept;
    if i == 0 {
      LeftNone(conds);
    } else {
      RestIsLeft(catalog, tables, conds, i - 1);
      KeptLeft(tables[..i - 1], tables[i - 1], conds);
      assert tables[..i - 1] + [tables[i - 1]] == tables[..i];
    }
  }

  // ----- A join condition that leaves FROM -----

  ghost predicate ScansNamed(tables: seq<string>, scans: seq<ScanPlan>) {
    |scans| == |tables| && "" !in tables && forall i | 0 <= i < |scans| :: scans[i].tabName == tables[i]
  }

  /** The joined list holds the FROM tables named so far. */
  ghost predicate JoinedSeen(tables: seq<string>, seen: set<string>, joined: seq<string>) {
    forall t :: t in joined <==> t == "" || (t in seen && t in tables)
  }

  lemma FoundIff(tables: seq<string>, scans: seq<ScanPlan>, t: string)
    requires ScansNamed(tables, scans)
    ensures FindScan(scans, t) < |scans| <==> t in tables
  {
    if t in tables {
      var i :| 0 <= i < |tables| && tables[i] == t;
      assert scans[i].tabName == t;
    }
  }

  lemma PlaceJoined(tables: seq<string>, scans: seq<ScanPlan>, b: Build, c: Condition, seen: set<string>)
    requires ScansNamed(tables, scans) && |b.flags| == |scans| && JoinedSeen(tables, seen, b.joined) && Analyzed(c)
    ensures JoinedSeen(tables, seen + Names(c), Place(b, scans, c).joined)
  {
    FoundIff(tables, scans, c.lhs.tabName);
    FoundIff(tables, scans, c.rhsCol.tabName);
    hide Attach;
  }

  lemma StartJoined(tables: seq<string>, scans: seq<ScanPlan>, c: Condition)
    requires ScansNamed(tables, scans) && scans != [] && Analyzed(c)
    ensures JoinedSeen(tables, Names(c), Start(InitialBuild(|scans|), scans, c).joined)
  {
    FoundIff(tables, scans, c.lhs.tabName);
    FoundIff(tables, scans, c.rhsCol.tabName);
    var joined := seq(|scans|, _ => "");
    assert joined[0] == "" && forall t | t in joined :: t == "";
  }

  lemma PlaceTables(tables: seq<string>, scans: seq<ScanPlan>, b: Build, c: Condition)
    requires ScansNamed(tables, scans) && |b.flags| == |scans| && Tables(b.plan) <= TableSet(tables)
    ensures Tables(Place(b, scans, c).plan) <= TableSet(tables)
  {
    PushTables(c, b.plan);
    PoppedTables(tables, scans, c.lhs.tabName);
    PoppedTables(tables, scans, c.rhsCol.tabName);
    hide Push, MarkUsed, PoppedScan, ScansNamed, TableSet;
  }

  lemma PoppedTables(tables: seq<string>, scans: seq<ScanPlan>, t: string)
    requires ScansNamed(tables, scans)
    ensures Tables(PoppedScan(scans, t)) <= TableSet(tables)
  {
    FoundIff(tables, scans, t);
  }

  /** No row meets a condition on a table it does not cover. */
  lemma JoinOutsideDry(db: Database, l: Plan, r: Plan, c: Condition)
    requires !Within(c, Tables(l) + Tables(r))
    ensures Rows(db, Join(l, r, [c])) == {}
  {
    RowKeys(db, l);
    RowKeys(db, r);
    forall x, y | x in Rows(db, l) && y in Rows(db, r) ensures !AllHold(db, [c], x + y) {
      assert (x + y).Keys == Tables(l) + Tables(r);
      assert !Holds(db, [c][0], x + y);
    }
  }

  /** A condition whose left side is outside FROM, and whose right side is joined by it, empties the tree. */
  lemma UnmetStep(db: Database, tables: seq<string>, scans: seq<ScanPlan>, b: Build, c: Condition, seen: set<string>)
    requires ScansNamed(tables, scans) && |b.flags| == |scans| && JoinedSeen(tables, seen, b.joined) && Analyzed(c)
    requires Tables(b.plan) <= TableSet(tables) && UnmetAt(tables, seen, c)
    ensures Rows(db, Place(b, scans, c).plan) == {}
  {
    FoundIff(tables, scans, c.lhs.tabName);
    FoundIff(tables, scans, c.rhsCol.tabName);
    hide Rows, Push;
    PoppedTables(tables, scans, c.rhsCol.tabName);
    JoinOutsideDry(db, PoppedScan(scans, c.rhsCol.tabName), b.plan, Swap(c));
  }

  lemma {:induction false} UnmetAll(db: Database, tables: seq<string>, scans: seq<ScanPlan>, b: Build,
                                    rest: seq<Condition>, seen: set<string>)
    requires ScansNamed(tables, scans) && |b.flags| == |scans| && JoinedSeen(tables, seen, b.joined)
    requires Tables(b.plan) <= TableSet(tables) && (forall c | c in rest :: Analyzed(c))
    requires UnmetAfter(tables, seen, rest)
    ensures Rows(db, PlaceAll(b, scans, rest).plan) == {}
    decreases rest
  {
    var c := rest[0];
    hide Rows, Place, JoinedSeen, ScansNamed, Analyzed, UnmetAt;
    if UnmetAt(tables, seen, c) {
      UnmetStep(db, tables, scans, b, c, seen);
      PlaceAllDry(db, Place(b, scans, c), scans, rest[1..]);
    } else {
      PlaceJoined(tables, scans, b, c, seen);
      PlaceTables(tables, scans, b, c);
      UnmetAll(db, tables, scans, Place(b, scans, c), rest[1..], seen + Names(c));
    }
  }

  lemma StartTables(tables: seq<string>, scans: seq<ScanPlan>, c: Condition)
    requires ScansNamed(tables, scans)
    ensures Tables(Start(InitialBuild(|scans|), scans, c).plan) <= TableSet(tables)
  {
    PoppedTables(tables, scans, c.lhs.tabName);
    PoppedTables(tables, scans, c.rhsCol.tabName);
  }

  lemma UnmetJoinTree(db: Database, tables: seq<string>, scans: seq<ScanPlan>, rest: seq<Condition>)
    requires ScansNamed(tables, scans) && scans != [] && (forall c | c in rest :: Analyzed(c)) && Unmet(tables, rest)
    ensures Rows(db, JoinTree(scans, rest).plan) == {}
  {
    hide Rows, Start, JoinedSeen, ScansNamed, Analyzed;
    StartJoined(tables, scans, rest[0]);
    StartTables(tables, scans, rest[0]);
    UnmetAll(db, tables, scans, Start(InitialBuild(|scans|), scans, rest[0]), rest[1..], Names(rest[0]));
  }

  /** What the plan of a query is made from. */
  lemma PlanParts(catalog: map<string, TabMeta>, tables: seq<string>, conds: seq<Condition>)
    requires Plannable(catalog, tables, conds)
    ensures var (scans, rest) := Scans(catalog, tables, conds, |tables|);
            && ScansNamed(tables, scans) && rest == Left(tables, conds)
            && forall c | c in rest :: Analyzed(c) && c.lhs.tabName != c.rhsCol.tabName && (c.isRhsVal ==> c.lhs.tabName !in tables)
  {
    ScansAreMade(catalog, tables, conds, |tables|);
    RestIsLeft(catalog, tables, conds, |tables|);
    assert tables[..|tables|] == tables;
  }

  /** A join condition put where no row can meet it empties the result on every database. */
  lemma UnmetAlwaysEmpty(db: Database, catalog: map<string, TabMeta>, tables: seq<string>, conds: seq<Condition>)
    requires Plannable(catalog, tables, conds) && |tables| > 1 && Unmet(tables, Left(tables, conds))
    ensures Rows(db, PlanOf(catalog, tables, conds)) == {}
  {
    PlanParts(catalog, tables, conds);
    var (scans, rest) := Scans(catalog, tables, conds, |tables|);
    hide Scans, Rows, JoinTree, ScansNamed, Left, Unmet, Analyzed;
    UnmetJoinTree(db, tables, scans, rest);
    var b := JoinTree(scans, rest);
    CrossRestDry(db, b.plan, scans, b.flags, 0);
  }

  // ----- Otherwise conditions outside FROM are dropped -----

  lemma {:induction false} InScopeMember(tables: seq<string>, conds: seq<Condition>)
    ensures forall c :: c in InScope(tables, conds) <==> c in conds && Within(c, TableSet(tables))
  {
    if conds != [] { InScopeMember(tables, conds[1..]); }
  }

  lemma {:induction false} InScopeAll(tables: seq<string>, conds: seq<Condition>)
    requires forall c | c in conds :: Within(c, TableSet(tables))
    ensures InScope(tables, conds) == conds
  {
    if conds != [] { InScopeAll(tables, conds[1..]); }
  }

  lemma InScopeCons(tables: seq<string>, c: Condition, conds: seq<Condition>)
    ensures InScope(tables, [c] + conds) == (if Within(c, TableSet(tables)) then [c] else []) + InScope(tables, conds)
  {
    assert ([c] + conds)[1..] == conds;
  }

  lemma {:induction false} PopInScope(tables: seq<string>, rest: seq<Condition>, t: string)
    requires forall c | c in rest && Pops(c, t) :: Within(c, TableSet(tables))
    ensures Popped(InScope(tables, rest), t) == Popped(rest, t)
    ensures Kept(InScope(tables, rest), t) == InScope(tables, Kept(rest, t))
  {
    if rest != [] {
      var c, ins := rest[0], InScope(tables, rest[1..]);
      hide Popped, Kept, Within, Pops;
      PopInScope(tables, rest[1..], t);
      PopCons(rest, t);
      assert [] + ins == ins && [] + Popped(rest[1..], t) == Popped(rest[1..], t) && [] + Kept(rest[1..], t) == Kept(rest[1..], t);
      assert [] + InScope(tables, Kept(rest[1..], t)) == InScope(tables, Kept(rest[1..], t));
      InScopeCons(tables, c, Kept(rest[1..], t));
      if Within(c, TableSet(tables)) {
        PopCons([c] + ins, t);
        assert ([c] + ins)[1..] == ins;
      }
    }
  }

  lemma {:induction false} ScansInScope(catalog: map<string, TabMeta>, tables: seq<string>, conds: seq<Condition>, i: nat)
    requires i <= |tables| && Plannable(catalog, tables, conds) && !Misplaced(tables, conds)
    ensures var (scans, rest) := Scans(catalog, tables, conds, i);
            Scans(catalog, tables, InScope(tables, conds), i) == (scans, InScope(tables, rest))
  {
    hide Popped, Kept, InScope, ScansMade, WellChosen, Misplaced, Analyzed, Pops, Within, TableSet, MakeScan;
    if i > 0 {
      ScansInScope(catalog, tables, conds, i - 1);
      ScansAreMade(catalog, tables, conds, i - 1);
      var (scans, rest) := Scans(catalog, tables, conds, i - 1);
      PoppedWithin(tables, conds, scans, rest);
      PopInScope(tables, rest, tables[i - 1]);
    } else {
      assert Scans(catalog, tables, conds, 0) == ([], conds);
    }
  }

  lemma PoppedWithin(tables: seq<string>, conds: seq<Condition>, scans: seq<ScanPlan>, rest: seq<Condition>)
    requires ScansMade(tables, conds, scans, rest) && |scans| < |tables| && !Misplaced(tables, conds)
    requires forall c | c in conds :: Analyzed(c)
    ensures forall c | c in rest && Pops(c, tables[|scans|]) :: Within(c, TableSet(tables))
  {
    hide ScanAccount, ScansOf;
    forall c | c in rest && Pops(c, tables[|scans|]) ensures Within(c, TableSet(tables)) { assert c in conds && Analyzed(c); }
  }

  lemma {:induction false} PushNone(c: Condition, p: Plan)
    requires c.lhs.tabName !in Tables(p) && c.rhsCol.tabName !in Tables(p)
    ensures Push(c, p) == (0, p)
  {
    if p.Join? {
      PushNone(c, p.left);
      PushNone(c, p.right);
    }
  }

  /** A condition that leaves FROM, with its FROM table joined already, is dropped without a trace. */
  lemma DropOutside(tables: seq<string>, scans: seq<ScanPlan>, b: Build, c: Condition, seen: set<string>)
    requires ScansNamed(tables, scans) && |b.flags| == |scans| && JoinedSeen(tables, seen, b.joined) && Analyzed(c)
    requires WellFormed(b.plan) && Tables(b.plan) <= TableSet(tables) && c.lhs.tabName != c.rhsCol.tabName
    requires !Within(c, TableSet(tables)) && !NullAt(tables, seen, c) && !UnmetAt(tables, seen, c)
    ensures Place(b, scans, c) == b
  {
    FoundIff(tables, scans, c.lhs.tabName);
    FoundIff(tables, scans, c.rhsCol.tabName);
    assert forall t | t in Names(c) && t in tables :: t in seen;
    hide WellFormed;
    WholeOnceEach(b.plan);
    if c.isRhsVal { PushNone(c, b.plan); } else { PushMisses(c, b.plan); }
    hide Push;
  }

  lemma {:induction false} PlaceAllDrops(tables: seq<string>, scans: seq<ScanPlan>, total: multiset<set<Condition>>,
                                         b: Build, rest: seq<Condition>, seen: set<string>)
    requires ScansNamed(tables, scans) && |b.flags| == |scans| && JoinedSeen(tables, seen, b.joined)
    requires Building(tables, scans, total, b, InScope(tables, rest)) && Tables(b.plan) <= TableSet(tables)
    requires forall c | c in rest :: Analyzed(c) && c.lhs.tabName != c.rhsCol.tabName
    requires !NullAfter(tables, seen, rest) && !UnmetAfter(tables, seen, rest)
    ensures PlaceAll(b, scans, rest) == PlaceAll(b, scans, InScope(tables, rest))
    decreases rest
  {
    if rest != [] {
      var c := rest[0];
      assert WellFormed(b.plan);
      hide Place, Building, JoinedSeen, ScansNamed, Analyzed, WellFormed;
      if Within(c, TableSet(tables)) {
        assert InScope(tables, rest)[1..] == InScope(tables, rest[1..]);
        PlaceBuilds(tables, scans, total, b, InScope(tables, rest));
        PlaceJoined(tables, scans, b, c, seen);
        PlaceTables(tables, scans, b, c);
        PlaceAllDrops(tables, scans, total, Place(b, scans, c), rest[1..], seen + Names(c));
      } else {
        assert InScope(tables, rest) == InScope(tables, rest[1..]);
        DropOutside(tables, scans, b, c, seen);
        PlaceJoined(tables, scans, b, c, seen);
        PlaceAllDrops(tables, scans, total, b, rest[1..], seen + Names(c));
      }
    }
  }

  lemma JoinTreeDrops(tables: seq<string>, scans: seq<ScanPlan>, total: multiset<set<Condition>>, rest: seq<Condition>)
    requires NoDuplicates(tables) && ScansFor(scans, tables) && tables != [] && ScansNamed(tables, scans)
    requires Account(scans, total, multiset{}, InitialBuild(|scans|).flags, InScope(tables, rest))
    requires forall c | c in InScope(tables, rest) :: JoinCond(c, tables)
    requires forall c | c in rest :: Analyzed(c) && c.lhs.tabName != c.rhsCol.tabName
    requires !NullChild(tables, rest) && !Unmet(tables, rest)
    ensures JoinTree(scans, rest) == JoinTree(scans, InScope(tables, rest))
  {
    if rest != [] {
      var c, ins := rest[0], InScope(tables, rest);
      assert ins[0] == c && ins[1..] == InScope(tables, rest[1..]);
      BuildingStart(tables, scans, total, ins);
      hide Start, Building, JoinedSeen, Account, ScansFor, ScansNamed, JoinCond, Analyzed, InScope;
      StartJoined(tables, scans, c);
      StartTables(tables, scans, c);
      PlaceAllDrops(tables, scans, total, Start(InitialBuild(|scans|), scans, c), rest[1..], Names(c));
    }
  }

  lemma InScopeAdmissible(catalog: map<string, TabMeta>, tables: seq<string>, conds: seq<Condition>)
    requires Plannable(catalog, tables, conds) && NoDuplicates(tables) && !Misplaced(tables, conds)
    ensures Plannable(catalog, tables, InScope(tables, conds)) && Admissible(tables, InScope(tables, conds))
  {
    InScopeMember(tables, conds);
  }

  /** Unless a condition empties the result or breaks the tree, the plan is the one for the conditions on FROM tables. */
  lemma OutsideDropped(catalog: map<string, TabMeta>, tables: seq<string>, conds: seq<Condition>)
    requires Plannable(catalog, tables, conds) && NoDuplicates(tables) && !Misplaced(tables, conds)
    requires |tables| > 1 ==> !NullChild(tables, Left(tables, conds)) && !Unmet(tables, Left(tables, conds))
    ensures PlanOf(catalog, tables, conds) == PlanOf(catalog, tables, InScope(tables, conds))
  {
    var ins := InScope(tables, conds);
    ScansInScope(catalog, tables, conds, |tables|);
    InScopeAdmissible(catalog, tables, conds);
    ScansReady(catalog, tables, ins);
    PlanParts(catalog, tables, conds);
    var (scans, rest) := Scans(catalog, tables, conds, |tables|);
    hide Scans, JoinTree, CrossRest, Admissible, Left, NullChild, Unmet, Account, ScansFor, ScansNamed, JoinCond;
    hide InScope, Analyzed;
    if |tables| > 1 { JoinTreeDrops(tables, scans, ClassBag(ins), rest); }
  }
}
