/**
 Whether the executors of a plan can be built: the join executor dereferences both its children, and the index scan
 asserts that each of its conditions names its own table.
 */
module Execution {
  import opened Defs
  import opened Relational
  import opened Planning
  import opened OneRel
  import opened Dropping
  import opened Catalog

  /** What the constructor of an index scan asserts; a sequential scan asserts nothing. */
  predicate Accepted(s: ScanPlan) {
    s.kind == IndexScan ==>
      forall c | c in s.conds :: c.lhs.tabName == s.tabName || (!c.isRhsVal && c.rhsCol.tabName == s.tabName)
  }

  /** No null child, and every scan is accepted. */
  predicate Executable(p: Plan) {
    match p
    case Null => false
    case Scan(s) => Accepted(s)
    case Join(l, r, _) => Executable(l) && Executable(r)
  }

  /** The first table is read through an index. */
  ghost predicate IndexFirst(catalog: map<string, TabMeta>, tables: seq<string>, conds: seq<Condition>)
    requires tables != [] && tables[0] in catalog
  {
    HasIndex(catalog[tables[0]], PointCols(tables[0], conds))
  }

  /** What a caller can see in the query: no null child, and no misplaced comparison in an index scan. */
  ghost predicate CanRun(catalog: map<string, TabMeta>, tables: seq<string>, conds: seq<Condition>)
    requires tables != [] && tables[0] in catalog
  {
    && (|tables| > 1 ==> !NullChild(tables, Left(tables, conds)))
    && !(Misplaced(tables, conds) && IndexFirst(catalog, tables, conds))
  }

  // ----- Once a tree is broken it stays so -----

  lemma {:induction false} PushExecutable(c: Condition, p: Plan)
    ensures Executable(Push(c, p).1) <==> Executable(p)
  {
    if p.Join? {
      PushExecutable(c, p.left);
      PushExecutable(c, p.right);
    }
  }

  lemma PlaceBroken(b: Build, scans: seq<ScanPlan>, c: Condition)
    requires |b.flags| == |scans| && !Executable(b.plan)
    ensures !Executable(Place(b, scans, c).plan)
  {
    PushExecutable(c, b.plan);
    hide Push, PoppedScan, MarkUsed;
  }

  lemma {:induction false} PlaceAllBroken(b: Build, scans: seq<ScanPlan>, rest: seq<Condition>)
    requires |b.flags| == |scans| && !Executable(b.plan)
    ensures !Executable(PlaceAll(b, scans, rest).plan)
    decreases rest
  {
    if rest != [] {
      hide Place, Executable;
      PlaceBroken(b, scans, rest[0]);
      PlaceAllBroken(Place(b, scans, rest[0]), scans, rest[1..]);
    }
  }

  /** Cross joins: the tree and every scan still to be joined must be executable. */
  lemma {:induction false} CrossExecutable(p: Plan, scans: seq<ScanPlan>, flags: seq<int>, i: nat)
    requires i <= |scans| == |flags|
    ensures Executable(CrossRest(p, scans, flags, i)) <==>
            Executable(p) && forall j | i <= j < |scans| && flags[j] == -1 :: Accepted(scans[j])
    decreases |scans| - i
  {
    if i < |scans| {
      hide Accepted;
      CrossExecutable(if flags[i] == -1 then Join(Scan(scans[i]), p, []) else p, scans, flags, i + 1);
    }
  }

  // ----- A first scan that is refused -----

  ghost predicate FirstBroken(scans: seq<ScanPlan>, b: Build) {
    |b.flags| == |scans| && scans != [] && (b.flags[0] == -1 || !Executable(b.plan))
  }

  lemma PoppedBroken(b: Build, scans: seq<ScanPlan>, t: string)
    requires |b.flags| == |scans| && scans != [] && b.flags[0] == -1 && !Accepted(scans[0])
    ensures MarkUsed(b, scans, t).flags[0] == -1 || (PoppedScan(scans, t) != Null && !Executable(PoppedScan(scans, t)))
  {
    hide Accepted;
  }

  lemma PlaceFirstBroken(b: Build, scans: seq<ScanPlan>, c: Condition)
    requires FirstBroken(scans, b) && !Accepted(scans[0])
    ensures FirstBroken(scans, Place(b, scans, c))
  {
    if !Executable(b.plan) {
      PlaceBroken(b, scans, c);
    } else {
      PoppedBroken(b, scans, c.lhs.tabName);
      var b1 := if c.lhs.tabName !in b.joined then MarkUsed(b, scans, c.lhs.tabName) else b;
      if b1.flags[0] == -1 { PoppedBroken(b1, scans, c.rhsCol.tabName); }
      hide Executable, MarkUsed, PoppedScan, Attach, Accepted;
      var left := if c.lhs.tabName !in b.joined then PoppedScan(scans, c.lhs.tabName) else Null;
      var needRight := c.rhsCol.tabName !in b1.joined;
      var right := if needRight then PoppedScan(scans, c.rhsCol.tabName) else Null;
      if Place(b, scans, c).flags[0] != -1 { AttachBroken(b.plan, left, right, needRight, c); }
    }
  }

  lemma AttachBroken(p: Plan, left: Plan, right: Plan, needReverse: bool, c: Condition)
    requires (left != Null && !Executable(left)) || (right != Null && !Executable(right) && needReverse)
    ensures !Executable(Attach(p, left, right, needReverse, c))
  {
  }

  lemma {:induction false} PlaceAllFirstBroken(b: Build, scans: seq<ScanPlan>, rest: seq<Condition>)
    requires FirstBroken(scans, b) && !Accepted(scans[0])
    ensures FirstBroken(scans, PlaceAll(b, scans, rest))
    decreases rest
  {
    if rest != [] {
      hide Place, Executable, Accepted;
      PlaceFirstBroken(b, scans, rest[0]);
      PlaceAllFirstBroken(Place(b, scans, rest[0]), scans, rest[1..]);
    }
  }

  lemma JoinTreeFirstBroken(scans: seq<ScanPlan>, rest: seq<Condition>)
    requires scans != [] && !Accepted(scans[0])
    ensures FirstBroken(scans, JoinTree(scans, rest))
  {
    if rest != [] {
      var b, c := InitialBuild(|scans|), rest[0];
      var b1 := MarkUsed(b, scans, c.lhs.tabName);
      PoppedBroken(b, scans, c.lhs.tabName);
      if b1.flags[0] == -1 { PoppedBroken(b1, scans, c.rhsCol.tabName); }
      assert FirstBroken(scans, Start(b, scans, c));
      hide Accepted, Executable, Start, PlaceAll;
      PlaceAllFirstBroken(Start(b, scans, c), scans, rest[1..]);
    }
  }

  // ----- Null children -----

  ghost predicate AllAccepted(scans: seq<ScanPlan>) {
    forall i | 0 <= i < |scans| :: Accepted(scans[i])
  }

  lemma PoppedExecutable(tables: seq<string>, scans: seq<ScanPlan>, t: string)
    requires ScansNamed(tables, scans) && AllAccepted(scans)
    ensures if t in tables then PoppedScan(scans, t) != Null && Executable(PoppedScan(scans, t)) else PoppedScan(scans, t) == Null
  {
    FoundIff(tables, scans, t);
  }

  /** Placing a condition keeps a tree executable exactly when it puts no null child in. */
  lemma PlaceExecutableIff(tables: seq<string>, scans: seq<ScanPlan>, b: Build, c: Condition, seen: set<string>)
    requires ScansNamed(tables, scans) && |b.flags| == |scans| && JoinedSeen(tables, seen, b.joined) && Analyzed(c)
    requires AllAccepted(scans) && Executable(b.plan)
    ensures Executable(Place(b, scans, c).plan) <==> !NullAt(tables, seen, c)
  {
    FoundIff(tables, scans, c.lhs.tabName);
    PoppedExecutable(tables, scans, c.lhs.tabName);
    PoppedExecutable(tables, scans, c.rhsCol.tabName);
    PushExecutable(c, b.plan);
    hide Push, PoppedScan, Accepted, AllAccepted;
  }

  lemma {:induction false} PlaceAllExecutableIff(tables: seq<string>, scans: seq<ScanPlan>, b: Build,
                                                 rest: seq<Condition>, seen: set<string>)
    requires ScansNamed(tables, scans) && |b.flags| == |scans| && JoinedSeen(tables, seen, b.joined)
    requires AllAccepted(scans) && Executable(b.plan) && forall c | c in rest :: Analyzed(c)
    ensures Executable(PlaceAll(b, scans, rest).plan) <==> !NullAfter(tables, seen, rest)
    decreases rest
  {
    if rest != [] {
      var c := rest[0];
      hide Place, Executable, JoinedSeen, ScansNamed, Analyzed, NullAt, AllAccepted;
      PlaceExecutableIff(tables, scans, b, c, seen);
      PlaceJoined(tables, scans, b, c, seen);
      if NullAt(tables, seen, c) {
        PlaceAllBroken(Place(b, scans, c), scans, rest[1..]);
      } else {
        PlaceAllExecutableIff(tables, scans, Place(b, scans, c), rest[1..], seen + Names(c));
      }
    }
  }

  lemma StartExecutableIff(tables: seq<string>, scans: seq<ScanPlan>, c: Condition)
    requires ScansNamed(tables, scans) && AllAccepted(scans) && Analyzed(c) && (c.isRhsVal ==> c.lhs.tabName !in tables)
    ensures Executable(Start(InitialBuild(|scans|), scans, c).plan) <==> Within(c, TableSet(tables))
  {
    PoppedExecutable(tables, scans, c.lhs.tabName);
    PoppedExecutable(tables, scans, c.rhsCol.tabName);
    hide PoppedScan, AllAccepted, ScansNamed;
  }

  lemma JoinTreeExecutableIff(tables: seq<string>, scans: seq<ScanPlan>, rest: seq<Condition>)
    requires ScansNamed(tables, scans) && scans != [] && AllAccepted(scans)
    requires forall c | c in rest :: Analyzed(c) && (c.isRhsVal ==> c.lhs.tabName !in tables)
    ensures Executable(JoinTree(scans, rest).plan) <==> !NullChild(tables, rest)
  {
    if rest != [] {
      hide Executable, Start, JoinedSeen, ScansNamed, Analyzed, AllAccepted;
      var b := Start(InitialBuild(|scans|), scans, rest[0]);
      StartExecutableIff(tables, scans, rest[0]);
      StartJoined(tables, scans, rest[0]);
      if Within(rest[0], TableSet(tables)) {
        PlaceAllExecutableIff(tables, scans, b, rest[1..], Names(rest[0]));
      } else {
        PlaceAllBroken(b, scans, rest[1..]);
      }
    }
  }

  // ----- Which scans are accepted -----

  lemma {:induction false} PointColsPopped(t: string, conds: seq<Condition>)
    ensures PointCols(t, Popped(conds, t)) == PointCols(t, conds)
  {
    if conds != [] {
      var n := |conds| - 1;
      PointColsPopped(t, conds[..n]);
      var p := Popped(conds[..n], t);
      assert (p + [conds[n]])[..|p|] == p && p + [] == p;
    }
  }

  /** Each scan holds what it popped; after the first, no comparison within one table is left. */
  ghost predicate PoppedInto(conds: seq<Condition>, scans: seq<ScanPlan>) {
    forall j, c | 0 <= j < |scans| && c in scans[j].conds ::
      c in conds && Pops(c, scans[j].tabName) && (j > 0 ==> c.lhs.tabName != c.rhsCol.tabName)
  }

  lemma PoppedIntoStep(conds: seq<Condition>, scans: seq<ScanPlan>, rest: seq<Condition>, s: ScanPlan)
    requires PoppedInto(conds, scans) && s.conds == Popped(rest, s.tabName) && (forall c | c in rest :: c in conds)
    requires scans != [] ==> forall c | c in rest :: c.lhs.tabName != c.rhsCol.tabName
    ensures PoppedInto(conds, scans + [s])
  {
    PopSplits(rest, s.tabName);
    hide Popped, Pops, ClassBag, Kept;
    forall j, c | 0 <= j < |scans + [s]| && c in (scans + [s])[j].conds
      ensures c in conds && Pops(c, (scans + [s])[j].tabName) && (j > 0 ==> c.lhs.tabName != c.rhsCol.tabName)
    {
      if j < |scans| { assert (scans + [s])[j] == scans[j]; } else { assert c in rest; }
    }
  }

  lemma {:induction false} ScansPop(catalog: map<string, TabMeta>, tables: seq<string>, conds: seq<Condition>, i: nat)
    requires i <= |tables| && Plannable(catalog, tables, conds)
    ensures PoppedInto(conds, Scans(catalog, tables, conds, i).0)
    ensures i > 0 ==> Scans(catalog, tables, conds, i).0[0] == MakeScan(catalog, tables[0], Popped(conds, tables[0]))
  {
    hide PoppedInto, ScanAccount, ScansOf, Popped, Kept, HasIndex, PointCols, WellChosen;
    if i == 0 {
      assert PoppedInto(conds, []) by { NonePopped(conds); }
    } else {
      ScansPop(catalog, tables, conds, i - 1);
      ScansAreMade(catalog, tables, conds, i - 1);
      var (scans, rest) := Scans(catalog, tables, conds, i - 1);
      PoppedIntoStep(conds, scans, rest, MakeScan(catalog, tables[i - 1], Popped(rest, tables[i - 1])));
    }
  }

  lemma NonePopped(conds: seq<Condition>)
    ensures PoppedInto(conds, [])
  {
  }

  /** The scans are accepted unless a misplaced comparison meets an index on the first table. */
  lemma AcceptedIff(catalog: map<string, TabMeta>, tables: seq<string>, conds: seq<Condition>)
    requires Plannable(catalog, tables, conds)
    ensures var scans := Scans(catalog, tables, conds, |tables|).0;
            && (forall j | 0 < j < |scans| :: Accepted(scans[j]))
            && (Accepted(scans[0]) <==> !(Misplaced(tables, conds) && IndexFirst(catalog, tables, conds)))
  {
    ScansPop(catalog, tables, conds, |tables|);
    var scans := Scans(catalog, tables, conds, |tables|).0;
    PointColsPopped(tables[0], conds);
    PopSplits(conds, tables[0]);
    hide Scans, PointCols, Popped, HasIndex;
    if Misplaced(tables, conds) && IndexFirst(catalog, tables, conds) {
      var c :| c in conds && c.lhs.tabName == c.rhsCol.tabName != tables[0];
      assert c in scans[0].conds;
    }
  }

  // ----- The plan -----

  /** Whether the executors of the plan can be built, for every query: repeated tables and any conditions included. */
  lemma ExecutableIff(catalog: map<string, TabMeta>, tables: seq<string>, conds: seq<Condition>)
    requires Plannable(catalog, tables, conds)
    ensures Executable(PlanOf(catalog, tables, conds)) <==> CanRun(catalog, tables, conds)
  {
    AcceptedIff(catalog, tables, conds);
    PlanParts(catalog, tables, conds);
    var (scans, rest) := Scans(catalog, tables, conds, |tables|);
    hide Scans, JoinTree, CrossRest, Accepted, ScansNamed, Left, NullChild, Misplaced, IndexFirst, Analyzed;
    if |tables| > 1 {
      var b := JoinTree(scans, rest);
      CrossExecutable(b.plan, scans, b.flags, 0);
      if Accepted(scans[0]) {
        assert AllAccepted(scans);
        JoinTreeExecutableIff(tables, scans, rest);
      } else {
        JoinTreeFirstBroken(scans, rest);
      }
    }
  }
}
