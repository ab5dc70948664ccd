/**
 The planner's decisions on values: which conditions a scan takes, where a left-over condition is
 pushed, and the invariant that the growing join tree keeps.
 */
module Planning {
  import opened Defs
  import opened Relational

  // ----- Conditions a scan takes (pop_conds) -----

  /** The test of pop_conds.  Its second disjunct does not look at the table being scanned. */
  predicate Pops(c: Condition, t: string) {
    (t == c.lhs.tabName && c.isRhsVal) || c.lhs.tabName == c.rhsCol.tabName
  }

  function Popped(conds: seq<Condition>, t: string): seq<Condition> {
    if conds == [] then [] else
      Popped(conds[..|conds| - 1], t) + (if Pops(conds[|conds| - 1], t) then [conds[|conds| - 1]] else [])
  }

  function Kept(conds: seq<Condition>, t: string): seq<Condition> {
    if conds == [] then [] else
      Kept(conds[..|conds| - 1], t) + (if Pops(conds[|conds| - 1], t) then [] else [conds[|conds| - 1]])
  }

  lemma {:induction false} PopSplits(conds: seq<Condition>, t: string)
    ensures forall c :: c in Popped(conds, t) <==> c in conds && Pops(c, t)
    ensures forall c :: c in Kept(conds, t) <==> c in conds && !Pops(c, t)
    ensures ClassBag(conds) == ClassBag(Popped(conds, t)) + ClassBag(Kept(conds, t))
  {
    if conds != [] {
      var n := |conds| - 1;
      PopSplits(conds[..n], t);
      assert conds == conds[..n] + [conds[n]];
      ClassBagAppend(conds[..n], [conds[n]]);
      ClassBagAppend(Popped(conds[..n], t), if Pops(conds[n], t) then [conds[n]] else []);
      ClassBagAppend(Kept(conds[..n], t), if Pops(conds[n], t) then [] else [conds[n]]);
    }
  }

  /** What a scan takes, and what it leaves, stays in the order of the query. */
  lemma {:induction false} PopInOrder(a: seq<Condition>, b: seq<Condition>, t: string)
    ensures Popped(a + b, t) == Popped(a, t) + Popped(b, t) && Kept(a + b, t) == Kept(a, t) + Kept(b, t)
    decreases b
  {
    if b == [] {
      assert a + b == a;
    } else {
      var n := |b| - 1;
      assert (a + b)[..|a + b| - 1] == a + b[..n] && (a + b)[|a + b| - 1] == b[n];
      PopInOrder(a, b[..n], t);
    }
  }

  // ----- Pushing a condition into a join tree (push_conds) -----

  /** Return code and new tree of push_conds: 0 neither table below, 1 the left one, 2 the right one, 3 attached. */
  function Push(c: Condition, p: Plan): (r: (int, Plan))
    ensures 0 <= r.0 <= 3 && (r.0 != 3 ==> r.1 == p)
  {
    match p
    case Null => (0, p)
    case Scan(s) =>
      if s.tabName == c.lhs.tabName then (1, p)
      else if s.tabName == c.rhsCol.tabName then (2, p)
      else (0, p)
    case Join(l, r, conds) =>
      var (leftRes, l') := Push(c, l);
      if leftRes == 3 then (3, p.(left := l')) else
      var (rightRes, r') := Push(c, r);
      if rightRes == 3 then (3, p.(right := r'))
      else if leftRes == 0 || rightRes == 0 then (leftRes + rightRes, p)
      else (3, p.(conds := conds + [if leftRes == 2 then Swap(c) else c]))
  }

  /** The subtree reached by turning left (true) or right (false) at each join. */
  ghost predicate HasPath(p: Plan, path: seq<bool>) {
    path == [] || (p.Join? && HasPath(if path[0] then p.left else p.right, path[1..]))
  }

  ghost function At(p: Plan, path: seq<bool>): Plan
    requires HasPath(p, path)
  {
    if path == [] then p else At(if path[0] then p.left else p.right, path[1..])
  }

  ghost function Replace(p: Plan, path: seq<bool>, q: Plan): Plan
    requires HasPath(p, path)
  {
    if path == [] then q
    else if path[0] then p.(left := Replace(p.left, path[1..], q))
    else p.(right := Replace(p.right, path[1..], q))
  }

  /** `c` attached to the one join that has the condition's tables on different sides. */
  ghost predicate AttachedAtLca(c: Condition, p: Plan, p': Plan, path: seq<bool>) {
    && HasPath(p, path) && At(p, path).Join?
    && var j := At(p, path);
    && var d := if c.lhs.tabName in Tables(j.left) then c else Swap(c);
    && Between(d, Tables(j.left), Tables(j.right))
    && p' == Replace(p, path, j.(conds := j.conds + [d]))
  }

  /** No table is on both sides of a join; null children are allowed. */
  ghost predicate OnceEach(p: Plan) {
    p.Join? ==> Tables(p.left) !! Tables(p.right) && OnceEach(p.left) && OnceEach(p.right)
  }

  lemma {:induction false} WholeOnceEach(p: Plan)
    requires WellFormed(p)
    ensures OnceEach(p)
  {
    if p.Join? {
      WholeOnceEach(p.left);
      WholeOnceEach(p.right);
    }
  }

  /** Unless both tables are below, push_conds reports which one is and leaves the tree alone, null children or not. */
  lemma {:induction false} PushMisses(c: Condition, p: Plan)
    requires !c.isRhsVal && c.lhs.tabName != c.rhsCol.tabName && OnceEach(p)
    requires c.lhs.tabName !in Tables(p) || c.rhsCol.tabName !in Tables(p)
    ensures Push(c, p) == (if c.lhs.tabName in Tables(p) then 1 else if c.rhsCol.tabName in Tables(p) then 2 else 0, p)
  {
    if p.Join? {
      PushMisses(c, p.left);
      PushMisses(c, p.right);
    }
  }

  /** With both tables below, push_conds attaches the condition once, at their lowest common join, sides matching. */
  lemma {:induction false} PushAttaches(c: Condition, p: Plan) returns (path: seq<bool>)
    requires !c.isRhsVal && c.lhs.tabName != c.rhsCol.tabName && OnceEach(p)
    requires c.lhs.tabName in Tables(p) && c.rhsCol.tabName in Tables(p)
    ensures Push(c, p).0 == 3 && AttachedAtLca(c, p, Push(c, p).1, path)
  {
    var a, b := c.lhs.tabName, c.rhsCol.tabName;
    if a in Tables(p.left) && b in Tables(p.left) {
      var rest := PushAttaches(c, p.left);
      path := [true] + rest;
      assert path[1..] == rest;
    } else if a in Tables(p.right) && b in Tables(p.right) {
      PushMisses(c, p.left);
      var rest := PushAttaches(c, p.right);
      path := [false] + rest;
      assert path[1..] == rest;
    } else {
      PushMisses(c, p.left);
      PushMisses(c, p.right);
      path := [];
    }
  }

  lemma {:induction false} LcaBelow(c: Condition, p: Plan, p': Plan, path: seq<bool>)
    requires AttachedAtLca(c, p, p', path)
    ensures c.lhs.tabName in Tables(p) && c.rhsCol.tabName in Tables(p)
    ensures path != [] ==> p'.Join? && p'.conds == p.conds
    ensures path != [] && path[0] ==> AttachedAtLca(c, p.left, p'.left, path[1..]) && p'.right == p.right
    ensures path != [] && !path[0] ==> AttachedAtLca(c, p.right, p'.right, path[1..]) && p'.left == p.left
  {
    if path != [] {
      if path[0] { LcaBelow(c, p.left, p'.left, path[1..]); } else { LcaBelow(c, p.right, p'.right, path[1..]); }
    }
  }

  /** There is only one such join, so `AttachedAtLca` determines the tree after a push. */
  lemma {:induction false} LcaUnique(c: Condition, p: Plan, p1: Plan, p2: Plan, path1: seq<bool>, path2: seq<bool>)
    requires WellFormed(p) && AttachedAtLca(c, p, p1, path1) && AttachedAtLca(c, p, p2, path2)
    ensures path1 == path2 && p1 == p2
  {
    LcaBelow(c, p, p1, path1);
    LcaBelow(c, p, p2, path2);
    if path1 != [] { LcaBelow(c, if path1[0] then p.left else p.right, if path1[0] then p1.left else p1.right, path1[1..]); }
    if path2 != [] { LcaBelow(c, if path2[0] then p.left else p.right, if path2[0] then p2.left else p2.right, path2[1..]); }
    if path1 != [] && path2 != [] {
      var q := if path1[0] then p.left else p.right;
      LcaUnique(c, q, if path1[0] then p1.left else p1.right, if path2[0] then p2.left else p2.right, path1[1..], path2[1..]);
      assert path1 == [path1[0]] + path1[1..] && path2 == [path2[0]] + path2[1..];
    }
  }

  lemma AttachHere(c: Condition, p: Plan, d: Condition)
    requires WellFormed(p) && p.Join? && d in Class(c) && Between(d, Tables(p.left), Tables(p.right))
    ensures var p' := p.(conds := p.conds + [d]);
            WellFormed(p') && Tables(p') == Tables(p) && PlanBag(p') == PlanBag(p) + multiset{Class(c)}
  {
    ClassBagAppend(p.conds, [d]);
    SwapSameClass(c);
    assert ClassBag([d]) == multiset{Class(c)};
    BagSlide(PlanBag(p.left) + PlanBag(p.right), ClassBag(p.conds), ClassBag([d]));
  }

  lemma BagSlide<T>(a: multiset<T>, b: multiset<T>, c: multiset<T>)
    ensures a + (b + c) == (a + b) + c && (a + c) + b == (a + b) + c
  {
  }

  /** Attaching at the lowest common join keeps the tree well formed and adds exactly the one condition. */
  lemma {:induction false} AttachKeeps(c: Condition, p: Plan, p': Plan, path: seq<bool>)
    requires !c.isRhsVal && WellFormed(p) && AttachedAtLca(c, p, p', path)
    ensures WellFormed(p') && Tables(p') == Tables(p) && PlanBag(p') == PlanBag(p) + multiset{Class(c)}
  {
    LcaBelow(c, p, p', path);
    if path == [] {
      AttachHere(c, p, if c.lhs.tabName in Tables(p.left) then c else Swap(c));
    } else if path[0] {
      AttachKeeps(c, p.left, p'.left, path[1..]);
      BagSlide(PlanBag(p.left), PlanBag(p.right), multiset{Class(c)});
      BagSlide(PlanBag(p.left) + PlanBag(p.right), ClassBag(p.conds), multiset{Class(c)});
    } else {
      AttachKeeps(c, p.right, p'.right, path[1..]);
      BagSlide(PlanBag(p.left), PlanBag(p.right), multiset{Class(c)});
      BagSlide(PlanBag(p.left) + PlanBag(p.right), ClassBag(p.conds), multiset{Class(c)});
    }
  }

  // ----- Growing the join tree (make_one_rel) -----

  /** What Analyze hands over: resolved table names, and no right column when the right side is a value. */
  predicate Analyzed(c: Condition) {
    c.lhs.tabName != "" && (c.isRhsVal <==> c.rhsCol.tabName == "")
  }

  predicate JoinCond(c: Condition, tables: seq<string>) {
    !c.isRhsVal && c.lhs.tabName != c.rhsCol.tabName && c.lhs.tabName in tables && c.rhsCol.tabName in tables
  }

  /**
   When the planner is right: no table is named twice, conditions name FROM tables, and a comparison of two
   columns of one table is on the first of them.
   */
  predicate Admissible(tables: seq<string>, conds: seq<Condition>) {
    NoDuplicates(tables) && forall c | c in conds ::
      && Within(c, TableSet(tables))
      && (c.lhs.tabName == c.rhsCol.tabName ==> |tables| > 0 && c.lhs.tabName == tables[0])
  }

  /** Conditions of the first `n` scans that are not yet in the tree. */
  function UnusedBag(scans: seq<ScanPlan>, flags: seq<int>, n: nat): multiset<set<Condition>>
    requires n <= |scans| && n <= |flags|
  {
    if n == 0 then multiset{}
    else UnusedBag(scans, flags, n - 1) + (if flags[n - 1] == -1 then ClassBag(scans[n - 1].conds) else multiset{})
  }

  lemma UnusedBagPrefix(scans: seq<ScanPlan>, flags: seq<int>, scans': seq<ScanPlan>, flags': seq<int>, n: nat)
    requires n <= |scans| && n <= |flags| && n <= |scans'| && n <= |flags'|
    requires scans[..n] == scans'[..n] && flags[..n] == flags'[..n]
    ensures UnusedBag(scans, flags, n) == UnusedBag(scans', flags', n)
  {
    assert forall i | 0 <= i < n :: scans[i] == scans[..n][i] == scans'[..n][i] == scans'[i];
    assert forall i | 0 <= i < n :: flags[i] == flags[..n][i] == flags'[..n][i] == flags'[i];
    UnusedBagSame(scans, flags, scans', flags', n);
  }

  lemma {:induction false} UnusedBagSame(scans: seq<ScanPlan>, flags: seq<int>, scans': seq<ScanPlan>, flags': seq<int>, n: nat)
    requires n <= |scans| && n <= |flags| && n <= |scans'| && n <= |flags'|
    requires forall i | 0 <= i < n :: scans[i] == scans'[i] && flags[i] == flags'[i]
    ensures UnusedBag(scans, flags, n) == UnusedBag(scans', flags', n)
  {
    hide ClassBag;
    if n > 0 { UnusedBagSame(scans, flags, scans', flags', n - 1); }
  }

  lemma {:induction false} UnusedBagFlip(scans: seq<ScanPlan>, flags: seq<int>, n: nat, i: nat)
    requires i < n <= |scans| && n <= |flags| && flags[i] == -1
    ensures UnusedBag(scans, flags, n) == UnusedBag(scans, flags[i := 1], n) + ClassBag(scans[i].conds)
  {
    hide ClassBag;
    var used, used' := UnusedBag(scans, flags, n - 1), UnusedBag(scans, flags[i := 1], n - 1);
    if i == n - 1 {
      UnusedBagPrefix(scans, flags, scans, flags[i := 1], n - 1);
    } else {
      UnusedBagFlip(scans, flags, n - 1, i);
      BagSlide(used', ClassBag(scans[i].conds), if flags[n - 1] == -1 then ClassBag(scans[n - 1].conds) else multiset{});
    }
  }

  lemma {:induction false} UnusedBagEmpty(scans: seq<ScanPlan>, flags: seq<int>, n: nat)
    requires n <= |scans| && n <= |flags| && forall i | 0 <= i < n :: flags[i] != -1
    ensures UnusedBag(scans, flags, n) == multiset{}
  {
    if n > 0 { UnusedBagEmpty(scans, flags, n - 1); }
  }

  ghost predicate ScansFor(scans: seq<ScanPlan>, tables: seq<string>) {
    && |scans| == |tables|
    && forall i | 0 <= i < |scans| :: scans[i].tabName == tables[i] && WellFormed(Scan(scans[i]))
  }

  /** The flags name exactly the scans in the tree. */
  ghost predicate Shape(tables: seq<string>, p: Plan, flags: seq<int>) {
    && |flags| == |tables| && WellFormed(p) && Tables(p) <= TableSet(tables)
    && forall i | 0 <= i < |tables| :: flags[i] == if tables[i] in Tables(p) then 1 else -1
  }

  /** The tree, the unused scans and the conditions still to place account for every condition. */
  ghost predicate Account(scans: seq<ScanPlan>, total: multiset<set<Condition>>, bag: multiset<set<Condition>>,
                          flags: seq<int>, rest: seq<Condition>)
    requires |flags| == |scans|
  {
    bag + UnusedBag(scans, flags, |scans|) + ClassBag(rest) == total
  }

  ghost predicate Growing(tables: seq<string>, scans: seq<ScanPlan>, total: multiset<set<Condition>>,
                          p: Plan, flags: seq<int>, rest: seq<Condition>)
  {
    && NoDuplicates(tables) && ScansFor(scans, tables) && Shape(tables, p, flags)
    && Account(scans, total, PlanBag(p), flags, rest)
    && forall c | c in rest :: JoinCond(c, tables)
  }

  lemma GrowingDone(tables: seq<string>, scans: seq<ScanPlan>, total: multiset<set<Condition>>, p: Plan, flags: seq<int>)
    requires Growing(tables, scans, total, p, flags, [])
    requires forall i | 0 <= i < |flags| :: flags[i] == 1
    ensures Tables(p) == TableSet(tables) && PlanBag(p) == total
  {
    UnusedBagEmpty(scans, flags, |scans|);
    forall t | t in TableSet(tables) ensures t in Tables(p) {
      var i :| 0 <= i < |tables| && tables[i] == t;
      assert flags[i] == 1;
    }
  }

  lemma BagRegroup<T>(s: multiset<T>, p: multiset<T>, c: multiset<T>, u: multiset<T>, r: multiset<T>)
    ensures (s + p + c) + u + r == p + (u + s) + (c + r)
  {
  }

  /** Using scan `i` with some of the open conditions moves both into the tree's account. */
  lemma AccountAdd(scans: seq<ScanPlan>, total: multiset<set<Condition>>, bag: multiset<set<Condition>>, flags: seq<int>,
                   rest: seq<Condition>, i: nat, conds: multiset<set<Condition>>, rest': seq<Condition>)
    requires |flags| == |scans| && Account(scans, total, bag, flags, rest) && i < |scans| && flags[i] == -1
    requires ClassBag(rest) == conds + ClassBag(rest')
    ensures Account(scans, total, ClassBag(scans[i].conds) + bag + conds, flags[i := 1], rest')
  {
    UnusedBagFlip(scans, flags, |scans|, i);
    BagRegroup(ClassBag(scans[i].conds), bag, conds, UnusedBag(scans, flags[i := 1], |scans|), ClassBag(rest'));
  }

  lemma ShapeAdd(tables: seq<string>, scans: seq<ScanPlan>, p: Plan, flags: seq<int>, i: nat, conds: seq<Condition>)
    requires NoDuplicates(tables) && ScansFor(scans, tables) && Shape(tables, p, flags) && i < |tables| && flags[i] == -1
    requires forall c | c in conds :: Between(c, {tables[i]}, Tables(p))
    ensures Shape(tables, Join(Scan(scans[i]), p, conds), flags[i := 1])
  {
    assert Tables(Scan(scans[i])) == {tables[i]};
    assert tables[i] in TableSet(tables);
  }

  /** The join of one unused scan with the tree, under conditions between the two. */
  lemma GrowingAddScan(tables: seq<string>, scans: seq<ScanPlan>, total: multiset<set<Condition>>, p: Plan,
                       flags: seq<int>, rest: seq<Condition>, i: nat, conds: seq<Condition>, rest': seq<Condition>)
    requires Growing(tables, scans, total, p, flags, rest) && i < |tables| && flags[i] == -1
    requires forall c | c in conds :: Between(c, {tables[i]}, Tables(p))
    requires forall c | c in rest' :: c in rest
    requires ClassBag(rest) == ClassBag(conds) + ClassBag(rest')
    ensures Growing(tables, scans, total, Join(Scan(scans[i]), p, conds), flags[i := 1], rest')
  {
    ShapeAdd(tables, scans, p, flags, i, conds);
    AccountAdd(scans, total, PlanBag(p), flags, rest, i, ClassBag(conds), rest');
  }

  /** Two unused scans joined on a condition that names both. */
  lemma PairShape(tables: seq<string>, scans: seq<ScanPlan>, c: Condition, i: nat, j: nat)
    requires NoDuplicates(tables) && ScansFor(scans, tables) && JoinCond(c, tables)
    requires i < |tables| && j < |tables| && c.lhs.tabName == tables[i] && c.rhsCol.tabName == tables[j]
    ensures var t := Join(Scan(scans[i]), Scan(scans[j]), [c]);
            && WellFormed(t) && Tables(t) == {tables[i], tables[j]} && i != j
            && PlanBag(t) == ClassBag(scans[i].conds) + ClassBag(scans[j].conds) + multiset{Class(c)}
  {
    assert ClassBag([c]) == multiset{Class(c)};
  }

  lemma TwoAccount(scans: seq<ScanPlan>, total: multiset<set<Condition>>, bag: multiset<set<Condition>>, flags: seq<int>,
                   rest: seq<Condition>, i: nat, j: nat)
    requires |flags| == |scans| && Account(scans, total, bag, flags, rest) && rest != []
    requires i < |scans| && j < |scans| && i != j && flags[i] == -1 && flags[j] == -1
    ensures Account(scans, total, ClassBag(scans[i].conds) + ClassBag(scans[j].conds) + multiset{Class(rest[0])} + bag,
                    flags[i := 1][j := 1], rest[1..])
  {
    AccountAdd(scans, total, bag, flags, rest, j, multiset{}, rest);
    AccountAdd(scans, total, ClassBag(scans[j].conds) + bag + multiset{}, flags[j := 1], rest, i, multiset{Class(rest[0])}, rest[1..]);
    assert flags[j := 1][i := 1] == flags[i := 1][j := 1];
    BagPair(ClassBag(scans[i].conds), ClassBag(scans[j].conds), multiset{Class(rest[0])}, bag);
  }

  lemma BagPair<T>(a: multiset<T>, b: multiset<T>, c: multiset<T>, bag: multiset<T>)
    ensures a + (b + bag + multiset{}) + c == a + b + c + bag
  {
  }

  lemma ShapeAddTwo(tables: seq<string>, t: Plan, p: Plan, flags: seq<int>, i: nat, j: nat)
    requires NoDuplicates(tables) && Shape(tables, p, flags) && WellFormed(t)
    requires i < |tables| && j < |tables| && flags[i] == -1 && flags[j] == -1 && Tables(t) == {tables[i], tables[j]}
    ensures Shape(tables, Join(t, p, []), flags[i := 1][j := 1])
    ensures PlanBag(Join(t, p, [])) == PlanBag(t) + PlanBag(p)
  {
  }

  /** The join of two unused scans with each other and then with the tree. */
  lemma GrowingAddTwo(tables: seq<string>, scans: seq<ScanPlan>, total: multiset<set<Condition>>, p: Plan,
                      flags: seq<int>, rest: seq<Condition>, i: nat, j: nat)
    requires Growing(tables, scans, total, p, flags, rest) && rest != []
    requires i < |tables| && j < |tables| && flags[i] == -1 && flags[j] == -1
    requires rest[0].lhs.tabName == tables[i] && rest[0].rhsCol.tabName == tables[j]
    ensures Growing(tables, scans, total, Join(Join(Scan(scans[i]), Scan(scans[j]), [rest[0]]), p, []),
                    flags[i := 1][j := 1], rest[1..])
  {
    assert JoinCond(rest[0], tables);
    PairShape(tables, scans, rest[0], i, j);
    TwoAccount(scans, total, PlanBag(p), flags, rest, i, j);
    ShapeAddTwo(tables, Join(Scan(scans[i]), Scan(scans[j]), [rest[0]]), p, flags, i, j);
  }

  /** The first join, of the two scans the first condition names. */
  lemma GrowingStart(tables: seq<string>, scans: seq<ScanPlan>, total: multiset<set<Condition>>,
                     flags: seq<int>, rest: seq<Condition>, i: nat, j: nat)
    requires NoDuplicates(tables) && ScansFor(scans, tables) && |flags| == |tables| && rest != []
    requires forall k | 0 <= k < |flags| :: flags[k] == -1
    requires forall c | c in rest :: JoinCond(c, tables)
    requires Account(scans, total, multiset{}, flags, rest)
    requires i < |tables| && j < |tables| && rest[0].lhs.tabName == tables[i] && rest[0].rhsCol.tabName == tables[j]
    ensures Growing(tables, scans, total, Join(Scan(scans[i]), Scan(scans[j]), [rest[0]]), flags[i := 1][j := 1], rest[1..])
  {
    assert JoinCond(rest[0], tables);
    PairShape(tables, scans, rest[0], i, j);
    TwoAccount(scans, total, multiset{}, flags, rest, i, j);
    var t := Join(Scan(scans[i]), Scan(scans[j]), [rest[0]]);
    PairStart(tables, t, flags, i, j);
    hide Shape, WellFormed, ClassBag, UnusedBag;
    assert PlanBag(t) + multiset{} == PlanBag(t);
  }

  lemma PairStart(tables: seq<string>, t: Plan, flags: seq<int>, i: nat, j: nat)
    requires NoDuplicates(tables) && |flags| == |tables| && forall k | 0 <= k < |flags| :: flags[k] == -1
    requires WellFormed(t) && i < |tables| && j < |tables| && Tables(t) == {tables[i], tables[j]}
    ensures Shape(tables, t, flags[i := 1][j := 1])
  {
  }

  /** Pushing a condition whose two tables are already in the tree. */
  lemma GrowingPush(tables: seq<string>, scans: seq<ScanPlan>, total: multiset<set<Condition>>, p: Plan,
                    flags: seq<int>, rest: seq<Condition>)
    requires Growing(tables, scans, total, p, flags, rest) && rest != []
    requires rest[0].lhs.tabName in Tables(p) && rest[0].rhsCol.tabName in Tables(p)
    ensures Growing(tables, scans, total, Push(rest[0], p).1, flags, rest[1..])
  {
    assert JoinCond(rest[0], tables);
    WholeOnceEach(p);
    var path := PushAttaches(rest[0], p);
    AttachKeeps(rest[0], p, Push(rest[0], p).1, path);
  }

  // ----- When the plan is wrong -----

  ghost predicate LeavesFrom(p: Plan, scans: seq<ScanPlan>) {
    match p
    case Null => true
    case Scan(s) => s in scans
    case Join(l, r, _) => LeavesFrom(l, scans) && LeavesFrom(r, scans)
  }

  lemma {:induction false} PushLeaves(c: Condition, p: Plan, scans: seq<ScanPlan>)
    requires LeavesFrom(p, scans)
    ensures LeavesFrom(Push(c, p).1, scans)
  {
    if p.Join? {
      PushLeaves(c, p.left, scans);
      PushLeaves(c, p.right, scans);
    }
  }

  lemma {:induction false} LeafScan(p: Plan, scans: seq<ScanPlan>, t: string) returns (s: ScanPlan)
    requires WellFormed(p) && LeavesFrom(p, scans) && t in Tables(p)
    ensures s in scans && s.tabName == t && WellFormed(Scan(s))
  {
    match p
    case Scan(x) => s := x;
    case Join(l, r, _) =>
      if t in Tables(l) { s := LeafScan(l, scans, t); } else { s := LeafScan(r, scans, t); }
  }

  /** A correct plan over these scans is only possible for an admissible query. */
  lemma OnlyAdmissible(tables: seq<string>, conds: seq<Condition>, scans: seq<ScanPlan>, p: Plan)
    requires NoDuplicates(tables) && tables != [] && |scans| == |tables|
    requires forall i | 0 <= i < |scans| :: scans[i].tabName == tables[i]
    requires forall c | c in conds && c.lhs.tabName == c.rhsCol.tabName :: c in scans[0].conds
    requires LeavesFrom(p, scans) && Correct(p, tables, conds)
    ensures Admissible(tables, conds)
  {
    assert tables[0] in Tables(p);
    var s := LeafScan(p, scans, tables[0]);
    assert s == scans[0];
    forall c | c in conds
      ensures Within(c, TableSet(tables)) && (c.lhs.tabName == c.rhsCol.tabName ==> c.lhs.tabName == tables[0])
    {
      ClassBagMember(conds, Class(c));
      BagScoped(p, Class(c), c);
      if c in scans[0].conds { assert OnTable(c, tables[0]); }
    }
  }
}
