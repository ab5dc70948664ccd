/**
 The select planner over mutable join nodes: pop_conds, push_conds, pop_scan, get_index_cols and
 make_one_rel.  Scan plans are never changed after construction and are shared; join plans are
 changed in place by push_conds.
 */
module Planner {
  import opened Defs
  import opened Relational
  import opened Planning
  import opened OneRel
  import opened Dropping
  import opened Execution
  import opened Answers
  import opened PlanShape
  import opened Catalog

  datatype Node = NullNode | ScanNode(scan: ScanPlan) | JoinNode(join: JoinPlan)

  class JoinPlan {
    var left: Node
    var right: Node
    var conds: seq<Condition>
    ghost var repr: set<JoinPlan>

    constructor (left: Node, right: Node, conds: seq<Condition>)
      requires Valid(left) && Valid(right) && Footprint(left) !! Footprint(right)
      ensures Valid(JoinNode(this)) && View(JoinNode(this)) == Join(View(left), View(right), conds)
      ensures repr == {this} + Footprint(left) + Footprint(right)
    {
      this.left, this.right, this.conds := left, right, conds;
      repr := {this} + Footprint(left) + Footprint(right);
    }
  }

  class Query {
    var tables: seq<string>
    var conds: seq<Condition>
  }

  // ----- Join trees in the heap -----

  ghost function Footprint(n: Node): set<JoinPlan>
    reads if n.JoinNode? then {n.join} else {}
  {
    if n.JoinNode? then n.join.repr else {}
  }

  ghost predicate Below(n: Node, nodes: set<JoinPlan>)
    reads if n.JoinNode? then {n.join} else {}
  {
    n.JoinNode? ==> n.join in nodes && n.join.repr <= nodes
  }

  ghost predicate Valid(n: Node)
    reads if n.JoinNode? then {n.join} + n.join.repr else {}
    decreases Footprint(n)
  {
    n.JoinNode? ==>
      var j := n.join;
      && j in j.repr
      && (j.left.JoinNode? ==> j.left.join in j.repr) && (j.right.JoinNode? ==> j.right.join in j.repr)
      && Below(j.left, j.repr - {j}) && Below(j.right, j.repr - {j})
      && Footprint(j.left) !! Footprint(j.right)
      && Valid(j.left) && Valid(j.right)
  }

  ghost function View(n: Node): Plan
    requires Valid(n)
    reads if n.JoinNode? then {n.join} + n.join.repr else {}
    decreases Footprint(n)
  {
    match n
    case NullNode => Null
    case ScanNode(s) => Scan(s)
    case JoinNode(j) => Join(View(j.left), View(j.right), j.conds)
  }

  /** push_conds: attach a condition to the right join of the tree, in place. */
  method PushConds(cond: Condition, n: Node) returns (res: int)
    requires Valid(n)
    modifies Footprint(n)
    ensures Valid(n) && Footprint(n) == old(Footprint(n))
    ensures (res, View(n)) == Push(cond, old(View(n)))
    decreases Footprint(n), 1
  {
    match n
    case NullNode => return 0;
    case ScanNode(s) =>
      if s.tabName == cond.lhs.tabName { return 1; }
      else if s.tabName == cond.rhsCol.tabName { return 2; }
      else { return 0; }
    case JoinNode(x) => res := PushJoin(cond, x);
  }

  method PushJoin(cond: Condition, x: JoinPlan) returns (res: int)
    requires Valid(JoinNode(x))
    modifies x.repr
    ensures Valid(JoinNode(x)) && x.repr == old(x.repr)
    ensures (res, View(JoinNode(x))) == Push(cond, old(View(JoinNode(x))))
    decreases x.repr, 0, 1
  {
    var leftRes := PushLeft(cond, x);
    if leftRes == 3 { return 3; }
    var rightRes := PushRight(cond, x);
    if rightRes == 3 { return 3; }
    if leftRes == 0 || rightRes == 0 { return leftRes + rightRes; }
    AddCond(x, if leftRes == 2 then Swap(cond) else cond);
    return 3;
  }

  method PushLeft(cond: Condition, x: JoinPlan) returns (res: int)
    requires Valid(JoinNode(x))
    modifies x.repr
    ensures Valid(JoinNode(x)) && x.repr == old(x.repr)
    ensures var p := old(View(JoinNode(x)));
            && p.Join? && res == Push(cond, p.left).0
            && View(JoinNode(x)) == p.(left := Push(cond, p.left).1)
    decreases x.repr, 0, 0
  {
    ghost var r := View(x.right);
    res := PushConds(cond, x.left);
    assert Valid(x.right) && View(x.right) == r;
  }

  method PushRight(cond: Condition, x: JoinPlan) returns (res: int)
    requires Valid(JoinNode(x))
    modifies x.repr
    ensures Valid(JoinNode(x)) && x.repr == old(x.repr)
    ensures var p := old(View(JoinNode(x)));
            && p.Join? && res == Push(cond, p.right).0
            && View(JoinNode(x)) == p.(right := Push(cond, p.right).1)
    decreases x.repr, 0, 0
  {
    ghost var l := View(x.left);
    res := PushConds(cond, x.right);
    assert Valid(x.left) && View(x.left) == l;
  }

  method AddCond(x: JoinPlan, c: Condition)
    requires Valid(JoinNode(x))
    modifies x`conds
    ensures Valid(JoinNode(x))
    ensures var p := old(View(JoinNode(x)));
            p.Join? && View(JoinNode(x)) == p.(conds := p.conds + [c])
  {
    ghost var l, r := View(x.left), View(x.right);
    x.conds := x.conds + [c];
    assert Valid(x.left) && View(x.left) == l;
    assert Valid(x.right) && View(x.right) == r;
  }

  // ----- Scans -----

  lemma EraseAfter<T>(a: seq<T>, b: seq<T>)
    requires b != []
    ensures (a + b)[..|a|] + (a + b)[|a| + 1..] == a + b[1..]
  {
  }

  lemma StepOver<T>(a: seq<T>, b: seq<T>)
    requires b != []
    ensures a + b == (a + [b[0]]) + b[1..]
  {
  }

  lemma PopNone(conds: seq<Condition>, t: string)
    ensures Popped(conds[..0], t) == [] && Kept(conds[..0], t) == [] && [] + conds[0..] == conds
  {
  }

  /** What one round of the loop sees and leaves, with `k` conditions behind it. */
  lemma PopNext(conds: seq<Condition>, k: nat, t: string)
    requires k < |conds|
    ensures var (kept, rest) := (Kept(conds[..k], t), conds[k..]);
            && (kept + rest)[|kept|] == conds[k]
            && Popped(conds[..k + 1], t) == Popped(conds[..k], t) + (if Pops(conds[k], t) then [conds[k]] else [])
            && Kept(conds[..k + 1], t) == kept + (if Pops(conds[k], t) then [] else [conds[k]])
            && (kept + rest)[..|kept|] + (kept + rest)[|kept| + 1..] == kept + conds[k + 1..]
            && kept + rest == kept + [conds[k]] + conds[k + 1..] && kept + [] == kept && Popped(conds[..k], t) + [] == Popped(conds[..k], t)
  {
    assert conds[..k + 1][..k] == conds[..k] && conds[k..][1..] == conds[k + 1..];
    hide Popped, Kept, Pops;
    EraseAfter(Kept(conds[..k], t), conds[k..]);
    StepOver(Kept(conds[..k], t), conds[k..]);
  }

  /** pop_conds: move the conditions a scan of `t` takes out of the query. */
  method PopConds(query: Query, t: string) returns (solved: seq<Condition>)
    modifies query`conds
    ensures solved == Popped(old(query.conds), t) && query.conds == Kept(old(query.conds), t)
  {
    hide Popped, Kept, Pops;
    ghost var orig := query.conds;
    ghost var k := 0;
    solved := [];
    var it := 0;
    PopNone(orig, t);
    while it < |query.conds|
      invariant 0 <= k <= |orig| && it == |Kept(orig[..k], t)|
      invariant query.conds == Kept(orig[..k], t) + orig[k..]
      invariant solved == Popped(orig[..k], t)
      decreases |orig| - k
    {
      PopNext(orig, k, t);
      if Pops(query.conds[it], t) {
        solved := solved + [query.conds[it]];
        query.conds := query.conds[..it] + query.conds[it + 1..];
      } else {
        it := it + 1;
      }
      k := k + 1;
    }
    assert orig[..k] == orig;
  }

  predicate Indexed(tab: TabMeta) {
    forall x | x in tab.indexes :: x.colNum <= |x.cols|
  }

  /** get_index_cols: whether an index matches the point conditions exactly. */
  method GetIndexCols(catalog: map<string, TabMeta>, t: string, conds: seq<Condition>) returns (found: bool, cols: seq<string>)
    requires t in catalog && Indexed(catalog[t])
    ensures cols == PointCols(t, conds) && AreFixed(t, conds, cols) && (found <==> HasIndex(catalog[t], cols))
  {
    PointColsFixed(t, conds);
    hide AreFixed;
    cols := [];
    for i := 0 to |conds|
      invariant cols == PointCols(t, conds[..i])
    {
      assert conds[..i + 1][..i] == conds[..i];
      if conds[i].isRhsVal && conds[i].op == OpEq && conds[i].lhs.tabName == t {
        cols := cols + [conds[i].lhs.colName];
      }
    }
    assert conds[..|conds|] == conds;
    found := IsIndex(catalog[t], cols);
  }

  /** The scan loop of make_one_rel. */
  method MakeScans(catalog: map<string, TabMeta>, query: Query) returns (scans: seq<ScanPlan>)
    requires forall t | t in query.tables :: t in catalog && Indexed(catalog[t])
    modifies query`conds
    ensures (scans, query.conds) == Scans(catalog, query.tables, old(query.conds), |query.tables|)
  {
    scans := [];
    for i := 0 to |query.tables|
      invariant (scans, query.conds) == Scans(catalog, query.tables, old(query.conds), i)
    {
      var t := query.tables[i];
      var conds := PopConds(query, t);
      var found, cols := GetIndexCols(catalog, t, conds);
      var scan := if found then ScanPlan(IndexScan, t, conds, cols) else ScanPlan(SeqScan, t, conds, []);
      scans := scans + [scan];
    }
  }

  // ----- Joins -----

  /** pop_scan: find the scan of a table, mark it used and record the table as joined. */
  method PopScan(flags: array<int>, table: string, joined: seq<string>, scans: seq<ScanPlan>, ghost p: Plan)
      returns (node: Node, joined': seq<string>)
    requires flags.Length == |scans|
    modifies flags
    ensures !node.JoinNode? && View(node) == PoppedScan(scans, table)
    ensures Build(p, flags[..], joined') == MarkUsed(Build(p, old(flags[..]), joined), scans, table)
  {
    for i := 0 to |scans|
      invariant forall j | 0 <= j < i :: scans[j].tabName != table
      invariant flags[..] == old(flags[..])
    {
      if scans[i].tabName == table {
        flags[i] := 1;
        return ScanNode(scans[i]), joined + [table];
      }
    }
    return NullNode, joined;
  }

  method NewJoin(left: Node, right: Node, conds: seq<Condition>) returns (node: Node)
    requires Valid(left) && Valid(right) && Footprint(left) !! Footprint(right)
    ensures Valid(node) && View(node) == Join(View(left), View(right), conds)
    ensures fresh(Footprint(node) - Footprint(left) - Footprint(right))
  {
    var join := new JoinPlan(left, right, conds);
    node := JoinNode(join);
  }

  method AttachScans(node: Node, left: Node, right: Node, needReverse: bool, c: Condition) returns (node': Node)
    requires Valid(node) && !left.JoinNode? && !right.JoinNode?
    modifies Footprint(node)
    ensures Valid(node') && fresh(Footprint(node') - old(Footprint(node)))
    ensures View(node') == Attach(old(View(node)), View(left), View(right), needReverse, c)
  {
    hide Push, Valid;
    if left != NullNode && right != NullNode {
      var pair := NewJoin(left, right, [c]);
      node' := NewJoin(pair, node, []);
    } else if left != NullNode || right != NullNode {
      node' := NewJoin(if needReverse then right else left, node, [if needReverse then Swap(c) else c]);
    } else {
      var _ := PushConds(c, node);
      node' := node;
    }
  }

  /** One round of the loop that places the remaining conditions. */
  method PlaceCond(scans: seq<ScanPlan>, flags: array<int>, node: Node, joined: seq<string>, c: Condition)
      returns (node': Node, joined': seq<string>)
    requires flags.Length == |scans| && Valid(node)
    modifies flags, Footprint(node)
    ensures Valid(node') && fresh(Footprint(node') - old(Footprint(node)))
    ensures Build(View(node'), flags[..], joined') == Place(Build(old(View(node)), old(flags[..]), joined), scans, c)
  {
    hide Attach, FindScan, PoppedScan, MarkUsed;
    ghost var p := View(node);
    var left, right, needReverse := NullNode, NullNode, false;
    joined' := joined;
    if c.lhs.tabName !in joined' {
      left, joined' := PopScan(flags, c.lhs.tabName, joined', scans, p);
    }
    if c.rhsCol.tabName !in joined' {
      right, joined' := PopScan(flags, c.rhsCol.tabName, joined', scans, p);
      needReverse := true;
    }
    assert Valid(node) && View(node) == p;
    node' := AttachScans(node, left, right, needReverse, c);
  }

  /** The joins along conditions: the first condition's two scans, then every further condition. */
  method JoinByConds(scans: seq<ScanPlan>, conds: seq<Condition>) returns (node: Node, flags: array<int>)
    requires scans != []
    ensures Valid(node) && fresh(Footprint(node)) && fresh(flags) && flags.Length == |scans|
    ensures View(node) == JoinTree(scans, conds).plan && flags[..] == JoinTree(scans, conds).flags
  {
    flags := new int[|scans|](_ => -1);
    assert flags[..] == seq(|scans|, _ => -1);
    if conds == [] {
      node := ScanNode(scans[0]);
      flags[0] := 1;
    } else {
      var joined := seq(|scans|, _ => "");
      var left, right;
      left, joined := PopScan(flags, conds[0].lhs.tabName, joined, scans, Null);
      right, joined := PopScan(flags, conds[0].rhsCol.tabName, joined, scans, Null);
      node := NewJoin(left, right, [conds[0]]);
      var rest := conds[1..];
      assert Build(View(node), flags[..], joined) == Start(InitialBuild(|scans|), scans, conds[0]);
      hide Place, Start;
      while rest != []
        invariant Valid(node) && fresh(Footprint(node))
        invariant PlaceAll(Build(View(node), flags[..], joined), scans, rest) == JoinTree(scans, conds)
        decreases rest
      {
        node, joined := PlaceCond(scans, flags, node, joined, rest[0]);
        rest := rest[1..];
      }
    }
  }

  method BuildPlan(catalog: map<string, TabMeta>, query: Query) returns (node: Node)
    requires query.tables != [] && forall t | t in query.tables :: t in catalog && Indexed(catalog[t])
    modifies query`conds
    ensures Valid(node) && fresh(Footprint(node))
    ensures View(node) == PlanOf(catalog, query.tables, old(query.conds))
  {
    var scans := MakeScans(catalog, query);
    if |query.tables| == 1 { return ScanNode(scans[0]); }
    var conds := query.conds;
    query.conds := [];
    var flags;
    node, flags := JoinByConds(scans, conds);
    node := CrossUnused(node, scans, flags);
  }

  /** The cross joins with the scans no condition used. */
  method CrossUnused(node: Node, scans: seq<ScanPlan>, flags: array<int>) returns (node': Node)
    requires Valid(node) && flags.Length == |scans|
    ensures Valid(node') && fresh(Footprint(node') - Footprint(node))
    ensures View(node') == CrossRest(View(node), scans, flags[..], 0)
  {
    hide Valid;
    node' := node;
    for i := 0 to |scans|
      invariant Valid(node') && fresh(Footprint(node') - Footprint(node))
      invariant CrossRest(View(node'), scans, flags[..], i) == CrossRest(View(node), scans, flags[..], 0)
    {
      if flags[i] == -1 { node' := NewScanJoin(scans[i], node'); }
    }
  }

  method NewScanJoin(scan: ScanPlan, right: Node) returns (node: Node)
    requires Valid(right)
    ensures Valid(node) && View(node) == Join(Scan(scan), View(right), [])
    ensures fresh(Footprint(node) - Footprint(right))
  {
    node := NewJoin(ScanNode(scan), right, []);
  }

  /**
   make_one_rel: a correct plan exactly for the admissible queries, an executable one exactly when no condition breaks
   it. Over distinct tables the rows of an executable plan are known on every database, and with them when the plan
   answers the query. Scans use an index exactly where one matches, and the tables stand in the order the query asks for.
   */
  method MakeOneRel(catalog: map<string, TabMeta>, query: Query) returns (node: Node)
    requires forall t | t in query.tables :: t in catalog && Indexed(catalog[t])
    requires Plannable(catalog, query.tables, query.conds)
    modifies query`conds
    ensures Valid(node) && fresh(Footprint(node))
    ensures Correct(View(node), query.tables, old(query.conds)) <==> Admissible(query.tables, old(query.conds))
    ensures Executable(View(node)) <==> CanRun(catalog, query.tables, old(query.conds))
    ensures forall s | s in LeafScans(View(node)) :: s.tabName in catalog && ScanRight(catalog[s.tabName], s)
    ensures Admissible(query.tables, old(query.conds)) ==> Order(View(node)) == QueryOrder(query.tables, old(query.conds))
    ensures NoDuplicates(query.tables) ==> forall db :: RowsAre(db, View(node), query.tables, old(query.conds))
    ensures NoDuplicates(query.tables) ==> forall db :: RightExactly(db, catalog, View(node), query.tables, old(query.conds))
  {
    CorrectIffAdmissible(catalog, query.tables, query.conds);
    ExecutableIff(catalog, query.tables, query.conds);
    if NoDuplicates(query.tables) { RowsEverywhere(catalog, query.tables, query.conds); }
    PlanScans(catalog, query.tables, query.conds);
    if Admissible(query.tables, query.conds) { PlanOrder(catalog, query.tables, query.conds); }
    hide PlanOf, RowsAre, RightExactly, Executable, CanRun, Correct, Admissible, NoDuplicates, Plannable, ScanRight, QueryOrder;
    node := BuildPlan(catalog, query);
  }
}
