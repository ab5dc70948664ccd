/**
 Maximum bipartite matching: depth-first augmentation from each left node once, with `left` and
 `right` kept mutually inverse.
 */
module Matching {

  const UNUSED := -1

  /** Which element (left) each matcher (right) accepts. */
  datatype MatchMatrix = MatchMatrix(lhsSize: nat, rhsSize: nat, edges: set<(int, int)>) {
    predicate HasEdge(l: int, r: int) { (l, r) in edges }
  }

  // ----- Matchings -----

  /** A set of edges no two of which share an end. */
  ghost predicate IsMatching(g: MatchMatrix, m: set<(int, int)>) {
    && (forall e | e in m :: 0 <= e.0 < g.lhsSize && 0 <= e.1 < g.rhsSize && g.HasEdge(e.0, e.1))
    && forall e, f | e in m && f in m && (e.0 == f.0 || e.1 == f.1) :: e == f
  }

  /** The two vectors describe one matching: mutually referent along edges, or unused. */
  ghost predicate Consistent(g: MatchMatrix, left: seq<int>, right: seq<int>) {
    && |left| == g.lhsSize && |right| == g.rhsSize
    && (forall l | 0 <= l < |left| && left[l] != UNUSED :: 0 <= left[l] < |right| && right[left[l]] == l && g.HasEdge(l, left[l]))
    && (forall r | 0 <= r < |right| && right[r] != UNUSED :: 0 <= right[r] < |left| && left[right[r]] == r)
  }

  /** Right nodes that are all matched, and whose mates have no edge leading out of the set. */
  ghost predicate Closed(g: MatchMatrix, right: seq<int>, s: set<int>) {
    && |right| == g.rhsSize
    && forall r | r in s :: 0 <= r < |right| && right[r] != UNUSED && Absorbs(g, s, right[r])
  }

  ghost predicate Absorbs(g: MatchMatrix, s: set<int>, l: int) {
    forall r | 0 <= r < g.rhsSize && g.HasEdge(l, r) :: r in s
  }

  ghost function Marked(seen: seq<bool>): set<int> {
    set r | 0 <= r < |seen| && seen[r]
  }

  ghost function Unseen(seen: seq<bool>): set<int> {
    set r | 0 <= r < |seen| && !seen[r]
  }

  /** What a failed search leaves: nothing reachable from `l` is free, and all of it is marked. */
  ghost predicate DeadEnd(g: MatchMatrix, right: seq<int>, seen: seq<bool>, seen': seq<bool>) {
    && |seen| == |seen'| == |right|
    && (forall r | 0 <= r < |seen| && seen[r] :: seen'[r])
    && (forall r | 0 <= r < |seen| && seen'[r] && !seen[r] :: right[r] != UNUSED && Absorbs(g, Marked(seen'), right[r]))
  }

  /** The pass has come to left node `l`: a matching, and a closed set that absorbs the nodes left unmatched. */
  ghost predicate Passed(g: MatchMatrix, left: seq<int>, right: seq<int>, l: int, s: set<int>) {
    && Consistent(g, left, right) && Closed(g, right, s)
    && (forall k | 0 <= k < |left| && l <= k :: left[k] == UNUSED)
    && (forall k | 0 <= k < |left| && k < l && left[k] == UNUSED :: Absorbs(g, s, k))
  }

  lemma DeadEndPassed(g: MatchMatrix, left: seq<int>, right: seq<int>, l: int, s: set<int>, seen: seq<bool>)
    requires Passed(g, left, right, l, s)
    requires DeadEnd(g, right, seq(|right|, _ => false), seen) && Absorbs(g, Marked(seen), l)
    ensures Passed(g, left, right, l + 1, s + Marked(seen))
  {
    var s' := s + Marked(seen);
    assert forall k | Absorbs(g, s, k) :: Absorbs(g, s', k);
    assert forall k | Absorbs(g, Marked(seen), k) :: Absorbs(g, s', k);
  }

  /**
   What a successful search leaves.  `l` has a new partner; if it had one before, that right node
   still points at `l` and waits for the caller to repoint it.  No other left node gains or loses a
   partner, and nothing that was marked before the call, or lies in the closed set `s`, is touched.
   */
  ghost predicate Rerouted(g: MatchMatrix, left: seq<int>, right: seq<int>, left': seq<int>, right': seq<int>,
                           l: int, seen: seq<bool>, s: set<int>)
  {
    && |left| == |left'| == g.lhsSize && |right| == |right'| == |seen| == g.rhsSize && 0 <= l < |left|
    && 0 <= left'[l] < |seen| && !seen[left'[l]]
    && (forall k | 0 <= k < |left| && left'[k] != UNUSED ::
          0 <= left'[k] < |right| && right'[left'[k]] == k && g.HasEdge(k, left'[k]))
    && (forall r | 0 <= r < |right| && right'[r] != UNUSED ::
          0 <= right'[r] < |left| && (left'[right'[r]] == r || (r == left[l] && right'[r] == l)))
    && (forall k | 0 <= k < |left| && k != l :: left'[k] == UNUSED <==> left[k] == UNUSED)
    && (forall r | 0 <= r < |right| && seen[r] :: right'[r] == right[r])
    && (forall k | 0 <= k < |left| && k != l && 0 <= left[k] < |seen| && seen[left[k]] :: left'[k] == left[k])
    && (forall r | 0 <= r < |right| && r in s :: right'[r] == right[r])
  }

  lemma TakeFree(g: MatchMatrix, left: seq<int>, right: seq<int>, l: int, r: int, seen: seq<bool>, s: set<int>)
    requires Consistent(g, left, right) && Closed(g, right, s) && |seen| == |right|
    requires 0 <= l < |left| && 0 <= r < |right| && g.HasEdge(l, r) && !seen[r] && right[r] == UNUSED
    ensures Rerouted(g, left, right, left[l := r], right[r := l], l, seen, s) && !Absorbs(g, s, l)
  {
  }

  lemma TakeFreed(g: MatchMatrix, left: seq<int>, right: seq<int>, left1: seq<int>, right1: seq<int>,
                  l: int, r: int, seen: seq<bool>, seen1: seq<bool>, s: set<int>)
    requires Consistent(g, left, right) && Closed(g, right, s) && |seen| == |right|
    requires 0 <= l < |left| && 0 <= r < |right| && g.HasEdge(l, r) && !seen[r] && right[r] != UNUSED
    requires left[l] == UNUSED || seen[left[l]]
    requires Rerouted(g, left, right, left1, right1, right[r], seen1, s) && !Absorbs(g, s, right[r])
    requires seen1[r] && forall k | 0 <= k < |seen| && seen[k] :: seen1[k]
    ensures Rerouted(g, left, right, left1[l := r], right1[r := l], l, seen, s) && !Absorbs(g, s, l)
  {
    assert r !in s;
    assert l != right[r] && left1[l] == left[l];
  }

  // ----- The algorithm -----

  class MatchState {
    const graph: MatchMatrix
    const left: array<int>
    const right: array<int>

    ghost predicate Shaped() {
      left.Length == graph.lhsSize && right.Length == graph.rhsSize && left != right
    }

    constructor (graph: MatchMatrix)
      ensures this.graph == graph && Shaped() && fresh(left) && fresh(right)
      ensures (forall l | 0 <= l < left.Length :: left[l] == UNUSED) && (forall r | 0 <= r < right.Length :: right[r] == UNUSED)
    {
      this.graph := graph;
      left := new int[graph.lhsSize](_ => UNUSED);
      right := new int[graph.rhsSize](_ => UNUSED);
    }

    /** Search for a free right node from `l`, moving partners along the way if one is found. */
    method TryAugment(l: int, seen: array<bool>, ghost s: set<int>) returns (found: bool)
      requires Shaped() && seen.Length == right.Length && 0 <= l < left.Length
      requires Consistent(graph, left[..], right[..]) && Closed(graph, right[..], s)
      requires left[l] == UNUSED || seen[left[l]]
      modifies left, right, seen
      ensures !found ==> left[..] == old(left[..]) && right[..] == old(right[..])
      ensures !found ==> DeadEnd(graph, right[..], old(seen[..]), seen[..]) && Absorbs(graph, Marked(seen[..]), l)
      ensures found ==> Rerouted(graph, old(left[..]), old(right[..]), left[..], right[..], l, old(seen[..]), s)
      ensures found ==> !Absorbs(graph, s, l)
      decreases Unseen(seen[..])
    {
      ghost var left0, right0, seen0 := left[..], right[..], seen[..];
      for r := 0 to right.Length
        invariant left[..] == left0 && right[..] == right0
        invariant DeadEnd(graph, right0, seen0, seen[..])
        invariant forall k | 0 <= k < r && graph.HasEdge(l, k) :: seen[k]
      {
        if seen[r] { continue; }
        if !graph.HasEdge(l, r) { continue; }
        ghost var before := seen[..];
        seen[r] := true;
        ghost var seen1 := seen[..];
        assert seen1 == before[r := true];
        if right[r] == UNUSED {
          TakeFree(graph, left0, right0, l, r, seen0, s);
          left[l], right[r] := r, l;
          return true;
        }
        assert r in Unseen(seen0) && Unseen(seen1) <= Unseen(seen0);
        var freed := TryAugment(right[r], seen, s);
        if freed {
          TakeFreed(graph, left0, right0, left[..], right[..], l, r, seen0, seen1, s);
          left[l], right[r] := r, l;
          return true;
        }
        DeadEndGrows(graph, right0, seen0, before, r, seen[..]);
      }
      return false;
    }

    /** One pass over the left nodes; the pairs found form a matching, and no matching is larger. */
    method Compute() returns (pairs: seq<(int, int)>)
      requires Shaped()
      requires (forall l | 0 <= l < left.Length :: left[l] == UNUSED) && (forall r | 0 <= r < right.Length :: right[r] == UNUSED)
      modifies left, right
      ensures Consistent(graph, left[..], right[..]) && pairs == PairsOf(left[..], left.Length)
      ensures IsMatching(graph, Elements(pairs)) && |Elements(pairs)| == |pairs|
      ensures forall m | IsMatching(graph, m) :: |m| <= |pairs|
    {
      ghost var s: set<int> := {};
      assert Passed(graph, left[..], right[..], 0, s);
      hide Consistent, Closed, Absorbs, DeadEnd, Rerouted, IsMatching, Marked;
      for l := 0 to left.Length
        invariant Passed(graph, left[..], right[..], l, s)
      {
        ghost var left0, right0 := left[..], right[..];
        var seen := new bool[right.Length](_ => false);
        assert seen[..] == seq(right.Length, _ => false);
        var found := TryAugment(l, seen, s);
        if found {
          AugmentKeeps(graph, left0, right0, left[..], right[..], l, s);
        } else {
          DeadEndPassed(graph, left0, right0, l, s, seen[..]);
          s := s + Marked(seen[..]);
        }
      }
      pairs := [];
      for l := 0 to left.Length
        invariant pairs == PairsOf(left[..], l)
      {
        if left[l] != UNUSED { pairs := pairs + [(l, left[l])]; }
      }
      PairsMatching(graph, left[..], right[..], left.Length);
      forall m | IsMatching(graph, m) ensures |m| <= |pairs| { CoverBounds(graph, left[..], right[..], s, m); }
    }
  }

  // ----- Why one pass suffices -----

  lemma AugmentKeeps(g: MatchMatrix, left: seq<int>, right: seq<int>, left': seq<int>, right': seq<int>, l: int, s: set<int>)
    requires Consistent(g, left, right) && Closed(g, right, s) && 0 <= l < |left| && left[l] == UNUSED
    requires Rerouted(g, left, right, left', right', l, seq(|right|, _ => false), s)
    ensures Consistent(g, left', right') && Closed(g, right', s)
    ensures left'[l] != UNUSED && forall k | 0 <= k < |left| && k != l :: left'[k] == UNUSED <==> left[k] == UNUSED
  {
  }

  function PairsOf(left: seq<int>, n: nat): seq<(int, int)>
    requires n <= |left|
  {
    if n == 0 then [] else PairsOf(left, n - 1) + if left[n - 1] != UNUSED then [(n - 1, left[n - 1])] else []
  }

  function Elements(pairs: seq<(int, int)>): set<(int, int)> {
    set e | e in pairs
  }

  lemma {:induction false} PairsElements(left: seq<int>, n: nat)
    requires n <= |left|
    ensures forall e :: e in PairsOf(left, n) <==> 0 <= e.0 < n && left[e.0] != UNUSED && e.1 == left[e.0]
    ensures |Elements(PairsOf(left, n))| == |PairsOf(left, n)|
  {
    if n > 0 {
      PairsElements(left, n - 1);
      var prev, e := PairsOf(left, n - 1), (n - 1, left[n - 1]);
      assert e !in prev;
      if left[n - 1] != UNUSED {
        assert Elements(PairsOf(left, n)) == Elements(prev) + {e};
      } else {
        assert PairsOf(left, n) == prev;
      }
    }
  }

  lemma PairsMatching(g: MatchMatrix, left: seq<int>, right: seq<int>, n: nat)
    requires Consistent(g, left, right) && n <= |left|
    ensures IsMatching(g, Elements(PairsOf(left, n))) && |Elements(PairsOf(left, n))| == |PairsOf(left, n)|
  {
    PairsElements(left, n);
    var m := Elements(PairsOf(left, n));
    forall e, f | e in m && f in m && (e.0 == f.0 || e.1 == f.1) ensures e == f {
      assert right[e.1] == e.0 && right[f.1] == f.0;
    }
  }

  lemma {:induction false} InjectionCard<T, U>(m: set<T>, target: set<U>, f: map<T, U>)
    requires m <= f.Keys && forall x | x in m :: f[x] in target
    requires forall x, y | x in m && y in m && f[x] == f[y] :: x == y
    ensures |m| <= |target|
  {
    if m != {} {
      var x :| x in m;
      InjectionCard(m - {x}, target - {f[x]}, f);
    }
  }

  /**
   The closed set `s` together with the left nodes matched outside it touches every edge, and the
   matching has one pair for each of them; so any other matching maps injectively into it.
   */
  lemma CoverBounds(g: MatchMatrix, left: seq<int>, right: seq<int>, s: set<int>, m: set<(int, int)>)
    requires Consistent(g, left, right) && Closed(g, right, s) && IsMatching(g, m)
    requires forall k | 0 <= k < |left| && left[k] == UNUSED :: Absorbs(g, s, k)
    ensures |m| <= |PairsOf(left, |left|)|
  {
    hide Consistent, Closed, IsMatching, Absorbs, PairsOf, CoverImage, Elements, MatchMatrix.HasEdge;
    MatchingFacts(g, left, right, m);
    PairsElements(left, |left|);
    var target := Elements(PairsOf(left, |left|));
    var f := map e | e in m :: CoverImage(g, left, right, s, e);
    forall e | e in m ensures f[e] in target { CoverIn(g, left, right, s, e); }
    forall x, y | x in m && y in m && f[x] == f[y] ensures x == y { CoverInjective(g, left, right, s, m, x, y); }
    InjectionCard(m, target, f);
  }

  lemma MatchingFacts(g: MatchMatrix, left: seq<int>, right: seq<int>, m: set<(int, int)>)
    requires Consistent(g, left, right) && IsMatching(g, m)
    ensures |left| == g.lhsSize && |right| == g.rhsSize
    ensures forall e | e in m :: 0 <= e.0 < g.lhsSize && 0 <= e.1 < g.rhsSize && g.HasEdge(e.0, e.1)
  {
  }

  function CoverImage(g: MatchMatrix, left: seq<int>, right: seq<int>, s: set<int>, e: (int, int)): (int, int)
    requires |left| == g.lhsSize && |right| == g.rhsSize && 0 <= e.0 < g.lhsSize && 0 <= e.1 < g.rhsSize
  {
    if e.1 in s then (right[e.1], e.1) else (e.0, left[e.0])
  }

  lemma CoverIn(g: MatchMatrix, left: seq<int>, right: seq<int>, s: set<int>, e: (int, int))
    requires Consistent(g, left, right) && Closed(g, right, s)
    requires 0 <= e.0 < g.lhsSize && 0 <= e.1 < g.rhsSize && g.HasEdge(e.0, e.1)
    requires forall k | 0 <= k < |left| && left[k] == UNUSED :: Absorbs(g, s, k)
    ensures CoverImage(g, left, right, s, e) in Elements(PairsOf(left, |left|))
  {
    PairsElements(left, |left|);
    CoverPair(g, left, right, s, e);
    hide PairsOf;
  }

  lemma CoverInjective(g: MatchMatrix, left: seq<int>, right: seq<int>, s: set<int>, m: set<(int, int)>, x: (int, int), y: (int, int))
    requires Consistent(g, left, right) && Closed(g, right, s) && IsMatching(g, m) && x in m && y in m
    requires forall k | 0 <= k < |left| && left[k] == UNUSED :: Absorbs(g, s, k)
    requires CoverImage(g, left, right, s, x) == CoverImage(g, left, right, s, y)
    ensures x == y
  {
    CoverPair(g, left, right, s, x);
    CoverPair(g, left, right, s, y);
    assert x.0 == y.0 || x.1 == y.1;
  }

  /** An edge that leads out of the closed set starts at a left node matched outside it. */
  lemma CoverPair(g: MatchMatrix, left: seq<int>, right: seq<int>, s: set<int>, e: (int, int))
    requires Consistent(g, left, right) && Closed(g, right, s)
    requires 0 <= e.0 < g.lhsSize && 0 <= e.1 < g.rhsSize && g.HasEdge(e.0, e.1)
    requires forall k | 0 <= k < |left| && left[k] == UNUSED :: Absorbs(g, s, k)
    ensures e.1 in s ==> right[e.1] != UNUSED && left[right[e.1]] == e.1
    ensures e.1 !in s ==> left[e.0] != UNUSED && left[e.0] !in s
  {
  }

  lemma DeadEndGrows(g: MatchMatrix, right: seq<int>, seen0: seq<bool>, before: seq<bool>, r: int, after: seq<bool>)
    requires DeadEnd(g, right, seen0, before) && 0 <= r < |right| && right[r] != UNUSED
    requires DeadEnd(g, right, before[r := true], after) && Absorbs(g, Marked(after), right[r])
    ensures DeadEnd(g, right, seen0, after)
  {
    forall k | 0 <= k < |right| && after[k] && !seen0[k] ensures right[k] != UNUSED && Absorbs(g, Marked(after), right[k]) {
      if k != r && before[k] {
        assert Absorbs(g, Marked(before), right[k]);
        assert forall x | x in Marked(before) :: before[r := true][x];
      }
    }
  }

  // ----- FindPairing -----

  function LeftEnds(m: set<(int, int)>): set<int> {
    set e | e in m :: e.0
  }

  function RightEnds(m: set<(int, int)>): set<int> {
    set e | e in m :: e.1
  }

  /** Every left node is in some pair. */
  ghost predicate CoversLeft(g: MatchMatrix, m: set<(int, int)>) {
    Upto(g.lhsSize) <= LeftEnds(m)
  }

  /** Every right node is in some pair. */
  ghost predicate CoversRight(g: MatchMatrix, m: set<(int, int)>) {
    Upto(g.rhsSize) <= RightEnds(m)
  }

  function Upto(n: nat): (s: set<int>)
    ensures |s| == n && forall i :: i in s <==> 0 <= i < n
  {
    if n == 0 then {} else Upto(n - 1) + {n - 1}
  }

  lemma SubsetCard<T>(a: set<T>, b: set<T>)
    requires a <= b
    ensures |a| <= |b| && (|a| == |b| ==> a == b)
  {
    assert b == a + (b - a);
  }

  lemma {:induction false} ImageCard(m: set<(int, int)>, f: map<(int, int), int>, image: set<int>)
    requires m <= f.Keys && image == set e | e in m :: f[e]
    ensures |image| <= |m|
  {
    if m != {} {
      var x :| x in m;
      var rest := set e | e in m - {x} :: f[e];
      ImageCard(m - {x}, f, rest);
      assert image == rest + {f[x]};
    }
  }

  /** A set of pairs with distinct ends below `n` has an end at each of them exactly when it has `n` pairs. */
  lemma EndsFull(m: set<(int, int)>, f: map<(int, int), int>, image: set<int>, n: nat)
    requires m <= f.Keys && image == set e | e in m :: f[e]
    requires forall x, y | x in m && y in m && f[x] == f[y] :: x == y
    requires image <= Upto(n)
    ensures |m| <= n && (Upto(n) <= image <==> |m| >= n)
  {
    InjectionCard(m, image, f);
    ImageCard(m, f, image);
    SubsetCard(image, Upto(n));
    if Upto(n) <= image { assert image == Upto(n); }
  }

  lemma CoversIffSize(g: MatchMatrix, m: set<(int, int)>)
    requires IsMatching(g, m)
    ensures |m| <= g.lhsSize && (CoversLeft(g, m) <==> |m| >= g.lhsSize)
    ensures |m| <= g.rhsSize && (CoversRight(g, m) <==> |m| >= g.rhsSize)
  {
    var f, h := map e | e in m :: e.0, map e | e in m :: e.1;
    assert LeftEnds(m) == set e | e in m :: f[e];
    EndsFull(m, f, LeftEnds(m), g.lhsSize);
    assert RightEnds(m) == set e | e in m :: h[e];
    EndsFull(m, h, RightEnds(m), g.rhsSize);
  }

  /** FindPairing: superset asks for every matcher to be used, subset for every element to be matched, exact for both. */
  method FindPairing(g: MatchMatrix, superset: bool, subset: bool) returns (ok: bool)
    ensures ok <==> exists m :: IsMatching(g, m) && (superset ==> CoversRight(g, m)) && (subset ==> CoversLeft(g, m))
  {
    var state := new MatchState(g);
    var matches := state.Compute();
    ghost var best := Elements(matches);
    CoversIffSize(g, best);
    forall m | IsMatching(g, m)
      ensures |m| <= |matches| && (CoversLeft(g, m) ==> |m| >= g.lhsSize) && (CoversRight(g, m) ==> |m| >= g.rhsSize)
    {
      CoversIffSize(g, m);
    }
    var maxFlow := |matches|;
    if superset && maxFlow < g.rhsSize { return false; }
    if subset && maxFlow < g.lhsSize { return false; }
    return true;
  }
}
