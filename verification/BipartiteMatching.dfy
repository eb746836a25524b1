/**
 The augmenting-path search behind gmock's UnorderedElementsAre.

 The deep fact is that one pass over the left nodes is enough: the right nodes
 visited by a failed search form a "dead" set that is fully matched and closed
 under residual edges, no later search can get through it, and counting the
 left nodes that depend on it bounds every matching of the graph.
 */
module BipartiteMatching {

  /** The value kUnused; size_t(-1) in the source, which is no index of any vector. */
  const UNUSED: int := -1

  /** One row per element (left node), one column per matcher (right node). */
  datatype MatchMatrix = MatchMatrix(rows: seq<seq<bool>>, rhsSize: nat) {
    function LhsSize(): nat { |rows| }

    predicate WellFormed() { forall row :: row in rows ==> |row| == rhsSize }

    predicate HasEdge(l: int, r: int) {
      0 <= l < |rows| && 0 <= r < |rows[l]| && rows[l][r]
    }
  }

  type Graph = g: MatchMatrix | g.WellFormed() witness MatchMatrix([], 0)

  // ----- matchings of a graph, independently of any algorithm

  /** A set of edges no two of which share an element or a matcher. */
  ghost predicate IsMatching(g: Graph, m: set<(int, int)>) {
    && (forall p :: p in m ==> 0 <= p.0 < |g.rows| && 0 <= p.1 < g.rhsSize && g.rows[p.0][p.1])
    && (forall p, q :: p in m && q in m && (p.0 == q.0 || p.1 == q.1) ==> p == q)
  }

  ghost predicate CoversEveryMatcher(g: Graph, m: set<(int, int)>) {
    forall r :: 0 <= r < g.rhsSize ==> r in Matchers(m)
  }

  // ----- the state of the algorithm

  ghost predicate Shape(g: Graph, left: seq<int>, right: seq<int>) {
    && |left| == g.LhsSize() && |right| == g.rhsSize
    && (forall l :: 0 <= l < |left| ==> left[l] == UNUSED || 0 <= left[l] < |right|)
    && (forall r :: 0 <= r < |right| ==> right[r] == UNUSED || 0 <= right[r] < |left|)
  }

  /** left and right refer to each other along edges, except that right[loose] may be stale. */
  ghost predicate Linked(g: Graph, left: seq<int>, right: seq<int>, loose: int) {
    && Shape(g, left, right)
    && (forall l :: 0 <= l < |left| && left[l] != UNUSED ==> g.HasEdge(l, left[l]) && right[left[l]] == l)
    && (forall r :: 0 <= r < |right| && r != loose && right[r] != UNUSED ==> left[right[r]] == r)
  }

  ghost predicate NeighboursIn(g: Graph, l: int, s: set<int>) {
    forall r :: g.HasEdge(l, r) ==> r in s
  }

  /** Every right node of s is taken, by a left node all of whose neighbours are in s. */
  ghost predicate DeadEnd(g: Graph, right: seq<int>, s: set<int>) {
    forall r :: r in s ==> 0 <= r < |right| && right[r] != UNUSED && NeighboursIn(g, right[r], s)
  }

  ghost function Unseen(seen: seq<bool>): set<int> {
    set r | 0 <= r < |seen| && !seen[r]
  }

  ghost function Seen(seen: seq<bool>): set<int> {
    set r | 0 <= r < |seen| && seen[r]
  }

  ghost function MatchedLeft(left: seq<int>): set<int> {
    set l | 0 <= l < |left| && left[l] != UNUSED
  }

  ghost function Elements(m: set<(int, int)>): set<int> { set p | p in m :: p.0 }

  ghost function Matchers(m: set<(int, int)>): set<int> { set p | p in m :: p.1 }

  ghost function PairsOf(left: seq<int>): set<(int, int)> {
    set l | 0 <= l < |left| && left[l] != UNUSED :: (l, left[l])
  }

  // ----- what one search does

  /** A failed search from ilhs: everything visited is taken, and nothing leads out of it. */
  ghost predicate SearchFailed(g: Graph, ilhs: int, right: seq<int>, seen0: seq<bool>, seen1: seq<bool>) {
    && |seen0| == |seen1| == |right| && Seen(seen0) <= Seen(seen1)
    && NeighboursIn(g, ilhs, Seen(seen1))
    && VisitedIsClosed(g, right, seen0, seen1)
  }

  ghost predicate VisitedIsClosed(g: Graph, right: seq<int>, seen0: seq<bool>, seen1: seq<bool>)
    requires |seen0| == |seen1| == |right|
  {
    forall r :: 0 <= r < |right| && seen1[r] && !seen0[r] ==>
      right[r] != UNUSED && NeighboursIn(g, right[r], Seen(seen1))
  }

  /** A successful search from ilhs: ilhs, and no other node, gains a partner; what hangs on
      right nodes visited earlier, or on a dead end, stays put. */
  ghost predicate Augmented(g: Graph, ilhs: int, dead: set<int>, seen0: seq<bool>,
                            left0: seq<int>, right0: seq<int>, left1: seq<int>, right1: seq<int>)
    requires Shape(g, left0, right0) && 0 <= ilhs < |left0| && |seen0| == |right0|
  {
    && Linked(g, left1, right1, left0[ilhs])
    && left1[ilhs] != UNUSED && !seen0[left1[ilhs]]
    && (forall l :: 0 <= l < |left0| && l != ilhs ==> (left1[l] == UNUSED <==> left0[l] == UNUSED))
    && (forall r :: 0 <= r < |right0| && (seen0[r] || r in dead) ==> right1[r] == right0[r])
    && (forall l :: 0 <= l < |left0| && l != ilhs && (left0[l] == UNUSED || seen0[left0[l]]) ==> left1[l] == left0[l])
  }

  /** Linking ilhs to a free right node augments. */
  lemma AugmentDirectly(g: Graph, ilhs: int, irhs: int, dead: set<int>, seen0: seq<bool>, left: seq<int>,
      right: seq<int>)
    requires Linked(g, left, right, UNUSED) && |seen0| == |right| && DeadEnd(g, right, dead)
    requires g.HasEdge(ilhs, irhs) && !seen0[irhs] && right[irhs] == UNUSED
    ensures Augmented(g, ilhs, dead, seen0, left, right, left[ilhs := irhs], right[irhs := ilhs])
  {
  }

  /** Taking irhs over from the left node that held it, once that node found another partner. */
  lemma AugmentThrough(g: Graph, ilhs: int, irhs: int, dead: set<int>, seen0: seq<bool>, entry: seq<bool>,
                       left: seq<int>, right: seq<int>, left1: seq<int>, right1: seq<int>)
    requires Linked(g, left, right, UNUSED) && |seen0| == |entry| == |right|
    requires g.HasEdge(ilhs, irhs) && !seen0[irhs] && irhs !in dead
    requires left[ilhs] == UNUSED || seen0[left[ilhs]]
    requires right[irhs] != UNUSED && entry[irhs]
    requires forall r :: 0 <= r < |right| && seen0[r] ==> entry[r]
    requires Augmented(g, right[irhs], dead, entry, left, right, left1, right1)
    ensures Augmented(g, ilhs, dead, seen0, left, right, left1[ilhs := irhs], right1[irhs := ilhs])
  {
    var x := right[irhs];
    assert left[x] == irhs && x != ilhs && right1[irhs] == x && left1[x] != irhs;
    assert left1[ilhs] == left[ilhs];
    assert forall l :: 0 <= l < |left1| && left1[l] == irhs ==> l == x;
  }

  class MaxBipartiteMatchState {
    const graph: Graph
    var left: seq<int>
    var right: seq<int>
    /** The path marks Compute allocates and TryAugment updates through a pointer. */
    var seen: seq<bool>

    constructor (g: Graph)
      ensures graph == g && seen == []
      ensures left == seq(g.LhsSize(), _ => UNUSED) && right == seq(g.rhsSize, _ => UNUSED)
    {
      graph := g;
      left := seq(g.LhsSize(), _ => UNUSED);
      right := seq(g.rhsSize, _ => UNUSED);
      seen := [];
    }

    /** Depth-first search for an augmenting path from ilhs through unseen right nodes.
        dead is any dead-end set known so far; it plays no part in the computation. */
    method TryAugment(ilhs: int, ghost dead: set<int>) returns (found: bool)
      requires 0 <= ilhs < graph.LhsSize() && |seen| == graph.rhsSize
      requires Linked(graph, left, right, UNUSED)
      requires left[ilhs] == UNUSED || seen[left[ilhs]]
      requires DeadEnd(graph, right, dead)
      modifies this
      ensures |seen| == graph.rhsSize
      ensures !found ==> left == old(left) && right == old(right) && SearchFailed(graph, ilhs, right, old(seen), seen)
      ensures found ==> Augmented(graph, ilhs, dead, old(seen), old(left), old(right), left, right)
      // no search gets out of a dead end
      ensures NeighboursIn(graph, ilhs, dead) ==> !found
      decreases Unseen(seen)
    {
      ghost var seen0, left0, right0 := seen, left, right;
      for irhs := 0 to graph.rhsSize
        invariant left == left0 && right == right0 && |seen| == |seen0|
        invariant Seen(seen0) <= Seen(seen)
        invariant forall r :: 0 <= r < irhs && graph.HasEdge(ilhs, r) ==> r in Seen(seen)
        invariant VisitedIsClosed(graph, right, seen0, seen)
      {
        if seen[irhs] || !graph.HasEdge(ilhs, irhs) { continue; }
        ghost var before := seen;
        seen := seen[irhs := true];
        ghost var entry := seen;
        assert Seen(before) <= Seen(entry);
        assert forall r :: 0 <= r < |right| && seen0[r] ==> r in Seen(entry);
        assert irhs !in Seen(seen0);
        if right[irhs] == UNUSED {
          AugmentDirectly(graph, ilhs, irhs, dead, seen0, left, right);
          left, right := left[ilhs := irhs], right[irhs := ilhs];
          return true;
        }
        assert irhs in Unseen(seen0) && irhs !in Unseen(entry);
        var reached := TryAugment(right[irhs], dead);
        if reached {
          AugmentThrough(graph, ilhs, irhs, dead, seen0, entry, left0, right0, left, right);
          left, right := left[ilhs := irhs], right[irhs := ilhs];
          return true;
        }
        VisitedGrows(graph, right, seen0, before, irhs, entry, seen);
      }
      return false;
    }

    /** The edges of a maximum matching, by element. */
    method Compute() returns (result: seq<(int, int)>)
      requires left == seq(graph.LhsSize(), _ => UNUSED) && right == seq(graph.rhsSize, _ => UNUSED)
      modifies this
      ensures Linked(graph, left, right, UNUSED)
      ensures |result| == |MatchedLeft(left)| && (set p | p in result) == PairsOf(left)
      ensures forall m :: IsMatching(graph, m) ==> |m| <= |result|
    {
      ghost var dead: set<int> := {};
      for ilhs := 0 to graph.LhsSize()
        invariant Linked(graph, left, right, UNUSED)
        invariant forall l :: ilhs <= l < |left| ==> left[l] == UNUSED
        invariant DeadEnd(graph, right, dead)
        invariant forall l :: 0 <= l < ilhs && left[l] == UNUSED ==> NeighboursIn(graph, l, dead)
      {
        seen := seq(graph.rhsSize, _ => false);
        var found := TryAugment(ilhs, dead);
        if !found {
          dead := dead + Seen(seen);
        }
      }
      forall m | IsMatching(graph, m)
        ensures |m| <= |MatchedLeft(left)|
      {
        DeadEndBoundsEveryMatching(graph, left, right, dead, m);
      }
      result := ListPairs(left);
    }
  }

  /** The second loop of Compute: the links of left as a list. */
  method ListPairs(left: seq<int>) returns (result: seq<(int, int)>)
    ensures |result| == |MatchedLeft(left)| && (set p | p in result) == PairsOf(left)
  {
    result := [];
    for ilhs := 0 to |left|
      invariant |result| == |MatchedLeft(left[..ilhs])|
      invariant (set p | p in result) == PairsOf(left[..ilhs])
    {
      MatchedLeftStep(left, ilhs);
      if left[ilhs] != UNUSED {
        result := result + [(ilhs, left[ilhs])];
      }
    }
    assert left[..|left|] == left;
  }

  /** Adding a failed branch through irhs keeps the visited nodes closed. */
  lemma VisitedGrows(g: Graph, right: seq<int>, seen0: seq<bool>, before: seq<bool>, irhs: int, entry: seq<bool>,
      after: seq<bool>)
    requires |seen0| == |before| == |right| && 0 <= irhs < |right| && entry == before[irhs := true]
    requires VisitedIsClosed(g, right, seen0, before)
    requires right[irhs] != UNUSED && SearchFailed(g, right[irhs], right, entry, after)
    ensures VisitedIsClosed(g, right, seen0, after) && Seen(before) <= Seen(after) && irhs in Seen(after)
  {
    assert irhs in Seen(entry);
    assert Seen(before) <= Seen(entry);
    forall r | 0 <= r < |right| && after[r] && !seen0[r]
      ensures right[r] != UNUSED && NeighboursIn(g, right[r], Seen(after))
    {
      if before[r] {
        assert NeighboursIn(g, right[r], Seen(before));
      } else if r != irhs {
        assert !entry[r];
      }
    }
  }

  method FindMaxBipartiteMatching(g: Graph) returns (result: seq<(int, int)>)
    ensures IsMatching(g, set p | p in result) && |set p | p in result| == |result|
    ensures forall m :: IsMatching(g, m) ==> |m| <= |result|
  {
    var state := new MaxBipartiteMatchState(g);
    result := state.Compute();
    LinkedPairsAreAMatching(g, state.left, state.right);
  }

  /** Whether the elements can be assigned so that every matcher is satisfied. */
  method FindPairing(g: Graph) returns (result: bool)
    ensures result <==> exists m :: IsMatching(g, m) && CoversEveryMatcher(g, m)
  {
    var matches := FindMaxBipartiteMatching(g);
    result := |matches| == g.rhsSize;
    CoveringIsFullSize(g, set p | p in matches);
    forall m | IsMatching(g, m) && CoversEveryMatcher(g, m)
      ensures result
    {
      CoveringIsFullSize(g, m);
      MatchingAtMostRhs(g, set p | p in matches);
    }
  }

  // ----- counting

  lemma {:induction false} SubsetSize<T>(a: set<T>, b: set<T>)
    requires a <= b
    ensures |a| <= |b|
    decreases b
  {
    if a != {} {
      var x :| x in a;
      SubsetSize(a - {x}, b - {x});
    }
  }

  lemma Pick<T>(s: set<T>) returns (x: T)
    requires s != {}
    ensures x in s
  {
    x :| x in s;
  }

  /** Edges of a matching, projected to either side, keep their number. */
  lemma {:induction false} ProjectionSize(g: Graph, m: set<(int, int)>)
    requires IsMatching(g, m)
    ensures |Elements(m)| == |m| == |Matchers(m)|
    decreases m
  {
    if m != {} {
      var e :| e in m;
      ProjectionSize(g, m - {e});
      assert Elements(m) == Elements(m - {e}) + {e.0} && e.0 !in Elements(m - {e});
      assert Matchers(m) == Matchers(m - {e}) + {e.1} && e.1 !in Matchers(m - {e});
    }
  }

  ghost predicate Below(i: int, n: nat) { 0 <= i < n }

  ghost function Range(n: nat): set<int> { set i | 0 <= i < n && Below(i, n) }

  lemma {:induction false} RangeSize(n: nat)
    ensures |Range(n)| == n
  {
    if n > 0 {
      RangeSize(n - 1);
      assert Range(n) == Range(n - 1) + {n - 1};
    } else {
      assert Range(0) == {};
    }
  }

  lemma MatchingAtMostRhs(g: Graph, m: set<(int, int)>)
    requires IsMatching(g, m)
    ensures |m| <= g.rhsSize && Matchers(m) <= Range(g.rhsSize)
  {
    forall r | r in Matchers(m) ensures r in Range(g.rhsSize) {
      var p :| p in m && p.1 == r;
    }
    ProjectionSize(g, m);
    SubsetSize(Matchers(m), Range(g.rhsSize));
    RangeSize(g.rhsSize);
  }

  /** A matching covers every matcher exactly when it has as many edges as there are matchers. */
  lemma CoveringIsFullSize(g: Graph, m: set<(int, int)>)
    requires IsMatching(g, m)
    ensures CoversEveryMatcher(g, m) <==> |m| == g.rhsSize
  {
    ProjectionSize(g, m);
    RangeSize(g.rhsSize);
    MatchingAtMostRhs(g, m);
    if Matchers(m) != Range(g.rhsSize) {
      var r :| r in Range(g.rhsSize) && r !in Matchers(m);
      SubsetSize(Matchers(m), Range(g.rhsSize) - {r});
      assert Below(r, g.rhsSize);
    }
  }

  lemma MatchedLeftStep(left: seq<int>, i: nat)
    requires i < |left|
    ensures MatchedLeft(left[..i + 1]) == MatchedLeft(left[..i]) + (if left[i] == UNUSED then {} else {i})
    ensures i !in MatchedLeft(left[..i])
    ensures PairsOf(left[..i + 1]) == PairsOf(left[..i]) + (if left[i] == UNUSED then {} else {(i, left[i])})
  {
    var a, b := left[..i + 1], left[..i];
    assert forall l :: 0 <= l < i ==> a[l] == b[l] == left[l];
    assert a[i] == left[i];
    forall p | p in PairsOf(b) ensures p in PairsOf(a) {
      assert a[p.0] == p.1;
    }
  }

  lemma {:induction false} PairsSize(left: seq<int>)
    ensures |PairsOf(left)| == |MatchedLeft(left)|
    decreases |left|
  {
    if left != [] {
      var i := |left| - 1;
      PairsSize(left[..i]);
      MatchedLeftStep(left, i);
      assert left[..i + 1] == left;
      assert (i, left[i]) !in PairsOf(left[..i]);
    }
  }

  lemma LinkedPairsAreAMatching(g: Graph, left: seq<int>, right: seq<int>)
    requires Linked(g, left, right, UNUSED)
    ensures IsMatching(g, PairsOf(left)) && |PairsOf(left)| == |MatchedLeft(left)|
  {
    PairsSize(left);
  }

  ghost function Holders(right: seq<int>, s: set<int>): set<int>
    requires forall r :: r in s ==> 0 <= r < |right|
  {
    set r | r in s :: right[r]
  }

  /** As many left nodes hold a set of right nodes as there are right nodes in it. */
  lemma {:induction false} HoldersSize(right: seq<int>, s: set<int>)
    requires forall r :: r in s ==> 0 <= r < |right|
    requires forall r, q :: r in s && q in s && right[r] == right[q] ==> r == q
    ensures |Holders(right, s)| == |s|
    decreases s
  {
    if s != {} {
      var x := Pick(s);
      HoldersSize(right, s - {x});
      assert Holders(right, s) == Holders(right, s - {x}) + {right[x]};
    }
  }

  /** The holders of a dead-end set are matched, and there is one for each of its nodes. */
  lemma DeadEndHolders(g: Graph, left: seq<int>, right: seq<int>, dead: set<int>)
    requires Linked(g, left, right, UNUSED) && DeadEnd(g, right, dead)
    ensures forall r :: r in dead ==> 0 <= r < |right|
    ensures Holders(right, dead) <= MatchedLeft(left) && |Holders(right, dead)| == |dead|
  {
    forall r | r in dead ensures left[right[r]] == r {}
    HoldersSize(right, dead);
  }

  /** An edge that ends outside a dead end starts at a matched node that does not hold it. */
  lemma EdgeOutside(g: Graph, left: seq<int>, right: seq<int>, dead: set<int>, l: int, r: int)
    requires Linked(g, left, right, UNUSED) && DeadEnd(g, right, dead)
    requires forall l :: 0 <= l < |left| && left[l] == UNUSED ==> NeighboursIn(g, l, dead)
    requires g.HasEdge(l, r) && r !in dead
    ensures l in MatchedLeft(left) - Holders(right, dead)
  {
  }

  /** If every unmatched left node has all its neighbours in a dead-end set,
      no matching whatsoever is larger than the current one. */
  lemma DeadEndBoundsEveryMatching(g: Graph, left: seq<int>, right: seq<int>, dead: set<int>, m: set<(int, int)>)
    requires Linked(g, left, right, UNUSED)
    requires DeadEnd(g, right, dead)
    requires forall l :: 0 <= l < |left| && left[l] == UNUSED ==> NeighboursIn(g, l, dead)
    requires IsMatching(g, m)
    ensures |m| <= |MatchedLeft(left)|
  {
    DeadEndHolders(g, left, right, dead);
    var free := MatchedLeft(left) - Holders(right, dead);
    forall p | p in m && p.1 !in dead ensures p.0 in free {
      EdgeOutside(g, left, right, dead, p.0, p.1);
    }
    SplitCount(g, m, free, dead);
  }

  /** Edges into a set of matchers, plus edges from a set of elements, count at most the two sizes. */
  lemma SplitCount(g: Graph, m: set<(int, int)>, elements: set<int>, matchers: set<int>)
    requires IsMatching(g, m)
    requires forall p :: p in m ==> p.0 in elements || p.1 in matchers
    ensures |m| <= |elements| + |matchers|
  {
    var inside := set p | p in m && p.1 in matchers;
    var outside := m - inside;
    ProjectionSize(g, inside);
    SubsetSize(Matchers(inside), matchers);
    ProjectionSize(g, outside);
    SubsetSize(Elements(outside), elements);
  }
}
