/** The two walks over the parent graph: ancestors within a bound, descendants without one. */
module Genealogy {

  type GenomeHash = string

  /** One row of `genome_parent`. */
  datatype Edge = Edge(child: GenomeHash, parent: GenomeHash)

  /** A path from a genome toward its parents, one edge a step. */
  ghost predicate Path(edges: set<Edge>, p: seq<GenomeHash>) {
    p != [] && forall i :: 0 <= i < |p| - 1 ==> Edge(p[i], p[i + 1]) in edges
  }

  /** `ancestor` is reached from `g` by a path of exactly `n` edges. */
  ghost predicate Reaches(edges: set<Edge>, g: GenomeHash, ancestor: GenomeHash, n: nat) {
    exists p :: Path(edges, p) && |p| == n + 1 && p[0] == g && p[n] == ancestor
  }

  function Parents(edges: set<Edge>, level: set<GenomeHash>): set<GenomeHash> {
    set e | e in edges && e.child in level :: e.parent
  }

  function Reversed(edges: set<Edge>): set<Edge> {
    set e | e in edges :: Edge(e.parent, e.child)
  }

  /** The working table of the recursive query at depth `n`. */
  function Level(edges: set<Edge>, g: GenomeHash, n: nat): set<GenomeHash> {
    if n == 0 then {g} else Parents(edges, Level(edges, g, n - 1))
  }

  lemma {:induction false} LevelIsReach(edges: set<Edge>, g: GenomeHash, n: nat, x: GenomeHash)
    ensures x in Level(edges, g, n) <==> Reaches(edges, g, x, n)
    decreases n
  {
    if n == 0 {
      if x == g { assert Path(edges, [g]) && [g][0] == x; }
    } else {
      if x in Level(edges, g, n) {
        var e :| e in edges && e.child in Level(edges, g, n - 1) && e.parent == x;
        LevelIsReach(edges, g, n - 1, e.child);
        var p :| Path(edges, p) && |p| == n && p[0] == g && p[n - 1] == e.child;
        var longer := p + [x];
        forall i | 0 <= i < |longer| - 1 ensures Edge(longer[i], longer[i + 1]) in edges {
          if i < n - 1 { assert Edge(p[i], p[i + 1]) in edges; }
        }
        assert Path(edges, longer) && longer[n] == x;
      }
      if Reaches(edges, g, x, n) {
        var p :| Path(edges, p) && |p| == n + 1 && p[0] == g && p[n] == x;
        var shorter := p[..n];
        assert Path(edges, shorter) && shorter[n - 1] == p[n - 1];
        LevelIsReach(edges, g, n - 1, p[n - 1]);
        assert Edge(p[n - 1], p[n]) in edges;
      }
    }
  }

  /** What a walk has collected: every genome of a level, with the depth of that level. */
  type Found = set<(GenomeHash, nat)>

  function AtDepth(level: set<GenomeHash>, n: nat): Found {
    set x | x in level :: (x, n)
  }

  /** Every row the recursive query produces down to depth `n`. */
  function Walked(edges: set<Edge>, g: GenomeHash, n: nat): Found {
    if n == 0 then AtDepth({g}, 0) else Walked(edges, g, n - 1) + AtDepth(Level(edges, g, n), n)
  }

  lemma {:induction false} WalkedHolds(edges: set<Edge>, g: GenomeHash, n: nat, x: GenomeHash, d: nat)
    ensures (x, d) in Walked(edges, g, n) <==> d <= n && x in Level(edges, g, d)
    decreases n
  {
    if n > 0 {
      WalkedHolds(edges, g, n - 1, x, d);
    }
  }

  /** `min(depth) GROUP BY genome_hash`. */
  ghost predicate IsMinimum(found: Found, x: GenomeHash, d: nat) {
    (x, d) in found && forall k: nat :: (x, k) in found ==> d <= k
  }

  /** The iterative evaluation of `genome_ancestors`: the working table is replaced by its parents
      until the bound or nothing is left. */
  method Ancestors(edges: set<Edge>, g: GenomeHash, maxGenerations: nat) returns (found: Found)
    ensures found == Walked(edges, g, maxGenerations)
  {
    found := AtDepth({g}, 0);
    var level := {g};
    for n := 0 to maxGenerations
      invariant level == Level(edges, g, n) && found == Walked(edges, g, n)
    {
      level := Parents(edges, level);
      found := found + AtDepth(level, n + 1);
    }
  }

  /** The ancestor walk returns exactly the genomes within the bound, the starting one included,
      each at its shortest parent distance. */
  lemma AncestorsAreWithinBound(edges: set<Edge>, g: GenomeHash, bound: nat, x: GenomeHash, d: nat)
    ensures IsMinimum(Walked(edges, g, bound), x, d) <==>
            d <= bound && Reaches(edges, g, x, d) && forall k: nat :: Reaches(edges, g, x, k) ==> d <= k
  {
    forall k: nat ensures (x, k) in Walked(edges, g, bound) <==> k <= bound && Reaches(edges, g, x, k) {
      WalkedHolds(edges, g, bound, x, k);
      LevelIsReach(edges, g, k, x);
    }
    assert (x, d) in Walked(edges, g, bound) <==> d <= bound && Reaches(edges, g, x, d);
  }

  // ----- descendants: the same walk over reversed edges, with no bound

  ghost predicate Repeats(p: seq<GenomeHash>) {
    exists i, j :: 0 <= i < j < |p| && p[i] == p[j]
  }

  /** No path from `g` meets a genome twice. */
  ghost predicate AcyclicFrom(edges: set<Edge>, g: GenomeHash) {
    forall p :: Path(edges, p) && p[0] == g ==> !Repeats(p)
  }

  function Nodes(edges: set<Edge>, g: GenomeHash): set<GenomeHash> {
    {g} + set e | e in edges :: e.parent
  }

  lemma {:induction false} DistinctFits(p: seq<GenomeHash>, s: set<GenomeHash>)
    requires !Repeats(p) && forall x :: x in p ==> x in s
    ensures |p| <= |s|
    decreases |p|
  {
    if p != [] {
      var n := |p| - 1;
      var last := p[n];
      assert last in s;
      forall x | x in p[..n] ensures x in s - {last} {
        var i :| 0 <= i < n && p[i] == x;
        assert p[i] != p[n];
      }
      assert !Repeats(p[..n]) by {
        forall i, j | 0 <= i < j < n ensures p[..n][i] != p[..n][j] { assert p[i] != p[j]; }
      }
      DistinctFits(p[..n], s - {last});
    }
  }

  lemma PathStaysInNodes(edges: set<Edge>, p: seq<GenomeHash>, x: GenomeHash)
    requires Path(edges, p) && x in p
    ensures x in Nodes(edges, p[0])
  {
    var i :| 0 <= i < |p| && p[i] == x;
    if i > 0 { assert Edge(p[i - 1], p[i]) in edges; }
  }

  /** On an acyclic graph the levels run out before there are as many as genomes. */
  lemma AcyclicRunsOut(edges: set<Edge>, g: GenomeHash, n: nat)
    requires AcyclicFrom(edges, g) && n >= |Nodes(edges, g)|
    ensures Level(edges, g, n) == {}
  {
    if x :| x in Level(edges, g, n) {
      LevelIsReach(edges, g, n, x);
      var p :| Path(edges, p) && |p| == n + 1 && p[0] == g && p[n] == x;
      forall y | y in p ensures y in Nodes(edges, g) { PathStaysInNodes(edges, p, y); }
      DistinctFits(p, Nodes(edges, g));
    }
  }

  lemma {:induction false} EmptyStaysEmpty(edges: set<Edge>, g: GenomeHash, m: nat, n: nat)
    requires Level(edges, g, m) == {} && m <= n
    ensures Level(edges, g, n) == {}
    decreases n
  {
    if m < n {
      EmptyStaysEmpty(edges, g, m, n - 1);
    }
  }

  lemma SuffixReaches(edges: set<Edge>, p: seq<GenomeHash>, n: nat)
    requires Path(edges, p) && n < |p|
    ensures p[n] in Level(edges, p[0], n)
  {
    var prefix := p[..n + 1];
    assert Path(edges, prefix) && prefix[n] == p[n];
    LevelIsReach(edges, p[0], n, p[n]);
  }

  /** Going round a cycle: from the repeated genome on there is always another level. */
  lemma {:induction false} CycleNeverRunsOut(edges: set<Edge>, p: seq<GenomeHash>, i: nat, j: nat, n: nat)
    requires Path(edges, p) && i < j < |p| && p[i] == p[j]
    ensures exists k :: i <= k < j && p[k] in Level(edges, p[0], i + n)
    decreases n
  {
    if n == 0 {
      SuffixReaches(edges, p, i);
    } else {
      CycleNeverRunsOut(edges, p, i, j, n - 1);
      var k :| i <= k < j && p[k] in Level(edges, p[0], i + (n - 1));
      assert Edge(p[k], p[k + 1]) in edges;
      assert p[k + 1] in Level(edges, p[0], i + n);
      var next := if k + 1 < j then k + 1 else i;
      assert p[next] == p[k + 1];
    }
  }

  ghost predicate RunsOut(edges: set<Edge>, g: GenomeHash) {
    exists n: nat :: Level(edges, g, n) == {}
  }

  /** The unbounded walk comes to an end exactly when no cycle can be reached: rows carry their
      depth, so `UNION` does not cut a cycle short. */
  lemma WalkEndsIffAcyclic(edges: set<Edge>, g: GenomeHash)
    ensures RunsOut(edges, g) <==> AcyclicFrom(edges, g)
  {
    if AcyclicFrom(edges, g) {
      AcyclicRunsOut(edges, g, |Nodes(edges, g)|);
    } else {
      var p :| Path(edges, p) && p[0] == g && Repeats(p);
      var i, j :| 0 <= i < j < |p| && p[i] == p[j];
      forall n: nat ensures Level(edges, g, n) != {} {
        if n <= i {
          SuffixReaches(edges, p, n);
        } else {
          CycleNeverRunsOut(edges, p, i, j, n - i);
        }
      }
    }
  }

  /** The iterative evaluation of `genome_descendants`: the same loop over reversed edges, until
      the working table is empty. */
  method Descendants(edges: set<Edge>, g: GenomeHash) returns (found: Found, depth: nat)
    requires AcyclicFrom(Reversed(edges), g)
    ensures found == Walked(Reversed(edges), g, depth) && Level(Reversed(edges), g, depth) == {}
  {
    var down := Reversed(edges);
    found := AtDepth({g}, 0);
    var level := {g};
    depth := 0;
    while level != {}
      invariant level == Level(down, g, depth) && found == Walked(down, g, depth)
      decreases |Nodes(down, g)| + 1 - depth
    {
      if depth >= |Nodes(down, g)| { AcyclicRunsOut(down, g, depth); }
      level := Parents(down, level);
      depth := depth + 1;
      found := found + AtDepth(level, depth);
    }
  }

  lemma {:induction false} Backwards(p: seq<GenomeHash>) returns (b: seq<GenomeHash>)
    ensures |b| == |p| && forall i :: 0 <= i < |p| ==> b[i] == p[|p| - 1 - i]
  {
    b := seq(|p|, i requires 0 <= i < |p| => p[|p| - 1 - i]);
  }

  lemma ReverseReaches(edges: set<Edge>, g: GenomeHash, x: GenomeHash, n: nat)
    requires Reaches(edges, g, x, n)
    ensures Reaches(Reversed(edges), x, g, n)
  {
    var p :| Path(edges, p) && |p| == n + 1 && p[0] == g && p[n] == x;
    var b := Backwards(p);
    forall i | 0 <= i < |b| - 1 ensures Edge(b[i], b[i + 1]) in Reversed(edges) {
      assert Edge(p[n - i - 1], p[n - i]) in edges;
    }
    assert Path(Reversed(edges), b) && b[0] == x && b[n] == g;
  }

  /** Descent is the converse of ancestry, step count included. */
  lemma DescentIsConverse(edges: set<Edge>, g: GenomeHash, x: GenomeHash, n: nat)
    ensures Reaches(Reversed(edges), g, x, n) <==> Reaches(edges, x, g, n)
  {
    assert Reversed(Reversed(edges)) == edges by {
      forall e | e in edges ensures e in Reversed(Reversed(edges)) {
        assert Edge(e.parent, e.child) in Reversed(edges);
      }
    }
    if Reaches(Reversed(edges), g, x, n) { ReverseReaches(Reversed(edges), g, x, n); }
    if Reaches(edges, x, g, n) { ReverseReaches(edges, x, g, n); }
  }

  /** On an acyclic graph the walk, once its working table is empty, has found exactly the genomes
      that have `g` among their ancestors at any distance, and is closed under children. */
  lemma DescendantsAreComplete(edges: set<Edge>, g: GenomeHash, depth: nat, x: GenomeHash)
    requires Level(Reversed(edges), g, depth) == {}
    ensures var found := Walked(Reversed(edges), g, depth);
      && ((exists d: nat :: (x, d) in found) <==> exists n: nat :: Reaches(edges, x, g, n))
      && forall e: Edge, d: nat :: e in edges && (e.parent, d) in found ==> (e.child, d + 1) in found
  {
    var down := Reversed(edges);
    var found := Walked(down, g, depth);
    forall d: nat ensures (x, d) in found <==> Reaches(edges, x, g, d) {
      WalkedHolds(down, g, depth, x, d);
      LevelIsReach(down, g, d, x);
      DescentIsConverse(edges, g, x, d);
      if d > depth { EmptyStaysEmpty(down, g, depth, d); }
    }
    forall e: Edge, d: nat | e in edges && (e.parent, d) in found ensures (e.child, d + 1) in found {
      WalkedHolds(down, g, depth, e.parent, d);
      assert Edge(e.parent, e.child) in down;
      assert e.child in Level(down, g, d + 1);
      assert d + 1 <= depth by {
        assert d + 1 > depth ==> Level(down, g, d + 1) == {} by {
          if d + 1 > depth { EmptyStaysEmpty(down, g, depth, d + 1); }
        }
      }
      WalkedHolds(down, g, depth, e.child, d + 1);
    }
  }

  /** What the query returns: each descendant once, at the length of the shortest line of descent. */
  lemma DescendantsAreAtShortestDistance(edges: set<Edge>, g: GenomeHash, depth: nat, x: GenomeHash, d: nat)
    requires Level(Reversed(edges), g, depth) == {}
    ensures IsMinimum(Walked(Reversed(edges), g, depth), x, d) <==>
            Reaches(edges, x, g, d) && forall k: nat :: Reaches(edges, x, g, k) ==> d <= k
  {
    var down := Reversed(edges);
    forall k: nat ensures (x, k) in Walked(down, g, depth) <==> Reaches(edges, x, g, k) {
      WalkedHolds(down, g, depth, x, k);
      LevelIsReach(down, g, k, x);
      DescentIsConverse(edges, g, x, k);
      if k > depth { EmptyStaysEmpty(down, g, depth, k); }
    }
  }
}
