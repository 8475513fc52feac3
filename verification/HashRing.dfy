/** The consistent hash ring: every node owns fifty points, a room goes to the next point clockwise. */
module HashRing {
  import opened Numerals
  import opened Wrappers

  type Hash = x: int | 0 <= x < 0x1_0000_0000

  const VIRTUAL_NODES: nat := 50

  type HashFunction = string -> Hash

  /** The ring point of a node's i-th virtual node. */
  function Point(hash: HashFunction, node: string, i: nat): Hash {
    hash(node + "#" + Decimal(i))
  }

  /** All points of a node; two virtual nodes may share one. */
  function Points(hash: HashFunction, node: string, n: nat): set<Hash> {
    if n == 0 then {} else Points(hash, node, n - 1) + {Point(hash, node, n - 1)}
  }

  // ---------- Which points these are ----------

  function VirtualKey(node: string, d: string): string {
    node + "#" + d
  }

  /** The hash of the node's name, a hash sign and the decimal numeral of one of 0..49. */
  ghost predicate IsVirtualPoint(hash: HashFunction, node: string, p: Hash) {
    exists d :: IsPointNumeral(d) && p == hash(VirtualKey(node, d))
  }

  predicate IsPointNumeral(d: string) {
    Numeral(d) && Read(d) < 50
  }

  lemma {:induction false} PointsAt(hash: HashFunction, node: string, n: nat, p: Hash)
    ensures p in Points(hash, node, n) <==> exists i :: 0 <= i < n && p == Point(hash, node, i)
  {
    if n > 0 {
      PointsAt(hash, node, n - 1, p);
      if i :| 0 <= i < n && p == Point(hash, node, i) {
        assert i < n - 1 ==> p in Points(hash, node, n - 1);
      }
    }
  }

  lemma PointHasNumeral(hash: HashFunction, node: string, i: nat)
    requires i < 50
    ensures IsVirtualPoint(hash, node, Point(hash, node, i))
  {
    DecimalIsNumeral(i);
    assert IsPointNumeral(Decimal(i)) && Point(hash, node, i) == hash(VirtualKey(node, Decimal(i)));
  }

  lemma NumeralIsPoint(d: string) returns (i: nat)
    requires IsPointNumeral(d)
    ensures i < 50 && Decimal(i) == d
  {
    ReadNotNegative(d);
    i := Read(d);
    DecimalIsNumeral(i);
    NumeralUnique(Decimal(i), d);
  }

  /** A node's points are the hashes of its fifty keys, and no others. */
  lemma PointsAreVirtual(hash: HashFunction, node: string, p: Hash)
    ensures p in Points(hash, node, VIRTUAL_NODES) <==> IsVirtualPoint(hash, node, p)
  {
    PointsAt(hash, node, VIRTUAL_NODES, p);
    if p in Points(hash, node, VIRTUAL_NODES) {
      var i :| 0 <= i < VIRTUAL_NODES && p == Point(hash, node, i);
      PointHasNumeral(hash, node, i);
    }
    if IsVirtualPoint(hash, node, p) {
      var d :| IsPointNumeral(d) && p == hash(VirtualKey(node, d));
      var i := NumeralIsPoint(d);
      assert p == Point(hash, node, i);
    }
  }

  /** The fifty keys of a node are different. */
  lemma KeysDiffer(node: string, i: nat, j: nat)
    requires i < j
    ensures VirtualKey(node, Decimal(i)) != VirtualKey(node, Decimal(j))
  {
    DecimalIsNumeral(i);
    DecimalIsNumeral(j);
    var a, b := VirtualKey(node, Decimal(i)), VirtualKey(node, Decimal(j));
    assert a[|node| + 1..] == Decimal(i);
    assert b[|node| + 1..] == Decimal(j);
  }

  /** The hash tells the first n keys of the node apart. */
  predicate TellsApart(hash: HashFunction, node: string, n: nat) {
    forall i, j | 0 <= i < j < n :: DifferentPoints(hash, node, i, j)
  }

  predicate DifferentPoints(hash: HashFunction, node: string, i: nat, j: nat) {
    Point(hash, node, i) != Point(hash, node, j)
  }

  /** A node has fifty points if and only if its keys do not collide. */
  lemma {:induction false} PointsCounted(hash: HashFunction, node: string, n: nat)
    ensures |Points(hash, node, n)| <= n && (|Points(hash, node, n)| == n <==> TellsApart(hash, node, n))
  {
    hide Point;
    if n > 0 {
      var p := Point(hash, node, n - 1);
      PointsCounted(hash, node, n - 1);
      PointsAt(hash, node, n - 1, p);
      if p in Points(hash, node, n - 1) {
        assert Points(hash, node, n) == Points(hash, node, n - 1);
        var i :| 0 <= i < n - 1 && p == Point(hash, node, i);
        assert !DifferentPoints(hash, node, i, n - 1);
      } else {
        forall i, j | 0 <= i < j < n ensures DifferentPoints(hash, node, i, j) <== TellsApart(hash, node, n - 1) {
        }
        if TellsApart(hash, node, n) { assert TellsApart(hash, node, n - 1); }
      }
    }
  }

  // ---------- Which node owns which point ----------

  type Owners = map<Hash, string>

  /** A node takes over its points, those of other nodes included. */
  function Claim(owners: Owners, points: set<Hash>, node: string): Owners {
    map p | p in owners.Keys + points :: if p in points then node else owners[p]
  }

  lemma ClaimOneMore(owners: Owners, points: set<Hash>, p: Hash, node: string)
    ensures Claim(owners, points + {p}, node) == Claim(owners, points, node)[p := node]
  {
  }

  /** Adding nodes one after another to an empty ring. */
  function Build(hash: HashFunction, nodes: seq<string>): Owners {
    if nodes == [] then map[]
    else
      var last := nodes[|nodes| - 1];
      Claim(Build(hash, nodes[..|nodes| - 1]), Points(hash, last, VIRTUAL_NODES), last)
  }

  // ---------- Routing, by its naive specification ----------

  predicate IsLeast(p: Hash, points: set<Hash>) {
    p in points && forall q | q in points :: p <= q
  }

  function Ahead(points: set<Hash>, h: Hash): set<Hash> {
    set q | q in points && q >= h
  }

  /** The least point at or after h, or the least point of all when there is none. */
  predicate IsSuccessor(p: Hash, points: set<Hash>, h: Hash) {
    IsLeast(p, if Ahead(points, h) != {} then Ahead(points, h) else points)
  }

  lemma {:induction false} LeastExists(points: set<Hash>) returns (p: Hash)
    requires points != {}
    ensures IsLeast(p, points)
  {
    var any :| any in points;
    p := any;
    if points != {any} {
      var q := LeastExists(points - {any});
      p := if q < any then q else any;
    }
    assert forall q | q in points :: q == any || q in points - {any};
  }

  lemma SuccessorExists(points: set<Hash>, h: Hash)
    requires points != {}
    ensures exists p :: IsSuccessor(p, points, h)
  {
    var p := LeastExists(if Ahead(points, h) != {} then Ahead(points, h) else points);
    assert IsSuccessor(p, points, h);
  }

  lemma SuccessorUnique(points: set<Hash>, h: Hash, p: Hash, q: Hash)
    requires IsSuccessor(p, points, h) && IsSuccessor(q, points, h)
    ensures p == q
  {
  }

  ghost function Successor(points: set<Hash>, h: Hash): (p: Hash)
    requires points != {}
    ensures IsSuccessor(p, points, h)
  {
    SuccessorExists(points, h);
    var p :| IsSuccessor(p, points, h);
    p
  }

  ghost function Route(owners: Owners, h: Hash): (node: string)
    requires owners.Keys != {}
    ensures node in owners.Values
  {
    owners[Successor(owners.Keys, h)]
  }

  // ---------- Minimal disruption ----------

  /**
   Adding a node to a non-empty ring changes the route of a hash only to the new node, for every
   hash function and whatever points collide.
   */
  lemma MinimalDisruption(owners: Owners, points: set<Hash>, node: string, h: Hash)
    requires owners.Keys != {}
    ensures Claim(owners, points, node).Keys == owners.Keys + points
    ensures var after := Route(Claim(owners, points, node), h);
            after == Route(owners, h) || after == node
  {
    var before, after := owners.Keys, Claim(owners, points, node).Keys;
    var p, q := Successor(before, h), Successor(after, h);
    if q !in points {
      assert IsSuccessor(q, before, h) by { SuccessorOfFewer(before, after, h, q); }
      SuccessorUnique(before, h, p, q);
    }
  }

  /** The successor among more points is the successor among fewer ones that still contain it. */
  lemma SuccessorOfFewer(few: set<Hash>, many: set<Hash>, h: Hash, q: Hash)
    requires few <= many && q in few && IsSuccessor(q, many, h)
    ensures IsSuccessor(q, few, h)
  {
    assert Ahead(few, h) <= Ahead(many, h);
    if Ahead(many, h) != {} {
      assert q in Ahead(many, h) && q in Ahead(few, h);
    } else {
      assert Ahead(few, h) == {};
    }
  }

  // ---------- Order and repetition ----------

  predicate Disjoint(hash: HashFunction, a: string, b: string) {
    Points(hash, a, VIRTUAL_NODES) !! Points(hash, b, VIRTUAL_NODES)
  }

  ghost predicate NoCollisions(hash: HashFunction, nodes: set<string>) {
    forall a, b | a in nodes && b in nodes && a != b :: Disjoint(hash, a, b)
  }

  function Members(nodes: seq<string>): set<string> {
    set n | n in nodes
  }

  predicate HasPoint(hash: HashFunction, node: string, p: Hash) {
    p in Points(hash, node, VIRTUAL_NODES)
  }

  lemma {:induction false} BuildKeys(hash: HashFunction, nodes: seq<string>, p: Hash)
    ensures p in Build(hash, nodes) <==> exists n :: n in nodes && HasPoint(hash, n, p)
    ensures p in Build(hash, nodes) ==>
              Build(hash, nodes)[p] in nodes && HasPoint(hash, Build(hash, nodes)[p], p)
    decreases |nodes|
  {
    if nodes != [] {
      var front, last := nodes[..|nodes| - 1], nodes[|nodes| - 1];
      BuildKeys(hash, front, p);
      assert nodes == front + [last];
      if HasPoint(hash, last, p) {
        assert last in nodes;
      } else if n :| n in front && HasPoint(hash, n, p) {
        assert n in nodes;
      }
    }
  }

  /** Without collisions between different nodes, only the set of nodes matters. */
  lemma BuildDependsOnSet(hash: HashFunction, a: seq<string>, b: seq<string>)
    requires Members(a) == Members(b) && NoCollisions(hash, Members(a))
    ensures Build(hash, a) == Build(hash, b)
  {
    forall p ensures p in Build(hash, a) <==> p in Build(hash, b) {
      BuildKeys(hash, a, p);
      BuildKeys(hash, b, p);
      assert forall n :: n in a <==> n in Members(a);
      assert forall n :: n in b <==> n in Members(b);
    }
    forall p | p in Build(hash, a) ensures Build(hash, a)[p] == Build(hash, b)[p] {
      BuildKeys(hash, a, p);
      BuildKeys(hash, b, p);
      var x, y := Build(hash, a)[p], Build(hash, b)[p];
      assert x in Members(a) && y in Members(b);
      assert x == y || Disjoint(hash, x, y);
    }
  }

  /** Where a hash is routed after these additions; an empty ring routes nowhere. */
  ghost function RouteAfter(hash: HashFunction, nodes: seq<string>, h: Hash): Option<string> {
    if Build(hash, nodes).Keys == {} then None else Some(Route(Build(hash, nodes), h))
  }

  /** Adding these nodes in any order, and any of them repeatedly, routes every hash alike. */
  ghost predicate OrderIrrelevant(hash: HashFunction, nodes: set<string>) {
    forall a: seq<string>, b: seq<string>, h: Hash | Members(a) == nodes && Members(b) == nodes ::
      RouteAfter(hash, a, h) == RouteAfter(hash, b, h)
  }

  /** A node that was added last gets what is hashed to its points. */
  lemma LastOwnsItsPoints(hash: HashFunction, nodes: seq<string>, last: string, p: Hash)
    requires HasPoint(hash, last, p)
    ensures RouteAfter(hash, nodes + [last], p) == Some(last)
  {
    assert (nodes + [last])[..|nodes|] == nodes;
    var owners := Build(hash, nodes + [last]);
    assert p in owners.Keys && owners[p] == last;
    assert p in Ahead(owners.Keys, p);
    SuccessorUnique(owners.Keys, p, Successor(owners.Keys, p), p);
  }

  /** The node owns just its fifty points, and every other point is as it was. */
  ghost predicate TakesItsPoints(hash: HashFunction, before: Owners, after: Owners, node: string) {
    && (forall p :: p in after && after[p] == node <==> IsVirtualPoint(hash, node, p))
    && (forall p :: !IsVirtualPoint(hash, node, p) ==> (p in after <==> p in before))
    && (forall p :: p in before && !IsVirtualPoint(hash, node, p) ==> after[p] == before[p])
  }

  /** After its addition a node owns its fifty points and nothing else; the rest of the ring stays. */
  lemma LastOwnsExactly(hash: HashFunction, nodes: seq<string>, last: string)
    ensures TakesItsPoints(hash, Build(hash, nodes), Build(hash, nodes + [last]), last)
  {
    assert (nodes + [last])[..|nodes|] == nodes;
    forall p ensures HasPoint(hash, last, p) <==> IsVirtualPoint(hash, last, p)
      ensures p in Build(hash, nodes) && Build(hash, nodes)[p] == last ==> HasPoint(hash, last, p)
    {
      PointsAreVirtual(hash, last, p);
      BuildKeys(hash, nodes, p);
    }
  }

  lemma {:induction false} Listing(nodes: set<string>) returns (list: seq<string>)
    ensures Members(list) == nodes
  {
    list := [];
    if nodes != {} {
      var n :| n in nodes;
      var rest := Listing(nodes - {n});
      list := rest + [n];
      assert forall m :: m in list <==> m in Members(rest) || m == n;
    }
  }

  /** Two nodes that share a point are told apart by which of them comes last. */
  lemma CollisionShows(hash: HashFunction, nodes: set<string>, a: string, b: string)
    requires a in nodes && b in nodes && a != b && !Disjoint(hash, a, b)
    ensures !OrderIrrelevant(hash, nodes)
  {
    var p :| p in Points(hash, a, VIRTUAL_NODES) && p in Points(hash, b, VIRTUAL_NODES);
    hide Points, Build, RouteAfter, Disjoint;
    assert HasPoint(hash, a, p) && HasPoint(hash, b, p);
    var list := Listing(nodes);
    LastOwnsItsPoints(hash, list, a, p);
    LastOwnsItsPoints(hash, list, b, p);
    assert forall n :: n in list <==> n in Members(list);
    var x, y := list + [a], list + [b];
    assert Members(x) == nodes == Members(y);
    assert RouteAfter(hash, x, p) != RouteAfter(hash, y, p);
  }

  /** The condition is exact: order and repetition never matter if and only if no two nodes share a point. */
  lemma OrderIrrelevantIffNoCollisions(hash: HashFunction, nodes: set<string>)
    ensures OrderIrrelevant(hash, nodes) <==> NoCollisions(hash, nodes)
  {
    hide Points, Build, Disjoint, RouteAfter;
    if NoCollisions(hash, nodes) {
      forall a: seq<string>, b: seq<string>, h: Hash | Members(a) == nodes && Members(b) == nodes
        ensures RouteAfter(hash, a, h) == RouteAfter(hash, b, h)
      {
        BuildDependsOnSet(hash, a, b);
        SameBuildSameRoute(hash, a, b, h);
      }
    } else {
      var a, b :| a in nodes && b in nodes && a != b && !Disjoint(hash, a, b);
      CollisionShows(hash, nodes, a, b);
    }
  }

  lemma SameBuildSameRoute(hash: HashFunction, a: seq<string>, b: seq<string>, h: Hash)
    requires Build(hash, a) == Build(hash, b)
    ensures RouteAfter(hash, a, h) == RouteAfter(hash, b, h)
  {
  }

  // ---------- The ring ----------

  ghost predicate Sorted(s: seq<Hash>) {
    forall i, j | 0 <= i < j < |s| :: s[i] <= s[j]
  }

  lemma SortedInsertion(s: seq<Hash>, i: nat, x: Hash)
    requires Sorted(s) && i <= |s|
    requires (i > 0 ==> s[i - 1] <= x) && (i < |s| ==> x <= s[i])
    ensures Sorted(s[..i] + [x] + s[i..])
  {
  }

  /** Inserts one point into a sorted ring. */
  method Insert(s: seq<Hash>, x: Hash) returns (t: seq<Hash>)
    requires Sorted(s)
    ensures Sorted(t) && multiset(t) == multiset(s) + multiset{x}
  {
    var i := |s|;
    while i > 0 && s[i - 1] > x
      invariant 0 <= i <= |s|
      invariant i < |s| ==> s[i] > x
    {
      i := i - 1;
    }
    t := s[..i] + [x] + s[i..];
    SortedInsertion(s, i, x);
    assert s == s[..i] + s[i..];
  }

  method Sort(s: seq<Hash>) returns (t: seq<Hash>)
    ensures Sorted(t) && multiset(t) == multiset(s)
  {
    t := [];
    for i := 0 to |s|
      invariant Sorted(t) && multiset(t) == multiset(s[..i])
    {
      t := Insert(t, s[i]);
      assert s[..i + 1] == s[..i] + [s[i]];
    }
    assert s[..|s|] == s;
  }

  class ConsistentHashRing {
    const hash: HashFunction
    const vNodesFactor: nat
    var ring: seq<Hash>
    var vNodeToNode: Owners
    ghost var added: seq<string>   // the nodes in the order in which they were added

    /** The ring is the sorted list of the owned points, and ownership is what the additions give. */
    ghost predicate Valid()
      reads this
    {
      && vNodesFactor == VIRTUAL_NODES
      && Sorted(ring)
      && (forall p :: p in ring <==> p in vNodeToNode)
      && vNodeToNode == Build(hash, added)
    }

    lemma PointsOwnedByAddedNodes(p: Hash)
      requires Valid() && p in ring
      ensures p in vNodeToNode && vNodeToNode[p] in added
    {
      BuildKeys(hash, added, p);
    }

    constructor (hash: HashFunction, nodes: seq<string>)
      ensures Valid() && this.hash == hash && added == nodes
    {
      this.hash, vNodesFactor := hash, VIRTUAL_NODES;
      ring, vNodeToNode, added := [], map[], [];
      new;
      for i := 0 to |nodes|
        invariant Valid() && this.hash == hash && added == nodes[..i]
      {
        hide TakesItsPoints, Claim, Points;
        AddNode(nodes[i]);
        assert nodes[..i + 1] == nodes[..i] + [nodes[i]];
      }
    }

    method AddNode(node: string)
      requires Valid()
      modifies this
      ensures Valid() && added == old(added) + [node]
      ensures vNodeToNode == Claim(old(vNodeToNode), Points(hash, node, VIRTUAL_NODES), node)
      ensures TakesItsPoints(hash, old(vNodeToNode), vNodeToNode, node)
    {
      ghost var before := added;
      AddPoints(node);
      ghost var unsorted := ring;
      ring := Sort(ring);
      forall p ensures p in ring <==> p in vNodeToNode {
        assert p in ring <==> p in multiset(ring);
        assert p in unsorted <==> p in multiset(unsorted);
      }
      added := added + [node];
      assert added[..|added| - 1] == old(added);
      LastOwnsExactly(hash, before, node);
    }

    /** The loop of AddNode: appends the node's points and takes them over. */
    method AddPoints(node: string)
      requires Valid()
      modifies this`ring, this`vNodeToNode
      ensures vNodeToNode == Claim(old(vNodeToNode), Points(hash, node, VIRTUAL_NODES), node)
      ensures forall p :: p in ring <==> p in vNodeToNode
    {
      assert vNodeToNode == Claim(old(vNodeToNode), {}, node);
      for i := 0 to vNodesFactor
        invariant vNodeToNode == Claim(old(vNodeToNode), Points(hash, node, i), node)
        invariant forall p :: p in ring <==> p in vNodeToNode
      {
        var vHash := hash(node + "#" + Decimal(i));
        ClaimOneMore(old(vNodeToNode), Points(hash, node, i), vHash, node);
        ring := ring + [vHash];
        vNodeToNode := vNodeToNode[vHash := node];
      }
    }

    /** The index of the first point at or after h; the length of the ring if there is none. */
    method Search(h: Hash) returns (idx: nat)
      requires Sorted(ring)
      ensures idx <= |ring|
      ensures forall i | 0 <= i < idx :: ring[i] < h
      ensures forall i | idx <= i < |ring| :: ring[i] >= h
    {
      var low, high := 0, |ring|;
      while low < high
        invariant 0 <= low <= high <= |ring|
        invariant forall i | 0 <= i < low :: ring[i] < h
        invariant forall i | high <= i < |ring| :: ring[i] >= h
      {
        var mid := (low + high) / 2;
        if ring[mid] >= h { high := mid; } else { low := mid + 1; }
      }
      idx := low;
    }

    /** The room's node is the owner of the successor of its hash; an empty ring is an error. */
    method RouteRoom(roomID: string) returns (node: Result<string, string>)
      requires Valid()
      ensures node.Ok? <==> vNodeToNode.Keys != {}
      ensures node.Ok? ==> node.value == Route(vNodeToNode, hash(roomID)) && node.value in added
    {
      if |ring| == 0 {
        return Err("consistent hash ring is empty, no target signaling nodes available");
      }
      assert ring[0] in ring;
      var roomHash := hash(roomID);
      var idx := Search(roomHash);
      if idx == |ring| {
        idx := 0;
      }
      var target := ring[idx];
      assert target in ring;
      ghost var ahead := Ahead(vNodeToNode.Keys, roomHash);
      assert IsSuccessor(target, vNodeToNode.Keys, roomHash) by {
        forall q | q in vNodeToNode.Keys ensures exists i :: 0 <= i < |ring| && ring[i] == q {
          assert q in ring;
        }
        if ring[|ring| - 1] >= roomHash {
          assert target in ahead;
        }
      }
      SuccessorUnique(vNodeToNode.Keys, roomHash, target, Successor(vNodeToNode.Keys, roomHash));
      PointsOwnedByAddedNodes(target);
      return Ok(vNodeToNode[target]);
    }
  }
}
