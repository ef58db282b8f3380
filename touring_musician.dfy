/** The tour of the Touring Musician app: a circular doubly-linked list of points. Every node
    links to its neighbours in both directions, `head` is where a traversal starts, and new
    points go in at the beginning, next to the nearest stop, or (in the unfinished heuristic)
    after the only node. The ring is read from `head` as the ghost sequence `nodes`. */
module TouringMusician {
  import opened Wrappers

  /** android.graphics.Point: a pair of int coordinates. */
  datatype Point = Point(x: int, y: int)

  /** Float.MAX_VALUE, where insertNearest's running minimum starts. */
  const FLOAT_MAX: real := 340282346638528859811704183484516925440.0

  /** A ring node. Its point is fixed at construction; a new node links to itself both ways. */
  class Node {
    const point: Point
    var prev: Node?
    var next: Node?

    constructor (p: Point)
      ensures point == p && prev == this && next == this
    {
      point := p;
      new;
      prev := this;
      next := this;
    }
  }

  /** The index after i in a ring of n nodes. */
  function Succ(i: nat, n: nat): (j: nat)
    requires i < n
    ensures j < n && (j == 0 <==> i == n - 1)
  {
    if i + 1 < n then i + 1 else 0
  }

  /** The index before i in a ring of n nodes. */
  function Pred(i: nat, n: nat): (j: nat)
    requires i < n
    ensures j < n && Succ(j, n) == i
  {
    if i == 0 then n - 1 else i - 1
  }

  ghost predicate Distinct(ns: seq<Node>) {
    forall i, j :: 0 <= i < j < |ns| ==> ns[i] != ns[j]
  }

  lemma DistinctIndex(ns: seq<Node>, i: nat, j: nat)
    requires Distinct(ns) && i < |ns| && j < |ns| && ns[i] == ns[j]
    ensures i == j
  {
  }

  /** Each node's `next` is the one after it in ns and its `prev` the one before it, both
      around the end. */
  ghost predicate Ring(ns: seq<Node>)
    reads ns
  {
    && (forall i {:trigger ns[i].next} :: 0 <= i < |ns| ==> ns[i].next == ns[Succ(i, |ns|)])
    && (forall i {:trigger ns[i].prev} :: 0 <= i < |ns| ==> ns[i].prev == ns[Pred(i, |ns|)])
  }

  /** The points of ns, in order. */
  function PointsOf(ns: seq<Node>): (ps: seq<Point>)
    ensures |ps| == |ns| && forall i :: 0 <= i < |ns| ==> ps[i] == ns[i].point
  {
    seq(|ns|, i requires 0 <= i < |ns| => ns[i].point)
  }

  /** s with x inserted at position k. */
  function InsertAt<T>(s: seq<T>, k: nat, x: T): (r: seq<T>)
    requires k <= |s|
    ensures |r| == |s| + 1 && r[k] == x
    ensures forall i :: 0 <= i < k ==> r[i] == s[i]
    ensures forall i :: k < i < |r| ==> r[i] == s[i - 1]
  {
    assert s == s[..k] + s[k..];
    s[..k] + [x] + s[k..]
  }

  /** Where a node lands in the sequence read from head when it is linked in right before
      the node at index i: before it, or, when i is the head itself, at the end. */
  function Before(i: nat, n: nat): (k: nat)
    requires i < n
    ensures 0 < k <= n
  {
    if i == 0 then n else i
  }

  // ---------------------------------------------------------------------------
  // insertNearest's choice and totalDistance's sum, over the points read from head

  /** j is the node insertNearest links p in front of, having seen the non-head nodes
      [1, k): the first one at minimal distance below Float.MAX_VALUE, or the head when
      none is below it. */
  ghost predicate NearestAmong(ps: seq<Point>, p: Point, dist: (Point, Point) -> real, k: nat, j: nat)
    requires k <= |ps|
  {
    || (j == 0 && forall i :: 1 <= i < k ==> dist(p, ps[i]) >= FLOAT_MAX)
    || (&& 1 <= j < k
        && dist(p, ps[j]) < FLOAT_MAX
        && (forall i :: 1 <= i < k ==> dist(p, ps[j]) <= dist(p, ps[i]))
        && (forall i :: 1 <= i < j ==> dist(p, ps[j]) < dist(p, ps[i])))
  }

  /** The node nearest to p among all non-head nodes, ties going to the first. */
  ghost predicate IsNearest(ps: seq<Point>, p: Point, dist: (Point, Point) -> real, j: nat) {
    j < |ps| && NearestAmong(ps, p, dist, |ps|, j)
  }

  /** There is one nearest choice only. */
  lemma NearestUnique(ps: seq<Point>, p: Point, dist: (Point, Point) -> real, j1: nat, j2: nat)
    requires IsNearest(ps, p, dist, j1) && IsNearest(ps, p, dist, j2)
    ensures j1 == j2
  {
    if j1 != 0 && j2 != 0 {
      var d1, d2 := dist(p, ps[j1]), dist(p, ps[j2]);
    }
  }

  /** A non-head node strictly closer than every other, and within Float.MAX_VALUE, is the
      one chosen. */
  lemma StrictlyNearestChosen(ps: seq<Point>, p: Point, dist: (Point, Point) -> real, j: nat)
    requires 1 <= j < |ps| && dist(p, ps[j]) < FLOAT_MAX
    requires forall i :: 1 <= i < |ps| && i != j ==> dist(p, ps[j]) < dist(p, ps[i])
    ensures IsNearest(ps, p, dist, j)
  {
  }

  /** One more non-head node seen: it becomes the choice exactly when it is strictly closer
      than the running minimum. */
  lemma NearestStep(ps: seq<Point>, p: Point, dist: (Point, Point) -> real, k: nat, j: nat)
    requires 1 <= k < |ps| && j < k && NearestAmong(ps, p, dist, k, j)
    ensures var minD := if j == 0 then FLOAT_MAX else dist(p, ps[j]);
            NearestAmong(ps, p, dist, k + 1, if dist(p, ps[k]) < minD then k else j)
  {
  }

  /** Inserting at the end is appending. */
  lemma InsertAtEnd<T>(s: seq<T>, x: T)
    ensures InsertAt(s, |s|, x) == s + [x]
  {
  }

  /** The length of the edge from the node at index i to the next one. */
  function Edge(ps: seq<Point>, dist: (Point, Point) -> real, i: nat): real
    requires i < |ps|
  {
    dist(ps[i], ps[Succ(i, |ps|)])
  }

  /** The sum of the edges leaving the nodes at indices [lo, hi). */
  function EdgesBetween(ps: seq<Point>, dist: (Point, Point) -> real, lo: nat, hi: nat): real
    requires hi <= |ps|
    decreases hi
  {
    if hi <= lo then 0.0 else EdgesBetween(ps, dist, lo, hi - 1) + Edge(ps, dist, hi - 1)
  }

  /** The closed tour: every edge of the ring. */
  function TourLength(ps: seq<Point>, dist: (Point, Point) -> real): real {
    EdgesBetween(ps, dist, 0, |ps|)
  }

  /** Splitting the edges at an index. */
  lemma {:induction false} EdgesSplit(ps: seq<Point>, dist: (Point, Point) -> real, lo: nat, mid: nat, hi: nat)
    requires lo <= mid <= hi <= |ps|
    ensures EdgesBetween(ps, dist, lo, hi) == EdgesBetween(ps, dist, lo, mid) + EdgesBetween(ps, dist, mid, hi)
    decreases hi
  {
    if hi > mid {
      EdgesSplit(ps, dist, lo, mid, hi - 1);
    }
  }

  /** totalDistance leaves out exactly one edge of the tour, the one leaving head. */
  lemma TotalMissesHeadEdge(ps: seq<Point>, dist: (Point, Point) -> real)
    requires ps != []
    ensures TourLength(ps, dist) == Edge(ps, dist, 0) + EdgesBetween(ps, dist, 1, |ps|)
  {
    EdgesSplit(ps, dist, 0, 1, |ps|);
  }

  // ---------------------------------------------------------------------------
  // The list on the heap

  /** ns with its last element moved to the front. */
  function LastFirst<T>(ns: seq<T>): (rs: seq<T>)
    requires ns != []
    ensures |rs| == |ns| && rs[0] == ns[|ns| - 1]
    ensures forall i :: 1 <= i < |ns| ==> rs[i] == ns[i - 1]
  {
    [ns[|ns| - 1]] + ns[..|ns| - 1]
  }

  /** Moving an appended element to the front. */
  lemma LastFirstAppend<T>(s: seq<T>, x: T)
    ensures LastFirst(s + [x]) == [x] + s
  {
    assert (s + [x])[..|s|] == s;
  }

  /** Putting the last node of a ring first reads the same ring from its predecessor. */
  lemma RotateLastFirst(ns: seq<Node>)
    requires ns != [] && Ring(ns) && Distinct(ns)
    ensures Ring(LastFirst(ns)) && Distinct(LastFirst(ns))
  {
    var n := |ns|;
    var rs := LastFirst(ns);
    if n == 1 {
      assert rs == ns;
    } else {
      RotateNext(ns);
      RotatePrev(ns);
      RotateDistinct(ns);
    }
  }

  lemma RotateNext(ns: seq<Node>)
    requires |ns| > 1 && Ring(ns)
    ensures var rs := LastFirst(ns); forall i :: 0 <= i < |rs| ==> rs[i].next == rs[Succ(i, |rs|)]
  {
    var n := |ns|;
    var rs := LastFirst(ns);
    forall i | 0 <= i < n
      ensures rs[i].next == rs[Succ(i, n)]
    {
      if i == 0 {
        assert rs[0].next == ns[0];
      } else {
        assert rs[i].next == ns[Succ(i - 1, n)];
      }
    }
  }

  lemma RotatePrev(ns: seq<Node>)
    requires |ns| > 1 && Ring(ns)
    ensures var rs := LastFirst(ns); forall i :: 0 <= i < |rs| ==> rs[i].prev == rs[Pred(i, |rs|)]
  {
    var n := |ns|;
    var rs := LastFirst(ns);
    forall i | 0 <= i < n
      ensures rs[i].prev == rs[Pred(i, n)]
    {
      if i == 0 {
        assert rs[0].prev == ns[n - 2];
      } else if i == 1 {
        assert rs[1].prev == ns[n - 1];
      } else {
        assert rs[i].prev == ns[i - 2];
      }
    }
  }

  lemma RotateDistinct(ns: seq<Node>)
    requires ns != [] && Distinct(ns)
    ensures Distinct(LastFirst(ns))
  {
    var n := |ns|;
    var rs := LastFirst(ns);
    forall i, j | 0 <= i < j < n
      ensures rs[i] != rs[j]
    {
      if i == 0 {
        assert rs[j] == ns[j - 1];
      } else {
        assert rs[i] == ns[i - 1] && rs[j] == ns[j - 1];
      }
    }
  }

  class CircularLinkedList {
    var head: Node?
    /** The nodes read from head by following `next`. */
    ghost var nodes: seq<Node>

    ghost predicate Valid()
      reads this, nodes
    {
      && (head == null <==> nodes == [])
      && (nodes != [] ==> head == nodes[0])
      && Distinct(nodes)
      && Ring(nodes)
    }

    /** The points of the tour, read from head. */
    ghost function Points(): seq<Point>
      reads this
    {
      PointsOf(nodes)
    }

    /** The list starts empty. */
    constructor ()
      ensures Valid() && nodes == []
    {
      head := null;
      nodes := [];
    }

    /** insertNode: links `toInsert` in right before `node`, the node at index i; head stays. */
    method InsertNode(toInsert: Node, node: Node, ghost i: nat)
      requires Valid() && i < |nodes| && nodes[i] == node && toInsert !in nodes
      modifies this, nodes, toInsert
      ensures Valid() && head == old(head)
      ensures nodes == InsertAt(old(nodes), Before(i, |old(nodes)|), toInsert)
    {
      ghost var ns := nodes;
      ghost var n := |ns|;
      ghost var t := Pred(i, n);
      var tail := node.prev;

      toInsert.next := node;
      toInsert.prev := tail;

      tail.next := toInsert;
      node.prev := toInsert;

      nodes := InsertAt(ns, Before(i, n), toInsert);
      forall j | 0 <= j < n && j != t
        ensures ns[j].next == ns[Succ(j, n)]
      {
        assert ns[j] != tail && ns[j] != toInsert;
      }
      forall j | 0 <= j < n && j != i
        ensures ns[j].prev == ns[Pred(j, n)]
      {
        assert ns[j] != node && ns[j] != toInsert;
      }
      NextLinks(ns, i, toInsert);
      PrevLinks(ns, i, toInsert);
      DistinctInsert(ns, Before(i, n), toInsert);
    }

    /** insertBeginning: the new point becomes the head, in front of the old ones. */
    method InsertBeginning(p: Point)
      requires Valid()
      modifies this, nodes
      ensures Valid() && fresh(head)
      ensures Points() == [p] + old(Points())
    {
      var node := new Node(p);

      if head != null {
        InsertNode(node, head, 0);
        InsertAtEnd(old(nodes), node);
        LastFirstAppend(old(nodes), node);
        RotateLastFirst(nodes);
        nodes := LastFirst(nodes);
      } else {
        nodes := [node];
      }

      head := node;
      PointsOfCons(node, old(nodes));
    }

    /** totalDistance: the sum of the edges leaving every node but head, so the edge from
        head to its successor is not counted (TotalMissesHeadEdge). An empty list makes the
        read of head.next throw, modelled as None. */
    method TotalDistance(dist: (Point, Point) -> real) returns (total: Option<real>)
      requires Valid()
      ensures total == None <==> Points() == []
      ensures total.Some? ==> total.value == EdgesBetween(Points(), dist, 1, |Points()|)
    {
      if head == null {
        return None;
      }
      ghost var ps := Points();
      ghost var n := |nodes|;
      var sum := 0.0;
      var temp := head.next;
      ghost var k := 1;
      assert temp == nodes[Succ(0, n)];

      while head != temp
        invariant 1 <= k <= n
        invariant temp == nodes[if k < n then k else 0]
        invariant sum == EdgesBetween(ps, dist, 1, k)
        decreases n - k
      {
        assert k == n ==> temp == head;
        assert temp.next == nodes[Succ(k, n)];
        sum := sum + dist(temp.point, temp.next.point);
        temp := temp.next;
        k := k + 1;
      }
      assert nodes[if k < n then k else 0] == nodes[0];
      DistinctIndex(nodes, if k < n then k else 0, 0);
      return Some(sum);
    }

    /** insertNearest: an empty list gets p as head; otherwise p goes right before the
        non-head node nearest to it (the first at the smallest distance below
        Float.MAX_VALUE), or right before head, at the end, when there is none. */
    method InsertNearest(p: Point, dist: (Point, Point) -> real)
      requires Valid()
      modifies this, nodes
      ensures Valid()
      ensures old(head) == null ==> fresh(head) && Points() == [p]
      ensures old(head) != null ==>
                && head == old(head)
                && exists j :: IsNearest(old(Points()), p, dist, j)
                               && Points() == InsertAt(old(Points()), Before(j, |old(Points())|), p)
      ensures |old(Points())| == 1 ==> Points() == old(Points()) + [p]
    {
      var toInsert := new Node(p);
      if head == null {
        head := toInsert;
        nodes := [toInsert];
        return;
      }
      ghost var ps := Points();
      ghost var n := |nodes|;

      var minDistance := FLOAT_MAX;
      var nearest := head;
      ghost var j := 0;
      var temp := head.next;
      ghost var k := 1;
      assert temp == nodes[Succ(0, n)];

      while temp != head
        invariant 1 <= k <= n && j < k
        invariant temp == nodes[if k < n then k else 0]
        invariant nearest == nodes[j]
        invariant minDistance == if j == 0 then FLOAT_MAX else dist(p, ps[j])
        invariant NearestAmong(ps, p, dist, k, j)
        modifies {}
        decreases n - k
      {
        assert k == n ==> temp == head;
        assert temp.point == ps[k];
        NearestStep(ps, p, dist, k, j);
        var distance := dist(p, temp.point);
        if distance < minDistance {
          minDistance := distance;
          nearest := temp;
          j := k;
        }
        assert temp.next == nodes[Succ(k, n)];
        temp := temp.next;
        k := k + 1;
      }
      assert nodes[if k < n then k else 0] == nodes[0];
      DistinctIndex(nodes, if k < n then k else 0, 0);
      InsertNode(toInsert, nearest, j);
      PointsOfInsert(old(nodes), Before(j, n), toInsert);
      assert IsNearest(ps, p, dist, j);
      if n == 1 {
        InsertAtEnd(ps, p);
      }
    }

    /** insertSmallest as far as it is written: an empty list gets p as head, a one-node
        list gets p after that node, and a longer list is left as it is. */
    method InsertSmallest(p: Point)
      requires Valid()
      modifies this, nodes
      ensures Valid()
      ensures old(head) == null ==> fresh(head) && Points() == [p]
      ensures |old(Points())| == 1 ==> head == old(head) && Points() == old(Points()) + [p]
      ensures |old(Points())| >= 2 ==> head == old(head) && nodes == old(nodes)
    {
      var toInsert := new Node(p);

      if head == null {
        head := toInsert;
        nodes := [toInsert];
        return;
      }

      if head.next == head {
        assert nodes[Succ(0, |nodes|)] == nodes[0];
        DistinctIndex(nodes, Succ(0, |nodes|), 0);
        InsertNode(toInsert, head, 0);
        PointsOfInsert(old(nodes), 1, toInsert);
        InsertAtEnd(old(Points()), p);
        return;
      }
      assert |nodes| >= 2;
    }

    /** reset: the list becomes empty. */
    method Reset()
      modifies this
      ensures Valid() && Points() == []
    {
      head := null;
      nodes := [];
    }
  }

  /** After insertNode, each node's `next` is its successor in the new sequence. */
  lemma NextLinks(ns: seq<Node>, i: nat, x: Node)
    requires i < |ns|
    requires var n := |ns|; var t := Pred(i, n);
             && x.next == ns[i] && ns[t].next == x
             && forall j :: 0 <= j < n && j != t ==> ns[j].next == ns[Succ(j, n)]
    ensures var rs := InsertAt(ns, Before(i, |ns|), x);
            forall m :: 0 <= m < |rs| ==> rs[m].next == rs[Succ(m, |rs|)]
  {
    var n := |ns|;
    var k := Before(i, n);
    var rs := InsertAt(ns, k, x);
    forall m | 0 <= m < n + 1
      ensures rs[m].next == rs[Succ(m, n + 1)]
    {
      if m + 1 < k {
        assert rs[m] == ns[m] && Succ(m, n) == m + 1;
      } else if m > k && m < n {
        assert rs[m] == ns[m - 1] && Succ(m - 1, n) == m;
      } else if m > k {
        assert rs[m] == ns[m - 1] && Succ(m - 1, n) == 0;
      }
    }
  }

  /** After insertNode, each node's `prev` is its predecessor in the new sequence. */
  lemma PrevLinks(ns: seq<Node>, i: nat, x: Node)
    requires i < |ns|
    requires var n := |ns|;
             && x.prev == ns[Pred(i, n)] && ns[i].prev == x
             && forall j :: 0 <= j < n && j != i ==> ns[j].prev == ns[Pred(j, n)]
    ensures var rs := InsertAt(ns, Before(i, |ns|), x);
            forall m :: 0 <= m < |rs| ==> rs[m].prev == rs[Pred(m, |rs|)]
  {
    var n := |ns|;
    var k := Before(i, n);
    var rs := InsertAt(ns, k, x);
    forall m | 0 <= m < n + 1
      ensures rs[m].prev == rs[Pred(m, n + 1)]
    {
      if m == 0 && i == 0 {
        assert rs[0] == ns[0] && rs[n] == x;
      } else if m == 0 {
        assert rs[0] == ns[0] && rs[n] == ns[n - 1];
      } else if m < k {
        assert rs[m] == ns[m] && rs[m - 1] == ns[m - 1];
      } else if m == k {
        assert rs[k - 1] == ns[Pred(i, n)];
      } else if m == k + 1 && k == i {
        assert rs[m] == ns[i];
      } else {
        assert rs[m] == ns[m - 1] && rs[m - 1] == ns[m - 2];
      }
    }
  }

  /** Inserting a new node keeps the nodes distinct. */
  lemma DistinctInsert(ns: seq<Node>, k: nat, x: Node)
    requires k <= |ns| && Distinct(ns) && x !in ns
    ensures Distinct(InsertAt(ns, k, x))
  {
    var rs := InsertAt(ns, k, x);
    forall a, b | 0 <= a < b < |rs|
      ensures rs[a] != rs[b]
    {
      if a == k {
        assert rs[b] == ns[b - 1];
      } else if b == k {
        assert rs[a] == ns[a];
      }
    }
  }

  /** The points of a node list with one node in front. */
  lemma PointsOfCons(x: Node, ns: seq<Node>)
    ensures PointsOf([x] + ns) == [x.point] + PointsOf(ns)
  {
    assert ([x] + ns)[1..] == ns;
  }

  /** The points of a node list with one node inserted. */
  lemma PointsOfInsert(ns: seq<Node>, k: nat, x: Node)
    requires k <= |ns|
    ensures PointsOf(InsertAt(ns, k, x)) == InsertAt(PointsOf(ns), k, x.point)
  {
    var a := PointsOf(InsertAt(ns, k, x));
    var b := InsertAt(PointsOf(ns), k, x.point);
    forall m | 0 <= m < |a|
      ensures a[m] == b[m]
    {
      if m < k {
        assert a[m] == InsertAt(ns, k, x)[m].point == ns[m].point;
      } else if m > k {
        assert a[m] == InsertAt(ns, k, x)[m].point == ns[m - 1].point;
      }
    }
  }

  /** The iterator: yields the points from head onwards, following `next`, and stops on
      coming back to head. `index` counts the points yielded so far. */
  class CircularLinkedListIterator {
    const list: CircularLinkedList
    var current: Node?
    ghost var index: nat

    ghost predicate Valid()
      reads this, list, list.nodes
    {
      && list.Valid()
      && index <= |list.nodes|
      && (current == null <==> index == |list.nodes|)
      && (index < |list.nodes| ==> current == list.nodes[index])
    }

    /** The iterator starts at head; on an empty list it has nothing to yield. */
    constructor (list: CircularLinkedList)
      requires list.Valid()
      ensures this.list == list && Valid() && index == 0
    {
      this.list := list;
      current := list.head;
      index := 0;
    }

    /** hasNext: there is a point left exactly when not all have been yielded. */
    function HasNext(): (b: bool)
      requires Valid()
      reads this, list, list.nodes
      ensures b <==> index < |list.nodes|
    {
      current != null
    }

    /** next: the point at the current position; the position moves on, and the iteration
        ends on reaching head again. */
    method Next() returns (p: Point)
      requires Valid() && HasNext()
      modifies this
      ensures Valid() && index == old(index) + 1
      ensures p == list.Points()[old(index)]
    {
      ghost var n := |list.nodes|;
      p := current.point;
      assert current.next == list.nodes[Succ(index, n)];
      current := current.next;
      if current == list.head {
        current := null;
        assert Succ(index, n) == 0 by {
          assert list.nodes[Succ(index, n)] == list.nodes[0];
        }
      }
      index := index + 1;
    }
  }

  /** Iterating a list: the points yielded, in order, are the list's points, each once. */
  method Iterate(list: CircularLinkedList) returns (out: seq<Point>)
    requires list.Valid()
    ensures out == list.Points()
  {
    var it := new CircularLinkedListIterator(list);
    out := [];
    while it.HasNext()
      invariant it.Valid() && it.list == list
      invariant out == list.Points()[..it.index]
      decreases |list.nodes| - it.index
    {
      var p := it.Next();
      out := out + [p];
    }
  }
}
