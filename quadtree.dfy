/** The region quadtree over locations: a node keeps up to four points of its closed
    rectangle and, once it holds more, splits at the midpoint into four quadrants (NW, NE,
    SW, SE) and hands its points down. Nodes are values here; an insertion returns the
    updated node. */
module QuadTrees {
  import opened Types

  const Capacity: nat := 4

  datatype Rect = Rect(minX: real, minY: real, maxX: real, maxY: real)

  datatype Node = Node(rect: Rect, points: seq<Location>, children: Children)

  /** Either no children or all four, in the order NW, NE, SW, SE. */
  datatype Children = Leaf | Split(nw: Node, ne: Node, sw: Node, se: Node)

  /** QuadNode::contains: the closed rectangle, boundary included. */
  predicate Contains(r: Rect, x: real, y: real)
  {
    x >= r.minX && x <= r.maxX && y >= r.minY && y <= r.maxY
  }

  /** The rectangle of child `i` made by subdivide, split at the midpoint. */
  function Quadrant(r: Rect, i: nat): Rect
    requires i < 4
  {
    var midX := (r.minX + r.maxX) / 2.0;
    var midY := (r.minY + r.maxY) / 2.0;
    if i == 0 then Rect(r.minX, midY, midX, r.maxY)
    else if i == 1 then Rect(midX, midY, r.maxX, r.maxY)
    else if i == 2 then Rect(r.minX, r.minY, midX, midY)
    else Rect(midX, r.minY, r.maxX, midY)
  }

  /** The boundary belongs to the rectangle: every corner of a non-empty rectangle is in it,
      and a point just outside an edge is not. */
  lemma BoundaryIncluded(r: Rect, x: real, y: real)
    requires r.minX <= r.maxX && r.minY <= r.maxY
    ensures Contains(r, r.minX, r.minY) && Contains(r, r.maxX, r.maxY)
    ensures Contains(r, r.minX, r.maxY) && Contains(r, r.maxX, r.minY)
    ensures x < r.minX || x > r.maxX || y < r.minY || y > r.maxY ==> !Contains(r, x, y)
  {
  }

  /** The four quadrants cover their parent and lie inside it: a point is in the parent
      exactly when it is in one of the quadrants. */
  lemma QuadrantsCover(r: Rect, x: real, y: real)
    ensures Contains(r, x, y) <==> exists i :: 0 <= i < 4 && Contains(Quadrant(r, i), x, y)
  {
    if Contains(r, x, y) {
      var i := if y >= (r.minY + r.maxY) / 2.0 then 0 else 2;
      var i' := if x <= (r.minX + r.maxX) / 2.0 then i else i + 1;
      assert Contains(Quadrant(r, i'), x, y);
    }
  }

  function Child(c: Children, i: nat): Node
    requires c.Split? && i < 4
  {
    if i == 0 then c.nw else if i == 1 then c.ne else if i == 2 then c.sw else c.se
  }

  function WithChild(c: Children, i: nat, n: Node): (r: Children)
    requires c.Split? && i < 4
    ensures r.Split? && Child(r, i) == n
    ensures forall j :: 0 <= j < 4 && j != i ==> Child(r, j) == Child(c, j)
  {
    if i == 0 then c.(nw := n) else if i == 1 then c.(ne := n) else if i == 2 then c.(sw := n) else c.(se := n)
  }

  /** The points of a subtree in the order the traversals visit them: the node's own
      points, then each child's subtree in turn. */
  function Stored(n: Node): seq<Location>
  {
    n.points + match n.children
      case Leaf => []
      case Split(nw, ne, sw, se) => Stored(nw) + Stored(ne) + Stored(sw) + Stored(se)
  }

  /** The points of the first `i` children's subtrees. */
  function StoredBelow(c: Children, i: nat): seq<Location>
    requires c.Split? && i <= 4
  {
    if i == 0 then [] else StoredBelow(c, i - 1) + Stored(Child(c, i - 1))
  }

  lemma StoredChildren(n: Node)
    requires n.children.Split?
    ensures Stored(n) == n.points + StoredBelow(n.children, 4)
  {
    var c := n.children;
    assert StoredBelow(c, 1) == Stored(c.nw);
    assert StoredBelow(c, 2) == Stored(c.nw) + Stored(c.ne);
    assert StoredBelow(c, 3) == Stored(c.nw) + Stored(c.ne) + Stored(c.sw);
    assert StoredBelow(c, 4) == Stored(c.nw) + Stored(c.ne) + Stored(c.sw) + Stored(c.se);
  }

  /** The points of a subtree, counted. */
  ghost function Bag(n: Node): multiset<Location>
  {
    multiset(n.points) + match n.children
      case Leaf => multiset{}
      case Split(nw, ne, sw, se) => Bag(nw) + Bag(ne) + Bag(sw) + Bag(se)
  }

  lemma {:induction false} BagOfStored(n: Node)
    ensures Bag(n) == multiset(Stored(n))
  {
    match n.children
    case Leaf =>
    case Split(nw, ne, sw, se) =>
      BagOfStored(nw);
      BagOfStored(ne);
      BagOfStored(sw);
      BagOfStored(se);
  }

  /** The tree's invariant: every point lies in the rectangle of the node holding it, a leaf
      holds at most Capacity points, and a split node holds none itself and has the four
      quadrants of its rectangle as children. */
  ghost predicate WellFormed(n: Node)
  {
    && (forall k :: 0 <= k < |n.points| ==> Contains(n.rect, n.points[k].x, n.points[k].y))
    && (n.children.Leaf? ==> |n.points| <= Capacity)
    && (n.children.Split? ==>
          && n.points == []
          && n.children.nw.rect == Quadrant(n.rect, 0) && WellFormed(n.children.nw)
          && n.children.ne.rect == Quadrant(n.rect, 1) && WellFormed(n.children.ne)
          && n.children.sw.rect == Quadrant(n.rect, 2) && WellFormed(n.children.sw)
          && n.children.se.rect == Quadrant(n.rect, 3) && WellFormed(n.children.se))
  }

  /** The children of a well-formed split node, taken one at a time. */
  ghost predicate ChildrenFormed(r: Rect, c: Children)
    requires c.Split?
  {
    forall i :: 0 <= i < 4 ==> Child(c, i).rect == Quadrant(r, i) && WellFormed(Child(c, i))
  }

  lemma SplitFormed(n: Node)
    requires n.children.Split?
    ensures WellFormed(n) <==> n.points == [] && ChildrenFormed(n.rect, n.children)
  {
    var c := n.children;
    if n.points == [] && ChildrenFormed(n.rect, c) {
      assert Child(c, 0) == c.nw && Child(c, 1) == c.ne && Child(c, 2) == c.sw && Child(c, 3) == c.se;
    }
  }

  /** Every point of a well-formed subtree lies in the subtree's rectangle. */
  lemma {:induction false} StoredInside(n: Node)
    requires WellFormed(n)
    ensures forall p :: p in Stored(n) ==> Contains(n.rect, p.x, p.y)
  {
    match n.children
    case Leaf =>
      forall p | p in Stored(n) ensures Contains(n.rect, p.x, p.y) {
        var k :| 0 <= k < |n.points| && n.points[k] == p;
      }
    case Split(nw, ne, sw, se) =>
      StoredInside(nw);
      StoredInside(ne);
      StoredInside(sw);
      StoredInside(se);
      forall p | p in Stored(n) ensures Contains(n.rect, p.x, p.y) {
        assert p in Stored(nw) || p in Stored(ne) || p in Stored(sw) || p in Stored(se);
        QuadrantsCover(n.rect, p.x, p.y);
      }
  }

  /** The first child whose rectangle contains `(x, y)`, or 4 when none does. */
  function FirstIn(c: Children, x: real, y: real): (i: nat)
    requires c.Split?
    ensures i <= 4
    ensures i < 4 ==> Contains(Child(c, i).rect, x, y)
    ensures forall j :: 0 <= j < i ==> !Contains(Child(c, j).rect, x, y)
  {
    if Contains(c.nw.rect, x, y) then 0
    else if Contains(c.ne.rect, x, y) then 1
    else if Contains(c.sw.rect, x, y) then 2
    else if Contains(c.se.rect, x, y) then 3
    else 4
  }

  /** The child search of insert and subdivide: tries the four children in order. */
  method FirstContaining(c: Children, x: real, y: real) returns (i: nat)
    requires c.Split?
    ensures i == FirstIn(c, x, y)
  {
    i := 0;
    while i < 4 && !Contains(Child(c, i).rect, x, y)
      invariant i <= 4
      invariant forall j :: 0 <= j < i ==> !Contains(Child(c, j).rect, x, y)
    {
      i := i + 1;
    }
  }

  /** In a well-formed split node a point of the rectangle always finds a child. */
  lemma SomeChildContains(n: Node, x: real, y: real)
    requires WellFormed(n) && n.children.Split? && Contains(n.rect, x, y)
    ensures FirstIn(n.children, x, y) < 4
  {
    SplitFormed(n);
    QuadrantsCover(n.rect, x, y);
  }

  /** Replacing child `i` by a subtree that holds `extra` more points adds `extra` to the
      node's points. */
  lemma ReplaceChild(n: Node, i: nat, child: Node, extra: multiset<Location>)
    requires n.children.Split? && i < 4
    requires Bag(child) == Bag(Child(n.children, i)) + extra
    ensures Bag(n.(children := WithChild(n.children, i, child))) == Bag(n) + extra
  {
    var c := n.children;
    var a, b0, b1, b2, b3 := multiset(n.points), Bag(c.nw), Bag(c.ne), Bag(c.sw), Bag(c.se);
    var x := Bag(child);
    assert Bag(n) == a + (b0 + b1 + b2 + b3);
    var n' := n.(children := WithChild(c, i, child));
    GrowOne(a, b0, b1, b2, b3, extra);
    if i == 0 {
      assert n'.children == Split(child, c.ne, c.sw, c.se);
      assert Bag(n') == a + (x + b1 + b2 + b3);
    } else if i == 1 {
      assert n'.children == Split(c.nw, child, c.sw, c.se);
      assert Bag(n') == a + (b0 + x + b2 + b3);
    } else if i == 2 {
      assert n'.children == Split(c.nw, c.ne, child, c.se);
      assert Bag(n') == a + (b0 + b1 + x + b3);
    } else {
      assert n'.children == Split(c.nw, c.ne, c.sw, child);
      assert Bag(n') == a + (b0 + b1 + b2 + x);
    }
  }

  /** Adding `e` to any one of the four quadrant bags adds it to the total. */
  lemma GrowOne(a: multiset<Location>, b0: multiset<Location>, b1: multiset<Location>,
                b2: multiset<Location>, b3: multiset<Location>, e: multiset<Location>)
    ensures a + ((b0 + e) + b1 + b2 + b3) == a + (b0 + b1 + b2 + b3) + e
    ensures a + (b0 + (b1 + e) + b2 + b3) == a + (b0 + b1 + b2 + b3) + e
    ensures a + (b0 + b1 + (b2 + e) + b3) == a + (b0 + b1 + b2 + b3) + e
    ensures a + (b0 + b1 + b2 + (b3 + e)) == a + (b0 + b1 + b2 + b3) + e
  {
  }

  lemma FormedReplaced(r: Rect, c: Children, i: nat, n: Node)
    requires c.Split? && i < 4 && ChildrenFormed(r, c) && WellFormed(n) && n.rect == Quadrant(r, i)
    ensures ChildrenFormed(r, WithChild(c, i, n))
  {
    var c' := WithChild(c, i, n);
    forall j | 0 <= j < 4 ensures Child(c', j).rect == Quadrant(r, j) && WellFormed(Child(c', j)) {
      if j != i {
        assert Child(c', j) == Child(c, j);
      }
    }
  }

  function EmptyNode(r: Rect): Node
  {
    Node(r, [], Leaf)
  }

  /** The first quadrant of `r` that contains `(x, y)`, or 4 when none does. */
  function FirstQuadrant(r: Rect, x: real, y: real): (i: nat)
    ensures i <= 4
    ensures i < 4 ==> Contains(Quadrant(r, i), x, y)
    ensures forall j :: 0 <= j < i ==> !Contains(Quadrant(r, j), x, y)
    ensures Contains(r, x, y) ==> i < 4
  {
    QuadrantsCover(r, x, y);
    if Contains(Quadrant(r, 0), x, y) then 0
    else if Contains(Quadrant(r, 1), x, y) then 1
    else if Contains(Quadrant(r, 2), x, y) then 2
    else if Contains(Quadrant(r, 3), x, y) then 3
    else 4
  }

  /** Children with the quadrants of `r` as rectangles pick the first quadrant. */
  lemma FirstInQuadrant(r: Rect, c: Children, x: real, y: real)
    requires c.Split? && ChildrenFormed(r, c)
    ensures FirstIn(c, x, y) == FirstQuadrant(r, x, y)
  {
    assert Child(c, 0).rect == Quadrant(r, 0) && Child(c, 1).rect == Quadrant(r, 1);
    assert Child(c, 2).rect == Quadrant(r, 2) && Child(c, 3).rect == Quadrant(r, 3);
  }

  /** The points of `ps`, in order, whose first quadrant of `r` is `j`: the points
      subdivide hands to child `j`. */
  function InQuadrant(ps: seq<Location>, r: Rect, j: nat): seq<Location>
  {
    if ps == [] then []
    else
      var last := ps[|ps| - 1];
      InQuadrant(ps[..|ps| - 1], r, j) + if FirstQuadrant(r, last.x, last.y) == j then [last] else []
  }

  lemma InQuadrantSnoc(ps: seq<Location>, p: Location, r: Rect, j: nat)
    ensures InQuadrant(ps + [p], r, j) == InQuadrant(ps, r, j) + if FirstQuadrant(r, p.x, p.y) == j then [p] else []
  {
    assert (ps + [p])[..|ps|] == ps;
  }

  /** A prefix hands no more points to a quadrant than the whole sequence does. */
  lemma {:induction false} InQuadrantPrefix(ps: seq<Location>, n: nat, r: Rect, j: nat)
    requires n <= |ps|
    ensures |InQuadrant(ps[..n], r, j)| <= |InQuadrant(ps, r, j)|
    decreases |ps|
  {
    if n < |ps| {
      var init := ps[..|ps| - 1];
      assert ps[..n] == init[..n];
      InQuadrantPrefix(init, n, r, j);
    } else {
      assert ps[..n] == ps;
    }
  }

  /** Every point handed to quadrant `j` has `j` as its first quadrant. */
  lemma {:induction false} InQuadrantMembers(ps: seq<Location>, r: Rect, j: nat)
    ensures forall p :: p in InQuadrant(ps, r, j) ==> p in ps && FirstQuadrant(r, p.x, p.y) == j
    decreases |ps|
  {
    if ps != [] {
      var init := ps[..|ps| - 1];
      InQuadrantMembers(init, r, j);
      assert forall p :: p in init ==> p in ps;
    }
  }

  /** Subdivide spreads `ps` out: no quadrant of `r` receives more than Capacity of them,
      so every child stays a leaf. */
  predicate Spread(ps: seq<Location>, r: Rect)
  {
    forall j :: 0 <= j < 4 ==> |InQuadrant(ps, r, j)| <= Capacity
  }

  /** The node into which insert puts `(x, y)`: it descends through the first child that
      contains the point as long as there is one. */
  function LeafFor(n: Node, x: real, y: real): Node
  {
    match n.children
    case Leaf => n
    case Split(nw, ne, sw, se) =>
      var i := FirstIn(n.children, x, y);
      if i == 0 then LeafFor(nw, x, y) else if i == 1 then LeafFor(ne, x, y)
      else if i == 2 then LeafFor(sw, x, y) else if i == 3 then LeafFor(se, x, y)
      else n
  }

  /** The number of levels insert descends to reach LeafFor(n, x, y). */
  function DepthFor(n: Node, x: real, y: real): nat
  {
    match n.children
    case Leaf => 0
    case Split(nw, ne, sw, se) =>
      var i := FirstIn(n.children, x, y);
      if i == 0 then 1 + DepthFor(nw, x, y) else if i == 1 then 1 + DepthFor(ne, x, y)
      else if i == 2 then 1 + DepthFor(sw, x, y) else if i == 3 then 1 + DepthFor(se, x, y)
      else 0
  }

  lemma DescendOne(n: Node, x: real, y: real)
    requires n.children.Split? && FirstIn(n.children, x, y) < 4
    ensures LeafFor(n, x, y) == LeafFor(Child(n.children, FirstIn(n.children, x, y)), x, y)
    ensures DepthFor(n, x, y) == 1 + DepthFor(Child(n.children, FirstIn(n.children, x, y)), x, y)
  {
  }

  /** insert on a node: a point outside the rectangle is ignored; in a split node it goes to
      the first child that contains it; otherwise it is added to the node's points, and a
      leaf that then holds more than Capacity points is subdivided. The source recurses
      without bound; `fuel` is the number of levels the insertion may descend, and `None`
      reports that it would have gone deeper. */
  method InsertAt(node: Node, loc: Location, fuel: nat) returns (r: Option<Node>)
    requires WellFormed(node)
    ensures !Contains(node.rect, loc.x, loc.y) ==> r == Some(node)
    ensures r.Some? ==> WellFormed(r.value) && r.value.rect == node.rect
    ensures r.Some? && Contains(node.rect, loc.x, loc.y) ==>
              Bag(r.value) == Bag(node) + multiset{loc}
    ensures r.Some? && node.children.Split? && Contains(node.rect, loc.x, loc.y) ==>
              && FirstIn(node.children, loc.x, loc.y) < 4 && r.value.points == [] && r.value.children.Split?
              && (forall j :: 0 <= j < 4 && j != FirstIn(node.children, loc.x, loc.y) ==>
                    Child(r.value.children, j) == Child(node.children, j))
    ensures r.Some? && node.children.Leaf? && Contains(node.rect, loc.x, loc.y) ==>
              if |node.points| < Capacity then r.value == node.(points := node.points + [loc])
              else r.value.points == [] && r.value.children.Split?
    ensures (Contains(node.rect, loc.x, loc.y) && DepthFor(node, loc.x, loc.y) <= fuel
              && |LeafFor(node, loc.x, loc.y).points| < Capacity) ==> r.Some?
    ensures (Contains(node.rect, loc.x, loc.y) && DepthFor(node, loc.x, loc.y) < fuel
              && Spread(LeafFor(node, loc.x, loc.y).points + [loc], LeafFor(node, loc.x, loc.y).rect)) ==> r.Some?
    decreases fuel, 2
  {
    if !Contains(node.rect, loc.x, loc.y) {
      return Some(node);
    }
    if node.children.Split? {
      var i := FirstContaining(node.children, loc.x, loc.y);
      SomeChildContains(node, loc.x, loc.y);
      if i < 4 {
        DescendOne(node, loc.x, loc.y);
        if fuel == 0 {
          return None;
        }
        var c := Child(node.children, i);
        assert c == node.children.nw || c == node.children.ne || c == node.children.sw || c == node.children.se;
        SplitFormed(node);
        var c' := InsertAt(c, loc, fuel - 1);
        if c'.None? {
          return None;
        }
        var n' := node.(children := WithChild(node.children, i, c'.value));
        ReplaceChild(node, i, c'.value, multiset{loc});
        SplitFormed(n');
        return Some(n');
      }
    }
    var points := node.points + [loc];
    if |points| > Capacity && node.children.Leaf? {
      r := Subdivide(node.(points := points), fuel);
    } else {
      r := Some(node.(points := points));
    }
  }

  /** subdivide: gives a leaf the four quadrant children and re-inserts its points, each
      into the first child that contains it. */
  method Subdivide(node: Node, fuel: nat) returns (r: Option<Node>)
    requires node.children.Leaf?
    requires forall k :: 0 <= k < |node.points| ==> Contains(node.rect, node.points[k].x, node.points[k].y)
    ensures r.Some? ==> WellFormed(r.value) && r.value.rect == node.rect
    ensures r.Some? ==> r.value.points == [] && r.value.children.Split?
    ensures r.Some? ==> Bag(r.value) == multiset(node.points)
    ensures r.Some? ==> forall j :: 0 <= j < 4 ==>
              Bag(Child(r.value.children, j)) == multiset(InQuadrant(node.points, node.rect, j))
    ensures r.Some? ==> forall j, p :: 0 <= j < 4 && p in Bag(Child(r.value.children, j)) ==>
              FirstQuadrant(node.rect, p.x, p.y) == j
    ensures 1 <= fuel && Spread(node.points, node.rect) ==>
              && r.Some?
              && forall j :: 0 <= j < 4 ==>
                   Child(r.value.children, j) == Node(Quadrant(node.rect, j), InQuadrant(node.points, node.rect, j), Leaf)
    decreases fuel, 1
  {
    var rect := node.rect;
    var c := Split(EmptyNode(Quadrant(rect, 0)), EmptyNode(Quadrant(rect, 1)),
                   EmptyNode(Quadrant(rect, 2)), EmptyNode(Quadrant(rect, 3)));
    var temp := node.points;
    ghost var spread := 1 <= fuel && Spread(temp, rect);
    ghost var done: seq<Location> := [];
    var k := 0;
    assert Bag(Node(rect, [], c)) == multiset{};
    while k < |temp|
      invariant k <= |temp| && done == temp[..k]
      invariant c.Split? && ChildrenFormed(rect, c)
      invariant Bag(Node(rect, [], c)) == multiset(done)
      invariant Handed(rect, c, done)
      invariant spread ==> HandedLeaves(rect, c, done)
    {
      var p := temp[k];
      if spread {
        RoomLeft(rect, c, temp, k);
      }
      var c' := Reinsert(rect, c, p, fuel);
      if c'.None? {
        return None;
      }
      HandedStep(rect, c, c'.value, done, p);
      if spread {
        LeavesStep(rect, c, c'.value, done, p);
      }
      c := c'.value;
      TakeOneMore(temp, k);
      done := done + [p];
      k := k + 1;
    }
    TakeAll(temp);
    HandedMembers(rect, c, temp);
    SplitFormed(Node(rect, [], c));
    r := Some(Node(rect, [], c));
  }

  lemma TakeOneMore(s: seq<Location>, k: nat)
    requires k < |s|
    ensures s[..k + 1] == s[..k] + [s[k]]
  {
  }

  lemma TakeAll(s: seq<Location>)
    ensures s[..|s|] == s
  {
  }

  /** Child `j` of `c` holds exactly the points of `ps` whose first quadrant of `r` is `j`. */
  ghost predicate Handed(r: Rect, c: Children, ps: seq<Location>)
    requires c.Split?
  {
    forall j :: 0 <= j < 4 ==> Bag(Child(c, j)) == multiset(InQuadrant(ps, r, j))
  }

  /** Handed, with every child still the leaf that holds its points in order. */
  predicate HandedLeaves(r: Rect, c: Children, ps: seq<Location>)
    requires c.Split?
  {
    forall j :: 0 <= j < 4 ==> Child(c, j) == Node(Quadrant(r, j), InQuadrant(ps, r, j), Leaf)
  }

  lemma HandedStep(r: Rect, c: Children, c': Children, ps: seq<Location>, p: Location)
    requires c.Split? && c'.Split? && Handed(r, c, ps)
    requires var i := FirstQuadrant(r, p.x, p.y);
               && i < 4
               && Bag(Child(c', i)) == Bag(Child(c, i)) + multiset{p}
               && forall j :: 0 <= j < 4 && j != i ==> Child(c', j) == Child(c, j)
    ensures Handed(r, c', ps + [p])
  {
    forall j | 0 <= j < 4 ensures Bag(Child(c', j)) == multiset(InQuadrant(ps + [p], r, j)) {
      InQuadrantSnoc(ps, p, r, j);
    }
  }

  lemma LeavesStep(r: Rect, c: Children, c': Children, ps: seq<Location>, p: Location)
    requires c.Split? && c'.Split? && HandedLeaves(r, c, ps)
    requires var i := FirstQuadrant(r, p.x, p.y);
               && i < 4
               && Child(c', i) == Child(c, i).(points := Child(c, i).points + [p])
               && forall j :: 0 <= j < 4 && j != i ==> Child(c', j) == Child(c, j)
    ensures HandedLeaves(r, c', ps + [p])
  {
    forall j | 0 <= j < 4 ensures Child(c', j) == Node(Quadrant(r, j), InQuadrant(ps + [p], r, j), Leaf) {
      InQuadrantSnoc(ps, p, r, j);
    }
  }

  /** While subdivide spreads its points out, the child that receives the next point is a
      leaf with room for it. */
  lemma RoomLeft(r: Rect, c: Children, ps: seq<Location>, k: nat)
    requires c.Split? && k < |ps| && Spread(ps, r) && HandedLeaves(r, c, ps[..k])
    requires Contains(r, ps[k].x, ps[k].y)
    ensures var i := FirstQuadrant(r, ps[k].x, ps[k].y);
              Child(c, i).children.Leaf? && |Child(c, i).points| < Capacity
  {
    var i := FirstQuadrant(r, ps[k].x, ps[k].y);
    assert ps[..k + 1] == ps[..k] + [ps[k]];
    InQuadrantSnoc(ps[..k], ps[k], r, i);
    InQuadrantPrefix(ps, k + 1, r, i);
  }

  lemma HandedMembers(r: Rect, c: Children, ps: seq<Location>)
    requires c.Split? && Handed(r, c, ps)
    ensures forall j, p :: 0 <= j < 4 && p in Bag(Child(c, j)) ==> FirstQuadrant(r, p.x, p.y) == j
  {
    forall j | 0 <= j < 4 {
      InQuadrantMembers(ps, r, j);
    }
  }

  /** One step of subdivide's loop: `loc` goes to the first child that contains it. */
  method Reinsert(rect: Rect, c: Children, loc: Location, fuel: nat) returns (r: Option<Children>)
    requires c.Split? && ChildrenFormed(rect, c) && Contains(rect, loc.x, loc.y)
    ensures r.Some? ==> r.value.Split? && ChildrenFormed(rect, r.value)
    ensures r.Some? ==> Bag(Node(rect, [], r.value)) == Bag(Node(rect, [], c)) + multiset{loc}
    ensures var i := FirstQuadrant(rect, loc.x, loc.y);
              r.Some? ==>
                && Bag(Child(r.value, i)) == Bag(Child(c, i)) + multiset{loc}
                && forall j :: 0 <= j < 4 && j != i ==> Child(r.value, j) == Child(c, j)
    ensures var i := FirstQuadrant(rect, loc.x, loc.y);
              1 <= fuel && Child(c, i).children.Leaf? && |Child(c, i).points| < Capacity ==>
                r.Some? && Child(r.value, i) == Child(c, i).(points := Child(c, i).points + [loc])
    decreases fuel, 0
  {
    FirstInQuadrant(rect, c, loc.x, loc.y);
    var i := FirstContaining(c, loc.x, loc.y);
    SplitFormed(Node(rect, [], c));
    SomeChildContains(Node(rect, [], c), loc.x, loc.y);
    if i < 4 {
      if fuel == 0 {
        return None;
      }
      var child' := InsertAt(Child(c, i), loc, fuel - 1);
      if child'.None? {
        return None;
      }
      ReplaceChild(Node(rect, [], c), i, child'.value, multiset{loc});
      FormedReplaced(rect, c, i, child'.value);
      r := Some(WithChild(c, i, child'.value));
    } else {
      assert false;
    }
  }

  /** The squared distance from a location to `(x, y)`. */
  function SqDist(l: Location, x: real, y: real): real
  {
    (l.x - x) * (l.x - x) + (l.y - y) * (l.y - y)
  }

  predicate Near(l: Location, x: real, y: real, radius: real)
  {
    SqDist(l, x, y) <= radius * radius
  }

  /** The locations of `s` within `radius` of `(x, y)`, in their order in `s`. */
  function Within(s: seq<Location>, x: real, y: real, radius: real): seq<Location>
  {
    if s == [] then []
    else Within(s[..|s| - 1], x, y, radius) + (if Near(s[|s| - 1], x, y, radius) then [s[|s| - 1]] else [])
  }

  lemma {:induction false} WithinConcat(a: seq<Location>, b: seq<Location>, x: real, y: real, radius: real)
    ensures Within(a + b, x, y, radius) == Within(a, x, y, radius) + Within(b, x, y, radius)
    decreases |b|
  {
    if b != [] {
      var b' := b[..|b| - 1];
      assert (a + b)[..|a + b| - 1] == a + b';
      WithinConcat(a, b', x, y, radius);
    } else {
      assert a + b == a;
    }
  }

  /** The filter keeps each near location as often as `s` holds it and no other one. */
  lemma {:induction false} WithinCounts(s: seq<Location>, x: real, y: real, radius: real, l: Location)
    ensures multiset(Within(s, x, y, radius))[l] == if Near(l, x, y, radius) then multiset(s)[l] else 0
  {
    if s != [] {
      var s' := s[..|s| - 1];
      WithinCounts(s', x, y, radius, l);
      assert s == s' + [s[|s| - 1]];
    }
  }

  /** The first loop of query: appends the points of `points` within `radius`. */
  method QueryPoints(points: seq<Location>, x: real, y: real, radius: real, result: seq<Location>) returns (out: seq<Location>)
    ensures out == result + Within(points, x, y, radius)
  {
    out := result;
    var k := 0;
    while k < |points|
      invariant k <= |points| && out == result + Within(points[..k], x, y, radius)
    {
      var loc := points[k];
      if Near(loc, x, y, radius) {
        out := out + [loc];
      }
      assert points[..k + 1][..k] == points[..k];
      k := k + 1;
    }
    assert points[..k] == points;
  }

  /** query: appends to `result` every point of the subtree within `radius` of `(x, y)`,
      the node's own points first and then each child's in turn. */
  method Query(node: Node, x: real, y: real, radius: real, result: seq<Location>) returns (out: seq<Location>)
    ensures out == result + Within(Stored(node), x, y, radius)
    decreases node
  {
    out := QueryPoints(node.points, x, y, radius, result);
    if node.children.Split? {
      ghost var own := out;
      var i := 0;
      while i < 4
        invariant i <= 4
        invariant out == own + Within(StoredBelow(node.children, i), x, y, radius)
      {
        var child := Child(node.children, i);
        assert child == node.children.nw || child == node.children.ne || child == node.children.sw || child == node.children.se;
        ghost var before := Within(StoredBelow(node.children, i), x, y, radius);
        out := Query(child, x, y, radius, out);
        WithinConcat(StoredBelow(node.children, i), Stored(child), x, y, radius);
        Associative(own, before, Within(Stored(child), x, y, radius));
        i := i + 1;
      }
      StoredChildren(node);
      WithinConcat(node.points, StoredBelow(node.children, 4), x, y, radius);
      Associative(result, Within(node.points, x, y, radius), Within(StoredBelow(node.children, 4), x, y, radius));
    } else {
      assert Stored(node) == node.points;
    }
  }

  lemma Associative(a: seq<Location>, b: seq<Location>, c: seq<Location>)
    ensures a + b + c == a + (b + c)
  {
  }

  /** The running minimum of nearest: the closest point so far and its squared distance,
      `None` while nothing has been seen (the source's null and infinity). */
  datatype Best = Best(loc: Option<Location>, dist: Option<real>)

  /** One point of nearest's scan: it replaces the best so far only when strictly closer. */
  function Visit(b: Best, l: Location, x: real, y: real): Best
  {
    if b.dist.None? || SqDist(l, x, y) < b.dist.value then Best(Some(l), Some(SqDist(l, x, y))) else b
  }

  /** The running minimum after visiting the points of `s` in order, starting from `b`. */
  function Scan(s: seq<Location>, x: real, y: real, b: Best): Best
  {
    if s == [] then b else Visit(Scan(s[..|s| - 1], x, y, b), s[|s| - 1], x, y)
  }

  lemma {:induction false} ScanConcat(a: seq<Location>, c: seq<Location>, x: real, y: real, b: Best)
    ensures Scan(a + c, x, y, b) == Scan(c, x, y, Scan(a, x, y, b))
    decreases |c|
  {
    if c != [] {
      var c' := c[..|c| - 1];
      assert (a + c)[..|a + c| - 1] == a + c';
      ScanConcat(a, c', x, y, b);
    } else {
      assert a + c == a;
    }
  }

  /** Starting from nothing, the scan finds nothing exactly when `s` is empty, and otherwise
      the first point of `s` at the least squared distance, with that distance. */
  lemma {:induction false} ScanFindsFirstNearest(s: seq<Location>, x: real, y: real)
    ensures Scan(s, x, y, Best(None, None)).loc.None? <==> s == []
    ensures s != [] ==> exists i :: 0 <= i < |s| && FirstNearestAt(s, x, y, i) && Scan(s, x, y, Best(None, None)) == Best(Some(s[i]), Some(SqDist(s[i], x, y)))
  {
    if s != [] {
      var s', l := s[..|s| - 1], s[|s| - 1];
      ScanFindsFirstNearest(s', x, y);
      var b := Scan(s', x, y, Best(None, None));
      if s' == [] {
        assert FirstNearestAt(s, x, y, 0);
      } else {
        var i :| 0 <= i < |s'| && FirstNearestAt(s', x, y, i) && b == Best(Some(s'[i]), Some(SqDist(s'[i], x, y)));
        if SqDist(l, x, y) < SqDist(s'[i], x, y) {
          assert FirstNearestAt(s, x, y, |s'|);
        } else {
          assert FirstNearestAt(s, x, y, i);
        }
      }
    }
  }

  /** `s[i]` is at the least squared distance in `s`, and every earlier point is farther. */
  ghost predicate FirstNearestAt(s: seq<Location>, x: real, y: real, i: nat)
  {
    && i < |s|
    && (forall j :: 0 <= j < |s| ==> SqDist(s[i], x, y) <= SqDist(s[j], x, y))
    && (forall j :: 0 <= j < i ==> SqDist(s[i], x, y) < SqDist(s[j], x, y))
  }

  /** nearest: scans the node's points, then each child's subtree in turn, replacing the
      best so far by any strictly closer point. */
  method Nearest(node: Node, x: real, y: real, best: Best) returns (b: Best)
    ensures b == Scan(Stored(node), x, y, best)
    decreases node
  {
    b := best;
    var k := 0;
    while k < |node.points|
      invariant k <= |node.points| && b == Scan(node.points[..k], x, y, best)
    {
      var loc := node.points[k];
      var dist := SqDist(loc, x, y);
      if b.dist.None? || dist < b.dist.value {
        b := Best(Some(loc), Some(dist));
      }
      assert node.points[..k + 1][..k] == node.points[..k];
      k := k + 1;
    }
    assert node.points[..k] == node.points;
    if node.children.Split? {
      var i := 0;
      while i < 4
        invariant i <= 4
        invariant b == Scan(StoredBelow(node.children, i), x, y, Scan(node.points, x, y, best))
      {
        var child := Child(node.children, i);
        assert child == node.children.nw || child == node.children.ne || child == node.children.sw || child == node.children.se;
        b := Nearest(child, x, y, b);
        ScanConcat(StoredBelow(node.children, i), Stored(child), x, y, Scan(node.points, x, y, best));
        i := i + 1;
      }
      StoredChildren(node);
      ScanConcat(node.points, StoredBelow(node.children, 4), x, y, best);
    } else {
      assert Stored(node) == node.points;
    }
  }

  /** The tree: its root node. `inserted` records the points handed to insert that fell
      inside the root rectangle. */
  class QuadTree {
    var root: Node
    ghost var inserted: seq<Location>

    ghost predicate Valid()
      reads this
    {
      WellFormed(root) && Bag(root) == multiset(inserted)
    }

    constructor (minX: real, minY: real, maxX: real, maxY: real)
      ensures Valid() && root == EmptyNode(Rect(minX, minY, maxX, maxY)) && inserted == []
    {
      root := EmptyNode(Rect(minX, minY, maxX, maxY));
      inserted := [];
    }

    /** insert: adds `loc` when the root rectangle contains it and ignores it otherwise.
        `ok` is false, and nothing changes, when the insertion would descend more than
        `fuel` levels. */
    method Insert(loc: Location, fuel: nat) returns (ok: bool)
      requires Valid()
      modifies this
      ensures Valid() && root.rect == old(root.rect)
      ensures !ok ==> root == old(root) && inserted == old(inserted)
      ensures ok ==> inserted == old(inserted) + if Contains(root.rect, loc.x, loc.y) then [loc] else []
      ensures !Contains(root.rect, loc.x, loc.y) ==> ok && root == old(root)
    ensures (Contains(root.rect, loc.x, loc.y) && DepthFor(old(root), loc.x, loc.y) <= fuel
              && |LeafFor(old(root), loc.x, loc.y).points| < Capacity) ==> ok
    ensures (Contains(root.rect, loc.x, loc.y) && DepthFor(old(root), loc.x, loc.y) < fuel
              && Spread(LeafFor(old(root), loc.x, loc.y).points + [loc], LeafFor(old(root), loc.x, loc.y).rect)) ==> ok
    {
      var r := InsertAt(root, loc, fuel);
      if r.None? {
        return false;
      }
      if Contains(root.rect, loc.x, loc.y) {
        inserted := inserted + [loc];
      }
      root := r.value;
      return true;
    }

    /** query_radius: the stored points within `radius` of `(x, y)`; each inserted point
        in range appears as often as it was inserted, and no other point appears. */
    method QueryRadius(x: real, y: real, radius: real) returns (result: seq<Location>)
      requires Valid()
      ensures result == Within(Stored(root), x, y, radius)
      ensures forall l :: multiset(result)[l] == if Near(l, x, y, radius) then multiset(inserted)[l] else 0
    {
      result := Query(root, x, y, radius, []);
      BagOfStored(root);
      forall l ensures multiset(result)[l] == if Near(l, x, y, radius) then multiset(inserted)[l] else 0 {
        WithinCounts(Stored(root), x, y, radius, l);
      }
    }

    /** find_nearest: `None` exactly when nothing was inserted; otherwise an inserted point
        at the least squared distance from `(x, y)`, the first such one in traversal order. */
    method FindNearest(x: real, y: real) returns (r: Option<Location>)
      requires Valid()
      ensures r.None? <==> inserted == []
      ensures r.Some? ==> r.value in inserted && forall l :: l in inserted ==> SqDist(r.value, x, y) <= SqDist(l, x, y)
      ensures r.Some? ==> exists i :: 0 <= i < |Stored(root)| && FirstNearestAt(Stored(root), x, y, i) && Stored(root)[i] == r.value
    {
      var b := Nearest(root, x, y, Best(None, None));
      r := b.loc;
      ghost var s := Stored(root);
      BagOfStored(root);
      ScanFindsFirstNearest(s, x, y);
      assert s == [] <==> inserted == [] by {
        assert |s| == |multiset(s)| == |multiset(inserted)| == |inserted|;
      }
      if r.Some? {
        ghost var i :| 0 <= i < |s| && FirstNearestAt(s, x, y, i) && b == Best(Some(s[i]), Some(SqDist(s[i], x, y)));
        assert r.value in multiset(s);
        forall l | l in inserted ensures SqDist(r.value, x, y) <= SqDist(l, x, y) {
          assert l in multiset(inserted);
          ghost var j :| 0 <= j < |s| && s[j] == l;
        }
      }
    }
  }
}
