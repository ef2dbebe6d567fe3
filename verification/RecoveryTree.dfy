// The ternary partition tree that decides which recovery connections are routed in parallel.
module RecoveryTree {
  import opened Wrappers
  import opened Sequences
  import opened RecoveryCuts

  datatype Bounds = Bounds(xMin: int, xMax: int, yMin: int, yMax: int)

  /** A connection with its bounding box; `order` stands for the connection's sort order. */
  datatype Connection = Connection(id: nat, order: int, xMin: int, xMax: int, yMin: int, yMax: int)

  ghost predicate Boxed(c: Connection) { c.xMin <= c.xMax && c.yMin <= c.yMax }

  function Clamp(value: int, low: int, high: int): int { Min(Max(value, low), high) }

  /** The clamped extent of a connection along an axis. */
  function SpanOf(device: Bounds, c: Connection, splitX: bool): Span {
    if splitX then Span(Clamp(c.xMin, device.xMin, device.xMax), Clamp(c.xMax, device.xMin, device.xMax))
    else Span(Clamp(c.yMin, device.yMin, device.yMax), Clamp(c.yMax, device.yMin, device.yMax))
  }

  function Spans(device: Bounds, cs: seq<Connection>, splitX: bool): seq<Span> {
    seq(|cs|, i requires 0 <= i < |cs| => SpanOf(device, cs[i], splitX))
  }

  function Low(b: Bounds, splitX: bool): int { if splitX then b.xMin else b.yMin }

  function High(b: Bounds, splitX: bool): int { if splitX then b.xMax else b.yMax }

  function LowSide(b: Bounds, splitX: bool, line: int): Bounds { if splitX then b.(xMax := line) else b.(yMax := line) }

  function HighSide(b: Bounds, splitX: bool, line: int): Bounds {
    if splitX then b.(xMin := line + 1) else b.(yMin := line + 1)
  }

  /** The clamped box lies in the bounds. */
  ghost predicate Inside(device: Bounds, c: Connection, b: Bounds) {
    && b.xMin <= SpanOf(device, c, true).low && SpanOf(device, c, true).high <= b.xMax
    && b.yMin <= SpanOf(device, c, false).low && SpanOf(device, c, false).high <= b.yMax
  }

  /** Disjoint clamped boxes. */
  ghost predicate Apart(device: Bounds, c: Connection, d: Connection) {
    exists splitX ::
      || SpanOf(device, c, splitX).high < SpanOf(device, d, splitX).low
      || SpanOf(device, d, splitX).high < SpanOf(device, c, splitX).low
  }

  // ---------------------------------------------------------------------------
  // Cut lines
  // ---------------------------------------------------------------------------

  /** The scan of the axis may choose this line. */
  ghost predicate CanCut(device: Bounds, bounds: Bounds, cs: seq<Connection>, splitX: bool, line: int) {
    Scannable(Spans(device, cs, splitX), Low(bounds, splitX), High(bounds, splitX), line - Low(bounds, splitX))
  }

  ghost function LineScore(device: Bounds, bounds: Bounds, cs: seq<Connection>, splitX: bool, line: int): real {
    Imbalance(Spans(device, cs, splitX), Low(bounds, splitX), High(bounds, splitX), line - Low(bounds, splitX))
  }

  /** Vertical lines are scanned before horizontal ones, and each axis upwards. */
  ghost predicate ScannedEarlier(splitX: bool, line: int, thanSplitX: bool, thanLine: int) {
    (splitX && !thanSplitX) || (splitX == thanSplitX && line < thanLine)
  }

  /** The cut is the first best balanced of all possible lines; there is none only if none is possible. */
  ghost predicate Chosen(device: Bounds, bounds: Bounds, cs: seq<Connection>, cut: Option<(bool, int)>) {
    && (cut.Some? ==> CanCut(device, bounds, cs, cut.value.0, cut.value.1))
    && forall splitX, line | CanCut(device, bounds, cs, splitX, line) ::
         && cut.Some?
         && LineScore(device, bounds, cs, cut.value.0, cut.value.1) <= LineScore(device, bounds, cs, splitX, line)
         && (ScannedEarlier(splitX, line, cut.value.0, cut.value.1) ==>
               LineScore(device, bounds, cs, cut.value.0, cut.value.1) < LineScore(device, bounds, cs, splitX, line))
  }

  /** A line that can be cut has connections wholly on both its sides. */
  lemma CutSeparates(device: Bounds, bounds: Bounds, cs: seq<Connection>, splitX: bool, line: int)
    requires CanCut(device, bounds, cs, splitX, line)
    ensures Separates(Spans(device, cs, splitX), Low(bounds, splitX), High(bounds, splitX), line)
  {
    CandidateSeparates(Spans(device, cs, splitX), Low(bounds, splitX),
                       High(bounds, splitX), line - Low(bounds, splitX));
  }

  // ---------------------------------------------------------------------------
  // Trees
  // ---------------------------------------------------------------------------

  datatype Tree =
    | Leaf(bounds: Bounds, connections: seq<Connection>)
    | Fork(bounds: Bounds, connections: seq<Connection>, splitX: bool, line: int,
           left: Tree, middle: Option<Tree>, right: Tree)

  ghost function Bag(t: Tree): multiset<Connection> { multiset(t.connections) }

  ghost function MiddleBag(t: Option<Tree>): multiset<Connection> { if t.None? then multiset{} else Bag(t.value) }

  ghost predicate InOrder(cs: seq<Connection>) { forall i, j | 0 <= i < j < |cs| :: cs[i].order <= cs[j].order }

  ghost function CutOf(t: Tree): Option<(bool, int)> { if t.Leaf? then None else Some((t.splitX, t.line)) }

  /** Connections are sorted and stay inside their node. A node forks at the chosen line if any line can be cut,
      and splits its connections between three smaller children, the outer two strictly on their
      sides of the line. */
  ghost predicate Sound(device: Bounds, t: Tree) {
    && (forall c :: c in t.connections ==> Inside(device, c, t.bounds))
    && InOrder(t.connections) && Chosen(device, t.bounds, t.connections, CutOf(t))
    && match t
       case Leaf(_, _) => true
       case Fork(bounds, cs, splitX, line, left, middle, right) =>
         && Low(bounds, splitX) <= line < High(bounds, splitX)
         && left.bounds == LowSide(bounds, splitX, line) && right.bounds == HighSide(bounds, splitX, line)
         && (middle.Some? ==> middle.value.bounds == bounds && middle.value.connections != [])
         && Bag(t) == Bag(left) + MiddleBag(middle) + Bag(right)
         && left.connections != [] && right.connections != []
         && (forall c :: c in left.connections ==> SpanOf(device, c, splitX).high <= line)
         && (forall c :: c in right.connections ==> SpanOf(device, c, splitX).low > line)
         && (middle.Some? ==> forall c :: c in middle.value.connections ==> Straddles(device, c, splitX, line))
         && Sound(device, left) && Sound(device, right) && (middle.Some? ==> Sound(device, middle.value))
  }

  /** The clamped box lies across the line. */
  ghost predicate Straddles(device: Bounds, c: Connection, splitX: bool, line: int) {
    SpanOf(device, c, splitX).low <= line < SpanOf(device, c, splitX).high
  }

  /** The connections of the leaves. */
  ghost function Leaves(t: Tree): multiset<Connection> {
    match t
    case Leaf(_, cs) => multiset(cs)
    case Fork(_, _, _, _, left, middle, right) =>
      Leaves(left) + (if middle.Some? then Leaves(middle.value) else multiset{}) + Leaves(right)
  }

  lemma {:induction false} LeavesPartition(device: Bounds, t: Tree)
    requires Sound(device, t)
    ensures Leaves(t) == Bag(t)
  {
    match t
    case Leaf(_, _) =>
    case Fork(_, _, _, _, left, middle, right) =>
      LeavesPartition(device, left);
      LeavesPartition(device, right);
      if middle.Some? {
        LeavesPartition(device, middle.value);
      }
  }

  // ---------------------------------------------------------------------------
  // Splitting a list of connections
  // ---------------------------------------------------------------------------

  ghost predicate Split(device: Bounds, cs: seq<Connection>, splitX: bool, line: int,
                        left: seq<Connection>, middle: seq<Connection>, right: seq<Connection>) {
    && multiset(cs) == multiset(left) + multiset(middle) + multiset(right)
    && (forall c :: c in left ==> c in cs && SpanOf(device, c, splitX).high <= line)
    && (forall c :: c in right ==> c in cs && SpanOf(device, c, splitX).low > line)
    && (forall c :: c in middle ==> c in cs && Straddles(device, c, splitX, line))
    && (forall c :: c in cs && SpanOf(device, c, splitX).high <= line ==> c in left)
    && (forall c ::
        c in cs && SpanOf(device, c, splitX).high > line && SpanOf(device, c, splitX).low > line ==> c in right)
  }

  lemma SplitNext(device: Bounds, cs: seq<Connection>, c: Connection, splitX: bool, line: int,
                  left: seq<Connection>, middle: seq<Connection>, right: seq<Connection>)
    requires Split(device, cs, splitX, line, left, middle, right)
    ensures var span := SpanOf(device, c, splitX);
            if span.high <= line then Split(device, cs + [c], splitX, line, left + [c], middle, right)
            else if span.low > line then Split(device, cs + [c], splitX, line, left, middle, right + [c])
            else Split(device, cs + [c], splitX, line, left, middle + [c], right)
  {
    assert forall x :: x in cs + [c] <==> x in cs || x == c;
    assert forall x :: x in left + [c] <==> x in left || x == c;
    assert forall x :: x in middle + [c] <==> x in middle || x == c;
    assert forall x :: x in right + [c] <==> x in right || x == c;
  }

  /** Deals the connections out: entirely below the line, entirely above it, or across. */
  method SplitConnections(device: Bounds, cs: seq<Connection>, splitX: bool, line: int)
    returns (left: seq<Connection>, middle: seq<Connection>, right: seq<Connection>)
    ensures Split(device, cs, splitX, line, left, middle, right)
  {
    left, middle, right := [], [], [];
    for i := 0 to |cs|
      invariant Split(device, cs[..i], splitX, line, left, middle, right)
    {
      TakeNext(cs, i);
      SplitNext(device, cs[..i], cs[i], splitX, line, left, middle, right);
      var span := SpanOf(device, cs[i], splitX);
      if span.high <= line {
        left := left + [cs[i]];
      } else if span.low > line {
        right := right + [cs[i]];
      } else {
        middle := middle + [cs[i]];
      }
    }
    assert cs[..|cs|] == cs;
  }

  /** A separating line leaves no side empty, so the fallback to a leaf is never taken. */
  lemma SeparatedSides(device: Bounds, cs: seq<Connection>, bounds: Bounds, splitX: bool, line: int,
                       left: seq<Connection>, middle: seq<Connection>, right: seq<Connection>)
    requires forall c :: c in cs ==> Boxed(c)
    requires device.xMin <= device.xMax && device.yMin <= device.yMax
    requires Split(device, cs, splitX, line, left, middle, right)
    requires Separates(Spans(device, cs, splitX), Low(bounds, splitX), High(bounds, splitX), line)
    ensures left != [] && right != []
    ensures |left| < |cs| && |middle| < |cs| && |right| < |cs|
  {
    var spans := Spans(device, cs, splitX);
    var i :| 0 <= i < |spans| && spans[i].high <= line;
    var j :| 0 <= j < |spans| && spans[j].low > line;
    assert cs[i] in cs && cs[j] in cs;
    assert cs[i] in left && cs[j] in right;
    assert |cs| == |multiset(cs)| == |left| + |middle| + |right|;
  }

  lemma InsideChildren(device: Bounds, cs: seq<Connection>, bounds: Bounds, splitX: bool, line: int,
                       left: seq<Connection>, middle: seq<Connection>, right: seq<Connection>)
    requires forall c :: c in cs ==> Inside(device, c, bounds)
    requires Split(device, cs, splitX, line, left, middle, right)
    ensures forall c :: c in left ==> Inside(device, c, LowSide(bounds, splitX, line))
    ensures forall c :: c in right ==> Inside(device, c, HighSide(bounds, splitX, line))
    ensures forall c :: c in middle ==> Inside(device, c, bounds)
  {
  }

  // ---------------------------------------------------------------------------
  // Building the tree
  // ---------------------------------------------------------------------------

  ghost function Footprint(below: Node, across: Node?, above: Node): set<Node>
    reads below, above, if across == null then {} else {across}
  {
    below.Repr + above.Repr + if across == null then {} else across.Repr
  }

  class Node {
    const bounds: Bounds
    var connections: seq<Connection>
    var left: Node?
    var middle: Node?
    var right: Node?
    ghost var Repr: set<Node>
    ghost var tree: Tree

    /** The node and everything below it mirror their trees. */
    ghost predicate Valid()
      reads this, Repr
    {
      this in Repr && forall n :: n in Repr ==> n.Mirrors(Repr)
    }

    /** The fields agree with the tree, and the children are among `nodes`. */
    ghost predicate Mirrors(nodes: set<Node>)
      reads this, nodes
    {
      && tree.bounds == bounds && tree.connections == connections
      && if left == null then middle == null && right == null && tree.Leaf?
         else
           && right != null && tree.Fork? && left in nodes && right in nodes
           && tree.left == left.tree && tree.right == right.tree
           && (if middle == null then tree.middle == None else middle in nodes && tree.middle == Some(middle.tree))
    }

    constructor (bounds: Bounds, connections: seq<Connection>)
      ensures this.bounds == bounds && this.connections == connections && IsNewLeaf()
    {
      this.bounds := bounds;
      this.connections := connections;
      left, middle, right := null, null, null;
      Repr := {this};
      tree := Leaf(bounds, connections);
    }

    ghost predicate IsNewLeaf()
      reads this
    {
      left == null && middle == null && right == null && Repr == {this} && tree == Leaf(bounds, connections)
    }

    /** Hangs the children, whose nodes are given, below this node. */
    method Attach(below: Node, across: Node?, above: Node, ghost nodes: set<Node>, ghost splitX: bool, ghost line: int)
      requires below.Valid() && above.Valid() && (across != null ==> across.Valid())
      requires this !in nodes && nodes == Footprint(below, across, above)
      modifies this
      ensures Valid() && connections == old(connections)
      ensures Repr == {this} + nodes
      ensures tree == Fork(bounds, connections, splitX, line, old(below.tree),
                           if across == null then None else Some(old(across.tree)), old(above.tree))
    {
      left, middle, right := below, across, above;
      Repr := {this} + nodes;
      tree := Fork(bounds, connections, splitX, line, below.tree,
                   if across == null then None else Some(across.tree), above.tree);
      forall n | n in Repr ensures n.Mirrors(Repr) {
        if n != this {
          assert old(n.Mirrors(below.Repr)) || old(n.Mirrors(above.Repr))
                   || (across != null && old(n.Mirrors(across.Repr)));
        }
      }
    }
  }

  ghost predicate Buildable(device: Bounds, bounds: Bounds, cs: seq<Connection>) {
    && device.xMin <= device.xMax && device.yMin <= device.yMax
    && forall c :: c in cs ==> Boxed(c) && Inside(device, c, bounds)
  }

  /** The best line over both axes; a horizontal line must be strictly better to replace a vertical one. */
  method ChooseCut(device: Bounds, bounds: Bounds, cs: seq<Connection>) returns (cut: Option<Cut>, splitX: bool)
    ensures Chosen(device, bounds, cs, if cut.None? then None else Some((splitX, cut.value.line)))
  {
    var vertical := ScanAxis(Spans(device, cs, true), bounds.xMin, bounds.xMax, None);
    var both := ScanAxis(Spans(device, cs, false), bounds.yMin, bounds.yMax, vertical);
    splitX := both == vertical;
    cut := both;
  }

  /** Three sound children on the two sides of a line and across it make a sound fork. */
  lemma ForkSound(device: Bounds, t: Tree, left: seq<Connection>, middle: seq<Connection>, right: seq<Connection>)
    requires t.Fork? && forall c :: c in t.connections ==> Inside(device, c, t.bounds)
    requires Split(device, t.connections, t.splitX, t.line, left, middle, right) && left != [] && right != []
    requires Low(t.bounds, t.splitX) <= t.line < High(t.bounds, t.splitX)
    requires InOrder(t.connections) && Chosen(device, t.bounds, t.connections, CutOf(t))
    requires BuiltFrom(device, t.left, LowSide(t.bounds, t.splitX, t.line), left)
    requires BuiltFrom(device, t.right, HighSide(t.bounds, t.splitX, t.line), right)
    requires if middle == [] then t.middle == None
             else t.middle.Some? && BuiltFrom(device, t.middle.value, t.bounds, middle)
    ensures Sound(device, t)
  {
    SameMembers(t.left.connections, left);
    SameMembers(t.right.connections, right);
    if middle != [] {
      SameMembers(t.middle.value.connections, middle);
    }
  }

  /** A sound tree over the given connections. */
  ghost predicate BuiltFrom(device: Bounds, t: Tree, bounds: Bounds, cs: seq<Connection>) {
    t.bounds == bounds && multiset(t.connections) == multiset(cs) && Sound(device, t)
  }

  method BuildChild(device: Bounds, bounds: Bounds, cs: seq<Connection>) returns (child: Node)
    requires Buildable(device, bounds, cs)
    ensures child.Valid() && fresh(child.Repr) && BuiltFrom(device, child.tree, bounds, cs)
    decreases |cs|, 3
  {
    child := new Node(bounds, cs);
    Build(device, child);
  }

  ghost predicate Built(device: Bounds, bounds: Bounds, splitX: bool, line: int,
                        left: seq<Connection>, middle: seq<Connection>, right: seq<Connection>, below: Tree,
                        across: Option<Tree>, above: Tree) {
    && BuiltFrom(device, below, LowSide(bounds, splitX, line), left)
    && BuiltFrom(device, above, HighSide(bounds, splitX, line), right)
    && if middle == [] then across == None else across.Some? && BuiltFrom(device, across.value, bounds, middle)
  }

  method BuildChildren(device: Bounds, bounds: Bounds, splitX: bool, line: int,
                       left: seq<Connection>, middle: seq<Connection>, right: seq<Connection>, ghost size: nat)
    returns (below: Node, across: Node?, above: Node, ghost nodes: set<Node>)
    requires |left| < size && |middle| < size && |right| < size
    requires Buildable(device, LowSide(bounds, splitX, line), left)
    requires Buildable(device, HighSide(bounds, splitX, line), right)
    requires Buildable(device, bounds, middle)
    ensures below.Valid() && above.Valid() && (across != null ==> across.Valid())
    ensures nodes == Footprint(below, across, above) && fresh(nodes)
    ensures Built(device, bounds, splitX, line, left, middle, right,
                  below.tree, if across == null then None else Some(across.tree), above.tree)
    decreases size, 0
  {
    across := null;
    below := BuildChild(device, LowSide(bounds, splitX, line), left);
    above := BuildChild(device, HighSide(bounds, splitX, line), right);
    if middle != [] {
      across := BuildChild(device, bounds, middle);
    }
    nodes := Footprint(below, across, above);
  }

  /** A cut with what it deals to each side; neither side is empty, and every part is smaller. */
  ghost predicate Dealt(device: Bounds, bounds: Bounds, cs: seq<Connection>, splitX: bool, line: int,
                        left: seq<Connection>, middle: seq<Connection>, right: seq<Connection>) {
    && Low(bounds, splitX) <= line < High(bounds, splitX)
    && Split(device, cs, splitX, line, left, middle, right) && left != [] && right != []
    && |left| < |cs| && |middle| < |cs| && |right| < |cs|
    && Buildable(device, LowSide(bounds, splitX, line), left)
    && Buildable(device, HighSide(bounds, splitX, line), right)
    && Buildable(device, bounds, middle)
  }

  /** Deals the connections to the two sides of the best cut, if there is one. */
  method Deal(device: Bounds, bounds: Bounds, cs: seq<Connection>)
    returns (cut: Option<(bool, int)>, left: seq<Connection>, middle: seq<Connection>, right: seq<Connection>)
    requires Buildable(device, bounds, cs)
    ensures Chosen(device, bounds, cs, cut)
    ensures cut.Some? ==> Dealt(device, bounds, cs, cut.value.0, cut.value.1, left, middle, right)
  {
    left, middle, right := [], [], [];
    var best, splitX := ChooseCut(device, bounds, cs);
    if best.None? {
      return None, left, middle, right;
    }
    var line := best.value.line;
    cut := Some((splitX, line));
    left, middle, right := SplitConnections(device, cs, splitX, line);
    CutSeparates(device, bounds, cs, splitX, line);
    SeparatedSides(device, cs, bounds, splitX, line, left, middle, right);
    InsideChildren(device, cs, bounds, splitX, line, left, middle, right);
  }

  /** Hangs subtrees over the dealt connections below a new node. */
  method Divide(device: Bounds, node: Node, splitX: bool, line: int,
              left: seq<Connection>, middle: seq<Connection>, right: seq<Connection>)
    requires node.IsNewLeaf() && Buildable(device, node.bounds, node.connections) && InOrder(node.connections)
    requires Chosen(device, node.bounds, node.connections, Some((splitX, line)))
    requires Dealt(device, node.bounds, node.connections, splitX, line, left, middle, right)
    modifies node
    ensures node.Valid() && fresh(node.Repr - {node})
    ensures node.tree.bounds == node.bounds && node.tree.connections == old(node.connections)
              && Sound(device, node.tree)
    decreases |node.connections|, 1
  {
    var below, across, above, nodes :=
      BuildChildren(device, node.bounds, splitX, line, left, middle, right, |node.connections|);
    node.Attach(below, across, above, nodes, splitX, line);
    ForkSound(device, node.tree, left, middle, right);
  }

  /** Partitions the connections of a new node; modifies nothing but the node. */
  method Build(device: Bounds, node: Node)
    requires node.IsNewLeaf() && Buildable(device, node.bounds, node.connections)
    modifies node
    ensures node.Valid() && fresh(node.Repr - {node})
    ensures BuiltFrom(device, node.tree, node.bounds, old(node.connections))
    decreases |node.connections|, 2
  {
    node.connections := SortBy(node.connections, (c: Connection) => c.order);
    ghost var cs := node.connections;
    SameMembers(cs, old(node.connections));
    node.tree := Leaf(node.bounds, cs);
    var cut, left, middle, right := Deal(device, node.bounds, node.connections);
    if cut.None? || left == [] || right == [] {
      return;
    }
    Divide(device, node, cut.value.0, cut.value.1, left, middle, right);
  }

  class RecoveryPartitionTree {
    const deviceBounds: Bounds
    var root: Node

    /** Partitions the connections over the whole device. */
    constructor (connections: seq<Connection>, xMax: nat, yMax: nat)
      requires forall c :: c in connections ==> Boxed(c)
      ensures deviceBounds == Bounds(0, xMax, 0, yMax)
      ensures root.Valid() && fresh(root.Repr) && BuiltFrom(deviceBounds, root.tree, deviceBounds, connections)
    {
      deviceBounds := Bounds(0, xMax, 0, yMax);
      root := new Node(Bounds(0, xMax, 0, yMax), connections);
      new;
      Build(deviceBounds, root);
    }
  }

  lemma SameMembers(a: seq<Connection>, b: seq<Connection>)
    requires multiset(a) == multiset(b)
    ensures |a| == |b| && forall c :: c in a <==> c in b
  {
    assert |a| == |multiset(a)| == |multiset(b)| == |b|;
    forall c ensures c in a <==> c in b {
      assert c in a <==> c in multiset(a);
    }
  }
}
