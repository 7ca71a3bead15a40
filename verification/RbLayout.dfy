/** Red-black trees as values: a snapshot of the pointer structure together with a
    layout that says where every node stands in the in-order sequence and how many
    black nodes lie above it.  The class in RbTree.dfy works on real fields; the facts
    about what its pointer surgery does are proved here, one snapshot at a time. */
module RbLayout {

  /** A timer linked into a tree.  `rbTree` of the source is the flag `linked`; the ordering
      key is the expiry time. */
  class TimerNode {
    var left: TimerNode?
    var right: TimerNode?
    var parent: TimerNode?
    var linked: bool
    var red: bool
    var expires: int
    var cancelled: bool

    constructor (expiry: int)
      ensures left == null && right == null && parent == null
      ensures !linked && red && expires == expiry && !cancelled
    {
      left, right, parent, linked, red := null, null, null, false, true;
      expires, cancelled := expiry, false;
    }
  }

  datatype Cell = Cell(left: TimerNode?, right: TimerNode?, parent: TimerNode?, red: bool, key: int)

  /** The pointers, colours and keys of all linked nodes at one moment. */
  datatype Heap = Heap(root: TimerNode?, cells: map<TimerNode, Cell>)

  /** `idx` is the node's in-order position, `[lo, hi)` the positions of its subtree, `cnt`
      the number of black nodes on the way down to it (itself included, up to an offset). */
  datatype Place = Place(idx: int, lo: int, hi: int, cnt: int)

  /** `order` is the in-order sequence.  A tree of n nodes has n+1 nil links; `blk[i]` is
      the black count of the path that ends in the i-th of them, up to the offset `base`. */
  datatype Layout = Layout(order: seq<TimerNode>, at: map<TimerNode, Place>, blk: seq<int>, base: int)

  function B(red: bool): int { if red then 0 else 1 }

  ghost predicate Indexed(h: Heap, l: Layout) {
    && l.at.Keys == h.cells.Keys
    && |l.blk| == |l.order| + 1
    && (forall i {:trigger l.order[i]} :: 0 <= i < |l.order| ==> l.order[i] in l.at && l.at[l.order[i]].idx == i)
    && (forall n {:trigger PlaceOk(l, n)} :: n in l.at ==> PlaceOk(l, n))
  }

  ghost predicate PlaceOk(l: Layout, n: TimerNode)
    requires n in l.at
  {
    0 <= l.at[n].lo <= l.at[n].idx < l.at[n].hi <= |l.order| && l.order[l.at[n].idx] == n
  }

  /** The left link of `n` is null or leads to a node that points back and owns exactly the
      positions before `n`. */
  ghost predicate LeftOk(h: Heap, l: Layout, n: TimerNode)
    requires n in h.cells && n in l.at
  {
    var c := h.cells[n].left;
    if c == null then l.at[n].lo == l.at[n].idx
    else
      && c in h.cells && c in l.at && h.cells[c].parent == n
      && l.at[c].lo == l.at[n].lo && l.at[c].hi == l.at[n].idx
  }

  ghost predicate RightOk(h: Heap, l: Layout, n: TimerNode)
    requires n in h.cells && n in l.at
  {
    var c := h.cells[n].right;
    if c == null then l.at[n].hi == l.at[n].idx + 1
    else
      && c in h.cells && c in l.at && h.cells[c].parent == n
      && l.at[c].lo == l.at[n].idx + 1 && l.at[c].hi == l.at[n].hi
  }

  ghost predicate ParentOk(h: Heap, n: TimerNode)
    requires n in h.cells
  {
    var p := h.cells[n].parent;
    if p == null then h.root == n
    else p in h.cells && (h.cells[p].left == n || h.cells[p].right == n)
  }

  ghost predicate RootOk(h: Heap, l: Layout) {
    if h.root == null then l.order == []
    else
      && h.root in h.cells && h.root in l.at && h.cells[h.root].parent == null
      && l.at[h.root].lo == 0 && l.at[h.root].hi == |l.order|
  }

  ghost predicate NodeOk(h: Heap, l: Layout, n: TimerNode)
    requires n in h.cells && n in l.at
  {
    PlaceOk(l, n) && LeftOk(h, l, n) && RightOk(h, l, n) && ParentOk(h, n)
  }

  /** Links agree in both directions and follow the layout. */
  ghost predicate Linked(h: Heap, l: Layout) {
    && Indexed(h, l)
    && RootOk(h, l)
    && (forall n {:trigger NodeOk(h, l, n)} :: n in h.cells ==> NodeOk(h, l, n))
  }

  ghost predicate UpOk(h: Heap, l: Layout, n: TimerNode)
    requires n in h.cells && n in l.at
  {
    var c := h.cells[n];
    if c.parent == null then l.at[n].cnt == l.base + B(c.red)
    else c.parent in h.cells && c.parent in l.at && l.at[n].cnt == l.at[c.parent].cnt + B(c.red)
  }

  ghost predicate NilOk(h: Heap, l: Layout, n: TimerNode)
    requires n in h.cells && n in l.at && PlaceOk(l, n) && |l.blk| == |l.order| + 1
  {
    && (h.cells[n].left == null ==> l.blk[l.at[n].lo] == l.at[n].cnt)
    && (h.cells[n].right == null ==> l.blk[l.at[n].hi] == l.at[n].cnt)
  }

  ghost predicate CountOk(h: Heap, l: Layout, n: TimerNode)
    requires Indexed(h, l) && n in h.cells
  {
    PlaceOk(l, n) && UpOk(h, l, n) && NilOk(h, l, n)
  }

  /** `cnt` and `blk` really count the black nodes above. */
  ghost predicate Counted(h: Heap, l: Layout) {
    && Indexed(h, l)
    && (h.root == null ==> l.blk == [l.base])
    && (forall n {:trigger CountOk(h, l, n)} :: n in h.cells ==> CountOk(h, l, n))
  }

  ghost predicate Sorted(h: Heap, l: Layout) {
    && Indexed(h, l)
    && forall i, j :: 0 <= i < j < |l.order| ==> h.cells[l.order[i]].key <= h.cells[l.order[j]].key
  }

  ghost predicate Proper(h: Heap, n: TimerNode)
    requires n in h.cells
  {
    var p := h.cells[n].parent;
    h.cells[n].red && p != null ==> p in h.cells && !h.cells[p].red
  }

  /** No red node has a red parent, except possibly `exc`. */
  ghost predicate RedOk(h: Heap, exc: TimerNode?) {
    forall n {:trigger Proper(h, n)} :: n in h.cells && n != exc ==> Proper(h, n)
  }

  ghost predicate RootBlack(h: Heap) {
    h.root != null ==> h.root in h.cells && !h.cells[h.root].red
  }

  /** What every operation keeps, erase included. */
  ghost predicate Weak(h: Heap, l: Layout) {
    Linked(h, l) && Counted(h, l) && Sorted(h, l) && RedOk(h, null) && RootBlack(h)
  }

  /** All root-to-nil paths carry the same number of black nodes. */
  ghost predicate Balanced(l: Layout) {
    forall i :: 0 <= i < |l.blk| ==> l.blk[i] == l.blk[0]
  }

  // ---------------------------------------------------------------- rotations

  ghost predicate SameData(a: Cell, b: Cell) { a.red == b.red && a.key == b.key }

  /** `a` and `b` differ by one rotation: in `a` node `x` is above its right child `y`, in
      `b` node `y` is above its left child `x`; `m` is the subtree between them and `q` the
      node above.  Read from `a` to `b` this is a left rotation, from `b` to `a` a right one.  The
      colours of `x` and `y` are left open. */
  ghost predicate Turn(a: Heap, b: Heap, x: TimerNode, y: TimerNode, m: TimerNode?, q: TimerNode?) {
    && a.cells.Keys == b.cells.Keys
    && x in a.cells && y in a.cells && x != y
    && a.cells[x] == Cell(b.cells[x].left, y, q, a.cells[x].red, b.cells[x].key)
    && a.cells[y] == Cell(m, b.cells[y].right, x, a.cells[y].red, b.cells[y].key)
    && b.cells[x].right == m && b.cells[x].parent == y
    && b.cells[y].left == x && b.cells[y].parent == q
    && (m != null ==>
          && m in a.cells && m != x && m != y && m != q
          && a.cells[m] == b.cells[m].(parent := y) && b.cells[m].parent == x)
    && (q != null ==>
          && q in a.cells && q != x && q != y
          && a.cells[q].parent == b.cells[q].parent && SameData(a.cells[q], b.cells[q])
          && (if a.cells[q].left == x then b.cells[q].left == y && b.cells[q].right == a.cells[q].right
              else b.cells[q].left == a.cells[q].left && a.cells[q].right == x && b.cells[q].right == y))
    && (forall n {:trigger b.cells[n]} {:trigger a.cells[n]} ::
          n in a.cells && n != x && n != y && n != m && n != q ==> b.cells[n] == a.cells[n])
    && (if q == null then a.root == x && b.root == y else a.root == b.root)
  }

  ghost predicate SameColours(a: Heap, b: Heap) {
    && a.cells.Keys == b.cells.Keys
    && forall n {:trigger b.cells[n]} :: n in a.cells ==> b.cells[n].red == a.cells[n].red
  }

  /** The layouts before and after a rotation: two interval bounds move. */
  ghost predicate TurnLayout(k: Layout, l: Layout, x: TimerNode, y: TimerNode) {
    && k.order == l.order && k.blk == l.blk && k.base == l.base && k.at.Keys == l.at.Keys
    && x in k.at && y in k.at
    && l.at[x] == k.at[x].(hi := k.at[y].idx)
    && l.at[y] == k.at[y].(lo := k.at[x].lo)
    && k.at[y].lo == k.at[x].idx + 1 && k.at[y].hi == k.at[x].hi
    && (forall n {:trigger l.at[n]} {:trigger k.at[n]} :: n in k.at && n != x && n != y ==> l.at[n] == k.at[n])
  }

  ghost function WithLeft(h: Heap, n: TimerNode, v: TimerNode?): Heap
    requires n in h.cells
  {
    h.(cells := h.cells[n := h.cells[n].(left := v)])
  }

  ghost function WithRight(h: Heap, n: TimerNode, v: TimerNode?): Heap
    requires n in h.cells
  {
    h.(cells := h.cells[n := h.cells[n].(right := v)])
  }

  ghost function WithParent(h: Heap, n: TimerNode, v: TimerNode?): Heap
    requires n in h.cells
  {
    h.(cells := h.cells[n := h.cells[n].(parent := v)])
  }

  ghost function WithRed(h: Heap, n: TimerNode, red: bool): Heap
    requires n in h.cells
  {
    h.(cells := h.cells[n := h.cells[n].(red := red)])
  }

  /** A parent's cell with its link to `x` redirected to `y`. */
  function Relink(c: Cell, x: TimerNode, y: TimerNode?): Cell {
    if c.left == x then c.(left := y) else c.(right := y)
  }

  /** The link that leads to `x`, from its parent or from the root, now leads to `v`. */
  ghost function Redirected(h: Heap, x: TimerNode, v: TimerNode?): Heap
    requires x in h.cells && (h.cells[x].parent != null ==> h.cells[x].parent in h.cells)
  {
    var q := h.cells[x].parent;
    if q == null then h.(root := v) else h.(cells := h.cells[q := Relink(h.cells[q], x, v)])
  }

  /** The nodes around a left rotation at `x` are linked and all different. */
  ghost predicate Around(h: Heap, x: TimerNode) {
    && x in h.cells && h.cells[x].right != null && h.cells[x].right in h.cells
    && var y, q := h.cells[x].right, h.cells[x].parent;
    && y != x && h.cells[y].parent == x
    && (h.cells[y].left != null ==>
          && h.cells[y].left in h.cells && h.cells[y].left !in {x, y} && h.cells[y].left != q
          && h.cells[h.cells[y].left].parent == y)
    && (q == null ==> h.root == x)
    && (q != null ==>
          && q in h.cells && q !in {x, y} && h.root != x
          && (h.cells[q].left == x || h.cells[q].right == x))
  }

  ghost function RotatedLeft(h: Heap, x: TimerNode): Heap
    requires Around(h, x)
  {
    var y := h.cells[x].right;
    var m := h.cells[y].left;
    var h1 := WithRight(h, x, m);
    var h2 := if m != null then WithParent(h1, m, x) else h1;
    var h3 := WithParent(h2, y, h.cells[x].parent);
    WithParent(WithLeft(Redirected(h3, x, y), y, x), x, y)
  }

  ghost predicate AroundRight(h: Heap, x: TimerNode) {
    && x in h.cells && h.cells[x].left != null && h.cells[x].left in h.cells
    && var y, q := h.cells[x].left, h.cells[x].parent;
    && y != x && h.cells[y].parent == x
    && (h.cells[y].right != null ==>
          && h.cells[y].right in h.cells && h.cells[y].right !in {x, y} && h.cells[y].right != q
          && h.cells[h.cells[y].right].parent == y)
    && (q == null ==> h.root == x)
    && (q != null ==>
          && q in h.cells && q !in {x, y} && h.root != x
          && (h.cells[q].left == x || h.cells[q].right == x)
          && h.cells[q].left != y && h.cells[q].right != y)
  }

  ghost function RotatedRight(h: Heap, x: TimerNode): Heap
    requires AroundRight(h, x)
  {
    var y := h.cells[x].left;
    var m := h.cells[y].right;
    var h1 := WithLeft(h, x, m);
    var h2 := if m != null then WithParent(h1, m, x) else h1;
    var h3 := WithParent(h2, y, h.cells[x].parent);
    WithParent(WithRight(Redirected(h3, x, y), y, x), x, y)
  }

  /** Linked trees have that shape around every node with a right child. */
  lemma TurnDistinct(h: Heap, l: Layout, x: TimerNode)
    requires Linked(h, l) && x in h.cells && h.cells[x].right != null
    ensures Around(h, x)
    ensures var y := h.cells[x].right;
      y in l.at && l.at[y].lo == l.at[x].idx + 1 && l.at[y].hi == l.at[x].hi
  {
    var y := h.cells[x].right;
    assert NodeOk(h, l, x) && NodeOk(h, l, y);
    if h.cells[y].left != null { assert NodeOk(h, l, h.cells[y].left); }
    if h.cells[x].parent != null { assert NodeOk(h, l, h.cells[x].parent); }
  }

  lemma RotatedLeftTurns(h: Heap, x: TimerNode)
    requires Around(h, x)
    ensures var y := h.cells[x].right; var b := RotatedLeft(h, x);
      Turn(h, b, x, y, h.cells[y].left, h.cells[x].parent) && SameColours(h, b)
  {
  }

  /** And around a right rotation. */
  lemma UnturnDistinct(h: Heap, l: Layout, x: TimerNode)
    requires Linked(h, l) && x in h.cells && h.cells[x].left != null
    ensures AroundRight(h, x)
    ensures var y := h.cells[x].left;
      y in l.at && l.at[y].lo == l.at[x].lo && l.at[y].hi == l.at[x].idx
  {
    var y := h.cells[x].left;
    assert NodeOk(h, l, x) && NodeOk(h, l, y);
    if h.cells[y].right != null { assert NodeOk(h, l, h.cells[y].right); }
    if h.cells[x].parent != null { assert NodeOk(h, l, h.cells[x].parent); }
  }

  lemma RotatedRightTurns(h: Heap, x: TimerNode)
    requires AroundRight(h, x)
    ensures var y := h.cells[x].left; var b := RotatedRight(h, x);
      Turn(b, h, y, x, h.cells[y].right, h.cells[x].parent) && SameColours(h, b)
  {
  }

  lemma TurnNode(a: Heap, k: Layout, b: Heap, l: Layout,
                 x: TimerNode, y: TimerNode, m: TimerNode?, q: TimerNode?, n: TimerNode)
    requires Turn(a, b, x, y, m, q) && TurnLayout(k, l, x, y)
    requires a.cells.Keys == k.at.Keys && n in a.cells
    requires NodeOk(a, k, n) && NodeOk(a, k, x) && NodeOk(a, k, y)
    ensures NodeOk(b, l, n)
  {
    if n == x { } else if n == y { } else if n == m { } else if n == q { } else {
      assert b.cells[n] == a.cells[n] && l.at[n] == k.at[n];
    }
  }

  lemma UnturnNode(a: Heap, k: Layout, b: Heap, l: Layout,
                   x: TimerNode, y: TimerNode, m: TimerNode?, q: TimerNode?, n: TimerNode)
    requires Turn(a, b, x, y, m, q) && TurnLayout(k, l, x, y)
    requires b.cells.Keys == l.at.Keys && n in b.cells
    requires NodeOk(b, l, n) && NodeOk(b, l, x) && NodeOk(b, l, y)
    ensures NodeOk(a, k, n)
  {
    if n == x { } else if n == y { } else if n == m { } else if n == q { } else {
      assert b.cells[n] == a.cells[n] && l.at[n] == k.at[n];
    }
  }

  lemma TurnBase(a: Heap, k: Layout, b: Heap, l: Layout,
                 x: TimerNode, y: TimerNode, m: TimerNode?, q: TimerNode?)
    requires Turn(a, b, x, y, m, q) && TurnLayout(k, l, x, y)
    requires Indexed(a, k) && RootOk(a, k) && NodeOk(a, k, x) && NodeOk(a, k, y)
    ensures Indexed(b, l) && RootOk(b, l)
  {
    forall n | n in l.at ensures PlaceOk(l, n) { assert PlaceOk(k, n); }
  }

  lemma UnturnBase(a: Heap, k: Layout, b: Heap, l: Layout,
                   x: TimerNode, y: TimerNode, m: TimerNode?, q: TimerNode?)
    requires Turn(a, b, x, y, m, q) && TurnLayout(k, l, x, y)
    requires Indexed(b, l) && RootOk(b, l) && NodeOk(b, l, x) && NodeOk(b, l, y)
    ensures Indexed(a, k) && RootOk(a, k)
  {
    forall n | n in k.at ensures PlaceOk(k, n) { assert PlaceOk(l, n); }
  }

  /** A left rotation keeps all links and the in-order sequence. */
  lemma TurnLinked(a: Heap, k: Layout, b: Heap, l: Layout,
                   x: TimerNode, y: TimerNode, m: TimerNode?, q: TimerNode?)
    requires Turn(a, b, x, y, m, q) && TurnLayout(k, l, x, y)
    requires Linked(a, k)
    ensures Linked(b, l)
  {
    assert NodeOk(a, k, x) && NodeOk(a, k, y);
    TurnBase(a, k, b, l, x, y, m, q);
    forall n | n in b.cells ensures NodeOk(b, l, n) {
      assert NodeOk(a, k, n);
      TurnNode(a, k, b, l, x, y, m, q, n);
    }
  }

  /** So does a right rotation. */
  lemma UnturnLinked(a: Heap, k: Layout, b: Heap, l: Layout,
                     x: TimerNode, y: TimerNode, m: TimerNode?, q: TimerNode?)
    requires Turn(a, b, x, y, m, q) && TurnLayout(k, l, x, y)
    requires Linked(b, l)
    ensures Linked(a, k)
  {
    assert NodeOk(b, l, x) && NodeOk(b, l, y);
    UnturnBase(a, k, b, l, x, y, m, q);
    forall n | n in a.cells ensures NodeOk(a, k, n) {
      assert NodeOk(b, l, n);
      UnturnNode(a, k, b, l, x, y, m, q, n);
    }
  }

  /** Turning a red lower node over a node of any colour, the upper position keeping its
      colour and the lower one staying red, changes no path's black count. */
  ghost predicate ColoursAcross(a: Heap, b: Heap, x: TimerNode, y: TimerNode)
    requires x in a.cells && y in a.cells && x in b.cells && y in b.cells
  {
    a.cells[y].red && b.cells[x].red && a.cells[x].red == b.cells[y].red
  }

  lemma TurnCountNode(a: Heap, k: Layout, b: Heap, l: Layout,
                      x: TimerNode, y: TimerNode, m: TimerNode?, q: TimerNode?, n: TimerNode)
    requires Turn(a, b, x, y, m, q) && TurnLayout(k, l, x, y) && ColoursAcross(a, b, x, y)
    requires Indexed(a, k) && Indexed(b, l) && n in a.cells
    requires NodeOk(a, k, n) && NodeOk(a, k, x) && NodeOk(a, k, y)
    requires CountOk(a, k, n) && CountOk(a, k, x) && CountOk(a, k, y)
    ensures CountOk(b, l, n)
  {
    assert PlaceOk(l, n);
    if n == x { } else if n == y { } else if n == m { } else if n == q { } else {
      assert b.cells[n] == a.cells[n] && l.at[n] == k.at[n];
    }
  }

  lemma UnturnCountNode(a: Heap, k: Layout, b: Heap, l: Layout,
                        x: TimerNode, y: TimerNode, m: TimerNode?, q: TimerNode?, n: TimerNode)
    requires Turn(a, b, x, y, m, q) && TurnLayout(k, l, x, y) && ColoursAcross(a, b, x, y)
    requires Indexed(a, k) && Indexed(b, l) && n in a.cells
    requires NodeOk(b, l, n) && NodeOk(b, l, x) && NodeOk(b, l, y)
    requires CountOk(b, l, n) && CountOk(b, l, x) && CountOk(b, l, y)
    ensures CountOk(a, k, n)
  {
    assert PlaceOk(k, n);
    if n == x { } else if n == y { } else if n == m { } else if n == q { } else {
      assert b.cells[n] == a.cells[n] && l.at[n] == k.at[n];
    }
  }

  lemma TurnCounted(a: Heap, k: Layout, b: Heap, l: Layout,
                    x: TimerNode, y: TimerNode, m: TimerNode?, q: TimerNode?)
    requires Turn(a, b, x, y, m, q) && TurnLayout(k, l, x, y) && ColoursAcross(a, b, x, y)
    requires Linked(a, k) && Linked(b, l) && Counted(a, k)
    ensures Counted(b, l)
  {
    assert NodeOk(a, k, x) && NodeOk(a, k, y) && CountOk(a, k, x) && CountOk(a, k, y);
    forall n | n in b.cells ensures CountOk(b, l, n) {
      assert NodeOk(a, k, n) && CountOk(a, k, n);
      TurnCountNode(a, k, b, l, x, y, m, q, n);
    }
  }

  lemma UnturnCounted(a: Heap, k: Layout, b: Heap, l: Layout,
                      x: TimerNode, y: TimerNode, m: TimerNode?, q: TimerNode?)
    requires Turn(a, b, x, y, m, q) && TurnLayout(k, l, x, y) && ColoursAcross(a, b, x, y)
    requires Linked(a, k) && Linked(b, l) && Counted(b, l)
    ensures Counted(a, k)
  {
    assert NodeOk(b, l, x) && NodeOk(b, l, y) && CountOk(b, l, x) && CountOk(b, l, y);
    forall n | n in a.cells ensures CountOk(a, k, n) {
      assert NodeOk(b, l, n) && CountOk(b, l, n);
      UnturnCountNode(a, k, b, l, x, y, m, q, n);
    }
  }

  // ---------------------------------------------------------------- the repair loop

  ghost predicate SameKeys(a: Heap, b: Heap) {
    && a.cells.Keys == b.cells.Keys
    && forall n {:trigger b.cells[n]} :: n in a.cells ==> b.cells[n].key == a.cells[n].key
  }

  lemma KeepSorted(a: Heap, k: Layout, b: Heap, l: Layout)
    requires Sorted(a, k) && Indexed(b, l) && SameKeys(a, b) && k.order == l.order
    ensures Sorted(b, l)
  {
  }

  /** The invariant of the repair loop: at most the link above `node` joins two reds. */
  ghost predicate Fixing(h: Heap, l: Layout, node: TimerNode) {
    && Linked(h, l) && Counted(h, l) && Sorted(h, l) && RedOk(h, node)
    && node in h.cells && (RootBlack(h) || h.root == node)
  }

  /** `node` and its parent `p` are both red; `g` is the grandparent. */
  ghost predicate Violation(h: Heap, node: TimerNode, p: TimerNode, g: TimerNode) {
    && node in h.cells && p in h.cells && g in h.cells
    && h.cells[node].parent == p && h.cells[p].parent == g
    && h.cells[node].red && h.cells[p].red
    && node != p && p != g && node != g
  }

  /** The loop never dereferences null: a red parent is not the root. */
  lemma GrandparentExists(h: Heap, l: Layout, node: TimerNode)
    requires Fixing(h, l, node) && h.root != node && h.cells[node].red
    ensures h.cells[node].parent != null && h.cells[node].parent in h.cells
    ensures var p := h.cells[node].parent; h.cells[p].red ==>
      && h.cells[p].parent != null && Violation(h, node, p, h.cells[p].parent)
      && !h.cells[h.cells[p].parent].red
  {
    assert NodeOk(h, l, node);
    var p := h.cells[node].parent;
    assert NodeOk(h, l, p);
    assert Proper(h, p);
    if h.cells[p].red { assert NodeOk(h, l, h.cells[p].parent); }
  }

  /** `b` is `a` with `g` red and its children `p` and `u` black. */
  ghost predicate Recoloured(a: Heap, b: Heap, p: TimerNode, u: TimerNode, g: TimerNode) {
    && a.root == b.root && a.cells.Keys == b.cells.Keys
    && p in a.cells && u in a.cells && g in a.cells
    && b.cells[p] == a.cells[p].(red := false)
    && b.cells[u] == a.cells[u].(red := false)
    && b.cells[g] == a.cells[g].(red := true)
    && (forall n {:trigger b.cells[n]} {:trigger a.cells[n]} ::
          n in a.cells && n != p && n != u && n != g ==> b.cells[n] == a.cells[n])
  }

  ghost function Lowered(l: Layout, g: TimerNode): Layout
    requires g in l.at
  {
    l.(at := l.at[g := l.at[g].(cnt := l.at[g].cnt - 1)])
  }

  lemma RecolourLinked(a: Heap, l: Layout, b: Heap, p: TimerNode, u: TimerNode, g: TimerNode)
    requires Recoloured(a, b, p, u, g) && Linked(a, l) && p != u && p != g && u != g
    ensures Linked(b, Lowered(l, g))
  {
    var l' := Lowered(l, g);
    forall n | n in b.cells ensures NodeOk(b, l', n) {
      assert NodeOk(a, l, n);
      assert b.cells[n] == a.cells[n].(red := b.cells[n].red);
    }
  }

  lemma RecolourCounted(a: Heap, l: Layout, b: Heap, p: TimerNode, u: TimerNode, g: TimerNode)
    requires Recoloured(a, b, p, u, g) && Linked(a, l) && Counted(a, l) && p != u && p != g && u != g
    requires Indexed(b, Lowered(l, g))
    requires a.cells[p].parent == g && a.cells[u].parent == g
    requires a.cells[p].red && a.cells[u].red && !a.cells[g].red
    ensures Counted(b, Lowered(l, g))
  {
    var l' := Lowered(l, g);
    assert NodeOk(a, l, g) && NodeOk(a, l, p) && NodeOk(a, l, u);
    forall n | n in b.cells ensures CountOk(b, l', n) {
      assert NodeOk(a, l, n) && CountOk(a, l, n);
    }
  }

  /** Red uncle: recolour and go on at the grandparent. */
  lemma RecolourStep(a: Heap, l: Layout, b: Heap, node: TimerNode, p: TimerNode, u: TimerNode, g: TimerNode)
    requires Fixing(a, l, node) && Violation(a, node, p, g) && Recoloured(a, b, p, u, g)
    requires p != u && u != g && u != node && a.cells[u].parent == g && a.cells[u].red && !a.cells[g].red
    requires (a.cells[g].left == p && a.cells[g].right == u) || (a.cells[g].left == u && a.cells[g].right == p)
    ensures Fixing(b, Lowered(l, g), g)
  {
    RecolourLinked(a, l, b, p, u, g);
    RecolourCounted(a, l, b, p, u, g);
    KeepSorted(a, l, b, Lowered(l, g));
    assert NodeOk(a, l, g);
    forall n | n in b.cells && n != g ensures Proper(b, n) {
      assert NodeOk(a, l, n);
      assert n != node ==> Proper(a, n);
    }
  }

  /** Red inner grandchild on the left side: a left rotation at `p` moves it outside. */
  lemma InnerLeftStep(a: Heap, k: Layout, b: Heap, l: Layout,
                      p: TimerNode, node: TimerNode, m: TimerNode?, g: TimerNode)
    requires Fixing(a, k, node) && Violation(a, node, p, g) && !a.cells[g].red
    requires Turn(a, b, p, node, m, g) && SameColours(a, b) && TurnLayout(k, l, p, node)
    ensures Fixing(b, l, p) && Violation(b, p, node, g) && !b.cells[g].red
  {
    TurnLinked(a, k, b, l, p, node, m, g);
    TurnCounted(a, k, b, l, p, node, m, g);
    KeepSorted(a, k, b, l);
    assert NodeOk(a, k, p) && NodeOk(a, k, node);
    forall n | n in b.cells && n != p ensures Proper(b, n) {
      assert NodeOk(a, k, n);
      assert n != node ==> Proper(a, n);
    }
  }

  lemma InnerRightStep(a: Heap, k: Layout, b: Heap, l: Layout,
                       p: TimerNode, node: TimerNode, m: TimerNode?, g: TimerNode)
    requires Fixing(b, l, node) && Violation(b, node, p, g) && !b.cells[g].red
    requires Turn(a, b, node, p, m, g) && SameColours(a, b) && TurnLayout(k, l, node, p)
    ensures Fixing(a, k, p) && Violation(a, p, node, g) && !a.cells[g].red
  {
    UnturnLinked(a, k, b, l, node, p, m, g);
    UnturnCounted(a, k, b, l, node, p, m, g);
    KeepSorted(b, l, a, k);
    assert NodeOk(b, l, p) && NodeOk(b, l, node);
    forall n | n in a.cells && n != p ensures Proper(a, n) {
      assert NodeOk(b, l, n);
      assert n != node ==> Proper(b, n);
    }
  }

  /** Only `p` and `g` change colour: black and red. */
  ghost predicate Swapped(a: Heap, b: Heap, p: TimerNode, g: TimerNode) {
    && a.cells.Keys == b.cells.Keys && p in a.cells && g in a.cells
    && !b.cells[p].red && b.cells[g].red
    && forall n {:trigger b.cells[n]} :: n in a.cells && n != p && n != g ==> b.cells[n].red == a.cells[n].red
  }

  /** The only red nodes whose parent changes are `m`, `g` and the other child of `g`. */
  lemma OuterLeftRed(a: Heap, k: Layout, b: Heap, node: TimerNode,
                     p: TimerNode, g: TimerNode, m: TimerNode?, q: TimerNode?)
    requires Fixing(a, k, node) && Violation(a, node, p, g)
    requires a.cells[p].right == node && node != m
    requires a.cells[g].left != null ==> a.cells[g].left in a.cells && !a.cells[a.cells[g].left].red
    requires Turn(a, b, g, p, m, q) && Swapped(a, b, p, g)
    ensures RedOk(b, p)
  {
    assert NodeOk(a, k, p) && NodeOk(a, k, node) && NodeOk(a, k, g);
    forall n | n in b.cells && n != p ensures Proper(b, n) {
      assert NodeOk(a, k, n);
      assert n != node ==> Proper(a, n);
    }
  }

  /** Red outer grandchild on the right side: rotate the grandparent left, swap colours, done. */
  lemma OuterLeftStep(a: Heap, k: Layout, b: Heap, l: Layout, node: TimerNode,
                      p: TimerNode, g: TimerNode, m: TimerNode?, q: TimerNode?)
    requires Fixing(a, k, node) && Violation(a, node, p, g) && !a.cells[g].red
    requires a.cells[p].right == node && node != m
    requires a.cells[g].left != null ==> a.cells[g].left in a.cells && !a.cells[a.cells[g].left].red
    requires Turn(a, b, g, p, m, q) && Swapped(a, b, p, g) && TurnLayout(k, l, g, p)
    ensures Fixing(b, l, p) && !b.cells[p].red
  {
    TurnLinked(a, k, b, l, g, p, m, q);
    TurnCounted(a, k, b, l, g, p, m, q);
    KeepSorted(a, k, b, l);
    OuterLeftRed(a, k, b, node, p, g, m, q);
    assert NodeOk(a, k, g);
  }

  lemma OuterRightRed(a: Heap, b: Heap, l: Layout, node: TimerNode,
                      p: TimerNode, g: TimerNode, m: TimerNode?, q: TimerNode?)
    requires Fixing(b, l, node) && Violation(b, node, p, g)
    requires b.cells[p].left == node && node != m
    requires b.cells[g].right != null ==> b.cells[g].right in b.cells && !b.cells[b.cells[g].right].red
    requires Turn(a, b, p, g, m, q) && Swapped(b, a, p, g)
    ensures RedOk(a, p)
  {
    assert NodeOk(b, l, p) && NodeOk(b, l, node) && NodeOk(b, l, g);
    forall n | n in a.cells && n != p ensures Proper(a, n) {
      assert NodeOk(b, l, n);
      assert n != node ==> Proper(b, n);
    }
  }

  lemma OuterRightStep(a: Heap, k: Layout, b: Heap, l: Layout, node: TimerNode,
                       p: TimerNode, g: TimerNode, m: TimerNode?, q: TimerNode?)
    requires Fixing(b, l, node) && Violation(b, node, p, g) && !b.cells[g].red
    requires b.cells[p].left == node && node != m
    requires b.cells[g].right != null ==> b.cells[g].right in b.cells && !b.cells[b.cells[g].right].red
    requires Turn(a, b, p, g, m, q) && Swapped(b, a, p, g) && TurnLayout(k, l, p, g)
    ensures Fixing(a, k, p) && !a.cells[p].red
  {
    UnturnLinked(a, k, b, l, p, g, m, q);
    UnturnCounted(a, k, b, l, p, g, m, q);
    KeepSorted(b, l, a, k);
    OuterRightRed(a, b, l, node, p, g, m, q);
    assert NodeOk(b, l, g);
  }

  lemma RootExists(h: Heap, l: Layout, node: TimerNode)
    requires Linked(h, l) && node in h.cells
    ensures h.root != null && h.root in h.cells
  {
    assert NodeOk(h, l, node);
  }

  /** The end of the repair: no violation is left and the root becomes black. */
  ghost function RootRaised(h: Heap, l: Layout): Layout
    requires h.root != null ==> h.root in h.cells
  {
    if h.root != null && h.cells[h.root].red then l.(base := l.base - 1) else l
  }

  ghost predicate RootBlackened(a: Heap, b: Heap) {
    && a.root == b.root && a.cells.Keys == b.cells.Keys
    && a.root != null && a.root in a.cells
    && b.cells == a.cells[a.root := a.cells[a.root].(red := false)]
  }

  lemma BlackenRootNode(a: Heap, l: Layout, b: Heap, node: TimerNode, n: TimerNode)
    requires Fixing(a, l, node) && RootBlackened(a, b) && Proper(a, node)
    requires n in b.cells && Indexed(b, RootRaised(a, l))
    ensures NodeOk(b, RootRaised(a, l), n) && CountOk(b, RootRaised(a, l), n) && Proper(b, n)
  {
    assert NodeOk(a, l, n) && CountOk(a, l, n) && Proper(a, n) && NodeOk(a, l, a.root);
    assert b.cells[n] == a.cells[n].(red := b.cells[n].red);
    var p := a.cells[n].parent;
    if p != null { assert b.cells[p] == a.cells[p].(red := b.cells[p].red); }
  }

  lemma BlackenRoot(a: Heap, l: Layout, b: Heap, node: TimerNode)
    requires Fixing(a, l, node) && RootBlackened(a, b)
    requires Proper(a, node)
    ensures Weak(b, RootRaised(a, l))
  {
    var l' := RootRaised(a, l);
    forall n | n in l'.at ensures PlaceOk(l', n) { assert PlaceOk(l, n); }
    forall n | n in b.cells
      ensures NodeOk(b, l', n) && CountOk(b, l', n) && Proper(b, n)
    {
      BlackenRootNode(a, l, b, node, n);
    }
    KeepSorted(a, l, b, l');
  }

  // ---------------------------------------------------------------- attaching a leaf

  function ShiftUp(p: Place, k: int): Place {
    Place(if k <= p.idx then p.idx + 1 else p.idx,
          if k < p.lo then p.lo + 1 else p.lo,
          if k <= p.hi then p.hi + 1 else p.hi,
          p.cnt)
  }

  /** `l` is `k` with `z` at position `i`; the nil link there is split in two. */
  ghost predicate Grown(k: Layout, l: Layout, i: int, z: TimerNode) {
    && 0 <= i <= |k.order| && |k.blk| == |k.order| + 1
    && l.order == k.order[..i] + [z] + k.order[i..]
    && l.at.Keys == k.at.Keys + {z} && z !in k.at
    && l.at[z] == Place(i, i, i + 1, k.blk[i])
    && (forall n {:trigger l.at[n]} {:trigger k.at[n]} :: n in k.at ==> l.at[n] == ShiftUp(k.at[n], i))
    && l.blk == k.blk[..i] + [k.blk[i]] + k.blk[i..] && l.base == k.base
  }

  ghost function GrownAt(k: Layout, i: int, z: TimerNode): (l: Layout)
    requires 0 <= i <= |k.order| && |k.blk| == |k.order| + 1 && z !in k.at
    ensures Grown(k, l, i, z)
  {
    Layout(k.order[..i] + [z] + k.order[i..],
           map n | n in k.at.Keys + {z} ::
             if n == z then Place(i, i, i + 1, k.blk[i]) else ShiftUp(k.at[n], i),
           k.blk[..i] + [k.blk[i]] + k.blk[i..], k.base)
  }

  /** A red leaf does not unbalance. */
  lemma GrownBalanced(k: Layout, l: Layout, i: int, z: TimerNode)
    requires Grown(k, l, i, z) && Balanced(k)
    ensures Balanced(l)
  {
  }

  /** `b` is `a` with the red leaf `z` hung below `p` (as the root if there is none). */
  ghost predicate Attached(a: Heap, b: Heap, z: TimerNode, p: TimerNode?, onLeft: bool) {
    && z !in a.cells && z != p && b.cells.Keys == a.cells.Keys + {z}
    && b.cells[z].left == null && b.cells[z].right == null && b.cells[z].parent == p && b.cells[z].red
    && (if p == null then a.root == null && b.root == z else
          && b.root == a.root && p in a.cells
          && (if onLeft then a.cells[p].left == null && b.cells[p] == a.cells[p].(left := z)
              else a.cells[p].right == null && b.cells[p] == a.cells[p].(right := z)))
    && (forall n {:trigger b.cells[n]} {:trigger a.cells[n]} :: n in a.cells && n != p ==> b.cells[n] == a.cells[n])
  }

  /** The nil position that the new leaf takes. */
  ghost predicate NilAt(a: Heap, l: Layout, p: TimerNode?, onLeft: bool, k: int) {
    if p == null then k == 0 && l.order == []
    else p in l.at && k == (if onLeft then l.at[p].lo else l.at[p].hi)
  }

  /** Walking up from a subtree that ends at position `k` leads to the node at `k`, arriving
      from its left: so that node's left link is not null. */
  lemma {:induction false} NextHasLeft(h: Heap, l: Layout, c: TimerNode, k: int)
    requires Linked(h, l) && c in h.cells && l.at[c].hi == k && 0 <= k < |l.order|
    ensures l.order[k] in h.cells && h.cells[l.order[k]].left != null && l.at[l.order[k]].lo < k
    decreases |l.order| - l.at[c].hi + l.at[c].lo
  {
    assert NodeOk(h, l, c);
    var q := h.cells[c].parent;
    if q != null {
      assert NodeOk(h, l, q);
      if h.cells[q].left != c { NextHasLeft(h, l, q, k); }
    }
  }

  /** A nil position has one owner. */
  lemma NilUnique(h: Heap, l: Layout, p: TimerNode, onLeft: bool, k: int, n: TimerNode)
    requires Linked(h, l) && p in h.cells && n in h.cells
    requires if onLeft then h.cells[p].left == null && k == l.at[p].lo
             else h.cells[p].right == null && k == l.at[p].hi
    ensures h.cells[n].left == null && l.at[n].lo == k ==> n == p && onLeft
    ensures h.cells[n].right == null && l.at[n].hi == k ==> n == p && !onLeft
  {
    assert NodeOk(h, l, p) && NodeOk(h, l, n);
    if onLeft {
      if h.cells[n].right == null && l.at[n].hi == k { NextHasLeft(h, l, n, k); }
    } else if h.cells[n].left == null && l.at[n].lo == k {
      NextHasLeft(h, l, p, k);
    }
  }

  lemma AttachIndexed(a: Heap, k: Layout, b: Heap, l: Layout, z: TimerNode, p: TimerNode?, onLeft: bool, i: int)
    requires Indexed(a, k) && Attached(a, b, z, p, onLeft) && Grown(k, l, i, z)
    ensures Indexed(b, l)
  {
    forall n | n in l.at ensures PlaceOk(l, n) {
      if n != z { assert PlaceOk(k, n); }
    }
    forall j | 0 <= j < |l.order| ensures l.order[j] in l.at && l.at[l.order[j]].idx == j {
      if j < i { assert l.order[j] == k.order[j]; }
      else if j > i { assert l.order[j] == k.order[j - 1]; }
    }
  }

  /** Everything the new leaf's neighbours need to know about one old node. */
  ghost predicate NilFree(h: Heap, l: Layout, p: TimerNode?, onLeft: bool, i: int, n: TimerNode)
    requires n in h.cells && n in l.at
  {
    && (h.cells[n].left == null && l.at[n].lo == i ==> n == p && onLeft)
    && (h.cells[n].right == null && l.at[n].hi == i ==> n == p && !onLeft)
  }

  lemma AttachNode(a: Heap, k: Layout, b: Heap, l: Layout, z: TimerNode, p: TimerNode?, onLeft: bool, i: int,
                   n: TimerNode)
    requires a.cells.Keys == k.at.Keys && Attached(a, b, z, p, onLeft) && Grown(k, l, i, z)
    requires NilAt(a, k, p, onLeft, i)
    requires n in a.cells && NodeOk(a, k, n) && NilFree(a, k, p, onLeft, i, n)
    requires p != null ==> NodeOk(a, k, p)
    requires n in l.at && PlaceOk(l, n)
    ensures NodeOk(b, l, n)
  {
    if n == p { } else {
      assert b.cells[n] == a.cells[n];
    }
  }

  lemma AttachCount(a: Heap, k: Layout, b: Heap, l: Layout, z: TimerNode, p: TimerNode?, onLeft: bool, i: int,
                    n: TimerNode)
    requires Indexed(a, k) && Indexed(b, l) && Attached(a, b, z, p, onLeft) && Grown(k, l, i, z)
    requires NilAt(a, k, p, onLeft, i)
    requires n in a.cells && NodeOk(a, k, n) && CountOk(a, k, n)
    requires p != null ==> NodeOk(a, k, p)
    ensures CountOk(b, l, n)
  {
    assert PlaceOk(l, n) && PlaceOk(k, n);
    if n == p { } else {
      assert b.cells[n] == a.cells[n];
    }
  }

  /** A node that may be hung at position `i` of a sorted sequence, after all its equals. */
  ghost predicate Fits(h: Heap, l: Layout, key: int, i: int)
    requires Indexed(h, l)
  {
    && 0 <= i <= |l.order|
    && (forall j :: 0 <= j < i ==> h.cells[l.order[j]].key <= key)
    && (forall j :: i <= j < |l.order| ==> key < h.cells[l.order[j]].key)
  }

  lemma AttachSorted(a: Heap, k: Layout, b: Heap, l: Layout, z: TimerNode, p: TimerNode?, onLeft: bool, i: int)
    requires Sorted(a, k) && Indexed(b, l) && Attached(a, b, z, p, onLeft) && Grown(k, l, i, z)
    requires Fits(a, k, b.cells[z].key, i)
    ensures Sorted(b, l)
  {
    forall j | 0 <= j < |l.order|
      ensures j != i ==> l.order[j] == k.order[if j < i then j else j - 1]
      ensures b.cells[l.order[j]].key ==
                if j == i then b.cells[z].key else a.cells[k.order[if j < i then j else j - 1]].key
    {
      if j != i { assert k.order[if j < i then j else j - 1] in k.at; }
    }
  }

  lemma AttachOld(a: Heap, k: Layout, b: Heap, l: Layout, z: TimerNode, p: TimerNode?, onLeft: bool, i: int,
                  n: TimerNode)
    requires Weak(a, k) && Attached(a, b, z, p, onLeft) && Grown(k, l, i, z) && Indexed(b, l)
    requires NilAt(a, k, p, onLeft, i) && n in a.cells
    ensures NodeOk(b, l, n) && CountOk(b, l, n) && Proper(b, n)
  {
    assert NodeOk(a, k, n) && CountOk(a, k, n) && Proper(a, n) && PlaceOk(l, n);
    if p != null {
      assert NodeOk(a, k, p);
      NilUnique(a, k, p, onLeft, i, n);
    }
    AttachNode(a, k, b, l, z, p, onLeft, i, n);
    AttachCount(a, k, b, l, z, p, onLeft, i, n);
  }

  lemma AttachLeaf(a: Heap, k: Layout, b: Heap, l: Layout, z: TimerNode, p: TimerNode?, onLeft: bool, i: int)
    requires Weak(a, k) && Attached(a, b, z, p, onLeft) && Grown(k, l, i, z) && Indexed(b, l)
    requires NilAt(a, k, p, onLeft, i)
    ensures NodeOk(b, l, z) && CountOk(b, l, z)
  {
    assert PlaceOk(l, z);
    if p != null { assert NodeOk(a, k, p) && CountOk(a, k, p); }
  }

  lemma AttachRoot(a: Heap, k: Layout, b: Heap, l: Layout, z: TimerNode, p: TimerNode?, onLeft: bool, i: int)
    requires Indexed(a, k) && RootOk(a, k) && Attached(a, b, z, p, onLeft) && Grown(k, l, i, z)
    requires NilAt(a, k, p, onLeft, i) && (a.root != null ==> PlaceOk(k, a.root))
    requires p != null ==> a.root != null
    ensures RootOk(b, l)
    ensures RootBlack(a) ==> RootBlack(b) || b.root == z
  {
  }

  /** Hanging a red leaf at its place leaves at most one violation, at the leaf. */
  lemma AttachStep(a: Heap, k: Layout, b: Heap, l: Layout, z: TimerNode, p: TimerNode?, onLeft: bool, i: int)
    requires Weak(a, k) && Attached(a, b, z, p, onLeft) && Grown(k, l, i, z)
    requires NilAt(a, k, p, onLeft, i) && Fits(a, k, b.cells[z].key, i)
    ensures Fixing(b, l, z)
  {
    AttachIndexed(a, k, b, l, z, p, onLeft, i);
    AttachSorted(a, k, b, l, z, p, onLeft, i);
    AttachLeaf(a, k, b, l, z, p, onLeft, i);
    if a.root != null { assert PlaceOk(k, a.root); }
    if p != null { assert PlaceOk(k, p); }
    AttachRoot(a, k, b, l, z, p, onLeft, i);
    forall n | n in b.cells && n != z
      ensures NodeOk(b, l, n) && CountOk(b, l, n) && Proper(b, n)
    {
      AttachOld(a, k, b, l, z, p, onLeft, i, n);
    }
  }

  // ---------------------------------------------------------------- splicing a node out

  /** `b` is `a` without `z`, which had at most the one child `c`; `q` takes the child over. */
  ghost predicate Spliced(a: Heap, b: Heap, z: TimerNode, c: TimerNode?, q: TimerNode?) {
    && z in a.cells && b.cells.Keys == a.cells.Keys - {z} && z != q && z != c
    && (a.cells[z].left == null || a.cells[z].right == null)
    && c == (if a.cells[z].left != null then a.cells[z].left else a.cells[z].right)
    && q == a.cells[z].parent
    && (c != null ==> c in a.cells && c != q && b.cells[c] == a.cells[c].(parent := q))
    && (q == null ==> a.root == z && b.root == c)
    && (q != null ==>
          && b.root == a.root && a.root != z && q in a.cells
          && b.cells[q] == Relink(a.cells[q], z, c))
    && (forall n {:trigger b.cells[n]} {:trigger a.cells[n]} ::
          n in a.cells && n != z && n != c && n != q ==> b.cells[n] == a.cells[n])
  }

  predicate Within(z: Place, j: int) { z.lo <= j < z.hi }

  function ShiftDown(p: Place, z: Place, d: int): Place {
    Place(if z.idx < p.idx then p.idx - 1 else p.idx,
          if z.idx < p.lo then p.lo - 1 else p.lo,
          if z.idx < p.hi then p.hi - 1 else p.hi,
          if Within(z, p.idx) then p.cnt - d else p.cnt)
  }

  /** The black count of nil link `j` once the node at `z` is gone. */
  function ShiftedBlk(blk: seq<int>, z: Place, d: int, j: int): int
    requires 0 <= j < |blk|
  {
    if z.lo <= j <= z.hi then blk[j] - d else blk[j]
  }

  /** `l` is `k` without `z`: the nil link `r` goes, and the paths through `z` lose `d` blacks. */
  ghost predicate Shrunk(k: Layout, l: Layout, z: TimerNode, r: int, d: int) {
    && z in k.at && 0 <= k.at[z].idx < |k.order| && |k.blk| == |k.order| + 1 && 0 <= r < |k.blk|
    && l.order == k.order[..k.at[z].idx] + k.order[k.at[z].idx + 1..]
    && l.at.Keys == k.at.Keys - {z}
    && (forall n {:trigger l.at[n]} {:trigger k.at[n]} ::
          n in k.at && n != z ==> l.at[n] == ShiftDown(k.at[n], k.at[z], d))
    && |l.blk| == |k.order| && l.base == k.base
    && (forall j {:trigger l.blk[j]} :: 0 <= j < |l.blk| ==>
          l.blk[j] == ShiftedBlk(k.blk, k.at[z], d, if j < r then j else j + 1))
  }

  ghost function ShrunkAt(k: Layout, z: TimerNode, r: int, d: int): (l: Layout)
    requires z in k.at && 0 <= k.at[z].idx < |k.order| && |k.blk| == |k.order| + 1 && 0 <= r < |k.blk|
    ensures Shrunk(k, l, z, r, d)
  {
    var i := k.at[z].idx;
    Layout(k.order[..i] + k.order[i + 1..],
           map n | n in k.at && n != z :: ShiftDown(k.at[n], k.at[z], d),
           seq(|k.order|, j requires 0 <= j < |k.order| => ShiftedBlk(k.blk, k.at[z], d, if j < r then j else j + 1)),
           k.base)
  }

  /** The nil link that an erased node takes with it. */
  ghost predicate RemovedNil(a: Heap, k: Layout, z: TimerNode, r: int) {
    z in a.cells && z in k.at && r == (if a.cells[z].right == null then k.at[z].idx + 1 else k.at[z].idx)
  }

  ghost predicate AtMostOneChild(h: Heap, z: TimerNode) {
    z in h.cells && (h.cells[z].left == null || h.cells[z].right == null)
  }

  ghost function OnlyChild(h: Heap, z: TimerNode): TimerNode?
    requires z in h.cells
  {
    if h.cells[z].left != null then h.cells[z].left else h.cells[z].right
  }

  /** The neighbours of a node with at most one child are linked and different. */
  ghost predicate Spliceable(h: Heap, z: TimerNode) {
    && AtMostOneChild(h, z)
    && var c, q := OnlyChild(h, z), h.cells[z].parent;
    && z != c && z != q
    && (c != null ==> c in h.cells && c != q)
    && (if q == null then h.root == z else q in h.cells && h.root != z)
  }

  lemma CanSplice(h: Heap, l: Layout, z: TimerNode)
    requires Linked(h, l) && AtMostOneChild(h, z)
    ensures Spliceable(h, z) && PlaceOk(l, z)
  {
    assert NodeOk(h, l, z);
    if OnlyChild(h, z) != null { assert NodeOk(h, l, OnlyChild(h, z)); }
    if h.cells[z].parent != null { assert NodeOk(h, l, h.cells[z].parent); }
  }

  ghost function SplicedHeap(h: Heap, z: TimerNode): Heap
    requires Spliceable(h, z)
  {
    var c := OnlyChild(h, z);
    var h1 := if c != null then WithParent(h, c, h.cells[z].parent) else h;
    var h2 := Redirected(h1, z, c);
    h2.(cells := h2.cells - {z})
  }

  lemma SplicedHeapIs(h: Heap, z: TimerNode)
    requires Spliceable(h, z)
    ensures Spliced(h, SplicedHeap(h, z), z, OnlyChild(h, z), h.cells[z].parent)
  {
  }

  /** Positions inside a subtree's interval belong to nodes of that subtree. */
  lemma {:induction false} Inside(h: Heap, l: Layout, z: TimerNode, w: TimerNode)
    requires Linked(h, l) && z in h.cells && w in h.cells && Within(l.at[z], l.at[w].idx)
    ensures l.at[z].lo <= l.at[w].lo && l.at[w].hi <= l.at[z].hi
    ensures w != z ==> h.cells[w].parent != null && h.cells[w].parent in h.cells
                       && Within(l.at[z], l.at[h.cells[w].parent].idx)
    decreases l.at[z].hi - l.at[z].lo
  {
    assert NodeOk(h, l, z) && NodeOk(h, l, w);
    if l.at[w].idx < l.at[z].idx {
      Inside(h, l, h.cells[z].left, w);
    } else if l.at[z].idx < l.at[w].idx {
      Inside(h, l, h.cells[z].right, w);
    }
  }

  lemma SpliceIndexed(a: Heap, k: Layout, b: Heap, l: Layout, z: TimerNode, r: int, d: int)
    requires Indexed(a, k) && b.cells.Keys == a.cells.Keys - {z} && Shrunk(k, l, z, r, d)
    ensures Indexed(b, l)
  {
    var i := k.at[z].idx;
    assert PlaceOk(k, z);
    forall n | n in l.at ensures PlaceOk(l, n) {
      assert PlaceOk(k, n);
    }
    forall j | 0 <= j < |l.order| ensures l.order[j] in l.at && l.at[l.order[j]].idx == j {
      var n := k.order[if j < i then j else j + 1];
      assert l.order[j] == n && n in k.at;
    }
  }

  lemma SpliceParent(a: Heap, b: Heap, z: TimerNode, c: TimerNode?, q: TimerNode?, n: TimerNode)
    requires Spliced(a, b, z, c, q) && ParentOk(a, z) && n in b.cells && ParentOk(a, n)
    requires c != null ==> ParentOk(a, c)
    requires a.cells[z].parent == null ==> a.root == z
    requires a.cells[n].parent == z ==> n == c
    ensures ParentOk(b, n)
  {
  }

  lemma SpliceSides(a: Heap, k: Layout, b: Heap, l: Layout, z: TimerNode, c: TimerNode?, q: TimerNode?,
                    r: int, d: int, n: TimerNode)
    requires a.cells.Keys == k.at.Keys && Spliced(a, b, z, c, q) && Shrunk(k, l, z, r, d)
    requires n in b.cells && n != q && NodeOk(a, k, n) && PlaceOk(l, n) && PlaceOk(k, z)
    requires c != null ==> a.cells[c].parent == z
    ensures LeftOk(b, l, n) && RightOk(b, l, n)
  {
    assert b.cells[n].left == a.cells[n].left && b.cells[n].right == a.cells[n].right;
  }

  lemma SpliceAbove(a: Heap, k: Layout, b: Heap, l: Layout, z: TimerNode, c: TimerNode?, q: TimerNode,
                    r: int, d: int)
    requires a.cells.Keys == k.at.Keys && Spliced(a, b, z, c, q) && Shrunk(k, l, z, r, d)
    requires NodeOk(a, k, z) && q in b.cells && NodeOk(a, k, q) && PlaceOk(l, q)
    requires c != null ==> a.cells[c].parent == z
    ensures LeftOk(b, l, q) && RightOk(b, l, q)
  {
    var w := if a.cells[q].left == z then a.cells[q].right else a.cells[q].left;
    assert w != null ==> w != z && w != c && b.cells[w].parent == q;
    if a.cells[q].left == z {
      assert b.cells[q].left == c && b.cells[q].right == w;
    } else {
      assert b.cells[q].right == c && b.cells[q].left == w;
    }
  }

  lemma SpliceNode(a: Heap, k: Layout, b: Heap, l: Layout, z: TimerNode, c: TimerNode?, q: TimerNode?,
                   r: int, d: int, n: TimerNode)
    requires Linked(a, k) && Spliced(a, b, z, c, q) && Shrunk(k, l, z, r, d) && Indexed(b, l)
    requires n in b.cells
    ensures NodeOk(b, l, n)
  {
    assert NodeOk(a, k, z) && NodeOk(a, k, n) && PlaceOk(l, n);
    if c != null { assert NodeOk(a, k, c); }
    SpliceParent(a, b, z, c, q, n);
    if n == q {
      SpliceAbove(a, k, b, l, z, c, n, r, d);
    } else {
      SpliceSides(a, k, b, l, z, c, q, r, d, n);
    }
  }

  /** A node outside a subtree has its parent and its nil links outside as well. */
  lemma Outside(h: Heap, l: Layout, z: TimerNode, n: TimerNode)
    requires Linked(h, l) && z in h.cells && n in h.cells && !Within(l.at[z], l.at[n].idx)
    ensures h.cells[n].parent != null ==> h.cells[n].parent in h.cells && !Within(l.at[z], l.at[h.cells[n].parent].idx)
    ensures h.cells[n].left == null ==> !(l.at[z].lo <= l.at[n].lo <= l.at[z].hi)
    ensures h.cells[n].right == null ==> !(l.at[z].lo <= l.at[n].hi <= l.at[z].hi)
  {
    assert NodeOk(h, l, z) && NodeOk(h, l, n);
    var p := h.cells[n].parent;
    if p != null && Within(l.at[z], l.at[p].idx) {
      assert NodeOk(h, l, p);
      Inside(h, l, z, p);
    }
    if h.cells[n].left == null && l.at[n].lo == l.at[z].hi {
      NextHasLeft(h, l, z, l.at[z].hi);
    }
    if h.cells[n].right == null && l.at[n].hi == l.at[z].lo {
      NextHasLeft(h, l, n, l.at[z].lo);
      Inside(h, l, z, l.order[l.at[z].lo]);
    }
  }

  /** What the splice needs to know about the paths through `n`. */
  ghost predicate Apart(h: Heap, l: Layout, z: TimerNode, r: int, n: TimerNode)
    requires z in l.at && n in h.cells && n in l.at
  {
    var c := h.cells[n];
    var inside := Within(l.at[z], l.at[n].idx);
    && (c.left == null ==> l.at[n].lo != r && (l.at[z].lo <= l.at[n].lo <= l.at[z].hi <==> inside))
    && (c.right == null ==> l.at[n].hi != r && (l.at[z].lo <= l.at[n].hi <= l.at[z].hi <==> inside))
    && (c.parent != null ==> c.parent in l.at && (Within(l.at[z], l.at[c.parent].idx) <==> inside))
    && (inside && n != z ==> c.parent != null)
  }

  lemma SpliceApart(h: Heap, l: Layout, z: TimerNode, r: int, n: TimerNode)
    requires Linked(h, l) && z in h.cells && n in h.cells && n != z && RemovedNil(h, l, z, r)
    requires h.cells[z].left == null || h.cells[z].right == null
    ensures Apart(h, l, z, r, n)
  {
    assert NodeOk(h, l, z) && NodeOk(h, l, n);
    NilUnique(h, l, z, h.cells[z].right != null, r, n);
    if Within(l.at[z], l.at[n].idx) { Inside(h, l, z, n); } else { Outside(h, l, z, n); }
  }

  /** Where the black count of a surviving nil link is found afterwards. */
  lemma NilMoved(k: Layout, l: Layout, z: TimerNode, r: int, d: int, g: int)
    requires Shrunk(k, l, z, r, d) && k.at[z].idx <= r <= k.at[z].idx + 1
    requires 0 <= g < |k.blk| && g != r
    ensures var g' := if k.at[z].idx < g then g - 1 else g;
      0 <= g' < |l.blk| && l.blk[g'] == ShiftedBlk(k.blk, k.at[z], d, g)
  {
  }

  lemma SpliceUp(a: Heap, k: Layout, b: Heap, l: Layout, z: TimerNode, c: TimerNode?, q: TimerNode?,
                 r: int, n: TimerNode)
    requires a.cells.Keys == k.at.Keys
    requires Spliced(a, b, z, c, q) && Shrunk(k, l, z, r, B(a.cells[z].red))
    requires PlaceOk(k, z) && UpOk(a, k, z) && n in b.cells && UpOk(a, k, n) && Apart(a, k, z, r, n)
    requires c != null ==> a.cells[c].parent == z
    requires a.cells[n].parent == z ==> n == c
    requires q != null ==> !Within(k.at[z], k.at[q].idx)
    ensures UpOk(b, l, n)
  {
    if n == c { } else {
      assert b.cells[n].parent == a.cells[n].parent != z && b.cells[n].red == a.cells[n].red;
    }
  }

  lemma SpliceNil(a: Heap, k: Layout, b: Heap, l: Layout, z: TimerNode, c: TimerNode?, q: TimerNode?,
                  r: int, n: TimerNode)
    requires a.cells.Keys == k.at.Keys
    requires Spliced(a, b, z, c, q) && Shrunk(k, l, z, r, B(a.cells[z].red)) && RemovedNil(a, k, z, r)
    requires n in b.cells && n != q && PlaceOk(k, n) && PlaceOk(l, n) && NilOk(a, k, n) && Apart(a, k, z, r, n)
    ensures NilOk(b, l, n)
  {
    assert b.cells[n].left == a.cells[n].left && b.cells[n].right == a.cells[n].right;
    var d := B(a.cells[z].red);
    if a.cells[n].left == null { NilMoved(k, l, z, r, d, k.at[n].lo); }
    if a.cells[n].right == null { NilMoved(k, l, z, r, d, k.at[n].hi); }
  }

  /** The node above keeps the count of its nil link on the other side ... */
  lemma SpliceNilAbove(a: Heap, k: Layout, b: Heap, l: Layout, z: TimerNode, c: TimerNode?, q: TimerNode, r: int)
    requires a.cells.Keys == k.at.Keys
    requires Spliced(a, b, z, c, q) && Shrunk(k, l, z, r, B(a.cells[z].red)) && RemovedNil(a, k, z, r)
    requires PlaceOk(k, q) && NilOk(a, k, q) && PlaceOk(l, q) && Apart(a, k, z, r, q)
    requires !Within(k.at[z], k.at[q].idx)
    ensures a.cells[q].left != z && a.cells[q].left == null ==> l.blk[l.at[q].lo] == l.at[q].cnt
    ensures a.cells[q].left == z && a.cells[q].right == null ==> l.blk[l.at[q].hi] == l.at[q].cnt
  {
    var d := B(a.cells[z].red);
    if a.cells[q].left == null { NilMoved(k, l, z, r, d, k.at[q].lo); }
    if a.cells[q].right == null { NilMoved(k, l, z, r, d, k.at[q].hi); }
  }

  /** ... and takes over the one that a leaf leaves behind. */
  lemma SpliceNilLeaf(a: Heap, k: Layout, b: Heap, l: Layout, z: TimerNode, q: TimerNode, r: int)
    requires a.cells.Keys == k.at.Keys
    requires Spliced(a, b, z, null, q) && Shrunk(k, l, z, r, B(a.cells[z].red)) && RemovedNil(a, k, z, r)
    requires NodeOk(a, k, z) && UpOk(a, k, z) && NilOk(a, k, z) && NodeOk(a, k, q)
    requires !Within(k.at[z], k.at[q].idx)
    ensures var g := if a.cells[q].left == z then l.at[q].lo else l.at[q].hi;
      0 <= g < |l.blk| && l.blk[g] == l.at[q].cnt
  {
    NilMoved(k, l, z, r, B(a.cells[z].red), k.at[z].idx);
  }

  lemma ParentOutside(h: Heap, l: Layout, z: TimerNode)
    requires Linked(h, l) && z in h.cells && h.cells[z].parent != null
    ensures var q := h.cells[z].parent;
      q in h.cells && NodeOk(h, l, q) && !Within(l.at[z], l.at[q].idx)
  {
    assert NodeOk(h, l, z) && NodeOk(h, l, h.cells[z].parent);
  }

  /** Counts stay right for every remaining node. */
  lemma SpliceCount(a: Heap, k: Layout, b: Heap, l: Layout, z: TimerNode, c: TimerNode?, q: TimerNode?,
                    r: int, n: TimerNode)
    requires Linked(a, k) && Counted(a, k) && Indexed(b, l)
    requires Spliced(a, b, z, c, q) && Shrunk(k, l, z, r, B(a.cells[z].red)) && RemovedNil(a, k, z, r)
    requires n in b.cells
    ensures CountOk(b, l, n)
  {
    assert NodeOk(a, k, z) && CountOk(a, k, z) && NodeOk(a, k, n) && CountOk(a, k, n) && PlaceOk(l, n);
    SpliceApart(a, k, z, r, n);
    if q != null {
      ParentOutside(a, k, z);
    }
    SpliceUp(a, k, b, l, z, c, q, r, n);
    if n != q {
      SpliceNil(a, k, b, l, z, c, q, r, n);
    } else {
      SpliceNilAbove(a, k, b, l, z, c, n, r);
      if c == null { SpliceNilLeaf(a, k, b, l, z, n, r); }
    }
  }

  lemma SpliceSorted(a: Heap, k: Layout, b: Heap, l: Layout, z: TimerNode, c: TimerNode?, q: TimerNode?, r: int, d: int)
    requires Sorted(a, k) && Indexed(b, l) && Spliced(a, b, z, c, q) && Shrunk(k, l, z, r, d)
    ensures Sorted(b, l)
  {
    var i := k.at[z].idx;
    assert PlaceOk(k, z);
    forall j | 0 <= j < |l.order|
      ensures l.order[j] == k.order[if j < i then j else j + 1]
      ensures b.cells[l.order[j]].key == a.cells[l.order[j]].key
    {
      assert l.order[j] == k.order[if j < i then j else j + 1];
      var n := l.order[j];
      if n == c { } else if n == q { } else { assert b.cells[n] == a.cells[n]; }
    }
  }

  lemma SpliceRoot(a: Heap, k: Layout, b: Heap, l: Layout, z: TimerNode, c: TimerNode?, q: TimerNode?, r: int, d: int)
    requires Indexed(a, k) && RootOk(a, k) && Spliced(a, b, z, c, q) && Shrunk(k, l, z, r, d)
    requires NodeOk(a, k, z) && (a.root != null ==> NodeOk(a, k, a.root))
    ensures RootOk(b, l)
  {
  }

  lemma SpliceLinked(a: Heap, k: Layout, b: Heap, l: Layout, z: TimerNode, c: TimerNode?, q: TimerNode?, r: int, d: int)
    requires Linked(a, k) && Spliced(a, b, z, c, q) && Shrunk(k, l, z, r, d)
    ensures Linked(b, l)
  {
    SpliceIndexed(a, k, b, l, z, r, d);
    assert NodeOk(a, k, z);
    if a.root != null { assert NodeOk(a, k, a.root); }
    SpliceRoot(a, k, b, l, z, c, q, r, d);
    forall n | n in b.cells ensures NodeOk(b, l, n) { SpliceNode(a, k, b, l, z, c, q, r, d, n); }
  }

  lemma SpliceCounted(a: Heap, k: Layout, b: Heap, l: Layout, z: TimerNode, c: TimerNode?, q: TimerNode?, r: int)
    requires Linked(a, k) && Counted(a, k) && Indexed(b, l)
    requires Spliced(a, b, z, c, q) && Shrunk(k, l, z, r, B(a.cells[z].red)) && RemovedNil(a, k, z, r)
    ensures Counted(b, l)
  {
    forall n | n in b.cells ensures CountOk(b, l, n) { SpliceCount(a, k, b, l, z, c, q, r, n); }
    assert NodeOk(a, k, z) && CountOk(a, k, z);
    if b.root == null {
      NilMoved(k, l, z, r, B(a.cells[z].red), k.at[z].idx);
    }
  }

  /** Removing a node with at most one child can join two reds only at that child, and only
      if the removed node was black. */
  lemma SpliceRed(a: Heap, k: Layout, b: Heap, z: TimerNode, c: TimerNode?, q: TimerNode?)
    requires Weak(a, k) && Spliced(a, b, z, c, q)
    ensures RedOk(b, c)
    ensures a.cells[z].red ==> RedOk(b, null) && RootBlack(b)
    ensures c == null || c != b.root ==> RootBlack(b)
    ensures c != null ==> c in b.cells && (c == b.root ==> Proper(b, c))
  {
    assert NodeOk(a, k, z) && Proper(a, z);
    if c != null { assert NodeOk(a, k, c) && Proper(a, c); }
    forall n | n in b.cells && n != c ensures Proper(b, n) {
      assert Proper(a, n) && NodeOk(a, k, n);
      var p := a.cells[n].parent;
      assert n == q || b.cells[n] == a.cells[n];
      assert p != null ==> p == q || p == c || b.cells[p] == a.cells[p];
    }
  }

  /** The black counts of the paths stay equal exactly if the removed node was red or the root. */
  lemma SpliceBalanced(a: Heap, k: Layout, b: Heap, l: Layout, z: TimerNode, c: TimerNode?, q: TimerNode?, r: int)
    requires Linked(a, k) && Balanced(k)
    requires Spliced(a, b, z, c, q) && Shrunk(k, l, z, r, B(a.cells[z].red)) && RemovedNil(a, k, z, r)
    ensures Balanced(l) <==> a.cells[z].red || a.root == z
  {
    var d := B(a.cells[z].red);
    assert NodeOk(a, k, z);
    var p := k.at[z];
    if d == 1 && a.root != z {
      assert q != null && NodeOk(a, k, q);
      var outer := if p.lo > 0 then 0 else |k.order|;
      var inner := if r == p.hi then p.lo else p.hi;
      NilMoved(k, l, z, r, d, outer);
      NilMoved(k, l, z, r, d, inner);
    }
  }

  /** After the splice: nothing to repair if the node was red or the tree is empty now, and
      otherwise at most one violation, at the child. */
  lemma SpliceStep(a: Heap, k: Layout, b: Heap, l: Layout, z: TimerNode, r: int)
    requires Weak(a, k) && AtMostOneChild(a, z) && RemovedNil(a, k, z, r)
    requires Spliced(a, b, z, OnlyChild(a, z), a.cells[z].parent) && Shrunk(k, l, z, r, B(a.cells[z].red))
    ensures a.cells[z].red || b.root == null ==> Weak(b, l)
    ensures var c := OnlyChild(a, z); var fix := if c != null then c else a.cells[z].parent;
      !a.cells[z].red && b.root != null ==> fix != null && Fixing(b, l, fix)
  {
    var c, q := OnlyChild(a, z), a.cells[z].parent;
    SpliceLinked(a, k, b, l, z, c, q, r, B(a.cells[z].red));
    SpliceCounted(a, k, b, l, z, c, q, r);
    SpliceSorted(a, k, b, l, z, c, q, r, B(a.cells[z].red));
    SpliceRed(a, k, b, z, c, q);
  }

  // ---------------------------------------------------------------- reading the tree back

  /** The in-order sequence of a subtree, read off the pointers alone. */
  ghost function InOrder(h: Heap, l: Layout, n: TimerNode?): seq<TimerNode>
    requires Linked(h, l) && (n != null ==> n in h.cells)
    decreases if n == null then 0 else l.at[n].hi - l.at[n].lo
  {
    if n == null then [] else
      assert NodeOk(h, l, n);
      assert h.cells[n].left != null ==> PlaceOk(l, h.cells[n].left);
      assert h.cells[n].right != null ==> PlaceOk(l, h.cells[n].right);
      InOrder(h, l, h.cells[n].left) + [n] + InOrder(h, l, h.cells[n].right)
  }

  /** The number of black nodes on each root-to-nil path, left to right, starting below `above`. */
  ghost function PathBlacks(h: Heap, l: Layout, n: TimerNode?, above: int): seq<int>
    requires Linked(h, l) && (n != null ==> n in h.cells)
    decreases if n == null then 0 else l.at[n].hi - l.at[n].lo
  {
    if n == null then [above] else
      assert NodeOk(h, l, n);
      assert h.cells[n].left != null ==> PlaceOk(l, h.cells[n].left);
      assert h.cells[n].right != null ==> PlaceOk(l, h.cells[n].right);
      var here := above + B(h.cells[n].red);
      PathBlacks(h, l, h.cells[n].left, here) + PathBlacks(h, l, h.cells[n].right, here)
  }

  /** The number of nodes on the longest path down. */
  ghost function Height(h: Heap, l: Layout, n: TimerNode?): nat
    requires Linked(h, l) && (n != null ==> n in h.cells)
    decreases if n == null then 0 else l.at[n].hi - l.at[n].lo
  {
    if n == null then 0 else
      assert NodeOk(h, l, n);
      assert h.cells[n].left != null ==> PlaceOk(l, h.cells[n].left);
      assert h.cells[n].right != null ==> PlaceOk(l, h.cells[n].right);
      var a := Height(h, l, h.cells[n].left);
      var b := Height(h, l, h.cells[n].right);
      1 + if a < b then b else a
  }

  /** The layout's sequence is the in-order traversal of the pointers. */
  lemma {:induction false} InOrderIs(h: Heap, l: Layout, n: TimerNode)
    requires Linked(h, l) && n in h.cells
    ensures 0 <= l.at[n].lo <= l.at[n].hi <= |l.order|
    ensures InOrder(h, l, n) == l.order[l.at[n].lo..l.at[n].hi]
    decreases l.at[n].hi - l.at[n].lo
  {
    assert NodeOk(h, l, n);
    var c := h.cells[n];
    var p := l.at[n];
    if c.left != null { assert PlaceOk(l, c.left); InOrderIs(h, l, c.left); }
    if c.right != null { assert PlaceOk(l, c.right); InOrderIs(h, l, c.right); }
    assert InOrder(h, l, c.left) == l.order[p.lo..p.idx];
    assert InOrder(h, l, c.right) == l.order[p.idx + 1..p.hi];
    assert l.order[p.lo..p.hi] == l.order[p.lo..p.idx] + [n] + l.order[p.idx + 1..p.hi];
  }

  /** The layout's counts are the black counts of the paths, up to the offset. */
  lemma {:induction false} PathBlacksAre(h: Heap, l: Layout, n: TimerNode, above: int)
    requires Linked(h, l) && Counted(h, l) && n in h.cells
    ensures var s := PathBlacks(h, l, n, above);
      && 0 <= l.at[n].lo <= l.at[n].hi < |l.blk| && |s| == l.at[n].hi - l.at[n].lo + 1
      && forall j :: 0 <= j < |s| ==> s[j] == l.blk[l.at[n].lo + j] - l.at[n].cnt + B(h.cells[n].red) + above
    decreases l.at[n].hi - l.at[n].lo
  {
    assert NodeOk(h, l, n) && CountOk(h, l, n);
    var c := h.cells[n];
    var here := above + B(c.red);
    if c.left != null {
      assert PlaceOk(l, c.left) && CountOk(h, l, c.left);
      PathBlacksAre(h, l, c.left, here);
    }
    if c.right != null {
      assert PlaceOk(l, c.right) && CountOk(h, l, c.right);
      PathBlacksAre(h, l, c.right, here);
    }
  }

  function Pow2(n: nat): nat { if n == 0 then 1 else 2 * Pow2(n - 1) }

  /** In a balanced subtree, with `bh` black nodes on every path down from and including `n`:
      it has at least 2^bh - 1 nodes, and no path is longer than twice `bh` (plus a red top). */
  lemma {:induction false} SubtreeBounds(h: Heap, l: Layout, n: TimerNode, total: int) returns (bh: nat)
    requires Weak(h, l) && n in h.cells
    requires forall j :: 0 <= j < |l.blk| ==> l.blk[j] == total
    ensures bh == total - l.at[n].cnt + B(h.cells[n].red)
    ensures Pow2(bh) <= l.at[n].hi - l.at[n].lo + 1
    ensures Height(h, l, n) <= 2 * bh + (if h.cells[n].red then 1 else 0)
    decreases l.at[n].hi - l.at[n].lo
  {
    assert NodeOk(h, l, n) && CountOk(h, l, n);
    var c := h.cells[n];
    var a, b: nat := 0, 0;
    if c.left != null {
      assert PlaceOk(l, c.left) && CountOk(h, l, c.left) && Proper(h, c.left);
      a := SubtreeBounds(h, l, c.left, total);
    }
    if c.right != null {
      assert PlaceOk(l, c.right) && CountOk(h, l, c.right) && Proper(h, c.right);
      b := SubtreeBounds(h, l, c.right, total);
    }
    bh := a + B(c.red);
  }

  /** The common black count of the paths of a balanced tree. */
  ghost function Level(l: Layout): int
    requires |l.blk| > 0
  {
    l.blk[0] - l.base
  }

  /** A balanced tree of n nodes is logarithmically shallow: 2^bh <= n + 1 and height <= 2 bh,
      where bh is the common black count of its paths. */
  lemma LogarithmicHeight(h: Heap, l: Layout)
    requires Weak(h, l) && Balanced(l)
    ensures 0 <= Level(l) && Pow2(Level(l)) <= |l.order| + 1 && Height(h, l, h.root) <= 2 * Level(l)
  {
    if h.root != null {
      assert CountOk(h, l, h.root);
      var bh := SubtreeBounds(h, l, h.root, l.blk[0]);
    }
  }

  lemma {:induction false} SubtreeHeight(h: Heap, l: Layout, n: TimerNode, top: int)
    requires Weak(h, l) && n in h.cells && forall j :: 0 <= j < |l.blk| ==> l.blk[j] <= top
    ensures l.at[n].cnt <= top
    ensures Height(h, l, n) <= 2 * (top - l.at[n].cnt + B(h.cells[n].red)) + (if h.cells[n].red then 1 else 0)
    decreases l.at[n].hi - l.at[n].lo
  {
    assert NodeOk(h, l, n) && CountOk(h, l, n);
    var c := h.cells[n];
    if c.left != null {
      assert PlaceOk(l, c.left) && CountOk(h, l, c.left) && Proper(h, c.left);
      SubtreeHeight(h, l, c.left, top);
    }
    if c.right != null {
      assert PlaceOk(l, c.right) && CountOk(h, l, c.right) && Proper(h, c.right);
      SubtreeHeight(h, l, c.right, top);
    }
  }

  /** Also without balance the height is at most twice the largest black count of a path. */
  lemma HeightByBlacks(h: Heap, l: Layout, top: int)
    requires Weak(h, l) && forall j :: 0 <= j < |l.blk| ==> l.blk[j] <= top
    ensures Height(h, l, h.root) <= 2 * (top - l.base)
  {
    if h.root == null {
      assert l.blk[0] == l.base;
    } else {
      assert CountOk(h, l, h.root);
      SubtreeHeight(h, l, h.root, top);
    }
  }

  /** A tree of some height has a bounded number of nodes. */
  lemma {:induction false} SizeByHeight(h: Heap, l: Layout, n: TimerNode)
    requires Linked(h, l) && n in h.cells
    ensures l.at[n].hi - l.at[n].lo + 1 <= Pow2(Height(h, l, n))
    decreases l.at[n].hi - l.at[n].lo
  {
    assert NodeOk(h, l, n);
    var c := h.cells[n];
    var top := Height(h, l, n) - 1;
    Pow2Grows(0, top);
    if c.left != null {
      assert PlaceOk(l, c.left);
      SizeByHeight(h, l, c.left);
      Pow2Grows(Height(h, l, c.left), top);
    }
    if c.right != null {
      assert PlaceOk(l, c.right);
      SizeByHeight(h, l, c.right);
      Pow2Grows(Height(h, l, c.right), top);
    }
  }

  lemma {:induction false} Pow2Grows(a: nat, b: nat)
    requires a <= b
    ensures 1 <= Pow2(a) <= Pow2(b)
  {
    if a < b { Pow2Grows(a, b - 1); }
    if a > 0 { Pow2Grows(a - 1, a - 1); }
  }

  /** In a balanced tree of four nodes every path has two black ones. */
  lemma FourNodes(h: Heap, l: Layout)
    requires Weak(h, l) && Balanced(l) && |l.order| == 4
    ensures Level(l) == 2
  {
    assert NodeOk(h, l, h.root);
    LogarithmicHeight(h, l);
    SizeByHeight(h, l, h.root);
    if Level(l) >= 3 { Pow2Grows(3, Level(l)); }
    if Level(l) <= 1 { Pow2Grows(Height(h, l, h.root), 2); }
  }

  /** Two nodes are too few for that. */
  lemma TwoNodes(h: Heap, l: Layout)
    requires Weak(h, l) && |l.order| == 2
    ensures Balanced(l) ==> Level(l) != 2
  {
    if Balanced(l) {
      LogarithmicHeight(h, l);
      Pow2Grows(2, 2);
    }
  }

  /** With two black nodes on every path the first node is not the root. */
  lemma FirstNotRoot(h: Heap, l: Layout)
    requires Weak(h, l) && Balanced(l) && Level(l) == 2 && l.order != []
    ensures h.root != l.order[0]
  {
    assert NodeOk(h, l, h.root) && CountOk(h, l, h.root);
    var c := h.cells[h.root].left;
    if c != null { assert PlaceOk(l, c); }
  }

  /** Taking out a red node keeps the common black count. */
  lemma ShrunkLevel(k: Layout, l: Layout, z: TimerNode, r: int)
    requires Shrunk(k, l, z, r, 0) && Balanced(k)
    ensures Level(l) == Level(k)
  {
    assert l.blk[0] == ShiftedBlk(k.blk, k.at[z], 0, if 0 < r then 0 else 1);
  }

  // ---------------------------------------------------------------- repair steps as functions

  /** How the layout follows a right rotation that lifts `p` over `g`. */
  ghost function LayoutRight(l: Layout, g: TimerNode, p: TimerNode): Layout
    requires g in l.at && p in l.at
  {
    l.(at := l.at[g := l.at[g].(lo := l.at[p].idx + 1)][p := l.at[p].(hi := l.at[g].hi)])
  }

  ghost function LayoutLeft(l: Layout, g: TimerNode, p: TimerNode): Layout
    requires g in l.at && p in l.at
  {
    l.(at := l.at[g := l.at[g].(hi := l.at[p].idx)][p := l.at[p].(lo := l.at[g].lo)])
  }

  ghost predicate UncleRed(h: Heap, l: Layout, node: TimerNode, p: TimerNode, u: TimerNode, g: TimerNode) {
    && Fixing(h, l, node) && Violation(h, node, p, g) && !h.cells[g].red
    && u in h.cells && h.cells[u].red && p != u && u != g && u != node && h.cells[u].parent == g
    && ((h.cells[g].left == p && h.cells[g].right == u) || (h.cells[g].left == u && h.cells[g].right == p))
  }

  ghost function RecolouredHeap(h: Heap, p: TimerNode, u: TimerNode, g: TimerNode): Heap
    requires p in h.cells && u in h.cells && g in h.cells
  {
    WithRed(WithRed(WithRed(h, g, true), p, false), u, false)
  }

  /** `node`, `p`, `g` are a left-left line with a violation and no red uncle. */
  ghost predicate OuterOnLeft(h: Heap, l: Layout, node: TimerNode, p: TimerNode, g: TimerNode) {
    && Fixing(h, l, node) && Violation(h, node, p, g) && !h.cells[g].red
    && h.cells[g].left == p && h.cells[p].left == node
    && (h.cells[g].right != null ==> h.cells[g].right in h.cells && !h.cells[h.cells[g].right].red)
    && AroundRight(h, g)
  }

  ghost function OuterRightHeap(h: Heap, p: TimerNode, g: TimerNode): Heap
    requires AroundRight(h, g) && p in h.cells
  {
    WithRed(WithRed(RotatedRight(h, g), p, h.cells[g].red), g, h.cells[p].red)
  }

  ghost function OuterLeftHeap(h: Heap, p: TimerNode, g: TimerNode): Heap
    requires Around(h, g) && p in h.cells
  {
    WithRed(WithRed(RotatedLeft(h, g), p, h.cells[g].red), g, h.cells[p].red)
  }

  /** `node`, `p`, `g` are a right-right line with a violation and no red uncle. */
  ghost predicate OuterOnRight(h: Heap, l: Layout, node: TimerNode, p: TimerNode, g: TimerNode) {
    && Fixing(h, l, node) && Violation(h, node, p, g) && !h.cells[g].red
    && h.cells[g].right == p && h.cells[p].right == node
    && (h.cells[g].left != null ==> h.cells[g].left in h.cells && !h.cells[h.cells[g].left].red)
    && Around(h, g)
  }

  /** What no repair step changes: keys, the in-order sequence, the black count of any path. */
  ghost predicate Kept(h: Heap, l: Layout, h': Heap, l': Layout) {
    SameKeys(h, h') && l'.order == l.order && l'.blk == l.blk
  }

  /** How many steps the repair may still take: it ends at a black node and otherwise moves
      to ever larger subtrees. */
  ghost function Pending(h: Heap, l: Layout, node: TimerNode): int
    requires node in h.cells && node in l.at
  {
    if h.cells[node].red then |l.order| + 1 - (l.at[node].hi - l.at[node].lo) else 0
  }

  /** The grandparent's subtree is larger. */
  lemma RecolourDescends(h: Heap, l: Layout, node: TimerNode, p: TimerNode, u: TimerNode, g: TimerNode)
    requires UncleRed(h, l, node, p, u, g)
    ensures var h', l' := RecolouredHeap(h, p, u, g), Lowered(l, g);
      Kept(h, l, h', l') && 0 <= Pending(h', l', g) < Pending(h, l, node)
  {
    assert NodeOk(h, l, node) && NodeOk(h, l, p) && NodeOk(h, l, g);
  }

  lemma RecolourWorks(h: Heap, l: Layout, node: TimerNode, p: TimerNode, u: TimerNode, g: TimerNode)
    requires UncleRed(h, l, node, p, u, g)
    ensures var h', l' := RecolouredHeap(h, p, u, g), Lowered(l, g);
      Fixing(h', l', g) && Kept(h, l, h', l') && 0 <= Pending(h', l', g) < Pending(h, l, node)
  {
    RecolourDescends(h, l, node, p, u, g);
    RecolourStep(h, l, RecolouredHeap(h, p, u, g), node, p, u, g);
  }

  /** A rotation stays one whatever colour its two nodes get. */
  lemma TurnWithRed(a: Heap, b: Heap, x: TimerNode, y: TimerNode, m: TimerNode?, q: TimerNode?,
                    n: TimerNode, red: bool)
    requires Turn(a, b, x, y, m, q) && (n == x || n == y)
    ensures Turn(WithRed(a, n, red), b, x, y, m, q)
  {
  }

  lemma UnturnWithRed(a: Heap, b: Heap, x: TimerNode, y: TimerNode, m: TimerNode?, q: TimerNode?,
                      n: TimerNode, red: bool)
    requires Turn(a, b, x, y, m, q) && (n == x || n == y)
    ensures Turn(a, WithRed(b, n, red), x, y, m, q)
  {
  }

  lemma RecolouredSwapped(a: Heap, b: Heap, p: TimerNode, g: TimerNode)
    requires SameColours(a, b) && p in a.cells && g in a.cells && p != g
    ensures Swapped(a, WithRed(WithRed(b, p, false), g, true), p, g)
  {
  }

  lemma OuterRightTurns(h: Heap, l: Layout, node: TimerNode, p: TimerNode, g: TimerNode)
    requires OuterOnLeft(h, l, node, p, g)
    ensures var h', l' := OuterRightHeap(h, p, g), LayoutRight(l, g, p);
      && Turn(h', h, p, g, h.cells[p].right, h.cells[g].parent) && Swapped(h, h', p, g)
      && TurnLayout(l', l, p, g) && node != h.cells[p].right
  {
    UnturnDistinct(h, l, g);
    RotatedRightTurns(h, g);
    var turned := RotatedRight(h, g);
    TurnWithRed(turned, h, p, g, h.cells[p].right, h.cells[g].parent, p, false);
    TurnWithRed(WithRed(turned, p, false), h, p, g, h.cells[p].right, h.cells[g].parent, g, true);
    RecolouredSwapped(h, turned, p, g);
    assert NodeOk(h, l, p);
  }

  lemma OuterRightWorks(h: Heap, l: Layout, node: TimerNode, p: TimerNode, g: TimerNode)
    requires OuterOnLeft(h, l, node, p, g)
    ensures var h', l' := OuterRightHeap(h, p, g), LayoutRight(l, g, p);
      Fixing(h', l', p) && !h'.cells[p].red && Kept(h, l, h', l')
  {
    OuterRightTurns(h, l, node, p, g);
    var h', l' := OuterRightHeap(h, p, g), LayoutRight(l, g, p);
    OuterRightStep(h', l', h, l, node, p, g, h.cells[p].right, h.cells[g].parent);
  }

  lemma OuterLeftTurns(h: Heap, l: Layout, node: TimerNode, p: TimerNode, g: TimerNode)
    requires OuterOnRight(h, l, node, p, g)
    ensures var h', l' := OuterLeftHeap(h, p, g), LayoutLeft(l, g, p);
      && Turn(h, h', g, p, h.cells[p].left, h.cells[g].parent) && Swapped(h, h', p, g)
      && TurnLayout(l, l', g, p) && node != h.cells[p].left
  {
    TurnDistinct(h, l, g);
    RotatedLeftTurns(h, g);
    var turned := RotatedLeft(h, g);
    UnturnWithRed(h, turned, g, p, h.cells[p].left, h.cells[g].parent, p, false);
    UnturnWithRed(h, WithRed(turned, p, false), g, p, h.cells[p].left, h.cells[g].parent, g, true);
    RecolouredSwapped(h, turned, p, g);
    assert NodeOk(h, l, p);
  }

  lemma OuterLeftWorks(h: Heap, l: Layout, node: TimerNode, p: TimerNode, g: TimerNode)
    requires OuterOnRight(h, l, node, p, g)
    ensures var h', l' := OuterLeftHeap(h, p, g), LayoutLeft(l, g, p);
      Fixing(h', l', p) && !h'.cells[p].red && Kept(h, l, h', l')
  {
    OuterLeftTurns(h, l, node, p, g);
    var h', l' := OuterLeftHeap(h, p, g), LayoutLeft(l, g, p);
    OuterLeftStep(h, l, h', l', node, p, g, h.cells[p].left, h.cells[g].parent);
  }

  /** `node` is a red inner grandchild below a red `p` on the left of `g`. */
  ghost predicate InnerOnLeft(h: Heap, l: Layout, node: TimerNode, p: TimerNode, g: TimerNode) {
    && Fixing(h, l, node) && Violation(h, node, p, g) && !h.cells[g].red
    && h.cells[g].left == p && h.cells[p].right == node
    && (h.cells[g].right != null ==> h.cells[g].right in h.cells && !h.cells[h.cells[g].right].red)
  }

  ghost predicate InnerOnRight(h: Heap, l: Layout, node: TimerNode, p: TimerNode, g: TimerNode) {
    && Fixing(h, l, node) && Violation(h, node, p, g) && !h.cells[g].red
    && h.cells[g].right == p && h.cells[p].left == node
    && (h.cells[g].left != null ==> h.cells[g].left in h.cells && !h.cells[h.cells[g].left].red)
  }

  /** A rotation at the parent turns the inner case into the outer one. */
  lemma InnerLeftWorks(h: Heap, l: Layout, node: TimerNode, p: TimerNode, g: TimerNode)
    requires InnerOnLeft(h, l, node, p, g)
    ensures Around(h, p)
    ensures var h', l' := RotatedLeft(h, p), LayoutLeft(l, p, node);
      OuterOnLeft(h', l', p, node, g) && Kept(h, l, h', l')
  {
    TurnDistinct(h, l, p);
    RotatedLeftTurns(h, p);
    var h', l' := RotatedLeft(h, p), LayoutLeft(l, p, node);
    assert NodeOk(h, l, p) && NodeOk(h, l, node) && NodeOk(h, l, g);
    InnerLeftStep(h, l, h', l', p, node, h.cells[node].left, g);
    UnturnDistinct(h', l', g);
    var u := h.cells[g].right;
    if u != null { assert NodeOk(h, l, u); }
  }

  lemma InnerRightWorks(h: Heap, l: Layout, node: TimerNode, p: TimerNode, g: TimerNode)
    requires InnerOnRight(h, l, node, p, g)
    ensures AroundRight(h, p)
    ensures var h', l' := RotatedRight(h, p), LayoutRight(l, p, node);
      OuterOnRight(h', l', p, node, g) && Kept(h, l, h', l')
  {
    UnturnDistinct(h, l, p);
    RotatedRightTurns(h, p);
    var h', l' := RotatedRight(h, p), LayoutRight(l, p, node);
    assert NodeOk(h, l, p) && NodeOk(h, l, node) && NodeOk(h, l, g);
    InnerRightStep(h', l', h, l, p, node, h.cells[node].right, g);
    TurnDistinct(h', l', g);
    var u := h.cells[g].left;
    if u != null { assert NodeOk(h, l, u); }
  }

  /** The case split of the repair loop when the parent is a left child. */
  lemma LeftCases(h: Heap, l: Layout, node: TimerNode, p: TimerNode, g: TimerNode)
    requires Fixing(h, l, node) && Violation(h, node, p, g) && !h.cells[g].red && h.cells[g].left == p
    ensures Pending(h, l, node) > 0
    ensures var u := h.cells[g].right; u != null ==> u in h.cells
    ensures var u := h.cells[g].right;
      if u != null && h.cells[u].red then UncleRed(h, l, node, p, u, g)
      else if h.cells[p].right == node then InnerOnLeft(h, l, node, p, g)
      else OuterOnLeft(h, l, node, p, g)
  {
    assert NodeOk(h, l, node) && NodeOk(h, l, p) && NodeOk(h, l, g);
    UnturnDistinct(h, l, g);
    var u := h.cells[g].right;
    if u != null { assert NodeOk(h, l, u); }
  }

  lemma RightCases(h: Heap, l: Layout, node: TimerNode, p: TimerNode, g: TimerNode)
    requires Fixing(h, l, node) && Violation(h, node, p, g) && !h.cells[g].red && h.cells[g].left != p
    ensures Pending(h, l, node) > 0
    ensures var u := h.cells[g].left; u != null ==> u in h.cells
    ensures var u := h.cells[g].left;
      if u != null && h.cells[u].red then UncleRed(h, l, node, p, u, g)
      else if h.cells[p].left == node then InnerOnRight(h, l, node, p, g)
      else OuterOnRight(h, l, node, p, g)
  {
    assert NodeOk(h, l, node) && NodeOk(h, l, p) && NodeOk(h, l, g);
    TurnDistinct(h, l, g);
    var u := h.cells[g].left;
    if u != null { assert NodeOk(h, l, u); }
  }
}
