/** The intrusive red-black tree of timers, with the pointer surgery of the original. */
module RbTree {
  import opened RbLayout

  class TimerTree {
    var root: TimerNode?
    ghost var snap: Heap    // the pointers, colours and keys of the linked nodes
    ghost var lay: Layout   // where they stand

    ghost function Nodes(): set<TimerNode>
      reads `snap
    {
      snap.cells.Keys
    }

    ghost predicate Mirrors(n: TimerNode)
      reads `snap, n
      requires n in snap.cells
    {
      n.linked && snap.cells[n] == Cell(n.left, n.right, n.parent, n.red, n.expires)
    }

    /** The snapshot shows the real fields. */
    ghost predicate Agrees()
      reads `root, `snap, snap.cells.Keys
    {
      snap.root == root && forall n {:trigger Mirrors(n)} :: n in snap.cells ==> Mirrors(n)
    }

    // One write of a link, with the snapshot kept in step.

    method SetRed(n: TimerNode, red: bool)
      requires Agrees() && n in snap.cells
      modifies `snap, n`red
      ensures Agrees() && snap == WithRed(old(snap), n, red)
    {
      n.red := red;
      snap := WithRed(snap, n, red);
      forall m | m in snap.cells ensures Mirrors(m) { assert old(Mirrors(m)); }
    }

    method SetLeft(n: TimerNode, v: TimerNode?)
      requires Agrees() && n in snap.cells
      modifies `snap, n`left
      ensures Agrees() && snap == WithLeft(old(snap), n, v)
    {
      n.left := v;
      snap := WithLeft(snap, n, v);
      forall m | m in snap.cells ensures Mirrors(m) { assert old(Mirrors(m)); }
    }

    method SetRight(n: TimerNode, v: TimerNode?)
      requires Agrees() && n in snap.cells
      modifies `snap, n`right
      ensures Agrees() && snap == WithRight(old(snap), n, v)
    {
      n.right := v;
      snap := WithRight(snap, n, v);
      forall m | m in snap.cells ensures Mirrors(m) { assert old(Mirrors(m)); }
    }

    method SetParent(n: TimerNode, v: TimerNode?)
      requires Agrees() && n in snap.cells
      modifies `snap, n`parent
      ensures Agrees() && snap == WithParent(old(snap), n, v)
    {
      n.parent := v;
      snap := WithParent(snap, n, v);
      forall m | m in snap.cells ensures Mirrors(m) { assert old(Mirrors(m)); }
    }

    /** Redirects the link that leads to `node`, from its parent or from the root. */
    method Redirect(node: TimerNode, child: TimerNode?)
      requires Agrees() && node in snap.cells
      requires snap.cells[node].parent != null ==> snap.cells[node].parent in snap.cells
      modifies `root, `snap, Nodes()`left, Nodes()`right
      ensures Agrees() && snap == Redirected(old(snap), node, child)
    {
      assert Mirrors(node);
      if node.parent == null {
        root := child;
        snap := snap.(root := child);
        forall m | m in snap.cells ensures Mirrors(m) { assert old(Mirrors(m)); }
      } else {
        assert Mirrors(node.parent);
        if node == node.parent.left {
          SetLeft(node.parent, child);
        } else {
          SetRight(node.parent, child);
        }
      }
    }

    method RotateLeft(node: TimerNode)
      requires Agrees() && Around(snap, node)
      modifies `root, `snap, Nodes()`left, Nodes()`right, Nodes()`parent
      ensures Agrees() && snap == RotatedLeft(old(snap), node)
    {
      assert Mirrors(node);
      var rightChild := node.right;
      assert Mirrors(rightChild);
      SetRight(node, rightChild.left);
      assert Mirrors(rightChild);
      if rightChild.left != null {
        SetParent(rightChild.left, node);
      }
      assert Mirrors(node);
      SetParent(rightChild, node.parent);
      Redirect(node, rightChild);
      SetLeft(rightChild, node);
      SetParent(node, rightChild);
    }

    method RotateRight(node: TimerNode)
      requires Agrees() && AroundRight(snap, node)
      modifies `root, `snap, Nodes()`left, Nodes()`right, Nodes()`parent
      ensures Agrees() && snap == RotatedRight(old(snap), node)
    {
      assert Mirrors(node);
      var leftChild := node.left;
      assert Mirrors(leftChild);
      SetLeft(node, leftChild.right);
      assert Mirrors(leftChild);
      if leftChild.right != null {
        SetParent(leftChild.right, node);
      }
      assert Mirrors(node);
      SetParent(leftChild, node.parent);
      Redirect(node, leftChild);
      SetRight(leftChild, node);
      SetParent(node, leftChild);
    }

    // The three repairs of the loop in `fixViolation`, each with its effect on the snapshot.

    method Recolour(parent: TimerNode, uncle: TimerNode, grandParent: TimerNode)
      requires Agrees() && parent in snap.cells && uncle in snap.cells && grandParent in snap.cells
      requires grandParent in lay.at
      modifies `snap, `lay, Nodes()`red
      ensures Agrees() && snap == RecolouredHeap(old(snap), parent, uncle, grandParent)
      ensures lay == Lowered(old(lay), grandParent)
    {
      SetRed(grandParent, true);
      SetRed(parent, false);
      SetRed(uncle, false);
      lay := Lowered(lay, grandParent);
    }

    method OuterRight(parent: TimerNode, grandParent: TimerNode)
      requires Agrees() && AroundRight(snap, grandParent) && parent in snap.cells
      requires parent in lay.at && grandParent in lay.at && parent != grandParent
      modifies `root, `snap, `lay, Nodes()`left, Nodes()`right, Nodes()`parent, Nodes()`red
      ensures Agrees() && snap == OuterRightHeap(old(snap), parent, grandParent)
      ensures lay == LayoutRight(old(lay), grandParent, parent)
    {
      assert Mirrors(parent) && Mirrors(grandParent);
      RotateRight(grandParent);
      var red := parent.red;
      SetRed(parent, grandParent.red);
      SetRed(grandParent, red);
      lay := LayoutRight(lay, grandParent, parent);
    }

    method OuterLeft(parent: TimerNode, grandParent: TimerNode)
      requires Agrees() && Around(snap, grandParent) && parent in snap.cells
      requires parent in lay.at && grandParent in lay.at && parent != grandParent
      modifies `root, `snap, `lay, Nodes()`left, Nodes()`right, Nodes()`parent, Nodes()`red
      ensures Agrees() && snap == OuterLeftHeap(old(snap), parent, grandParent)
      ensures lay == LayoutLeft(old(lay), grandParent, parent)
    {
      assert Mirrors(parent) && Mirrors(grandParent);
      RotateLeft(grandParent);
      var red := parent.red;
      SetRed(parent, grandParent.red);
      SetRed(grandParent, red);
      lay := LayoutLeft(lay, grandParent, parent);
    }

    // When the uncle is not red: an inner grandchild is first turned outward.

    method TurnOutLeft(node: TimerNode, parent: TimerNode, ghost grandParent: TimerNode)
      requires Agrees() && InnerOnLeft(snap, lay, node, parent, grandParent)
      modifies `root, `snap, `lay, Nodes()`left, Nodes()`right, Nodes()`parent
      ensures Agrees() && OuterOnLeft(snap, lay, parent, node, grandParent)
      ensures Kept(old(snap), old(lay), snap, lay)
    {
      InnerLeftWorks(snap, lay, node, parent, grandParent);
      RotateLeft(parent);
      lay := LayoutLeft(lay, parent, node);
    }

    method TurnOutRight(node: TimerNode, parent: TimerNode, ghost grandParent: TimerNode)
      requires Agrees() && InnerOnRight(snap, lay, node, parent, grandParent)
      modifies `root, `snap, `lay, Nodes()`left, Nodes()`right, Nodes()`parent
      ensures Agrees() && OuterOnRight(snap, lay, parent, node, grandParent)
      ensures Kept(old(snap), old(lay), snap, lay)
    {
      InnerRightWorks(snap, lay, node, parent, grandParent);
      RotateRight(parent);
      lay := LayoutRight(lay, parent, node);
    }

    method RotateAtLeft(start: TimerNode, parent: TimerNode, grandParent: TimerNode) returns (node: TimerNode)
      requires Agrees() && parent in snap.cells
      requires if snap.cells[parent].right == start then InnerOnLeft(snap, lay, start, parent, grandParent)
               else OuterOnLeft(snap, lay, start, parent, grandParent)
      modifies `root, `snap, `lay, Nodes()`left, Nodes()`right, Nodes()`parent, Nodes()`red
      ensures Agrees() && Fixing(snap, lay, node) && !snap.cells[node].red
      ensures Kept(old(snap), old(lay), snap, lay)
    {
      assert Mirrors(parent);
      ghost var child := start;
      node := parent;
      if start == parent.right {
        TurnOutLeft(start, parent, grandParent);
        child, node := parent, start;
      }
      OuterRightWorks(snap, lay, child, node, grandParent);
      OuterRight(node, grandParent);
    }

    method RotateAtRight(start: TimerNode, parent: TimerNode, grandParent: TimerNode) returns (node: TimerNode)
      requires Agrees() && parent in snap.cells
      requires if snap.cells[parent].left == start then InnerOnRight(snap, lay, start, parent, grandParent)
               else OuterOnRight(snap, lay, start, parent, grandParent)
      modifies `root, `snap, `lay, Nodes()`left, Nodes()`right, Nodes()`parent, Nodes()`red
      ensures Agrees() && Fixing(snap, lay, node) && !snap.cells[node].red
      ensures Kept(old(snap), old(lay), snap, lay)
    {
      assert Mirrors(parent);
      ghost var child := start;
      node := parent;
      if start == parent.left {
        TurnOutRight(start, parent, grandParent);
        child, node := parent, start;
      }
      OuterLeftWorks(snap, lay, child, node, grandParent);
      OuterLeft(node, grandParent);
    }

    /** One turn of the loop when the parent is a left child. */
    method RepairLeft(start: TimerNode, parent: TimerNode, grandParent: TimerNode) returns (node: TimerNode)
      requires Agrees() && Fixing(snap, lay, start) && Violation(snap, start, parent, grandParent)
      requires !snap.cells[grandParent].red && snap.cells[grandParent].left == parent
      modifies `root, `snap, `lay, Nodes()`left, Nodes()`right, Nodes()`parent, Nodes()`red
      ensures Agrees() && Fixing(snap, lay, node) && Kept(old(snap), old(lay), snap, lay)
      ensures 0 <= Pending(snap, lay, node) < Pending(old(snap), old(lay), start)
    {
      LeftCases(snap, lay, start, parent, grandParent);
      assert Mirrors(grandParent);
      var uncle := grandParent.right;
      if uncle != null { assert Mirrors(uncle); }
      if uncle != null && uncle.red {
        RecolourWorks(snap, lay, start, parent, uncle, grandParent);
        Recolour(parent, uncle, grandParent);
        node := grandParent;
      } else {
        node := RotateAtLeft(start, parent, grandParent);
      }
    }

    method RepairRight(start: TimerNode, parent: TimerNode, grandParent: TimerNode) returns (node: TimerNode)
      requires Agrees() && Fixing(snap, lay, start) && Violation(snap, start, parent, grandParent)
      requires !snap.cells[grandParent].red && snap.cells[grandParent].left != parent
      modifies `root, `snap, `lay, Nodes()`left, Nodes()`right, Nodes()`parent, Nodes()`red
      ensures Agrees() && Fixing(snap, lay, node) && Kept(old(snap), old(lay), snap, lay)
      ensures 0 <= Pending(snap, lay, node) < Pending(old(snap), old(lay), start)
    {
      RightCases(snap, lay, start, parent, grandParent);
      assert Mirrors(grandParent);
      var uncle := grandParent.left;
      if uncle != null { assert Mirrors(uncle); }
      if uncle != null && uncle.red {
        RecolourWorks(snap, lay, start, parent, uncle, grandParent);
        Recolour(parent, uncle, grandParent);
        node := grandParent;
      } else {
        node := RotateAtRight(start, parent, grandParent);
      }
    }

    /** The repair: from a tree with one violation at `start` to one with none.  The in-order
        sequence and the black count of every path stay as they are. */
    method FixViolation(start: TimerNode)
      requires Agrees() && Fixing(snap, lay, start)
      modifies `root, `snap, `lay, Nodes()`left, Nodes()`right, Nodes()`parent, Nodes()`red
      ensures Agrees() && Weak(snap, lay) && Kept(old(snap), old(lay), snap, lay)
    {
      var node := start;
      assert Mirrors(node);
      while node != root && node.red
        invariant Agrees() && Fixing(snap, lay, node) && Kept(old(snap), old(lay), snap, lay)
        invariant Mirrors(node) && (node == root || !node.red ==> Proper(snap, node))
        decreases Pending(snap, lay, node)
      {
        GrandparentExists(snap, lay, node);
        assert Mirrors(node.parent);
        if !node.parent.red { break; }
        var parent := node.parent;
        var grandParent := parent.parent;
        assert Mirrors(grandParent);
        if parent == grandParent.left {
          node := RepairLeft(node, parent, grandParent);
        } else {
          node := RepairRight(node, parent, grandParent);
        }
        assert Mirrors(node);
      }
      Blacken(node);
    }

    /** The last line of the repair. */
    method Blacken(ghost node: TimerNode)
      requires Agrees() && Fixing(snap, lay, node) && Proper(snap, node)
      modifies `snap, `lay, Nodes()`red
      ensures Agrees() && Weak(snap, lay) && Kept(old(snap), old(lay), snap, lay)
    {
      ghost var h, l := snap, lay;
      RootExists(h, l, node);
      SetRed(root, false);
      lay := RootRaised(h, l);
      BlackenRoot(h, l, snap, node);
    }

    constructor ()
      ensures Valid() && Balanced(lay) && lay.order == [] && snap.cells == map[]
    {
      root := null;
      snap := Heap(null, map[]);
      lay := Layout([], map[], [0], 0);
    }

    /** The invariant every operation keeps, on the real fields. */
    ghost predicate Valid()
      reads this, snap.cells.Keys
    {
      Agrees() && Weak(snap, lay)
    }

    predicate GoesLeft(key: int, parent: TimerNode?)
      reads parent
    {
      parent != null && key < parent.expires
    }

    /** The side of `parent` on which `key` belongs leads to `current`. */
    ghost predicate SlotBelow(parent: TimerNode?, key: int, current: TimerNode?)
      reads `root, `snap, parent
    {
      && (parent == null ==> current == root)
      && (parent != null ==>
            && parent in snap.cells
            && current == if GoesLeft(key, parent) then parent.left else parent.right)
    }

    /** Walks down to the nil link where `key` belongs: after every timer that is due no later. */
    method FindSlot(key: int) returns (parent: TimerNode?, ghost i: int)
      requires Agrees() && Weak(snap, lay)
      ensures SlotBelow(parent, key, null)
      ensures Fits(snap, lay, key, i) && NilAt(snap, lay, parent, GoesLeft(key, parent), i)
    {
      parent := null;
      var current := root;
      ghost var lo, hi := 0, |lay.order|;
      while current != null
        invariant 0 <= lo <= hi <= |lay.order|
        invariant forall j :: 0 <= j < lo ==> snap.cells[lay.order[j]].key <= key
        invariant forall j :: hi <= j < |lay.order| ==> key < snap.cells[lay.order[j]].key
        invariant current != null ==> current in snap.cells && lay.at[current].lo == lo && lay.at[current].hi == hi
        invariant current == null ==> lo == hi && NilAt(snap, lay, parent, GoesLeft(key, parent), lo)
        invariant SlotBelow(parent, key, current)
        decreases if current == null then 0 else hi - lo
      {
        parent := current;
        assert NodeOk(snap, lay, current) && Mirrors(current);
        if key < current.expires {
          hi := lay.at[current].idx;
          current := current.left;
        } else {
          lo := lay.at[current].idx + 1;
          current := current.right;
        }
        if current != null { assert PlaceOk(lay, current); }
      }
      i := lo;
    }

    /** Hangs `node` as a red leaf below `parent`. */
    method Attach(node: TimerNode, parent: TimerNode?)
      requires Agrees() && node !in snap.cells && node != parent
      requires SlotBelow(parent, node.expires, null)
      modifies `root, `snap, Nodes()`left, Nodes()`right, node
      ensures Agrees() && Attached(old(snap), snap, node, parent, old(GoesLeft(node.expires, parent)))
      ensures node.linked && node.expires == old(node.expires) && snap.cells[node].key == node.expires
      ensures node.cancelled == old(node.cancelled)
    {
      ghost var h := snap;
      node.left, node.right, node.linked, node.red := null, null, true, true;
      node.parent := parent;
      snap := snap.(cells := snap.cells[node := Cell(null, null, parent, true, node.expires)]);
      forall m | m in snap.cells ensures Mirrors(m) { assert m in h.cells ==> old(Mirrors(m)); }
      if parent == null {
        root := node;
        snap := snap.(root := node);
        forall m | m in snap.cells ensures Mirrors(m) { assert m in h.cells ==> old(Mirrors(m)); }
      } else {
        assert Mirrors(parent);
        if node.expires < parent.expires {
          SetLeft(parent, node);
        } else {
          SetRight(parent, node);
        }
      }
    }

    /** The insertion before the repair. */
    method Hang(node: TimerNode) returns (ghost i: int)
      requires Agrees() && Weak(snap, lay) && node !in snap.cells
      modifies `root, `snap, `lay, Nodes()`left, Nodes()`right, node
      ensures Agrees() && Fixing(snap, lay, node) && snap.cells.Keys == old(snap.cells.Keys) + {node}
      ensures Fits(old(snap), old(lay), node.expires, i) && Grown(old(lay), lay, i, node)
      ensures forall n :: n in snap.cells ==>
        snap.cells[n].key == if n == node then node.expires else old(snap).cells[n].key
      ensures node.linked && node.expires == old(node.expires) && node.cancelled == old(node.cancelled)
    {
      ghost var h, l := snap, lay;
      var parent;
      parent, i := FindSlot(node.expires);
      ghost var onLeft := GoesLeft(node.expires, parent);
      Attach(node, parent);
      lay := GrownAt(l, i, node);
      AttachStep(h, l, snap, lay, node, parent, onLeft, i);
    }

    /** Inserts a timer that is not in the tree: it lands after every timer that is due no
        later than itself and before all others, and the tree stays valid.  A tree whose paths
        carry equally many black nodes keeps that property too. */
    method Insert(node: TimerNode) returns (ghost i: int)
      requires Valid() && node !in snap.cells
      modifies this, Nodes()`left, Nodes()`right, Nodes()`parent, Nodes()`red, node
      ensures Valid() && snap.cells.Keys == old(snap.cells.Keys) + {node}
      ensures old(Fits(snap, lay, node.expires, i))
      ensures lay.order == old(lay.order[..i]) + [node] + old(lay.order[i..])
      ensures old(Balanced(lay)) ==> Balanced(lay)
      ensures node.expires == old(node.expires) && node.cancelled == old(node.cancelled)
      ensures forall n :: n in snap.cells ==>
        snap.cells[n].key == if n == node then node.expires else old(snap).cells[n].key
    {
      i := Hang(node);
      if old(Balanced(lay)) { GrownBalanced(old(lay), lay, i, node); }
      FixViolation(node);
    }

    /** Unlinks a node that has at most one child; the child takes its place. */
    method Splice(current: TimerNode) returns (child: TimerNode?)
      requires Agrees() && Spliceable(snap, current)
      modifies `root, `snap, Nodes()`left, Nodes()`right, Nodes()`parent, current`linked
      ensures Agrees() && snap == SplicedHeap(old(snap), current) && child == OnlyChild(old(snap), current)
      ensures current.parent == old(current.parent) && !current.linked
    {
      assert Mirrors(current);
      child := if current.left != null then current.left else current.right;
      if child != null {
        SetParent(child, current.parent);
      }
      Redirect(current, child);
      assert Mirrors(current);
      label Redirected:
      current.linked := false;
      snap := snap.(cells := snap.cells - {current});
      forall m | m in snap.cells ensures Mirrors(m) { assert old@Redirected(Mirrors(m)); }
    }

    /** Erases a node with at most one child: exactly that node leaves the in-order sequence,
        and the tree stays valid.  The repair is the one made for insertions, so black counts
        that were equal stay equal exactly if the node was red or the root. */
    method Erase(current: TimerNode)
      requires Valid() && current in snap.cells && (current.left == null || current.right == null)
      modifies this, Nodes()`left, Nodes()`right, Nodes()`parent, Nodes()`red, current`linked
      ensures Valid() && snap.cells.Keys == old(snap.cells.Keys) - {current} && !current.linked
      ensures old(current in lay.at) && 0 <= old(lay.at[current].idx) < |old(lay.order)|
      ensures var i := old(lay.at[current].idx);
        old(lay.order[i]) == current && lay.order == old(lay.order[..i]) + old(lay.order[i + 1..])
      ensures old(Balanced(lay)) ==> (Balanced(lay) <==> old(current.red) || old(root) == current)
      ensures old(Balanced(lay)) && old(current.red) ==> Level(lay) == old(Level(lay))
    {
      ghost var h, l := snap, lay;
      assert Mirrors(current);
      CanSplice(h, l, current);
      var red := current.red;
      var child := Splice(current);
      SplicedHeapIs(h, current);
      ghost var r := if h.cells[current].right == null then l.at[current].idx + 1 else l.at[current].idx;
      lay := ShrunkAt(l, current, r, B(red));
      SpliceStep(h, l, snap, lay, current, r);
      if old(Balanced(lay)) {
        SpliceBalanced(h, l, snap, lay, current, child, h.cells[current].parent, r);
        if red { ShrunkLevel(l, lay, current, r); }
      }
      if !red && root != null {
        FixViolation(if child != null then child else current.parent);
      }
    }

    /** The leftmost node: the timer that is due first, and of those the one inserted first. */
    method Front() returns (current: TimerNode)
      requires Valid() && root != null
      ensures current in snap.cells && lay.order != [] && current == lay.order[0]
      ensures current.left == null && current.expires == snap.cells[current].key
    {
      current := root;
      assert Mirrors(current);
      while current.left != null
        invariant current in snap.cells && Mirrors(current) && lay.at[current].lo == 0
        decreases lay.at[current].hi
      {
        assert NodeOk(snap, lay, current) && PlaceOk(lay, current.left);
        current := current.left;
        assert Mirrors(current) && PlaceOk(lay, current);
      }
      assert NodeOk(snap, lay, current);
    }
  }
}
