/**
 The shape of a Patricia trie as a value: which nodes are in use and what
 their fields hold.  The invariant, its consequences and the effect of every
 relinking step are stated and proved here, without a heap.
 */
module Shape {
  import opened Bits
  import opened Prefixes

  class Node {
    const bit: nat
    ghost const stem: Key      // the bits shared by every key at or below this node
    var prefix: Prefix?        // null in a glue node
    var l: Node?
    var r: Node?
    var parent: Node?
    var data: object?

    constructor (bit: nat, ghost stem: Key, prefix: Prefix?)
      ensures this.bit == bit && this.stem == stem && this.prefix == prefix
      ensures l == null && r == null && parent == null && data == null
    {
      this.bit, this.stem, this.prefix := bit, stem, prefix;
      l, r, parent, data := null, null, null, null;
    }
  }

  // The changeable fields of one node.
  datatype Cell = Cell(l: Node?, r: Node?, parent: Node?, prefix: Prefix?, data: object?)

  datatype Trie = Trie(head: Node?, cells: map<Node, Cell>)

  // Key `b` lies strictly below key `a`, on the given side of it.
  ghost predicate Below(a: Key, b: Key, right: bool)
  {
    |a| < |b| && a <= b && b[|a|] == right
  }

  ghost function Child(t: Trie, n: Node, right: bool): Node?
    requires n in t.cells
  {
    if right then t.cells[n].r else t.cells[n].l
  }

  // ----- the invariant

  // The parent link of n is the inverse of a child link; only the head has none.
  ghost predicate Rooted(t: Trie, n: Node)
    requires n in t.cells
  {
    var p := t.cells[n].parent;
    && (p == null <==> n == t.head)
    && (p != null ==> p in t.cells && (t.cells[p].l == n || t.cells[p].r == n))
  }

  // Child links are inverted by parent links, and stems grow along them.
  ghost predicate Branches(t: Trie, n: Node, right: bool)
    requires n in t.cells
  {
    var c := Child(t, n, right);
    c != null ==> c in t.cells && t.cells[c].parent == n && Below(n.stem, c.stem, right)
  }

  // A node stores the key that is its stem, or is glue between two children.
  ghost predicate Carries(t: Trie, n: Node, maxbits: nat)
    requires n in t.cells
  {
    var c := t.cells[n];
    && |n.stem| == n.bit <= maxbits
    && (c.prefix == null ==> c.l != null && c.r != null && c.data == null)
    && (c.prefix != null ==> c.prefix.Fits(maxbits) && c.prefix.Key() == n.stem)
  }

  ghost predicate Linked(t: Trie, n: Node)
    requires n in t.cells
  {
    Rooted(t, n) && Branches(t, n, false) && Branches(t, n, true)
  }

  ghost predicate Placed(t: Trie, n: Node, maxbits: nat)
    requires n in t.cells
  {
    Linked(t, n) && Carries(t, n, maxbits)
  }

  ghost predicate WellFormed(t: Trie, maxbits: nat)
  {
    && (t.head == null <==> t.cells == map[])
    && (t.head != null ==> t.head in t.cells)
    && (forall n {:trigger Placed(t, n, maxbits)} :: n in t.cells ==> Placed(t, n, maxbits))
  }

  ghost predicate Registered(t: Trie, contents: map<Key, Node>, n: Node)
    requires n in t.cells
  {
    t.cells[n].prefix != null ==> n.stem in contents && contents[n.stem] == n
  }

  // The keys of the trie and the nodes that store them.
  ghost predicate Represents(t: Trie, contents: map<Key, Node>)
  {
    && (forall k :: k in contents ==>
          contents[k] in t.cells && t.cells[contents[k]].prefix != null && contents[k].stem == k)
    && (forall n {:trigger Registered(t, contents, n)} :: n in t.cells ==> Registered(t, contents, n))
  }

  // ----- what the invariant means

  // A node hangs on its parent's side that its own stem names.
  lemma HangsOnParent(t: Trie, maxbits: nat, n: Node)
    requires WellFormed(t, maxbits) && n in t.cells && t.cells[n].parent != null
    ensures var p := t.cells[n].parent;
      && p in t.cells
      && p.bit == |p.stem| < n.bit == |n.stem| && p.stem <= n.stem
      && Child(t, p, n.stem[p.bit]) == n
  {
    assert Placed(t, n, maxbits);
    assert Placed(t, t.cells[n].parent, maxbits);
  }

  // The head's stem is a prefix of every stem.
  lemma {:induction false} HeadAbove(t: Trie, maxbits: nat, m: Node)
    requires WellFormed(t, maxbits) && m in t.cells
    ensures t.head != null && t.head in t.cells && t.head.stem <= m.stem
    decreases m.bit
  {
    var p := t.cells[m].parent;
    if p != null {
      HangsOnParent(t, maxbits, m);
      HeadAbove(t, maxbits, p);
    } else {
      assert Placed(t, m, maxbits);
    }
  }

  // If n's stem is a prefix of m's then n is m or an ancestor of it: the
  // child of n on m's side exists and its stem is again a prefix of m's.
  lemma {:induction false} Descend(t: Trie, maxbits: nat, n: Node, m: Node)
    requires WellFormed(t, maxbits) && n in t.cells && m in t.cells
    requires n.stem <= m.stem
    ensures n.bit == |n.stem| && m.bit == |m.stem|
    ensures n == m ||
            (n.bit < m.bit && Child(t, n, m.stem[n.bit]) != null && Child(t, n, m.stem[n.bit]).stem <= m.stem)
    decreases n.bit + m.bit
  {
    assert Placed(t, n, maxbits) && Placed(t, m, maxbits);
    var q := t.cells[m].parent;
    if q == null {
      HeadAbove(t, maxbits, n);
      StemsDiffer(t, maxbits, n, m);
    } else {
      HangsOnParent(t, maxbits, m);
      if n.bit <= q.bit {
        Descend(t, maxbits, n, q);
      } else {
        Descend(t, maxbits, q, n);
        StemsDiffer(t, maxbits, n, m);
      }
    }
  }

  // No two nodes have the same stem.
  lemma {:induction false} StemsDiffer(t: Trie, maxbits: nat, n: Node, m: Node)
    requires WellFormed(t, maxbits) && n in t.cells && m in t.cells
    requires n.stem == m.stem
    ensures n == m
    decreases n.bit + m.bit, 0
  {
    var p, q := t.cells[n].parent, t.cells[m].parent;
    if p == null || q == null {
      assert Placed(t, n, maxbits) && Placed(t, m, maxbits);
      if p != null {
        HangsOnParent(t, maxbits, n);
        HeadAbove(t, maxbits, p);
      } else if q != null {
        HangsOnParent(t, maxbits, m);
        HeadAbove(t, maxbits, q);
      }
    } else {
      HangsOnParent(t, maxbits, n);
      HangsOnParent(t, maxbits, m);
      if p.bit <= q.bit {
        Descend(t, maxbits, p, q);
      } else {
        Descend(t, maxbits, q, p);
      }
    }
  }

  // No prefix is held by two nodes.
  lemma HeldOnce(t: Trie, maxbits: nat, n: Node, m: Node)
    requires WellFormed(t, maxbits) && n in t.cells && m in t.cells
    requires t.cells[n].prefix != null && t.cells[n].prefix == t.cells[m].prefix
    ensures n == m
  {
    assert Placed(t, n, maxbits) && Placed(t, m, maxbits);
    StemsDiffer(t, maxbits, n, m);
  }

  // `from` hangs under p, or is the head if p is null.
  ghost predicate Hangs(t: Trie, p: Node?, from: Node)
  {
    if p == null then t.head == from else p in t.cells && (t.cells[p].l == from || t.cells[p].r == from)
  }

  lemma HangsSomewhere(t: Trie, maxbits: nat, n: Node)
    requires WellFormed(t, maxbits) && n in t.cells
    ensures Hangs(t, t.cells[n].parent, n) && t.cells[n].parent != n
  {
    assert Placed(t, n, maxbits);
    if t.cells[n].parent != null {
      HangsOnParent(t, maxbits, n);
    }
  }

  // ----- inserting, as a change of shape

  ghost function Leaf(held: Prefix, parent: Node?): Cell
  {
    Cell(null, null, parent, held, null)
  }

  ghost function WithChild(c: Cell, right: bool, n: Node?): Cell
  {
    if right then c.(r := n) else c.(l := n)
  }

  // The same field updates in the order in which the code makes them.
  ghost function PutNew(m: map<Node, Cell>, n: Node, held: Prefix?): map<Node, Cell>
  {
    m[n := Cell(null, null, null, held, null)]
  }

  ghost function PutChild(m: map<Node, Cell>, n: Node, right: bool, c: Node?): map<Node, Cell>
    requires n in m
  {
    m[n := WithChild(m[n], right, c)]
  }

  ghost function PutParent(m: map<Node, Cell>, n: Node, p: Node?): map<Node, Cell>
    requires n in m
  {
    m[n := m[n].(parent := p)]
  }

  // A fresh node that is to store `held`.
  ghost predicate Ready(t: Trie, maxbits: nat, n: Node, held: Prefix)
  {
    n !in t.cells && held.Fits(maxbits) && n.stem == held.Key() && n.bit == held.bitlen
  }

  // Only `node` has come to store something: `held`.
  ghost predicate Inserted(t: Trie, u: Trie, node: Node, held: Prefix)
  {
    && t.cells.Keys <= u.cells.Keys && node in u.cells
    && u.cells[node].prefix == held && u.cells[node].data == null
    && (forall n :: n in t.cells && n != node ==>
          u.cells[n].prefix == t.cells[n].prefix && u.cells[n].data == t.cells[n].data)
    && (forall n :: n in u.cells && n !in t.cells && n != node ==> u.cells[n].prefix == null)
  }

  // Put `to` where parent p (or the head) points at `from`.
  ghost function Reroute(t: Trie, p: Node?, from: Node, to: Node?): Trie
    requires p != null ==> p in t.cells
  {
    if p == null then t.(head := to)
    else t.(cells := t.cells[p := WithChild(t.cells[p], t.cells[p].r == from, to)])
  }

  // The first node of an empty trie.
  ghost function Plant(node: Node, held: Prefix): Trie
  {
    Trie(node, map[node := Leaf(held, null)])
  }

  lemma PlantKeeps(t: Trie, maxbits: nat, node: Node, held: Prefix)
    requires WellFormed(t, maxbits) && t.head == null && Ready(t, maxbits, node, held)
    ensures WellFormed(Plant(node, held), maxbits)
    ensures Inserted(t, Plant(node, held), node, held)
    ensures |Plant(node, held).cells| == 1 == |t.cells| + 1
  {
    assert Placed(Plant(node, held), node, maxbits);
  }

  // A new leaf under `node`.
  ghost function Attach(t: Trie, node: Node, leaf: Node, held: Prefix, right: bool): Trie
    requires node in t.cells
  {
    t.(cells := t.cells[node := WithChild(t.cells[node], right, leaf)][leaf := Leaf(held, node)])
  }

  lemma AttachKeeps(t: Trie, maxbits: nat, node: Node, leaf: Node, held: Prefix, right: bool)
    requires WellFormed(t, maxbits) && node in t.cells && Ready(t, maxbits, leaf, held)
    requires Below(node.stem, held.Key(), right) && Child(t, node, right) == null
    ensures WellFormed(Attach(t, node, leaf, held, right), maxbits)
  {
    var u := Attach(t, node, leaf, held, right);
    forall n | n in u.cells ensures Placed(u, n, maxbits) {
      assert Placed(t, if n != leaf then n else node, maxbits);
    }
  }

  lemma AttachSteps(t: Trie, node: Node, leaf: Node, held: Prefix, right: bool)
    requires node in t.cells && leaf !in t.cells
    ensures Attach(t, node, leaf, held, right).cells ==
            PutChild(PutParent(PutNew(t.cells, leaf, held), leaf, node), node, right, leaf)
  {
  }

  lemma AttachInserts(t: Trie, node: Node, leaf: Node, held: Prefix, right: bool)
    requires node in t.cells && leaf !in t.cells
    ensures Inserted(t, Attach(t, node, leaf, held, right), leaf, held)
    ensures Attach(t, node, leaf, held, right).cells.Keys == t.cells.Keys + {leaf}
    ensures |Attach(t, node, leaf, held, right).cells| == |t.cells| + 1
  {
    assert Attach(t, node, leaf, held, right).cells.Keys == t.cells.Keys + {leaf};
  }

  // `top` takes the place of `node`, which moves below it.
  ghost function Lift(t: Trie, node: Node, top: Node, cell: Cell): Trie
    requires node in t.cells
    requires t.cells[node].parent != null ==> t.cells[node].parent in t.cells
  {
    var u := Reroute(t, t.cells[node].parent, node, top);
    u.(cells := u.cells[node := u.cells[node].(parent := top)][top := cell.(parent := t.cells[node].parent)])
  }

  // The same, once `top` is there: it takes over node's place.
  ghost function Raise(t: Trie, node: Node, top: Node): Trie
    requires node in t.cells && top in t.cells && node != top && t.cells[node].parent != node
    requires t.cells[node].parent != null ==> t.cells[node].parent in t.cells
  {
    var p := t.cells[node].parent;
    var u := Reroute(t.(cells := PutParent(t.cells, top, p)), p, node, top);
    u.(cells := PutParent(u.cells, node, top))
  }

  // A stem that fits between `node` and its parent.
  ghost predicate Between(t: Trie, node: Node, top: Key, right: bool)
    requires node in t.cells
  {
    && Below(top, node.stem, right)
    && (t.cells[node].parent != null ==> |t.cells[node].parent.stem| < |top|)
  }

  ghost predicate CanLift(t: Trie, maxbits: nat, node: Node, top: Node, cell: Cell, right: bool)
  {
    && WellFormed(t, maxbits) && node in t.cells && top !in t.cells
    && (t.cells[node].parent != null ==> t.cells[node].parent in t.cells)
    && Between(t, node, top.stem, right)
    && (if right then cell.r else cell.l) == node
  }

  // Lifting keeps the upward link of every old node ...
  lemma LiftRooted(t: Trie, maxbits: nat, node: Node, top: Node, cell: Cell, right: bool, n: Node)
    requires CanLift(t, maxbits, node, top, cell, right) && n in t.cells
    ensures Rooted(Lift(t, node, top, cell), n)
  {
    var u := Lift(t, node, top, cell);
    assert Placed(t, n, maxbits) && Placed(t, node, maxbits);
    if n != node {
      assert u.cells[n].parent == t.cells[n].parent;
    }
  }

  // ... and its downward links.
  lemma LiftBranches(t: Trie, maxbits: nat, node: Node, top: Node, cell: Cell, right: bool, n: Node, side: bool)
    requires CanLift(t, maxbits, node, top, cell, right) && n in t.cells
    ensures Branches(Lift(t, node, top, cell), n, side)
  {
    var u := Lift(t, node, top, cell);
    var p := t.cells[node].parent;
    assert Placed(t, n, maxbits) && Placed(t, node, maxbits);
    if p != null {
      HangsOnParent(t, maxbits, node);
      if n == p && side == node.stem[p.bit] {
        assert Child(u, n, side) == top;
      } else {
        assert Child(u, n, side) == Child(t, n, side);
      }
    } else {
      assert Child(u, n, side) == Child(t, n, side);
    }
  }

  lemma LiftPlaced(t: Trie, maxbits: nat, node: Node, top: Node, cell: Cell, right: bool, n: Node)
    requires CanLift(t, maxbits, node, top, cell, right) && n in t.cells
    ensures Placed(Lift(t, node, top, cell), n, maxbits)
  {
    LiftRooted(t, maxbits, node, top, cell, right, n);
    LiftBranches(t, maxbits, node, top, cell, right, n, false);
    LiftBranches(t, maxbits, node, top, cell, right, n, true);
    assert Placed(t, n, maxbits);
  }

  lemma LiftedTop(t: Trie, maxbits: nat, node: Node, top: Node, cell: Cell, right: bool)
    requires CanLift(t, maxbits, node, top, cell, right)
    ensures Rooted(Lift(t, node, top, cell), top) && Branches(Lift(t, node, top, cell), top, right)
  {
    assert Placed(t, node, maxbits);
    if t.cells[node].parent != null {
      HangsOnParent(t, maxbits, node);
    }
  }

  // A new node storing `held` between `node` and its parent.
  ghost function Splice(t: Trie, node: Node, top: Node, held: Prefix, right: bool): Trie
    requires node in t.cells
    requires t.cells[node].parent != null ==> t.cells[node].parent in t.cells
  {
    Lift(t, node, top, WithChild(Leaf(held, null), right, node))
  }

  lemma SpliceKeeps(t: Trie, maxbits: nat, node: Node, top: Node, held: Prefix, right: bool)
    requires WellFormed(t, maxbits) && node in t.cells && Ready(t, maxbits, top, held)
    requires t.cells[node].parent != null ==> t.cells[node].parent in t.cells
    requires Between(t, node, held.Key(), right)
    ensures WellFormed(Splice(t, node, top, held, right), maxbits)
  {
    var cell := WithChild(Leaf(held, null), right, node);
    var u := Splice(t, node, top, held, right);
    LiftedTop(t, maxbits, node, top, cell, right);
    forall n | n in u.cells ensures Placed(u, n, maxbits) {
      if n != top {
        LiftPlaced(t, maxbits, node, top, cell, right, n);
      }
    }
  }

  lemma RaiseIsLift(t: Trie, node: Node, top: Node, cell: Cell)
    requires node in t.cells && top !in t.cells && t.cells[node].parent != node
    requires t.cells[node].parent != null ==> t.cells[node].parent in t.cells
    ensures Raise(t.(cells := t.cells[top := cell]), node, top) == Lift(t, node, top, cell)
  {
    var a := Lift(t, node, top, cell);
    var b := Raise(t.(cells := t.cells[top := cell]), node, top);
    assert a.cells.Keys == t.cells.Keys + {top} == b.cells.Keys;
    forall n | n in a.cells ensures a.cells[n] == b.cells[n] {
      if n != top && n != node && n != t.cells[node].parent {
        assert b.cells[n] == t.cells[n];
      }
    }
    assert a.cells == b.cells;
  }

  lemma SpliceSteps(t: Trie, node: Node, top: Node, held: Prefix, right: bool)
    requires node in t.cells && top !in t.cells && t.cells[node].parent != node
    requires t.cells[node].parent != null ==> t.cells[node].parent in t.cells
    ensures var m := PutChild(PutNew(t.cells, top, held), top, right, node);
      && node in m && top in m && m[node] == t.cells[node]
      && (t.cells[node].parent != null ==> t.cells[node].parent in m)
      && Splice(t, node, top, held, right) == Raise(t.(cells := m), node, top)
  {
    var cell := WithChild(Leaf(held, null), right, node);
    assert PutChild(PutNew(t.cells, top, held), top, right, node) == t.cells[top := cell];
    RaiseIsLift(t, node, top, cell);
  }

  lemma SpliceInserts(t: Trie, node: Node, top: Node, held: Prefix, right: bool)
    requires node in t.cells && top !in t.cells
    requires t.cells[node].parent != null ==> t.cells[node].parent in t.cells
    ensures Inserted(t, Splice(t, node, top, held, right), top, held)
    ensures Splice(t, node, top, held, right).cells.Keys == t.cells.Keys + {top}
    ensures |Splice(t, node, top, held, right).cells| == |t.cells| + 1
  {
    assert Splice(t, node, top, held, right).cells.Keys == t.cells.Keys + {top};
  }

  // A glue node between `node` and its parent, with a new leaf on the other side.
  ghost function Fork(t: Trie, node: Node, glue: Node, leaf: Node, held: Prefix, right: bool): Trie
    requires node in t.cells
    requires t.cells[node].parent != null ==> t.cells[node].parent in t.cells
  {
    var u := Lift(t, node, glue, WithChild(WithChild(Cell(null, null, null, null, null), right, node), !right, leaf));
    u.(cells := u.cells[leaf := Leaf(held, glue)])
  }

  lemma ForkKeeps(t: Trie, maxbits: nat, node: Node, glue: Node, leaf: Node, held: Prefix, right: bool)
    requires WellFormed(t, maxbits) && node in t.cells && Ready(t, maxbits, leaf, held)
    requires t.cells[node].parent != null ==> t.cells[node].parent in t.cells
    requires glue !in t.cells && glue != leaf && glue.bit == |glue.stem|
    requires Between(t, node, glue.stem, right) && Below(glue.stem, held.Key(), !right)
    ensures WellFormed(Fork(t, node, glue, leaf, held, right), maxbits)
  {
    var cell := WithChild(WithChild(Cell(null, null, null, null, null), right, node), !right, leaf);
    var v := Lift(t, node, glue, cell);
    var u := Fork(t, node, glue, leaf, held, right);
    LiftedTop(t, maxbits, node, glue, cell, right);
    forall n | n in u.cells ensures Placed(u, n, maxbits) {
      if n != glue && n != leaf {
        LiftPlaced(t, maxbits, node, glue, cell, right, n);
        assert Placed(v, n, maxbits) && v.cells[n] == u.cells[n];
      }
    }
  }

  ghost function Prong(m: map<Node, Cell>, node: Node, glue: Node, leaf: Node, held: Prefix, right: bool)
    : map<Node, Cell>
  {
    var m' := PutChild(PutNew(PutNew(m, leaf, held), glue, null), glue, !right, leaf);
    PutParent(PutChild(m', glue, right, node), leaf, glue)
  }

  lemma ProngCells(m: map<Node, Cell>, node: Node, glue: Node, leaf: Node, held: Prefix, right: bool)
    requires node in m && glue !in m && leaf !in m && glue != leaf
    ensures Prong(m, node, glue, leaf, held, right) ==
            m[glue := WithChild(WithChild(Cell(null, null, null, null, null), right, node), !right, leaf)]
             [leaf := Leaf(held, glue)]
  {
  }

  lemma ForkSteps(t: Trie, node: Node, glue: Node, leaf: Node, held: Prefix, right: bool)
    requires node in t.cells && glue !in t.cells && leaf !in t.cells && glue != leaf && t.cells[node].parent != node
    requires t.cells[node].parent != null ==> t.cells[node].parent in t.cells
    ensures var m := Prong(t.cells, node, glue, leaf, held, right);
      && node in m && glue in m && m[node] == t.cells[node]
      && (t.cells[node].parent != null ==> t.cells[node].parent in m)
      && Fork(t, node, glue, leaf, held, right) == Raise(t.(cells := m), node, glue)
  {
    var m := Prong(t.cells, node, glue, leaf, held, right);
    var cell := WithChild(WithChild(Cell(null, null, null, null, null), right, node), !right, leaf);
    var t' := t.(cells := t.cells[leaf := Leaf(held, glue)]);
    ProngCells(t.cells, node, glue, leaf, held, right);
    assert m == t'.cells[glue := cell];
    hide Raise, Prong, WithChild, Leaf;
    RaiseIsLift(t', node, glue, cell);
    LiftBeside(t, node, glue, cell, leaf, Leaf(held, glue));
  }

  // Lifting does not mind a bystander.
  lemma LiftBeside(t: Trie, node: Node, top: Node, cell: Cell, other: Node, c: Cell)
    requires node in t.cells && top !in t.cells && other !in t.cells && top != other
    requires t.cells[node].parent != null ==> t.cells[node].parent in t.cells
    ensures var u := Lift(t, node, top, cell);
      Lift(t.(cells := t.cells[other := c]), node, top, cell) == u.(cells := u.cells[other := c])
  {
    var u := Lift(t, node, top, cell);
    var a, b := Lift(t.(cells := t.cells[other := c]), node, top, cell).cells, u.cells[other := c];
    assert a.Keys == t.cells.Keys + {top, other} == b.Keys;
    forall n | n in a ensures a[n] == b[n] {
      if n != top && n != other && n != node && n != t.cells[node].parent {
        assert a[n] == t.cells[n];
      }
    }
    assert a == b;
  }

  lemma ForkInserts(t: Trie, node: Node, glue: Node, leaf: Node, held: Prefix, right: bool)
    requires node in t.cells && glue !in t.cells && leaf !in t.cells && glue != leaf
    requires t.cells[node].parent != null ==> t.cells[node].parent in t.cells
    ensures Inserted(t, Fork(t, node, glue, leaf, held, right), leaf, held)
    ensures Fork(t, node, glue, leaf, held, right).cells.Keys == t.cells.Keys + {glue} + {leaf}
    ensures |Fork(t, node, glue, leaf, held, right).cells| == |t.cells| + 2
  {
    var u := Fork(t, node, glue, leaf, held, right);
    assert u.cells.Keys == t.cells.Keys + {glue} + {leaf};
    forall n | n in t.cells
      ensures u.cells[n].prefix == t.cells[n].prefix && u.cells[n].data == t.cells[n].data
    {
    }
  }

  // A glue node takes a prefix, or a node with two children gives its own up.
  ghost function Refill(t: Trie, node: Node, held: Prefix?): Trie
    requires node in t.cells
  {
    t.(cells := t.cells[node := t.cells[node].(prefix := held, data := null)])
  }

  lemma RefillKeeps(t: Trie, maxbits: nat, node: Node, held: Prefix?)
    requires WellFormed(t, maxbits) && node in t.cells
    requires held != null ==> held.Fits(maxbits) && held.Key() == node.stem
    requires held == null ==> t.cells[node].l != null && t.cells[node].r != null
    ensures WellFormed(Refill(t, node, held), maxbits)
    ensures held != null ==> Inserted(t, Refill(t, node, held), node, held)
    ensures held == null ==> Erased(t, Refill(t, node, held), node)
    ensures |Refill(t, node, held).cells| == |t.cells|
  {
    assert Refill(t, node, held).cells.Keys == t.cells.Keys;
    var u := Refill(t, node, held);
    forall n | n in u.cells ensures Placed(u, n, maxbits) {
      assert Placed(t, n, maxbits);
    }
  }

  // A node that stores a key takes a datum.
  ghost function Tag(t: Trie, node: Node, data: object?): Trie
    requires node in t.cells
  {
    t.(cells := t.cells[node := t.cells[node].(data := data)])
  }

  lemma TagKeeps(t: Trie, maxbits: nat, contents: map<Key, Node>, node: Node, data: object?)
    requires WellFormed(t, maxbits) && Represents(t, contents) && node in t.cells && t.cells[node].prefix != null
    ensures WellFormed(Tag(t, node, data), maxbits) && Represents(Tag(t, node, data), contents)
    ensures Tag(t, node, data).cells.Keys == t.cells.Keys && |Tag(t, node, data).cells| == |t.cells|
  {
    var u := Tag(t, node, data);
    assert u.cells.Keys == t.cells.Keys;
    forall n | n in u.cells ensures Placed(u, n, maxbits) && Registered(u, contents, n) {
      assert Placed(t, n, maxbits) && Registered(t, contents, n);
    }
  }

  // ----- removing, as a change of shape

  // Well formed, except that `hole` may be a glue node short of a child.
  ghost predicate AlmostFormed(t: Trie, maxbits: nat, hole: Node)
  {
    && t.head != null && t.head in t.cells && hole in t.cells
    && (forall n {:trigger Linked(t, n)} :: n in t.cells ==> Linked(t, n) && n.bit == |n.stem|)
    && (forall n {:trigger Carries(t, n, maxbits)} :: n in t.cells && n != hole ==> Carries(t, n, maxbits))
  }

  // Only `node` has ceased to store something.
  ghost predicate Erased(t: Trie, u: Trie, node: Node)
  {
    && u.cells.Keys <= t.cells.Keys && (node in u.cells ==> u.cells[node].prefix == null)
    && (forall n :: n in u.cells && n != node ==>
          u.cells[n].prefix == t.cells[n].prefix && u.cells[n].data == t.cells[n].data)
    && (forall n :: n in t.cells && n !in u.cells && n != node ==> t.cells[n].prefix == null)
  }

  // A leaf goes.
  ghost function Detach(t: Trie, node: Node): Trie
    requires node in t.cells
    requires t.cells[node].parent != null ==> t.cells[node].parent in t.cells
  {
    var u := Reroute(t, t.cells[node].parent, node, null);
    u.(cells := u.cells - {node})
  }

  // Its parent loses exactly that child.
  lemma DetachKeeps(t: Trie, maxbits: nat, node: Node)
    requires WellFormed(t, maxbits) && node in t.cells
    requires t.cells[node].l == null && t.cells[node].r == null
    requires t.cells[node].parent != null && t.cells[node].parent in t.cells
    ensures AlmostFormed(Detach(t, node), maxbits, t.cells[node].parent)
    ensures t.cells[t.cells[node].parent].prefix != null ==> WellFormed(Detach(t, node), maxbits)
  {
    var p := t.cells[node].parent;
    var u := Detach(t, node);
    HangsOnParent(t, maxbits, node);
    assert Placed(t, node, maxbits) && Placed(t, p, maxbits);
    forall n | n in u.cells
      ensures Linked(u, n) && n.bit == |n.stem|
      ensures n != p || t.cells[p].prefix != null ==> Carries(u, n, maxbits)
    {
      assert Placed(t, n, maxbits);
      assert n != p ==> u.cells[n] == t.cells[n];
    }
  }

  // A lone leaf is the whole trie.
  lemma LoneLeaf(t: Trie, maxbits: nat, node: Node)
    requires WellFormed(t, maxbits) && node in t.cells
    requires t.cells[node].l == null && t.cells[node].r == null && t.cells[node].parent == null
    ensures t.head == node && t.cells.Keys == {node}
  {
    assert Placed(t, node, maxbits);
    forall m | m in t.cells ensures m == node {
      HeadAbove(t, maxbits, m);
      Descend(t, maxbits, node, m);
    }
  }

  // A node with one child goes, and the child takes its place.
  ghost function Bypass(t: Trie, node: Node, child: Node): Trie
    requires node in t.cells && child in t.cells
    requires t.cells[node].parent != null ==> t.cells[node].parent in t.cells
  {
    var p := t.cells[node].parent;
    var u := Reroute(t, p, node, child);
    u.(cells := u.cells[child := u.cells[child].(parent := p)] - {node})
  }

  ghost predicate CanBypass(t: Trie, maxbits: nat, node: Node, child: Node, right: bool)
  {
    && AlmostFormed(t, maxbits, node) && node in t.cells && child in t.cells
    && Child(t, node, right) == child && Child(t, node, !right) == null
    && (t.cells[node].parent != null ==> t.cells[node].parent in t.cells)
  }

  lemma BypassRooted(t: Trie, maxbits: nat, node: Node, child: Node, right: bool, n: Node)
    requires CanBypass(t, maxbits, node, child, right) && n in t.cells && n != node
    ensures n in Bypass(t, node, child).cells && Rooted(Bypass(t, node, child), n)
  {
    var u := Bypass(t, node, child);
    assert Linked(t, node) && Linked(t, child) && Linked(t, n);
    if n != child {
      assert u.cells[n].parent == t.cells[n].parent;
    }
  }

  lemma BypassBranches(t: Trie, maxbits: nat, node: Node, child: Node, right: bool, n: Node, side: bool)
    requires CanBypass(t, maxbits, node, child, right) && n in t.cells && n != node
    ensures n in Bypass(t, node, child).cells && Branches(Bypass(t, node, child), n, side)
    ensures Child(Bypass(t, node, child), n, side) == null ==> Child(t, n, side) == null
  {
    var u := Bypass(t, node, child);
    var p := t.cells[node].parent;
    assert Linked(t, node) && Linked(t, child) && Linked(t, n);
    assert Branches(t, n, side) && Branches(t, node, right);
    if n == p && Child(t, n, side) == node {
      assert Linked(t, p) && Branches(t, p, false) && Branches(t, p, true);
      assert Child(u, n, side) == child;
    } else {
      assert Child(u, n, side) == Child(t, n, side);
    }
  }

  lemma BypassPlaced(t: Trie, maxbits: nat, node: Node, child: Node, right: bool, n: Node)
    requires CanBypass(t, maxbits, node, child, right) && n in t.cells && n != node
    ensures n in Bypass(t, node, child).cells && Placed(Bypass(t, node, child), n, maxbits)
  {
    BypassRooted(t, maxbits, node, child, right, n);
    BypassBranches(t, maxbits, node, child, right, n, false);
    BypassBranches(t, maxbits, node, child, right, n, true);
    assert Carries(t, n, maxbits);
  }

  lemma BypassHead(t: Trie, maxbits: nat, node: Node, child: Node, right: bool)
    requires CanBypass(t, maxbits, node, child, right)
    ensures child != node && t.cells[node].parent != node
    ensures var u := Bypass(t, node, child);
      u.head != null && u.head in u.cells && u.cells.Keys == t.cells.Keys - {node}
  {
    assert Linked(t, node);
    assert Bypass(t, node, child).cells.Keys == t.cells.Keys - {node};
  }

  lemma BypassKeeps(t: Trie, maxbits: nat, node: Node, child: Node, right: bool)
    requires CanBypass(t, maxbits, node, child, right)
    ensures WellFormed(Bypass(t, node, child), maxbits)
  {
    hide AlmostFormed, Bypass, Placed;
    var u := Bypass(t, node, child);
    BypassHead(t, maxbits, node, child, right);
    forall n | n in u.cells ensures Placed(u, n, maxbits) {
      BypassPlaced(t, maxbits, node, child, right, n);
    }
  }

  // ----- contents follow the shape

  // `u` stores what `t` stores, plus `node`.
  lemma NowStores(t: Trie, u: Trie, contents: map<Key, Node>, node: Node, held: Prefix)
    requires Represents(t, contents) && node.stem !in contents
    requires Inserted(t, u, node, held)
    ensures Represents(u, contents[node.stem := node])
  {
    forall n | n in u.cells ensures Registered(u, contents[node.stem := node], n) {
      if n in t.cells {
        assert Registered(t, contents, n);
      }
    }
  }

  // `u` stores what `t` stores, less `node`.
  lemma NoLongerStores(t: Trie, u: Trie, maxbits: nat, contents: map<Key, Node>, node: Node)
    requires WellFormed(t, maxbits) && Represents(t, contents) && node in t.cells && Erased(t, u, node)
    ensures Represents(u, contents - {node.stem})
  {
    forall n | n in u.cells ensures Registered(u, contents - {node.stem}, n) {
      assert Registered(t, contents, n);
      if n.stem == node.stem {
        StemsDiffer(t, maxbits, n, node);
      }
    }
  }

  lemma DetachErases(t: Trie, node: Node)
    requires node in t.cells && t.cells[node].parent != node
    requires t.cells[node].parent != null ==> t.cells[node].parent in t.cells
    ensures Erased(t, Detach(t, node), node)
    ensures Detach(t, node).cells.Keys == t.cells.Keys - {node}
    ensures |Detach(t, node).cells| == |t.cells| - 1
  {
    assert Detach(t, node).cells.Keys == t.cells.Keys - {node};
  }

  lemma BypassErases(t: Trie, node: Node, child: Node)
    requires node in t.cells && child in t.cells && child != node && t.cells[node].parent != node
    requires t.cells[node].parent != null ==> t.cells[node].parent in t.cells
    ensures Erased(t, Bypass(t, node, child), node)
    ensures Bypass(t, node, child).cells.Keys == t.cells.Keys - {node}
    ensures |Bypass(t, node, child).cells| == |t.cells| - 1
  {
    assert Bypass(t, node, child).cells.Keys == t.cells.Keys - {node};
  }

  // Two erasures, the second of a glue node.
  lemma ErasedTwice(t: Trie, u: Trie, v: Trie, node: Node, glue: Node)
    requires Erased(t, u, node) && Erased(u, v, glue) && node !in u.cells
    requires glue in u.cells && u.cells[glue].prefix == null && glue !in v.cells
    ensures Erased(t, v, node)
  {
  }

  lemma DetachLone(t: Trie, maxbits: nat, node: Node)
    requires WellFormed(t, maxbits) && node in t.cells
    requires t.cells[node].l == null && t.cells[node].r == null && t.cells[node].parent == null
    ensures WellFormed(Detach(t, node), maxbits)
  {
    LoneLeaf(t, maxbits, node);
    assert Detach(t, node).cells.Keys == {};
  }

  // A glue parent that has just lost a leaf still has its other child: what
  // patricia_remove promotes is never null.
  lemma SiblingRemains(t: Trie, maxbits: nat, node: Node)
    requires WellFormed(t, maxbits) && node in t.cells
    requires t.cells[node].l == null && t.cells[node].r == null
    requires t.cells[node].parent != null && t.cells[node].parent in t.cells
    requires t.cells[t.cells[node].parent].prefix == null
    ensures var p := t.cells[node].parent; var right := t.cells[p].r != node;
      var u := Detach(t, node);
      && Child(t, p, right) != null && Child(t, p, right) in u.cells
      && CanBypass(u, maxbits, p, Child(t, p, right), right)
      && Child(t, p, right) != p && u.cells[p].parent != p && u.cells[p].parent != Child(t, p, right)
      && u.cells[p].parent == t.cells[p].parent && u.cells[p].prefix == null
  {
    var p := t.cells[node].parent;
    DetachKeeps(t, maxbits, node);
    assert Placed(t, node, maxbits) && Placed(t, p, maxbits);
    HangsOnParent(t, maxbits, node);
    assert Linked(Detach(t, node), p);
    if t.cells[p].parent != null {
      HangsOnParent(t, maxbits, p);
    }
  }

  lemma OnlyChild(t: Trie, maxbits: nat, node: Node, right: bool)
    requires WellFormed(t, maxbits) && node in t.cells
    requires Child(t, node, right) != null && Child(t, node, !right) == null
    ensures Child(t, node, right) in t.cells && CanBypass(t, maxbits, node, Child(t, node, right), right)
    ensures Child(t, node, right) != node
    ensures t.cells[node].parent != node && t.cells[node].parent != Child(t, node, right)
  {
    assert Placed(t, node, maxbits);
    if t.cells[node].parent != null {
      HangsOnParent(t, maxbits, node);
    }
    forall n | n in t.cells ensures Linked(t, n) && n.bit == |n.stem| && Carries(t, n, maxbits) {
      assert Placed(t, n, maxbits);
    }
  }

  // A leaf and its glue parent go together.
  ghost function DetachTwo(t: Trie, node: Node, p: Node, child: Node): Trie
    requires node in t.cells && p == t.cells[node].parent && p in t.cells && p != node
    requires child in t.cells && child != node
    requires t.cells[p].parent != null ==> t.cells[p].parent in t.cells && t.cells[p].parent != node
  {
    Bypass(Detach(t, node), p, child)
  }

  lemma DetachTwoKeeps(t: Trie, maxbits: nat, node: Node, p: Node, child: Node?)
    requires WellFormed(t, maxbits) && node in t.cells
    requires t.cells[node].l == null && t.cells[node].r == null
    requires p == t.cells[node].parent && p in t.cells && t.cells[p].prefix == null
    requires child == Child(t, p, t.cells[p].r != node)
    ensures p != node && child != null && child != node && child != p && child in t.cells
    ensures t.cells[p].parent != null ==>
      t.cells[p].parent in t.cells && t.cells[p].parent != node && t.cells[p].parent != p && t.cells[p].parent != child
    ensures Detach(t, node).cells.Keys == t.cells.Keys - {node} && Detach(t, node).cells[p].parent == t.cells[p].parent
    ensures Hangs(t, p, node) && Hangs(Detach(t, node), t.cells[p].parent, p)
    ensures WellFormed(DetachTwo(t, node, p, child), maxbits)
    ensures Erased(t, DetachTwo(t, node, p, child), node)
    ensures |DetachTwo(t, node, p, child).cells| == |t.cells| - 2
  {
    hide WellFormed, Erased, AlmostFormed, CanBypass;
    HangsOnParent(t, maxbits, node);
    SiblingRemains(t, maxbits, node);
    DetachErases(t, node);
    HangsSomewhere(t, maxbits, node);
    HangsSomewhere(t, maxbits, p);
    if t.cells[p].parent != null {
      HangsOnParent(t, maxbits, p);
    }
    var u := Detach(t, node);
    BypassKeeps(u, maxbits, p, child, t.cells[p].r != node);
    BypassErases(u, p, child);
    ErasedTwice(t, u, Bypass(u, p, child), node, p);
  }
}
