/**
 The Patricia trie of patricia.c / patricia.h: a mutable binary trie with
 parent pointers and glue nodes, relinked in place, and its agreement with a
 finite map from bit strings to nodes.
 */
module Patricia {
  import opened Bits
  import opened Prefixes
  import opened Shape
  import opened Placement

  const PATRICIA_MAXBITS := 128

  class Tree {
    const maxbits: nat
    var head: Node?
    var numActive: int
    ghost var cells: map<Node, Cell>    // the nodes in use and what they hold
    ghost var contents: map<Key, Node>  // what the trie stores

    /** New_Patricia (patricia.c:382-393). */
    constructor (maxbits: nat)
      requires maxbits <= PATRICIA_MAXBITS
      ensures Valid() && Counted() && contents == map[] && cells == map[]
      ensures this.maxbits == maxbits
    {
      this.maxbits := maxbits;
      head, numActive, cells, contents := null, 0, map[], map[];
    }

    ghost function View(): Trie
      reads this`head, this`cells
    {
      Trie(head, cells)
    }

    // The fields of every node in use are what the view says.
    ghost predicate Mirrored()
      reads this`cells, cells.Keys
    {
      forall n :: n in cells ==> cells[n] == Cell(n.l, n.r, n.parent, n.prefix, n.data)
    }

    ghost predicate Valid()
      reads this, cells.Keys
    {
      && maxbits <= PATRICIA_MAXBITS
      && Mirrored()
      && WellFormed(View(), maxbits)
      && Represents(View(), contents)
      && numActive == |cells|
    }

    // Every stored prefix is alive and counted at least once.
    ghost predicate Counted()
      reads this, cells.Keys, set n | n in cells :: n.prefix
    {
      forall n :: n in cells && n.prefix != null ==> n.prefix.live && n.prefix.refCount >= 1
    }

    // ----- searching

    /** patricia_search_exact (patricia.c:492-559). */
    method SearchExact(p: Prefix) returns (found: Node?)
      requires Valid() && p.Fits(maxbits)
      ensures found == if p.Key() in contents then contents[p.Key()] else null
    {
      ghost var k, t := p.Key(), View();
      if head == null {
        return null;
      }
      var node: Node := head;
      if k in contents {
        HeadAbove(t, maxbits, contents[k]);
      }
      while node.bit < p.bitlen
        invariant node in cells
        invariant k in contents ==> node.stem <= k
        decreases maxbits - node.bit
      {
        StepTowards(t, maxbits, contents, node, k);
        var next := if BitAt(p.addr, node.bit) then node.r else node.l;
        if next == null {
          return null;
        }
        node := next;
      }
      StopsAt(t, maxbits, contents, node, k);
      assert Placed(t, node, maxbits);
      if node.bit > p.bitlen || node.prefix == null {
        return null;
      }
      assert node.bit == p.bitlen;
      assert node.bit == node.prefix.bitlen;
      assert Registered(t, contents, node);
      var agree := CompWithMask(node.prefix.addr, p.addr, p.bitlen);
      found := if agree then node else null;
    }

    // Push onto the C array that serves as a stack.
    method Push(stack: array<Node?>, cnt: nat, node: Node, ghost met: seq<Node>)
      returns (cnt': nat, ghost met': seq<Node>)
      requires cnt == |met| < stack.Length && forall i :: 0 <= i < |met| ==> stack[i] == met[i]
      requires Mirrored()
      modifies stack
      ensures Mirrored()
      ensures met' == met + [node]
      ensures cnt' == |met'| && forall i :: 0 <= i < |met'| ==> stack[i] == met'[i]
    {
      stack[cnt] := node;
      cnt', met' := cnt + 1, met + [node];
    }

    // The way down of patricia_search_best2.  At most one candidate per bit
    // position is met, so the stack never overflows.
    method CollectCandidates(p: Prefix, inclusive: bool, stack: array<Node?>)
      returns (cnt: nat, ghost met: seq<Node>)
      requires Valid() && head != null && p.Fits(maxbits)
      requires stack.Length == PATRICIA_MAXBITS + 1
      modifies stack
      ensures Mirrored()
      ensures cnt == |met| <= p.bitlen + 1 <= stack.Length
      ensures forall i :: 0 <= i < |met| ==> stack[i] == met[i]
      ensures Candidates(View(), met)
      ensures forall i :: 0 <= i < |met| && !inclusive ==> met[i].bit < p.bitlen
      ensures forall c :: c in contents && Covers(c, p.Key(), inclusive) ==> contents[c] in met
    {
      ghost var k, t := p.Key(), View();
      cnt, met := 0, [];
      var node: Node? := head;
      CollectFirst(t, maxbits, contents, k);
      while node != null && node.bit < p.bitlen
        invariant Mirrored()
        invariant Collecting(t, contents, k, met, node)
        invariant cnt == |met| && forall i :: 0 <= i < |met| ==> stack[i] == met[i]
        decreases if node == null then 0 else 1 + maxbits - node.bit
      {
        CollectNext(t, maxbits, contents, k, met, node);
        var next := if BitAt(p.addr, node.bit) then node.r else node.l;
        if node.prefix != null {
          cnt, met := Push(stack, cnt, node, met);
        }
        node := next;
      }
      CollectLast(t, maxbits, contents, k, met, node, inclusive);
      if inclusive && node != null && node.prefix != null {
        cnt, met := Push(stack, cnt, node, met);
      }
    }

    // The way back up: the deepest candidate that really covers the query.
    method PopBest(p: Prefix, stack: array<Node?>, top: nat, ghost met: seq<Node>) returns (best: Node?)
      requires p.Fits(maxbits)
      requires top == |met| <= stack.Length && forall i :: 0 <= i < |met| ==> stack[i] == met[i]
      requires forall i :: 0 <= i < |met| ==>
        met[i].prefix != null && met[i].prefix.Fits(maxbits) && met[i].prefix.Key() == met[i].stem
      requires forall i, j :: 0 <= i < j < |met| ==> |met[i].stem| < |met[j].stem|
      ensures best == null ==> forall i :: 0 <= i < |met| ==> !(met[i].stem <= p.Key())
      ensures best != null ==> best in met && best.stem <= p.Key()
      ensures best != null ==>
        forall i :: 0 <= i < |met| && met[i].stem <= p.Key() ==> |met[i].stem| <= |best.stem|
    {
      var cnt := top;
      while cnt > 0
        invariant 0 <= cnt <= |met|
        invariant forall i :: cnt <= i < |met| ==> !(met[i].stem <= p.Key())
      {
        cnt := cnt - 1;
        var node := stack[cnt];
        assert node == met[cnt];
        var agree := CompWithMask(node.prefix.addr, p.addr, node.prefix.bitlen);
        if node.prefix.bitlen <= p.bitlen {
          PrefixOfKey(p, node.prefix);
        }
        if agree && node.prefix.bitlen <= p.bitlen {
          return node;
        }
      }
      return null;
    }

    // Agreement on the shorter length makes one key a prefix of the other.
    static lemma PrefixOfKey(p: Prefix, q: Prefix)
      requires q.bitlen <= p.bitlen <= OCTET * |p.addr| && q.bitlen <= OCTET * |q.addr|
      ensures q.Key() <= p.Key() <==> KeyOf(q.addr, q.bitlen) == KeyOf(p.addr, q.bitlen)
    {
      assert KeyOf(p.addr, q.bitlen) == KeyOf(p.addr, p.bitlen)[..q.bitlen];
    }

    /**
     patricia_search_best2 (patricia.c:563-653): longest-prefix match, with the
     candidates met on the way down kept on a stack of PATRICIA_MAXBITS + 1 slots.
     */
    method SearchBest(p: Prefix, inclusive: bool) returns (best: Node?)
      requires Valid() && p.Fits(maxbits)
      ensures best == null <==> forall c :: c in contents ==> !Covers(c, p.Key(), inclusive)
      ensures best != null ==>
        && best.stem in contents && contents[best.stem] == best
        && Covers(best.stem, p.Key(), inclusive)
        && forall c :: c in contents && Covers(c, p.Key(), inclusive) ==> |c| <= |best.stem|
    {
      if head == null {
        return null;
      }
      var stack := new Node?[PATRICIA_MAXBITS + 1](_ => null);
      ghost var met: seq<Node>;
      var cnt: nat;
      cnt, met := CollectCandidates(p, inclusive, stack);
      CandidateFacts(View(), maxbits, contents, met);
      best := PopBest(p, stack, cnt, met);
    }

    // ----- field updates, mirrored in the view

    method NewNode(bit: nat, ghost stem: Key, prefix: Prefix?) returns (n: Node)
      requires Mirrored()
      modifies this`cells, this`numActive
      ensures fresh(n) && n !in old(cells) && n.bit == bit && n.stem == stem
      ensures Mirrored() && cells == PutNew(old(cells), n, prefix)
      ensures numActive == old(numActive) + 1
    {
      n := new Node(bit, stem, prefix);
      numActive := numActive + 1;
      cells := cells[n := Cell(null, null, null, prefix, null)];
    }

    method Delete(n: Node)
      requires Mirrored() && n in cells
      modifies this`cells, this`numActive
      ensures Mirrored() && cells == old(cells) - {n}
      ensures numActive == old(numActive) - 1
    {
      numActive := numActive - 1;
      cells := cells - {n};
    }

    method SetChild(n: Node, right: bool, c: Node?)
      requires Mirrored() && n in cells
      modifies this`cells, n`l, n`r
      ensures Mirrored() && cells == PutChild(old(cells), n, right, c)
      ensures numActive == old(numActive)
    {
      if right {
        n.r := c;
      } else {
        n.l := c;
      }
      cells := cells[n := WithChild(cells[n], right, c)];
    }

    method SetParent(n: Node, p: Node?)
      requires Mirrored() && n in cells
      modifies this`cells, n`parent
      ensures Mirrored() && cells == PutParent(old(cells), n, p)
      ensures numActive == old(numActive)
    {
      n.parent := p;
      cells := cells[n := cells[n].(parent := p)];
    }

    method SetPrefix(n: Node, held: Prefix?)
      requires Mirrored() && n in cells
      modifies this`cells, n`prefix, n`data
      ensures Mirrored() && cells == Refill(old(View()), n, held).cells
      ensures numActive == old(numActive)
    {
      n.prefix := held;
      n.data := null;
      cells := cells[n := cells[n].(prefix := held, data := null)];
    }

    method PutData(n: Node, data: object?)
      requires Mirrored() && n in cells
      modifies this`cells, n`data
      ensures Mirrored() && cells == Tag(old(View()), n, data).cells && n.data == data
    {
      n.data := data;
      cells := cells[n := cells[n].(data := data)];
    }

    /** PATRICIA_DATA_SET (patricia.h:105) on a node that stores a key. */
    method SetData(node: Node, data: object?)
      requires Valid() && node in cells && node.prefix != null
      modifies this`cells, node`data
      ensures Valid() && node.data == data && cells == Tag(old(View()), node, data).cells
    {
      hide WellFormed, Represents;
      assert cells[node].prefix == node.prefix;
      hide Mirrored;
      TagKeeps(View(), maxbits, contents, node, data);
      PutData(node, data);
    }

    // ----- inserting

    // New head of an empty trie (patricia.c:675-689).
    method PlantHead(held: Prefix) returns (node: Node)
      requires Mirrored() && cells == map[] && held.Fits(maxbits)
      modifies this`head, this`cells, this`numActive
      ensures fresh(node) && node.stem == held.Key() && node.bit == held.bitlen
      ensures numActive == old(numActive) + 1
      ensures Mirrored() && View() == Plant(node, held)
    {
      node := NewNode(held.bitlen, held.Key(), held);
      head := node;
    }

    // A new leaf under `node` (patricia.c:787-811).
    method LinkLeaf(node: Node, held: Prefix, right: bool) returns (leaf: Node)
      requires Mirrored() && node in cells && held.Fits(maxbits)
      modifies this`cells, this`numActive, node
      ensures fresh(leaf) && leaf !in old(cells) && leaf.stem == held.Key() && leaf.bit == held.bitlen
      ensures numActive == old(numActive) + 1
      ensures Mirrored() && View() == Attach(old(View()), node, leaf, held, right)
    {
      leaf := NewNode(held.bitlen, held.Key(), held);
      SetParent(leaf, node);
      SetChild(node, right, leaf);
      AttachSteps(old(View()), node, leaf, held, right);
    }

    // Put `to` where `from` hangs, under parent p or as the head
    // (patricia.c:822-831, 856-865, 931-941 and 966-978).
    method Hang(p: Node?, from: Node, to: Node?)
      requires Mirrored() && Hangs(View(), p, from)
      modifies this`head, this`cells, p
      ensures Mirrored() && View() == Reroute(old(View()), p, from, to)
      ensures numActive == old(numActive)
    {
      if p == null {
        assert head == from;
        head := to;
      } else {
        assert p.r == from || p.l == from;
        SetChild(p, p.r == from, to);
      }
    }

    // `top` takes over the place of `node` (patricia.c:821-832, 842 and 856-866).
    method TakePlace(node: Node, top: Node)
      requires Mirrored() && node in cells && top in cells && node != top && node.parent != node
      requires Hangs(View(), node.parent, node)
      modifies this`head, this`cells, node`parent, top`parent, node.parent
      ensures Mirrored() && View() == Raise(old(View()), node, top)
      ensures numActive == old(numActive)
    {
      var p := node.parent;
      SetParent(top, p);
      Hang(p, node, top);
      SetParent(node, top);
    }

    // A new node that is to stand above `node` (patricia.c:814-820).
    method NewAbove(node: Node, held: Prefix, right: bool) returns (top: Node)
      requires Mirrored() && node in cells && held.Fits(maxbits)
      modifies this`cells, this`numActive
      ensures fresh(top) && top !in old(cells) && top.stem == held.Key() && top.bit == held.bitlen
      ensures numActive == old(numActive) + 1
      ensures Mirrored() && cells == PutChild(PutNew(old(cells), top, held), top, right, node)
    {
      top := NewNode(held.bitlen, held.Key(), held);
      SetChild(top, right, node);
    }

    // A new node between `node` and its parent (patricia.c:813-837).
    method LinkAbove(node: Node, held: Prefix, right: bool) returns (top: Node)
      requires Mirrored() && node in cells && held.Fits(maxbits) && node.parent != node
      requires Hangs(View(), node.parent, node)
      modifies this`head, this`cells, this`numActive, node, node.parent
      ensures fresh(top) && top !in old(cells) && top.stem == held.Key() && top.bit == held.bitlen
      ensures numActive == old(numActive) + 1
      ensures Mirrored() && View() == Splice(old(View()), node, top, held, right)
    {
      top := NewAbove(node, held, right);
      SpliceSteps(old(View()), node, top, held, right);
      TakePlace(node, top);
    }

    // A glue node above `node`, and a new leaf beside it (patricia.c:838-854).
    method NewFork(node: Node, held: Prefix, bit: nat, right: bool) returns (leaf: Node, glue: Node)
      requires Mirrored() && node in cells && held.Fits(maxbits) && bit <= held.bitlen
      modifies this`cells, this`numActive
      ensures fresh(leaf) && leaf !in old(cells) && leaf.stem == held.Key() && leaf.bit == held.bitlen
      ensures fresh(glue) && glue !in old(cells) && glue != leaf && glue.stem == held.Key()[..bit] && glue.bit == bit
      ensures numActive == old(numActive) + 2
      ensures Mirrored() && cells == Prong(old(cells), node, glue, leaf, held, right)
    {
      leaf := NewNode(held.bitlen, held.Key(), held);
      glue := NewNode(bit, held.Key()[..bit], null);
      SetChild(glue, !right, leaf);
      SetChild(glue, right, node);
      SetParent(leaf, glue);
    }

    // A glue node between `node` and its parent, and a new leaf beside `node` (patricia.c:838-871).
    method LinkFork(node: Node, held: Prefix, bit: nat, right: bool) returns (leaf: Node, glue: Node)
      requires Mirrored() && node in cells && held.Fits(maxbits) && bit <= held.bitlen && node.parent != node
      requires Hangs(View(), node.parent, node)
      modifies this`head, this`cells, this`numActive, node, node.parent
      ensures fresh(leaf) && leaf !in old(cells) && leaf.stem == held.Key() && leaf.bit == held.bitlen
      ensures fresh(glue) && glue !in old(cells) && glue != leaf && glue.stem == held.Key()[..bit] && glue.bit == bit
      ensures numActive == old(numActive) + 2
      ensures Mirrored() && View() == Fork(old(View()), node, glue, leaf, held, right)
    {
      leaf, glue := NewFork(node, held, bit, right);
      ForkSteps(old(View()), node, glue, leaf, held, right);
      TakePlace(node, glue);
    }

    // The downward walk of patricia_lookup (patricia.c:693-726).  It ends at a
    // node that stores a prefix.
    method Nearest(p: Prefix) returns (s: Node)
      requires Valid() && head != null && p.Fits(maxbits)
      ensures Follows(View(), s, p.Key()) && s.prefix != null
      ensures s.bit < p.bitlen ==> Child(View(), s, p.Key()[s.bit]) == null
    {
      ghost var k, t := p.Key(), View();
      s := head;
      HeadFollows(t, maxbits, k);
      while s.bit < p.bitlen || s.prefix == null
        invariant Follows(t, s, k)
        decreases maxbits - s.bit
      {
        assert Placed(t, s, maxbits);
        if s.bit < maxbits && BitAt(p.addr, s.bit) {
          if s.r == null {
            break;
          }
          FollowStep(t, maxbits, s, k, true);
          s := s.r;
        } else {
          if s.l == null {
            break;
          }
          FollowStep(t, maxbits, s, k, false);
          s := s.l;
        }
      }
      assert s.prefix != null;
    }

    // The upward walk of patricia_lookup (patricia.c:757-768): the topmost node
    // on the way to s that lies at or below bit d.
    method Climb(s: Node, d: nat) returns (node: Node)
      requires Valid() && s in cells && d <= s.bit
      ensures node in cells && node.stem <= s.stem && d <= node.bit
      ensures node.parent != null ==> node.parent.bit < d
    {
      node := s;
      var parent := node.parent;
      while parent != null && parent.bit >= d
        invariant node in cells && node.stem <= s.stem && d <= node.bit && parent == node.parent
        decreases node.bit
      {
        HangsOnParent(View(), maxbits, node);
        node := parent;
        parent := node.parent;
      }
    }

    // Both walks and the comparison between them (patricia.c:691-768).
    method FindSpot(p: Prefix) returns (s: Node, d: nat, node: Node)
      requires Valid() && head != null && p.Fits(maxbits)
      ensures s in cells && s.prefix != null && s.prefix.Fits(maxbits) && s.prefix.Key() == s.stem
      ensures Spot(View(), s, p.Key(), d, node)
    {
      s := Nearest(p);
      assert Placed(View(), s, maxbits);
      var check := if s.bit < p.bitlen then s.bit else p.bitlen;
      d := DifferBit(p.addr, s.prefix.addr, check);
      node := Climb(s, d);
      assert KeyOf(p.addr, d) == p.Key()[..d];
      assert KeyOf(s.prefix.addr, d) == s.stem[..d];
    }

    // Close an insertion that has been carried out on the fields.
    ghost method Record(t: Trie, r: Node, held: Prefix)
      requires maxbits <= PATRICIA_MAXBITS && Mirrored() && numActive == |cells|
      requires Represents(t, contents) && r.stem !in contents
      requires WellFormed(View(), maxbits) && Inserted(t, View(), r, held)
      modifies this`contents
      ensures head == old(head) && cells == old(cells)
      ensures Valid() && contents == old(contents)[r.stem := r]
    {
      hide WellFormed, Represents, Inserted, Mirrored;
      NowStores(t, View(), contents, r, held);
      contents := contents[r.stem := r];
    }

    // Nodes enter the trie only by allocation.
    twostate predicate OnlyNewNodes()
      reads this
    {
      fresh(cells.Keys - old(cells.Keys))
    }

    twostate lemma NewNodes(new a: Node, new b: Node)
      requires fresh(a) && fresh(b) && cells.Keys <= old(cells.Keys) + {a} + {b}
      ensures OnlyNewNodes()
    {
    }

    method InsertHead(held: Prefix) returns (r: Node)
      requires Valid() && head == null && held.Fits(maxbits)
      modifies this
      ensures fresh(r) && Valid() && contents == old(contents)[held.Key() := r]
      ensures r.stem == held.Key() && Inserted(old(View()), View(), r, held)
      ensures OnlyNewNodes()
    {
      ghost var t := View();
      assert held.Key() !in contents;
      r := PlantHead(held);
      PlantKeeps(t, maxbits, r, held);
      Record(t, r, held);
    }

    method InsertHere(held: Prefix, node: Node)
      requires Valid() && node in cells && node.prefix == null
      requires held.Fits(maxbits) && held.Key() == node.stem && node.stem !in contents
      modifies this, node
      ensures Valid() && contents == old(contents)[held.Key() := node]
      ensures Inserted(old(View()), View(), node, held)
      ensures OnlyNewNodes()
    {
      ghost var t := View();
      assert node.data == null by { assert Placed(t, node, maxbits); }
      SetPrefix(node, held);
      RefillKeeps(t, maxbits, node, held);
      Record(t, node, held);
    }

    method InsertChild(held: Prefix, node: Node, right: bool) returns (r: Node)
      requires Valid() && node in cells && held.Fits(maxbits) && held.Key() !in contents
      requires Below(node.stem, held.Key(), right) && Child(View(), node, right) == null
      modifies this, node
      ensures Valid() && contents == old(contents)[held.Key() := r]
      ensures r.stem == held.Key() && Inserted(old(View()), View(), r, held)
      ensures OnlyNewNodes()
    {
      ghost var t := View();
      r := LinkLeaf(node, held, right);
      AttachKeeps(t, maxbits, node, r, held, right);
      AttachInserts(t, node, r, held, right);
      Record(t, r, held);
      NewNodes(r, r);
    }

    method InsertAbove(held: Prefix, node: Node, right: bool) returns (r: Node)
      requires Valid() && node in cells && held.Fits(maxbits) && held.Key() !in contents
      requires node.parent != null ==> node.parent in cells
      requires Between(View(), node, held.Key(), right)
      modifies this, node, node.parent
      ensures Valid() && contents == old(contents)[held.Key() := r]
      ensures r.stem == held.Key() && Inserted(old(View()), View(), r, held)
      ensures OnlyNewNodes()
    {
      hide WellFormed, Represents, Inserted, Splice, Between, Below, OnlyNewNodes;
      ghost var t := View();
      HangsSomewhere(View(), maxbits, node);
      r := LinkAbove(node, held, right);
      SpliceKeeps(t, maxbits, node, r, held, right);
      SpliceInserts(t, node, r, held, right);
      Record(t, r, held);
      NewNodes(r, r);
    }

    method InsertFork(held: Prefix, bit: nat, node: Node, right: bool) returns (r: Node)
      requires Valid() && node in cells && held.Fits(maxbits) && held.Key() !in contents && bit < held.bitlen
      requires node.parent != null ==> node.parent in cells
      requires Between(View(), node, held.Key()[..bit], right) && Below(held.Key()[..bit], held.Key(), !right)
      modifies this, node, node.parent
      ensures Valid() && contents == old(contents)[held.Key() := r]
      ensures r.stem == held.Key() && Inserted(old(View()), View(), r, held)
      ensures OnlyNewNodes()
    {
      hide WellFormed, Represents, Inserted, Fork, Between, Below, OnlyNewNodes;
      ghost var t := View();
      HangsSomewhere(View(), maxbits, node);
      var glue;
      r, glue := LinkFork(node, held, bit, right);
      ForkKeeps(t, maxbits, node, glue, r, held, right);
      ForkInserts(t, node, glue, r, held, right);
      Record(t, r, held);
      NewNodes(glue, r);
    }

    // The four ways of storing a key that is not there yet (patricia.c:770-872).
    method InsertAt(held: Prefix, s: Node, d: nat, node: Node) returns (r: Node)
      requires Valid() && held.Fits(maxbits) && Spot(View(), s, held.Key(), d, node)
      requires s.prefix != null && s.prefix.Fits(maxbits) && s.prefix.Key() == s.stem
      requires d == held.bitlen == node.bit ==> node.prefix == null
      modifies this, node, node.parent
      ensures Valid() && contents == old(contents)[held.Key() := r] && held.Key() !in old(contents)
      ensures r.stem == held.Key() && Inserted(old(View()), View(), r, held)
      ensures OnlyNewNodes()
    {
      hide WellFormed, Represents, Inserted, OnlyNewNodes;
      ghost var k, t := held.Key(), View();
      SpotParent(t, maxbits, s, k, d, node);
      if d == held.bitlen && node.bit == held.bitlen {
        SpotHit(t, maxbits, contents, s, k, d, node);
        InsertHere(held, node);
        r := node;
      } else if node.bit == d {
        SpotChild(t, maxbits, contents, s, k, d, node);
        r := InsertChild(held, node, node.bit < maxbits && BitAt(held.addr, node.bit));
      } else if held.bitlen == d {
        SpotAbove(t, maxbits, contents, s, k, d, node);
        r := InsertAbove(held, node, held.bitlen < maxbits && BitAt(s.prefix.addr, held.bitlen));
      } else {
        SpotFork(t, maxbits, contents, s, k, d, node);
        r := InsertFork(held, d, node, !(d < maxbits && BitAt(held.addr, d)));
      }
    }

    // What an insertion means for the fields.
    twostate predicate Gained(new r: Node, new held: Prefix)
      reads this, cells.Keys
    {
      && r in cells && r.prefix == held && r.data == null
      && (r in old(cells) ==> old(r.prefix) == null)
      && old(cells.Keys) <= cells.Keys
      && (forall n :: n in old(cells) && old(n.prefix) != null && n != r ==>
            n.prefix == old(n.prefix) && n.data == old(n.data))
      && (forall n :: n in cells && n.prefix != null && n != r ==> n in old(cells) && old(n.prefix) == n.prefix)
    }

    twostate lemma InsertedMeansGained(new r: Node, new held: Prefix)
      requires old(Valid()) && Mirrored() && Inserted(old(View()), View(), r, held)
      requires r.stem !in old(contents)
      ensures Gained(r, held)
    {
      if r in old(cells) {
        assert Registered(old(View()), old(contents), r);
      }
    }

    // Prefixes that are stored keep the reference that the trie holds.
    twostate lemma StillCounted(new r: Node, new held: Prefix)
      requires old(Counted()) && Gained(r, held) && held.live && held.refCount >= 1
      requires forall n :: n in old(cells) && old(n.prefix) != null ==>
        var q := old(n.prefix); q.live == old(q.live) && q.refCount == old(q.refCount)
      ensures Counted()
    {
    }

    // Store a referenced prefix whose key is not there yet.
    method Enter(held: Prefix, s: Node?, d: nat, node: Node?) returns (r: Node)
      requires Valid() && Counted() && held.Fits(maxbits) && held.live && held.refCount >= 1
      requires head != null ==> s != null && node != null && CanEnter(held.Key(), s, d, node)
      modifies this, cells.Keys
      ensures Valid() && Counted() && held.Key() !in old(contents)
      ensures contents == old(contents)[held.Key() := r] && Gained(r, held)
      ensures OnlyNewNodes()
    {
      hide WellFormed, Represents, Inserted;
      if head == null {
        EmptyStoresNothing();
        r := InsertHead(held);
      } else {
        SpotParent(View(), maxbits, s, held.Key(), d, node);
        r := InsertAt(held, s, d, node);
      }
      InsertedMeansGained(r, held);
      StillCounted(r, held);
    }

    lemma EmptyStoresNothing()
      requires Valid() && head == null
      ensures contents == map[]
    {
    }

    // A spot for a key that is not stored.
    ghost predicate CanEnter(k: Key, s: Node, d: nat, node: Node)
      reads this, s, node
    {
      && Spot(View(), s, k, d, node)
      && s.prefix != null && s.prefix.Fits(maxbits) && s.prefix.Key() == s.stem
      && (d == |k| == node.bit ==> node.prefix == null)
    }

    // The node that stores the key, or the spot where it is to go.
    method Locate(p: Prefix) returns (found: Node?, s: Node?, d: nat, node: Node?)
      requires Valid() && p.Fits(maxbits)
      ensures found != null ==> p.Key() in contents && contents[p.Key()] == found
      ensures found == null && head != null ==> s != null && node != null && CanEnter(p.Key(), s, d, node)
    {
      found, s, d, node := null, null, 0, null;
      if head != null {
        s, d, node := FindSpot(p);
        if d == p.bitlen && node.bit == p.bitlen {
          SpotHit(View(), maxbits, contents, s, p.Key(), d, node);
          if node.prefix != null {
            assert Registered(View(), contents, node);
            found := node;
          }
        }
      }
    }

    /**
     patricia_lookup (patricia.c:663-873): find the key's node, or make one.
     Nodes that already store a key keep their identity, prefix and data.
     */
    method Lookup(p: Prefix) returns (r: Node)
      requires Valid() && Counted() && p.Fits(maxbits) && p.live && p.refCount >= -1
      modifies this, cells.Keys, p`refCount
      ensures Valid() && Counted()
      ensures p.Key() in contents && contents[p.Key()] == r
      ensures p.Key() in old(contents) ==>
        contents == old(contents) && View() == old(View()) && p.refCount == old(p.refCount)
      ensures p.Key() !in old(contents) ==>
        && contents == old(contents)[p.Key() := r]
        && r.prefix != null && Gained(r, r.prefix)
        && r.prefix.addr == p.addr && r.prefix.bitlen == p.bitlen
        && (old(p.refCount) == -1 ==> fresh(r.prefix) && r.prefix.refCount == 1 && p.refCount == -1)
        && (old(p.refCount) != -1 ==> r.prefix == p && p.refCount == old(p.refCount) + 1)
        && r.data == null
      ensures forall n :: n in old(cells) && old(n.prefix) != null ==>
        n in cells && n.prefix == old(n.prefix) && n.data == old(n.data)
      ensures OnlyNewNodes()
    {
      hide WellFormed, Represents, Spot, CanEnter, Mirrored;
      var found, s, d, node := Locate(p);
      if found != null {
        return found;
      }
      var held := p.Ref();
      assert held.Key() == p.Key();
      assert Counted();
      r := Enter(held, s, d, node);
    }

    // ----- removing

    // Unlink and release a leaf (patricia.c:905-924).
    method UnlinkLeaf(node: Node)
      requires Mirrored() && node in cells && node.parent != node
      requires Hangs(View(), node.parent, node)
      modifies this`head, this`cells, this`numActive, node.parent
      ensures Mirrored() && View() == Detach(old(View()), node)
      ensures numActive == old(numActive) - 1 && contents == old(contents)
    {
      Hang(node.parent, node, null);
      Delete(node);
    }

    // Unlink and release a node with one child (patricia.c:931-944 and 959-978).
    method UnlinkOnly(node: Node, child: Node)
      requires Mirrored() && node in cells && child in cells && child != node
      requires node.parent != node && node.parent != child
      requires Hangs(View(), node.parent, node)
      modifies this`head, this`cells, this`numActive, child, node.parent
      ensures Mirrored() && View() == Bypass(old(View()), node, child)
      ensures numActive == old(numActive) - 1 && contents == old(contents)
    {
      var p := node.parent;
      Hang(p, node, child);
      SetParent(child, p);
      Delete(node);
    }

    // Close a removal that has been carried out on the fields.
    ghost method Strike(t: Trie, node: Node)
      requires maxbits <= PATRICIA_MAXBITS && Mirrored() && numActive == |cells|
      requires WellFormed(t, maxbits) && Represents(t, contents) && node in t.cells
      requires WellFormed(View(), maxbits) && Erased(t, View(), node)
      modifies this`contents
      ensures head == old(head) && cells == old(cells)
      ensures Valid() && contents == old(contents) - {node.stem}
    {
      hide WellFormed, Represents, Erased, Mirrored;
      ghost var rest := contents - {node.stem};
      NoLongerStores(t, View(), maxbits, contents, node);
      contents := rest;
    }

    // A node with two children becomes glue (patricia.c:884-898).
    method EraseInner(node: Node)
      requires Valid() && node in cells && node.l != null && node.r != null
      modifies this, node
      ensures Valid() && contents == old(contents) - {node.stem}
      ensures Erased(old(View()), View(), node)
    {
      ghost var t := View();
      SetPrefix(node, null);
      RefillKeeps(t, maxbits, node, null);
      Strike(t, node);
    }

    // A leaf goes and its glue parent with it, so that the sibling moves up (patricia.c:926-946).
    method EraseWithGlue(node: Node, parent: Node)
      requires Valid() && node in cells && node.l == null && node.r == null
      requires parent == node.parent && parent in cells && parent.prefix == null
      modifies this, cells.Keys
      ensures Valid() && contents == old(contents) - {node.stem}
      ensures Erased(old(View()), View(), node)
    {
      hide WellFormed, Represents, Erased, Detach, Bypass;
      ghost var t := View();
      var child := if parent.r != node then parent.r else parent.l;
      DetachTwoKeeps(t, maxbits, node, parent, child);
      UnlinkLeaf(node);
      UnlinkOnly(parent, child);
      Strike(t, node);
    }

    // A leaf goes (patricia.c:900-946).
    method EraseLeaf(node: Node)
      requires Valid() && node in cells && node.l == null && node.r == null
      requires node.parent != null ==> node.parent in cells
      modifies this, cells.Keys
      ensures Valid() && contents == old(contents) - {node.stem}
      ensures Erased(old(View()), View(), node)
    {
      hide WellFormed, Represents, Erased, Detach;
      ghost var t := View();
      var parent := node.parent;
      if parent != null && parent.prefix == null {
        EraseWithGlue(node, parent);
        return;
      }
      HangsSomewhere(View(), maxbits, node);
      DetachErases(t, node);
      if parent == null {
        DetachLone(t, maxbits, node);
      } else {
        DetachKeeps(t, maxbits, node);
      }
      UnlinkLeaf(node);
      Strike(t, node);
    }

    // A node with one child goes, and the child moves up (patricia.c:952-978).
    method EraseOnly(node: Node, right: bool)
      requires Valid() && node in cells
      requires Child(View(), node, right) != null && Child(View(), node, !right) == null
      modifies this, cells.Keys
      ensures Valid() && contents == old(contents) - {node.stem}
      ensures Erased(old(View()), View(), node)
    {
      hide WellFormed, Represents, Erased, Bypass;
      ghost var t := View();
      var child := if right then node.r else node.l;
      HangsSomewhere(t, maxbits, node);
      OnlyChild(t, maxbits, node, right);
      BypassKeeps(t, maxbits, node, child, right);
      BypassErases(t, node, child);
      UnlinkOnly(node, child);
      Strike(t, node);
    }

    // What a removal means for the fields.
    twostate predicate Lost(node: Node)
      reads this, cells.Keys
    {
      && cells.Keys <= old(cells.Keys) && (node in cells ==> node.prefix == null)
      && (forall n :: n in cells && n != node ==> n.prefix == old(n.prefix) && n.data == old(n.data))
      && (forall n :: n in old(cells) && n !in cells && n != node ==> old(n.prefix) == null)
    }

    twostate lemma ErasedMeansLost(node: Node)
      requires old(Mirrored()) && Mirrored() && Erased(old(View()), View(), node)
      ensures Lost(node)
    {
    }

    // No prefix is held by two nodes.
    lemma HeldOnce(node: Node)
      requires Valid() && node in cells && node.prefix != null
      ensures forall n :: n in cells && n.prefix == node.prefix ==> n == node
    {
      forall n | n in cells && n.prefix == node.prefix ensures n == node {
        Shape.HeldOnce(View(), maxbits, n, node);
      }
    }

    // The three shapes a node can have when it goes (patricia.c:884-978).
    method Erase(node: Node)
      requires Valid() && node in cells
      modifies this, cells.Keys
      ensures Valid() && contents == old(contents) - {node.stem} && Lost(node)
    {
      hide WellFormed, Represents, Erased;
      if node.r != null && node.l != null {
        EraseInner(node);
      } else if node.r == null && node.l == null {
        if node.parent != null {
          HangsOnParent(View(), maxbits, node);
        }
        EraseLeaf(node);
      } else {
        EraseOnly(node, node.r != null);
      }
      ErasedMeansLost(node);
    }

    /**
     patricia_remove (patricia.c:876-979).  The trie gives its reference to the
     removed prefix back; the prefix is released if that was the last one.
     */
    method Remove(node: Node)
      requires Valid() && Counted() && node in cells
      modifies this, cells.Keys, node.prefix
      ensures Valid() && Counted()
      ensures contents == old(contents) - {node.stem} && Lost(node)
      ensures forall n :: n in old(cells) && old(n.prefix) != null && n != node ==>
        n in cells && n.prefix == old(n.prefix) && n.data == old(n.data)
      ensures old(node.prefix) != null ==>
        var q := old(node.prefix); q.refCount == old(q.refCount) - 1 && (q.live <==> q.refCount > 0)
    {
      hide WellFormed, Represents, Mirrored;
      var q := node.prefix;
      if q != null {
        HeldOnce(node);
        q.Deref();
      }
      Erase(node);
    }
  }
}
