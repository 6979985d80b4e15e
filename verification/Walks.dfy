/**
 The explicit-stack traversals of patricia.h:107-145 and patricia.c:401-489.
 */
module Walks {
  import opened Bits
  import opened Prefixes
  import opened Shape
  import opened Traversal
  import opened Patricia

  // ----- the walk as a step on (current node, stack)

  // The waiting nodes are in use.
  ghost predicate InUse(t: Trie, st: seq<Node>)
  {
    forall i :: 0 <= i < |st| ==> st[i] in t.cells
  }

  // What the subtrees waiting on the stack hold, topmost first.
  ghost function Pending(t: Trie, maxbits: nat, st: seq<Node>): seq<Node>
    requires WellFormed(t, maxbits) && InUse(t, st)
  {
    if st == [] then []
    else Preorder(t, maxbits, st[|st| - 1]) + Pending(t, maxbits, st[..|st| - 1])
  }

  // Right siblings wait on the stack, one for each of some ancestors of the current node.
  ghost predicate Waiting(t: Trie, st: seq<Node>)
  {
    && (forall i :: 0 <= i < |st| ==>
          st[i] in t.cells && t.cells[st[i]].parent != null && i <= t.cells[st[i]].parent.bit < st[i].bit)
    && (forall i, j :: 0 <= i < j < |st| ==> t.cells[st[i]].parent.bit < t.cells[st[j]].parent.bit)
  }

  ghost predicate Above(t: Trie, st: seq<Node>, n: Node)
    requires Waiting(t, st)
  {
    n in t.cells && |st| <= n.bit && forall i :: 0 <= i < |st| ==> t.cells[st[i]].parent.bit < n.bit
  }

  // Everything is visited, at hand, or waiting, in preorder.
  ghost predicate Walking(t: Trie, maxbits: nat, visited: seq<Node>, n: Node?, st: seq<Node>)
    requires WellFormed(t, maxbits)
  {
    && Waiting(t, st)
    && (if n == null then st == [] else Above(t, st, n))
    && (t.head != null ==> t.head in t.cells)
    && Preorder(t, maxbits, t.head) == visited + Preorder(t, maxbits, n) + Pending(t, maxbits, st)
  }

  ghost function NextNode(t: Trie, n: Node, st: seq<Node>): Node?
    requires n in t.cells
  {
    var c := t.cells[n];
    if c.l != null then c.l else if c.r != null then c.r else if st != [] then st[|st| - 1] else null
  }

  ghost function NextStack(t: Trie, n: Node, st: seq<Node>): seq<Node>
    requires n in t.cells
  {
    var c := t.cells[n];
    if c.l != null then (if c.r != null then st + [c.r] else st)
    else if c.r != null || st == [] then st else st[..|st| - 1]
  }

  lemma PendingPush(t: Trie, maxbits: nat, st: seq<Node>, r: Node)
    requires WellFormed(t, maxbits) && InUse(t, st) && r in t.cells
    ensures InUse(t, st + [r])
    ensures Pending(t, maxbits, st + [r]) == Preorder(t, maxbits, r) + Pending(t, maxbits, st)
  {
    hide WellFormed, Preorder;
    assert (st + [r])[..|st|] == st;
  }

  lemma PendingPop(t: Trie, maxbits: nat, st: seq<Node>)
    requires WellFormed(t, maxbits) && InUse(t, st)
    ensures st == [] ==> Pending(t, maxbits, st) == []
    ensures st != [] ==>
      && InUse(t, st[..|st| - 1]) && st[|st| - 1] in t.cells
      && Pending(t, maxbits, st) == Preorder(t, maxbits, st[|st| - 1]) + Pending(t, maxbits, st[..|st| - 1])
  {
    hide WellFormed, Preorder;
  }

  lemma PreorderSplits(t: Trie, maxbits: nat, n: Node)
    requires WellFormed(t, maxbits) && n in t.cells
    ensures ChildDeeper(t, maxbits, n, false) && ChildDeeper(t, maxbits, n, true)
    ensures Preorder(t, maxbits, n)
         == [n] + Preorder(t, maxbits, Child(t, n, false)) + Preorder(t, maxbits, Child(t, n, true))
    ensures Preorder(t, maxbits, null) == []
  {
    ChildrenDeeper(t, maxbits, n);
    hide WellFormed;
  }

  lemma WalkOrder(t: Trie, maxbits: nat, n: Node, st: seq<Node>)
    requires WellFormed(t, maxbits) && n in t.cells && InUse(t, st)
    ensures var n', st' := NextNode(t, n, st), NextStack(t, n, st);
      && (n' != null ==> n' in t.cells) && InUse(t, st')
      && Preorder(t, maxbits, n) + Pending(t, maxbits, st)
         == [n] + (Preorder(t, maxbits, n') + Pending(t, maxbits, st'))
  {
    hide WellFormed, Preorder, Pending, InUse;
    PreorderSplits(t, maxbits, n);
    PendingPop(t, maxbits, st);
    var l, r := Child(t, n, false), Child(t, n, true);
    Regroup3(n, Preorder(t, maxbits, l), Preorder(t, maxbits, r), Pending(t, maxbits, st));
    if l != null && r != null {
      PendingPush(t, maxbits, st, r);
    }
  }

  lemma Regroup3<T>(n: T, a: seq<T>, b: seq<T>, p: seq<T>)
    ensures [n] + a + b + p == [n] + (a + (b + p))
    ensures a == [] ==> a + (b + p) == b + p
    ensures b == [] ==> a + (b + p) == a + p
    ensures a == [] && b == [] ==> a + (b + p) == p == [] + p
    ensures p == [] ==> a + p == a
  {
  }

  lemma Regroup<T>(v: seq<T>, a: seq<T>, b: seq<T>, x: T, c: seq<T>, d: seq<T>)
    requires a + b == [x] + (c + d)
    ensures v + a + b == v + [x] + c + d
  {
    assert v + a + b == v + (a + b);
  }

  lemma StackPushed(t: Trie, n: Node, st: seq<Node>, l: Node, r: Node)
    requires Waiting(t, st) && Above(t, st, n) && l in t.cells && r in t.cells
    requires t.cells[r].parent == n && n.bit < l.bit && n.bit < r.bit
    ensures Waiting(t, st + [r]) && Above(t, st + [r], l)
  {
  }

  lemma StackPopped(t: Trie, st: seq<Node>)
    requires Waiting(t, st) && st != []
    ensures Waiting(t, st[..|st| - 1]) && Above(t, st[..|st| - 1], st[|st| - 1])
  {
    var last := |st| - 1;
    assert forall i :: 0 <= i < last ==> t.cells[st[i]].parent.bit < t.cells[st[last]].parent.bit;
  }

  // The stack stays sorted by depth, so that it never holds more than maxbits nodes.
  lemma WalkStack(t: Trie, maxbits: nat, n: Node, st: seq<Node>)
    requires WellFormed(t, maxbits) && Waiting(t, st) && Above(t, st, n)
    ensures var n', st' := NextNode(t, n, st), NextStack(t, n, st);
      && Waiting(t, st') && (if n' == null then st' == [] else Above(t, st', n'))
      && |st'| <= maxbits
  {
    ChildrenDeeper(t, maxbits, n);
    hide WellFormed;
    var l, r := Child(t, n, false), Child(t, n, true);
    if l != null && r != null {
      hide Waiting;
      StackPushed(t, n, st, l, r);
    } else if l == null && r == null && st != [] {
      hide Waiting;
      StackPopped(t, st);
    }
  }

  // One step of the macro PATRICIA_WALK_END.
  lemma WalkStep(t: Trie, maxbits: nat, visited: seq<Node>, n: Node, st: seq<Node>)
    requires WellFormed(t, maxbits) && Walking(t, maxbits, visited, n, st)
    ensures Walking(t, maxbits, visited + [n], NextNode(t, n, st), NextStack(t, n, st))
    ensures |NextStack(t, n, st)| <= maxbits
  {
    hide WellFormed, NextNode, NextStack;
    var n', st' := NextNode(t, n, st), NextStack(t, n, st);
    WalkStack(t, maxbits, n, st);
    WalkOrder(t, maxbits, n, st);
    Regroup(visited, Preorder(t, maxbits, n), Pending(t, maxbits, st), n,
            Preorder(t, maxbits, n'), Pending(t, maxbits, st'));
  }

  lemma WalkBegins(t: Trie, maxbits: nat)
    requires WellFormed(t, maxbits)
    ensures Walking(t, maxbits, [], t.head, [])
  {
    assert Preorder(t, maxbits, t.head) == [] + Preorder(t, maxbits, t.head) + Pending(t, maxbits, []);
  }

  lemma WalkEnds(t: Trie, maxbits: nat, visited: seq<Node>, st: seq<Node>)
    requires WellFormed(t, maxbits) && Walking(t, maxbits, visited, null, st)
    ensures visited == Preorder(t, maxbits, t.head) && |visited| == |t.cells|
    ensures forall n :: n in visited <==> n in t.cells
    ensures forall i, j :: 0 <= i < j < |visited| ==> visited[i] != visited[j]
  {
    assert visited == Preorder(t, maxbits, t.head);
    PreorderAll(t, maxbits, visited);
    NodesCounted(t, maxbits);
  }

  // The stack array holds `st`.
  ghost predicate Holds(stack: array<Node?>, sp: nat, st: seq<Node>)
    reads stack
  {
    sp == |st| <= stack.Length && forall i :: 0 <= i < |st| ==> stack[i] == st[i]
  }

  // PATRICIA_WALK_END (patricia.h:131-144): where the walk goes from node n with children l and r.
  method Advance(ghost t: Trie, ghost n: Node, l: Node?, r: Node?, stack: array<Node?>, sp: nat, ghost st: seq<Node>)
    returns (next: Node?, sp': nat, ghost st': seq<Node>)
    requires n in t.cells && l == t.cells[n].l && r == t.cells[n].r
    requires Holds(stack, sp, st) && |NextStack(t, n, st)| <= stack.Length
    modifies stack
    ensures next == NextNode(t, n, st) && st' == NextStack(t, n, st)
    ensures Holds(stack, sp', st')
  {
    sp', st' := sp, NextStack(t, n, st);
    if l != null {
      if r != null {
        stack[sp] := r;
        sp' := sp + 1;
      }
      next := l;
    } else if r != null {
      next := r;
    } else if sp != 0 {
      sp' := sp - 1;
      next := stack[sp'];
    } else {
      next := null;
    }
  }

  lemma NoneStored(t: Trie)
    ensures Stored(t, []) == []
  {
  }

  lemma StoredSnoc(t: Trie, s: seq<Node>, n: Node)
    ensures Stored(t, s + [n]) == Stored(t, s) + if Stores(t, n) then [n] else []
  {
    StoredConcat(t, s, [n]);
  }

  /**
   PATRICIA_WALK over the whole trie (patricia.h:107-113 and 131-145, as used by
   patricia_process): it equals the recursive preorder, and so lists every
   stored node exactly once in lexicographic order.
   */
  method Walk(tree: Tree) returns (out: seq<Node>)
    requires tree.Valid()
    ensures out == Stored(tree.View(), Preorder(tree.View(), tree.maxbits, tree.head))
    ensures Ascending(out) && |out| == |tree.contents|
    ensures forall n :: n in out <==> n in tree.contents.Values
  {
    hide WellFormed, Represents, Walking, Preorder, Stored, NextStack, NextNode;
    ghost var t, maxbits := tree.View(), tree.maxbits;
    var stack := new Node?[PATRICIA_MAXBITS + 1](_ => null);
    var sp: nat := 0;
    ghost var visited: seq<Node>, st: seq<Node> := [], [];
    var n := tree.head;
    out := [];
    WalkBegins(t, maxbits);
    NoneStored(t);
    while n != null
      invariant tree.Mirrored()
      invariant Walking(t, maxbits, visited, n, st)
      invariant Holds(stack, sp, st)
      invariant out == Stored(t, visited)
      decreases |t.cells| - |visited|
    {
      NotVisited(t, maxbits, visited, n, st);
      WalkStep(t, maxbits, visited, n, st);
      StoredSnoc(t, visited, n);
      if n.prefix != null {
        out := out + [n];
      }
      visited := visited + [n];
      n, sp, st := Advance(t, n, n.l, n.r, stack, sp, st);
    }
    WalkEnds(t, maxbits, visited, st);
    KeysCounted(t, maxbits, tree.contents, out);
    ValuesStored(t, tree.contents);
  }

  lemma ValuesStored(t: Trie, contents: map<Key, Node>)
    requires Represents(t, contents)
    ensures forall n :: Stores(t, n) <==> n in contents.Values
  {
    forall n ensures Stores(t, n) <==> n in contents.Values {
      if Stores(t, n) {
        assert Registered(t, contents, n);
        assert contents[n.stem] == n;
      }
    }
  }

  /**
   patricia_walk_inorder (patricia.c:469-489): the nodes func is called on, and
   how many: those at or below `node` that store a key, from left to right.
   */
  method WalkInorder(tree: Tree, node: Node) returns (n: nat, out: seq<Node>)
    requires tree.Valid() && node in tree.cells
    ensures out == Inorder(tree.View(), tree.maxbits, node) && n == |out|
    ensures LeftToRight(out)
    ensures forall x :: x in out <==> x in tree.cells && x.prefix != null && node.stem <= x.stem
    decreases Height(tree.maxbits, node)
  {
    hide WellFormed, Represents, LeftToRight, Inorder;
    ghost var t := tree.View();
    InorderSplits(t, tree.maxbits, node);
    assert node.l == Child(t, node, false) && node.r == Child(t, node, true);
    n, out := 0, [];
    if node.l != null {
      n, out := WalkInorder(tree, node.l);
    }
    if node.prefix != null {
      out := out + [node];
      n := n + 1;
    }
    if node.r != null {
      var m, rest := WalkInorder(tree, node.r);
      n := n + m;
      out := out + rest;
    }
    assert out == Inorder(t, tree.maxbits, node);
    InorderFacts(tree, node);
  }

  lemma InorderFacts(tree: Tree, node: Node)
    requires tree.Valid() && node in tree.cells
    ensures var s := Inorder(tree.View(), tree.maxbits, node);
      LeftToRight(s) && forall x :: x in s <==> x in tree.cells && x.prefix != null && node.stem <= x.stem
  {
    hide WellFormed, Represents, LeftToRight, Inorder;
    InorderOrdered(tree.View(), tree.maxbits, node);
    forall x ensures x in Inorder(tree.View(), tree.maxbits, node)
                     <==> x in tree.cells && x.prefix != null && node.stem <= x.stem
    {
      InorderMembers(tree.View(), tree.maxbits, node, x);
    }
  }

  // On a non-empty trie it returns the number of keys and visits each of them once.
  lemma InorderCountsKeys(tree: Tree)
    requires tree.Valid() && tree.head != null
    ensures |Inorder(tree.View(), tree.maxbits, tree.head)| == |tree.contents|
    ensures multiset(Inorder(tree.View(), tree.maxbits, tree.head)) == multiset(tree.contents.Values)
  {
    var t, maxbits := tree.View(), tree.maxbits;
    var q := Stored(t, Preorder(t, maxbits, t.head));
    InorderStored(t, maxbits, t.head);
    KeysCounted(t, maxbits, tree.contents, q);
    ValuesStored(t, tree.contents);
    AscendingDistinct(q);
    DistinctMultiset(q, tree.contents.Values);
    SameLength(Inorder(t, maxbits, t.head), q);
  }

  // The counter counts the nodes in use, and k keys take at most 2k - 1 of them.
  lemma ActiveNodes(tree: Tree)
    requires tree.Valid()
    ensures tree.numActive == |tree.cells|
    ensures tree.head == null <==> |tree.contents| == 0
    ensures tree.head != null ==> |tree.contents| <= tree.numActive <= 2 * |tree.contents| - 1
  {
    var t := tree.View();
    if tree.head != null {
      NodeBound(t, tree.maxbits, tree.contents);
      NodesCounted(t, tree.maxbits);
      var s := Preorder(t, tree.maxbits, t.head);
      KeysCounted(t, tree.maxbits, tree.contents, Stored(t, s));
      StoredNoLonger(t, s);
    }
  }

  lemma {:induction false} StoredNoLonger(t: Trie, s: seq<Node>)
    ensures |Stored(t, s)| <= |s|
  {
    if s != [] {
      StoredNoLonger(t, s[1..]);
    }
  }

  // ----- tearing down

  // What func is called on when the nodes of s are torn down.
  ghost function DataOf(t: Trie, s: seq<Node>): seq<object>
  {
    if s == [] then []
    else
      var d := if Stores(t, s[0]) then t.cells[s[0]].data else null;
      (if d != null then [d] else []) + DataOf(t, s[1..])
  }

  lemma DataNone(t: Trie)
    ensures DataOf(t, []) == []
  {
  }

  lemma {:induction false} DataSnoc(t: Trie, s: seq<Node>, n: Node)
    ensures DataOf(t, s + [n]) ==
      var d := if Stores(t, n) then t.cells[n].data else null;
      DataOf(t, s) + if d != null then [d] else []
  {
    if s == [] {
      assert s + [n] == [n] && [n][1..] == [];
    } else {
      DataSnoc(t, s[1..], n);
      assert (s + [n])[1..] == s[1..] + [n];
    }
  }

  ghost predicate HasData(t: Trie, n: Node)
  {
    Stores(t, n) && t.cells[n].data != null
  }

  // It is the data of the stored nodes that have some ...
  lemma {:induction false} DataOfMember(t: Trie, s: seq<Node>, d: object)
    ensures d in DataOf(t, s) <==> exists n :: n in s && HasData(t, n) && t.cells[n].data == d
  {
    if s != [] {
      DataOfMember(t, s[1..], d);
      hide DataOf;
      assert forall n :: n in s <==> n == s[0] || n in s[1..];
    }
  }

  // ... each once.
  lemma {:induction false} DataOfCount(t: Trie, s: seq<Node>, with: set<Node>)
    requires forall i, j :: 0 <= i < j < |s| ==> s[i] != s[j]
    requires forall n :: n in with <==> n in s && HasData(t, n)
    ensures |DataOf(t, s)| == |with|
  {
    if s == [] {
      assert with == {};
    } else {
      var n, rest, others := s[0], s[1..], with - {s[0]};
      forall m ensures m in others <==> m in rest && HasData(t, m) {
        if m in rest {
          var i :| 0 <= i < |rest| && rest[i] == m;
          assert s[i + 1] == m;
        }
      }
      DataOfCount(t, rest, others);
      assert |with| == |others| + if n in with then 1 else 0;
    }
  }

  // The nodes not yet visited are in use and as they were.
  ghost predicate Remaining(t: Trie, cells: map<Node, Cell>, visited: seq<Node>)
  {
    && (forall n :: n in cells ==> n in t.cells && n !in visited && cells[n] == t.cells[n])
    && (forall n :: n in t.cells && n !in visited ==> n in cells)
  }

  lemma NotVisited(t: Trie, maxbits: nat, visited: seq<Node>, n: Node, st: seq<Node>)
    requires WellFormed(t, maxbits) && Walking(t, maxbits, visited, n, st)
    ensures n in t.cells && n !in visited && |visited| < |t.cells|
    ensures forall m :: m in visited ==> m in t.cells
  {
    var s := Preorder(t, maxbits, t.head);
    PreorderAll(t, maxbits, s);
    NodesCounted(t, maxbits);
    assert s[|visited|] == n;
    assert forall i :: 0 <= i < |visited| ==> s[i] == visited[i];
  }

  // Prefixes of released nodes have one reference less than `counts` says, the others have as many.
  ghost predicate Settled(t: Trie, counts: map<Prefix, int>, released: seq<Node>)
    reads set n | n in t.cells :: t.cells[n].prefix
  {
    forall n :: n in t.cells && t.cells[n].prefix != null ==>
      var q := t.cells[n].prefix;
      && q in counts && counts[q] >= 1
      && q.refCount == counts[q] - (if n in released then 1 else 0)
      && (q.live <==> q.refCount > 0)
  }

  // No prefix is held twice.
  ghost predicate NoneHeldTwice(t: Trie)
  {
    forall n, m ::
      n in t.cells && m in t.cells && t.cells[n].prefix != null && t.cells[n].prefix == t.cells[m].prefix ==> n == m
  }

  lemma PrefixesHeldOnce(t: Trie, maxbits: nat)
    requires WellFormed(t, maxbits)
    ensures NoneHeldTwice(t)
  {
    forall n, m | n in t.cells && m in t.cells && t.cells[n].prefix != null && t.cells[n].prefix == t.cells[m].prefix
      ensures n == m
    {
      Shape.HeldOnce(t, maxbits, n, m);
    }
  }

  // One node goes (patricia.c:412-424).
  method Release(tree: Tree, n: Node, hasFunc: bool,
                 ghost t: Trie, ghost counts: map<Prefix, int>, ghost freed: seq<Node>)
    returns (called: seq<object>)
    requires tree.Mirrored() && Remaining(t, tree.cells, freed) && n in tree.cells && n in t.cells && NoneHeldTwice(t)
    requires Settled(t, counts, freed)
    requires n.prefix == null ==> n.data == null
    modifies tree`cells, tree`numActive, n.prefix
    ensures tree.Mirrored() && Remaining(t, tree.cells, freed + [n])
    ensures tree.numActive == old(tree.numActive) - 1
    ensures Settled(t, counts, freed + [n])
    ensures var d := if Stores(t, n) then t.cells[n].data else null;
      called == if hasFunc && d != null then [d] else []
  {
    called := [];
    if n.prefix != null {
      n.prefix.Deref();
      if n.data != null && hasFunc {
        called := [n.data];
      }
    } else {
      assert n.data == null;
    }
    tree.Delete(n);
  }

  lemma TakeCounts(tree: Tree) returns (counts: map<Prefix, int>)
    requires tree.Valid() && tree.Counted()
    ensures Settled(tree.View(), counts, [])
    ensures forall n :: n in tree.cells && n.prefix != null ==>
      n.prefix in counts && counts[n.prefix] == n.prefix.refCount
  {
    hide WellFormed, Represents;
    counts := map n | n in tree.cells && n.prefix != null :: n.prefix := n.prefix.refCount;
  }

  lemma TurnFacts(t: Trie, maxbits: nat, freed: seq<Node>, n: Node, st: seq<Node>)
    requires WellFormed(t, maxbits) && Walking(t, maxbits, freed, n, st)
    ensures n in t.cells && n !in freed && |freed| < |t.cells|
    ensures t.cells[n].prefix == null ==> t.cells[n].data == null
    ensures Walking(t, maxbits, freed + [n], NextNode(t, n, st), NextStack(t, n, st))
    ensures |NextStack(t, n, st)| <= maxbits
    ensures DataOf(t, freed + [n]) ==
      var d := if Stores(t, n) then t.cells[n].data else null;
      DataOf(t, freed) + if d != null then [d] else []
  {
    hide WellFormed, Walking, DataOf, NextNode, NextStack;
    NotVisited(t, maxbits, freed, n, st);
    WalkStep(t, maxbits, freed, n, st);
    DataSnoc(t, freed, n);
    GlueHasNoData(t, maxbits, n);
  }

  // One turn of the loop (patricia.c:411-438).
  method ReleaseAndAdvance(tree: Tree, n: Node, hasFunc: bool, stack: array<Node?>, sp: nat,
                           ghost t: Trie, ghost maxbits: nat, ghost counts: map<Prefix, int>,
                           ghost freed: seq<Node>, ghost st: seq<Node>)
    returns (next: Node?, sp': nat, more: seq<object>, ghost st': seq<Node>)
    requires WellFormed(t, maxbits) && NoneHeldTwice(t) && maxbits < stack.Length
    requires tree.Mirrored() && Remaining(t, tree.cells, freed) && Settled(t, counts, freed)
    requires Walking(t, maxbits, freed, n, st) && Holds(stack, sp, st)
    modifies tree`cells, tree`numActive, n.prefix, stack
    ensures tree.Mirrored() && Remaining(t, tree.cells, freed + [n]) && Settled(t, counts, freed + [n])
    ensures tree.numActive == old(tree.numActive) - 1
    ensures Walking(t, maxbits, freed + [n], next, st') && Holds(stack, sp', st')
    ensures DataOf(t, freed + [n]) == DataOf(t, freed) + more || !hasFunc
    ensures !hasFunc ==> more == []
    ensures |freed| < |t.cells|
  {
    hide WellFormed, Walking, DataOf, NoneHeldTwice, Settled, NextNode, NextStack, Holds;
    TurnFacts(t, maxbits, freed, n, st);
    var l, r := n.l, n.r;
    assert n in tree.cells && tree.cells[n] == t.cells[n];
    assert l == t.cells[n].l && r == t.cells[n].r && n.prefix == t.cells[n].prefix && n.data == t.cells[n].data;
    hide Remaining, Tree.Mirrored;
    more := Release(tree, n, hasFunc, t, counts, freed);
    next, sp', st' := Advance(t, n, l, r, stack, sp, st);
  }

  lemma GlueHasNoData(t: Trie, maxbits: nat, n: Node)
    requires WellFormed(t, maxbits) && n in t.cells
    ensures t.cells[n].prefix == null ==> t.cells[n].data == null
  {
    assert Placed(t, n, maxbits);
  }

  /**
   Clear_Patricia (patricia.c:401-442): every node is released exactly once, in
   preorder and after its last use; every stored prefix loses one reference;
   the counter ends at zero.
   */
  method Clear(tree: Tree, hasFunc: bool) returns (called: seq<object>, ghost freed: seq<Node>)
    requires tree.Valid() && tree.Counted()
    modifies tree, set n | n in tree.cells :: n.prefix
    ensures tree.numActive == 0 && tree.cells == map[]
    ensures freed == Preorder(old(tree.View()), tree.maxbits, old(tree.head))
    ensures forall n :: n in freed <==> n in old(tree.cells)
    ensures forall i, j :: 0 <= i < j < |freed| ==> freed[i] != freed[j]
    ensures called == if hasFunc then DataOf(old(tree.View()), freed) else []
    ensures forall n :: n in old(tree.cells) && old(n.prefix) != null ==>
      var q := old(n.prefix); q.refCount == old(q.refCount) - 1 && (q.live <==> q.refCount > 0)
  {
    hide WellFormed, Represents, Walking, DataOf;
    ghost var t, maxbits := tree.View(), tree.maxbits;
    ghost var counts := TakeCounts(tree);
    PrefixesHeldOnce(t, maxbits);
    var stack := new Node?[PATRICIA_MAXBITS + 1](_ => null);
    var sp: nat := 0;
    ghost var st: seq<Node> := [];
    var n := tree.head;
    called, freed := [], [];
    WalkBegins(t, maxbits);
    assert DataOf(t, freed) == [] by { DataNone(t); }
    while n != null
      invariant tree.Mirrored() && Remaining(t, tree.cells, freed) && Settled(t, counts, freed)
      invariant tree.numActive == |t.cells| - |freed|
      invariant Walking(t, maxbits, freed, n, st) && Holds(stack, sp, st)
      invariant called == if hasFunc then DataOf(t, freed) else []
      invariant |freed| <= |t.cells|
      decreases |t.cells| - |freed|
    {
      var more;
      ghost var gone: Node := n;
      NotVisited(t, maxbits, freed, n, st);
      n, sp, more, st := ReleaseAndAdvance(tree, n, hasFunc, stack, sp, t, maxbits, counts, freed, st);
      called := called + more;
      freed := freed + [gone];
    }
    WalkEnds(t, maxbits, freed, st);
    assert tree.numActive == 0;
  }
}
