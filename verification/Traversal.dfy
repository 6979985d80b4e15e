/**
 Recursive traversals of a trie shape, and what they enumerate: every node
 exactly once, in the lexicographic order of stems.
 */
module Traversal {
  import opened Bits
  import opened Shape

  // Lexicographic order of bit strings, a prefix before its extensions.
  ghost predicate Precedes(a: Key, b: Key)
  {
    (a <= b && |a| < |b|) || exists i :: SplitAt(a, b, i)
  }

  ghost predicate SplitAt(a: Key, b: Key, i: int)
  {
    0 <= i < |a| && i < |b| && a[..i] == b[..i] && !a[i] && b[i]
  }

  // Of two different keys exactly one precedes the other, so that there is only
  // one ascending enumeration of a set of keys.
  lemma PrecedesOneWay(a: Key, b: Key)
    requires Precedes(a, b)
    ensures a != b && !Precedes(b, a)
  {
  }

  lemma {:induction false} PrecedesTotal(a: Key, b: Key, i: nat)
    requires i <= |a| && i <= |b| && a[..i] == b[..i]
    ensures a == b || Precedes(a, b) || Precedes(b, a)
    decreases |a| - i
  {
    if i == |a| || i == |b| {
      assert a[..i] == a || b[..i] == b;
    } else if a[i] == b[i] {
      assert a[..i + 1] == a[..i] + [a[i]] == b[..i + 1];
      PrecedesTotal(a, b, i + 1);
    } else {
      assert SplitAt(a, b, i) || SplitAt(b, a, i);
    }
  }

  // Among keys of one length this is the order of their numbers.
  lemma PrecedesIsNumeric(a: Key, b: Key)
    requires |a| == |b|
    ensures Precedes(a, b) <==> KeyNumber(a) < KeyNumber(b)
  {
    if Precedes(a, b) {
      var i :| SplitAt(a, b, i);
      SmallerNumber(a, b, i);
    } else {
      PrecedesTotal(a, b, 0);
      if Precedes(b, a) {
        var i :| SplitAt(b, a, i);
        SmallerNumber(b, a, i);
      }
    }
  }

  lemma {:induction false} SmallerNumber(a: Key, b: Key, i: nat)
    requires |a| == |b| && SplitAt(a, b, i)
    ensures KeyNumber(a) < KeyNumber(b)
    decreases |a|
  {
    var n := |a| - 1;
    if i < n {
      assert a[..n][..i] == a[..i] && b[..n][..i] == b[..i];
      SmallerNumber(a[..n], b[..n], i);
    }
  }

  // ----- preorder

  ghost function Height(maxbits: nat, n: Node?): nat
  {
    if n == null then 0 else if n.bit <= maxbits then 1 + maxbits - n.bit else 1
  }

  ghost predicate ChildDeeper(t: Trie, maxbits: nat, n: Node, side: bool)
    requires n in t.cells
  {
    var c := Child(t, n, side);
    && Height(maxbits, c) < Height(maxbits, n)
    && (c != null ==>
          && c in t.cells && t.cells[c].parent == n
          && n.bit < c.bit == |c.stem| <= maxbits && Below(n.stem, c.stem, side))
  }

  // Child links lead to deeper nodes in use.
  lemma ChildrenDeeper(t: Trie, maxbits: nat, n: Node)
    requires WellFormed(t, maxbits) && n in t.cells
    ensures n.bit == |n.stem| <= maxbits
    ensures ChildDeeper(t, maxbits, n, false) && ChildDeeper(t, maxbits, n, true)
  {
    assert Placed(t, n, maxbits);
    forall side: bool
      ensures ChildDeeper(t, maxbits, n, side)
    {
      var c := Child(t, n, side);
      assert Branches(t, n, side);
      if c != null {
        assert Placed(t, c, maxbits);
      }
    }
  }

  ghost function Preorder(t: Trie, maxbits: nat, n: Node?): seq<Node>
    requires WellFormed(t, maxbits) && (n != null ==> n in t.cells)
    decreases Height(maxbits, n)
  {
    if n == null then []
    else
      ChildrenDeeper(t, maxbits, n);
      [n] + Preorder(t, maxbits, Child(t, n, false)) + Preorder(t, maxbits, Child(t, n, true))
  }

  // The nodes at or below n are those whose stem extends n's.
  lemma {:induction false} PreorderMembers(t: Trie, maxbits: nat, n: Node?, m: Node)
    requires WellFormed(t, maxbits) && (n != null ==> n in t.cells)
    ensures m in Preorder(t, maxbits, n) <==> n != null && m in t.cells && n.stem <= m.stem
    decreases Height(maxbits, n)
  {
    if n != null {
      ChildrenDeeper(t, maxbits, n);
      var l, r := Child(t, n, false), Child(t, n, true);
      PreorderMembers(t, maxbits, l, m);
      PreorderMembers(t, maxbits, r, m);
      if m in t.cells && n.stem <= m.stem {
        Descend(t, maxbits, n, m);
      }
    }
  }

  // Stems ascend along a preorder.
  ghost predicate Ascending(s: seq<Node>)
  {
    forall i, j :: 0 <= i < j < |s| ==> Precedes(s[i].stem, s[j].stem)
  }

  lemma AscendingJoin(n: Node, l: seq<Node>, r: seq<Node>)
    requires Ascending(l) && Ascending(r)
    requires forall x :: x in l ==> Below(n.stem, x.stem, false)
    requires forall x :: x in r ==> Below(n.stem, x.stem, true)
    ensures Ascending([n] + l + r)
  {
    var s := [n] + l + r;
    forall i, j | 0 <= i < j < |s| ensures Precedes(s[i].stem, s[j].stem) {
      if i == 0 {
        assert s[j] in l || s[j] in r;
      } else if i <= |l| < j {
        assert s[i] in l && s[j] in r;
        assert SplitAt(s[i].stem, s[j].stem, |n.stem|);
      } else if j <= |l| {
        assert s[i] == l[i - 1] && s[j] == l[j - 1];
      } else {
        assert s[i] == r[i - 1 - |l|] && s[j] == r[j - 1 - |l|];
      }
    }
  }

  lemma {:induction false} PreorderAscends(t: Trie, maxbits: nat, n: Node?)
    requires WellFormed(t, maxbits) && (n != null ==> n in t.cells)
    ensures Ascending(Preorder(t, maxbits, n))
    decreases Height(maxbits, n)
  {
    if n != null {
      ChildrenDeeper(t, maxbits, n);
      var l, r := Child(t, n, false), Child(t, n, true);
      PreorderAscends(t, maxbits, l);
      PreorderAscends(t, maxbits, r);
      forall x | x in Preorder(t, maxbits, l) ensures Below(n.stem, x.stem, false) {
        PreorderMembers(t, maxbits, l, x);
      }
      forall x | x in Preorder(t, maxbits, r) ensures Below(n.stem, x.stem, true) {
        PreorderMembers(t, maxbits, r, x);
      }
      AscendingJoin(n, Preorder(t, maxbits, l), Preorder(t, maxbits, r));
    }
  }

  lemma AscendingDistinct(s: seq<Node>)
    requires Ascending(s)
    ensures forall i, j :: 0 <= i < j < |s| ==> s[i] != s[j]
  {
    forall i, j | 0 <= i < j < |s| ensures s[i] != s[j] {
      PrecedesOneWay(s[i].stem, s[j].stem);
    }
  }

  // From the head, a preorder lists the nodes in use, each once.
  lemma PreorderAll(t: Trie, maxbits: nat, s: seq<Node>)
    requires WellFormed(t, maxbits) && s == Preorder(t, maxbits, t.head)
    ensures forall m :: m in s <==> m in t.cells
    ensures Ascending(s) && forall i, j :: 0 <= i < j < |s| ==> s[i] != s[j]
  {
    forall m ensures m in s <==> m in t.cells {
      PreorderMembers(t, maxbits, t.head, m);
      if m in t.cells {
        HeadAbove(t, maxbits, m);
      }
    }
    PreorderAscends(t, maxbits, t.head);
    AscendingDistinct(s);
  }

  // ----- counting

  ghost predicate Stores(t: Trie, n: Node)
  {
    n in t.cells && t.cells[n].prefix != null
  }

  ghost function Stored(t: Trie, s: seq<Node>): seq<Node>
  {
    if s == [] then [] else (if Stores(t, s[0]) then [s[0]] else []) + Stored(t, s[1..])
  }

  lemma {:induction false} StoredConcat(t: Trie, a: seq<Node>, b: seq<Node>)
    ensures Stored(t, a + b) == Stored(t, a) + Stored(t, b)
  {
    if a == [] {
      assert a + b == b;
    } else {
      assert (a + b)[1..] == a[1..] + b;
      StoredConcat(t, a[1..], b);
    }
  }

  lemma {:induction false} StoredMember(t: Trie, s: seq<Node>, n: Node)
    ensures n in Stored(t, s) <==> n in s && Stores(t, n)
  {
    if s != [] {
      StoredMember(t, s[1..], n);
    }
  }

  lemma {:induction false} StoredAscends(t: Trie, s: seq<Node>)
    requires Ascending(s)
    ensures Ascending(Stored(t, s))
  {
    if s != [] {
      StoredAscends(t, s[1..]);
      var rest := Stored(t, s[1..]);
      forall j | 0 <= j < |rest| ensures Precedes(s[0].stem, rest[j].stem) {
        StoredMember(t, s[1..], rest[j]);
        var i :| 0 <= i < |s[1..]| && s[1..][i] == rest[j];
        assert s[i + 1] == rest[j];
      }
    }
  }

  // A list without repetitions is the set of its members.
  lemma {:induction false} DistinctMultiset<T>(s: seq<T>, all: set<T>)
    requires forall i, j :: 0 <= i < j < |s| ==> s[i] != s[j]
    requires forall x :: x in s <==> x in all
    ensures multiset(s) == multiset(all) && |s| == |all|
  {
    if s == [] {
      assert all == {};
    } else {
      var rest := all - {s[0]};
      forall x ensures x in s[1..] <==> x in rest {
        if x in s[1..] {
          var j :| 0 <= j < |s[1..]| && s[1..][j] == x;
          assert s[j + 1] == x;
        }
      }
      DistinctMultiset(s[1..], rest);
      assert s == [s[0]] + s[1..];
      assert multiset(all) == multiset{s[0]} + multiset(rest);
    }
  }

  // A preorder has as many nodes as there are in use ...
  lemma NodesCounted(t: Trie, maxbits: nat)
    requires WellFormed(t, maxbits)
    ensures |Preorder(t, maxbits, t.head)| == |t.cells|
  {
    var s := Preorder(t, maxbits, t.head);
    PreorderAll(t, maxbits, s);
    DistinctMultiset(s, t.cells.Keys);
  }

  // ... and the keys it stores are the contents.
  lemma KeysCounted(t: Trie, maxbits: nat, contents: map<Key, Node>, q: seq<Node>)
    requires WellFormed(t, maxbits) && Represents(t, contents)
    requires q == Stored(t, Preorder(t, maxbits, t.head))
    ensures Ascending(q) && |q| == |contents|
    ensures forall n :: n in q <==> Stores(t, n)
  {
    var s := Preorder(t, maxbits, t.head);
    PreorderAll(t, maxbits, s);
    StoredAscends(t, s);
    forall n ensures n in q <==> Stores(t, n) {
      StoredMember(t, s, n);
    }
    StemsCounted(t, contents, q);
  }

  lemma StemsCounted(t: Trie, contents: map<Key, Node>, q: seq<Node>)
    requires Represents(t, contents) && Ascending(q)
    requires forall n :: n in q <==> Stores(t, n)
    ensures |q| == |contents|
  {
    var keys := seq(|q|, i requires 0 <= i < |q| => q[i].stem);
    forall i, j | 0 <= i < j < |keys| ensures keys[i] != keys[j] {
      PrecedesOneWay(q[i].stem, q[j].stem);
    }
    forall k ensures k in keys <==> k in contents.Keys {
      if k in keys {
        var i :| 0 <= i < |keys| && keys[i] == k;
        assert Stores(t, q[i]) && Registered(t, contents, q[i]);
      }
      if k in contents {
        assert Stores(t, contents[k]);
        var i :| 0 <= i < |q| && q[i] == contents[k];
        assert keys[i] == k;
      }
    }
    DistinctMultiset(keys, contents.Keys);
  }

  // Glue nodes have two children, so they are fewer than the nodes that store keys.
  lemma {:induction false} GlueBound(t: Trie, maxbits: nat, n: Node)
    requires WellFormed(t, maxbits) && n in t.cells
    ensures |Preorder(t, maxbits, n)| <= 2 * |Stored(t, Preorder(t, maxbits, n))| - 1
    decreases Height(maxbits, n)
  {
    ChildrenDeeper(t, maxbits, n);
    assert Placed(t, n, maxbits);
    var l, r := Child(t, n, false), Child(t, n, true);
    var a, b := Preorder(t, maxbits, l), Preorder(t, maxbits, r);
    StoredNode(t, n, a, b);
    if l != null {
      GlueBound(t, maxbits, l);
    }
    if r != null {
      GlueBound(t, maxbits, r);
    }
  }

  lemma StoredNode(t: Trie, n: Node, a: seq<Node>, b: seq<Node>)
    ensures Stored(t, [n] + a + b) == (if Stores(t, n) then [n] else []) + Stored(t, a) + Stored(t, b)
  {
    StoredConcat(t, [n] + a, b);
    StoredConcat(t, [n], a);
  }

  // k keys take at most 2k - 1 nodes.
  lemma NodeBound(t: Trie, maxbits: nat, contents: map<Key, Node>)
    requires WellFormed(t, maxbits) && Represents(t, contents) && t.head != null
    ensures 1 <= |contents| && |t.cells| <= 2 * |contents| - 1
  {
    NodesCounted(t, maxbits);
    KeysCounted(t, maxbits, contents, Stored(t, Preorder(t, maxbits, t.head)));
    GlueBound(t, maxbits, t.head);
  }

  // ----- inorder

  ghost function Inorder(t: Trie, maxbits: nat, n: Node?): seq<Node>
    requires WellFormed(t, maxbits) && (n != null ==> n in t.cells)
    decreases Height(maxbits, n)
  {
    if n == null then []
    else
      ChildrenDeeper(t, maxbits, n);
      Inorder(t, maxbits, Child(t, n, false))
      + (if Stores(t, n) then [n] else [])
      + Inorder(t, maxbits, Child(t, n, true))
  }

  // Inorder lists the same stored nodes as preorder.
  lemma {:induction false} InorderStored(t: Trie, maxbits: nat, n: Node?)
    requires WellFormed(t, maxbits) && (n != null ==> n in t.cells)
    ensures multiset(Inorder(t, maxbits, n)) == multiset(Stored(t, Preorder(t, maxbits, n)))
    decreases Height(maxbits, n)
  {
    hide WellFormed, Stores;
    if n != null {
      ChildrenDeeper(t, maxbits, n);
      var l, r := Child(t, n, false), Child(t, n, true);
      var own := if Stores(t, n) then [n] else [];
      StoredNode(t, n, Preorder(t, maxbits, l), Preorder(t, maxbits, r));
      InorderStored(t, maxbits, l);
      InorderStored(t, maxbits, r);
      RootMoves(Inorder(t, maxbits, l), own, Inorder(t, maxbits, r),
                Stored(t, Preorder(t, maxbits, l)), Stored(t, Preorder(t, maxbits, r)));
    }
  }

  // Where an inorder visit has a before b: at a bit that is 0 in a and 1 in b, or
  // because a lies on the left side of b, or b on the right side of a.
  ghost predicate LeftOf(a: Key, b: Key)
  {
    (exists i :: SplitAt(a, b, i)) || Below(b, a, false) || Below(a, b, true)
  }

  ghost predicate LeftToRight(s: seq<Node>)
  {
    forall i, j :: 0 <= i < j < |s| ==> LeftOf(s[i].stem, s[j].stem)
  }

  lemma LeftToRightJoin(n: Node, l: seq<Node>, own: seq<Node>, r: seq<Node>)
    requires LeftToRight(l) && LeftToRight(r) && (own == [] || own == [n])
    requires forall x :: x in l ==> Below(n.stem, x.stem, false)
    requires forall x :: x in r ==> Below(n.stem, x.stem, true)
    ensures LeftToRight(l + own + r)
  {
    var s, m := l + own + r, |l| + |own|;
    forall i, j | 0 <= i < j < |s| ensures LeftOf(s[i].stem, s[j].stem) {
      assert i < |l| ==> s[i] == l[i] && s[i] in l;
      assert j < |l| ==> s[j] == l[j];
      assert i >= m ==> s[i] == r[i - m];
      assert j >= m ==> s[j] == r[j - m] && s[j] in r;
      if i < |l| && j >= m {
        assert SplitAt(s[i].stem, s[j].stem, |n.stem|);
      }
    }
  }

  lemma InorderSplits(t: Trie, maxbits: nat, n: Node)
    requires WellFormed(t, maxbits) && n in t.cells
    ensures ChildDeeper(t, maxbits, n, false) && ChildDeeper(t, maxbits, n, true)
    ensures Inorder(t, maxbits, n) ==
      Inorder(t, maxbits, Child(t, n, false)) + (if Stores(t, n) then [n] else [])
      + Inorder(t, maxbits, Child(t, n, true))
    ensures Inorder(t, maxbits, null) == []
  {
    ChildrenDeeper(t, maxbits, n);
    hide WellFormed;
  }

  // Inorder meets the nodes at or below n that store a key.
  lemma {:induction false} InorderMembers(t: Trie, maxbits: nat, n: Node?, x: Node)
    requires WellFormed(t, maxbits) && (n != null ==> n in t.cells)
    ensures x in Inorder(t, maxbits, n) <==> n != null && Stores(t, x) && n.stem <= x.stem
    decreases Height(maxbits, n)
  {
    hide WellFormed, Inorder;
    if n == null {
      NoneInorder(t, maxbits);
    } else {
      InorderSplits(t, maxbits, n);
      InorderMembers(t, maxbits, Child(t, n, false), x);
      InorderMembers(t, maxbits, Child(t, n, true), x);
      if Stores(t, x) && n.stem <= x.stem {
        Descend(t, maxbits, n, x);
      }
    }
  }

  lemma NoneInorder(t: Trie, maxbits: nat)
    requires WellFormed(t, maxbits)
    ensures Inorder(t, maxbits, null) == [] && LeftToRight(Inorder(t, maxbits, null))
  {
  }

  // An inorder visit goes from left to right.
  lemma {:induction false} InorderOrdered(t: Trie, maxbits: nat, n: Node?)
    requires WellFormed(t, maxbits) && (n != null ==> n in t.cells)
    ensures LeftToRight(Inorder(t, maxbits, n))
    decreases Height(maxbits, n)
  {
    hide WellFormed, LeftToRight, Inorder;
    if n == null {
      NoneInorder(t, maxbits);
    } else {
      InorderSplits(t, maxbits, n);
      var l, r := Child(t, n, false), Child(t, n, true);
      var own := if Stores(t, n) then [n] else [];
      InorderOrdered(t, maxbits, l);
      InorderOrdered(t, maxbits, r);
      forall x | x in Inorder(t, maxbits, l) ensures Below(n.stem, x.stem, false) {
        InorderMembers(t, maxbits, l, x);
      }
      forall x | x in Inorder(t, maxbits, r) ensures Below(n.stem, x.stem, true) {
        InorderMembers(t, maxbits, r, x);
      }
      LeftToRightJoin(n, Inorder(t, maxbits, l), own, Inorder(t, maxbits, r));
    }
  }

  lemma RootMoves<T>(l: seq<T>, own: seq<T>, r: seq<T>, l': seq<T>, r': seq<T>)
    requires multiset(l) == multiset(l') && multiset(r) == multiset(r')
    ensures multiset(l + own + r) == multiset(own + l' + r')
  {
  }

  lemma SameLength<T>(a: seq<T>, b: seq<T>)
    requires multiset(a) == multiset(b)
    ensures |a| == |b|
  {
    assert |multiset(a)| == |multiset(b)|;
  }
}
