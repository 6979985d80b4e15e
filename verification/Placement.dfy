/**
 Where a key belongs in a well-formed trie: the reasoning behind the walks of
 patricia_search_exact, patricia_search_best2 and patricia_lookup.
 */
module Placement {
  import opened Bits
  import opened Shape

  // Key `c` covers the query `k`; a query that may not match itself wants a shorter one.
  ghost predicate Covers(c: Key, k: Key, inclusive: bool)
  {
    c <= k && (inclusive || |c| < |k|)
  }

  // Distinct stored nodes, shallowest first: at most one per bit position.
  ghost predicate Candidates(t: Trie, s: seq<Node>)
  {
    && (forall i :: 0 <= i < |s| ==> i <= s[i].bit && s[i] in t.cells && t.cells[s[i]].prefix != null)
    && (forall i, j :: 0 <= i < j < |s| ==> s[i].bit < s[j].bit)
  }

  // Every stored key that covers `k` is among the nodes met, or lies below `rest`.
  ghost predicate Accounted(contents: map<Key, Node>, k: Key, met: seq<Node>, rest: Node?)
  {
    forall c :: c in contents && c <= k ==> contents[c] in met || (rest != null && rest.stem <= c)
  }

  // How far the way down has come: candidates met above `rest`, nothing missed.
  ghost predicate Collecting(t: Trie, contents: map<Key, Node>, k: Key, met: seq<Node>, rest: Node?)
  {
    && Candidates(t, met) && |met| <= |k|
    && (forall i :: 0 <= i < |met| ==> met[i].bit < |k|)
    && (rest != null ==> rest in t.cells && |met| <= rest.bit && forall i :: 0 <= i < |met| ==> met[i].bit < rest.bit)
    && Accounted(contents, k, met, rest)
  }

  lemma CollectFirst(t: Trie, maxbits: nat, contents: map<Key, Node>, k: Key)
    requires WellFormed(t, maxbits) && Represents(t, contents) && t.head != null
    ensures Collecting(t, contents, k, [], t.head)
  {
    forall c | c in contents ensures t.head.stem <= c {
      HeadAbove(t, maxbits, contents[c]);
    }
  }

  lemma CollectNext(t: Trie, maxbits: nat, contents: map<Key, Node>, k: Key, met: seq<Node>, n: Node)
    requires WellFormed(t, maxbits) && Represents(t, contents)
    requires Collecting(t, contents, k, met, n) && n.bit < |k|
    ensures var met' := if t.cells[n].prefix != null then met + [n] else met;
      Collecting(t, contents, k, met', Child(t, n, k[n.bit]))
    ensures var next := Child(t, n, k[n.bit]); next != null ==> n.bit < next.bit <= maxbits
  {
    StepTowards(t, maxbits, contents, n, k);
  }

  lemma CollectLast(t: Trie, maxbits: nat, contents: map<Key, Node>, k: Key,
                    met: seq<Node>, rest: Node?, inclusive: bool)
    requires WellFormed(t, maxbits) && Represents(t, contents)
    requires Collecting(t, contents, k, met, rest) && (rest != null ==> |k| <= rest.bit)
    ensures var met' := if inclusive && rest != null && t.cells[rest].prefix != null then met + [rest] else met;
      && Candidates(t, met')
      && (!inclusive ==> forall i :: 0 <= i < |met'| ==> met'[i].bit < |k|)
      && (forall c :: c in contents && Covers(c, k, inclusive) ==> contents[c] in met')
  {
    if rest != null {
      StopsAt(t, maxbits, contents, rest, k);
    }
  }

  lemma CandidateFacts(t: Trie, maxbits: nat, contents: map<Key, Node>, met: seq<Node>)
    requires WellFormed(t, maxbits) && Represents(t, contents) && Candidates(t, met)
    ensures forall i :: 0 <= i < |met| ==>
      var c := t.cells[met[i]];
      && met[i].bit == |met[i].stem| && c.prefix.Fits(maxbits) && c.prefix.Key() == met[i].stem
      && met[i].stem in contents && contents[met[i].stem] == met[i]
  {
    forall i | 0 <= i < |met|
      ensures var c := t.cells[met[i]];
        && met[i].bit == |met[i].stem| && c.prefix.Fits(maxbits) && c.prefix.Key() == met[i].stem
        && met[i].stem in contents && contents[met[i].stem] == met[i]
    {
      assert Placed(t, met[i], maxbits) && Registered(t, contents, met[i]);
    }
  }

  // One step from n towards `k`: the next node lies deeper, and a stored key
  // covering `k` from below n is n's own or lies below the next node.
  lemma StepTowards(t: Trie, maxbits: nat, contents: map<Key, Node>, n: Node, k: Key)
    requires WellFormed(t, maxbits) && Represents(t, contents)
    requires n in t.cells && n.bit < |k|
    ensures n.bit == |n.stem|
    ensures var next := Child(t, n, k[n.bit]);
      && (next != null ==> next in t.cells && n.bit < next.bit <= maxbits)
      && (forall c :: c in contents && c <= k && n.stem <= c ==>
            contents[c] == n || (next != null && next.stem <= c))
  {
    var next := Child(t, n, k[n.bit]);
    assert Placed(t, n, maxbits);
    if next != null {
      assert Placed(t, next, maxbits);
    }
    forall c | c in contents && c <= k && n.stem <= c
      ensures contents[c] == n || (next != null && next.stem <= c)
    {
      Descend(t, maxbits, n, contents[c]);
    }
  }

  // Below a node at least as deep as `k`, only that node can cover `k`.
  lemma StopsAt(t: Trie, maxbits: nat, contents: map<Key, Node>, n: Node, k: Key)
    requires WellFormed(t, maxbits) && Represents(t, contents)
    requires n in t.cells && |k| <= n.bit
    ensures forall c :: c in contents && c <= k && n.stem <= c ==> contents[c] == n && c == k
  {
    assert Placed(t, n, maxbits);
    forall c | c in contents && c <= k && n.stem <= c ensures contents[c] == n && c == k {
      Descend(t, maxbits, n, contents[c]);
    }
  }

  // ----- the downward walk of patricia_lookup

  // At every branching above s that `k` reaches, s lies on k's side.
  ghost predicate Follows(t: Trie, s: Node, k: Key)
  {
    && s in t.cells && s.bit == |s.stem|
    && forall a :: a in t.cells && a.stem <= s.stem && |a.stem| < |s.stem| && |a.stem| < |k| ==>
         s.stem[|a.stem|] == k[|a.stem|]
  }

  lemma HeadFollows(t: Trie, maxbits: nat, k: Key)
    requires WellFormed(t, maxbits) && t.head != null
    ensures Follows(t, t.head, k)
  {
    assert Placed(t, t.head, maxbits);
    forall a | a in t.cells && a.stem <= t.head.stem ensures |a.stem| == |t.head.stem| {
      HeadAbove(t, maxbits, a);
    }
  }

  lemma FollowStep(t: Trie, maxbits: nat, s: Node, k: Key, side: bool)
    requires WellFormed(t, maxbits) && Follows(t, s, k)
    requires Child(t, s, side) != null && (s.bit < |k| ==> side == k[s.bit])
    ensures Follows(t, Child(t, s, side), k) && s.bit < Child(t, s, side).bit <= maxbits
  {
    var c := Child(t, s, side);
    assert Placed(t, s, maxbits);
    assert Placed(t, c, maxbits);
    forall a | a in t.cells && a.stem <= c.stem && |a.stem| < |c.stem| && |a.stem| < |k|
      ensures c.stem[|a.stem|] == k[|a.stem|]
    {
      if |s.stem| < |a.stem| {
        Descend(t, maxbits, s, a);
      } else if |a.stem| < |s.stem| {
        assert a.stem <= s.stem;
      }
    }
  }

  // ----- the spot found by patricia_lookup

  // s is where the downward walk for `k` ended, d the first bit in which `k`
  // and s differ, and node the topmost node on the way to s at or below bit d.
  ghost predicate Spot(t: Trie, s: Node, k: Key, d: nat, node: Node)
  {
    && Follows(t, s, k)
    && (s.bit < |k| ==> Child(t, s, k[s.bit]) == null)
    && d <= s.bit && d <= |k| && s.stem[..d] == k[..d]
    && (d < s.bit && d < |k| ==> s.stem[d] != k[d])
    && node in t.cells && node.stem <= s.stem && d <= node.bit
    && (t.cells[node].parent != null ==> t.cells[node].parent.bit < d)
  }

  // A key that leaves the path between node's parent and node is not stored.
  lemma Absent(t: Trie, maxbits: nat, contents: map<Key, Node>, node: Node, k: Key)
    requires WellFormed(t, maxbits) && Represents(t, contents) && node in t.cells
    requires !(node.stem <= k)
    requires t.cells[node].parent != null ==>
      var p := t.cells[node].parent; p.bit < |k| && p.stem <= k && p.bit < |node.stem| && node.stem[p.bit] == k[p.bit]
    ensures k !in contents
  {
    if k in contents {
      var p := t.cells[node].parent;
      if p == null {
        assert Placed(t, node, maxbits);
        HeadAbove(t, maxbits, contents[k]);
      } else {
        HangsOnParent(t, maxbits, node);
        Descend(t, maxbits, p, contents[k]);
      }
    }
  }

  // The parent of the spot lies on k's path.
  lemma SpotParent(t: Trie, maxbits: nat, s: Node, k: Key, d: nat, node: Node)
    requires WellFormed(t, maxbits) && Spot(t, s, k, d, node)
    ensures node.bit == |node.stem| && node.stem[..d] == k[..d]
    ensures var p := t.cells[node].parent; p != null ==>
      && p in t.cells && p.bit == |p.stem| < d && p.stem <= k && node.stem[p.bit] == k[p.bit]
  {
    assert Placed(t, node, maxbits);
    var p := t.cells[node].parent;
    if p != null {
      HangsOnParent(t, maxbits, node);
    }
  }

  // Found, or glue to fill: the node's stem is the key.
  lemma SpotHit(t: Trie, maxbits: nat, contents: map<Key, Node>, s: Node, k: Key, d: nat, node: Node)
    requires WellFormed(t, maxbits) && Represents(t, contents) && Spot(t, s, k, d, node)
    requires d == |k| && node.bit == |k|
    ensures node.stem == k
    ensures t.cells[node].prefix == null ==> k !in contents
  {
    SpotParent(t, maxbits, s, k, d, node);
    if k in contents {
      StemsDiffer(t, maxbits, node, contents[k]);
    }
  }

  // New child: the slot on k's side is free.
  lemma SpotChild(t: Trie, maxbits: nat, contents: map<Key, Node>, s: Node, k: Key, d: nat, node: Node)
    requires WellFormed(t, maxbits) && Represents(t, contents) && Spot(t, s, k, d, node)
    requires node.bit == d < |k|
    ensures Below(node.stem, k, k[d]) && Child(t, node, k[d]) == null
    ensures k !in contents
  {
    SpotParent(t, maxbits, s, k, d, node);
    assert Placed(t, node, maxbits);
    assert node.stem == k[..d];
    if |node.stem| == |s.stem| {
      StemsDiffer(t, maxbits, node, s);
    }
    if k in contents {
      Descend(t, maxbits, node, contents[k]);
    }
  }

  // New parent: the key fits between node and its parent.
  lemma SpotAbove(t: Trie, maxbits: nat, contents: map<Key, Node>, s: Node, k: Key, d: nat, node: Node)
    requires WellFormed(t, maxbits) && Represents(t, contents) && Spot(t, s, k, d, node)
    requires d == |k| < node.bit
    ensures |k| < |s.stem| && Between(t, node, k, s.stem[|k|])
    ensures k !in contents
  {
    SpotParent(t, maxbits, s, k, d, node);
    Absent(t, maxbits, contents, node, k);
  }

  // Glue: the key and node part at bit d.
  lemma SpotFork(t: Trie, maxbits: nat, contents: map<Key, Node>, s: Node, k: Key, d: nat, node: Node)
    requires WellFormed(t, maxbits) && Represents(t, contents) && Spot(t, s, k, d, node)
    requires d < |k| && d < node.bit
    ensures Between(t, node, k[..d], !k[d]) && Below(k[..d], k, k[d])
    ensures k !in contents
  {
    SpotParent(t, maxbits, s, k, d, node);
    assert node.stem[d] == s.stem[d];
    Absent(t, maxbits, contents, node, k);
  }
}
