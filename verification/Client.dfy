/**
 Runs of a client of the trie: who holds references to prefixes, and what a
 whole sequence of insertions and removals leaves behind
 (patricia.c:221-372 and 983-1022).
 */
module Client {
  import opened Common
  import Ascii
  import opened Bits
  import opened Prefixes
  import opened Shape
  import opened Patricia

  // ----- prefixes given as text

  // An address as it is stored in memory.
  function Wire(octets: seq<Octet>): (addr: seq<bv8>)
    ensures |addr| == |octets|
    ensures forall i :: 0 <= i < |octets| ==> addr[i] == OctetOf(octets[i])
  {
    seq(|octets|, i requires 0 <= i < |octets| => OctetOf(octets[i]))
  }

  // The bits of a key are the binary digits of the numbers in the text.
  lemma WireBit(octets: seq<Octet>, i: nat)
    requires i < OCTET * |octets|
    ensures BitAt(Wire(octets), i) == Digit(octets[i / OCTET], i % OCTET)
  {
    hide OctetBit, Digit, OctetOf;
    OctetOfNumber(octets[i / OCTET]);
    OctetDigits(OctetOf(octets[i / OCTET]), i % OCTET);
  }

  // A dotted address as one number.
  function AddressNumber(octets: seq<Octet>): nat
  {
    if octets == [] then 0 else AddressNumber(octets[..|octets| - 1]) * 256 + octets[|octets| - 1]
  }

  lemma {:induction false} WireNumber(octets: seq<Octet>)
    ensures Number(Wire(octets)) == AddressNumber(octets)
  {
    hide OctetOf;
    if octets != [] {
      var last := |octets| - 1;
      WireNumber(octets[..last]);
      assert Wire(octets)[..last] == Wire(octets[..last]);
      OctetOfNumber(octets[last]);
    }
  }

  // So the key of a text is the leading part of the number that the address stands for ...
  lemma WireKey(octets: seq<Octet>, len: nat)
    requires len <= OCTET * |octets|
    ensures KeyNumber(KeyOf(Wire(octets), len)) == AddressNumber(octets) / Pow2(OCTET * |octets| - len)
  {
    WireNumber(octets);
    KeyIsLeadingPart(Wire(octets), len);
  }

  // ... and different addresses are different keys of full length.
  lemma FullKeysDiffer(a: seq<Octet>, b: seq<Octet>)
    requires |a| == |b|
    ensures KeyOf(Wire(a), OCTET * |a|) == KeyOf(Wire(b), OCTET * |b|) <==> a == b
  {
    hide OctetOf, BitAt;
    if KeyOf(Wire(a), OCTET * |a|) == KeyOf(Wire(b), OCTET * |b|) {
      KeysAgreeByOctets(Wire(a), Wire(b), OCTET * |a|);
      forall m | 0 <= m < |a| ensures a[m] == b[m] {
        assert Wire(a)[..|a|][m] == Wire(b)[..|b|][m];
        OctetOfNumber(a[m]);
        OctetOfNumber(b[m]);
      }
    }
  }

  // Texts on which make_and_lookup and its kin do not come to grief.  They
  // dereference the result of ascii2prefix unasked (patricia.c:989-990), and
  // assertions stop texts that overrun a buffer or are too long for the trie.
  predicate Usable(text: string, maxbits: nat)
  {
    Ascii.FitsLine(text) && Ascii.Read(text).Some? && Ascii.Read(text).value.1 <= maxbits
  }

  ghost function TextKey(text: string, maxbits: nat): Key
    requires Usable(text, maxbits)
  {
    var (octets, bitlen) := Ascii.Read(text).value;
    KeyOf(Wire(octets), bitlen)
  }

  // For a trie of IPv4 prefixes these are exactly the texts with an address, of
  // at most four numbers up to 255, before the first slash if there is one.
  lemma UsableIff(text: string)
    ensures Usable(text, 32) <==>
      && (Ascii.SlashAt(text) < |text| ==> Ascii.SlashAt(text) < Ascii.MAXLINE)
      && exists parts :: Ascii.Dotted(text[..Ascii.SlashAt(text)], parts) && |parts| <= 4
  {
    hide Ascii.Read, Ascii.Dotted;
    Ascii.ReadIff(text);
  }

  // A host address stands for all of its bits ...
  lemma HostKey(text: string, parts: seq<string>, octets: seq<Octet>)
    requires Ascii.Dotted(text, parts) && |parts| <= 4 && Ascii.IsAddress(octets, parts)
    ensures Usable(text, 32) && KeyNumber(TextKey(text, 32)) == AddressNumber(octets) && |TextKey(text, 32)| == 32
  {
    hide Ascii.Read, Ascii.Dotted, Ascii.IsAddress, KeyNumber, AddressNumber, Wire, BitAt;
    Ascii.ReadHost(text, parts);
    Ascii.SameAddress(Ascii.Read(text).value.0, octets, parts);
    WireKey(octets, 32);
    assert Pow2(0) == 1;
  }

  // ... and one with a length for its leading part.
  lemma SlashedKey(text: string, parts: seq<string>, digits: string, octets: seq<Octet>)
    requires Ascii.Slashed(text, parts, digits) && |Ascii.Join(parts)| < Ascii.MAXLINE
    requires Ascii.AllDigits(digits) && digits != "" && Ascii.IsAddress(octets, parts)
    ensures var len := if Ascii.Value(digits) <= 32 then Ascii.Value(digits) else 32;
      && Usable(text, 32) && |TextKey(text, 32)| == len
      && KeyNumber(TextKey(text, 32)) == AddressNumber(octets) / Pow2(32 - len)
  {
    hide Ascii.Read, Ascii.IsAddress, KeyNumber, AddressNumber, Wire, BitAt, Pow2;
    Ascii.ReadSlashed(text, parts, digits);
    Ascii.DottedHasNoSlash(Ascii.Join(parts), parts);
    Ascii.SlashAfter(Ascii.Join(parts), digits);
    assert Ascii.AfterSpaces(digits, "", digits) by {
      assert "" + digits == digits;
    }
    assert Ascii.StartsWithNumber(digits, "", digits) by {
      assert "" + digits == digits;
    }
    hide Ascii.Dotted;
    Ascii.SameAddress(Ascii.Read(text).value.0, octets, parts);
    WireKey(octets, Ascii.Read(text).value.1);
  }

  // ascii2prefix and the checks behind it; None is the end of the program.
  method ReadText(text: string, maxbits: nat) returns (result: Option<(seq<bv8>, nat)>)
    requires '\0' !in text && maxbits <= Ascii.MAX_BITLEN
    ensures result.Some? <==> Usable(text, maxbits)
    ensures result.Some? ==>
      && result.value.1 <= maxbits <= OCTET * |result.value.0|
      && KeyOf(result.value.0, result.value.1) == TextKey(text, maxbits)
  {
    hide Ascii.Read, Ascii.FitsLine;
    if !Ascii.FitsLine(text) {
      return None;
    }
    var read := Ascii.Ascii2Prefix(text);
    if read.None? || read.value.1 > maxbits {
      return None;
    }
    return Some((Wire(read.value.0), read.value.1));
  }

  // ----- reference counts

  /**
   A trie together with the client's books: `owed` says, for every heap prefix
   ever made, how many references the client has not yet given back.
   */
  class Ledger {
    const tree: Tree
    ghost var owed: map<Prefix, nat>

    constructor (maxbits: nat)
      requires maxbits <= PATRICIA_MAXBITS
      ensures Balanced() && owed == map[] && tree.contents == map[] && tree.maxbits == maxbits
      ensures fresh(tree) && tree.cells == map[]
    {
      tree := new Tree(maxbits);
      owed := map[];
    }

    ghost function Holders(q: Prefix): set<Node>
      reads tree, tree.cells.Keys
    {
      set n | n in tree.cells && n.prefix == q
    }

    // Conservation: the count of every prefix is the number of nodes that hold
    // it plus what the client owes, and it lives exactly while that is positive.
    ghost predicate Accounts(q: Prefix)
      reads this, tree, tree.cells.Keys, q
    {
      q in owed && q.refCount == |Holders(q)| + owed[q] && (q.live <==> q.refCount > 0)
    }

    ghost predicate Balanced()
      reads this, tree, tree.cells.Keys, owed.Keys, set n | n in tree.cells :: n.prefix
    {
      && tree.Valid()
      && (forall q {:trigger Accounts(q)} :: q in owed ==> Accounts(q))
      && (forall n :: n in tree.cells && n.prefix != null ==> n.prefix in owed)
    }

    // In particular every stored prefix is alive and counted.
    lemma StoredAreCounted()
      requires Balanced()
      ensures tree.Counted()
    {
      forall n | n in tree.cells && n.prefix != null ensures n.prefix.live && n.prefix.refCount >= 1 {
        assert Accounts(n.prefix);
        assert n in Holders(n.prefix);
      }
    }

    lemma LiveIffHeld()
      requires Balanced() && forall q :: q in owed ==> owed[q] == 0
      ensures forall q :: q in owed ==> (q.live <==> Holders(q) != {})
    {
      forall q | q in owed ensures q.live <==> Holders(q) != {} {
        assert Accounts(q);
      }
    }

    lemma BalancedIsValid()
      requires Balanced()
      ensures tree.Valid()
    {
    }

    lemma StoredNode(k: Key)
      requires Balanced()
      ensures k in tree.contents ==>
        && var n := tree.contents[k];
        && n in tree.cells && n.stem == k && n.prefix != null && n.prefix in owed && n.prefix.live
    {
      StoredAreCounted();
    }

    lemma StoredAreOwed()
      requires Balanced()
      ensures forall n :: n in tree.cells ==> n.prefix == null || n.prefix in owed
    {
    }

    /** New_Prefix. */
    method NewPrefix(addr: seq<bv8>, bitlen: int) returns (p: Prefix)
      requires Balanced()
      modifies this`owed
      ensures Balanced() && fresh(p) && owed == old(owed)[p := 1] && p !in old(owed)
      ensures p.addr == addr && p.bitlen == (if bitlen >= 0 then bitlen else OCTET * |addr|)
      ensures p.live && p.refCount == 1 && Holders(p) == {}
    {
      hide WellFormed, Represents, Tree.Mirrored;
      p := new Prefix.New(addr, bitlen);
      owed := owed[p := 1];
      assert Holders(p) == {};
      forall q | q in owed && q != p ensures Accounts(q) {
        assert old(Accounts(q));
      }
    }

    /** Deref_Prefix by a client that owes a reference. */
    method Release(p: Prefix)
      requires Balanced() && p in owed && owed[p] > 0
      modifies this`owed, p
      ensures Balanced() && owed == old(owed)[p := old(owed)[p] - 1]
      ensures p.refCount == old(p.refCount) - 1
      ensures !p.live <==> owed[p] == 0 && Holders(p) == {}
    {
      hide WellFormed, Represents, Tree.Mirrored;
      assert Accounts(p);
      p.Deref();
      owed := owed[p := owed[p] - 1];
      forall q | q in owed && q != p ensures Accounts(q) {
        assert old(Accounts(q));
      }
      assert |Holders(p)| == 0 <==> Holders(p) == {};
    }

    // A lookup that finds its key leaves the books as they are ...
    twostate lemma BooksKept()
      requires old(Balanced()) && tree.Valid() && tree.View() == old(tree.View()) && owed == old(owed)
      requires forall q :: q in owed ==> q.refCount == old(q.refCount) && q.live == old(q.live)
      ensures Balanced() && forall q :: q in owed ==> Holders(q) == old(Holders(q))
    {
      hide WellFormed, Represents;
      forall q | q in owed ensures Accounts(q) && Holders(q) == old(Holders(q)) {
        assert old(Accounts(q));
        assert Holders(q) == old(Holders(q));
      }
    }

    // ... and one that stores p adds a holder and a reference.
    twostate lemma BooksGained(new r: Node, p: Prefix)
      requires old(Balanced()) && tree.Valid() && tree.Gained(r, p) && owed == old(owed) && p in owed
      requires forall q :: q in owed ==>
        q.refCount == old(q.refCount) + (if q == p then 1 else 0) && q.live == old(q.live)
      requires p.live
      ensures Balanced()
    {
      hide Tree.Valid;
      forall q | q in owed ensures Accounts(q) {
        assert old(Accounts(q));
        assert Holders(q) == old(Holders(q)) + (if q == p then {r} else {});
      }
    }

    /** patricia_lookup by a client that holds a reference to p. */
    method Lookup(p: Prefix) returns (r: Node)
      requires Balanced() && p in owed && owed[p] > 0 && p.Fits(tree.maxbits)
      modifies tree, tree.cells.Keys, p`refCount
      ensures Balanced()
      ensures p.Key() in tree.contents && tree.contents[p.Key()] == r
      ensures p.Key() in old(tree.contents) ==> tree.contents == old(tree.contents)
      ensures p.Key() !in old(tree.contents) ==> tree.contents == old(tree.contents)[p.Key() := r]
      ensures p.refCount == old(p.refCount) + if p.Key() in old(tree.contents) then 0 else 1
      ensures if p.Key() in old(tree.contents) then Holders(p) == old(Holders(p)) else r in Holders(p)
      ensures tree.OnlyNewNodes()
    {
      hide WellFormed, Represents, Tree.Mirrored, Tree.OnlyNewNodes, Tree.Gained;
      StoredAreCounted();
      assert Accounts(p);
      r := tree.Lookup(p);
      if p.Key() in old(tree.contents) {
        BooksKept();
      } else {
        BooksGained(r, p);
        GainedHolder(r, p);
      }
    }

    twostate lemma GainedHolder(new r: Node, new p: Prefix)
      requires tree.Gained(r, p)
      ensures r in Holders(p)
    {
    }

    // A copy of a static prefix has the trie as its only holder.
    twostate lemma BooksCopied(new r: Node, new held: Prefix)
      requires old(Balanced()) && tree.Valid() && tree.Gained(r, held)
      requires held !in old(owed) && owed == old(owed)[held := 0] && held.live && held.refCount == 1
      requires forall q :: q in old(owed) ==> q.refCount == old(q.refCount) && q.live == old(q.live)
      ensures Balanced() && Holders(held) == {r}
    {
      hide Tree.Valid;
      assert Holders(held) == {r};
      forall q | q in owed && q != held ensures Accounts(q) {
        assert old(Accounts(q));
        assert Holders(q) == old(Holders(q));
      }
    }

    /** patricia_lookup of a static prefix: the trie stores a copy of it, which the client does not owe. */
    method LookupStatic(p: Prefix) returns (r: Node)
      requires Balanced() && p !in owed && p.live && p.refCount == -1 && p.Fits(tree.maxbits)
      modifies this`owed, tree, tree.cells.Keys, p`refCount
      ensures Balanced() && p.refCount == -1
      ensures p.Key() in tree.contents && tree.contents[p.Key()] == r
      ensures p.Key() in old(tree.contents) ==> tree.contents == old(tree.contents) && owed == old(owed)
      ensures p.Key() !in old(tree.contents) ==>
        && tree.contents == old(tree.contents)[p.Key() := r]
        && r.prefix != null && fresh(r.prefix) && owed == old(owed)[r.prefix := 0] && r.prefix.refCount == 1
        && r.prefix.addr == p.addr && r.prefix.bitlen == p.bitlen
      ensures tree.OnlyNewNodes()
    {
      hide WellFormed, Represents, Tree.Mirrored, Tree.OnlyNewNodes, Tree.Gained;
      StoredAreCounted();
      r := tree.Lookup(p);
      if p.Key() in old(tree.contents) {
        BooksKept();
      } else {
        GainedHolder(r, r.prefix);
        owed := owed[r.prefix := 0];
        BooksCopied(r, r.prefix);
      }
    }

    // A removal gives the trie's own reference back.
    twostate lemma BooksLost(node: Node)
      requires old(Balanced()) && tree.Valid() && tree.Lost(node) && owed == old(owed)
      requires node in old(tree.cells)
      requires forall q :: q in owed ==>
        && q.refCount == old(q.refCount) - (if q == old(node.prefix) then 1 else 0)
        && (q.live <==> q.refCount > 0)
      ensures Balanced()
    {
      hide Tree.Valid;
      forall q | q in owed ensures Accounts(q) {
        assert old(Accounts(q));
        assert Holders(q) == old(Holders(q)) - {node};
      }
    }

    /** patricia_remove of a node in use. */
    method Remove(node: Node)
      requires Balanced() && node in tree.cells
      modifies tree, tree.cells.Keys, node.prefix
      ensures Balanced() && tree.contents == old(tree.contents) - {node.stem}
      ensures old(tree.cells.Keys) >= tree.cells.Keys
      ensures old(node.prefix) != null ==>
        (old(node.prefix).live <==> owed[old(node.prefix)] > 0)
    {
      hide WellFormed, Represents, Tree.Mirrored;
      StoredAreCounted();
      forall q | q in owed ensures q.live <==> q.refCount > 0 {
        assert Accounts(q);
      }
      ghost var q := node.prefix;
      if q != null {
        assert Accounts(q);
        OneHolder(node);
      }
      tree.Remove(node);
      BooksLost(node);
    }

    lemma OneHolder(node: Node)
      requires tree.Valid() && node in tree.cells && node.prefix != null
      ensures Holders(node.prefix) == {node}
    {
      tree.HeldOnce(node);
    }

    // New_Prefix, patricia_lookup and Deref_Prefix: the new prefix outlives this
    // exactly if its key was not stored before, and then the trie alone holds it.
    method StoreNew(addr: seq<bv8>, bitlen: nat) returns (r: Node, ghost p: Prefix)
      requires Balanced() && bitlen <= tree.maxbits <= OCTET * |addr|
      modifies this`owed, tree, tree.cells.Keys
      ensures Balanced() && fresh(p) && p !in old(owed) && owed == old(owed)[p := 0]
      ensures var k := KeyOf(addr, bitlen);
        && k in tree.contents && tree.contents[k] == r
        && tree.contents == (if k in old(tree.contents) then old(tree.contents) else old(tree.contents)[k := r])
        && (p.live <==> k !in old(tree.contents)) && (p.live ==> p.refCount == 1)
      ensures tree.OnlyNewNodes()
    {
      hide WellFormed, Represents, Tree.Mirrored, Balanced, Accounts, Holders;
      var q := NewPrefix(addr, bitlen);
      p := q;
      r := Lookup(q);
      Release(q);
      assert owed == old(owed)[q := 1][q := 0];
    }

    // New_Prefix, patricia_search_exact and Deref_Prefix, as in try_search_exact.
    method SearchNew(addr: seq<bv8>, bitlen: nat) returns (node: Node?, ghost p: Prefix)
      requires Balanced() && bitlen <= tree.maxbits <= OCTET * |addr|
      modifies this`owed
      ensures Balanced() && fresh(p) && owed == old(owed)[p := 0] && !p.live
      ensures var k := KeyOf(addr, bitlen); node == if k in tree.contents then tree.contents[k] else null
    {
      hide WellFormed, Represents, Tree.Mirrored, Accounts, Balanced;
      var q := NewPrefix(addr, bitlen);
      p := q;
      BalancedIsValid();
      node := tree.SearchExact(q);
      Release(q);
      assert owed == old(owed)[q := 1][q := 0];
    }

    // The same, and patricia_remove of what was found.
    method RemoveFound(addr: seq<bv8>, bitlen: nat) returns (removed: bool, ghost p: Prefix)
      requires Balanced() && bitlen <= tree.maxbits <= OCTET * |addr|
      modifies this`owed, tree, tree.cells.Keys, set n | n in tree.cells :: n.prefix
      ensures Balanced() && fresh(p) && owed == old(owed)[p := 0] && !p.live
      ensures removed <==> KeyOf(addr, bitlen) in old(tree.contents)
      ensures tree.contents == old(tree.contents) - {KeyOf(addr, bitlen)}
      ensures old(tree.cells.Keys) >= tree.cells.Keys
    {
      hide WellFormed, Represents, Tree.Mirrored, Accounts, Holders, Balanced;
      var node;
      node, p := SearchNew(addr, bitlen);
      removed := node != null;
      if removed {
        StoredNode(KeyOf(addr, bitlen));
        Remove(node);
      }
    }

    /**
     make_and_lookup (patricia.c:983-994) on a text; a null result is the end of
     the program, which comes exactly with a text that is not usable.
     */
    method MakeAndLookup(text: string) returns (r: Node?, ghost p: Prefix?)
      requires Balanced() && tree.maxbits <= Ascii.MAX_BITLEN && '\0' !in text
      modifies this`owed, tree, tree.cells.Keys
      ensures Balanced() && (r != null <==> Usable(text, tree.maxbits)) && (r != null <==> p != null)
      ensures r != null ==>
        && fresh(p) && p !in old(owed) && owed == old(owed)[p := 0]
        && var k := TextKey(text, tree.maxbits);
           && k in tree.contents && tree.contents[k] == r
           && tree.contents == (if k in old(tree.contents) then old(tree.contents) else old(tree.contents)[k := r])
           && (p.live <==> k !in old(tree.contents)) && (p.live ==> p.refCount == 1)
      ensures r == null ==> owed == old(owed) && tree.contents == old(tree.contents)
      ensures tree.OnlyNewNodes()
    {
      hide WellFormed, Represents, Tree.Mirrored, Balanced, Accounts, Holders, Usable, TextKey;
      r, p := null, null;
      var read := ReadText(text, tree.maxbits);
      if read.Some? {
        r, p := StoreNew(read.value.0, read.value.1);
      }
    }

    /**
     lookup_then_remove (patricia.c:1015-1022), with its inner try_search_exact,
     on a text; `ok` is false at the end of the program.
     */
    method LookupThenRemove(text: string) returns (ok: bool, removed: bool, ghost p: Prefix?)
      requires Balanced() && tree.maxbits <= Ascii.MAX_BITLEN && '\0' !in text
      modifies this`owed, tree, tree.cells.Keys, set n | n in tree.cells :: n.prefix
      ensures Balanced() && (ok <==> Usable(text, tree.maxbits)) && (ok <==> p != null)
      ensures ok ==>
        && fresh(p) && owed == old(owed)[p := 0] && !p.live
        && (removed <==> TextKey(text, tree.maxbits) in old(tree.contents))
        && tree.contents == old(tree.contents) - {TextKey(text, tree.maxbits)}
      ensures !ok ==> owed == old(owed) && tree.contents == old(tree.contents)
      ensures old(tree.cells.Keys) >= tree.cells.Keys
    {
      hide WellFormed, Represents, Tree.Mirrored, Balanced, Accounts, Holders, Usable, TextKey;
      ok, removed, p := false, false, null;
      var read := ReadText(text, tree.maxbits);
      if read.Some? {
        ok := true;
        removed, p := RemoveFound(read.value.0, read.value.1);
      }
    }
  }

  // ----- whole runs

  datatype Op =
    | Insert(addr: seq<bv8>, bitlen: nat)
    | Erase(addr: seq<bv8>, bitlen: nat)
  {
    ghost predicate Fits(width: nat)
    {
      bitlen <= width <= OCTET * |addr|
    }

    ghost function Key(): Bits.Key
      requires bitlen <= OCTET * |addr|
    {
      KeyOf(addr, bitlen)
    }
  }

  ghost predicate AllFit(ops: seq<Op>, width: nat)
  {
    forall i :: 0 <= i < |ops| ==> ops[i].Fits(width)
  }

  // The keys a run leaves stored: inserted, and not erased since.
  ghost predicate Survives(ops: seq<Op>, width: nat, k: Key)
    requires AllFit(ops, width)
  {
    exists i :: 0 <= i < |ops| && ops[i].Insert? && ops[i].Key() == k &&
      forall j :: i < j < |ops| && ops[j].Erase? ==> ops[j].Key() != k
  }

  lemma SurvivesStep(ops: seq<Op>, width: nat, op: Op, k: Key)
    requires AllFit(ops, width) && op.Fits(width)
    ensures AllFit(ops + [op], width)
    ensures Survives(ops + [op], width, k) <==>
      if op.Key() == k then op.Insert? else Survives(ops, width, k)
  {
    var all := ops + [op];
    if op.Key() == k && op.Insert? {
      assert all[|ops|] == op;
    }
    if op.Key() != k && Survives(ops, width, k) {
      var i :| 0 <= i < |ops| && ops[i].Insert? && ops[i].Key() == k &&
        forall j :: i < j < |ops| && ops[j].Erase? ==> ops[j].Key() != k;
      assert all[i] == ops[i];
    }
    if Survives(all, width, k) {
      var i :| 0 <= i < |all| && all[i].Insert? && all[i].Key() == k &&
        forall j :: i < j < |all| && all[j].Erase? ==> all[j].Key() != k;
      if i < |ops| {
        assert ops[i] == all[i];
        assert forall j :: i < j < |ops| ==> ops[j] == all[j];
      }
    }
  }

  // One operation of a run.
  method Apply(ledger: Ledger, op: Op, ghost ops: seq<Op>, ghost maxbits: nat)
    requires ledger.Balanced() && ledger.tree.maxbits == maxbits && AllFit(ops, maxbits) && op.Fits(maxbits)
    requires forall k :: k in ledger.tree.contents <==> Survives(ops, maxbits, k)
    modifies ledger`owed, ledger.tree, ledger.tree.cells.Keys, set n | n in ledger.tree.cells :: n.prefix
    ensures ledger.Balanced() && AllFit(ops + [op], maxbits)
    ensures forall k :: k in ledger.tree.contents <==> Survives(ops + [op], maxbits, k)
    ensures fresh(ledger.tree.cells.Keys - old(ledger.tree.cells.Keys))
    ensures fresh(ledger.owed.Keys - old(ledger.owed.Keys))
    ensures (forall q :: q in old(ledger.owed) ==> old(ledger.owed)[q] == 0) ==>
      forall q :: q in ledger.owed ==> ledger.owed[q] == 0
  {
    hide WellFormed, Represents, Tree.Mirrored, Survives, Ledger.Balanced;
    forall k ensures AllFit(ops + [op], maxbits) && (Survives(ops + [op], maxbits, k) <==>
        if op.Key() == k then op.Insert? else Survives(ops, maxbits, k))
    {
      SurvivesStep(ops, maxbits, op, k);
    }
    match op {
      case Insert(addr, bitlen) =>
        var r, p := ledger.StoreNew(addr, bitlen);
      case Erase(addr, bitlen) =>
        var removed, p := ledger.RemoveFound(addr, bitlen);
    }
  }

  /**
   Any run of make_and_lookup and lookup_then_remove from an empty trie: the
   invariant holds, exactly the surviving keys are stored, and every reference
   is accounted for.
   */
  method Run(maxbits: nat, ops: seq<Op>) returns (ledger: Ledger)
    requires maxbits <= PATRICIA_MAXBITS && AllFit(ops, maxbits)
    ensures fresh(ledger) && fresh(ledger.tree) && fresh(ledger.tree.cells.Keys)
    ensures ledger.tree.maxbits == maxbits && ledger.Balanced()
    ensures forall k :: k in ledger.tree.contents <==> Survives(ops, maxbits, k)
    ensures forall q :: q in ledger.owed ==>
      ledger.owed[q] == 0 && (q.live <==> ledger.Holders(q) != {})
  {
    hide Survives, Ledger.Balanced, Ledger.Holders;
    ledger := new Ledger(maxbits);
    forall k ensures !Survives([], maxbits, k) {
      NothingSurvives(maxbits, k);
    }
    var i := 0;
    while i < |ops|
      invariant 0 <= i <= |ops| && AllFit(ops[..i], maxbits)
      invariant ledger.tree.maxbits == maxbits && ledger.Balanced()
      invariant fresh(ledger) && fresh(ledger.tree) && fresh(ledger.tree.cells.Keys) && fresh(ledger.owed.Keys)
      invariant forall k :: k in ledger.tree.contents <==> Survives(ops[..i], maxbits, k)
      invariant forall q :: q in ledger.owed ==> ledger.owed[q] == 0
    {
      assert ops[..i + 1] == ops[..i] + [ops[i]];
      ledger.StoredAreOwed();
      Apply(ledger, ops[i], ops[..i], maxbits);
      i := i + 1;
    }
    assert ops[..|ops|] == ops;
    ledger.LiveIffHeld();
  }

  lemma NothingSurvives(width: nat, k: Key)
    ensures !Survives([], width, k)
  {
  }

  // ----- runs over texts

  datatype Line = Make(text: string) | Remove(text: string)

  ghost predicate AllUsable(lines: seq<Line>, maxbits: nat)
  {
    forall i :: 0 <= i < |lines| ==> Usable(lines[i].text, maxbits)
  }

  // The operation a line stands for.
  ghost function OpOf(line: Line, maxbits: nat): (op: Op)
    requires Usable(line.text, maxbits) && maxbits <= Ascii.MAX_BITLEN
    ensures op.Fits(maxbits) && op.Key() == TextKey(line.text, maxbits) && (op.Insert? <==> line.Make?)
  {
    var (octets, bitlen) := Ascii.Read(line.text).value;
    if line.Make? then Insert(Wire(octets), bitlen) else Erase(Wire(octets), bitlen)
  }

  ghost function OpsOf(lines: seq<Line>, maxbits: nat): (ops: seq<Op>)
    requires AllUsable(lines, maxbits) && maxbits <= Ascii.MAX_BITLEN
    ensures |ops| == |lines| && AllFit(ops, maxbits)
    ensures forall i :: 0 <= i < |ops| ==> ops[i] == OpOf(lines[i], maxbits)
  {
    seq(|lines|, i requires 0 <= i < |lines| => OpOf(lines[i], maxbits))
  }

  lemma OpsStep(lines: seq<Line>, n: nat, maxbits: nat)
    requires n < |lines| && AllUsable(lines[..n], maxbits) && maxbits <= Ascii.MAX_BITLEN
    requires Usable(lines[n].text, maxbits)
    ensures AllUsable(lines[..n + 1], maxbits)
    ensures OpsOf(lines[..n + 1], maxbits) == OpsOf(lines[..n], maxbits) + [OpOf(lines[n], maxbits)]
  {
    hide Usable;
    assert lines[..n + 1] == lines[..n] + [lines[n]];
  }

  lemma NoLines(lines: seq<Line>, maxbits: nat)
    requires maxbits <= Ascii.MAX_BITLEN
    ensures AllUsable(lines[..0], maxbits) && OpsOf(lines[..0], maxbits) == []
  {
  }

  // One line of a run; not `ok` is the end of the program.
  method ApplyLine(ledger: Ledger, line: Line, ghost ops: seq<Op>) returns (ok: bool)
    requires ledger.Balanced() && ledger.tree.maxbits <= Ascii.MAX_BITLEN && '\0' !in line.text
    requires AllFit(ops, ledger.tree.maxbits)
    requires forall k :: k in ledger.tree.contents <==> Survives(ops, ledger.tree.maxbits, k)
    modifies ledger`owed, ledger.tree, ledger.tree.cells.Keys, set n | n in ledger.tree.cells :: n.prefix
    ensures ledger.Balanced() && (ok <==> Usable(line.text, ledger.tree.maxbits))
    ensures ok ==> var all := ops + [OpOf(line, ledger.tree.maxbits)];
      AllFit(all, ledger.tree.maxbits) &&
      forall k :: k in ledger.tree.contents <==> Survives(all, ledger.tree.maxbits, k)
    ensures !ok ==> ledger.tree.contents == old(ledger.tree.contents)
    ensures fresh(ledger.tree.cells.Keys - old(ledger.tree.cells.Keys))
    ensures fresh(ledger.owed.Keys - old(ledger.owed.Keys))
    ensures (forall q :: q in old(ledger.owed) ==> old(ledger.owed)[q] == 0) ==>
      forall q :: q in ledger.owed ==> ledger.owed[q] == 0
  {
    hide WellFormed, Represents, Tree.Mirrored, Survives, Usable, TextKey, Ledger.Balanced, OpOf;
    ghost var maxbits := ledger.tree.maxbits;
    match line {
      case Make(text) =>
        var r, p := ledger.MakeAndLookup(text);
        ok := r != null;
      case Remove(text) =>
        var removed;
        ghost var p;
        ok, removed, p := ledger.LookupThenRemove(text);
    }
    if ok {
      forall k ensures AllFit(ops + [OpOf(line, maxbits)], maxbits)
        && (Survives(ops + [OpOf(line, maxbits)], maxbits, k) <==>
            if TextKey(line.text, maxbits) == k then line.Make? else Survives(ops, maxbits, k))
      {
        SurvivesStep(ops, maxbits, OpOf(line, maxbits), k);
      }
    }
  }

  /**
   Any run of make_and_lookup and lookup_then_remove over texts: `n` lines are
   carried out, all of them unless line n is not usable, which ends the
   program; exactly the keys that survive those n lines are stored.
   */
  method RunTexts(maxbits: nat, lines: seq<Line>) returns (ledger: Ledger, n: nat)
    requires maxbits <= Ascii.MAX_BITLEN && forall i :: 0 <= i < |lines| ==> '\0' !in lines[i].text
    ensures n <= |lines| && AllUsable(lines[..n], maxbits) && (n < |lines| ==> !Usable(lines[n].text, maxbits))
    ensures ledger.tree.maxbits == maxbits && ledger.Balanced()
    ensures forall k :: k in ledger.tree.contents <==> Survives(OpsOf(lines[..n], maxbits), maxbits, k)
    ensures forall q :: q in ledger.owed ==> ledger.owed[q] == 0
  {
    hide Survives, Usable, OpOf, OpsOf, AllUsable, AllFit, Ledger.Balanced;
    ledger := new Ledger(maxbits);
    NoLines(lines, maxbits);
    forall k ensures !Survives([], maxbits, k) {
      NothingSurvives(maxbits, k);
    }
    n := 0;
    while n < |lines|
      invariant 0 <= n <= |lines| && AllUsable(lines[..n], maxbits)
      invariant ledger.tree.maxbits == maxbits && ledger.Balanced()
      invariant fresh(ledger) && fresh(ledger.tree) && fresh(ledger.tree.cells.Keys) && fresh(ledger.owed.Keys)
      invariant forall k :: k in ledger.tree.contents <==> Survives(OpsOf(lines[..n], maxbits), maxbits, k)
      invariant forall q :: q in ledger.owed ==> ledger.owed[q] == 0
    {
      ledger.StoredAreOwed();
      var ok := ApplyLine(ledger, lines[n], OpsOf(lines[..n], maxbits));
      if !ok {
        return;
      }
      OpsStep(lines, n, maxbits);
      n := n + 1;
    }
  }

  // ----- searching after a run

  /**
   After any run, patricia_search_exact finds a key exactly if it was inserted
   and not erased since, and then finds the node that patricia_lookup returns.
   */
  method ExactAfterRun(maxbits: nat, ops: seq<Op>, addr: seq<bv8>, bitlen: nat)
    returns (exact: Node?, looked: Node)
    requires maxbits <= PATRICIA_MAXBITS && AllFit(ops, maxbits) && bitlen <= maxbits <= OCTET * |addr|
    ensures exact != null <==> Survives(ops, maxbits, KeyOf(addr, bitlen))
    ensures exact != null ==> exact == looked
  {
    hide WellFormed, Represents, Tree.Mirrored, Survives, Ledger.Accounts;
    var ledger := Run(maxbits, ops);
    var p := ledger.NewPrefix(addr, bitlen);
    exact := ledger.tree.SearchExact(p);
    looked := ledger.Lookup(p);
  }

  /**
   After any run, patricia_search_best2 finds the longest surviving prefix of the
   query, shorter than the query itself unless `inclusive`.
   */
  method BestAfterRun(maxbits: nat, ops: seq<Op>, addr: seq<bv8>, bitlen: nat, inclusive: bool) returns (best: Node?)
    requires maxbits <= PATRICIA_MAXBITS && AllFit(ops, maxbits) && bitlen <= maxbits <= OCTET * |addr|
    ensures best == null <==>
      forall c :: c <= KeyOf(addr, bitlen) && (inclusive || |c| < bitlen) ==> !Survives(ops, maxbits, c)
    ensures best != null ==>
      && best.stem <= KeyOf(addr, bitlen) && (inclusive || |best.stem| < bitlen) && Survives(ops, maxbits, best.stem)
      && forall c :: c <= KeyOf(addr, bitlen) && (inclusive || |c| < bitlen) && Survives(ops, maxbits, c) ==>
           |c| <= |best.stem|
  {
    hide WellFormed, Represents, Tree.Mirrored, Survives, Ledger.Accounts;
    var ledger := Run(maxbits, ops);
    var p := ledger.NewPrefix(addr, bitlen);
    best := ledger.tree.SearchBest(p, inclusive);
  }
}
