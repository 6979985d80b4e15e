/**
 The path verification loop cl_BgpsecVerify with cl_BgpsecSanityCheck
 (bgpsec_openssl-VariousKeyManipulation.c:827-1057 and 1148-1172): a walk down
 two linked lists that chains target AS numbers.  Digest and signature
 verification are parameters.  Where the code would read or write out of bounds,
 the model stops with the verdict Fault.
 */
module Bgpsec {
  import opened Common

  type AsNumber = x: int | 0 <= x < 0x1_0000_0000

  type Length16 = x: int | 0 <= x < 0x1_0000   // a length field of two octets

  const OCTET_SECURE_PATH_LEN := 2
  const OCTET_SECURE_PATH_SEGMENT := 6

  // ----- linked lists

  datatype List<T> = Nil | Cons(head: T, tail: List<T>)

  function Length<T>(l: List<T>): nat
  {
    if l.Nil? then 0 else 1 + Length(l.tail)
  }

  function Nth<T>(l: List<T>, k: nat): T
    requires k < Length(l)
  {
    if k == 0 then l.head else Nth(l.tail, k - 1)
  }

  function Rest<T>(l: List<T>, k: nat): List<T>
    requires k <= Length(l)
  {
    if k == 0 then l else Rest(l.tail, k - 1)
  }

  lemma {:induction false} RestStep<T>(l: List<T>, k: nat)
    requires k <= Length(l)
    ensures Length(Rest(l, k)) == Length(l) - k
    ensures k < Length(l) ==>
      Rest(l, k).Cons? && Rest(l, k).head == Nth(l, k) && Rest(l, k).tail == Rest(l, k + 1)
  {
    if k > 0 {
      RestStep(l.tail, k - 1);
    }
  }

  // ----- the attribute

  datatype PathSegment = PathSegment(asn: AsNumber, pCount: Octet, flags: Octet)

  datatype SigSegment = SigSegment(ski: Option<seq<Octet>>, signature: Option<seq<Octet>>)

  datatype SigBlock = SigBlock(algo: Octet, segments: List<SigSegment>)

  datatype PathAttr = PathAttr(securePathLen: Length16, path: List<PathSegment>, block: Option<SigBlock>)

  datatype Nlri = Nlri(length: Octet, octets: seq<Octet>)

  // What is handed to the signature check.
  datatype SignData = SignData(data: seq<Octet>, ski: Option<seq<Octet>>, algo: Octet, signature: Option<seq<Octet>>)

  // The key array: which of its entries are not null.
  datatype Keys = NoKeys | Keys(present: seq<bool>)
  {
    function Number(): nat
    {
      if NoKeys? then 0 else |present|
    }
  }

  // stcl_BgpsecVerifySignatureSSL_withKeyInfo (with the index of a key) and stcl_BgpsecVerifySignatureSSL.
  datatype Crypto = Crypto(withKey: (SignData, int) -> bool, bySki: SignData -> bool)

  // The number of segments that the length field announces (C division truncates towards zero).
  function Announced(securePathLen: Length16): nat
  {
    if securePathLen < OCTET_SECURE_PATH_LEN then 0
    else (securePathLen - OCTET_SECURE_PATH_LEN) / OCTET_SECURE_PATH_SEGMENT
  }

  /** cl_BgpsecSanityCheck. */
  predicate Sane(bpa: PathAttr)
  {
    && bpa.path.Cons? && bpa.block.Some? && bpa.block.value.segments.Cons?
    && bpa.block.value.segments.head.signature.Some? && bpa.block.value.segments.head.ski.Some?
  }

  // ----- what is to be verified

  function U32(v: AsNumber): seq<Octet>
  {
    [v / 0x1000000, v / 0x10000 % 256, v / 0x100 % 256, v % 256]
  }

  // API_BGPSEC_VERIFY_SUCCESS, API_BGPSEC_VERIFY_ERROR, or an access out of bounds.
  datatype Verdict = Success | Error | Fault

  // The arguments of cl_BgpsecVerify; maxSig is BGPSEC_MAX_SIG_LENGTH, on which the size of hashbuff depends.
  datatype Update = Update(bpa: PathAttr, keys: Keys, nlri: Option<Nlri>, localAs: AsNumber, maxSig: nat)
  {
    function Count(): nat { Announced(bpa.securePathLen) }

    ghost function PathLength(): nat { Length(bpa.path) }

    ghost function SigLength(): nat
      requires bpa.block.Some?
    {
      Length(bpa.block.value.segments)
    }

    ghost function Sig(k: nat): SigSegment
      requires bpa.block.Some? && k < SigLength()
    {
      Nth(bpa.block.value.segments, k)
    }

    // How many turns the loop can take.
    ghost function Turns(): nat
      requires bpa.block.Some?
    {
      var m := if PathLength() < SigLength() then PathLength() else SigLength();
      if Count() < m then Count() else m
    }

    // Signatures are signed towards the AS that received the update from the signer.
    ghost function TargetAs(k: nat): AsNumber
      requires k <= PathLength()
    {
      if k == 0 then localAs else Nth(bpa.path, k - 1).asn
    }

    // The next signature is announced but missing (lines 890-894).
    ghost predicate Broken(k: nat)
      requires bpa.block.Some?
    {
      SigLength() <= k + 1 < Count()
    }

    // Turn k stays within memory: what it copies is there and fits hashbuff,
    // and the key array is long enough.
    ghost predicate Safe(k: nat)
      requires bpa.block.Some? && k < Count() && !Broken(k)
    {
      if k + 1 < Count() then
        && Sig(k + 1).signature.Some? && |Sig(k + 1).signature.value| <= maxSig
        && (keys.Keys? ==> Count() - k <= |keys.present|)
      else
        && nlri.Some? && 2 + |nlri.value.octets| <= maxSig
        && (keys.Keys? ==> keys.present != [])
    }

    // The octets under signature k: target, signer, pCount and flags, then the
    // next signature, or for the origin the algorithm and the prefix.
    ghost function Octets(k: nat): seq<Octet>
      requires bpa.block.Some? && k < Count() && k < PathLength() && !Broken(k) && Safe(k)
    {
      var seg := Nth(bpa.path, k);
      U32(TargetAs(k)) + U32(seg.asn) + [seg.pCount, seg.flags] +
      if k + 1 < Count() then Sig(k + 1).signature.value
      else [bpa.block.value.algo, nlri.value.length] + nlri.value.octets
    }

    // Is a key from the array used?  The origin looks at the first entry of the array.
    ghost predicate HasKey(k: nat)
      requires bpa.block.Some? && k < Count() && !Broken(k) && Safe(k)
    {
      keys.Keys? &&
      if k + 1 < Count() then keys.present[|keys.present| - Count() + k] else keys.present[0]
    }

    // Signature k verifies over its octets, with its key.
    ghost predicate Verified(crypto: Crypto, k: nat)
      requires bpa.block.Some? && k < Turns()
    {
      && !Broken(k) && Safe(k)
      && var data := SignData(Octets(k), Sig(k).ski, bpa.block.value.algo, Sig(k).signature);
         if HasKey(k) then crypto.withKey(data, keys.Number() - Count() + k) else crypto.bySki(data)
    }

    // When the update is accepted, for every update.
    ghost predicate Accepted(crypto: Crypto)
    {
      Sane(bpa) && forall k :: 0 <= k < Turns() ==> Verified(crypto, k)
    }

    // When an access out of bounds is met: at a turn that is not safe, after all turns before it went well.
    ghost predicate Faults(crypto: Crypto)
    {
      Sane(bpa) && exists k :: 0 <= k < Turns() && FaultsAt(crypto, k)
    }

    ghost predicate FaultsAt(crypto: Crypto, k: nat)
      requires bpa.block.Some? && k < Turns()
    {
      !Broken(k) && !Safe(k) && forall j :: 0 <= j < k ==> Verified(crypto, j)
    }

    // No turn can leave memory.
    ghost predicate AllSafe()
      requires bpa.block.Some?
    {
      forall k :: 0 <= k < Turns() ==> Broken(k) || Safe(k)
    }
  }

  // ----- the loop

  method PutU32(buf: array<Octet>, at: nat, v: AsNumber)
    requires at + 4 <= buf.Length
    modifies buf
    ensures buf[..] == old(buf[..at]) + U32(v) + old(buf[at + 4..])
  {
    buf[at], buf[at + 1], buf[at + 2], buf[at + 3] := v / 0x1000000, v / 0x10000 % 256, v / 0x100 % 256, v % 256;
  }

  method Copy(buf: array<Octet>, at: nat, src: seq<Octet>)
    requires at + |src| <= buf.Length
    modifies buf
    ensures buf[..] == old(buf[..at]) + src + old(buf[at + |src|..])
  {
    var i := 0;
    while i < |src|
      invariant 0 <= i <= |src|
      invariant forall j :: 0 <= j < i ==> buf[at + j] == src[j]
      invariant buf[..at] == old(buf[..at]) && buf[at + |src|..] == old(buf[at + |src|..])
    {
      buf[at + i] := src[i];
      i := i + 1;
    }
    assert buf[at..at + |src|] == src;
    assert buf[..] == buf[..at] + buf[at..at + |src|] + buf[at + |src|..];
  }

  // The first ten octets of hashbuff (lines 882-889 and 985-989).
  method PutHeader(buf: array<Octet>, target: AsNumber, seg: PathSegment)
    requires 10 <= buf.Length
    modifies buf
    ensures buf[..10] == U32(target) + U32(seg.asn) + [seg.pCount, seg.flags]
  {
    PutU32(buf, 0, target);
    assert buf[..4] == U32(target);
    PutU32(buf, 4, seg.asn);
    assert buf[..8] == U32(target) + U32(seg.asn);
    buf[8] := seg.pCount;
    buf[9] := seg.flags;
    assert buf[..8] == U32(target) + U32(seg.asn);
  }

  // Fill hashbuff for segment k (lines 867-901 and 965-993).
  method FillBuffer(u: Update, buf: array<Octet>, ghost k: nat, target: AsNumber, seg: PathSegment,
                    next: Option<seq<Octet>>, algo: Octet) returns (hashLen: nat)
    requires u.bpa.block.Some? && u.bpa.block.value.algo == algo && buf.Length == u.maxSig + 10
    requires k < u.PathLength() && k < u.Count() && !u.Broken(k) && u.Safe(k)
    requires target == u.TargetAs(k) && seg == Nth(u.bpa.path, k)
    requires next == if k + 1 < u.Count() then u.Sig(k + 1).signature else None
    modifies buf
    ensures hashLen <= buf.Length && buf[..hashLen] == u.Octets(k)
  {
    PutHeader(buf, target, seg);
    ghost var header := buf[..10];
    if next.Some? {
      Copy(buf, 10, next.value);
      hashLen := 10 + |next.value|;
    } else {
      var p := u.nlri.value;
      buf[10] := algo;
      buf[11] := p.length;
      assert buf[..12] == header + [algo, p.length];
      Copy(buf, 12, p.octets);
      hashLen := 12 + |p.octets|;
    }
  }

  // The accesses of one turn that the code does not guard, with `iter` segments to go.
  predicate Guarded(u: Update, iter: nat, next: Option<seq<Octet>>)
  {
    if iter > 1 then
      next.Some? && |next.value| <= u.maxSig && (u.keys.Keys? ==> iter <= |u.keys.present|)
    else
      u.nlri.Some? && 2 + |u.nlri.value.octets| <= u.maxSig && (u.keys.Keys? ==> u.keys.present != [])
  }

  // One turn with `iter` segments to go, whose next signature is there if one is announced.
  method Turn(u: Update, crypto: Crypto, buf: array<Octet>, ghost k: nat, iter: nat, target: AsNumber,
              seg: PathSegment, sig: SigSegment, next: Option<seq<Octet>>) returns (verdict: Verdict)
    requires u.bpa.block.Some? && k < u.Turns() && k + iter == u.Count() && !u.Broken(k)
    requires buf.Length == u.maxSig + 10
    requires target == u.TargetAs(k) && seg == Nth(u.bpa.path, k) && sig == u.Sig(k)
    requires next == if k + 1 < u.Count() then u.Sig(k + 1).signature else None
    modifies buf
    ensures verdict == Success <==> u.Verified(crypto, k)
    ensures verdict == Fault <==> !u.Safe(k)
  {
    if !Guarded(u, iter, next) {
      return Fault;
    }
    var algo := u.bpa.block.value.algo;
    var hashLen := FillBuffer(u, buf, k, target, seg, next, algo);
    var data := SignData(buf[..hashLen], sig.ski, algo, sig.signature);
    var number := u.keys.Number() - iter;
    var good: bool;
    if u.keys.Keys? && (if iter > 1 then u.keys.present[number] else u.keys.present[0]) {
      good := crypto.withKey(data, number);
    } else {
      good := crypto.bySki(data);
    }
    verdict := if good then Success else Error;
  }

  /** cl_BgpsecVerify. */
  method Verify(u: Update, crypto: Crypto) returns (verdict: Verdict)
    ensures verdict == Success <==> u.Accepted(crypto)
    ensures verdict == Fault <==> u.Faults(crypto)
    ensures verdict != Error ==>
      && u.bpa.path.Cons? && u.bpa.block.Some? && u.bpa.block.value.segments.Cons?
      && u.bpa.block.value.segments.head.signature.Some? && u.bpa.block.value.segments.head.ski.Some?
  {
    hide Update.Verified, Update.Safe, Update.Accepted, Update.Faults;
    if !Sane(u.bpa) {
      NotSane(u, crypto);
      return Error;
    }
    var seg, ss := u.bpa.path, u.bpa.block.value.segments;
    var hashbuff := new Octet[u.maxSig + 10];
    var iter: nat := u.Count();
    var target := u.localAs;
    ghost var k := 0;
    while iter != 0 && seg.Cons? && ss.Cons?
      invariant k + iter == u.Count() && k <= u.PathLength() && k <= u.SigLength()
      invariant seg == Rest(u.bpa.path, k) && ss == Rest(u.bpa.block.value.segments, k)
      invariant target == u.TargetAs(k)
      invariant forall j :: 0 <= j < k ==> u.Verified(crypto, j)
      decreases iter
    {
      RestStep(u.bpa.path, k);
      RestStep(u.bpa.block.value.segments, k);
      RestStep(u.bpa.block.value.segments, k + 1);
      if iter > 1 && ss.tail.Nil? {
        StopsHere(u, crypto, k);
        return Error;
      }
      var next := if iter > 1 then ss.tail.head.signature else None;
      verdict := Turn(u, crypto, hashbuff, k, iter, target, seg.head, ss.head, next);
      if verdict != Success {
        StopsHere(u, crypto, k);
        return;
      }
      target := seg.head.asn;
      seg, ss, iter, k := seg.tail, ss.tail, iter - 1, k + 1;
    }
    RestStep(u.bpa.path, k);
    RestStep(u.bpa.block.value.segments, k);
    AllVerified(u, crypto);
    return Success;
  }

  lemma NotSane(u: Update, crypto: Crypto)
    requires !Sane(u.bpa)
    ensures !u.Accepted(crypto) && !u.Faults(crypto)
  {
  }

  // A turn that fails decides the verdict.
  lemma StopsHere(u: Update, crypto: Crypto, k: nat)
    requires Sane(u.bpa) && k < u.Turns() && (u.Broken(k) || !u.Verified(crypto, k))
    requires forall j :: 0 <= j < k ==> u.Verified(crypto, j)
    ensures !u.Accepted(crypto) && (u.Faults(crypto) <==> !u.Broken(k) && !u.Safe(k))
  {
    assert !u.Verified(crypto, k);
    forall j | 0 <= j < u.Turns() && u.FaultsAt(crypto, j) ensures j == k {
      assert j < k ==> u.Verified(crypto, j);
    }
    if !u.Broken(k) && !u.Safe(k) {
      assert u.FaultsAt(crypto, k);
    }
  }

  lemma AllVerified(u: Update, crypto: Crypto)
    requires Sane(u.bpa) && forall k :: 0 <= k < u.Turns() ==> u.Verified(crypto, k)
    ensures u.Accepted(crypto) && !u.Faults(crypto) && u.AllSafe()
  {
    forall k | 0 <= k < u.Turns() ensures !u.FaultsAt(crypto, k) && !u.Broken(k) && u.Safe(k) {
      assert u.Verified(crypto, k);
    }
  }

  // ----- what is under a signature

  function FromOctets(a: int, b: int, c: int, d: int): int
  {
    0x1000000 * a + 0x10000 * b + 0x100 * c + d
  }

  // Position by position, independently of how the octets are put together.
  lemma OctetPositions(u: Update, k: nat)
    requires u.bpa.block.Some? && k < u.Turns() && !u.Broken(k) && u.Safe(k)
    ensures var o, seg := u.Octets(k), Nth(u.bpa.path, k);
      && |o| >= 10
      && FromOctets(o[0], o[1], o[2], o[3]) == (if k == 0 then u.localAs else Nth(u.bpa.path, k - 1).asn)
      && FromOctets(o[4], o[5], o[6], o[7]) == seg.asn
      && o[8] == seg.pCount && o[9] == seg.flags
      && (k + 1 < u.Count() ==> Some(o[10..]) == Nth(u.bpa.block.value.segments, k + 1).signature)
      && (k + 1 == u.Count() ==>
            |o| >= 12 && u.nlri.Some? && o[10] == u.bpa.block.value.algo
            && o[11] == u.nlri.value.length && o[12..] == u.nlri.value.octets)
  {
    var o, seg := u.Octets(k), Nth(u.bpa.path, k);
    U32Value(u.TargetAs(k));
    U32Value(seg.asn);
    hide U32;
    var target, signer := U32(u.TargetAs(k)), U32(seg.asn);
    var rest := if k + 1 < u.Count() then u.Sig(k + 1).signature.value
                else [u.bpa.block.value.algo, u.nlri.value.length] + u.nlri.value.octets;
    assert o == target + signer + [seg.pCount, seg.flags] + rest;
    assert o[..4] == target && o[4..8] == signer && o[10..] == rest;
    assert o[0] == target[0] && o[1] == target[1] && o[2] == target[2] && o[3] == target[3];
    assert o[4] == signer[0] && o[5] == signer[1] && o[6] == signer[2] && o[7] == signer[3];
    assert o[8] == seg.pCount && o[9] == seg.flags;
    if k + 1 == u.Count() {
      assert rest[2..] == u.nlri.value.octets && o[12..] == o[10..][2..];
    }
  }

  // Network byte order.
  lemma U32Value(v: AsNumber)
    ensures var o := U32(v); |o| == 4 && FromOctets(o[0], o[1], o[2], o[3]) == v
  {
    var a, b, c := v / 0x100, v / 0x10000, v / 0x1000000;
    ByOctets(v);
    assert v == a * 0x100 + v % 0x100 && a == b * 0x100 + a % 0x100 && b == c * 0x100 + b % 0x100;
  }

  lemma ByOctets(v: int)
    ensures v / 0x10000 == v / 0x100 / 0x100 && v / 0x1000000 == v / 0x10000 / 0x100
  {
  }

  // The update as it reaches the AS of the first segment: without that segment, and meant for that AS.
  function OneHopBack(u: Update): Update
    requires u.bpa.path.Cons? && u.bpa.block.Some? && u.bpa.block.value.segments.Cons? && u.Count() > 1
  {
    var block := u.bpa.block.value;
    Update(PathAttr(u.bpa.securePathLen - OCTET_SECURE_PATH_SEGMENT, u.bpa.path.tail,
                    Some(SigBlock(block.algo, block.segments.tail))),
           u.keys, u.nlri, u.bpa.path.head.asn, u.maxSig)
  }

  // Target ASes are chained: what signature k + 1 is worth here is what signature k
  // is worth one hop back, where the signer of the first segment is the local AS.
  lemma HopLaw(u: Update, crypto: Crypto, k: nat)
    requires u.bpa.path.Cons? && u.bpa.block.Some? && u.bpa.block.value.segments.Cons? && u.Count() > 1
    requires k + 1 < u.Turns()
    ensures var v := OneHopBack(u);
      && v.Count() == u.Count() - 1 && v.Turns() == u.Turns() - 1
      && u.Verified(crypto, k + 1) == v.Verified(crypto, k)
  {
    var v := OneHopBack(u);
    assert v.PathLength() == u.PathLength() - 1 && v.SigLength() == u.SigLength() - 1;
    assert v.TargetAs(k) == u.TargetAs(k + 1);
    assert v.Sig(k) == u.Sig(k + 1) && Nth(v.bpa.path, k) == Nth(u.bpa.path, k + 1);
    assert v.Broken(k) == u.Broken(k + 1);
    if !v.Broken(k) {
      assert k + 2 < u.Count() ==> v.Sig(k + 1) == u.Sig(k + 2);
      assert v.Safe(k) == u.Safe(k + 1);
      if v.Safe(k) {
        assert v.Octets(k) == u.Octets(k + 1);
        assert v.HasKey(k) == u.HasKey(k + 1);
      }
    }
  }

  // So a chain of length n is accepted exactly if its first signature verifies and the rest is accepted one hop back.
  lemma AcceptedByHops(u: Update, crypto: Crypto)
    requires Sane(u.bpa) && u.Count() > 1 && u.PathLength() > 1 && u.SigLength() > 1
    requires u.Sig(1).signature.Some? && u.Sig(1).ski.Some?
    ensures u.Accepted(crypto) <==> u.Verified(crypto, 0) && OneHopBack(u).Accepted(crypto)
  {
    var v := OneHopBack(u);
    assert Nth(u.bpa.block.value.segments, 1) == v.bpa.block.value.segments.head;
    HopLaw(u, crypto, 0);
    if u.Verified(crypto, 0) && v.Accepted(crypto) {
      forall k | 0 <= k < u.Turns() ensures u.Verified(crypto, k) {
        if k > 0 {
          HopLaw(u, crypto, k - 1);
        }
      }
    }
    if u.Accepted(crypto) {
      forall k | 0 <= k < v.Turns() ensures v.Verified(crypto, k) {
        HopLaw(u, crypto, k);
      }
    }
  }

  // With a key array of full length, turn k checks signature k with key k if there is one; for the
  // origin the code looks for key 0 instead.
  lemma KeyOfTurn(u: Update, crypto: Crypto, k: nat)
    requires u.bpa.block.Some? && k < u.Turns() && !u.Broken(k) && u.Safe(k)
    requires u.keys.Keys? && |u.keys.present| == u.Count()
    ensures var sig := Nth(u.bpa.block.value.segments, k);
      var data := SignData(u.Octets(k), sig.ski, u.bpa.block.value.algo, sig.signature);
      u.Verified(crypto, k) <==>
        if u.keys.present[if k == u.Count() - 1 then 0 else k] then crypto.withKey(data, k) else crypto.bySki(data)
  {
  }

  // Without keys the signature names its key itself.
  lemma NoKeyOfTurn(u: Update, crypto: Crypto, k: nat)
    requires u.bpa.block.Some? && k < u.Turns() && !u.Broken(k) && u.Safe(k) && u.keys.NoKeys?
    ensures var sig := Nth(u.bpa.block.value.segments, k);
      u.Verified(crypto, k) <==>
        crypto.bySki(SignData(u.Octets(k), sig.ski, u.bpa.block.value.algo, sig.signature))
  {
  }

  // n segments announce themselves with 2 + 6 n octets; a remainder is dropped.
  lemma AnnouncedSegments(securePathLen: Length16, n: nat)
    ensures Announced(securePathLen) == n <==>
      if n == 0 then securePathLen < 8 else 2 + 6 * n <= securePathLen < 2 + 6 * (n + 1)
  {
  }

  // When a chain of full length is safe, said of the whole call.
  lemma SafeCall(u: Update)
    requires u.bpa.block.Some? && 1 <= u.Count() == u.PathLength() == u.SigLength()
    ensures u.AllSafe() <==>
      && (forall k :: 1 <= k < u.Count() ==>
            var s := u.Sig(k).signature; s.Some? && |s.value| <= u.maxSig)
      && u.nlri.Some? && 12 + |u.nlri.value.octets| <= u.maxSig + 10
      && (u.keys.Keys? ==> u.Count() <= |u.keys.present|)
  {
    if u.AllSafe() {
      assert u.Safe(0) && u.Safe(u.Count() - 1);
      forall k | 1 <= k < u.Count()
        ensures var s := u.Sig(k).signature; s.Some? && |s.value| <= u.maxSig
      {
        assert !u.Broken(k - 1) && u.Safe(k - 1);
      }
    }
  }

  // ----- what a verdict is worth

  // If both lists are as long as announced, acceptance is verification of every signature.
  lemma FullChain(u: Update, crypto: Crypto)
    requires Sane(u.bpa) && u.PathLength() == u.SigLength() == u.Count()
    ensures u.Accepted(crypto) <==> forall k :: 0 <= k < u.Count() ==> u.Verified(crypto, k)
  {
  }

  // A signature list that is too short never passes, unless the path list is shorter.
  lemma ShortSignaturesRejected(u: Update, crypto: Crypto)
    requires Sane(u.bpa) && u.SigLength() <= u.PathLength() && u.SigLength() < u.Count()
    ensures !u.Accepted(crypto)
  {
    assert !u.Verified(crypto, u.SigLength() - 1);
  }

  // Does acceptance mean that every announced segment is there and its signature verifies?
  ghost predicate Sound(u: Update)
    requires Sane(u.bpa)
  {
    forall crypto {:trigger u.Accepted(crypto)} :: u.Accepted(crypto) ==>
      u.Turns() == u.Count() && forall k :: 0 <= k < u.Count() ==> u.Verified(crypto, k)
  }

  const AnySignature := Crypto((data: SignData, key: int) => true, (data: SignData) => true)

  // Exactly if the path list is as long as announced, or no shorter than the
  // signature list, or the call leaves memory on the way.
  lemma SoundIff(u: Update)
    requires Sane(u.bpa)
    ensures Sound(u) <==> u.Count() <= u.PathLength() || u.SigLength() <= u.PathLength() || !u.AllSafe()
  {
    if u.Count() <= u.PathLength() || u.SigLength() <= u.PathLength() {
      forall crypto | u.Accepted(crypto) ensures u.Turns() == u.Count() {
        if u.SigLength() <= u.PathLength() && u.SigLength() < u.Count() {
          ShortSignaturesRejected(u, crypto);
        }
      }
    } else if u.AllSafe() {
      assert u.Accepted(AnySignature);
      assert u.Turns() < u.Count();
    } else {
      forall crypto ensures !u.Accepted(crypto) {
        if u.Accepted(crypto) {
          AllVerified(u, crypto);
        }
      }
    }
  }

  // A path of one segment where two are announced: the update is accepted,
  // although the scheme rejects the signature of the origin.
  lemma AcceptedWithoutOrigin(first: seq<Octet>, second: seq<Octet>, ski: seq<Octet>, nlri: Nlri, localAs: AsNumber)
    requires first != second
    ensures var seg := PathSegment(65000, 1, 0);
      var sigs := Cons(SigSegment(Some(ski), Some(first)), Cons(SigSegment(Some(ski), Some(second)), Nil));
      var u := Update(PathAttr(14, Cons(seg, Nil), Some(SigBlock(1, sigs))), NoKeys, Some(nlri), localAs, |second|);
      var onlyFirst := Crypto((data: SignData, key: int) => data.signature == Some(first),
                              (data: SignData) => data.signature == Some(first));
      && u.Count() == 2 && u.PathLength() == 1 && u.SigLength() == 2
      && u.Accepted(onlyFirst) && forall data: SignData :: data.signature == Some(second) ==> !onlyFirst.bySki(data)
  {
    var rest := Cons(SigSegment(Some(ski), Some(second)), Nil);
    var sigs := Cons(SigSegment(Some(ski), Some(first)), rest);
    assert Length(rest) == 1;
    assert Nth(sigs, 1) == Nth(rest, 0);
  }

  // If no segment is announced, every update that passes the sanity check is accepted.
  lemma NothingAnnounced(u: Update, crypto: Crypto)
    ensures u.Count() == 0 <==> u.bpa.securePathLen < OCTET_SECURE_PATH_LEN + OCTET_SECURE_PATH_SEGMENT
    ensures u.Count() == 0 ==> (u.Accepted(crypto) <==> Sane(u.bpa))
  {
  }

  // Memory is left for some signature scheme exactly if some turn is not safe:
  // a null or over-long signature or prefix is to be copied, or the key array is too short.
  lemma FaultsIff(u: Update)
    requires Sane(u.bpa)
    ensures (exists crypto :: u.Faults(crypto)) <==> !u.AllSafe()
  {
    if !u.AllSafe() {
      var k :| 0 <= k < u.Turns() && !u.Broken(k) && !u.Safe(k);
      var first := FirstUnsafe(u, k);
      assert u.FaultsAt(AnySignature, first);
      assert u.Faults(AnySignature);
    }
  }

  lemma {:induction false} FirstUnsafe(u: Update, k: nat) returns (first: nat)
    requires u.bpa.block.Some? && k < u.Turns() && !u.Broken(k) && !u.Safe(k)
    ensures first < u.Turns() && u.FaultsAt(AnySignature, first)
  {
    if j :| 0 <= j < k && !u.Broken(j) && !u.Safe(j) {
      first := FirstUnsafe(u, j);
    } else {
      first := k;
    }
  }

  // Does the verdict depend on the announced prefix, for some signature scheme
  // and a buffer that holds everything?
  ghost predicate PrefixMatters(u: Update)
    requires Sane(u.bpa)
  {
    exists crypto, other: Nlri, room: nat :: PrefixDecides(u.(maxSig := room), other, crypto)
  }

  ghost predicate PrefixDecides(u: Update, other: Nlri, crypto: Crypto)
    requires Sane(u.bpa)
  {
    var v := u.(nlri := Some(other));
    u.AllSafe() && v.AllSafe() && u.Accepted(crypto) != v.Accepted(crypto)
  }

  // A scheme that rejects exactly what is longer than `most`.
  function NotLonger(most: nat): Crypto
  {
    Crypto((data: SignData, key: int) => |data.data| <= most, (data: SignData) => |data.data| <= most)
  }

  // Exactly if both lists reach the announced origin, and something is announced.
  lemma PrefixMattersIff(u: Update)
    requires Sane(u.bpa) && u.AllSafe()
    ensures PrefixMatters(u) <==> 1 <= u.Count() <= u.PathLength() && u.Count() <= u.SigLength()
  {
    if 1 <= u.Count() <= u.PathLength() && u.Count() <= u.SigLength() {
      var most := u.maxSig + 10;
      var other := Nlri(0, seq(most, _ => 0));
      DifferOnOther(u.(maxSig := most + 2), other, most);
    } else {
      forall crypto, other: Nlri, room: nat ensures !PrefixDecides(u.(maxSig := room), other, crypto) {
        OriginNotReached(u.(maxSig := room), other, crypto);
      }
    }
  }

  lemma DifferOnOther(u: Update, other: Nlri, most: nat)
    requires Sane(u.bpa) && 1 <= u.Count() <= u.PathLength() && u.Count() <= u.SigLength()
    requires most >= 10 && u.maxSig == most + 2 && u.(maxSig := most - 10).AllSafe() && |other.octets| == most
    ensures PrefixDecides(u, other, NotLonger(most))
  {
    var v, last, w := u.(nlri := Some(other)), u.Count() - 1, u.(maxSig := most - 10);
    forall k | 0 <= k < u.Turns() ensures u.Verified(NotLonger(most), k) && v.Safe(k) {
      assert w.Broken(k) || w.Safe(k);
      assert |u.Octets(k)| <= most;
    }
    AllVerified(u, NotLonger(most));
    assert v.Safe(last) && |v.Octets(last)| == 12 + most;
    assert !v.Verified(NotLonger(most), last);
  }

  // If a list is shorter than announced, the loop ends before the origin: the
  // prefix has no say in the verdict.
  lemma OriginNotReached(u: Update, other: Nlri, crypto: Crypto)
    requires Sane(u.bpa)
    requires u.Count() == 0 || u.PathLength() < u.Count() || u.SigLength() < u.Count()
    ensures u.Accepted(crypto) == u.(nlri := Some(other)).Accepted(crypto)
    ensures u.Faults(crypto) == u.(nlri := Some(other)).Faults(crypto)
  {
    var v := u.(nlri := Some(other));
    forall k | 0 <= k < u.Turns()
      ensures u.Verified(crypto, k) == v.Verified(crypto, k) && u.Broken(k) == v.Broken(k)
      ensures !u.Broken(k) ==> u.Safe(k) == v.Safe(k)
    {
      if !u.Broken(k) && u.Safe(k) {
        assert u.Octets(k) == v.Octets(k);
      }
    }
    forall k | 0 <= k < u.Turns() ensures u.FaultsAt(crypto, k) == v.FaultsAt(crypto, k) {
    }
  }
}
