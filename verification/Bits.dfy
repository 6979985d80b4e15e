/**
 Bit-level view of network addresses (patricia.c:50-62 and 734-752).

 An address is a sequence of octets, most significant first.  Bit `i` is the
 bit that `addr[i >> 3] & (0x80 >> (i & 7))` tests, and a prefix of length
 `len` stands for its first `len` bits.  Everything else in the project that
 speaks about keys speaks about these bit strings.
 */
module Bits {
  import opened Common

  type Key = seq<bool>

  const OCTET := 8

  // The mask 0x80 >> j.
  function HighBit(j: nat): bv8
    requires j < OCTET
  {
    match j
    case 0 => 0x80
    case 1 => 0x40
    case 2 => 0x20
    case 3 => 0x10
    case 4 => 0x08
    case 5 => 0x04
    case 6 => 0x02
    case _ => 0x01
  }

  // The mask ((-1) << (8 - r)), seen through an unsigned octet.
  function LeadingMask(r: nat): bv8
    requires r < OCTET
  {
    match r
    case 0 => 0x00
    case 1 => 0x80
    case 2 => 0xC0
    case 3 => 0xE0
    case 4 => 0xF0
    case 5 => 0xF8
    case 6 => 0xFC
    case _ => 0xFE
  }

  predicate OctetBit(x: bv8, j: nat)
    requires j < OCTET
  {
    x & HighBit(j) != 0
  }

  predicate BitAt(addr: seq<bv8>, i: nat)
    requires i < OCTET * |addr|
  {
    OctetBit(addr[i / OCTET], i % OCTET)
  }

  function KeyOf(addr: seq<bv8>, len: nat): (k: Key)
    requires len <= OCTET * |addr|
    ensures |k| == len
    ensures forall i :: 0 <= i < len ==> k[i] == BitAt(addr, i)
  {
    seq(len, i requires 0 <= i < len => BitAt(addr, i))
  }

  // ----- facts about one octet

  lemma OctetMaskAgrees(x: bv8, y: bv8, r: nat)
    requires r < OCTET
    ensures x & LeadingMask(r) == y & LeadingMask(r)
            <==> forall j: nat :: j < r ==> OctetBit(x, j) == OctetBit(y, j)
  {
    hide OctetBit, LeadingMask;
    if r == 0 {
      NothingMasked(x, y);
    } else {
      OctetMaskAgrees(x, y, r - 1);
      LeadingMaskStep(x, y, r);
      assert OctetBit(x, r - 1) == OctetBit(y, r - 1) ==>
        (forall j: nat :: j < r ==> j < r - 1 || OctetBit(x, j) == OctetBit(y, j));
    }
  }

  lemma NothingMasked(x: bv8, y: bv8)
    ensures x & LeadingMask(0) == y & LeadingMask(0)
  {
  }

  // One more bit under the mask compares one more bit.
  lemma LeadingMaskStep(x: bv8, y: bv8, r: nat)
    requires 0 < r < OCTET
    ensures x & LeadingMask(r) == y & LeadingMask(r) <==>
            && x & LeadingMask(r - 1) == y & LeadingMask(r - 1)
            && OctetBit(x, r - 1) == OctetBit(y, r - 1)
  {
    match r {
      case 1 =>
      case 2 =>
      case 3 =>
      case 4 =>
      case 5 =>
      case 6 =>
      case _ => assert r == 7;
    }
  }

  // A single-bit mask leaves nothing or itself.
  lemma HighBitAlone(x: bv8, j: nat)
    requires j < OCTET
    ensures x & HighBit(j) == 0 || x & HighBit(j) == HighBit(j)
    ensures HighBit(j) != 0
  {
  }

  lemma XorUnderMask(x: bv8, y: bv8, m: bv8)
    requires m != 0 && (x & m == 0 || x & m == m) && (y & m == 0 || y & m == m)
    ensures (x ^ y) & m != 0 <==> (x & m != 0) != (y & m != 0)
  {
    assert (x ^ y) & m == (x & m) ^ (y & m);
  }

  lemma OctetXorBit(x: bv8, y: bv8, j: nat)
    requires j < OCTET
    ensures OctetBit(x ^ y, j) <==> OctetBit(x, j) != OctetBit(y, j)
  {
    HighBitAlone(x, j);
    HighBitAlone(y, j);
    XorUnderMask(x, y, HighBit(j));
  }

  lemma OctetXorZero(x: bv8, y: bv8)
    ensures x ^ y == 0 <==> x == y
  {
  }

  lemma OctetNonzeroHasBit(x: bv8)
    requires x != 0
    ensures exists j: nat :: j < OCTET && OctetBit(x, j)
  {
    assert OctetBit(x, 0) || OctetBit(x, 1) || OctetBit(x, 2) || OctetBit(x, 3) ||
           OctetBit(x, 4) || OctetBit(x, 5) || OctetBit(x, 6) || OctetBit(x, 7);
  }

  // ----- octets as numbers

  // The masks are the code's own shifts: 0x80 >> j, and 0xFF << (8 - r) in one octet.
  lemma MasksAreShifts(j: nat)
    requires j < OCTET
    ensures HighBit(j) == (0x80 as bv8) >> j
    ensures LeadingMask(j) == (0xFF as bv8) << (8 - j)
  {
    match j {
      case 0 =>
      case 1 =>
      case 2 =>
      case 3 =>
      case 4 =>
      case 5 =>
      case 6 =>
      case _ => assert j == 7;
    }
  }

  // x without its last n binary digits.
  function Shifted(x: nat, n: nat): nat
  {
    if n == 0 then x else Shifted(x / 2, n - 1)
  }

  // Binary digit j of an octet, the most significant one first.
  predicate Digit(x: Octet, j: nat)
    requires j < OCTET
  {
    Shifted(x, 7 - j) % 2 == 1
  }

  function Unit(b: bool): nat
  {
    if b then 1 else 0
  }

  // A bit string read as a number, most significant bit first.
  function KeyNumber(k: Key): nat
  {
    if k == [] then 0 else 2 * KeyNumber(k[..|k| - 1]) + Unit(k[|k| - 1])
  }

  // Bit i of a string of n bits is digit n - 1 - i of its number.
  lemma {:induction false} KeyDigit(k: Key, i: nat)
    requires i < |k|
    ensures k[i] <==> Shifted(KeyNumber(k), |k| - 1 - i) % 2 == 1
    decreases |k|
  {
    var n := |k| - 1;
    LowestDigit(KeyNumber(k[..n]), k[n]);
    if i < n {
      KeyDigit(k[..n], i);
    }
  }

  lemma LowestDigit(y: nat, b: bool)
    ensures (2 * y + Unit(b)) / 2 == y && ((2 * y + Unit(b)) % 2 == 1 <==> b)
  {
  }

  // Bit strings of one length are the same exactly if their numbers are.
  lemma {:induction false} KeyNumberDecides(a: Key, b: Key)
    requires |a| == |b|
    ensures a == b <==> KeyNumber(a) == KeyNumber(b)
  {
    if a != [] {
      var n := |a| - 1;
      KeyNumberDecides(a[..n], b[..n]);
      assert a == a[..n] + [a[n]] && b == b[..n] + [b[n]];
    }
  }

  // The last n binary digits of x.
  function LowDigits(x: nat, n: nat): (k: Key)
    ensures |k| == n
  {
    if n == 0 then [] else LowDigits(x / 2, n - 1) + [x % 2 == 1]
  }

  lemma {:induction false} LowDigitsNumber(x: nat, n: nat)
    requires x < Pow2(n)
    ensures KeyNumber(LowDigits(x, n)) == x
  {
    if n > 0 {
      var k := LowDigits(x / 2, n - 1);
      assert Pow2(n) == 2 * Pow2(n - 1) && LowDigits(x, n) == k + [x % 2 == 1];
      hide Pow2, LowDigits, KeyNumber;
      LowDigitsNumber(x / 2, n - 1);
      OneBitMore(k + [x % 2 == 1], n - 1);
      PartEnds(k + [x % 2 == 1]);
      PartEnds(k);
      assert Part(k + [x % 2 == 1], n - 1) == Part(k, n - 1) by {
        assert (k + [x % 2 == 1])[..n - 1] == k == k[..n - 1];
      }
      hide Part;
    }
  }

  function OctetBits(b: bv8): Key
  {
    [b & 0x80 != 0, b & 0x40 != 0, b & 0x20 != 0, b & 0x10 != 0,
     b & 0x08 != 0, b & 0x04 != 0, b & 0x02 != 0, b & 0x01 != 0]
  }

  lemma OctetNumber(b: bv8)
    ensures b as int == KeyNumber(OctetBits(b))
  {
    EightBits(OctetBits(b));
    hide KeyNumber;
    WeighedBits(b);
  }

  lemma WeighedBits(b: bv8)
    ensures b as int ==
      EightDigits(b & 0x80 != 0, b & 0x40 != 0, b & 0x20 != 0, b & 0x10 != 0,
                  b & 0x08 != 0, b & 0x04 != 0, b & 0x02 != 0, b & 0x01 != 0)
  {
  }

  function EightDigits(a: bool, b: bool, c: bool, d: bool, e: bool, f: bool, g: bool, h: bool): nat
  {
    var n := 2 * (2 * (2 * Unit(a) + Unit(b)) + Unit(c)) + Unit(d);
    2 * (2 * (2 * (2 * n + Unit(e)) + Unit(f)) + Unit(g)) + Unit(h)
  }

  // The number of the first n bits.
  function Part(k: Key, n: nat): nat
    requires n <= |k|
  {
    KeyNumber(k[..n])
  }

  lemma EightBits(k: Key)
    requires |k| == 8
    ensures KeyNumber(k) == EightDigits(k[0], k[1], k[2], k[3], k[4], k[5], k[6], k[7])
  {
    hide KeyNumber, Unit, Part;
    PartEnds(k);
    OneBitMore(k, 0);
    OneBitMore(k, 1);
    OneBitMore(k, 2);
    OneBitMore(k, 3);
    OneBitMore(k, 4);
    OneBitMore(k, 5);
    OneBitMore(k, 6);
    OneBitMore(k, 7);
  }

  lemma PartEnds(k: Key)
    ensures Part(k, 0) == 0 && Part(k, |k|) == KeyNumber(k)
  {
    assert k[..|k|] == k;
  }

  lemma OneBitMore(k: Key, n: nat)
    requires n < |k|
    ensures Part(k, n + 1) == 2 * Part(k, n) + Unit(k[n])
  {
    assert k[..n + 1][..n] == k[..n];
  }

  lemma OctetRange()
    ensures Pow2(OCTET) == 256
  {
  }

  // Bit j of an octet is binary digit j of its number.
  lemma OctetDigits(b: bv8, j: nat)
    requires j < OCTET
    ensures OctetBit(b, j) == Digit(b as int, j)
  {
    hide KeyNumber, Shifted;
    OctetNumber(b);
    KeyDigit(OctetBits(b), j);
    assert OctetBits(b)[j] == OctetBit(b, j);
  }

  function BitIf(b: bool, m: bv8): bv8
  {
    if b then m else 0
  }

  function PackEight(a: bool, b: bool, c: bool, d: bool, e: bool, f: bool, g: bool, h: bool): bv8
  {
    BitIf(a, 0x80) | BitIf(b, 0x40) | BitIf(c, 0x20) | BitIf(d, 0x10) |
    BitIf(e, 0x08) | BitIf(f, 0x04) | BitIf(g, 0x02) | BitIf(h, 0x01)
  }

  function PackBits(k: Key): bv8
    requires |k| == 8
  {
    PackEight(k[0], k[1], k[2], k[3], k[4], k[5], k[6], k[7])
  }

  // The octet with number x.
  function OctetOf(x: Octet): bv8
  {
    PackBits(LowDigits(x, 8))
  }

  lemma OctetOfNumber(x: Octet)
    ensures OctetOf(x) as int == x
  {
    hide KeyNumber, LowDigits, PackBits, Pow2;
    OctetRange();
    LowDigitsNumber(x, 8);
    PackedNumber(LowDigits(x, 8));
  }

  lemma PackedNumber(k: Key)
    requires |k| == 8
    ensures PackBits(k) as int == KeyNumber(k)
  {
    hide KeyNumber, EightDigits, PackEight;
    EightBits(k);
    WeighedMasks(k[0], k[1], k[2], k[3], k[4], k[5], k[6], k[7]);
  }

  lemma WeighedMasks(a: bool, b: bool, c: bool, d: bool, e: bool, f: bool, g: bool, h: bool)
    ensures PackEight(a, b, c, d, e, f, g, h) as int
         == EightDigits(a, b, c, d, e, f, g, h)
  {
  }

  // ----- addresses and keys as numbers

  // An address read as a number, most significant octet first.
  function Number(addr: seq<bv8>): nat
  {
    if addr == [] then 0 else 256 * Number(addr[..|addr| - 1]) + addr[|addr| - 1] as int
  }

  lemma {:induction false} ShiftedIsQuotient(x: nat, n: nat)
    ensures Shifted(x, n) == x / Pow2(n)
  {
    if n > 0 {
      ShiftedIsQuotient(x / 2, n - 1);
      HalfQuotient(x, Pow2(n - 1));
    }
  }

  lemma HalfQuotient(x: nat, m: nat)
    requires m >= 1
    ensures x / 2 / m == x / (2 * m)
  {
    var q, r, s := x / 2 / m, x / 2 % m, x % 2;
    assert x / 2 == q * m + r;
    assert x == q * (2 * m) + (2 * r + s);
    QuotientIs(x, 2 * m, q, 2 * r + s);
  }

  lemma QuotientIs(x: nat, d: nat, q: nat, r: nat)
    requires r < d && x == q * d + r
    ensures x / d == q
  {
    var p := x / d;
    assert x == p * d + x % d;
    ProductGap(p, q, d);
    ProductGap(q, p, d);
  }

  lemma {:induction false} ProductGap(p: nat, q: nat, d: nat)
    ensures p < q ==> p * d + d <= q * d
  {
    if p < q {
      ProductGap(p, q - 1, d);
      assert q * d == (q - 1) * d + d;
    }
  }

  lemma {:induction false} ShiftedTwice(x: nat, m: nat, n: nat)
    ensures Shifted(x, m + n) == Shifted(Shifted(x, m), n)
  {
    if m > 0 {
      ShiftedTwice(x / 2, m - 1, n);
    }
  }

  // The last m digits are those of b, the others those of x.
  lemma {:induction false} HighAndLow(x: nat, b: nat, m: nat)
    requires b < Pow2(m)
    ensures Shifted(x * Pow2(m) + b, m) == x
  {
    if m > 0 {
      HalfOfSum(x, b, Pow2(m - 1));
      HighAndLow(x, b / 2, m - 1);
    }
  }

  lemma {:induction false} LowDigit(x: nat, b: nat, m: nat, n: nat)
    requires n < m
    ensures Shifted(x * Pow2(m) + b, n) % 2 == Shifted(b, n) % 2
  {
    HalfOfSum(x, b, Pow2(m - 1));
    if n > 0 {
      LowDigit(x, b / 2, m - 1, n - 1);
    }
  }

  lemma HalfOfSum(x: nat, b: nat, p: nat)
    ensures (x * (2 * p) + b) / 2 == x * p + b / 2 && (x * (2 * p) + b) % 2 == b % 2
    ensures x * (2 * p) >= 0 && x * p >= 0
  {
    assert x * (2 * p) == 2 * (x * p);
  }

  // Bit i of an address is a binary digit of its number.
  lemma {:induction false} BitOfNumber(addr: seq<bv8>, i: nat)
    requires i < OCTET * |addr|
    ensures BitAt(addr, i) <==> Shifted(Number(addr), OCTET * |addr| - 1 - i) % 2 == 1
    decreases |addr|
  {
    var last := |addr| - 1;
    if i >= OCTET * last {
      BitOfLastOctet(addr, i - OCTET * last);
    } else {
      BitOfNumber(addr[..last], i);
      hide OctetBit, Shifted;
      assert BitAt(addr[..last], i) == BitAt(addr, i);
      OctetsAbove(addr);
      ShiftedTwice(Number(addr), OCTET, OCTET * last - 1 - i);
    }
  }

  lemma BitOfLastOctet(addr: seq<bv8>, j: nat)
    requires addr != [] && j < OCTET
    ensures BitAt(addr, OCTET * (|addr| - 1) + j) <==> Shifted(Number(addr), 7 - j) % 2 == 1
  {
    hide OctetBit, Shifted, Pow2;
    var last := |addr| - 1;
    LastOctet(addr);
    BitIndex(last, j);
    OctetDigits(addr[last], j);
    LowDigit(Number(addr[..last]), addr[last] as int, OCTET, 7 - j);
  }

  lemma OctetsAbove(addr: seq<bv8>)
    requires addr != []
    ensures Shifted(Number(addr), OCTET) == Number(addr[..|addr| - 1])
  {
    hide Shifted, Pow2, Number;
    OctetRange();
    LastOctet(addr);
    HighAndLow(Number(addr[..|addr| - 1]), addr[|addr| - 1] as int, OCTET);
  }

  lemma LastOctet(addr: seq<bv8>)
    requires addr != []
    ensures Number(addr) == Number(addr[..|addr| - 1]) * Pow2(OCTET) + addr[|addr| - 1] as int
  {
    OctetRange();
  }

  // The key of length len is the address without its other bits.
  lemma {:induction false} KeyIsLeadingPart(addr: seq<bv8>, len: nat)
    requires len <= OCTET * |addr|
    ensures KeyNumber(KeyOf(addr, len)) == Number(addr) / Pow2(OCTET * |addr| - len)
  {
    hide BitAt;
    KeyIsShifted(addr, len);
    ShiftedIsQuotient(Number(addr), OCTET * |addr| - len);
  }

  lemma {:induction false} KeyIsShifted(addr: seq<bv8>, len: nat)
    requires len <= OCTET * |addr|
    ensures KeyNumber(KeyOf(addr, len)) == Shifted(Number(addr), OCTET * |addr| - len)
  {
    hide BitAt, Number;
    var x, n := Number(addr), OCTET * |addr| - len;
    if len == 0 {
      NothingAbove(addr);
    } else {
      var k := KeyOf(addr, len);
      assert k[..len - 1] == KeyOf(addr, len - 1);
      KeyIsShifted(addr, len - 1);
      ShiftedTwice(x, n, 1);
      assert Shifted(Shifted(x, n), 1) == Shifted(x, n) / 2;
      BitOfNumber(addr, len - 1);
    }
  }

  lemma {:induction false} NothingAbove(addr: seq<bv8>)
    ensures Shifted(Number(addr), OCTET * |addr|) == 0
  {
    if addr != [] {
      var last := |addr| - 1;
      NothingAbove(addr[..last]);
      OctetsAbove(addr);
      hide Shifted, Number;
      ShiftedTwice(Number(addr), OCTET, OCTET * last);
    }
  }

  // So agreement on the first len bits is a statement about numbers.
  lemma KeysAgreeByNumber(a: seq<bv8>, b: seq<bv8>, len: nat)
    requires len <= OCTET * |a| && len <= OCTET * |b|
    ensures KeyOf(a, len) == KeyOf(b, len) <==>
            Number(a) / Pow2(OCTET * |a| - len) == Number(b) / Pow2(OCTET * |b| - len)
  {
    KeyIsLeadingPart(a, len);
    KeyIsLeadingPart(b, len);
    KeyNumberDecides(KeyOf(a, len), KeyOf(b, len));
  }

  // One key covers another exactly if it is no longer and its number is the other's leading part.
  lemma PrefixByNumber(a: seq<bv8>, m: nat, b: seq<bv8>, n: nat)
    requires m <= OCTET * |a| && n <= OCTET * |b|
    ensures KeyOf(a, m) <= KeyOf(b, n) <==>
            m <= n && Number(a) / Pow2(OCTET * |a| - m) == Number(b) / Pow2(OCTET * |b| - m)
  {
    hide BitAt;
    if m <= n {
      assert KeyOf(b, n)[..m] == KeyOf(b, m);
      KeysAgreeByNumber(a, b, m);
    }
  }

  // ----- lifting to whole addresses

  // Agreement on `len` bits is agreement on len / 8 whole octets and on the
  // leading len % 8 bits of the next one.
  lemma KeysAgreeByOctets(a: seq<bv8>, b: seq<bv8>, len: nat)
    requires len <= OCTET * |a| && len <= OCTET * |b|
    ensures KeyOf(a, len) == KeyOf(b, len) <==>
            && a[..len / OCTET] == b[..len / OCTET]
            && (forall j: nat :: j < len % OCTET ==>
                  OctetBit(a[len / OCTET], j) == OctetBit(b[len / OCTET], j))
  {
    var n, r := len / OCTET, len % OCTET;
    if KeyOf(a, len) == KeyOf(b, len) {
      forall m: nat | m < n ensures a[m] == b[m] {
        forall j: nat | j < OCTET ensures OctetBit(a[m], j) == OctetBit(b[m], j) {
          BitIndex(m, j);
          assert KeyOf(a, len)[OCTET * m + j] == KeyOf(b, len)[OCTET * m + j];
        }
        OctetsEqual(a[m], b[m]);
      }
      forall j: nat | j < r ensures OctetBit(a[n], j) == OctetBit(b[n], j) {
        BitIndex(n, j);
        assert KeyOf(a, len)[OCTET * n + j] == KeyOf(b, len)[OCTET * n + j];
      }
    }
    if a[..n] == b[..n] &&
       forall j: nat :: j < r ==> OctetBit(a[n], j) == OctetBit(b[n], j) {
      forall i: nat | i < len ensures BitAt(a, i) == BitAt(b, i) {
        if i / OCTET < n {
          assert a[..n][i / OCTET] == b[..n][i / OCTET];
        }
      }
    }
  }

  lemma BitIndex(m: nat, j: nat)
    requires j < OCTET
    ensures (OCTET * m + j) / OCTET == m && (OCTET * m + j) % OCTET == j
  {
  }

  lemma OctetsEqual(x: bv8, y: bv8)
    requires forall j: nat :: j < OCTET ==> OctetBit(x, j) == OctetBit(y, j)
    ensures x == y
  {
    OctetMaskAgrees(x, y, 7);
    LowBitCompletes(x, y);
  }

  lemma LowBitCompletes(x: bv8, y: bv8)
    requires x & LeadingMask(7) == y & LeadingMask(7)
    requires OctetBit(x, 7) == OctetBit(y, 7)
    ensures x == y
  {
  }

  /** comp_with_mask (patricia.c:50-62): do the first `mask` bits agree? */
  method CompWithMask(addr: seq<bv8>, dest: seq<bv8>, mask: nat) returns (agree: bool)
    requires mask <= OCTET * |addr| && mask <= OCTET * |dest|
    ensures agree <==> KeyOf(addr, mask) == KeyOf(dest, mask)
    ensures agree <==> Number(addr) / Pow2(OCTET * |addr| - mask) == Number(dest) / Pow2(OCTET * |dest| - mask)
  {
    hide Number, Pow2, BitAt, OctetBit, LeadingMask;
    KeysAgreeByOctets(addr, dest, mask);
    KeysAgreeByNumber(addr, dest, mask);
    agree := false;
    if addr[..mask / OCTET] == dest[..mask / OCTET] {
      var n, r := mask / OCTET, mask % OCTET;
      if r != 0 {
        OctetMaskAgrees(addr[n], dest[n], r);
      }
      if r == 0 || addr[n] & LeadingMask(r) == dest[n] & LeadingMask(r) {
        agree := true;
      }
    }
  }

  // The first bit in which two octets differ (patricia.c:741-746).
  method FirstDifference(x: bv8, y: bv8) returns (j: nat)
    requires x != y
    ensures j < OCTET && OctetBit(x, j) != OctetBit(y, j)
    ensures forall m: nat :: m < j ==> OctetBit(x, m) == OctetBit(y, m)
  {
    var r := x ^ y;
    OctetXorZero(x, y);
    OctetNonzeroHasBit(r);
    forall m: nat | m < OCTET ensures OctetBit(r, m) <==> OctetBit(x, m) != OctetBit(y, m) {
      OctetXorBit(x, y, m);
    }
    hide OctetBit;
    j := 0;
    while j < OCTET
      invariant j <= OCTET
      invariant forall m: nat :: m < j ==> !OctetBit(r, m)
    {
      if OctetBit(r, j) {
        break;
      }
      j := j + 1;
    }
  }

  /**
   The octet-wise XOR scan of patricia_lookup (patricia.c:734-752): the length
   of the longest common bit prefix of two addresses, capped at `check`.
   */
  method DifferBit(addr: seq<bv8>, test: seq<bv8>, check: nat) returns (differ: nat)
    requires check <= OCTET * |addr| && check <= OCTET * |test|
    ensures differ <= check
    ensures KeyOf(addr, differ) == KeyOf(test, differ)
    ensures differ < check ==> BitAt(addr, differ) != BitAt(test, differ)
  {
    hide OctetBit;
    differ := 0;
    var i := 0;
    while i * OCTET < check
      invariant 0 <= i <= |addr| && i <= |test| && differ == OCTET * i
      invariant addr[..i] == test[..i]
    {
      var r := addr[i] ^ test[i];
      OctetXorZero(addr[i], test[i]);
      if r == 0 {
        differ := (i + 1) * OCTET;
        i := i + 1;
        continue;
      }
      var j := FirstDifference(addr[i], test[i]);
      differ := i * OCTET + j;
      BitIndex(i, j);
      break;
    }
    if differ > check {
      differ := check;
    }
    forall b: nat | b < differ ensures BitAt(addr, b) == BitAt(test, b) {
      if b / OCTET < i {
        assert addr[..i][b / OCTET] == test[..i][b / OCTET];
      }
    }
  }
}
