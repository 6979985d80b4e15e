/**
 The prefix generator of generate_prefix.py:3-205: a four-deep loop nest over
 the octets of an address with a cut-off, for prefix lengths 8 to 31.
 */
module PrefixGen {
  import opened Common

  // One line "network a.b.c.d/length".
  datatype Route = Route(a: int, b: int, c: int, d: int, length: nat)

  // ----- the simple enumeration

  lemma {:induction false} Pow2Sum(a: nat, b: nat)
    ensures Pow2(a + b) == Pow2(a) * Pow2(b)
  {
    if a > 0 {
      Pow2Sum(a - 1, b);
      assert Pow2(a + b) == 2 * (Pow2(a - 1) * Pow2(b));
    }
  }

  function Address(a: int, b: int, c: int, d: int): int
  {
    ((a * 256 + b) * 256 + c) * 256 + d
  }

  // The line for address v: no bit below the prefix length is set when v is a multiple of its unit.
  function RouteAt(v: int, length: nat): Route
  {
    Route(v / 256 / 256 / 256, v / 256 / 256 % 256, v / 256 % 256, v % 256, length)
  }

  lemma RouteAtAddress(a: int, b: int, c: int, d: int, length: nat)
    requires 0 <= b < 256 && 0 <= c < 256 && 0 <= d < 256
    ensures RouteAt(Address(a, b, c, d), length) == Route(a, b, c, d, length)
  {
    LastOctet((a * 256 + b) * 256 + c, d);
    LastOctet(a * 256 + b, c);
    LastOctet(a, b);
  }

  lemma LastOctet(x: int, d: int)
    requires 0 <= d < 256
    ensures (x * 256 + d) / 256 == x && (x * 256 + d) % 256 == d
  {
  }

  // Distance between neighbouring prefixes of a length.
  function Unit(length: nat): nat
    requires length <= 32
  {
    Pow2(32 - length)
  }

  // The first n prefixes of one length from address `start` on, in address order.
  function Block(start: int, length: nat, n: nat): (s: seq<Route>)
    requires length <= 32
    ensures |s| == n
  {
    seq(n, x requires 0 <= x < n => RouteAt(start + x * Unit(length), length))
  }

  // How many prefixes of a length there are with first octet in a..aMax.
  function Quota(a: int, aMax: int, length: nat): nat
    requires a <= aMax + 1 && 8 <= length
  {
    NonNegative(aMax + 1 - a, Pow2(length - 8));
    (aMax + 1 - a) * Pow2(length - 8)
  }

  lemma NonNegative(a: nat, b: nat)
    ensures a * b >= 0
  {
  }

  // All prefixes with first octet in a..aMax, ordered by length (8 .. upTo - 1) and address.
  function Enumeration(a: int, aMax: int, upTo: nat): seq<Route>
    requires a <= aMax + 1 && 8 <= upTo <= 32
  {
    if upTo == 8 then []
    else Enumeration(a, aMax, upTo - 1) + Block(Address(a, 0, 0, 0), upTo - 1, Quota(a, aMax, upTo - 1))
  }

  // For lengths 8 to 31 there are 2^24 - 1 of them for each first octet.
  lemma {:induction false} EnumerationSize(a: int, aMax: int, upTo: nat)
    requires a <= aMax + 1 && 8 <= upTo <= 32
    ensures |Enumeration(a, aMax, upTo)| == (aMax + 1 - a) * (Pow2(upTo - 8) - 1)
  {
    if upTo > 8 {
      EnumerationSize(a, aMax, upTo - 1);
      QuotaSum(aMax + 1 - a, Pow2(upTo - 9));
    }
  }

  lemma EnumerationTotal(lo: int, hi: int)
    requires lo <= hi + 1
    ensures |Enumeration(lo, hi, 32)| == (hi + 1 - lo) * 0xFFFFFF
  {
    EnumerationSize(lo, hi, 32);
    Pow2Of24();
  }

  lemma QuotaSum(k: int, p: int)
    ensures k * (p - 1) + k * p == k * (2 * p - 1)
  {
  }

  // ----- cut-off

  function Least(m: int, n: int): (r: int)
    ensures r <= m && r <= n && (r == m || r == n)
  {
    if m < n then m else n
  }

  function Cut(s: seq<Route>, limit: nat): (r: seq<Route>)
    ensures r <= s && |r| == Least(|s|, limit)
  {
    if |s| <= limit then s else s[..limit]
  }

  lemma CutFull(s: seq<Route>, more: seq<Route>, limit: nat)
    requires |s| >= limit
    ensures Cut(s + more, limit) == Cut(s, limit)
  {
  }

  // What printIPaddr is told: a dry run, a file to write to, or neither; and whether to show lines on the terminal.
  datatype Target = DryRun | ToFile | NoFile

  /** The class IPstat and printIPaddr (generate_prefix.py:3-66): counting and stopping. */
  class IPstat {
    const target: Target
    const output: bool
    var keep: bool
    var maxNum: int
    var counter: int
    var file: seq<Route>        // the lines of nodeFile
    var terminal: seq<Route>    // the lines shown
    var complaints: nat         // how often "File not exist" was shown

    constructor (num: int, target: Target, output: bool)
      ensures this.target == target && this.output == output
      ensures maxNum == num && counter == 0 && keep && file == [] && terminal == [] && complaints == 0
    {
      this.target, this.output := target, output;
      counter, maxNum, keep := 0, num, true;
      file, terminal, complaints := [], [], 0;
    }

    // At least one line is counted before the limit is looked at.
    ghost function Limit(): nat
      reads this`maxNum
    {
      if maxNum < 1 then 1 else maxNum
    }

    // What has been counted is the beginning of `wanted`, up to the limit; a dry
    // run writes none of it to the file.  Without a file nothing is counted.
    ghost predicate Shows(wanted: seq<Route>)
      reads this
    {
      if target.NoFile? then
        counter == 0 && keep && file == [] && terminal == [] && complaints == |wanted|
      else
        var lines := Cut(wanted, Limit());
        && counter == |lines| && (keep <==> |wanted| < Limit()) && complaints == 0
        && file == (if target.ToFile? then lines else [])
        && terminal == (if output then lines else [])
    }

    method Print(r: Route, ghost wanted: seq<Route>)
      requires Shows(wanted)
      modifies this`file, this`terminal, this`complaints, this`counter, this`keep
      ensures Shows(wanted + [r])
    {
      match target {
        case DryRun =>
          if keep {
            if output {
              terminal := terminal + [r];
            }
            counter := counter + 1;
          }
        case ToFile =>
          if keep {
            if output {
              terminal := terminal + [r];
            }
            file := file + [r];
            counter := counter + 1;
          }
        case NoFile =>
          complaints := complaints + 1;
          return;
      }
      if counter >= maxNum {
        keep := false;
      }
    }

    // Once writing has stopped it does not matter what else was wanted.
    lemma Stopped(wanted: seq<Route>, more: seq<Route>)
      requires Shows(wanted) && !keep
      ensures Shows(wanted + more)
    {
      CutFull(wanted, more, Limit());
    }
  }

  // ----- how far the nest has come

  // Number of prefixes from `start` on, `unit` apart, below address v.
  function Count(start: int, unit: nat, v: int): nat
    requires unit >= 1
    decreases if v <= start then 0 else v - start
  {
    if v <= start then 0 else 1 + Count(start, unit, v - unit)
  }

  lemma {:induction false} CountMonotone(start: int, unit: nat, v: int, w: int)
    requires unit >= 1 && v <= w
    ensures Count(start, unit, v) <= Count(start, unit, w)
    decreases if w <= start then 0 else w - start
  {
    if v > start {
      CountMonotone(start, unit, v - unit, w - unit);
    }
  }

  lemma {:induction false} CountExact(start: int, unit: nat, n: nat)
    requires unit >= 1
    ensures Count(start, unit, start + n * unit) == n
  {
    if n > 0 {
      MulPred(n, unit);
      CountExact(start, unit, n - 1);
    }
  }

  lemma MulPred(n: nat, unit: nat)
    requires n > 0
    ensures n * unit == (n - 1) * unit + unit && (unit >= 1 ==> n * unit >= 1)
  {
    assert (n - 1) * unit + unit == n * unit;
  }

  // v is the address of a prefix.
  ghost predicate Aligned(start: int, unit: nat, v: int)
    requires unit >= 1
  {
    v == start + Count(start, unit, v) * unit
  }

  lemma AlignedNext(start: int, unit: nat, v: int)
    requires unit >= 1 && Aligned(start, unit, v)
    ensures Count(start, unit, v + unit) == Count(start, unit, v) + 1 && Aligned(start, unit, v + unit)
  {
    var n := Count(start, unit, v);
    MulPred(n + 1, unit);
    CountExact(start, unit, n + 1);
  }

  // Steps of size `step` from v hit w.
  ghost predicate StepsTo(v: int, step: nat, w: int)
    requires step >= 1
    decreases w - v
  {
    v == w || (v < w && StepsTo(v + step, step, w))
  }

  lemma {:induction false} StepsToMultiple(w: int, step: nat, n: nat)
    requires step >= 1
    ensures StepsTo(w - n * step, step, w)
  {
    if n > 0 {
      MulPred(n, step);
      StepsToMultiple(w, step, n - 1);
    }
  }

  // The lines of this length that belong before address v.
  ghost function Listed(before: seq<Route>, start: int, length: nat, v: int): seq<Route>
    requires length <= 32
  {
    before + Block(start, length, Count(start, Unit(length), v))
  }

  // Everything before address v has been written, up to the limit; if writing goes on, v comes next.
  ghost predicate At(stat: IPstat, before: seq<Route>, start: int, length: nat, v: int)
    requires length <= 32
    reads stat
  {
    stat.Shows(Listed(before, start, length, v)) && (stat.keep ==> Aligned(start, Unit(length), v))
  }

  // Write the prefix at address v.
  method Emit(stat: IPstat, a: int, b: int, c: int, d: int, length: nat, ghost before: seq<Route>, ghost start: int)
    requires length <= 32 && 0 <= b < 256 && 0 <= c < 256 && 0 <= d < 256
    requires At(stat, before, start, length, Address(a, b, c, d)) && stat.keep
    modifies stat
    ensures stat.maxNum == old(stat.maxNum)
    ensures At(stat, before, start, length, Address(a, b, c, d) + Unit(length))
  {
    ghost var v := Address(a, b, c, d);
    AlignedNext(start, Unit(length), v);
    RouteAtAddress(a, b, c, d, length);
    ghost var n := Count(start, Unit(length), v);
    assert Block(start, length, n + 1) == Block(start, length, n) + [RouteAt(v, length)];
    assert Listed(before, start, length, v + Unit(length)) == Listed(before, start, length, v) + [RouteAt(v, length)];
    stat.Print(Route(a, b, c, d, length), Listed(before, start, length, v));
  }

  // When writing has stopped, the rest of the way makes no difference.
  lemma SkipAhead(stat: IPstat, before: seq<Route>, start: int, length: nat, v: int, w: int)
    requires length <= 32 && v <= w && At(stat, before, start, length, v) && !stat.keep
    ensures At(stat, before, start, length, w)
  {
    var n, m := Count(start, Unit(length), v), Count(start, Unit(length), w);
    CountMonotone(start, Unit(length), v, w);
    var more := Block(start, length, m)[n..];
    assert Block(start, length, n) == Block(start, length, m)[..n];
    assert Listed(before, start, length, v) + more == Listed(before, start, length, w);
    stat.Stopped(Listed(before, start, length, v), more);
  }

  // ----- the loop nest

  // Layer 4: the last octet, lengths 25 to 31 (generate_prefix.py:180-193).
  method Layer4(stat: IPstat, a: int, b: int, c: int, length: nat, step: nat,
                ghost before: seq<Route>, ghost start: int)
    requires length <= 32 && 0 <= b < 256 && 0 <= c < 256
    requires step == Unit(length) && StepsTo(0, step, 256)
    requires At(stat, before, start, length, Address(a, b, c, 0))
    modifies stat
    ensures stat.maxNum == old(stat.maxNum)
    ensures At(stat, before, start, length, Address(a, b, c + 1, 0))
  {
    hide Pow2;
    var d := 0;
    while d <= 255
      invariant 0 <= d && StepsTo(d, step, 256)
      invariant stat.maxNum == old(stat.maxNum)
      invariant At(stat, before, start, length, Address(a, b, c, d))
      decreases 256 - d
    {
      if !stat.keep {
        SkipAhead(stat, before, start, length, Address(a, b, c, d), Address(a, b, c + 1, 0));
        return;
      }
      Emit(stat, a, b, c, d, length, before, start);
      d := d + step;
    }
  }

  // What the length says about the octet it cuts: p full octets, q bits, and steps of `interval`.
  ghost predicate Geometry(length: nat, p: int, q: int, interval: nat)
  {
    && 8 <= length < 32 && p == length / 8 && q == length % 8 && interval >= 1
    && StepsTo(0, interval, 256) && StepsTo(0, 1, 256)
    && Unit(length) == (if p == 1 then interval * 0x10000 else if p == 2 then interval * 0x100 else interval)
    && (q == 0 ==> interval == 256)
  }

  lemma LengthGeometry(length: nat)
    requires 8 <= length < 32
    ensures Geometry(length, length / 8, length % 8, Pow2(8 - length % 8))
  {
    var p, q := length / 8, length % 8;
    var interval := Pow2(8 - q);
    Pow2Sum(8 - q, q);
    assert Pow2(8) == 256 by { Pow2Sum(4, 4); }
    StepsToMultiple(256, interval, Pow2(q));
    StepsToMultiple(256, 1, 256);
    assert interval * Pow2(q) == Pow2(q) * interval == 256;
    assert Pow2(16) == 0x10000 by { Pow2Sum(8, 8); }
    if p == 1 {
      Pow2Sum(8 - q, 16);
    } else if p == 2 {
      Pow2Sum(8 - q, 8);
    }
  }

  // Layer 3: the third octet (generate_prefix.py:164-197).
  method Layer3(stat: IPstat, a: int, b: int, length: nat, p: int, q: int, interval: nat,
                ghost before: seq<Route>, ghost start: int)
    requires Geometry(length, p, q, interval) && 0 <= b < 256
    requires p == 2 ==> q != 0
    requires p >= 2 && At(stat, before, start, length, Address(a, b, 0, 0))
    modifies stat
    ensures stat.maxNum == old(stat.maxNum)
    ensures At(stat, before, start, length, Address(a, b + 1, 0, 0))
  {
    hide Pow2;
    var step := if p == 2 then interval else 1;
    var c := 0;
    while c <= 255
      invariant 0 <= c && StepsTo(c, step, 256)
      invariant stat.maxNum == old(stat.maxNum)
      invariant At(stat, before, start, length, Address(a, b, c, 0))
      decreases 256 - c
    {
      if !stat.keep {
        SkipAhead(stat, before, start, length, Address(a, b, c, 0), Address(a, b + 1, 0, 0));
        return;
      }
      if q == 0 && p == 3 {
        Emit(stat, a, b, c, 0, length, before, start);
      } else if p == 2 {
        Emit(stat, a, b, c, 0, length, before, start);
      } else {
        Layer4(stat, a, b, c, length, interval, before, start);
      }
      c := c + step;
    }
  }

  // Layer 2: the second octet (generate_prefix.py:146-201).
  method Layer2(stat: IPstat, a: int, length: nat, p: int, q: int, interval: nat,
                ghost before: seq<Route>, ghost start: int)
    requires Geometry(length, p, q, interval)
    requires p == 1 ==> q != 0
    requires At(stat, before, start, length, Address(a, 0, 0, 0))
    modifies stat
    ensures stat.maxNum == old(stat.maxNum)
    ensures At(stat, before, start, length, Address(a + 1, 0, 0, 0))
  {
    hide Pow2;
    var step := if p == 1 then interval else 1;
    var b := 0;
    while b <= 255
      invariant 0 <= b && StepsTo(b, step, 256)
      invariant stat.maxNum == old(stat.maxNum)
      invariant At(stat, before, start, length, Address(a, b, 0, 0))
      decreases 256 - b
    {
      if !stat.keep {
        SkipAhead(stat, before, start, length, Address(a, b, 0, 0), Address(a + 1, 0, 0, 0));
        return;
      }
      if q == 0 && p == 2 {
        Emit(stat, a, b, 0, 0, length, before, start);
      } else if p == 1 {
        Emit(stat, a, b, 0, 0, length, before, start);
      } else {
        Layer3(stat, a, b, length, p, q, interval, before, start);
      }
      b := b + step;
    }
  }

  // Layer 1: the first octet (generate_prefix.py:136-205).
  method Layer1(stat: IPstat, lo: int, hi: int, length: nat, p: int, q: int, interval: nat, ghost before: seq<Route>)
    requires Geometry(length, p, q, interval) && lo <= hi + 1
    requires stat.Shows(before)
    modifies stat
    ensures stat.maxNum == old(stat.maxNum)
    ensures stat.Shows(before + Block(Address(lo, 0, 0, 0), length, Quota(lo, hi, length)))
  {
    ghost var start := Address(lo, 0, 0, 0);
    assert Listed(before, start, length, start) == before;
    var a := lo;
    while a <= hi
      invariant lo <= a <= hi + 1
      invariant stat.maxNum == old(stat.maxNum)
      invariant At(stat, before, start, length, Address(a, 0, 0, 0))
    {
      if !stat.keep {
        SkipAhead(stat, before, start, length, Address(a, 0, 0, 0), Address(hi + 1, 0, 0, 0));
        break;
      }
      if q == 0 && p == 1 {
        Emit(stat, a, 0, 0, 0, length, before, start);
      } else {
        Layer2(stat, a, length, p, q, interval, before, start);
      }
      a := a + 1;
    }
    QuotaReached(lo, hi, length);
  }

  lemma QuotaReached(lo: int, hi: int, length: nat)
    requires 8 <= length <= 32 && lo <= hi + 1
    ensures Count(Address(lo, 0, 0, 0), Unit(length), Address(hi + 1, 0, 0, 0)) == Quota(lo, hi, length)
  {
    hide Pow2;
    var k, m, u := hi + 1 - lo, Pow2(length - 8), Unit(length);
    Pow2Sum(length - 8, 32 - length);
    Pow2Of24();
    MulAssoc(k, m, u);
    assert Address(hi + 1, 0, 0, 0) == Address(lo, 0, 0, 0) + k * 0x1000000;
    CountExact(Address(lo, 0, 0, 0), u, k * m);
  }

  lemma Pow2Of24()
    ensures Pow2(24) == 0x1000000
  {
    Pow2Sum(8, 16);
    Pow2Sum(8, 8);
    Pow2Sum(4, 4);
  }

  lemma MulAssoc(k: int, m: int, u: int)
    ensures (k * m) * u == k * (m * u)
  {
  }

  lemma EnumerationStep(lo: int, hi: int, length: nat)
    requires lo <= hi + 1 && 8 <= length < 32
    ensures Enumeration(lo, hi, length + 1)
         == Enumeration(lo, hi, length) + Block(Address(lo, 0, 0, 0), length, Quota(lo, hi, length))
  {
  }

  lemma NothingYet(lo: int, hi: int)
    requires lo <= hi + 1
    ensures Enumeration(lo, hi, 8) == []
  {
  }

  /**
   generatePrefix (generate_prefix.py:84-205): the lines are the beginning of
   the enumeration by length and address, of length numPrefix but at least one
   and at most everything; the counter counts them.  A dry run counts the same
   lines but writes none; without a file all of them are only complained about.
   */
  method GeneratePrefix(i: int, numPrefix: int, target: Target, output: bool) returns (stat: IPstat)
    ensures fresh(stat)
    ensures var lo, hi := if i > 1 then i else 1, if i > 1 then i else 224;
      var all := Enumeration(lo, hi, 32);
      if target.NoFile? then
        stat.counter == 0 && stat.file == [] && stat.terminal == [] && stat.complaints == |all|
      else
        && stat.counter == Least(if numPrefix < 1 then 1 else numPrefix, (hi + 1 - lo) * 0xFFFFFF)
        && |stat.file| == (if target.ToFile? then stat.counter else 0)
        && |stat.terminal| == (if output then stat.counter else 0)
        && 0 <= stat.counter <= |all| && stat.complaints == 0
        && (forall j :: 0 <= j < |stat.file| ==> stat.file[j] == all[j])
        && (forall j :: 0 <= j < |stat.terminal| ==> stat.terminal[j] == all[j])
  {
    hide Enumeration, Block, Quota, Geometry, Pow2;
    stat := new IPstat(numPrefix, target, output);
    var lo, hi := 1, 224;
    if i > 1 {
      lo, hi := i, i;
    }
    assert Enumeration(lo, hi, 8) == [] by { NothingYet(lo, hi); }
    var length := 8;
    while length < 32
      invariant 8 <= length <= 32 && stat.maxNum == numPrefix
      invariant fresh(stat) && stat.target == target && stat.output == output
      invariant stat.Shows(Enumeration(lo, hi, length))
    {
      LengthGeometry(length);
      var p, q := length / 8, length % 8;
      var interval := Pow2(8 - q);
      EnumerationStep(lo, hi, length);
      Layer1(stat, lo, hi, length, p, q, interval, Enumeration(lo, hi, length));
      length := length + 1;
    }
    EnumerationTotal(lo, hi);
  }

  // ----- what the enumeration is

  // Shorter prefixes first, and by address among prefixes of one length.
  ghost predicate Before(r: Route, s: Route)
  {
    r.length < s.length || (r.length == s.length && Address(r.a, r.b, r.c, r.d) < Address(s.a, s.b, s.c, s.d))
  }

  ghost predicate WellPlaced(r: Route, lo: int, hi: int, upTo: nat)
  {
    && 8 <= r.length < upTo <= 32 && lo <= r.a <= hi
    && 0 <= r.b < 256 && 0 <= r.c < 256 && 0 <= r.d < 256
    && Address(r.a, r.b, r.c, r.d) % Unit(r.length) == 0
  }

  lemma AddressOfRoute(v: int, length: nat)
    ensures var r := RouteAt(v, length);
      Address(r.a, r.b, r.c, r.d) == v && 0 <= r.b < 256 && 0 <= r.c < 256 && 0 <= r.d < 256
  {
    var w, x := v / 256, v / 256 / 256;
    SplitOctet(v);
    SplitOctet(w);
    SplitOctet(x);
  }

  lemma SplitOctet(v: int)
    ensures v / 256 * 256 + v % 256 == v && 0 <= v % 256 < 256
  {
  }

  // The addresses of a block: multiples of the unit between the two ends.
  lemma BlockAddress(lo: int, hi: int, length: nat, x: nat)
    requires 8 <= length < 32 && lo <= hi + 1 && x < Quota(lo, hi, length)
    ensures var v := Address(lo, 0, 0, 0) + x * Unit(length);
      Address(lo, 0, 0, 0) <= v < Address(hi + 1, 0, 0, 0) && v % Unit(length) == 0
  {
    hide Pow2;
    var k, m, u := hi + 1 - lo, Pow2(length - 8), Unit(length);
    UnitDivides(length);
    MulAssoc(k, m, u);
    assert Address(hi + 1, 0, 0, 0) == Address(lo, 0, 0, 0) + k * 0x1000000;
    MulLess(x, k * m, u);
    MulAssoc(lo, m, u);
    MultipleMod(lo * m, x, u);
  }

  lemma UnitDivides(length: nat)
    requires 8 <= length < 32
    ensures Pow2(length - 8) * Unit(length) == 0x1000000
  {
    Pow2Sum(length - 8, 32 - length);
    Pow2Of24();
  }

  lemma MulLess(x: nat, n: nat, u: nat)
    requires x < n && u >= 1
    ensures 0 <= x * u < n * u
  {
    assert n * u == x * u + (n - x) * u;
  }

  lemma MultipleMod(a: int, b: int, u: nat)
    requires u >= 1
    ensures (a * u + b * u) % u == 0
  {
    assert a * u + b * u == (a + b) * u;
    ModOfMultiple(a + b, u);
  }

  lemma ModOfMultiple(n: int, u: nat)
    requires u >= 1
    ensures (n * u) % u == 0
  {
    var q, r := (n * u) / u, (n * u) % u;
    assert (n - q) * u == r;
    ProductSign(n - q, u);
  }

  lemma ProductSign(n: int, u: nat)
    requires u >= 1
    ensures n > 0 ==> n * u >= u
    ensures n < 0 ==> n * u + u <= 0
  {
    if n > 0 {
      MulLess(0, n, u);
      MulPred(n, u);
    } else if n < 0 {
      MulPred(-n, u);
      assert n * u == -((-n) * u);
    }
  }

  // Addresses compare octet by octet.
  lemma AddressOrder(a: int, b: int, c: int, d: int, e: int, f: int, g: int, h: int)
    requires 0 <= b < 256 && 0 <= c < 256 && 0 <= d < 256 && 0 <= f < 256 && 0 <= g < 256 && 0 <= h < 256
    ensures Address(a, b, c, d) < Address(e, f, g, h) <==>
      a < e || (a == e && (b < f || (b == f && (c < g || (c == g && d < h)))))
  {
  }

  // Every line has a proper length, a first octet in range, octets below 256 and zero host bits.
  lemma {:induction false} EnumerationPlaced(lo: int, hi: int, upTo: nat, j: nat)
    requires lo <= hi + 1 && 8 <= upTo <= 32 && j < |Enumeration(lo, hi, upTo)|
    ensures WellPlaced(Enumeration(lo, hi, upTo)[j], lo, hi, upTo)
  {
    var shorter := Enumeration(lo, hi, upTo - 1);
    if j < |shorter| {
      EnumerationPlaced(lo, hi, upTo - 1, j);
    } else {
      var x := j - |shorter|;
      BlockAddress(lo, hi, upTo - 1, x);
      AddressOfRoute(Address(lo, 0, 0, 0) + x * Unit(upTo - 1), upTo - 1);
    }
  }

  lemma BlockOrdered(start: int, length: nat, n: nat, i: nat, j: nat)
    requires length <= 32 && i < j < n
    ensures Before(Block(start, length, n)[i], Block(start, length, n)[j])
  {
    hide Pow2;
    var u := Unit(length);
    MulLess(i, j, u);
    AddressOfRoute(start + i * u, length);
    AddressOfRoute(start + j * u, length);
  }

  // Lines come in order, so that none comes twice.
  lemma {:induction false} EnumerationOrdered(lo: int, hi: int, upTo: nat, i: nat, j: nat)
    requires lo <= hi + 1 && 8 <= upTo <= 32 && i < j < |Enumeration(lo, hi, upTo)|
    ensures Before(Enumeration(lo, hi, upTo)[i], Enumeration(lo, hi, upTo)[j])
  {
    var shorter := Enumeration(lo, hi, upTo - 1);
    if j < |shorter| {
      EnumerationOrdered(lo, hi, upTo - 1, i, j);
    } else if i < |shorter| {
      EnumerationPlaced(lo, hi, upTo - 1, i);
    } else {
      BlockOrdered(Address(lo, 0, 0, 0), upTo - 1, Quota(lo, hi, upTo - 1), i - |shorter|, j - |shorter|);
    }
  }

  // And no prefix is left out.
  lemma {:induction false} EnumerationComplete(lo: int, hi: int, upTo: nat, r: Route)
    requires lo <= hi + 1 && 8 <= upTo <= 32 && WellPlaced(r, lo, hi, upTo)
    ensures r in Enumeration(lo, hi, upTo)
  {
    hide WellPlaced, Block, Quota;
    Shorter(r, lo, hi, upTo);
    if r.length < upTo - 1 {
      EnumerationComplete(lo, hi, upTo - 1, r);
    } else {
      InBlock(lo, hi, r);
    }
  }

  lemma Shorter(r: Route, lo: int, hi: int, upTo: nat)
    requires WellPlaced(r, lo, hi, upTo)
    ensures 8 <= r.length < upTo && WellPlaced(r, lo, hi, 32)
    ensures r.length < upTo - 1 ==> WellPlaced(r, lo, hi, upTo - 1)
  {
  }

  lemma InBlock(lo: int, hi: int, r: Route)
    requires lo <= hi + 1 && WellPlaced(r, lo, hi, 32)
    ensures r in Block(Address(lo, 0, 0, 0), r.length, Quota(lo, hi, r.length))
  {
    hide Pow2, Quota;
    var x := BlockIndex(lo, hi, r);
    var block := Block(Address(lo, 0, 0, 0), r.length, Quota(lo, hi, r.length));
    RouteAtAddress(r.a, r.b, r.c, r.d, r.length);
    hide RouteAt;
    assert block[x] == r;
  }

  lemma BlockIndex(lo: int, hi: int, r: Route) returns (x: nat)
    requires lo <= hi + 1 && WellPlaced(r, lo, hi, 32)
    ensures x < Quota(lo, hi, r.length)
    ensures Address(r.a, r.b, r.c, r.d) == Address(lo, 0, 0, 0) + x * Unit(r.length)
  {
    hide Pow2;
    var v, u := Address(r.a, r.b, r.c, r.d), Unit(r.length);
    var k, m := hi + 1 - lo, Pow2(r.length - 8);
    UnitDivides(r.length);
    MulAssoc(lo, m, u);
    MulAssoc(k, m, u);
    var q := v / u;
    assert v == q * u;
    x := 0;
    assert (q - lo * m) * u == v - Address(lo, 0, 0, 0);
    ProductSign(q - lo * m, u);
    assert (q - lo * m - k * m) * u == v - Address(hi + 1, 0, 0, 0);
    ProductSign(q - lo * m - k * m, u);
    x := q - lo * m;
  }
}
