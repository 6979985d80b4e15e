/**
 Text form of IPv4 prefixes (patricia.c:103-202 and 272-342): reading with
 my_inet_pton and ascii2prefix, writing with prefix_toa2x, and the round trip.
 */
module Ascii {
  import opened Common

  const MAXLINE := 1024
  const ADDRESS_OCTETS := 4
  const MAX_BITLEN := 32

  // ----- decimal numbers

  predicate IsDigit(c: char)
  {
    '0' <= c <= '9'
  }

  function DigitValue(c: char): nat
    requires IsDigit(c)
  {
    c as int - '0' as int
  }

  predicate AllDigits(s: string)
  {
    forall i :: 0 <= i < |s| ==> IsDigit(s[i])
  }

  function Value(s: string): nat
    requires AllDigits(s)
  {
    if s == [] then 0 else Value(s[..|s| - 1]) * 10 + DigitValue(s[|s| - 1])
  }

  // Length of the longest prefix of digits.
  function DigitRun(s: string): (n: nat)
    ensures n <= |s| && AllDigits(s[..n]) && (n < |s| ==> !IsDigit(s[n]))
  {
    if s == [] || !IsDigit(s[0]) then 0 else 1 + DigitRun(s[1..])
  }

  // The conversion %d.
  function Decimal(n: nat): (s: string)
    ensures s != [] && AllDigits(s)
  {
    if n < 10 then [('0' as int + n) as char]
    else Decimal(n / 10) + [('0' as int + n % 10) as char]
  }

  lemma {:induction false} DecimalValue(n: nat)
    ensures Value(Decimal(n)) == n
  {
    if n >= 10 {
      DecimalValue(n / 10);
      var s := Decimal(n);
      assert s[..|s| - 1] == Decimal(n / 10);
    }
  }

  lemma {:induction false} RunOfDigits(s: string, rest: string)
    requires AllDigits(s) && (rest != [] ==> !IsDigit(rest[0]))
    ensures DigitRun(s + rest) == |s|
  {
    if s == [] {
      assert s + rest == rest;
    } else {
      assert (s + rest)[1..] == s[1..] + rest;
      RunOfDigits(s[1..], rest);
    }
  }

  lemma {:induction false} ValueGrows(s: string, n: nat)
    requires AllDigits(s) && n <= |s|
    ensures Value(s[..n]) <= Value(s)
    decreases |s|
  {
    if n < |s| {
      assert s[..|s| - 1][..n] == s[..n];
      ValueGrows(s[..|s| - 1], n);
    } else {
      assert s[..n] == s;
    }
  }

  // ----- dotted addresses

  // One or more decimal octets with dots between them.
  function Parse(s: string): Option<seq<Octet>>
  {
    var n := DigitRun(s);
    if n == 0 || Value(s[..n]) > 255 then None
    else if n == |s| then Some([Value(s[..n])])
    else if s[n] != '.' then None
    else
      match Parse(s[n + 1..])
      case None => None
      case Some(rest) => Some([Value(s[..n])] + rest)
  }

  function Format(octets: seq<Octet>): string
  {
    if |octets| == 0 then []
    else if |octets| == 1 then Decimal(octets[0])
    else Decimal(octets[0]) + "." + Format(octets[1..])
  }

  lemma {:induction false} ParseFormat(octets: seq<Octet>)
    requires |octets| >= 1
    ensures Parse(Format(octets)) == Some(octets)
  {
    hide Decimal, DigitRun, Value;
    var d := Decimal(octets[0]);
    DecimalValue(octets[0]);
    if |octets| == 1 {
      RunOfDigits(d, []);
      assert d + [] == d && d[..|d|] == d && octets == [octets[0]];
    } else {
      var s, rest := Format(octets), "." + Format(octets[1..]);
      assert s == d + rest;
      RunOfDigits(d, rest);
      assert s[..|d|] == d && s[|d| + 1..] == Format(octets[1..]);
      ParseFormat(octets[1..]);
      assert [octets[0]] + octets[1..] == octets;
    }
  }

  function Join(parts: seq<string>): string
  {
    if |parts| == 0 then [] else if |parts| == 1 then parts[0] else parts[0] + "." + Join(parts[1..])
  }

  // A dotted list of one or more decimal numbers up to 255 (leading zeros included).
  ghost predicate Dotted(s: string, parts: seq<string>)
  {
    |parts| >= 1 && s == Join(parts) && forall i :: 0 <= i < |parts| ==> IsOctet(parts[i])
  }

  predicate IsOctet(s: string)
  {
    s != [] && AllDigits(s) && Value(s) <= 255
  }

  function Values(parts: seq<string>): (r: seq<Octet>)
    requires forall i :: 0 <= i < |parts| ==> IsOctet(parts[i])
    ensures |r| == |parts|
  {
    if |parts| == 0 then [] else assert IsOctet(parts[0]); [Value(parts[0])] + Values(parts[1..])
  }

  // What is accepted is a dotted list ...
  lemma {:induction false} ParsedIsDotted(s: string) returns (parts: seq<string>)
    requires Parse(s).Some?
    ensures Dotted(s, parts) && Parse(s).value == Values(parts)
  {
    hide DigitRun, Value;
    var n := DigitRun(s);
    if n == |s| {
      assert s[..n] == s;
      parts := [s];
      assert parts[1..] == [];
    } else {
      var rest := ParsedIsDotted(s[n + 1..]);
      parts := [s[..n]] + rest;
      assert s == s[..n] + "." + s[n + 1..];
      assert parts[1..] == rest && IsOctet(parts[0]);
      assert Values(parts) == [Value(s[..n])] + Values(rest);
    }
  }

  // ... and every dotted list is accepted, with the values of its parts.
  lemma {:induction false} DottedIsParsed(s: string, parts: seq<string>)
    requires Dotted(s, parts)
    ensures Parse(s) == Some(Values(parts))
    decreases |parts|
  {
    hide DigitRun, Value;
    var d := parts[0];
    assert IsOctet(d);
    if |parts| == 1 {
      RunOfDigits(d, []);
      assert d + [] == d && d[..|d|] == d;
      assert s == d && DigitRun(s) == |s|;
      assert Values(parts) == [Value(d)];
      assert Parse(s) == Some([Value(d)]);
    } else {
      var rest := "." + Join(parts[1..]);
      assert s == d + rest;
      RunOfDigits(d, rest);
      assert s[..|d|] == d && s[|d| + 1..] == Join(parts[1..]);
      DottedIsParsed(Join(parts[1..]), parts[1..]);
    }
  }

  // Digit strings are decimal numbers: the digits of t stand below those of s.
  lemma {:induction false} ValueConcat(s: string, t: string)
    requires AllDigits(s) && AllDigits(t)
    ensures Value(s + t) == Value(s) * Power10(|t|) + Value(t)
  {
    if t == [] {
      assert s + t == s;
    } else {
      var n := |t| - 1;
      ValueConcat(s, t[..n]);
      assert (s + t)[..|s + t| - 1] == s + t[..n];
      assert Value(s + t) == Value(s + t[..n]) * 10 + DigitValue(t[n]);
      assert Value(t) == Value(t[..n]) * 10 + DigitValue(t[n]);
      assert Power10(|t|) == 10 * Power10(n);
      TenTimes(Value(s), Power10(n));
      hide Value, Power10;
    }
  }

  lemma TenTimes(a: nat, b: nat)
    ensures a * b * 10 == a * (10 * b)
  {
  }

  lemma DigitValues()
    ensures Value("0") == 0 && Value("1") == 1 && Value("2") == 2 && Value("3") == 3 && Value("4") == 4
    ensures Value("5") == 5 && Value("6") == 6 && Value("7") == 7 && Value("8") == 8 && Value("9") == 9
  {
  }

  // So reading accepts exactly the dotted lists.
  lemma AcceptsDotted(s: string)
    ensures Parse(s).Some? <==> exists parts :: Dotted(s, parts)
    ensures forall parts :: Dotted(s, parts) ==> Parse(s) == Some(Values(parts))
  {
    if Parse(s).Some? {
      var parts := ParsedIsDotted(s);
    }
    forall parts | Dotted(s, parts) ensures Parse(s) == Some(Values(parts)) {
      DottedIsParsed(s, parts);
    }
  }

  // The octets of an address are the numbers in its text; missing low octets read as zero.
  ghost predicate IsAddress(octets: seq<Octet>, parts: seq<string>)
  {
    |octets| == ADDRESS_OCTETS &&
    forall i :: 0 <= i < ADDRESS_OCTETS ==>
      if i < |parts| then IsOctet(parts[i]) && octets[i] == Value(parts[i]) else octets[i] == 0
  }

  lemma SameAddress(a: seq<Octet>, b: seq<Octet>, parts: seq<string>)
    requires IsAddress(a, parts) && IsAddress(b, parts)
    ensures a == b && |a| == ADDRESS_OCTETS
  {
    forall i | 0 <= i < ADDRESS_OCTETS ensures a[i] == b[i] {
    }
  }

  lemma {:induction false} ValuesAt(parts: seq<string>, i: nat)
    requires i < |parts| && forall j :: 0 <= j < |parts| ==> IsOctet(parts[j])
    ensures Values(parts)[i] == Value(parts[i])
  {
    if i > 0 {
      ValuesAt(parts[1..], i - 1);
    }
  }

  lemma PaddedIsAddress(parts: seq<string>)
    requires |parts| <= ADDRESS_OCTETS && forall i :: 0 <= i < |parts| ==> IsOctet(parts[i])
    ensures IsAddress(Padded(Values(parts)), parts)
  {
    forall i | 0 <= i < |parts| ensures Values(parts)[i] == Value(parts[i]) {
      ValuesAt(parts, i);
    }
  }

  function Padded(octets: seq<Octet>): seq<Octet>
    requires |octets| <= ADDRESS_OCTETS
  {
    octets + seq(ADDRESS_OCTETS - |octets|, _ => 0)
  }

  function Prepend(done: seq<Octet>, rest: Option<seq<Octet>>): Option<seq<Octet>>
  {
    match rest
    case None => None
    case Some(octets) => Some(done + octets)
  }

  // The character at a position of a C string.
  function CharAt(s: string, i: nat): char
  {
    if i < |s| then s[i] else '\0'
  }

  /**
   my_inet_pton (patricia.c:104-142) for AF_INET.  It accepts exactly one to
   four dotted octets, and its index into the four-octet buffer stays in range.
   */
  method InetPton(src: string) returns (code: int, dst: seq<Octet>)
    requires '\0' !in src
    ensures code == 1 <==> Parse(src).Some? && |Parse(src).value| <= ADDRESS_OCTETS
    ensures code == 1 ==> dst == Padded(Parse(src).value)
    ensures code == 1 <==> exists parts :: Dotted(src, parts) && |parts| <= ADDRESS_OCTETS
    ensures forall parts :: Dotted(src, parts) && |parts| <= ADDRESS_OCTETS ==> IsAddress(dst, parts)
    ensures code == 1 || code == 0 || code == -1
  {
    hide Parse, DigitRun, Value, Dotted, Values, IsAddress;
    AcceptedAddress(src);
    dst := [];
    var xp := new Octet[ADDRESS_OCTETS](_ => 0);
    var i, pos := 0, 0;
    ghost var done: seq<Octet> := [];
    PrependNone(Parse(src));
    assert src[0..] == src;
    while true
      invariant 0 <= i < ADDRESS_OCTETS && 0 <= pos <= |src|
      invariant xp[..i] == done && Parse(src) == Prepend(done, Parse(src[pos..]))
      invariant forall j :: i <= j < ADDRESS_OCTETS ==> xp[j] == 0
      decreases ADDRESS_OCTETS - i
    {
      var c, n, val := ReadOctet(src, pos);
      ghost var rest := src[pos..];
      ParseCases(rest);
      if n == 0 {
        return -1, [];
      }
      if val > 255 {
        return 0, [];
      }
      xp[i] := val;
      done := done + [val];
      if c == '\0' {
        assert n == |rest|;
        assert xp[..] == Padded(done);
        dst := xp[..];
        return 1, dst;
      }
      if c != '.' {
        return 0, [];
      }
      assert rest[n + 1..] == src[pos + n + 1..];
      PrependTwice(xp[..i], val, Parse(src[pos + n + 1..]));
      if i >= 3 {
        ParseCases(src[pos + n + 1..]);
        return 0, [];
      }
      i, pos := i + 1, pos + n + 1;
    }
  }

  // How parsing goes on after the first octet.
  lemma ParseCases(s: string)
    ensures var n := DigitRun(s);
      if n == 0 || Value(s[..n]) > 255 then Parse(s) == None
      else if n == |s| then Parse(s) == Some([Value(s[..n])])
      else if s[n] != '.' then Parse(s) == None
      else Parse(s) == Prepend([Value(s[..n])], Parse(s[n + 1..]))
    ensures Parse(s).Some? ==> |Parse(s).value| >= 1
  {
    hide DigitRun, Value;
  }

  lemma PrependNone(rest: Option<seq<Octet>>)
    ensures Prepend([], rest) == rest
  {
    if rest.Some? {
      assert [] + rest.value == rest.value;
    }
  }

  lemma PrependTwice(done: seq<Octet>, v: Octet, rest: Option<seq<Octet>>)
    ensures Prepend(done, Prepend([v], rest)) == Prepend(done + [v], rest)
    ensures rest.Some? ==> |Prepend(done + [v], rest).value| == |done| + 1 + |rest.value|
  {
    if rest.Some? {
      assert done + ([v] + rest.value) == done + [v] + rest.value;
    }
  }

  // One octet: its digits, and the character after them (patricia.c:112-121).
  method ReadOctet(src: string, start: nat) returns (c: char, n: nat, val: nat)
    requires '\0' !in src && start <= |src|
    ensures n <= DigitRun(src[start..]) && (n == 0 <==> DigitRun(src[start..]) == 0)
    ensures val <= 255 && n > 0 ==>
      n == DigitRun(src[start..]) && val == Value(src[start..][..n]) && c == CharAt(src, start + n)
    ensures val > 255 ==> n > 0 && Value(src[start..][..DigitRun(src[start..])]) > 255
  {
    ghost var s, run := src[start..], DigitRun(src[start..]);
    c, n, val := CharAt(src, start), 0, 0;
    if !IsDigit(c) {
      return;
    }
    while IsDigit(c)
      invariant n <= run && c == CharAt(src, start + n) && val == Value(s[..n]) && val <= 255
      invariant n == 0 ==> IsDigit(c)
      decreases run - n
    {
      assert n < run;
      assert s[..n + 1][..n] == s[..n];
      val := val * 10 + DigitValue(c);
      n := n + 1;
      if val > 255 {
        ValueGrows(s[..run], n);
        assert s[..run][..n] == s[..n];
        return;
      }
      c := CharAt(src, start + n);
    }
  }

  // ----- prefixes

  predicate IsSpace(c: char)
  {
    c == ' ' || '\t' <= c <= '\r'
  }

  function SkipSpace(s: string): string
  {
    if s != [] && IsSpace(s[0]) then SkipSpace(s[1..]) else s
  }

  // The library function atol, on numbers that do not overflow.
  function Atol(s: string): int
  {
    var t := SkipSpace(s);
    var negative := t != [] && t[0] == '-';
    var u := if t != [] && (t[0] == '-' || t[0] == '+') then t[1..] else t;
    var v: int := Value(u[..DigitRun(u)]);
    if negative then -v else v
  }

  // Position of the first '/', or the length.
  function SlashAt(s: string): (n: nat)
    ensures n <= |s| && '/' !in s[..n] && (n < |s| ==> s[n] == '/')
  {
    if s == [] || s[0] == '/' then 0 else 1 + SlashAt(s[1..])
  }

  // The length as an unsigned number, cut back to the longest one.
  function BitlenOf(v: int): nat
  {
    if v < 0 || v > MAX_BITLEN then MAX_BITLEN else v
  }

  // The prefix a text stands for: the address before the first slash, the length after it.
  function Read(text: string): (r: Option<(seq<Octet>, nat)>)
    ensures r.Some? ==> |r.value.0| == ADDRESS_OCTETS && r.value.1 <= MAX_BITLEN
  {
    var n := SlashAt(text);
    match Parse(text[..n])
    case None => None
    case Some(octets) =>
      if |octets| > ADDRESS_OCTETS then None
      else Some((Padded(octets), if n < |text| then BitlenOf(Atol(text[n + 1..])) else MAX_BITLEN))
  }

  // The text is an address, a slash, and something after it.
  ghost predicate Slashed(text: string, parts: seq<string>, rest: string)
  {
    Dotted(Join(parts), parts) && |parts| <= ADDRESS_OCTETS && text == Join(parts) + "/" + rest
  }

  // An optional sign and digits, and perhaps something else behind them.
  ghost predicate StartsWithNumber(rest: string, sign: string, digits: string)
  {
    && (sign == "" || sign == "+" || sign == "-") && AllDigits(digits) && sign + digits <= rest
    && (|sign + digits| < |rest| ==> !IsDigit(rest[|sign + digits|]))
    && (sign == "" ==> digits != "")
  }

  // Nothing that could be a number, not even after spaces.
  predicate NoNumber(rest: string)
  {
    rest == "" || !(IsDigit(rest[0]) || IsSpace(rest[0]) || rest[0] == '+' || rest[0] == '-')
  }

  ghost predicate AfterSpaces(rest: string, spaces: string, tail: string)
  {
    rest == spaces + tail && forall i :: 0 <= i < |spaces| ==> IsSpace(spaces[i])
  }

  // The length is the number behind any spaces if that is 0 to 32, and else 32;
  // without a number it is 0.
  ghost predicate ReadsLength(rest: string, len: nat)
  {
    forall spaces, tail :: AfterSpaces(rest, spaces, tail) ==>
      && (NoNumber(tail) ==> len == 0)
      && forall sign, digits :: StartsWithNumber(tail, sign, digits) ==>
        len == if sign == "-" && Value(digits) > 0 then 32 else if Value(digits) <= 32 then Value(digits) else 32
  }

  // Without a slash the whole text is the address, and the prefix is a host.
  lemma ReadHost(text: string, parts: seq<string>)
    requires Dotted(text, parts) && |parts| <= ADDRESS_OCTETS
    ensures '/' !in text && Read(text).Some? && IsAddress(Read(text).value.0, parts) && Read(text).value.1 == 32
  {
    DottedHasNoSlash(text, parts);
    assert SlashAt(text) == |text| && text[..|text|] == text;
    hide Parse, Values, Dotted;
    AcceptsDotted(text);
    hide Padded;
    PaddedIsAddress(parts) by { HasOctets(text, parts); }
  }

  lemma AcceptedAddress(src: string)
    ensures Parse(src).Some? && |Parse(src).value| <= ADDRESS_OCTETS
            <==> exists parts :: Dotted(src, parts) && |parts| <= ADDRESS_OCTETS
    ensures forall parts :: Dotted(src, parts) && |parts| <= ADDRESS_OCTETS ==>
      Parse(src).Some? && |Parse(src).value| <= ADDRESS_OCTETS && IsAddress(Padded(Parse(src).value), parts)
  {
    hide Parse, Padded, IsAddress, Values;
    AcceptsDotted(src);
    if Parse(src).Some? {
      var parts := ParsedIsDotted(src);
    }
    forall parts | Dotted(src, parts) && |parts| <= ADDRESS_OCTETS
      ensures IsAddress(Padded(Values(parts)), parts)
    {
      PaddedIsAddress(parts);
    }
  }

  lemma HasOctets(text: string, parts: seq<string>)
    requires Dotted(text, parts)
    ensures forall i :: 0 <= i < |parts| ==> IsOctet(parts[i])
  {
  }

  lemma {:induction false} DottedHasNoSlash(text: string, parts: seq<string>)
    requires Dotted(text, parts)
    ensures '/' !in text
    decreases |parts|
  {
    assert IsOctet(parts[0]);
    if |parts| > 1 {
      DottedHasNoSlash(Join(parts[1..]), parts[1..]);
    }
  }

  // With one, the length is read from what stands behind it.
  lemma ReadSlashed(text: string, parts: seq<string>, rest: string)
    requires Slashed(text, parts, rest)
    ensures Read(text).Some? && IsAddress(Read(text).value.0, parts) && ReadsLength(rest, Read(text).value.1)
  {
    var body := Join(parts);
    DottedHasNoSlash(body, parts);
    SlashAfter(body, rest);
    assert text[..|body|] == body && text[|body| + 1..] == rest;
    hide Parse, Values, Dotted, Atol;
    AcceptsDotted(body);
    hide Padded;
    PaddedIsAddress(parts) by { HasOctets(body, parts); }
    LengthRead(rest);
  }

  lemma LengthRead(rest: string)
    ensures ReadsLength(rest, BitlenOf(Atol(rest)))
  {
    hide Atol;
    forall spaces, tail | AfterSpaces(rest, spaces, tail)
      ensures NoNumber(tail) ==> Atol(rest) == 0
      ensures forall sign, digits :: StartsWithNumber(tail, sign, digits) ==> Atol(rest) == Signed(sign, Value(digits))
    {
      AtolSkips(rest, spaces, tail);
      if NoNumber(tail) {
        AtolNone(tail);
      }
      forall sign, digits | StartsWithNumber(tail, sign, digits) ensures Atol(tail) == Signed(sign, Value(digits)) {
        AtolNumber(tail, sign, digits);
      }
    }
  }

  lemma AtolNone(rest: string)
    requires NoNumber(rest)
    ensures Atol(rest) == 0
  {
  }

  lemma {:induction false} AtolSkips(rest: string, spaces: string, tail: string)
    requires AfterSpaces(rest, spaces, tail)
    ensures Atol(rest) == Atol(tail)
    decreases |spaces|
  {
    if spaces == "" {
      assert rest == tail;
    } else {
      assert rest[0] == spaces[0] && rest[1..] == spaces[1..] + tail;
      AtolSkips(rest[1..], spaces[1..], tail);
    }
  }

  function Signed(sign: string, n: int): int
  {
    if sign == "-" then -n else n
  }

  lemma AtolNumber(rest: string, sign: string, digits: string)
    requires StartsWithNumber(rest, sign, digits)
    ensures Atol(rest) == Signed(sign, Value(digits))
  {
    hide Value, DigitRun;
    var tail := rest[|sign + digits|..];
    assert rest == sign + digits + tail;
    var u := digits + tail;
    assert sign == "" ==> rest == u;
    assert sign != "" ==> rest[0] == sign[0] && rest[1..] == u;
    RunOfDigits(digits, tail);
    assert u[..|digits|] == digits;
  }

  lemma ReadIff(text: string)
    ensures Read(text).Some? <==> exists parts :: Dotted(text[..SlashAt(text)], parts) && |parts| <= ADDRESS_OCTETS
  {
    hide Parse, Dotted, Padded, Atol, IsAddress;
    AcceptedAddress(text[..SlashAt(text)]);
  }

  // What the code asserts before it copies the address into a buffer.
  predicate FitsLine(text: string)
  {
    SlashAt(text) < |text| ==> SlashAt(text) < MAXLINE
  }

  /** ascii2prefix (patricia.c:274-342) for AF_INET. */
  method Ascii2Prefix(text: string) returns (result: Option<(seq<Octet>, nat)>)
    requires '\0' !in text && FitsLine(text)
    ensures result == Read(text)
    ensures result.Some? <==>
      exists parts :: Dotted(text[..SlashAt(text)], parts) && |parts| <= ADDRESS_OCTETS
    ensures forall parts :: Dotted(text, parts) && |parts| <= ADDRESS_OCTETS ==>
      result.Some? && IsAddress(result.value.0, parts) && result.value.1 == 32
    ensures forall parts, rest :: Slashed(text, parts, rest) ==>
      result.Some? && IsAddress(result.value.0, parts) && ReadsLength(rest, result.value.1)
  {
    hide Parse, Atol, Dotted, Values, Slashed, ReadsLength, IsAddress;
    var n := SlashAt(text);
    var bitlen := MAX_BITLEN;
    var address := text;
    if n < |text| {
      var v := Atol(text[n + 1..]);
      assert n < MAXLINE;
      address := text[..n];
      bitlen := if v < 0 || v > MAX_BITLEN then MAX_BITLEN else v;
    }
    assert address == text[..n];
    var code, dst := InetPton(address);
    result := if code <= 0 then None else Some((dst, bitlen));
    assert result == Read(text);
    hide Read;
    forall parts | Dotted(text, parts) && |parts| <= ADDRESS_OCTETS
      ensures Read(text).Some? && IsAddress(Read(text).value.0, parts) && Read(text).value.1 == 32
    {
      ReadHost(text, parts);
    }
    forall parts, rest | Slashed(text, parts, rest)
      ensures Read(text).Some? && IsAddress(Read(text).value.0, parts) && ReadsLength(rest, Read(text).value.1)
    {
      ReadSlashed(text, parts, rest);
    }
  }

  /** prefix_toa2x with length (patricia.c:176-183). */
  function Toa(octets: seq<Octet>, bitlen: nat): string
    requires |octets| == ADDRESS_OCTETS
  {
    Decimal(octets[0]) + "." + Decimal(octets[1]) + "." + Decimal(octets[2]) + "." + Decimal(octets[3])
    + "/" + Decimal(bitlen)
  }

  lemma {:induction false} FormatHasNoSlash(octets: seq<Octet>)
    ensures forall i :: 0 <= i < |Format(octets)| ==> IsDigit(Format(octets)[i]) || Format(octets)[i] == '.'
  {
    if |octets| > 1 {
      FormatHasNoSlash(octets[1..]);
    }
  }

  lemma FormatFour(octets: seq<Octet>)
    requires |octets| == ADDRESS_OCTETS
    ensures Format(octets) ==
      Decimal(octets[0]) + "." + Decimal(octets[1]) + "." + Decimal(octets[2]) + "." + Decimal(octets[3])
  {
    hide Decimal;
    var o1, o2, o3 := octets[1..], octets[2..], octets[3..];
    assert o1[1..] == o2 && o2[1..] == o3 && |o3| == 1;
    assert Format(o3) == Decimal(octets[3]);
    assert Format(o2) == Decimal(octets[2]) + "." + Format(o3);
    assert Format(o1) == Decimal(octets[1]) + "." + Format(o2);
    assert Format(octets) == Decimal(octets[0]) + "." + Format(o1);
    DotsRegroup(Decimal(octets[0]), Decimal(octets[1]), Decimal(octets[2]), Decimal(octets[3]));
  }

  lemma DotsRegroup(a: string, b: string, c: string, d: string)
    ensures a + "." + (b + "." + (c + "." + d)) == a + "." + b + "." + c + "." + d
  {
    assert b + "." + (c + "." + d) == b + "." + c + "." + d;
    assert a + "." + (b + "." + c + "." + d) == a + "." + b + "." + c + "." + d;
  }

  lemma {:induction false} SlashAfter(s: string, rest: string)
    requires '/' !in s
    ensures SlashAt(s + "/" + rest) == |s|
  {
    if s == [] {
      assert s + "/" + rest == "/" + rest;
    } else {
      assert (s + "/" + rest)[1..] == s[1..] + "/" + rest;
      SlashAfter(s[1..], rest);
    }
  }

  lemma AtolDecimal(n: nat)
    ensures Atol(Decimal(n)) == n
  {
    var s := Decimal(n);
    DecimalValue(n);
    RunOfDigits(s, []);
    assert s + [] == s && s[..|s|] == s;
    assert IsDigit(s[0]);
  }

  lemma {:induction false} DecimalLength(n: nat, bound: nat, digits: nat)
    requires n < bound && digits >= 1 && bound <= Power10(digits)
    ensures |Decimal(n)| <= digits
  {
    if n >= 10 {
      DecimalLength(n / 10, Power10(digits - 1), digits - 1);
    }
  }

  function Power10(k: nat): nat
  {
    if k == 0 then 1 else 10 * Power10(k - 1)
  }

  // Reading back what was written gives the same prefix.
  lemma RoundTrip(octets: seq<Octet>, bitlen: nat)
    requires |octets| == ADDRESS_OCTETS && bitlen <= MAX_BITLEN
    ensures '\0' !in Toa(octets, bitlen) && FitsLine(Toa(octets, bitlen))
    ensures Read(Toa(octets, bitlen)) == Some((octets, bitlen))
  {
    hide Decimal, DigitRun, Value, Parse, Atol, Format;
    var body, len := Format(octets), Decimal(bitlen);
    var text := Toa(octets, bitlen);
    FormatFour(octets);
    FormatHasNoSlash(octets);
    assert text == body + "/" + len;
    SlashAfter(body, len);
    assert text[..|body|] == body && text[|body| + 1..] == len;
    ParseFormat(octets);
    AtolDecimal(bitlen);
    assert Padded(octets) == octets;
    forall i | 0 <= i < ADDRESS_OCTETS ensures |Decimal(octets[i])| <= 3 {
      DecimalLength(octets[i], 256, 3);
    }
  }

  /** The round trip as a computation, for every address and every length from 0 to 32. */
  method WriteAndRead(octets: seq<Octet>, bitlen: nat) returns (result: Option<(seq<Octet>, nat)>)
    requires |octets| == ADDRESS_OCTETS && bitlen <= MAX_BITLEN
    ensures result == Some((octets, bitlen))
  {
    RoundTrip(octets, bitlen);
    hide Read, FitsLine, Toa;
    result := Ascii2Prefix(Toa(octets, bitlen));
  }
}
