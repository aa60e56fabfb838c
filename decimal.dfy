/** The decimal conversions the controller relies on: Go's `strconv.Atoi`,
    `fmt.Sscanf(ip, "%d.%d.%d.%d", ...)` into four bytes, and `toNBO`
    (cmd/controller/main.go). Strings are sequences of characters; a
    character compares as its code point. */
module Decimal {
  import opened Bytes

  predicate IsDigit(c: char)
  {
    '0' <= c <= '9'
  }

  predicate AllDigits(s: string)
  {
    forall i :: 0 <= i < |s| ==> IsDigit(s[i])
  }

  function DigitValue(c: char): nat
    requires IsDigit(c)
  {
    (c as int) - ('0' as int)
  }

  /** The value of a string of decimal digits, read left to right. */
  function Value(s: string): nat
    requires AllDigits(s)
  {
    if s == [] then 0 else Value(s[..|s| - 1]) * 10 + DigitValue(s[|s| - 1])
  }

  function DigitChar(d: nat): (c: char)
    requires d < 10
    ensures IsDigit(c) && DigitValue(c) == d
  {
    ('0' as int + d) as char
  }

  /** The shortest decimal spelling of `n` (no leading zeros). */
  function Itoa(n: nat): (s: string)
    ensures |s| > 0 && AllDigits(s)
  {
    if n < 10 then [DigitChar(n)] else Itoa(n / 10) + [DigitChar(n % 10)]
  }

  /** Reading back the spelling of `n` gives `n`. */
  lemma {:induction false} ValueItoa(n: nat)
    ensures Value(Itoa(n)) == n
  {
    if n >= 10 {
      var s := Itoa(n);
      assert s[..|s| - 1] == Itoa(n / 10);
      ValueItoa(n / 10);
    }
  }

  // Range of Go's `int` on the 64-bit targets the controller runs on.
  const MIN_INT: int := -0x8000_0000_0000_0000
  const MAX_INT: int := 0x7FFF_FFFF_FFFF_FFFF

  /** The digits of an integer spelling once an optional leading sign is
      removed. */
  function Magnitude(s: string): string
  {
    if |s| > 0 && (s[0] == '-' || s[0] == '+') then s[1..] else s
  }

  /** `strconv.Atoi`: an optional `+` or `-`, then one or more decimal
      digits, and the value must fit in an `int`; anything else is an
      error. */
  function Atoi(s: string): (r: Option<int>)
    ensures r.Some? ==> MIN_INT <= r.value <= MAX_INT
    ensures r.Some? ==> Magnitude(s) != [] && AllDigits(Magnitude(s))
  {
    var digits := Magnitude(s);
    if digits == [] || !AllDigits(digits) then None
    else
      var v: int := if |s| > 0 && s[0] == '-' then -(Value(digits) as int) else Value(digits);
      if v < MIN_INT || v > MAX_INT then None else Some(v)
  }

  /** `strconv.Itoa`: the spelling of an integer, with `-` when negative. */
  function FormatInt(v: int): (s: string)
    ensures |s| > 0
  {
    if v < 0 then "-" + Itoa(-v) else Itoa(v)
  }

  /** `Atoi` reads back every `int` that `FormatInt` spells. */
  lemma AtoiFormatInt(v: int)
    requires MIN_INT <= v <= MAX_INT
    ensures Atoi(FormatInt(v)) == Some(v)
  {
    var s := FormatInt(v);
    var n: nat := if v < 0 then -v else v;
    assert Magnitude(s) == Itoa(n);
    ValueItoa(n);
    assert (|s| > 0 && s[0] == '-') <==> v < 0;
  }

  /** A character other than a digit, or a sign in the first position,
      makes `Atoi` fail; so do the empty string and a lone sign. */
  lemma AtoiRejects(s: string, i: nat)
    requires i < |s| && !IsDigit(s[i]) && !(i == 0 && (s[0] == '-' || s[0] == '+'))
    ensures Atoi(s) == None
  {
    if |s| > 0 && (s[0] == '-' || s[0] == '+') {
      assert Magnitude(s)[i - 1] == s[i];
    } else {
      assert Magnitude(s)[i] == s[i];
    }
  }

  lemma AtoiRejectsEmpty(s: string)
    requires s == "" || s == "-" || s == "+"
    ensures Atoi(s) == None
  {
  }

  // ---------------------------------------------------------------------
  // fmt.Sscanf(ip, "%d.%d.%d.%d", &b[0], &b[1], &b[2], &b[3]) into a [4]byte.

  /** The longest prefix of `s` made of decimal digits. */
  function DigitRun(s: string): (d: string)
    ensures |d| <= |s| && d == s[..|d|] && AllDigits(d)
    ensures |d| < |s| ==> !IsDigit(s[|d|])
  {
    if s != [] && IsDigit(s[0]) then [s[0]] + DigitRun(s[1..]) else []
  }

  /** One `%d` into a byte: at least one digit, taken greedily, and a value
      of at most 255; returns the byte and the unread rest. */
  function ScanByte(s: string): (r: Option<(u8, string)>)
    ensures r.Some? ==> |r.value.1| < |s|
  {
    var d := DigitRun(s);
    if d == [] || Value(d) > 255 then None else Some((Value(d), s[|d|..]))
  }

  /** What scanning did: the four bytes and how many fields were stored. */
  datatype Scan = Scan(bytes: seq<u8>, fields: nat)

  /** Scans fields `k`..3 of the format from `s` into `b`. Scanning stops at
      the first field that fails or the first missing `.`; fields stored
      before that point keep their values and the others are left as they
      were. Input after the fourth field is ignored. */
  function ScanFrom(s: string, k: nat, b: seq<u8>): (r: Scan)
    requires k <= 4 && |b| == 4
    ensures |r.bytes| == 4 && k <= r.fields <= 4
    ensures r.bytes[..k] == b[..k]
    ensures forall j :: r.fields <= j < 4 ==> r.bytes[j] == b[j]
    decreases 4 - k
  {
    if k == 4 then Scan(b, 4)
    else if k > 0 && (s == [] || s[0] != '.') then Scan(b, k)
    else
      var t := if k > 0 then s[1..] else s;
      match ScanByte(t)
      case None => Scan(b, k)
      case Some((v, rest)) => ScanFrom(rest, k + 1, b[k := v])
  }

  /** `fmt.Sscanf(ip, "%d.%d.%d.%d", ...)` into a zeroed `[4]byte`. */
  function ScanQuad(ip: string): (b: seq<u8>)
    ensures |b| == 4
  {
    ScanFrom(ip, 0, [0, 0, 0, 0]).bytes
  }

  /** `toNBO`: the scanned bytes read as a big-endian number. */
  function ToNBO(ip: string): u32
  {
    ReadBe32(ScanQuad(ip))
  }

  /** Bytes spelled in decimal and joined by dots. */
  function Spelled(bs: seq<u8>): string
    requires |bs| > 0
    decreases |bs|
  {
    if |bs| == 1 then Itoa(bs[0]) else Itoa(bs[0]) + ("." + Spelled(bs[1..]))
  }

  /** The usual spelling "a.b.c.d" of an IPv4 address. */
  function Dotted(a: u8, b: u8, c: u8, d: u8): string
  {
    Spelled([a, b, c, d])
  }

  /** A digit run followed by a non-digit is exactly the run. */
  lemma {:induction false} DigitRunPrefix(d: string, rest: string)
    requires AllDigits(d) && (rest == [] || !IsDigit(rest[0]))
    ensures DigitRun(d + rest) == d
  {
    if d != [] {
      assert (d + rest)[1..] == d[1..] + rest;
      DigitRunPrefix(d[1..], rest);
    }
  }

  /** Scanning the spelling of a byte followed by a non-digit reads the byte. */
  lemma ScanByteItoa(v: u8, rest: string)
    requires rest == [] || !IsDigit(rest[0])
    ensures ScanByte(Itoa(v) + rest) == Some((v, rest))
  {
    DigitRunPrefix(Itoa(v), rest);
    ValueItoa(v);
    assert (Itoa(v) + rest)[|Itoa(v)|..] == rest;
  }

  /** What precedes field `k` in the format: nothing for the first field,
      a dot for the others. */
  function Sep(k: nat): string
  {
    if k == 0 then "" else "."
  }

  /** Field `k` reads the spelling of a byte after its separator. */
  lemma ScanStep(k: nat, v: u8, rest: string, x: seq<u8>)
    requires k < 4 && |x| == 4 && (rest == [] || !IsDigit(rest[0]))
    ensures ScanFrom(Sep(k) + (Itoa(v) + rest), k, x) == ScanFrom(rest, k + 1, x[k := v])
  {
    var s := Sep(k) + (Itoa(v) + rest);
    var t := if k > 0 then s[1..] else s;
    assert t == Itoa(v) + rest;
    assert k > 0 ==> s != [] && s[0] == '.';
    ScanByteItoa(v, rest);
  }

  /** Scanning fields `k`..3 from their spelling stores exactly those bytes. */
  lemma {:induction false} ScanSpelled(bs: seq<u8>, k: nat, x: seq<u8>)
    requires k < 4 && |bs| == 4 - k && |x| == 4
    ensures ScanFrom(Sep(k) + Spelled(bs), k, x) == Scan(x[..k] + bs, 4)
    decreases 4 - k
  {
    var rest := if |bs| == 1 then [] else "." + Spelled(bs[1..]);
    assert Spelled(bs) == Itoa(bs[0]) + rest;
    ScanStep(k, bs[0], rest, x);
    var x' := x[k := bs[0]];
    if |bs| == 1 {
      assert x' == x[..k] + bs;
    } else {
      ScanSpelled(bs[1..], k + 1, x');
      assert x'[..k + 1] + bs[1..] == x[..k] + bs;
    }
  }

  /** Every field of a well-formed dotted quad is stored. */
  lemma ScanQuadDotted(a: u8, b: u8, c: u8, d: u8)
    ensures ScanQuad(Dotted(a, b, c, d)) == [a, b, c, d]
  {
    ScanSpelled([a, b, c, d], 0, [0, 0, 0, 0]);
    assert Sep(0) + Dotted(a, b, c, d) == Dotted(a, b, c, d);
  }

  /** `toNBO` of "a.b.c.d" is a·2^24 + b·2^16 + c·2^8 + d. */
  lemma ToNBODotted(a: u8, b: u8, c: u8, d: u8)
    ensures ToNBO(Dotted(a, b, c, d)) == a * 0x100_0000 + b * 0x1_0000 + c * 0x100 + d
  {
    ScanQuadDotted(a, b, c, d);
    assert [a, b, c, d][2..] == [c, d];
  }

  /** Bytes that are never scanned stay 0: the empty string, or any string
      that does not start with a digit, gives 0. */
  lemma ToNBONoDigits(ip: string)
    requires ip == [] || !IsDigit(ip[0])
    ensures ScanQuad(ip) == [0, 0, 0, 0] && ToNBO(ip) == 0
  {
  }

  /** Once a field fails, it and every later byte stay 0. */
  lemma ScanQuadStops(ip: string)
    ensures var r := ScanFrom(ip, 0, [0, 0, 0, 0]);
      r.bytes == ScanQuad(ip) && forall j :: r.fields <= j < 4 ==> r.bytes[j] == 0
  {
  }
}
