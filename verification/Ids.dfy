/** Identifiers: eight bytes of a millisecond clock and ten random bytes, in the base32 of section 6 of
    RFC 4648 over an ascending alphabet, cut to 25 characters. */
module Ids {
  import opened Common

  const ALPHABET := "0123456789abcdefghjkmnpqrstvwxyz"

  // ----- Base 256 and base 32

  function Pow(b: nat, n: nat): (r: nat)
    ensures b > 0 ==> r > 0
  {
    if n == 0 then 1 else b * Pow(b, n - 1)
  }

  /** The number some bytes spell, most significant first. */
  function Value256(s: seq<byte>): nat {
    if s == [] then 0 else Value256(s[..|s| - 1]) * 256 + s[|s| - 1] as nat
  }

  function CharOf(d: nat): char
    requires d < 32
  {
    if d < 10 then '0' + d as char
    else if d < 18 then 'a' + (d - 10) as char
    else if d < 20 then 'j' + (d - 18) as char
    else if d < 22 then 'm' + (d - 20) as char
    else if d < 27 then 'p' + (d - 22) as char
    else 'v' + (d - 27) as char
  }

  lemma CharOfIsAlphabet(d: nat)
    requires d < 32
    ensures CharOf(d) == ALPHABET[d]
  {
  }

  lemma Ascending(c: nat, d: nat)
    requires c < d < 32
    ensures CharOf(c) < CharOf(d)
  {
  }

  predicate IsDigit(c: char) {
    '0' <= c <= '9' || 'a' <= c <= 'h' || 'j' <= c <= 'k' || 'm' <= c <= 'n' || 'p' <= c <= 't' || 'v' <= c <= 'z'
  }

  function DigitOf(c: char): (d: nat)
    ensures d < 32
    ensures IsDigit(c) ==> CharOf(d) == c
  {
    if '0' <= c <= '9' then (c - '0') as nat
    else if 'a' <= c <= 'h' then (c - 'a') as nat + 10
    else if 'j' <= c <= 'k' then (c - 'j') as nat + 18
    else if 'm' <= c <= 'n' then (c - 'm') as nat + 20
    else if 'p' <= c <= 't' then (c - 'p') as nat + 22
    else if 'v' <= c <= 'z' then (c - 'v') as nat + 27
    else 0
  }

  /** The number some characters spell in base 32. */
  function Value32(s: string): nat {
    if s == "" then 0 else Value32(s[..|s| - 1]) * 32 + DigitOf(s[|s| - 1])
  }

  predicate AllDigits(s: string) {
    forall k :: 0 <= k < |s| ==> IsDigit(s[k])
  }

  // ----- Order

  /** The order of strings by their first differing character. */
  ghost predicate LexLess(a: string, b: string) {
    a < b || exists k :: 0 <= k < |a| && k < |b| && a[..k] == b[..k] && a[k] < b[k]
  }

  lemma DigitOrder(c: char, d: char)
    requires IsDigit(c) && IsDigit(d)
    ensures c < d <==> DigitOf(c) < DigitOf(d)
    ensures c == d <==> DigitOf(c) == DigitOf(d)
  {
  }

  lemma {:induction false} ValueDetermines(a: string, b: string)
    requires |a| == |b| && AllDigits(a) && AllDigits(b) && Value32(a) == Value32(b)
    ensures a == b
  {
    if a != "" {
      var n := |a| - 1;
      DigitOrder(a[n], b[n]);
      ValueDetermines(a[..n], b[..n]);
      assert a == a[..n] + [a[n]] && b == b[..n] + [b[n]];
    }
  }

  lemma {:induction false} LessIfValueLess(a: string, b: string)
    requires |a| == |b| && AllDigits(a) && AllDigits(b) && Value32(a) < Value32(b)
    ensures exists k :: 0 <= k < |a| && a[..k] == b[..k] && a[k] < b[k]
  {
    var n := |a| - 1;
    DigitOrder(a[n], b[n]);
    if Value32(a[..n]) == Value32(b[..n]) {
      ValueDetermines(a[..n], b[..n]);
    } else {
      LessIfValueLess(a[..n], b[..n]);
      var k :| 0 <= k < n && a[..n][..k] == b[..n][..k] && a[..n][k] < b[..n][k];
      assert a[..n][..k] == a[..k] && b[..n][..k] == b[..k];
    }
  }

  lemma {:induction false} ValueLessIfLess(a: string, b: string, k: nat)
    requires |a| == |b| && AllDigits(a) && AllDigits(b)
    requires k < |a| && a[..k] == b[..k] && a[k] < b[k]
    ensures Value32(a) < Value32(b)
  {
    var n := |a| - 1;
    DigitOrder(a[n], b[n]);
    if k < n {
      assert a[..n][..k] == a[..k] && b[..n][..k] == b[..k];
      ValueLessIfLess(a[..n], b[..n], k);
    }
  }

  /** Among ids of one length, the order of strings is the order of the numbers they spell. */
  lemma OrderIsValue(a: string, b: string)
    requires |a| == |b| && AllDigits(a) && AllDigits(b)
    ensures LexLess(a, b) <==> Value32(a) < Value32(b)
    ensures a == b <==> Value32(a) == Value32(b)
  {
    hide Value32, AllDigits;
    if Value32(a) < Value32(b) {
      LessIfValueLess(a, b);
    }
    if LexLess(a, b) {
      var k :| 0 <= k < |a| && k < |b| && a[..k] == b[..k] && a[k] < b[k];
      ValueLessIfLess(a, b, k);
    }
    if Value32(a) == Value32(b) {
      ValueDetermines(a, b);
    }
  }

  // ----- The encoding

  /** The last 5n bits of a number, five to a character. */
  function Chars(v: nat, n: nat): (r: string)
    ensures |r| == n && AllDigits(r)
  {
    if n == 0 then "" else Chars(v / 32, n - 1) + [CharOf(v % 32)]
  }

  /** How many characters the last bytes, fewer than five, take without padding. */
  function PartLength(n: nat): (r: nat)
    ensures r < 8
  {
    if n == 0 then 0 else if n == 1 then 2 else if n == 2 then 4 else if n == 3 then 5 else 7
  }

  function Zeros(n: nat): (r: seq<byte>)
    ensures |r| == n
  {
    seq(n, k => 0)
  }

  function Encode(s: seq<byte>): string {
    if |s| >= 5 then Chars(Value256(s[..5]), 8) + Encode(s[5..])
    else Chars(Value256(s + Zeros(5 - |s|)), 8)[..PartLength(|s|)]
  }

  function ToLower(s: string): (r: string)
    ensures |r| == |s|
  {
    if s == "" then ""
    else
      var c := s[|s| - 1];
      ToLower(s[..|s| - 1]) + [if 'A' <= c <= 'Z' then c + ('a' - 'A') else c]
  }

  lemma {:induction false} LowerIsSame(s: string)
    requires AllDigits(s)
    ensures ToLower(s) == s
  {
    if s != "" {
      LowerIsSame(s[..|s| - 1]);
      assert s == s[..|s| - 1] + [s[|s| - 1]];
    }
  }

  lemma CharDigit(d: nat)
    requires d < 32
    ensures IsDigit(CharOf(d)) && DigitOf(CharOf(d)) == d
  {
  }

  lemma Value32Push(s: string, c: char)
    ensures Value32(s + [c]) == Value32(s) * 32 + DigitOf(c)
  {
    assert (s + [c])[..|s|] == s;
  }

  lemma {:induction false} CharsValue(v: nat, n: nat)
    requires v < Pow(32, n)
    ensures Value32(Chars(v, n)) == v
  {
    hide CharOf, DigitOf, IsDigit;
    if n > 0 {
      assert v / 32 < Pow(32, n - 1);
      CharsValue(v / 32, n - 1);
      CharDigit(v % 32);
      var front, last := Chars(v / 32, n - 1), CharOf(v % 32);
      Value32Push(front, last);
      assert Value32(front + [last]) == v / 32 * 32 + v % 32;
    }
  }

  lemma {:induction false} Value32Add(x: string, y: string)
    ensures Value32(x + y) == Value32(x) * Pow(32, |y|) + Value32(y)
  {
    hide DigitOf;
    if y == "" {
      assert x + y == x;
    } else {
      var n := |y| - 1;
      Value32Add(x, y[..n]);
      assert (x + y)[..|x + y| - 1] == x + y[..n];
      MulAssoc(Value32(x), Pow(32, n), 32);
    }
  }

  lemma {:induction false} Value256Add(x: seq<byte>, y: seq<byte>)
    ensures Value256(x + y) == Value256(x) * Pow(256, |y|) + Value256(y)
  {
    if y == [] {
      assert x + y == x;
    } else {
      var n := |y| - 1;
      Value256Add(x, y[..n]);
      assert (x + y)[..|x + y| - 1] == x + y[..n];
      MulAssoc(Value256(x), Pow(256, n), 256);
    }
  }

  lemma {:induction false} Value256Below(s: seq<byte>)
    ensures Value256(s) < Pow(256, |s|)
  {
    if s != [] {
      Value256Below(s[..|s| - 1]);
    }
  }

  lemma {:induction false} PowSame(m: nat)
    ensures Pow(32, 8 * m) == Pow(256, 5 * m)
  {
    if m > 0 {
      PowSame(m - 1);
      PowAdd(32, 8 * (m - 1), 8);
      PowAdd(256, 5 * (m - 1), 5);
      EightFives();
    }
  }

  lemma EightFives()
    ensures Pow(32, 8) == Pow(256, 5) == 0x100_0000_0000
  {
    assert Pow(32, 2) == 1024 && Pow(32, 4) == 1024 * 1024;
    assert Pow(256, 2) == 65536 && Pow(256, 4) == 65536 * 65536;
  }

  lemma {:induction false} PowAdd(b: nat, m: nat, n: nat)
    ensures Pow(b, m + n) == Pow(b, m) * Pow(b, n)
  {
    if n > 0 {
      PowAdd(b, m, n - 1);
      Exchange(b, Pow(b, m), Pow(b, n - 1));
    }
  }

  lemma Exchange(a: int, b: int, c: int)
    ensures a * (b * c) == b * (a * c)
  {
    MulAssoc(a, b, c);
    MulAssoc(b, a, c);
  }

  lemma {:induction false} EncodeAdd(s: seq<byte>, t: seq<byte>)
    requires |s| % 5 == 0
    ensures Encode(s + t) == Encode(s) + Encode(t)
  {
    hide Encode, Chars, Value256;
    NothingEncoded();
    if s == [] {
      assert s + t == t;
    } else {
      EncodeAdd(s[5..], t);
      EncodeMore(s);
      EncodeMore(s + t);
      assert (s + t)[..5] == s[..5] && (s + t)[5..] == s[5..] + t;
    }
  }

  lemma EncodeMore(s: seq<byte>)
    requires |s| >= 5
    ensures Encode(s) == Chars(Value256(s[..5]), 8) + Encode(s[5..])
  {
    hide Chars, Value256;
  }

  lemma NothingEncoded()
    ensures Encode([]) == ""
  {
  }

  /** Whole groups: eight characters for five bytes, spelling the same number. */
  lemma {:induction false} GroupsValue(s: seq<byte>)
    requires |s| % 5 == 0
    ensures AllDigits(Encode(s)) && 5 * |Encode(s)| == 8 * |s|
    ensures Value32(Encode(s)) == Value256(s)
  {
    hide Chars, Value256, Value32, PartLength;
    if s == [] {
      NothingEncoded();
      EmptyValues();
    } else {
      var rest := Encode(s[5..]);
      GroupsValue(s[5..]);
      var head := Chars(Value256(s[..5]), 8);
      assert Encode(s) == head + rest;
      Value256Below(s[..5]);
      EightFives();
      CharsValue(Value256(s[..5]), 8);
      Value32Add(head, rest);
      Value256Add(s[..5], s[5..]);
      assert s == s[..5] + s[5..];
      PowSame(|s| / 5 - 1);
    }
  }

  lemma EmptyValues()
    ensures Value32("") == 0 && Value256([]) == 0
  {
  }

  function Quotient(v: nat, d: nat): nat
    requires d > 0
  {
    v / d
  }

  lemma {:induction false} CharsPrefix(v: nat, n: nat, m: nat)
    requires m <= n
    ensures Chars(v, n)[..m] == Chars(Quotient(v, Pow(32, n - m)), m)
  {
    hide CharOf;
    if m < n {
      CharsPrefix(v / 32, n - 1, m);
      DivDiv(v, 32, Pow(32, n - 1 - m));
      assert Chars(v, n)[..m] == Chars(v / 32, n - 1)[..m];
    }
  }

  lemma DivDiv(x: int, a: nat, b: nat)
    requires a > 0 && b > 0
    ensures a * b > 0 && x / a / b == x / (a * b)
  {
    SplitTwice(x, a, b, x / a, x % a, x / a / b, x / a % b);
  }

  lemma SplitTwice(x: int, a: int, b: int, q: int, r: int, p: int, t: int)
    requires 0 <= r < a && 0 <= t < b && x == a * q + r && q == b * p + t
    ensures a * b > 0 && p == x / (a * b)
  {
    var d := a * b;
    MulAssoc(a, b, p);
    Spread(a, b * p, t);
    AtLeastOne(a, b - t);
    Spread(a, b, -t);
    assert a * t == d - a * (b - t);
    AtLeastOne(b, a);
    assert 0 <= a * t by { MulPositive(a, t); }
    QuotientIs(x, d, p, a * t + r);
  }

  lemma Spread(a: int, b: int, c: int)
    ensures a * (b + c) == a * b + a * c
  {
  }

  lemma MulPositive(a: int, b: int)
    requires a >= 0 && b >= 0
    ensures a * b >= 0
  {
  }

  lemma MulAssoc(a: int, b: int, c: int)
    ensures a * (b * c) == (a * b) * c
  {
  }

  lemma AtLeastOne(d: int, e: int)
    requires d > 0 && e >= 1
    ensures d * e >= d
  {
  }

  lemma QuotientIs(x: int, d: int, q: int, r: int)
    requires x == d * q + r && 0 <= r < d
    ensures x / d == q
  {
    SameQuotient(d, q, r, x / d, x % d);
  }

  lemma SameQuotient(d: int, q: int, r: int, k: int, m: int)
    requires 0 <= r < d && 0 <= m < d && d * q + r == d * k + m
    ensures q == k
  {
    if k > q {
      AtLeastOne(d, k - q);
      Spread(d, q, k - q);
    } else if k < q {
      AtLeastOne(d, q - k);
      Spread(d, k, q - k);
    }
  }

  // ----- Identifiers

  /** A signed 64-bit clock value, and the same bits read as unsigned. */
  type int64 = x: int | -0x8000_0000_0000_0000 <= x < 0x8000_0000_0000_0000

  function Unsigned(timestamp: int64): (r: nat) {
    timestamp % 0x1_0000_0000_0000_0000
  }

  function ShiftRight(x: int, bytes: nat): int
  {
    x / Pow(256, bytes)
  }

  function ClockByte(timestamp: int64, i: nat): byte
    requires i < 8
  {
    (ShiftRight(timestamp, 7 - i) % 256) as byte
  }

  function Clock(timestamp: int64): (r: seq<byte>)
    ensures |r| == 8
  {
    seq(8, i requires 0 <= i < 8 => ClockByte(timestamp, i))
  }

  /** The clock bytes spell the clock, most significant first. */
  lemma {:induction false} ClockPrefix(timestamp: int64, m: nat)
    requires m <= 8
    ensures Value256(Clock(timestamp)[..m])
            == timestamp / Pow(256, 8 - m) - timestamp / Pow(256, 8) * Pow(256, m)
  {
    if m > 0 {
      var s, p := Clock(timestamp), Pow(256, 8 - m);
      ClockPrefix(timestamp, m - 1);
      assert s[..m][..m - 1] == s[..m - 1];
      assert Pow(256, 9 - m) == 256 * p;
      DivDiv(timestamp, p, 256);
      MulAssoc(timestamp / Pow(256, 8), Pow(256, m - 1), 256);
    }
  }

  lemma ClockValue(timestamp: int64)
    ensures Value256(Clock(timestamp)) == Unsigned(timestamp)
  {
    ClockPrefix(timestamp, 8);
    assert Clock(timestamp)[..8] == Clock(timestamp);
    EightBytes();
  }

  lemma EightBytes()
    ensures Pow(256, 8) == 0x1_0000_0000_0000_0000 && Pow(256, 0) == 1 && Pow(256, 10) == 0x1_0000_0000_0000_0000 * 65536
  {
    assert Pow(256, 2) == 65536 && Pow(256, 4) == 65536 * 65536 && Pow(256, 6) == 65536 * 65536 * 65536;
  }

  /** The number an id spells: the first 125 bits of the clock and the random bytes. */
  function Bits(timestamp: int64, random: seq<byte>): nat {
    Value256(Clock(timestamp) + random) / 0x80000
  }

  lemma LastCharacter(y: seq<byte>)
    requires |y| == 3
    ensures Encode(y)[..1] == Chars(y[0] as nat / 8, 1)
  {
    hide Encode, Value256, Chars, Zeros;
    var v := Value256(y + Zeros(2));
    EncodeThree(y);
    CharsPrefix(v, 8, 1);
    Value256Add(y, Zeros(2));
    ThreeBytes(y);
    TwoZeros();
    SevenChars();
    assert v / 0x8_0000_0000 == y[0] as nat / 8;
  }

  lemma EncodeThree(y: seq<byte>)
    requires |y| == 3
    ensures Encode(y)[..1] == Chars(Value256(y + Zeros(2)), 8)[..1]
  {
    hide Value256, Chars, Zeros;
  }

  lemma SevenChars()
    ensures Pow(32, 7) == 0x8_0000_0000
  {
    assert Pow(32, 3) == 32768 && Pow(32, 6) == 32768 * 32768;
  }

  lemma TwoZeros()
    ensures Value256(Zeros(2)) == 0 && Pow(256, 2) == 65536
  {
    assert Zeros(2)[..1][..0] == [];
  }

  lemma ThreeBytes(y: seq<byte>)
    requires |y| == 3
    ensures Value256(y) == 65536 * (y[0] as int) + 256 * (y[1] as int) + y[2] as int && Pow(256, 3) == 0x100_0000
  {
    assert y[..2][..1] == y[..1] && y[..1][..0] == [];
    assert Value256(y[..1]) == y[0] as int;
    assert Value256(y[..2]) == Value256(y[..1]) * 256 + y[1] as int;
  }

  /** The first 25 characters of the encoding of 18 bytes spell their first 125 bits. */
  lemma PrefixValue(x: seq<byte>)
    requires |x| == 18
    ensures |Encode(x)| >= 25 && AllDigits(Encode(x)[..25])
    ensures Value32(Encode(x)[..25]) == Value256(x) / 0x80000
  {
    hide Encode, Value256, Value32, Chars, AllDigits;
    var y := x[15..];
    assert x == x[..15] + y;
    EncodeAdd(x[..15], y);
    GroupsValue(x[..15]);
    PartEncoded(y);
    LastCharacter(y);
    var last := Chars(y[0] as nat / 8, 1);
    assert Encode(x)[..25] == Encode(x[..15]) + last;
    Value32Add(Encode(x[..15]), last);
    OneChar(y[0] as nat / 8);
    DigitsAdd(Encode(x[..15]), last);
    Value256Add(x[..15], y);
    ThreeBytes(y);
  }

  lemma PartEncoded(y: seq<byte>)
    requires |y| == 3
    ensures |Encode(y)| == 5
  {
    hide Chars, Value256;
  }

  lemma OneChar(d: nat)
    requires d < 32
    ensures Value32(Chars(d, 1)) == d && Pow(32, 1) == 32
  {
    assert Pow(32, 0) == 1;
    CharsValue(d, 1);
  }

  lemma DigitsAdd(x: string, y: string)
    requires AllDigits(x) && AllDigits(y)
    ensures AllDigits(x + y)
  {
  }

  function IdOf(timestamp: int64, random: seq<byte>): (id: string)
    requires |random| == 10
    ensures |id| == 25
  {
    PrefixValue(Clock(timestamp) + random);
    ToLower(Encode(Clock(timestamp) + random)[..25])
  }

  /** An id spells the first 125 bits of the clock and the random bytes. */
  lemma IdSpells(timestamp: int64, random: seq<byte>)
    requires |random| == 10
    ensures AllDigits(IdOf(timestamp, random)) && Value32(IdOf(timestamp, random)) == Bits(timestamp, random)
  {
    hide Encode, Value256, Value32, AllDigits;
    PrefixValue(Clock(timestamp) + random);
    LowerIsSame(Encode(Clock(timestamp) + random)[..25]);
  }

  method GenerateID(timestamp: int64, randomBytes: seq<byte>) returns (id: string)
    requires |randomBytes| == 10
    ensures id == IdOf(timestamp, randomBytes)
    ensures |id| == 25 && AllDigits(id) && Value32(id) == Bits(timestamp, randomBytes)
  {
    hide Encode, Value256, Value32, AllDigits, Bits;
    var timestampBytes := new byte[8](_ => 0);
    for i := 0 to 8
      invariant forall k :: 0 <= k < i ==> timestampBytes[k] == ClockByte(timestamp, k)
    {
      timestampBytes[i] := (ShiftRight(timestamp, 7 - i) % 256) as byte;
    }
    var combined := timestampBytes[..] + randomBytes;
    assert timestampBytes[..] == Clock(timestamp);
    PrefixValue(combined);
    var encoded := Encode(combined);
    id := ToLower(encoded[..25]);
    IdSpells(timestamp, randomBytes);
  }

  // ----- What an id tells

  lemma BitsAre(timestamp: int64, random: seq<byte>)
    requires |random| == 10
    ensures Value256(random) / 0x80000 < 0x2000_0000_0000_0000
    ensures Bits(timestamp, random) == Unsigned(timestamp) * 0x2000_0000_0000_0000 + Value256(random) / 0x80000
  {
    hide Value256;
    Value256Add(Clock(timestamp), random);
    ClockValue(timestamp);
    Value256Below(random);
    EightBytes();
  }

  /** Ids follow the clock whatever the random bytes: an earlier one is smaller as a string, unless the
      clock was before 1970 for it and not for the other. */
  lemma TimeOrdered(t: int64, r: seq<byte>, u: int64, q: seq<byte>)
    requires |r| == |q| == 10 && t < u
    ensures LexLess(IdOf(t, r), IdOf(u, q)) <==> !(t < 0 <= u)
    ensures LexLess(IdOf(u, q), IdOf(t, r)) <==> t < 0 <= u
  {
    hide Value256, Value32, Bits, AllDigits, LexLess, IdOf;
    IdSpells(t, r);
    IdSpells(u, q);
    BitsAre(t, r);
    BitsAre(u, q);
    OrderIsValue(IdOf(t, r), IdOf(u, q));
    OrderIsValue(IdOf(u, q), IdOf(t, r));
  }

  /** Two ids are equal exactly when the clocks and the first 61 random bits are. */
  lemma IdDetermines(t: int64, r: seq<byte>, u: int64, q: seq<byte>)
    requires |r| == |q| == 10
    ensures IdOf(t, r) == IdOf(u, q) <==> t == u && Value256(r) / 0x80000 == Value256(q) / 0x80000
  {
    hide Value256, Value32, Bits, AllDigits, IdOf;
    IdSpells(t, r);
    IdSpells(u, q);
    BitsAre(t, r);
    BitsAre(u, q);
    OrderIsValue(IdOf(t, r), IdOf(u, q));
  }
}
