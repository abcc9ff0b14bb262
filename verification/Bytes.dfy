/**
 Bytes, and integers of fixed width in either byte order.
 */
module Bytes {
  type Byte = b: int | 0 <= b < 256

  type Str = seq<Byte>

  function Least(a: nat, b: nat): nat { if a < b then a else b }

  function Zeros(n: nat): (s: Str)
    ensures |s| == n
  {
    seq(n, _ => 0)
  }

  /** What follows position i; nothing if that is beyond the end. */
  function From(s: Str, i: nat): Str
  {
    if i <= |s| then s[i..] else []
  }

  const TWO_32 := 0x1_0000_0000
  const TWO_63 := 0x8000_0000_0000_0000
  const TWO_64 := 0x1_0000_0000_0000_0000

  // ---------- Big-endian ----------

  function U16(s: seq<Byte>): (n: nat)
    requires |s| >= 2
    ensures n < 0x1_0000
  {
    s[0] as int * 256 + s[1]
  }

  function U32(s: seq<Byte>): (n: nat)
    requires |s| >= 4
    ensures n < TWO_32
  {
    U16(s) * 0x1_0000 + U16(s[2..])
  }

  function U64(s: seq<Byte>): (n: nat)
    requires |s| >= 8
    ensures n < TWO_64
  {
    U32(s) * TWO_32 + U32(s[4..])
  }

  function BE16(n: nat): (s: seq<Byte>)
    ensures |s| == 2
  {
    [n / 256 % 256, n % 256]
  }

  function BE32(n: nat): (s: seq<Byte>)
    ensures |s| == 4
  {
    BE16(n / 0x1_0000) + BE16(n)
  }

  lemma TwoBytes(n: nat)
    ensures n / 256 % 256 * 256 + n % 256 == n % 0x1_0000
  {
    var q := n / 256;
    assert n == 0x1_0000 * (q / 256) + (q % 256 * 256 + n % 256);
  }

  lemma FourBytes(n: nat)
    ensures n / 0x1_0000 % 0x1_0000 * 0x1_0000 + n % 0x1_0000 == n % TWO_32
  {
    var q := n / 0x1_0000;
    assert n == TWO_32 * (q / 0x1_0000) + (q % 0x1_0000 * 0x1_0000 + n % 0x1_0000);
  }

  lemma U16OfBE16(n: nat, t: seq<Byte>)
    ensures U16(BE16(n) + t) == n % 0x1_0000
  {
    var s := BE16(n) + t;
    assert s[0] == n / 256 % 256 && s[1] == n % 256;
    TwoBytes(n);
  }

  lemma U32OfBE32(n: nat, t: seq<Byte>)
    ensures U32(BE32(n) + t) == n % TWO_32
  {
    hide U16, BE16;
    FourBytes(n);
    var s := BE32(n) + t;
    assert s == BE16(n / 0x1_0000) + (BE16(n) + t);
    assert s[2..] == BE16(n) + t;
    U16OfBE16(n / 0x1_0000, BE16(n) + t);
    U16OfBE16(n, t);
  }

  function BE64(n: nat): (s: seq<Byte>)
    ensures |s| == 8
  {
    BE32(n / TWO_32) + BE32(n % TWO_32)
  }

  lemma U64OfBE64(n: nat, t: seq<Byte>)
    requires n < TWO_64
    ensures U64(BE64(n) + t) == n
  {
    hide U32, BE32;
    var high, low := BE32(n / TWO_32), BE32(n % TWO_32);
    var s := BE64(n) + t;
    assert s == high + (low + t) && s[4..] == low + t;
    U32OfBE32(n / TWO_32, low + t);
    U32OfBE32(n % TWO_32, t);
  }

  lemma BE32OfU32(s: seq<Byte>)
    requires |s| >= 4
    ensures BE32(U32(s)) == s[..4]
  {
    var a, b := U16(s), U16(s[2..]);
    assert s[2..][0] == s[2] && s[2..][1] == s[3];
    assert (a * 0x1_0000 + b) / 0x1_0000 == a;
    BE16Of(s[0], s[1], 0);
    BE16Of(s[2], s[3], a);
  }

  lemma BE16Of(x: Byte, y: Byte, high: nat)
    ensures BE16(high * 0x1_0000 + (x as int * 256 + y)) == [x, y]
  {
    var n, q := high * 0x1_0000 + (x as int * 256 + y), high * 256 + x;
    assert n == q * 256 + y;
    DivMod256(q, y);
    DivMod256(high, x);
  }

  lemma DivMod256(q: nat, r: Byte)
    ensures (q * 256 + r) / 256 == q && (q * 256 + r) % 256 == r
  {
  }

  /** The number with these digits in base 256, the most significant one first. */
  ghost function BigEndian(s: seq<Byte>): nat
  {
    if s == [] then 0 else BigEndian(s[..|s| - 1]) * 256 + s[|s| - 1]
  }

  lemma {:induction false} BigEndianOfTwo(s: seq<Byte>, t: seq<Byte>, p: nat)
    requires p == Power256(|t|)
    ensures BigEndian(s + t) == BigEndian(s) * p + BigEndian(t)
  {
    if t == [] {
      assert s + t == s;
    } else {
      hide BigEndian;
      var u, last := t[..|t| - 1], t[|t| - 1];
      assert s + t == s + u + [last] && t == u + [last];
      BigEndianOfTwo(s, u, Power256(|u|));
      BigEndianStep(s + u, last);
      BigEndianStep(u, last);
      OneMorePower(BigEndian(s), Power256(|u|), BigEndian(u), last);
    }
  }

  lemma BigEndianStep(s: seq<Byte>, last: Byte)
    ensures BigEndian(s + [last]) == BigEndian(s) * 256 + last
  {
    assert (s + [last])[..|s|] == s;
  }

  lemma OneMorePower(n: nat, p: nat, m: nat, last: nat)
    ensures (n * p + m) * 256 + last == n * (p * 256) + (m * 256 + last)
  {
    assert n * p * 256 == n * (p * 256);
  }

  ghost function Power256(n: nat): nat
  {
    if n == 0 then 1 else Power256(n - 1) * 256
  }

  /** What the three widths read is the number with these digits. */
  lemma U16IsBigEndian(s: seq<Byte>)
    requires |s| >= 2
    ensures U16(s) == BigEndian(s[..2])
  {
    var t := s[..2];
    assert t[..1] == [s[0]] && t[..1][..0] == [];
    assert BigEndian(t[..1]) == s[0];
  }

  lemma U32IsBigEndian(s: seq<Byte>)
    requires |s| >= 4
    ensures U32(s) == BigEndian(s[..4])
  {
    hide U16, BigEndian;
    U16IsBigEndian(s);
    U16IsBigEndian(s[2..]);
    BigEndianOfTwo(s[..2], s[2..][..2], 0x1_0000);
    assert s[..4] == s[..2] + s[2..][..2];
  }

  lemma U64IsBigEndian(s: seq<Byte>)
    requires |s| >= 8
    ensures U64(s) == BigEndian(s[..8])
  {
    hide U32, BigEndian;
    U32IsBigEndian(s);
    U32IsBigEndian(s[4..]);
    assert Power256(2) == 0x1_0000;
    BigEndianOfTwo(s[..4], s[4..][..4], TWO_32);
    assert s[..8] == s[..4] + s[4..][..4];
  }

  // ---------- Little-endian ----------

  function LE16(s: seq<Byte>): (n: nat)
    requires |s| >= 2
    ensures n < 0x1_0000
  {
    s[0] as int + s[1] as int * 256
  }

  function LE32(s: seq<Byte>): (n: nat)
    requires |s| >= 4
    ensures n < TWO_32
  {
    LE16(s) + LE16(s[2..]) * 0x1_0000
  }

  function LE64(s: seq<Byte>): (n: nat)
    requires |s| >= 8
    ensures n < TWO_64
  {
    LE32(s) + LE32(s[4..]) * TWO_32
  }

  function Bytes2(n: nat): (s: seq<Byte>)
    ensures |s| == 2
  {
    [n % 256, n / 256 % 256]
  }

  function Bytes4(n: nat): (s: seq<Byte>)
    ensures |s| == 4
  {
    Bytes2(n) + Bytes2(n / 0x1_0000)
  }

  function Bytes8(n: nat): (s: seq<Byte>)
    ensures |s| == 8
  {
    Bytes4(n % TWO_32) + Bytes4(n / TWO_32)
  }

  lemma LE16Written(n: nat, t: seq<Byte>)
    ensures LE16(Bytes2(n) + t) == n % 0x1_0000
  {
    var s := Bytes2(n) + t;
    assert s[0] == n % 256 && s[1] == n / 256 % 256;
    TwoBytes(n);
  }

  lemma LE32Written(n: nat, t: seq<Byte>)
    ensures LE32(Bytes4(n) + t) == n % TWO_32
  {
    hide LE16, Bytes2;
    FourBytes(n);
    var s := Bytes4(n) + t;
    assert s == Bytes2(n) + (Bytes2(n / 0x1_0000) + t);
    assert s[2..] == Bytes2(n / 0x1_0000) + t;
    LE16Written(n, Bytes2(n / 0x1_0000) + t);
    LE16Written(n / 0x1_0000, t);
  }

  lemma LE64Written(n: nat, t: seq<Byte>)
    requires n < TWO_64
    ensures LE64(Bytes8(n) + t) == n
  {
    hide LE32, Bytes4;
    var low, high := Bytes4(n % TWO_32), Bytes4(n / TWO_32);
    var s := Bytes8(n) + t;
    assert s == low + (high + t) && s[4..] == high + t;
    LE32Written(n % TWO_32, high + t);
    LE32Written(n / TWO_32, t);
  }

  lemma Bytes4OfLE32(s: seq<Byte>)
    requires |s| >= 4
    ensures Bytes4(LE32(s)) == s[..4]
  {
    var a, b := LE16(s), LE16(s[2..]);
    assert s[2..][0] == s[2] && s[2..][1] == s[3];
    assert (a + b * 0x1_0000) / 0x1_0000 == b;
    Bytes2Of(s[0], s[1], b);
    Bytes2Of(s[2], s[3], 0);
  }

  lemma Bytes2Of(x: Byte, y: Byte, high: nat)
    ensures Bytes2(x as int + y as int * 256 + high * 0x1_0000) == [x, y]
  {
    var n, q := x as int + y as int * 256 + high * 0x1_0000, high * 256 + y;
    assert n == q * 256 + x;
    DivMod256(q, x);
    DivMod256(high, y);
  }

  lemma Bytes8OfLE64(s: seq<Byte>)
    requires |s| >= 8
    ensures Bytes8(LE64(s)) == s[..8]
  {
    hide LE32, Bytes4;
    Bytes4OfLE32(s);
    Bytes4OfLE32(s[4..]);
    assert (LE32(s) + LE32(s[4..]) * TWO_32) % TWO_32 == LE32(s);
    assert s[..8] == s[..4] + s[4..][..4];
  }

  /** The number with these digits in base 256, the least significant one first. */
  ghost function LittleEndian(s: seq<Byte>): nat
  {
    if s == [] then 0 else s[0] + 256 * LittleEndian(s[1..])
  }

  lemma {:induction false} LittleEndianOfTwo(s: seq<Byte>, t: seq<Byte>, p: nat)
    requires p == Power256(|s|)
    ensures LittleEndian(s + t) == LittleEndian(s) + p * LittleEndian(t)
  {
    if s == [] {
      assert s + t == t;
    } else {
      hide LittleEndian;
      var first, u := s[0], s[1..];
      assert s + t == [first] + (u + t) && s == [first] + u;
      LittleEndianOfTwo(u, t, Power256(|u|));
      LittleEndianStep(first, u + t);
      LittleEndianStep(first, u);
      OneMorePower(LittleEndian(t), Power256(|u|), LittleEndian(u), first);
    }
  }

  lemma LittleEndianStep(first: Byte, s: seq<Byte>)
    ensures LittleEndian([first] + s) == first + 256 * LittleEndian(s)
  {
    assert ([first] + s)[1..] == s;
  }

  lemma LE16IsLittleEndian(s: seq<Byte>)
    requires |s| >= 2
    ensures LE16(s) == LittleEndian(s[..2])
  {
    var t := s[..2];
    assert t[1..] == [s[1]] && t[1..][1..] == [];
    assert LittleEndian(t[1..]) == s[1];
  }

  lemma LE32IsLittleEndian(s: seq<Byte>)
    requires |s| >= 4
    ensures LE32(s) == LittleEndian(s[..4])
  {
    hide LE16, LittleEndian;
    LE16IsLittleEndian(s);
    LE16IsLittleEndian(s[2..]);
    LittleEndianOfTwo(s[..2], s[2..][..2], 0x1_0000);
    assert s[..4] == s[..2] + s[2..][..2];
  }

  lemma LE64IsLittleEndian(s: seq<Byte>)
    requires |s| >= 8
    ensures LE64(s) == LittleEndian(s[..8])
  {
    hide LE32, LittleEndian;
    LE32IsLittleEndian(s);
    LE32IsLittleEndian(s[4..]);
    assert Power256(2) == 0x1_0000;
    LittleEndianOfTwo(s[..4], s[4..][..4], TWO_32);
    assert s[..8] == s[..4] + s[4..][..4];
  }

  // ---------- Text ----------

  /** Characters beyond ASCII do not occur. */
  function Ascii(text: string): (s: Str)
    ensures |s| == |text|
  {
    seq(|text|, i requires 0 <= i < |text| => text[i] as int % 256)
  }

  // ---------- Signed ----------

  /** Two's complement. */
  function Signed64(n: int): int
  {
    if -TWO_63 <= n < TWO_63 then n else (n + TWO_63) % TWO_64 - TWO_63
  }
}
