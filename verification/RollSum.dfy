/**
 The rolling checksum: it depends on the last bytes only.
 */
module RollSum {
  import opened Bytes
  import opened Powers

  const WINDOW_SIZE := 64
  const CHAR_OFFSET := 31
  const BLOB_BITS := 13

  // ---------- The window ----------

  ghost function Last(s: Str): Str
    requires |s| >= WINDOW_SIZE
  {
    s[|s| - WINDOW_SIZE..]
  }

  /** The last 64 bytes of a history, oldest first, as if zeros had been before it. */
  ghost function Window(history: Str): (w: Str)
    ensures |w| == WINDOW_SIZE
  {
    Last(Zeros(WINDOW_SIZE) + history)
  }

  /** Nothing before the last 64 bytes matters. */
  lemma WindowForgets(a: Str, b: Str, t: Str)
    requires |t| >= WINDOW_SIZE
    ensures Window(a + t) == Window(b + t) == Last(t)
  {
    assert Zeros(WINDOW_SIZE) + (a + t) == (Zeros(WINDOW_SIZE) + a) + t;
    assert Zeros(WINDOW_SIZE) + (b + t) == (Zeros(WINDOW_SIZE) + b) + t;
  }

  lemma WindowStep(history: Str, c: Byte)
    ensures Window(history + [c]) == Window(history)[1..] + [c]
  {
    assert Zeros(WINDOW_SIZE) + (history + [c]) == (Zeros(WINDOW_SIZE) + history) + [c];
  }

  // ---------- Sums ----------

  ghost function Plain(w: Str): nat
  {
    if w == [] then 0 else w[0] + Plain(w[1..])
  }

  /** The last byte counts once, the one before it twice, and so on. */
  ghost function Weighted(w: Str): nat
  {
    if w == [] then 0 else |w| * w[0] + Weighted(w[1..])
  }

  lemma {:induction false} SumsOfMore(w: Str, c: Byte)
    ensures Plain(w + [c]) == Plain(w) + c
    ensures Weighted(w + [c]) == Weighted(w) + Plain(w) + c
  {
    if w == [] {
      assert ([] + [c])[1..] == [];
    } else {
      assert (w + [c])[1..] == w[1..] + [c];
      SumsOfMore(w[1..], c);
      assert (|w| + 1) * w[0] == |w| * w[0] + w[0];
    }
  }

  lemma {:induction false} SumsAreSmall(w: Str)
    ensures Plain(w) <= 255 * |w|
    ensures 2 * Weighted(w) <= 255 * |w| * (|w| + 1)
  {
    if w != [] {
      SumsAreSmall(w[1..]);
      var n := |w|;
      assert n * w[0] <= n * 255;
      assert 255 * n * (n + 1) == 255 * (n - 1) * n + 2 * (n * 255);
    }
  }

  /** The first byte leaves the window and another one enters. */
  lemma SumsOfNext(w: Str, c: Byte)
    requires w != []
    ensures Plain(w[1..] + [c]) == Plain(w) - w[0] + c
    ensures Weighted(w[1..] + [c]) == Weighted(w) - |w| * w[0] + Plain(w[1..] + [c])
  {
    SumsOfMore(w[1..], c);
  }

  ghost function S1(w: Str): nat
    requires |w| == WINDOW_SIZE
  {
    WINDOW_SIZE * CHAR_OFFSET + Plain(w)
  }

  ghost function S2(w: Str): nat
    requires |w| == WINDOW_SIZE
  {
    WINDOW_SIZE * (WINDOW_SIZE - 1) * CHAR_OFFSET + Weighted(w)
  }

  /** Neither sum comes near the limit of 32 bits. */
  lemma Bounds(w: Str)
    requires |w| == WINDOW_SIZE
    ensures 64 * 31 <= S1(w) <= 64 * 286
    ensures 64 * 63 * 31 <= S2(w) <= 655_392 < TWO_32
  {
    SumsAreSmall(w);
  }

  function Wrap32(n: int): nat
  {
    n % TWO_32
  }

  // ---------- Bits ----------

  /** The low n bits; 32-bit numbers have no more than 32. */
  function LowBits(x: nat, n: nat): nat
  {
    if n >= 32 then x % TWO_32 else x % Pow2(n)
  }

  function TrailingZeros32(x: nat): (n: nat)
    ensures n <= 32
  {
    TrailingZeros(x, 32)
  }

  function TrailingZeros(x: nat, width: nat): (n: nat)
    ensures n <= width
  {
    if width == 0 || x % 2 == 1 then 0 else 1 + TrailingZeros(x / 2, width - 1)
  }

  function Not(x: nat, width: nat): int
  {
    Pow2(width) - 1 - x
  }

  /** How many low bits are set. */
  function TrailingOnes(x: nat): nat
  {
    if x % 2 == 0 then 0 else 1 + TrailingOnes(x / 2)
  }

  lemma {:induction false} OnesAreZerosOfNot(x: nat, width: nat)
    requires x < Pow2(width)
    ensures TrailingZeros(Not(x, width), width) == TrailingOnes(x)
  {
    if width > 0 {
      assert Not(x, width) == 2 * Pow2(width - 1) - 1 - x;
      if x % 2 == 1 {
        assert Not(x, width) / 2 == Not(x / 2, width - 1);
        OnesAreZerosOfNot(x / 2, width - 1);
      }
    }
  }

  /** n low bits are set exactly if they are those of the largest number. */
  lemma {:induction false} OnesAreLowBits(x: nat, n: nat)
    ensures TrailingOnes(x) >= n <==> x % Pow2(n) == Pow2(n) - 1
  {
    if n > 0 {
      var p := Pow2(n - 1);
      var q := x / (2 * p);
      OnesAreLowBits(x / 2, n - 1);
      SplitRemainder(x, p);
    }
  }

  lemma SplitRemainder(x: nat, p: nat)
    requires p > 0
    ensures x % (2 * p) == 2 * (x / 2 % p) + x % 2
  {
    var y, r := x / 2, x % 2;
    var q, s := y / p, y % p;
    assert y == p * q + s;
    assert x == (2 * p) * q + (2 * s + r) by { assert 2 * (p * q) == (2 * p) * q; }
    RemainderIs(2 * p, q, 2 * s + r);
  }

  lemma RemainderIs(m: nat, q: nat, r: nat)
    requires r < m
    ensures (m * q + r) % m == r
  {
    var x := m * q + r;
    var d := x / m - q;
    assert x == m * (x / m) + x % m;
    assert m * (x / m) == m * q + m * d;
    assert r == m * d + x % m;
    Multiples(m, d);
  }

  lemma Multiples(m: int, d: int)
    requires m >= 0
    ensures d > 0 ==> m * d >= m
    ensures d < 0 ==> m * d <= -m
  {
  }

  lemma {:induction false} OnesNeedSize(x: nat)
    ensures x + 1 >= Pow2(TrailingOnes(x))
  {
    if x % 2 == 1 {
      OnesNeedSize(x / 2);
    }
  }

  ghost predicate SetBit(x: nat, i: nat)
  {
    x / Pow2(i) % 2 == 1
  }

  /** So n low bits are set exactly if each of them is. */
  lemma {:induction false} OnesAreBits(x: nat, n: nat)
    ensures TrailingOnes(x) >= n <==> forall i :: 0 <= i < n ==> SetBit(x, i)
  {
    hide SetBit;
    LowestBit(x);
    if n > 0 && x % 2 == 1 {
      OnesAreBits(x / 2, n - 1);
      forall i | 1 <= i < n ensures SetBit(x, i) <==> SetBit(x / 2, i - 1) {
        NextBit(x, i - 1);
      }
      forall i | 0 <= i < n - 1 ensures SetBit(x / 2, i) <==> SetBit(x, i + 1) {
        NextBit(x, i);
      }
    }
  }

  lemma LowestBit(x: nat)
    ensures SetBit(x, 0) <==> x % 2 == 1
  {
  }

  lemma NextBit(x: nat, i: nat)
    ensures SetBit(x, i + 1) <==> SetBit(x / 2, i)
  {
    Twice(x, 2, Pow2(i));
  }

  /** Divided twice is divided by the product. */
  lemma Twice(x: nat, a: nat, b: nat)
    requires a > 0 && b > 0
    ensures x / (a * b) == x / a / b
  {
    var y, s := x / a, x % a;
    var q, r := y / b, y % b;
    assert x == y * a + s && y == b * q + r;
    TwiceIs(x, a, b, y, q, r, s);
  }

  lemma TwiceIs(x: nat, a: nat, b: nat, y: nat, q: nat, r: nat, s: nat)
    requires r < b && s < a && x == y * a + s && y == b * q + r
    ensures a * b > 0 && x / (a * b) == q
  {
    Expand(a, b, q, r, s);
    QuotientIs(a * b, q, r * a + s);
  }

  lemma Expand(a: nat, b: nat, q: nat, r: nat, s: nat)
    requires r < b && s < a
    ensures (b * q + r) * a + s == (a * b) * q + (r * a + s)
    ensures r * a + s < a * b
  {
    assert (b * q) * a == (a * b) * q;
    assert (b - r) * a >= a by { Multiples(a, b - r); }
  }

  lemma QuotientIs(m: nat, q: nat, r: nat)
    requires r < m
    ensures (m * q + r) / m == q
  {
    var x := m * q + r;
    var d := x / m - q;
    RemainderIs(m, q, r);
    assert x == m * (x / m) + x % m;
    assert m * (x / m) == m * q + m * d;
    Multiples(m, d);
  }

  // ---------- The checksum ----------

  ghost function DigestOf(w: Str): nat
    requires |w| == WINDOW_SIZE
  {
    S1(w) * 0x1_0000 + S2(w) % 0x1_0000
  }

  /** w is what the ring holds, from position at on. */
  ghost predicate Ring(w: Str, ring: Str, at: nat)
    requires |w| == |ring| == WINDOW_SIZE && at < WINDOW_SIZE
  {
    w == ring[at..] + ring[..at]
  }

  lemma RingStep(w: Str, ring: Str, at: nat, c: Byte)
    requires |w| == |ring| == WINDOW_SIZE && at < WINDOW_SIZE && Ring(w, ring, at)
    ensures w[0] == ring[at]
    ensures Ring(w[1..] + [c], ring[at := c], (at + 1) % WINDOW_SIZE)
  {
    var next := ring[at := c];
    if at + 1 < WINDOW_SIZE {
      assert next[at + 1..] == ring[at + 1..] && next[..at + 1] == ring[..at] + [c];
    } else {
      assert next == ring[..at] + [c];
    }
  }

  class RollSum {
    var s1: nat
    var s2: nat
    const window: array<Byte>
    var wofs: nat
    ghost var history: Str // all bytes that were added

    ghost predicate Valid()
      reads this, window
    {
      && window.Length == WINDOW_SIZE && wofs < WINDOW_SIZE
      && Ring(Window(history), window[..], wofs)
      && s1 == S1(Window(history)) && s2 == S2(Window(history))
    }

    constructor ()
      ensures Valid() && fresh(window) && history == []
    {
      s1 := WINDOW_SIZE * CHAR_OFFSET;
      s2 := WINDOW_SIZE * (WINDOW_SIZE - 1) * CHAR_OFFSET;
      window := new Byte[WINDOW_SIZE](_ => 0);
      wofs := 0;
      history := [];
      new;
      hide Window, S1, S2, Ring;
      ZeroSums(Window([]));
      assert window[..] == Zeros(WINDOW_SIZE);
    }

    /** In 32-bit arithmetic, in which the difference for s2 may be negative. */
    method Add(drop: Byte, add: Byte)
      modifies this`s1, this`s2
      ensures s1 == Wrap32(old(s1) + add - drop)
      ensures s2 == Wrap32(old(s2) + s1 - WINDOW_SIZE * (drop + CHAR_OFFSET))
    {
      var s := Wrap32(Wrap32(s1 + add) - drop);
      WrapTwice(s1 + add, -(drop as int));
      s1 := s;
      var t := Wrap32(s - WINDOW_SIZE * (drop + CHAR_OFFSET));
      WrapTwice(s - WINDOW_SIZE * (drop + CHAR_OFFSET), s2);
      s2 := Wrap32(s2 + t);
    }

    /** Adds a byte, in place of the oldest one of the window. */
    method Roll(ch: Byte)
      requires Valid()
      modifies this, window
      ensures Valid() && history == old(history) + [ch]
    {
      hide Window, S1, S2;
      ghost var w := Window(history);
      RingStep(w, window[..], wofs, ch);
      NextState(w, ch, s1, s2);
      WindowStep(history, ch);
      Add(window[wofs], ch);
      window[wofs] := ch;
      wofs := (wofs + 1) % WINDOW_SIZE;
      history := history + [ch];
    }

    /** Whether the low 13 bits are all set. */
    method OnSplit() returns (b: bool)
      requires Valid()
      ensures b <==> TrailingOnes(S2(Window(history))) >= BLOB_BITS
    {
      b := s2 % Pow2(BLOB_BITS) == (TWO_32 - 1) % Pow2(BLOB_BITS);
      AllOnes(BLOB_BITS);
      OnesAreLowBits(s2, BLOB_BITS);
    }

    /** Whether the low n bits are all set; for 32 and more that is asked of all bits. */
    method OnSplitWithBits(n: nat) returns (b: bool)
      requires Valid()
      ensures b <==> TrailingOnes(S2(Window(history))) >= if n < 32 then n else 32
    {
      b := LowBits(s2, n) == LowBits(TWO_32 - 1, n);
      Bounds(Window(history));
      var m := if n < 32 then n else 32;
      AllOnes(m);
      Pow2Values();
      OnesAreLowBits(s2, m);
    }

    method Digest() returns (d: nat)
      requires Valid()
      ensures d == DigestOf(Window(history)) && d < TWO_32
    {
      Bounds(Window(history));
      d := Wrap32(s1 * 0x1_0000) + s2 % 0x1_0000;
    }

    method Bits() returns (n: nat)
      requires Valid()
      ensures n == BitsOf(DigestOf(Window(history)))
      ensures 13 <= n <= 29
    {
      hide Pow2, DigestOf, TrailingZeros, TrailingOnes;
      var d := Digest();
      var rsum := d / BLOB_SHIFT;
      HighDigest(Window(history));
      Pow2Values();
      n := BLOB_BITS + TrailingZeros32(Not(rsum, 32));
      OnesAreZerosOfNot(rsum, 32);
      FewOnes(rsum);
    }
  }

  /** One bit more than those that decide about a split is left out. */
  const BLOB_SHIFT := 0x4000

  function BitsOf(digest: nat): nat
  {
    BLOB_BITS + TrailingOnes(digest / BLOB_SHIFT)
  }

  /** There are 13 + k bits exactly if the digest has all the bits from bit 14 to bit 13 + k. */
  lemma BitsAre(digest: nat, k: nat)
    ensures BitsOf(digest) >= 13 + k <==> forall i :: 14 <= i < 14 + k ==> SetBit(digest, i)
  {
    hide SetBit;
    OnesAreBits(digest / BLOB_SHIFT, k);
    forall i | 0 <= i < k ensures SetBit(digest / BLOB_SHIFT, i) <==> SetBit(digest, i + 14) {
      HigherBit(digest, i);
    }
    forall i | 14 <= i < 14 + k ensures SetBit(digest, i) <==> SetBit(digest / BLOB_SHIFT, i - 14) {
      HigherBit(digest, i - 14);
    }
  }

  lemma HigherBit(x: nat, i: nat)
    ensures SetBit(x / 0x4000, i) <==> SetBit(x, i + 14)
  {
    Pow2Sum(14, i);
    assert Pow2(14) == 0x4000 by { Pow2Values(); assert Pow2(16) == 2 * Pow2(15) && Pow2(15) == 2 * Pow2(14); }
    Twice(x, 0x4000, Pow2(i));
  }

  lemma HighDigest(w: Str)
    requires |w| == WINDOW_SIZE
    ensures DigestOf(w) / BLOB_SHIFT <= 4 * (64 * 286) + 3
  {
    hide S1, S2;
    Bounds(w);
  }

  lemma {:induction false} PlainOfZeros(n: nat)
    ensures Plain(Zeros(n)) == 0 && Weighted(Zeros(n)) == 0
  {
    if n > 0 {
      assert Zeros(n)[1..] == Zeros(n - 1);
      PlainOfZeros(n - 1);
    }
  }

  lemma ZeroSums(w: Str)
    requires w == Window([])
    ensures S1(w) == 64 * 31 && S2(w) == 64 * 63 * 31
    ensures Ring(w, Zeros(WINDOW_SIZE), 0)
  {
    assert w == Zeros(WINDOW_SIZE);
    PlainOfZeros(WINDOW_SIZE);
  }

  lemma WrapTwice(a: int, b: int)
    ensures Wrap32(Wrap32(a) + b) == Wrap32(a + b)
  {
  }

  /** Although a difference may wrap around, the new sums are those of the new window. */
  lemma NextState(w: Str, c: Byte, s1: nat, s2: nat)
    requires |w| == WINDOW_SIZE && s1 == S1(w) && s2 == S2(w)
    ensures var next := w[1..] + [c];
      && Wrap32(s1 + c - w[0]) == S1(next)
      && Wrap32(s2 + S1(next) - WINDOW_SIZE * (w[0] + CHAR_OFFSET)) == S2(next)
  {
    SumsOfNext(w, c);
    Bounds(w[1..] + [c]);
  }

  lemma {:induction false} AllOnes(n: nat)
    requires n <= 32
    ensures (TWO_32 - 1) % Pow2(n) == Pow2(n) - 1
  {
    var q := AllOnesQuotient(n);
    RemainderIs(Pow2(n), q - 1, Pow2(n) - 1);
    assert Pow2(n) * (q - 1) == Pow2(n) * q - Pow2(n);
  }

  lemma {:induction false} AllOnesQuotient(n: nat) returns (q: nat)
    requires n <= 32
    ensures q > 0 && Pow2(n) * q == TWO_32
    decreases 32 - n
  {
    if n == 32 {
      Pow2Values();
      q := 1;
    } else {
      var p := AllOnesQuotient(n + 1);
      q := 2 * p;
      Exchange(Pow2(n), p);
    }
  }

  lemma Exchange(a: nat, b: nat)
    ensures a * (2 * b) == 2 * a * b
  {
  }

  lemma FewOnes(rsum: nat)
    requires rsum <= 4 * (64 * 286) + 3
    ensures TrailingOnes(rsum) <= 16
  {
    OnesNeedSize(rsum);
    Pow2Values();
    if TrailingOnes(rsum) > 16 {
      Pow2Grows(17, TrailingOnes(rsum));
    }
  }

  // ---------- Consequences ----------

  /** After 64 bytes, everything before is forgotten: content decides where to split. */
  lemma SplitsAreLocal(a: Str, b: Str, t: Str)
    requires |t| >= WINDOW_SIZE
    ensures S1(Window(a + t)) == S1(Window(b + t)) && S2(Window(a + t)) == S2(Window(b + t))
    ensures DigestOf(Window(a + t)) == DigestOf(Window(b + t))
  {
    WindowForgets(a, b, t);
  }

  /** For 20 bits and more there is no split at all, as the second sum has not so many bits. */
  lemma NoSplits(w: Str)
    requires |w| == WINDOW_SIZE
    ensures TrailingOnes(S2(w)) < 20
  {
    Bounds(w);
    OnesNeedSize(S2(w));
    Pow2Values();
    if TrailingOnes(S2(w)) >= 20 {
      Pow2Grows(20, TrailingOnes(S2(w)));
    }
  }

  /** Up to 16 bits, those of the second sum are those of the digest. */
  lemma DigestShowsSplits(w: Str, n: nat)
    requires |w| == WINDOW_SIZE && n <= 16
    ensures TrailingOnes(S2(w)) >= n <==> TrailingOnes(DigestOf(w)) >= n
  {
    OnesAreLowBits(S2(w), n);
    OnesAreLowBits(DigestOf(w), n);
    DigestRemainder(S1(w), S2(w), n);
  }

  lemma {:induction false} DigestRemainder(s1: nat, s2: nat, n: nat)
    requires n <= 16
    ensures (s1 * 0x1_0000 + s2 % 0x1_0000) % Pow2(n) == s2 % Pow2(n)
  {
    hide Pow2;
    var p, k := Pow2(n), Pow2(16 - n);
    Pow2Sum(n, 16 - n);
    Pow2Values();
    var h, y := s2 / 0x1_0000, s2 % 0x1_0000;
    Regroup(p, k, s1);
    Regroup(p, k, h);
    AddMultiple(p, k * s1, y);
    AddMultiple(p, k * h, y);
  }

  lemma Regroup(p: nat, k: nat, x: nat)
    ensures p * (k * x) == x * (p * k)
  {
  }

  lemma AddMultiple(p: nat, a: nat, y: nat)
    requires p > 0
    ensures (p * a + y) % p == y % p
  {
    assert p * (a + y / p) == p * a + p * (y / p);
    RemainderIs(p, a + y / p, y % p);
  }

  lemma {:induction false} Pow2Sum(a: nat, b: nat)
    ensures Pow2(a) * Pow2(b) == Pow2(a + b)
    decreases a
  {
    if a > 0 {
      Pow2Sum(a - 1, b);
      assert (2 * Pow2(a - 1)) * Pow2(b) == 2 * (Pow2(a - 1) * Pow2(b));
    }
  }

  // ---------- Where the second sum and the digest differ ----------

  lemma {:induction false} SumsOfTwo(u: Str, v: Str)
    ensures Plain(u + v) == Plain(u) + Plain(v)
    ensures Weighted(u + v) == Weighted(u) + |v| * Plain(u) + Weighted(v)
  {
    if u == [] {
      assert u + v == v;
    } else {
      assert (u + v)[1..] == u[1..] + v;
      SumsOfTwo(u[1..], v);
      Distribute(u[0], |u|, |v|);
      Distribute(|v|, u[0], Plain(u[1..]));
    }
  }

  lemma Distribute(a: nat, b: nat, c: nat)
    ensures (b + c) * a == b * a + c * a && a * (b + c) == a * b + a * c
  {
  }

  function Repeated(n: nat, c: Byte): (s: Str)
    ensures |s| == n
  {
    seq(n, _ => c)
  }

  lemma {:induction false} SumsOfRepeated(n: nat, c: Byte)
    ensures Plain(Repeated(n, c)) == n * c
    ensures 2 * Weighted(Repeated(n, c)) == n * (n + 1) * c
  {
    if n > 0 {
      assert Repeated(n, c)[1..] == Repeated(n - 1, c);
      SumsOfRepeated(n - 1, c);
      OneMoreRepeated(n, c);
    }
  }

  lemma OneMoreRepeated(n: nat, c: Byte)
    ensures n * c == (n - 1) * c + c
    ensures n * (n + 1) * c == (n - 1) * n * c + 2 * (n * c)
  {
    assert n * (n + 1) == (n - 1) * n + 2 * n;
  }

  /** m times a, b once, n times c, and d once. */
  function Runs(m: nat, a: Byte, b: Byte, n: nat, c: Byte, d: Byte): (s: Str)
    ensures |s| == m + n + 2
  {
    Repeated(m, a) + [b] + Repeated(n, c) + [d]
  }

  lemma SumsOfRuns(m: nat, a: Byte, b: Byte, n: nat, c: Byte, d: Byte)
    ensures var p, q := m * a + b, n * c + d;
      && Plain(Runs(m, a, b, n, c, d)) == p + q
      && 2 * Weighted(Runs(m, a, b, n, c, d)) ==
           m * (m + 1) * a + 2 * p + 2 * ((n + 1) * p) + n * (n + 1) * c + 2 * q
  {
    var u, v := Repeated(m, a) + [b], Repeated(n, c) + [d];
    assert Runs(m, a, b, n, c, d) == u + v;
    SumsOfRepeated(m, a);
    SumsOfRepeated(n, c);
    SumsOfMore(Repeated(m, a), b);
    SumsOfMore(Repeated(n, c), d);
    SumsOfTwo(u, v);
  }

  /** A window with 16 set low bits in the second sum, and 30 in the digest. */
  lemma DigestAhead() returns (w: Str)
    ensures |w| == WINDOW_SIZE && TrailingOnes(S2(w)) == 16 && TrailingOnes(DigestOf(w)) == 30
  {
    hide Runs, Plain, Weighted, TrailingOnes, Pow2;
    w := Runs(3, 252, 59, 59, 226, 250);
    SumsOfRuns(3, 252, 59, 59, 226, 250);
    Pow2Values();
    DigestIs(w, 16383, 589823);
    OnesUpTo(589823, 16, 4);
    OnesUpTo(0x3fff_ffff, 30, 0);
  }

  /** A window with 19 set low bits in the second sum, and 16 in the digest. */
  lemma DigestBehind() returns (w: Str)
    ensures |w| == WINDOW_SIZE && TrailingOnes(S2(w)) == 19 && TrailingOnes(DigestOf(w)) == 16
  {
    hide Runs, Plain, Weighted, TrailingOnes, Pow2;
    w := Runs(13, 94, 65, 49, 255, 234);
    SumsOfRuns(13, 94, 65, 49, 255, 234);
    Pow2Values();
    DigestIs(w, 16000, 524287);
    OnesUpTo(524287, 19, 0);
    OnesUpTo(0x3e80_ffff, 16, 8000);
  }

  lemma DigestIs(w: Str, s1: nat, s2: nat)
    requires |w| == WINDOW_SIZE && Plain(w) == s1 - 1984 && 2 * Weighted(w) == 2 * (s2 - 124992)
    requires s2 % 0x1_0000 == 0xffff
    ensures S2(w) == s2 && DigestOf(w) == s1 * 0x1_0000 + 0xffff
  {
  }

  /** Behind n set bits there is one that is not set. */
  lemma {:induction false} OnesUpTo(x: nat, n: nat, q: nat)
    requires x == Times(q, Pow2(n + 1)) + Pow2(n) - 1
    ensures TrailingOnes(x) == n
  {
    if n > 0 {
      TimesTwice(q, Pow2(n));
      assert Pow2(n + 1) == 2 * Pow2(n) && Pow2(n) == 2 * Pow2(n - 1);
      assert x == 2 * (Times(q, Pow2(n)) + Pow2(n - 1) - 1) + 1;
      OnesUpTo(x / 2, n - 1, q);
    } else {
      TimesTwice(q, 1);
    }
  }

  ghost function Times(q: nat, m: nat): nat
  {
    q * m
  }

  lemma TimesTwice(q: nat, m: nat)
    ensures Times(q, 2 * m) == 2 * Times(q, m)
  {
  }

  /** For these numbers of bits, and no others, a split can be seen in the digest. */
  lemma DigestTells(n: nat)
    ensures (forall w: Str :: |w| == WINDOW_SIZE ==> (TrailingOnes(S2(w)) >= n <==> TrailingOnes(DigestOf(w)) >= n)) <==>
            n <= 16 || n >= 31
  {
    hide TrailingOnes, DigestOf, S2;
    if n <= 16 {
      forall w: Str | |w| == WINDOW_SIZE ensures TrailingOnes(S2(w)) >= n <==> TrailingOnes(DigestOf(w)) >= n {
        DigestShowsSplits(w, n);
      }
    } else if n >= 31 {
      forall w: Str | |w| == WINDOW_SIZE ensures TrailingOnes(S2(w)) < 31 && TrailingOnes(DigestOf(w)) < 31 {
        NoSplits(w);
        ThirtyOnes(w);
      }
    } else {
      var w := DigestAhead();
    }
  }

  lemma ThirtyOnes(w: Str)
    requires |w| == WINDOW_SIZE
    ensures TrailingOnes(DigestOf(w)) < 31
  {
    Bounds(w);
    OnesNeedSize(DigestOf(w));
    Pow2Values();
    if TrailingOnes(DigestOf(w)) >= 31 {
      Pow2Grows(31, TrailingOnes(DigestOf(w)));
    }
  }
}
