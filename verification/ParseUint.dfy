/**
 Numbers in a base from 2 to 36, exactly as large as 64 bits allow.
 */
module ParseUint {
  import opened Wrappers
  import opened Bytes
  import opened Powers

  const MAX_UINT64 := TWO_64 - 1

  datatype Error = Syntax | Range | InvalidBase

  // ---------- Values ----------

  /** The value of a digit, or None if c is none in any base. */
  function Digit(c: Byte): (v: Option<nat>)
    ensures v.Some? ==> v.value < 36
  {
    if 0x30 <= c <= 0x39 then Some(c - 0x30)
    else if 0x61 <= c <= 0x7a then Some(c - 0x61 + 10)
    else if 0x41 <= c <= 0x5a then Some(c - 0x41 + 10)
    else None
  }

  predicate IsDigit(c: Byte, base: nat)
  {
    Digit(c).Some? && Digit(c).value < base
  }

  predicate AllDigits(s: Str, base: nat)
  {
    forall i :: 0 <= i < |s| ==> IsDigit(s[i], base)
  }

  /** The number that digits mean. */
  function Value(s: Str, base: nat): nat
    requires AllDigits(s, base)
  {
    if s == [] then 0
    else Value(s[..|s| - 1], base) * base + Digit(s[|s| - 1]).value
  }

  /** How many digits s begins with. */
  function DigitsIn(s: Str, base: nat, i: nat := 0): (n: nat)
    requires i <= |s| && AllDigits(s[..i], base)
    ensures i <= n <= |s| && AllDigits(s[..n], base)
    ensures n < |s| ==> !IsDigit(s[n], base)
    decreases |s| - i
  {
    if i == |s| || !IsDigit(s[i], base) then i
    else
      assert s[..i + 1] == s[..i] + [s[i]];
      DigitsIn(s, base, i + 1)
  }

  /** The digits are what they are, wherever they are found. */
  lemma DigitsAre(s: Str, base: nat, n: nat)
    requires n <= |s| && AllDigits(s[..n], base) && (n < |s| ==> !IsDigit(s[n], base))
    ensures DigitsIn(s, base) == n
  {
  }

  lemma {:induction false} ValueGrows(s: Str, base: nat, n: nat, m: nat)
    requires base >= 1 && n <= m <= |s| && AllDigits(s[..m], base)
    ensures AllDigits(s[..n], base) && Value(s[..n], base) <= Value(s[..m], base)
    decreases m
  {
    if n < m {
      DigitsUpTo(s, base, m - 1, m);
      hide Value, Times, AllDigits;
      OneMoreDigit(s, base, m - 1);
      TimesGrows(Value(s[..m - 1], base), base);
      ValueGrows(s, base, n, m - 1);
    }
  }

  lemma DigitsUpTo(s: Str, base: nat, n: nat, m: nat)
    requires n <= m <= |s| && AllDigits(s[..m], base)
    ensures AllDigits(s[..n], base) && (n < m ==> IsDigit(s[n], base))
  {
  }

  lemma TimesGrows(n: nat, base: nat)
    requires base >= 1
    ensures Times(n, base) >= n
  {
  }

  /** The largest number of bitSize bits; 0 and everything out of range mean 64. */
  function MaxVal(bitSize: int): nat
  {
    if 1 <= bitSize < 64 then Pow2(bitSize) - 1 else MAX_UINT64
  }

  /** The base and the digits: base 0 asks to find out from a prefix. */
  function Prefix(s: Str, base: int): Option<(nat, Str)>
    requires s != []
  {
    if 2 <= base <= 36 then Some((base, s))
    else if base != 0 then None
    else if s[0] != 0x30 then Some((10, s))
    else if |s| > 1 && (s[1] == 0x78 || s[1] == 0x58) then Some((16, s[2..]))
    else Some((8, s))
  }

  datatype Outcome = Outcome(n: nat, err: Option<Error>)

  /** Too large a number is noticed before a byte behind it that is not a digit. */
  function Scan(s: Str, base: nat, max: nat): Outcome
    requires base > 0
  {
    var n := DigitsIn(s, base);
    if Value(s[..n], base) > max then Outcome(MAX_UINT64, Some(Range))
    else if n < |s| then Outcome(0, Some(Syntax))
    else Outcome(Value(s[..n], base), None)
  }

  function Parse(s: Str, base: int, bitSize: int): Outcome
  {
    if s == [] then Outcome(0, Some(Syntax))
    else match Prefix(s, base)
      case None => Outcome(0, Some(InvalidBase))
      case Some((b, digits)) =>
        if digits == [] then Outcome(0, Some(Syntax)) else Scan(digits, b, MaxVal(bitSize))
  }

  // ---------- The parser ----------

  /** The first number that must not be multiplied by base. */
  function Cutoff64(base: int): (c: nat)
    ensures base >= 2 ==> forall n: nat :: n < c <==> Times(n, base) < TWO_64
    ensures base < 2 ==> c == 0
  {
    if base < 2 then 0
    else
      CutoffIs(base);
      MAX_UINT64 / base + 1
  }

  ghost function Times(n: nat, base: int): int
  {
    n * base
  }

  lemma CutoffIs(base: nat)
    requires base >= 2
    ensures forall n: nat :: n < MAX_UINT64 / base + 1 <==> Times(n, base) < TWO_64
  {
    var q := MAX_UINT64 / base;
    var r := MAX_UINT64 % base;
    forall n: nat ensures n <= q <==> Times(n, base) < TWO_64 {
      assert MAX_UINT64 == q * base + r;
      if n <= q {
        assert n * base <= q * base;
      } else {
        assert n * base >= (q + 1) * base == q * base + base;
      }
    }
  }

  lemma {:induction false} Pow2Small(n: nat)
    requires n <= 64
    ensures Pow2(n) <= TWO_64
  {
    Pow2Values();
    Pow2Grows(n, 64);
  }

  method ParseUintBytes(s: Str, base: int, bitSize: int) returns (n: nat, err: Option<Error>)
    ensures Outcome(n, err) == Parse(s, base, bitSize)
    ensures n < TWO_64
  {
    hide Scan;
    var b, t := base, s;
    if |s| < 1 { return 0, Some(Syntax); }
    if 2 <= base <= 36 {
    } else if base == 0 {
      if s[0] == 0x30 && |s| > 1 && (s[1] == 0x78 || s[1] == 0x58) {
        b := 16;
        t := s[2..];
        if |t| < 1 { return 0, Some(Syntax); }
      } else if s[0] == 0x30 {
        b := 8;
      } else {
        b := 10;
      }
    } else {
      return 0, Some(InvalidBase);
    }
    var maxVal := if 1 <= bitSize < 64 then Pow2(bitSize) - 1 else MAX_UINT64;
    MaxIsSmall(bitSize);
    n, err := ScanDigits(t, b, maxVal);
  }

  /** 64-bit arithmetic, in which neither the product nor the sum may wrap around unnoticed. */
  method ScanDigits(t: Str, base: nat, maxVal: nat) returns (n: nat, err: Option<Error>)
    requires 2 <= base <= 36 && maxVal < TWO_64
    ensures Outcome(n, err) == Scan(t, base, maxVal) && n < TWO_64
  {
    hide Scan, Value, AllDigits, Digit, DigitsIn, Times;
    n := 0;
    var cutoff := Cutoff64(base);
    var i := 0;
    NoDigits(t, base);
    while i < |t|
      invariant i <= |t| && AllDigits(t[..i], base) && n == Value(t[..i], base) <= maxVal
    {
      var v := Digit(t[i]);
      if v.None? || v.value >= base {
        NotADigit(t, base, i, maxVal);
        return 0, Some(Syntax);
      }
      OneMoreDigit(t, base, i);
      if n >= cutoff {
        TooLarge(t, base, i + 1, maxVal);
        return MAX_UINT64, Some(Range);
      }
      var product := Product(n, base);
      var n1 := (product + v.value) % TWO_64;
      if n1 < product || n1 > maxVal {
        TooLarge(t, base, i + 1, maxVal);
        return MAX_UINT64, Some(Range);
      }
      n := n1;
      i := i + 1;
    }
    OnlyDigitsRead(t, base, maxVal);
    err := None;
  }

  /** As it is computed with 64 bits. */
  method Product(n: nat, base: nat) returns (p: nat)
    requires Times(n, base) < TWO_64
    ensures p == Times(n, base)
  {
    p := n * base % TWO_64;
  }

  lemma NoDigits(t: Str, base: nat)
    ensures AllDigits(t[..0], base) && Value(t[..0], base) == 0
  {
  }

  lemma NotADigit(t: Str, base: nat, i: nat, max: nat)
    requires base > 0 && i < |t| && AllDigits(t[..i], base) && !IsDigit(t[i], base) && Value(t[..i], base) <= max
    ensures Scan(t, base, max) == Outcome(0, Some(Syntax))
  {
    DigitsAre(t, base, i);
  }

  lemma OnlyDigitsRead(t: Str, base: nat, max: nat)
    requires base > 0 && AllDigits(t[..|t|], base) && Value(t[..|t|], base) <= max
    ensures Scan(t, base, max) == Outcome(Value(t[..|t|], base), None)
  {
    DigitsAre(t, base, |t|);
  }

  lemma MaxIsSmall(bitSize: int)
    ensures MaxVal(bitSize) < TWO_64
  {
    if 1 <= bitSize < 64 { Pow2Small(bitSize); }
  }

  lemma OneMoreDigit(t: Str, base: nat, i: nat)
    requires i < |t| && AllDigits(t[..i], base) && IsDigit(t[i], base)
    ensures AllDigits(t[..i + 1], base)
    ensures Value(t[..i + 1], base) == Times(Value(t[..i], base), base) + Digit(t[i]).value
  {
    var u := t[..i + 1];
    assert u[..|u| - 1] == t[..i];
    forall k | 0 <= k < |u| ensures IsDigit(u[k], base) {
      assert k < i ==> u[k] == t[..i][k];
    }
  }

  /** A number that begins with too large a number is too large. */
  lemma TooLarge(t: Str, base: nat, i: nat, max: nat)
    requires base >= 1 && i <= |t| && AllDigits(t[..i], base) && Value(t[..i], base) > max
    ensures Scan(t, base, max) == Outcome(MAX_UINT64, Some(Range))
  {
    ValueGrows(t, base, i, DigitsIn(t, base));
  }

  // ---------- Consequences ----------

  /** How many bits count: 0 and everything out of range mean 64. */
  function Width(bitSize: int): nat
  {
    if 1 <= bitSize <= 64 then bitSize else 64
  }

  lemma MaxFits(n: nat, bitSize: int)
    ensures n <= MaxVal(bitSize) <==> n < Pow2(Width(bitSize))
  {
    Pow2Values();
  }

  /** Digits are parsed to their exact value if it fits, and else the error says that it does not. */
  lemma ExactOrRange(s: Str, base: int, bitSize: int)
    requires 2 <= base <= 36 && s != [] && AllDigits(s, base)
    ensures Parse(s, base, bitSize) ==
      if Value(s, base) < Pow2(Width(bitSize)) then Outcome(Value(s, base), None)
      else Outcome(0xffff_ffff_ffff_ffff, Some(Range))
  {
    assert s[..|s|] == s;
    DigitsAre(s, base, |s|);
    MaxFits(Value(s, base), bitSize);
  }

  /** A number is returned without an error for digits only. */
  lemma OnlyDigits(s: Str, base: int, bitSize: int)
    requires 2 <= base <= 36
    ensures Parse(s, base, bitSize).err.None? <==>
      s != [] && AllDigits(s, base) && Value(s, base) < Pow2(Width(bitSize))
  {
    if s != [] && DigitsIn(s, base) == |s| {
      assert s[..|s|] == s;
    }
    if s != [] && AllDigits(s, base) {
      ExactOrRange(s, base, bitSize);
    }
  }

  /** A byte that is no digit is noticed unless what is before it is too large already. */
  lemma BadByte(s: Str, base: int, bitSize: int, i: nat)
    requires 2 <= base <= 36 && i < |s| && AllDigits(s[..i], base) && !IsDigit(s[i], base)
    ensures Parse(s, base, bitSize) ==
      if Value(s[..i], base) < Pow2(Width(bitSize)) then Outcome(0, Some(Syntax))
      else Outcome(0xffff_ffff_ffff_ffff, Some(Range))
  {
    DigitsAre(s, base, i);
    MaxFits(Value(s[..i], base), bitSize);
  }

  /** Base 0 asks for the base of Go's literals; an empty input is an error in every base. */
  lemma BaseFromPrefix(s: Str, bitSize: int)
    ensures s != [] ==> Parse(Ascii("0x") + s, 0, bitSize) == Parse(s, 16, bitSize)
    ensures s != [] ==> Parse(Ascii("0X") + s, 0, bitSize) == Parse(s, 16, bitSize)
    ensures Parse(Ascii("0x"), 0, bitSize) == Parse(Ascii("0X"), 0, bitSize) == Outcome(0, Some(Syntax))
    ensures var t := Ascii("0") + s;
      s == [] || (s[0] != 'x' as int && s[0] != 'X' as int) ==> Parse(t, 0, bitSize) == Parse(t, 8, bitSize)
    ensures s != [] && s[0] != '0' as int ==> Parse(s, 0, bitSize) == Parse(s, 10, bitSize)
    ensures forall base :: s != [] && base != 0 && !(2 <= base <= 36) ==> Parse(s, base, bitSize).err == Some(InvalidBase)
    ensures forall base :: Parse([], base, bitSize) == Outcome(0, Some(Syntax))
  {
    hide Scan, MaxVal;
    assert (Ascii("0x") + s)[2..] == s && (Ascii("0X") + s)[2..] == s;
  }

  // ---------- Numbers that were written ----------

  const LOWER := "0123456789abcdefghijklmnopqrstuvwxyz"
  const UPPER := "0123456789ABCDEFGHIJKLMNOPQRSTUVWXYZ"

  lemma LowerIs(k: nat)
    requires k < 36
    ensures LOWER[k] as int == if k < 10 then 0x30 + k else 0x61 + (k - 10)
  {
  }

  lemma UpperIs(k: nat)
    requires k < 36
    ensures UPPER[k] as int == if k < 10 then 0x30 + k else 0x41 + (k - 10)
  {
  }

  function Character(k: nat, upper: bool): Byte
    requires k < 36
  {
    LowerIs(k);
    UpperIs(k);
    (if upper then UPPER[k] else LOWER[k]) as int
  }

  /** The digits are the characters in these two lists, and each means its place there. */
  lemma DigitIs(c: Byte, k: nat)
    ensures Digit(c) == Some(k) <==> k < 36 && (c == LOWER[k] as int || c == UPPER[k] as int)
  {
    hide LOWER, UPPER;
    if k < 36 {
      LowerIs(k);
      UpperIs(k);
    }
  }

  ghost function Written(n: nat, base: nat, upper: bool): Str
    requires 2 <= base <= 36
  {
    Remainder(n, base);
    var last := [Character(n % base, upper)];
    if n < base then last else Written(n / base, base, upper) + last
  }

  ghost function LeadingZeros(k: nat): Str
  {
    if k == 0 then [] else LeadingZeros(k - 1) + Ascii("0")
  }

  lemma {:induction false} ZerosMean(k: nat, base: nat)
    requires 2 <= base <= 36
    ensures Means(LeadingZeros(k), base, 0)
  {
    if k > 0 {
      hide Value, AllDigits, Times;
      TimesIs(0, base);
      ZerosMean(k - 1, base);
      Append(LeadingZeros(k - 1), 0x30, base);
    }
  }

  /** One more digit behind a number. */
  lemma Append(s: Str, c: Byte, base: nat)
    requires AllDigits(s, base) && IsDigit(c, base)
    ensures AllDigits(s + [c], base)
    ensures Value(s + [c], base) == Times(Value(s, base), base) + Digit(c).value
  {
    var t := s + [c];
    assert t[..|s|] == s && t[..|t|] == t;
    OneMoreDigit(t, base, |s|);
  }

  lemma {:induction false} WrittenMeans(n: nat, base: nat, upper: bool, k: nat)
    requires 2 <= base <= 36
    ensures Means(LeadingZeros(k) + Written(n, base, upper), base, n)
    decreases n
  {
    hide *;
    WrittenStep(n, base, upper);
    Remainder(n, base);
    var q, c := n / base, Character(n % base, upper);
    if n < base {
      ZerosMean(k, base);
      AppendMeans(LeadingZeros(k), 0, n, base, upper);
      assert LeadingZeros(k) + Written(n, base, upper) == LeadingZeros(k) + [c];
    } else {
      WrittenMeans(q, base, upper, k);
      AppendMeans(LeadingZeros(k) + Written(q, base, upper), q, n, base, upper);
      assert LeadingZeros(k) + Written(n, base, upper) == LeadingZeros(k) + Written(q, base, upper) + [c];
    }
  }

  ghost predicate Means(s: Str, base: nat, n: nat)
  {
    AllDigits(s, base) && Value(s, base) == n
  }

  lemma AppendMeans(s: Str, q: nat, n: nat, base: nat, upper: bool)
    requires 2 <= base <= 36 && Means(s, base, q) && q == n / base
    ensures Means(s + [Character(n % base, upper)], base, n)
  {
    hide Value, AllDigits, Character, Digit, Times;
    Remainder(n, base);
    CharacterMeans(n % base, base, upper);
    Append(s, Character(n % base, upper), base);
  }

  lemma Remainder(n: nat, base: nat)
    requires base >= 2
    ensures 0 <= n % base < base && Times(n / base, base) + n % base == n
    ensures if n < base then n / base == 0 && n % base == n else n / base < n
  {
    var q, r := n / base, n % base;
    assert n == q * base + r;
    Multiple(q, base, 2);
    hide Times;
    TimesIs(q, base);
  }

  lemma TimesIs(q: nat, base: nat)
    ensures Times(q, base) == q * base
  {
  }

  lemma Multiple(q: nat, base: nat, least: nat)
    requires base >= least
    ensures q * base >= q * least
    ensures q > 0 ==> q * base >= base
  {
  }

  lemma WrittenStep(n: nat, base: nat, upper: bool)
    requires 2 <= base <= 36
    ensures Written(n, base, upper) ==
      (if n < base then [] else Written(n / base, base, upper)) + [Character(n % base, upper)]
  {
  }

  lemma CharacterMeans(k: nat, base: nat, upper: bool)
    requires k < base <= 36
    ensures var c := Character(k, upper); IsDigit(c, base) && Digit(c) == Some(k)
  {
    hide LOWER, UPPER;
    DigitIs(Character(k, upper), k);
  }

  /** Every number that fits is parsed to itself, and leading zeros make no difference. */
  lemma WrittenIsRead(n: nat, base: nat, upper: bool, k: nat, bitSize: int)
    requires 2 <= base <= 36
    ensures Parse(LeadingZeros(k) + Written(n, base, upper), base, bitSize) ==
      if n < Pow2(Width(bitSize)) then Outcome(n, None) else Outcome(0xffff_ffff_ffff_ffff, Some(Range))
  {
    hide Parse, Written, LeadingZeros;
    WrittenMeans(n, base, upper, k);
    assert Written(n, base, upper) != [] by { WrittenStep(n, base, upper); }
    ExactOrRange(LeadingZeros(k) + Written(n, base, upper), base, bitSize);
  }
}
