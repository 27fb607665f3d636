/** The base-32 printer of runner hashes. */
module DigestId {
  import opened Prelude

  const CHARS := "0123456789abcdfghijklmnpqrsvwxyz"

  // ----- bitwise operators on unsigned integers

  function Or(a: nat, b: nat): nat
    decreases a + b
  {
    if a == 0 && b == 0 then 0 else (if a % 2 == 1 || b % 2 == 1 then 1 else 0) + 2 * Or(a / 2, b / 2)
  }

  function And(a: nat, b: nat): nat {
    if a == 0 || b == 0 then 0 else (if a % 2 == 1 && b % 2 == 1 then 1 else 0) + 2 * And(a / 2, b / 2)
  }

  function ShiftRight(a: nat, n: nat): nat {
    if n == 0 then a else ShiftRight(a / 2, n - 1)
  }

  function ShiftLeft(a: nat, n: nat): nat {
    if n == 0 then a else 2 * ShiftLeft(a, n - 1)
  }

  lemma {:induction false} ShiftLeftMultiplies(a: nat, n: nat)
    ensures ShiftLeft(a, n) == a * Pow2(n)
  {
    if n > 0 {
      ShiftLeftMultiplies(a, n - 1);
      assert 2 * (a * Pow2(n - 1)) == a * (2 * Pow2(n - 1));
    }
  }

  lemma {:induction false} ShiftRightDivides(a: nat, n: nat)
    ensures ShiftRight(a, n) == a / Pow2(n)
  {
    if n > 0 {
      ShiftRightDivides(a / 2, n - 1);
      HalfOfMod(a, Pow2(n - 1));
    }
  }

  lemma {:induction false} OrZero(b: nat)
    ensures Or(0, b) == b
  {
    if b > 0 {
      OrZero(b / 2);
    }
  }

  /** Numbers that share no bits: one is below `2^k`, the other a multiple of it. */
  lemma {:induction false} OrIsSum(a: nat, b: nat, k: nat)
    requires a < Pow2(k)
    ensures Or(a, ShiftLeft(b, k)) == a + ShiftLeft(b, k)
  {
    if k == 0 {
      OrZero(b);
    } else {
      OrIsSum(a / 2, b, k - 1);
    }
  }

  lemma DivisionIsUnique(a: int, d: int, q: int, r: int)
    requires d > 0 && a == d * q + r && 0 <= r < d
    ensures a / d == q && a % d == r
  {
    var x := a / d - q;
    assert d * (a / d) == d * q + d * x;
    assert x >= 1 ==> d * x >= d;
    assert x <= -1 ==> d * x <= -d;
  }

  lemma HalfOfMod(a: nat, p: nat)
    requires p > 0
    ensures a % (2 * p) == a % 2 + 2 * (a / 2 % p) && a / (2 * p) == a / 2 / p
  {
    var q := a / 2 / p;
    assert a / 2 == p * q + a / 2 % p;
    assert 2 * (p * q) == 2 * p * q;
    DivisionIsUnique(a, 2 * p, q, a % 2 + 2 * (a / 2 % p));
  }

  /** One more bit of a mask keeps one more bit of the remainder. */
  lemma MaskStep(a: nat, mask: nat)
    requires And(a / 2, mask) == a / 2 % (mask + 1)
    ensures And(a, 2 * mask + 1) == a % (2 * mask + 2)
  {
    HalfOfMod(a, mask + 1);
    if a == 0 {
      DivisionIsUnique(0, 2 * mask + 2, 0, 0);
    }
  }

  /** Masking the low five bits is the remainder by 32. */
  lemma FiveBits(a: nat)
    ensures And(a, 0x1F) == a % 32
  {
    var a1 := a / 2;
    var a2 := a1 / 2;
    var a3 := a2 / 2;
    var a4 := a3 / 2;
    MaskStep(a4, 0);
    MaskStep(a3, 1);
    MaskStep(a2, 3);
    MaskStep(a1, 7);
    MaskStep(a, 15);
  }

  // ----- numbers in base 32

  /** The integer whose little-endian bytes are `h`. */
  function Value(h: seq<byte>): nat {
    if h == [] then 0 else h[0] + 256 * Value(h[1..])
  }

  lemma {:induction false} ValueIsBounded(h: seq<byte>)
    ensures Value(h) < Pow2(8 * |h|)
  {
    if h != [] {
      ValueIsBounded(h[1..]);
      Pow2Sum(8, 8 * |h[1..]|);
      assert Pow2(8) == 256;
    }
  }

  lemma {:induction false} Pow2Sum(m: nat, n: nat)
    ensures Pow2(m + n) == Pow2(m) * Pow2(n)
  {
    if m > 0 {
      Pow2Sum(m - 1, n);
      assert Pow2(m) * Pow2(n) == 2 * (Pow2(m - 1) * Pow2(n));
    }
  }

  lemma {:induction false} ValueIsInjective(g: seq<byte>, h: seq<byte>)
    requires |g| == |h| && Value(g) == Value(h)
    ensures g == h
  {
    if g != [] {
      DivisionIsUnique(Value(g), 256, Value(g[1..]), g[0]);
      DivisionIsUnique(Value(h), 256, Value(h[1..]), h[0]);
      ValueIsInjective(g[1..], h[1..]);
      assert g == [g[0]] + g[1..] && h == [h[0]] + h[1..];
    }
  }

  /** `(n * 8 - 1) // 5 + 1`, rounding down. */
  function Base32Length(n: nat): nat {
    (n * 8 - 1) / 5 + 1
  }

  /** The printed digits are enough for every digest, and there is no digit to spare. */
  lemma LengthIsExact(n: nat)
    ensures 5 * Base32Length(n) >= 8 * n && (n > 0 ==> 5 * (Base32Length(n) - 1) < 8 * n)
  {
  }

  /** The digit of `32^n`. */
  function Digit(v: nat, n: nat): nat {
    v / Pow2(5 * n) % 32
  }

  /** The place of a character in the alphabet, which leaves out e, o, t and u. */
  function Place(c: char): nat {
    if '0' <= c <= '9' then (c - '0') as int
    else if 'a' <= c <= 'd' then (c - 'a') as int + 10
    else if 'f' <= c <= 'n' then (c - 'f') as int + 14
    else if 'p' <= c <= 's' then (c - 'p') as int + 23
    else if 'v' <= c <= 'z' then (c - 'v') as int + 27
    else 0
  }

  lemma AlphabetIsDistinct(i: nat)
    requires i < 32
    ensures Place(CHARS[i]) == i
  {
  }

  /** In ASCII, the alphabet is "0" to "9", "a" to "d", "f" to "n", "p" to "s" and "v" to "z". */
  lemma AlphabetIs(i: nat)
    requires i < 32
    ensures CHARS[i] as int ==
            if i < 10 then 48 + i else if i < 14 then 97 + (i - 10) else if i < 23 then 102 + (i - 14)
            else if i < 27 then 112 + (i - 23) else 118 + (i - 27)
  {
    AlphabetIsDistinct(i);
  }

  /** The integer a printed hash stands for, read in base 32 with the most significant digit first. */
  function Number(s: string): nat {
    if s == "" then 0 else 32 * Number(s[..|s| - 1]) + Place(s[|s| - 1])
  }

  // ----- one digit

  /** The byte after byte `i`, or 0 at the end. */
  function Next(h: seq<byte>, i: nat): byte {
    if i >= |h| - 1 then 0 else h[i + 1]
  }

  /** Byte `i` without its low `j` bits, and above it the byte that follows. */
  function Joined(h: seq<byte>, i: nat, j: nat): nat
    requires i < |h| && j < 8
  {
    Or(ShiftRight(h[i], j), ShiftLeft(Next(h, i), 8 - j))
  }

  /** The number digit `n` is cut out of. */
  function Window(h: seq<byte>, n: nat): nat
    requires 5 * n < 8 * |h|
  {
    Joined(h, 5 * n / 8, 5 * n % 8)
  }

  /** Dropping whole bytes divides by powers of 256. */
  lemma {:induction false} DropBytes(h: seq<byte>, i: nat)
    requires i <= |h|
    ensures Value(h) / Pow2(8 * i) == Value(h[i..])
  {
    if i > 0 {
      DropBytes(h[1..], i - 1);
      assert h[1..][i - 1..] == h[i..];
      Pow2Sum(8, 8 * (i - 1));
      assert Pow2(8) == 256;
      DivisionIsUnique(Value(h), 256, Value(h[1..]), h[0]);
      DivideTwice(Value(h), 256, Pow2(8 * (i - 1)));
    } else {
      assert h[0..] == h;
    }
  }

  lemma NestedDivision(d: nat, e: nat, b: nat, low: nat, q: nat, r: nat)
    requires b == e * q + r && r < e && low < d
    ensures d * b + low == d * e * q + (d * r + low) && d * r + low < d * e
  {
    var gap := e - 1 - r;
    assert d * b == d * (e * q) + d * r;
    assert d * (e * q) == d * e * q;
    assert d * e == d * r + d * gap + d;
    assert d * gap >= 0;
  }

  lemma DivideTwice(a: nat, d: nat, e: nat)
    requires d > 0 && e > 0
    ensures d * e > 0 && a / (d * e) == a / d / e
  {
    var b, low := a / d, a % d;
    var q, r := b / e, b % e;
    NestedDivision(d, e, b, low, q, r);
    DivisionIsUnique(a, d * e, q, d * r + low);
  }

  /** A byte followed by more bytes, shifted to the right by less than a byte. */
  lemma ShiftOut(first: byte, more: nat, j: nat)
    requires j < 8
    ensures ShiftRight(first, j) < Pow2(8 - j)
    ensures (first + 256 * more) / Pow2(j) == ShiftRight(first, j) + more * Pow2(8 - j)
  {
    ShiftRightDivides(first, j);
    Pow2Sum(j, 8 - j);
    assert Pow2(8) == 256;
    DivideSum(first, more, Pow2(j), Pow2(8 - j));
  }

  lemma DivideSum(first: nat, more: nat, p: nat, q: nat)
    requires p > 0 && p * q == 256 && first < 256
    ensures first / p < q && (first + 256 * more) / p == first / p + more * q
  {
    var high, low := first / p, first % p;
    assert high >= q ==> p * high >= p * q;
    assert p * (high + more * q) == p * high + p * q * more;
    DivisionIsUnique(first + 256 * more, p, high + more * q, low);
  }

  /** The bytes from `i` on, as the byte `i`, the next one and the rest. */
  lemma TwoBytes(h: seq<byte>, i: nat)
    requires i < |h|
    ensures Value(h[i..]) == h[i] + 256 * (Next(h, i) + 256 * Rest(h, i))
  {
    assert h[i..][1..] == h[i + 1..];
    assert i < |h| - 1 ==> h[i + 1..][1..] == h[i + 2..];
  }

  /** The window and the whole number above the digit agree in their low five bits. */
  lemma WindowIsDigit(h: seq<byte>, n: nat)
    requires 5 * n < 8 * |h|
    ensures And(Window(h, n), 0x1F) == Digit(Value(h), n)
  {
    var i, j := 5 * n / 8, 5 * n % 8;
    WindowAt(h, n, i, j);
  }

  /** The bytes after the first two that a digit is cut out of. */
  function Rest(h: seq<byte>, i: nat): nat {
    if i >= |h| - 1 then 0 else Value(h[i + 2..])
  }

  lemma WindowAt(h: seq<byte>, n: nat, i: nat, j: nat)
    requires i < |h| && j < 8 && 5 * n == 8 * i + j
    ensures And(Joined(h, i, j), 0x1F) == Digit(Value(h), n)
  {
    AboveIsSum(h, n, i, j);
    JoinedIsSum(h, i, j);
    FiveBits(Joined(h, i, j));
    SameLowBits(ShiftRight(h[i], j), Next(h, i), Rest(h, i), Pow2(8 - j));
  }

  lemma JoinedIsSum(h: seq<byte>, i: nat, j: nat)
    requires i < |h| && j < 8
    ensures Joined(h, i, j) == ShiftRight(h[i], j) + Next(h, i) * Pow2(8 - j)
  {
    ShiftOut(h[i], 0, j);
    OrIsSum(ShiftRight(h[i], j), Next(h, i), 8 - j);
    ShiftLeftMultiplies(Next(h, i), 8 - j);
  }

  lemma AboveIsSum(h: seq<byte>, n: nat, i: nat, j: nat)
    requires i < |h| && j < 8 && 5 * n == 8 * i + j
    ensures Value(h) / Pow2(5 * n) == ShiftRight(h[i], j) + (Next(h, i) + 256 * Rest(h, i)) * Pow2(8 - j)
  {
    Above(h, n, i, j);
    TwoBytes(h, i);
    ShiftOut(h[i], Next(h, i) + 256 * Rest(h, i), j);
  }

  lemma Above(h: seq<byte>, n: nat, i: nat, j: nat)
    requires i < |h| && 5 * n == 8 * i + j
    ensures Value(h) / Pow2(5 * n) == Value(h[i..]) / Pow2(j)
  {
    Pow2Sum(8 * i, j);
    DivideTwice(Value(h), Pow2(8 * i), Pow2(j));
    DropBytes(h, i);
  }

  lemma SameLowBits(high: nat, next: nat, rest: nat, q: nat)
    ensures (high + (next + 256 * rest) * q) % 32 == (high + next * q) % 32
  {
    var a := high + next * q;
    assert high + (next + 256 * rest) * q == a + 32 * (8 * (rest * q));
    DivisionIsUnique(a + 32 * (8 * (rest * q)), 32, a / 32 + 8 * (rest * q), a % 32);
  }

  // ----- the printer

  /** `s` spells the digits of `h` with nothing before or after them, the most significant first. */
  ghost predicate Spells(s: string, h: seq<byte>) {
    && |s| == Base32Length(|h|)
    && forall n :: 0 <= n < |s| ==> s[|s| - 1 - n] == CHARS[Digit(Value(h), n)]
  }

  method DigestToHashId(h: seq<byte>) returns (s: string)
    ensures Spells(s, h)
  {
    var len := Base32Length(|h|);
    LengthIsExact(|h|);
    s := "";
    var n: int := len - 1;
    while n >= 0
      invariant -1 <= n < len && |s| == len - 1 - n
      invariant forall k :: n < k < len ==> s[len - 1 - k] == CHARS[Digit(Value(h), k)]
    {
      var b := n * 5;
      var i, j := b / 8, b % 8;
      var c := Joined(h, i, j);
      WindowIsDigit(h, n);
      s := s + [CHARS[And(c, 0x1F)]];
      n := n - 1;
    }
  }

  /** `check_bytes`, given the SHA-256 digest of the data. */
  method CheckDigest(digest: seq<byte>, hash: string) returns (ok: bool)
    ensures ok <==> Spells(hash, digest)
  {
    var s := DigestToHashId(digest);
    ok := s == hash;
    if Spells(hash, digest) {
      forall k | 0 <= k < |s|
        ensures s[k] == hash[k]
      {
        var n := |s| - 1 - k;
        assert s[|s| - 1 - n] == CHARS[Digit(Value(digest), n)] == hash[|hash| - 1 - n];
      }
    }
  }

  lemma DigitStep(v: nat, n: nat)
    ensures v / Pow2(5 * n) == 32 * (v / Pow2(5 * (n + 1))) + Digit(v, n)
  {
    Pow2Sum(5 * n, 5);
    assert Pow2(5) == 32;
    DivideTwice(v, Pow2(5 * n), 32);
  }

  lemma {:induction false} PrefixIsHighPart(s: string, v: nat, k: nat)
    requires k <= |s| && v < Pow2(5 * |s|)
    requires forall n :: 0 <= n < |s| ==> s[|s| - 1 - n] == CHARS[Digit(v, n)]
    ensures Number(s[..k]) == v / Pow2(5 * (|s| - k))
  {
    if k == 0 {
      DivisionIsUnique(v, Pow2(5 * |s|), 0, v);
    } else {
      var n := |s| - k;
      PrefixIsHighPart(s, v, k - 1);
      DigitStep(v, n);
      assert s[..k][..k - 1] == s[..k - 1];
      assert s[k - 1] == s[|s| - 1 - n];
      AlphabetIsDistinct(Digit(v, n));
    }
  }

  lemma {:induction false} Pow2Grows(m: nat, n: nat)
    requires m <= n
    ensures Pow2(m) <= Pow2(n)
  {
    if m < n {
      Pow2Grows(m, n - 1);
    }
  }

  /** The printed hash stands for the same integer as the digest. */
  lemma HashKeepsValue(s: string, h: seq<byte>)
    requires Spells(s, h)
    ensures Number(s) == Value(h)
  {
    ValueIsBounded(h);
    LengthIsExact(|h|);
    Pow2Grows(8 * |h|, 5 * |s|);
    PrefixIsHighPart(s, Value(h), |s|);
    assert s[..|s|] == s;
  }

  /** Digests of the same length that print the same are the same. */
  lemma HashIsInjective(s: string, g: seq<byte>, h: seq<byte>)
    requires |g| == |h| && Spells(s, g) && Spells(s, h)
    ensures g == h
  {
    HashKeepsValue(s, g);
    HashKeepsValue(s, h);
    ValueIsInjective(g, h);
  }
}
