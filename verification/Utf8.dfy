/** UTF-8 (RFC 3629): the grammar, the encoder, and the lossless decoder that marks the bytes it cannot decode. */
module Utf8 {
  import opened Prelude

  // ----- RFC 3629: encoding (section 3) and grammar (section 4)

  predicate IsScalar(c: nat) {
    c < 0xD800 || 0xE000 <= c < 0x110000
  }

  type Scalar = c: nat | IsScalar(c)

  function Utf8Len(c: Scalar): nat {
    if c < 0x80 then 1 else if c < 0x800 then 2 else if c < 0x10000 then 3 else 4
  }

  function Encode(c: Scalar): (b: seq<byte>)
    ensures |b| == Utf8Len(c)
  {
    if c < 0x80 then [c]
    else if c < 0x800 then [0xC0 + c / 64, 0x80 + c % 64]
    else if c < 0x10000 then [0xE0 + c / 4096, 0x80 + c / 64 % 64, 0x80 + c % 64]
    else assert IsScalar(c); [0xF0 + c / 262144, 0x80 + c / 4096 % 64, 0x80 + c / 64 % 64, 0x80 + c % 64]
  }

  predicate IsTail(b: byte) {
    0x80 <= b < 0xC0
  }

  /** The length of the character that starts `s` by the grammar, or 0 if none does. */
  function GrammarLen(s: seq<byte>): (l: nat)
    ensures l <= |s|
  {
    if s == [] then 0
    else if s[0] < 0x80 then 1
    else if |s| >= 2 && 0xC2 <= s[0] <= 0xDF && IsTail(s[1]) then 2
    else if |s| >= 3 && IsTail(s[2])
            && ((s[0] == 0xE0 && 0xA0 <= s[1] <= 0xBF) || (0xE1 <= s[0] <= 0xEC && IsTail(s[1]))
                || (s[0] == 0xED && 0x80 <= s[1] <= 0x9F) || (0xEE <= s[0] <= 0xEF && IsTail(s[1]))) then 3
    else if |s| >= 4 && IsTail(s[2]) && IsTail(s[3])
            && ((s[0] == 0xF0 && 0x90 <= s[1] <= 0xBF) || (0xF1 <= s[0] <= 0xF3 && IsTail(s[1]))
                || (s[0] == 0xF4 && 0x80 <= s[1] <= 0x8F)) then 4
    else 0
  }

  /** A string of characters of the grammar: what `str::from_utf8` accepts. */
  predicate Valid(s: seq<byte>) {
    s == [] || (GrammarLen(s) > 0 && Valid(s[GrammarLen(s)..]))
  }

  // ----- one step of the decoder, as a function

  datatype Item = Char(c: Scalar) | Invalid(raw: seq<byte>)

  /** `(!b).leading_zeros()`. */
  function LeadingOnes(b: byte): nat {
    if b < 0x80 then 0 else if b < 0xC0 then 1 else if b < 0xE0 then 2 else if b < 0xF0 then 3
    else if b < 0xF8 then 4 else if b < 0xFC then 5 else if b < 0xFE then 6 else if b < 0xFF then 7 else 8
  }

  /** The bits of a leading byte below its `l` ones and the zero: `b & (0x7F >> l)`. */
  function LeadBits(b: byte, l: nat): nat
    requires 2 <= l <= 6
  {
    b % (if l == 2 then 32 else if l == 3 then 16 else if l == 4 then 8 else if l == 5 then 4 else 2)
  }

  /** How many of the first `n` bytes are continuation bytes without a break. */
  function Tails(s: seq<byte>, n: nat): (k: nat)
    ensures k <= n && k <= |s|
  {
    if n == 0 || s == [] || !IsTail(s[0]) then 0 else 1 + Tails(s[1..], n - 1)
  }

  /** Appends the six payload bits of each continuation byte. */
  function Payload(x: nat, tail: seq<byte>): nat
    decreases |tail|
  {
    if tail == [] then x else Payload(x * 64 + tail[0] % 64, tail[1..])
  }

  function Step(s: seq<byte>): (r: (Item, seq<byte>))
    requires s != []
    ensures |r.1| < |s|
  {
    var l := LeadingOnes(s[0]);
    if l == 0 then (Char(s[0]), s[1..])
    else if !(2 <= l <= 6) then (Invalid(s[..1]), s[1..])
    else
      var n := Tails(s[1..], l - 1);
      if n < l - 1 then (Invalid(s[..1 + n]), s[1 + n..])
      else
        var x := Payload(LeadBits(s[0], l), s[1..l]);
        if IsScalar(x) && Utf8Len(x) == l then (Char(x), s[l..]) else (Invalid(s[..l]), s[l..])
  }

  function Spelling(item: Item): seq<byte> {
    match item
    case Char(c) => Encode(c)
    case Invalid(raw) => raw
  }

  lemma TailsOf(s: seq<byte>, n: nat)
    requires n <= 3
    ensures Tails(s, n) == n <==> |s| >= n && forall i :: 0 <= i < n ==> IsTail(s[i])
  {
    if n >= 1 && |s| >= 1 {
      assert Tails(s[1..], n - 1) == n - 1 <==> |s| >= n && forall i :: 1 <= i < n ==> IsTail(s[i]) by {
        TailsOf(s[1..], n - 1);
        assert forall i :: 1 <= i < n && n <= |s| ==> s[i] == s[1..][i - 1];
      }
    }
  }

  lemma PayloadOf(x: nat, s: seq<byte>)
    ensures |s| == 1 ==> Payload(x, s) == x * 64 + s[0] as int % 64
    ensures |s| == 2 ==> Payload(x, s) == x * 4096 + s[0] as int % 64 * 64 + s[1] as int % 64
    ensures |s| == 3 ==>
              Payload(x, s) == x * 262144 + s[0] as int % 64 * 4096 + s[1] as int % 64 * 64 + s[2] as int % 64
    decreases |s|
  {
    if |s| == 2 || |s| == 3 {
      PayloadOf(x * 64 + s[0] % 64, s[1..]);
    }
  }

  // ----- what one step promises

  /** Whatever a step reports as undecodable is the bytes it passed. */
  lemma InvalidIsPassed(s: seq<byte>)
    requires s != []
    ensures Step(s).0.Invalid? ==> Step(s).0.raw != [] && Step(s).0.raw + Step(s).1 == s
  {
  }

  /** A step on a leading byte of two to four bytes: all of them must be there, and make a character of that length. */
  lemma StepMulti(s: seq<byte>, l: nat)
    requires s != [] && 2 <= l <= 4 && LeadingOnes(s[0]) == l
    ensures if |s| >= l && forall i :: 1 <= i < l ==> IsTail(s[i]) then
              var x := Payload(LeadBits(s[0], l), s[1..l]);
              if IsScalar(x) && Utf8Len(x) == l then Step(s) == (Char(x), s[l..]) else Step(s).0.Invalid?
            else Step(s).0.Invalid?
  {
    TailsOf(s[1..], l - 1);
    assert forall i :: 1 <= i < l && l <= |s| ==> s[1..][i - 1] == s[i];
  }

  /** A step reports a character exactly where the grammar has one, and passes over its bytes. */
  lemma StepIsExact(s: seq<byte>)
    requires s != []
    ensures Step(s).0.Char? <==> GrammarLen(s) > 0
    ensures Step(s).0.Char? ==> Step(s).1 == s[GrammarLen(s)..] && Encode(Step(s).0.c) == s[..GrammarLen(s)]
  {
    var l := LeadingOnes(s[0]);
    if l == 2 {
      StepIsExact2(s);
    } else if l == 3 {
      StepIsExact3(s);
    } else if l == 4 {
      StepIsExact4(s);
    } else {
      assert GrammarLen(s) == if l == 0 then 1 else 0;
    }
  }

  lemma StepIsExact2(s: seq<byte>)
    requires s != [] && LeadingOnes(s[0]) == 2
    ensures Step(s).0.Char? <==> GrammarLen(s) > 0
    ensures Step(s).0.Char? ==> Step(s).1 == s[GrammarLen(s)..] && Encode(Step(s).0.c) == s[..GrammarLen(s)]
  {
    StepMulti(s, 2);
    if |s| >= 2 && IsTail(s[1]) {
      PayloadOf(LeadBits(s[0], 2), s[1..2]);
      TwoBytes(s);
    }
  }

  lemma StepIsExact3(s: seq<byte>)
    requires s != [] && LeadingOnes(s[0]) == 3
    ensures Step(s).0.Char? <==> GrammarLen(s) > 0
    ensures Step(s).0.Char? ==> Step(s).1 == s[GrammarLen(s)..] && Encode(Step(s).0.c) == s[..GrammarLen(s)]
  {
    StepMulti(s, 3);
    if |s| >= 3 && IsTail(s[1]) && IsTail(s[2]) {
      PayloadOf(LeadBits(s[0], 3), s[1..3]);
      ThreeBytes(s);
    }
  }

  lemma StepIsExact4(s: seq<byte>)
    requires s != [] && LeadingOnes(s[0]) == 4
    ensures Step(s).0.Char? <==> GrammarLen(s) > 0
    ensures Step(s).0.Char? ==> Step(s).1 == s[GrammarLen(s)..] && Encode(Step(s).0.c) == s[..GrammarLen(s)]
  {
    StepMulti(s, 4);
    if |s| >= 4 && IsTail(s[1]) && IsTail(s[2]) && IsTail(s[3]) {
      PayloadOf(LeadBits(s[0], 4), s[1..4]);
      FourBytes(s);
    }
  }

  lemma TwoBytes(s: seq<byte>)
    requires |s| >= 2 && LeadingOnes(s[0]) == 2 && IsTail(s[1])
    ensures var x := s[0] as int % 32 * 64 + s[1] as int % 64;
            (IsScalar(x) && Utf8Len(x) == 2 <==> GrammarLen(s) == 2) && (GrammarLen(s) == 2 ==> Encode(x) == s[..2])
  {
  }

  lemma ThreeBytes(s: seq<byte>)
    requires |s| >= 3 && LeadingOnes(s[0]) == 3 && IsTail(s[1]) && IsTail(s[2])
    ensures var x := s[0] as int % 16 * 4096 + s[1] as int % 64 * 64 + s[2] as int % 64;
            (IsScalar(x) && Utf8Len(x) == 3 <==> GrammarLen(s) == 3) && (GrammarLen(s) == 3 ==> Encode(x) == s[..3])
  {
    SixBitDigits(0, s[0] % 16, s[1] % 64, s[2] % 64);
  }

  lemma FourBytes(s: seq<byte>)
    requires |s| >= 4 && LeadingOnes(s[0]) == 4 && IsTail(s[1]) && IsTail(s[2]) && IsTail(s[3])
    ensures var x := s[0] as int % 8 * 262144 + s[1] as int % 64 * 4096 + s[2] as int % 64 * 64 + s[3] as int % 64;
            (IsScalar(x) && Utf8Len(x) == 4 <==> GrammarLen(s) == 4) && (GrammarLen(s) == 4 ==> Encode(x) == s[..4])
  {
    SixBitDigits(s[0] % 8, s[1] % 64, s[2] % 64, s[3] % 64);
  }

  lemma SixBitDigits(p: nat, q: nat, r: nat, t: nat)
    requires q < 64 && r < 64 && t < 64
    ensures var x := p * 262144 + q * 4096 + r * 64 + t;
            x / 262144 == p && x / 4096 % 64 == q && x / 64 % 64 == r && x % 64 == t
  {
    var z := p * 64 + q;
    var y := z * 64 + r;
    var x := y * 64 + t;
    LastDigit(x, y, t);
    LastDigit(y, z, r);
    LastDigit(z, p, q);
    assert x / 4096 == x / 64 / 64 && x / 262144 == x / 4096 / 64;
  }

  lemma LastDigit(x: nat, high: nat, low: nat)
    requires x == high * 64 + low && low < 64
    ensures x / 64 == high && x % 64 == low
  {
  }

  /** The encoding of a character is read back as that character. */
  lemma StepOfEncode(c: Scalar, tail: seq<byte>)
    ensures Step(Encode(c) + tail) == (Char(c), tail)
  {
    var s := Encode(c) + tail;
    assert s[..Utf8Len(c)] == Encode(c) && s[Utf8Len(c)..] == tail;
    EncodeIsGrammatical(c, tail);
    StepIsExact(s);
    EncodeInjective(c, Step(s).0.c);
  }

  lemma ThreeBytesAreGrammatical(c: Scalar, s: seq<byte>)
    requires 0x800 <= c < 0x10000 && |s| >= 3
    requires s[0] == 0xE0 + c / 4096 && s[1] == 0x80 + c / 64 % 64 && s[2] == 0x80 + c % 64
    ensures GrammarLen(s) == 3
  {
    assert IsScalar(c);
    assert c / 64 == c / 4096 * 64 + c / 64 % 64;
  }

  lemma FourBytesAreGrammatical(c: Scalar, s: seq<byte>)
    requires 0x10000 <= c && |s| >= 4
    requires s[0] == 0xF0 + c / 262144 && s[1] == 0x80 + c / 4096 % 64
    requires s[2] == 0x80 + c / 64 % 64 && s[3] == 0x80 + c % 64
    ensures GrammarLen(s) == 4
  {
    assert IsScalar(c);
    assert c / 4096 == c / 262144 * 64 + c / 4096 % 64;
  }

  lemma EncodeIsGrammatical(c: Scalar, tail: seq<byte>)
    ensures GrammarLen(Encode(c) + tail) == Utf8Len(c)
  {
    var s := Encode(c) + tail;
    assert forall i :: 0 <= i < Utf8Len(c) ==> s[i] == Encode(c)[i];
    if 0x800 <= c < 0x10000 {
      ThreeBytesAreGrammatical(c, s);
    } else if 0x10000 <= c {
      FourBytesAreGrammatical(c, s);
    }
  }

  lemma EncodeInjective(c: Scalar, d: Scalar)
    requires Encode(c) == Encode(d)
    ensures c == d
  {
    var b := Encode(c);
    assert |b| == Utf8Len(c) == Utf8Len(d);
    if |b| == 3 {
      ThreeByteValue(c);
      ThreeByteValue(d);
    } else if |b| == 4 {
      FourByteValue(c);
      FourByteValue(d);
    }
  }

  lemma ThreeByteValue(c: Scalar)
    requires Utf8Len(c) == 3
    ensures var b := Encode(c); c == (b[0] - 0xE0) as int * 4096 + (b[1] - 0x80) as int * 64 + (b[2] - 0x80) as int
  {
    assert c / 64 == c / 4096 * 64 + c / 64 % 64;
  }

  lemma FourByteValue(c: Scalar)
    requires Utf8Len(c) == 4
    ensures var b := Encode(c);
            c == (b[0] - 0xF0) as int * 262144 + (b[1] - 0x80) as int * 4096 + (b[2] - 0x80) as int * 64
                 + (b[3] - 0x80) as int
  {
    assert c / 64 == c / 4096 * 64 + c / 64 % 64;
    assert c / 4096 == c / 262144 * 64 + c / 4096 % 64;
  }

  // ----- the whole input

  function DecodeAll(s: seq<byte>): seq<Item>
    decreases |s|
  {
    if s == [] then [] else [Step(s).0] + DecodeAll(Step(s).1)
  }

  function SpellAll(items: seq<Item>): seq<byte> {
    if items == [] then [] else Spelling(items[0]) + SpellAll(items[1..])
  }

  predicate NoErrors(items: seq<Item>) {
    forall i :: 0 <= i < |items| ==> items[i].Char?
  }

  /** Lossless: what the items spell, characters and raw bytes alike, is the input. */
  lemma {:induction false} DecodeIsLossless(s: seq<byte>)
    ensures SpellAll(DecodeAll(s)) == s
    decreases |s|
  {
    if s != [] {
      StepIsExact(s);
      InvalidIsPassed(s);
      assert s == Spelling(Step(s).0) + Step(s).1;
      DecodeIsLossless(Step(s).1);
      assert DecodeAll(s)[1..] == DecodeAll(Step(s).1);
    }
  }

  /** Exact: there is no error item exactly for the strings of the grammar. */
  lemma {:induction false} NoErrorsIffValid(s: seq<byte>)
    ensures NoErrors(DecodeAll(s)) <==> Valid(s)
    decreases |s|
  {
    if s != [] {
      StepIsExact(s);
      NoErrorsIffValid(Step(s).1);
      var items := DecodeAll(s);
      assert items[0] == Step(s).0 && items[1..] == DecodeAll(Step(s).1);
      assert NoErrors(items) <==> items[0].Char? && NoErrors(items[1..]) by {
        assert forall i :: 1 <= i < |items| ==> items[i] == items[1..][i - 1];
        assert forall i :: 0 <= i < |items[1..]| ==> items[1..][i] == items[i + 1];
      }
    }
  }

  function EncodeAll(cs: seq<Scalar>): seq<byte> {
    if cs == [] then [] else Encode(cs[0]) + EncodeAll(cs[1..])
  }

  function Chars(cs: seq<Scalar>): (items: seq<Item>)
    ensures NoErrors(items)
  {
    seq(|cs|, i requires 0 <= i < |cs| => Char(cs[i]))
  }

  lemma {:induction false} EncodedDecodesToChars(cs: seq<Scalar>)
    ensures DecodeAll(EncodeAll(cs)) == Chars(cs)
  {
    if cs != [] {
      EncodedDecodesToChars(cs[1..]);
      FirstDecodes(cs[0], EncodeAll(cs[1..]));
      assert Chars(cs) == [Char(cs[0])] + Chars(cs[1..]);
    }
  }

  /** Any text is decoded to itself, so the decoder also finds every valid string's characters. */
  lemma EncodedTextDecodes(cs: seq<Scalar>)
    ensures DecodeAll(EncodeAll(cs)) == Chars(cs) && Valid(EncodeAll(cs))
  {
    EncodedDecodesToChars(cs);
    NoErrorsIffValid(EncodeAll(cs));
  }

  lemma FirstDecodes(c: Scalar, tail: seq<byte>)
    ensures DecodeAll(Encode(c) + tail) == [Char(c)] + DecodeAll(tail)
  {
    StepOfEncode(c, tail);
  }

  // ----- the iterator

  lemma PayloadSnoc(x: nat, tail: seq<byte>, b: byte)
    ensures Payload(x, tail + [b]) == Payload(x, tail) * 64 + b as int % 64
    decreases |tail|
  {
    if tail == [] {
    } else {
      assert (tail + [b])[1..] == tail[1..] + [b];
      PayloadSnoc(x * 64 + tail[0] % 64, tail[1..], b);
    }
  }

  lemma TailsFrom(s: seq<byte>, k: nat, n: nat)
    requires k <= n && k <= |s| && forall i :: 0 <= i < k ==> IsTail(s[i])
    ensures Tails(s, n) == k + Tails(s[k..], n - k)
  {
    if k > 0 {
      assert s[1..][k - 1..] == s[k..];
      TailsFrom(s[1..], k - 1, n - 1);
    }
  }

  /** Iterates over the characters and undecodable byte runs of `rest`. */
  class Decoder {
    var rest: seq<byte>

    constructor (input: seq<byte>)
      ensures rest == input
    {
      rest := input;
    }

    method Next() returns (item: Option<Item>)
      modifies this
      ensures old(rest) == [] ==> item == None && rest == []
      ensures old(rest) != [] ==> item == Some(Step(old(rest)).0) && rest == Step(old(rest)).1
    {
      if rest == [] {
        return None;
      }
      ghost var s := rest;
      var b := rest[0];
      rest := rest[1..];
      var onErr := [b];
      assert onErr == s[..1];
      if b < 0x80 {
        return Some(Char(b));
      }
      var l := LeadingOnes(b);
      if !(2 <= l <= 6) {
        return Some(Invalid(onErr));
      }
      var x := LeadBits(b, l);
      var k := 0;
      while k < l - 1
        invariant 0 <= k <= l - 1 && 1 + k <= |s|
        invariant onErr == s[..1 + k] && rest == s[1 + k..]
        invariant forall i :: 0 <= i < k ==> IsTail(s[1..][i])
        invariant x == Payload(LeadBits(b, l), s[1..1 + k])
      {
        if rest == [] || !IsTail(rest[0]) {
          TailsFrom(s[1..], k, l - 1);
          assert s[1..][k..] == rest;
          return Some(Invalid(onErr));
        }
        assert s[1..1 + k] + [rest[0]] == s[1..2 + k];
        PayloadSnoc(LeadBits(b, l), s[1..1 + k], rest[0]);
        onErr := onErr + [rest[0]];
        x := x * 64 + rest[0] as int % 64;
        rest := rest[1..];
        k := k + 1;
      }
      TailsFrom(s[1..], l - 1, l - 1);
      if IsScalar(x) && Utf8Len(x) == l {
        return Some(Char(x));
      }
      return Some(Invalid(onErr));
    }
  }

  /** Running the iterator to its end yields the items of the whole input. */
  method DecodeToEnd(input: seq<byte>) returns (items: seq<Item>)
    ensures items == DecodeAll(input) && SpellAll(items) == input
    ensures NoErrors(items) <==> Valid(input)
  {
    var decoder := new Decoder(input);
    items := [];
    while true
      invariant items + DecodeAll(decoder.rest) == DecodeAll(input)
      invariant fresh(decoder)
      decreases |decoder.rest|
    {
      ghost var s := decoder.rest;
      var item := decoder.Next();
      if item.None? {
        break;
      }
      NextItem(items, s);
      items := items + [item.value];
    }
    DecodeIsLossless(input);
    NoErrorsIffValid(input);
  }

  lemma NextItem(items: seq<Item>, s: seq<byte>)
    requires s != []
    ensures items + DecodeAll(s) == items + [Step(s).0] + DecodeAll(Step(s).1)
  {
  }
}
