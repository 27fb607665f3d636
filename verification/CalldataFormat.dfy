/** The calldata format written down octet by octet, apart from the writer and the reader. */
module CalldataFormat {
  import opened Prelude
  import opened Calldata
  import Utf8

  /** Little-endian digits to base 128: the low seven bits of each octet. */
  function Base128(b: seq<byte>): nat {
    if b == [] then 0
    else
      var last := |b| - 1;
      Base128(b[..last]) + b[last] % 128 * Pow128(last)
  }

  /** `b` is the number `n`: every octet but the last has its top bit set, and the last digit is not a needless zero. */
  ghost predicate IsLeb(b: seq<byte>, n: nat) {
    && b != [] && (forall i :: 0 <= i < |b| - 1 ==> b[i] >= 128) && b[|b| - 1] < 128
    && (|b| > 1 ==> b[|b| - 1] != 0) && Base128(b) == n
  }

  lemma NextPower(x: int, p: int)
    ensures x * (128 * p) == 128 * (x * p)
  {
  }

  lemma InnerCut<T>(b: seq<T>, last: nat)
    requires 0 < last == |b| - 1
    ensures b[..last][1..] == b[1..][..last - 1] && b[1..][last - 1] == b[last] && b[..last][0] == b[0]
  {
  }

  lemma {:induction false} FirstDigit(b: seq<byte>)
    requires b != []
    ensures Base128(b) == b[0] % 128 + 128 * Base128(b[1..])
    decreases |b|
  {
    var last := |b| - 1;
    if last > 0 {
      FirstDigit(b[..last]);
      InnerCut(b, last);
      NextPower(b[last] % 128, Pow128(last - 1));
    } else {
      assert b[..last] == [] && b[1..] == [];
    }
  }

  lemma {:induction false} PowIsPositive(k: nat)
    ensures Pow128(k) > 0
  {
    if k > 0 {
      PowIsPositive(k - 1);
    }
  }

  lemma {:induction false} UlebIsLeb(n: nat)
    ensures IsLeb(Uleb(n), n)
    decreases n
  {
    var b := Uleb(n);
    FirstDigit(b);
    if n < 128 {
      assert b[1..] == [];
    } else {
      assert b[1..] == Uleb(n / 128);
      UlebIsLeb(n / 128);
      assert Base128(b[1..]) > 0;
    }
  }

  lemma {:induction false} LebIsUleb(b: seq<byte>, n: nat)
    requires IsLeb(b, n)
    ensures b == Uleb(n)
    decreases |b|
  {
    FirstDigit(b);
    if |b| == 1 {
      assert b[1..] == [];
    } else {
      var rest := b[1..];
      var m := Base128(rest);
      assert forall i :: 0 <= i < |rest| ==> rest[i] == b[i + 1];
      LebIsUleb(rest, m);
      LastIsNonzero(rest);
      assert n / 128 == m && n % 128 == b[0] % 128;
      assert b == [b[0]] + rest;
    }
  }

  lemma LastIsNonzero(b: seq<byte>)
    requires b != [] && 0 < b[|b| - 1] < 128
    ensures Base128(b) > 0
  {
    PowIsPositive(|b| - 1);
    assert b[|b| - 1] * Pow128(|b| - 1) > 0;
  }

  // ----- the format

  /** `b` is the head octets for `n`, and then `body`. */
  ghost predicate IsHeaded(b: seq<byte>, n: nat, body: seq<byte>) {
    exists k :: 0 <= k <= |b| && IsLeb(b[..k], n) && b[k..] == body
  }

  /**
   * `b` spells `v`: a single octet for null and the booleans and one before an address; otherwise a head that is eight
   * times the number, `-1 - number` or the size, plus 1 and 2 for the numbers, 3 for bytes, 4 for a string, 5 for an
   * array and 6 for a map.
   */
  ghost predicate Spells(b: seq<byte>, v: Value)
    decreases v
  {
    match v
    case Null => b == [0]
    case Bool(truth) => b == [if truth then 16 else 8]
    case Address(raw) => b == [24] + raw
    case Number(n) => IsLeb(b, if n >= 0 then 8 * n + 1 else 8 * (-1 - n) + 2)
    case Bytes(data) => IsHeaded(b, 8 * |data| + 3, data)
    case Str(text) => IsHeaded(b, 8 * |text| + 4, text)
    case Array(items) =>
      exists k :: 0 <= k <= |b| && IsLeb(b[..k], 8 * |items| + 5) && SpellsItems(b[k..], items)
    case Map(entries) =>
      exists k :: 0 <= k <= |b| && IsLeb(b[..k], 8 * |entries| + 6) && SpellsEntries(b[k..], entries)
  }

  /** One item after the other. */
  ghost predicate SpellsItems(b: seq<byte>, items: seq<Value>)
    decreases items
  {
    if items == [] then b == []
    else exists k :: 0 <= k <= |b| && Spells(b[..k], items[0]) && SpellsItems(b[k..], items[1..])
  }

  /** For each entry the size of its key, the key, and the value. */
  ghost predicate SpellsEntries(b: seq<byte>, entries: seq<Entry>)
    decreases entries
  {
    if entries == [] then b == []
    else
      exists k :: 0 <= k <= |b| && SpellsEntry(b[..k], entries[0]) && SpellsEntries(b[k..], entries[1..])
  }

  ghost predicate SpellsEntry(b: seq<byte>, e: Entry)
    decreases e
  {
    exists k :: 0 <= k <= |b| && IsHeaded(b[..k], |e.key|, e.key) && Spells(b[k..], e.value)
  }

  lemma HeadIsUleb(b: seq<byte>, n: nat, body: seq<byte>)
    ensures IsHeaded(b, n, body) <==> b == Uleb(n) + body
  {
    if IsHeaded(b, n, body) {
      var k :| 0 <= k <= |b| && IsLeb(b[..k], n) && b[k..] == body;
      LebIsUleb(b[..k], n);
    }
    if b == Uleb(n) + body {
      UlebIsLeb(n);
      assert b[..|Uleb(n)|] == Uleb(n) && b[|Uleb(n)|..] == body;
    }
  }

  /** A byte string spells a value by these rules if and only if the writer writes it. */
  lemma {:induction false} SpellsIffEncode(b: seq<byte>, v: Value)
    ensures Spells(b, v) <==> b == Encode(v)
    decreases v
  {
    match v
    case Number(n) => NumberIsUleb(b, NumberHead(n));
    case Bytes(data) => HeadIsUleb(b, 8 * |data| + 3, data);
    case Str(text) => HeadIsUleb(b, 8 * |text| + 4, text);
    case Array(items) => ArrayIffEncode(b, items);
    case Map(entries) => MapIffEncode(b, entries);
    case _ =>
  }

  lemma NumberIsUleb(b: seq<byte>, n: nat)
    ensures IsLeb(b, n) <==> b == Uleb(n)
  {
    if IsLeb(b, n) {
      LebIsUleb(b, n);
    }
    UlebIsLeb(n);
  }

  lemma CutAfterHead(b: seq<byte>, n: nat, k: nat)
    requires k <= |b| && IsLeb(b[..k], n)
    ensures b == Uleb(n) + b[k..]
  {
    LebIsUleb(b[..k], n);
  }

  lemma HeadIsCut(n: nat, body: seq<byte>)
    ensures var b, k := Uleb(n) + body, |Uleb(n)|; IsLeb(b[..k], n) && b[k..] == body
  {
    UlebIsLeb(n);
    assert (Uleb(n) + body)[..|Uleb(n)|] == Uleb(n);
  }

  lemma {:induction false} ArrayIffEncode(b: seq<byte>, items: seq<Value>)
    ensures Spells(b, Array(items)) <==> b == Encode(Array(items))
    decreases items, 1
  {
    var n := 8 * |items| + 5;
    assert Encode(Array(items)) == Uleb(n) + EncodeItems(items);
    if Spells(b, Array(items)) {
      var k :| 0 <= k <= |b| && IsLeb(b[..k], n) && SpellsItems(b[k..], items);
      CutAfterHead(b, n, k);
      ItemsIffEncode(b[k..], items);
    }
    if b == Uleb(n) + EncodeItems(items) {
      HeadIsCut(n, EncodeItems(items));
      ItemsIffEncode(b[|Uleb(n)|..], items);
    }
  }

  lemma CutOfJoin<T>(a: seq<T>, c: seq<T>)
    ensures (a + c)[..|a|] == a && (a + c)[|a|..] == c
  {
  }

  lemma JoinOfCut<T>(b: seq<T>, k: nat)
    requires k <= |b|
    ensures b == b[..k] + b[k..]
  {
  }

  lemma {:induction false} ItemsIffEncode(b: seq<byte>, items: seq<Value>)
    ensures SpellsItems(b, items) <==> b == EncodeItems(items)
    decreases items, 0
  {
    if items != [] {
      var first, rest := Encode(items[0]), EncodeItems(items[1..]);
      if SpellsItems(b, items) {
        var k :| 0 <= k <= |b| && Spells(b[..k], items[0]) && SpellsItems(b[k..], items[1..]);
        JoinOfCut(b, k);
        SpellsIffEncode(b[..k], items[0]);
        ItemsIffEncode(b[k..], items[1..]);
      }
      if b == first + rest {
        CutOfJoin(first, rest);
        SpellsIffEncode(b[..|first|], items[0]);
        ItemsIffEncode(b[|first|..], items[1..]);
      }
    }
  }

  lemma {:induction false} MapIffEncode(b: seq<byte>, entries: seq<Entry>)
    ensures Spells(b, Map(entries)) <==> b == Encode(Map(entries))
    decreases entries, 1
  {
    var n := 8 * |entries| + 6;
    assert Encode(Map(entries)) == Uleb(n) + EncodeEntries(entries);
    if Spells(b, Map(entries)) {
      var k :| 0 <= k <= |b| && IsLeb(b[..k], n) && SpellsEntries(b[k..], entries);
      CutAfterHead(b, n, k);
      EntriesIffEncode(b[k..], entries);
    }
    if b == Uleb(n) + EncodeEntries(entries) {
      HeadIsCut(n, EncodeEntries(entries));
      EntriesIffEncode(b[|Uleb(n)|..], entries);
    }
  }

  function EncodeEntry(e: Entry): seq<byte> {
    Uleb(|e.key|) + e.key + Encode(e.value)
  }

  lemma {:induction false} EntriesIffEncode(b: seq<byte>, entries: seq<Entry>)
    ensures SpellsEntries(b, entries) <==> b == EncodeEntries(entries)
    decreases entries, 0
  {
    if entries != [] {
      var e, first, rest := entries[0], EncodeEntry(entries[0]), EncodeEntries(entries[1..]);
      if SpellsEntries(b, entries) {
        var k :| 0 <= k <= |b| && SpellsEntry(b[..k], e) && SpellsEntries(b[k..], entries[1..]);
        JoinOfCut(b, k);
        EntryIffEncode(b[..k], e);
        EntriesIffEncode(b[k..], entries[1..]);
      }
      if b == first + rest {
        CutOfJoin(first, rest);
        EntryIffEncode(b[..|first|], e);
        EntriesIffEncode(b[|first|..], entries[1..]);
      }
    }
  }

  lemma {:induction false} EntryIffEncode(b: seq<byte>, e: Entry)
    ensures SpellsEntry(b, e) <==> b == EncodeEntry(e)
    decreases e
  {
    var key := Uleb(|e.key|) + e.key;
    if SpellsEntry(b, e) {
      var k :| 0 <= k <= |b| && IsHeaded(b[..k], |e.key|, e.key) && Spells(b[k..], e.value);
      JoinOfCut(b, k);
      HeadIsUleb(b[..k], |e.key|, e.key);
      SpellsIffEncode(b[k..], e.value);
    }
    if b == key + Encode(e.value) {
      CutOfJoin(key, Encode(e.value));
      HeadIsUleb(b[..|key|], |e.key|, e.key);
      SpellsIffEncode(b[|key|..], e.value);
    }
  }

  /** So the reader accepts a byte string as a value if and only if it spells it by these rules. */
  lemma DecodeIffSpells(b: seq<byte>, v: Value)
    ensures Decode(b) == Ok(v) <==> Spells(b, v) && Spellable(v)
  {
    SpellsIffEncode(b, v);
    DecodeIffEncode(b, v);
  }

  // ----- what is refused

  /**
   * Whatever follows the head: kind 7 is none, kind 0 is only 0 to 3 above the tag, a size has at most 32 bits, and so
   * many bytes must be there, for a string valid ones.
   */
  lemma RefusalsAre(head: seq<byte>, n: nat, body: seq<byte>)
    requires IsLeb(head, n) && 7 * (|head| - 1) < 0x1_0000_0000_0000_0000
    ensures var r := FetchVal(head + body);
            && (n % 8 == 7 <==> r == Err(InvalidType) && n % 8 !in {5, 6})
            && (n % 8 == 0 ==> (r == Err(InvalidSpecial) <==> n / 8 > 3))
            && (n / 8 == 3 && n % 8 == 0 ==> (r == Err(InvalidSize) <==> |body| < 20))
            && (n % 8 in {3, 4, 5, 6} && n / 8 >= 0x1_0000_0000 ==> r == Err(SizeTooLarge))
            && (n % 8 in {3, 4} && n / 8 < 0x1_0000_0000 ==> (r == Err(InvalidSize) <==> |body| < n / 8))
            && (n % 8 == 4 && n / 8 < 0x1_0000_0000 && n / 8 <= |body| ==>
                  (r == Err(InvalidUtf8) <==> !Utf8.Valid(body[..n / 8])))
  {
    LebIsUleb(head, n);
    UlebReadsBack(n, 0, body);
    assert FetchVal(head + body) == FetchBody(n % 8, n / 8, body);
  }

  /** The octets with the top bit set, and the one that ends them. */
  ghost predicate EndsAt(s: seq<byte>, k: nat) {
    k < |s| && s[k] < 128 && forall i :: 0 <= i < k ==> s[i] >= 128
  }

  /** A number without an end is refused, and so is one that ends in a needless zero. */
  lemma {:induction false} UlebRefusalsAre(s: seq<byte>, off: nat)
    requires off + 7 * |s| < 0x1_0000_0000_0000_0000
    ensures FetchUleb(s, off) == Err(UnterminatedUleb) <==> forall i :: 0 <= i < |s| ==> s[i] >= 128
    ensures FetchUleb(s, off) == Err(ZeroTopOctet) <==> exists k: nat :: EndsAt(s, k) && s[k] == 0 && (off > 0 || k > 0)
    ensures FetchUleb(s, off) != Err(NumberTooBig)
    decreases |s|
  {
    if s != [] {
      if s[0] < 128 {
        assert EndsAt(s, 0);
      } else {
        UlebRefusalsAre(s[1..], off + 7);
        assert forall k: nat :: EndsAt(s, k + 1) <==> EndsAt(s[1..], k);
        assert forall k: nat :: EndsAt(s, k) ==> k > 0 && EndsAt(s[1..], k - 1);
        assert (forall i :: 0 <= i < |s| ==> s[i] >= 128) <==> forall i :: 0 <= i < |s[1..]| ==> s[1..][i] >= 128;
      }
    }
  }

  /** Nothing may follow a value. */
  lemma TrailingIsRefused(v: Value, more: seq<byte>)
    requires Spellable(v) && more != []
    ensures Decode(Encode(v) + more) == Err(PartiallyUnparsed)
  {
    ReadsBack(v, more);
  }

  /** What the low three bits of a value's first octet are. */
  function KindOf(v: Value): nat {
    match v
    case Null => 0
    case Bool(_) => 0
    case Address(_) => 0
    case Number(n) => if n >= 0 then 1 else 2
    case Bytes(_) => 3
    case Str(_) => 4
    case Array(_) => 5
    case Map(_) => 6
  }

  lemma FirstOctet(v: Value)
    ensures Encode(v) != [] && Encode(v)[0] % 8 == KindOf(v)
  {
    match v
    case Number(n) => FirstOfNumber(n);
    case Bytes(data) => FirstOfHead(|data|, 3, data);
    case Str(text) => FirstOfHead(|text|, 4, text);
    case Array(items) => FirstOfArray(items);
    case Map(entries) => FirstOfMap(entries);
    case _ =>
  }

  lemma FirstOfNumber(n: int)
    ensures Encode(Number(n)) != [] && Encode(Number(n))[0] % 8 == if n >= 0 then 1 else 2
  {
    FirstOfUleb(NumberHead(n));
  }

  lemma FirstOfArray(items: seq<Value>)
    ensures Encode(Array(items)) != [] && Encode(Array(items))[0] % 8 == 5
  {
    FirstOfHead(|items|, 5, EncodeItems(items));
  }

  lemma FirstOfMap(entries: seq<Entry>)
    ensures Encode(Map(entries)) != [] && Encode(Map(entries))[0] % 8 == 6
  {
    FirstOfHead(|entries|, 6, EncodeEntries(entries));
  }

  lemma FirstOfHead(m: nat, tag: nat, body: seq<byte>)
    requires tag < 8
    ensures (Uleb(m * 8 + tag) + body)[0] % 8 == tag
  {
    var n := m * 8 + tag;
    FirstOfUleb(n);
    assert n % 8 == tag;
  }

  lemma FirstOfUleb(n: nat)
    ensures Uleb(n)[0] % 8 == n % 8
  {
    assert n >= 128 ==> Uleb(n)[0] == 128 + n % 128;
  }
}
