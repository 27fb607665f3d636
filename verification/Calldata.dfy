/** The calldata format: what each value is spelled as, and what a byte string is read as. */
module Calldata {
  import opened Prelude
  import opened Order
  import Utf8

  // ----- values

  /** A string is its UTF-8 bytes; a map is its entries in key order, as a `BTreeMap` keeps them. */
  datatype Value =
    | Null
    | Address(raw: seq<byte>)
    | Bool(truth: bool)
    | Str(text: seq<byte>)
    | Bytes(data: seq<byte>)
    | Number(n: int)
    | Map(entries: seq<Entry>)
    | Array(items: seq<Value>)

  datatype Entry = Entry(key: seq<byte>, value: Value)

  const ADDRESS_SIZE := 20
  const U64_MAX: int := 0xFFFF_FFFF_FFFF_FFFF

  const TYPE_SPECIAL := 0
  const TYPE_PINT := 1
  const TYPE_NINT := 2
  const TYPE_BYTES := 3
  const TYPE_STR := 4
  const TYPE_ARR := 5
  const TYPE_MAP := 6

  const SPECIAL_NULL: byte := 0
  const SPECIAL_FALSE: byte := 8
  const SPECIAL_TRUE: byte := 16
  const SPECIAL_ADDR: byte := 24

  /** Strictly ascending keys. */
  ghost predicate SortedKeys(entries: seq<Entry>) {
    forall i :: 0 < i < |entries| ==> Less(entries[i - 1].key, entries[i].key)
  }

  /**
   * The values that have a spelling. Address lengths, valid strings and key order are guaranteed by the source's types;
   * the rest are sizes below 2^32, and numbers whose spelling is not too long for the reader's 64-bit shift.
   */
  ghost predicate Spellable(v: Value) {
    match v
    case Address(raw) => |raw| == 20
    case Str(text) => |text| < TWO_32 && Utf8.Valid(text)
    case Bytes(data) => |data| < TWO_32
    case Number(n) => UlebFits(NumberHead(n), 0)
    case Map(entries) => |entries| < TWO_32 && SortedKeys(entries)
                         && forall e :: e in entries ==> IsKey(e.key) && Spellable(e.value)
    case Array(items) => |items| < TWO_32 && forall x :: x in items ==> Spellable(x)
    case _ => true
  }

  predicate IsKey(key: seq<byte>) {
    |key| < TWO_32 && Utf8.Valid(key)
  }

  // ----- unsigned LEB128

  function Uleb(n: nat): (b: seq<byte>)
    ensures b != []
  {
    if n < 128 then [n] else [128 + n % 128] + Uleb(n / 128)
  }

  ghost predicate UlebFits(n: nat, off: nat) {
    off + 7 * (|Uleb(n)| - 1) < 0x1_0000_0000_0000_0000
  }

  datatype ParseError =
    | UnterminatedUleb | ZeroTopOctet | NumberTooBig | InvalidSize | SizeTooLarge
    | InvalidSpecial | InvalidType | InvalidUtf8 | MapOrder | PartiallyUnparsed

  type Parsed<+T> = Result<(T, seq<byte>), ParseError>

  /** Reads the octets from bit offset `off` on; the number they make at offset 0, and what follows. */
  function FetchUleb(s: seq<byte>, off: nat): (r: Parsed<nat>)
    ensures r.Ok? ==> |r.value.1| < |s|
    decreases |s|
  {
    if s == [] then Err(UnterminatedUleb)
    else if s[0] < 128 then
      if s[0] == 0 && off != 0 then Err(ZeroTopOctet) else Ok((s[0] as nat, s[1..]))
    else if off + 7 > U64_MAX then Err(NumberTooBig)
    else
      var r := FetchUleb(s[1..], off + 7);
      if r.Err? then r else Ok((s[0] as int % 128 + 128 * r.value.0, r.value.1))
  }

  function FetchSlice(s: seq<byte>, n: nat): (r: Parsed<seq<byte>>)
    ensures r.Ok? ==> |r.value.1| == |s| - n
  {
    if |s| < n then Err(InvalidSize) else Ok((s[..n], s[n..]))
  }

  /** A size of at most 32 bits. */
  function MapToSize(size: nat): Result<nat, ParseError> {
    if size >= TWO_32 then Err(SizeTooLarge) else Ok(size)
  }

  // ----- reading

  function FetchVal(s: seq<byte>): (r: Parsed<Value>)
    ensures r.Ok? ==> |r.value.1| < |s|
    decreases |s|, 0
  {
    var head := FetchUleb(s, 0);
    if head.Err? then Err(head.error) else FetchBody(head.value.0 % 8, head.value.0 / 8, head.value.1)
  }

  function FetchBody(typ: nat, val: nat, s: seq<byte>): (r: Parsed<Value>)
    ensures r.Ok? ==> |r.value.1| <= |s|
    decreases |s|, 2
  {
    if typ == TYPE_SPECIAL then FetchSpecial(val, s)
    else if typ == TYPE_PINT then Ok((Number(val), s))
    else if typ == TYPE_NINT then Ok((Number(-(val + 1)), s))
    else if typ == TYPE_BYTES then
      var slice := FetchSized(val, s);
      if slice.Err? then Err(slice.error) else Ok((Bytes(slice.value.0), slice.value.1))
    else if typ == TYPE_STR then
      var text := FetchText(val, s);
      if text.Err? then Err(text.error) else Ok((Str(text.value.0), text.value.1))
    else if typ == TYPE_ARR then
      var size := MapToSize(val);
      if size.Err? then Err(size.error) else
        var items := FetchItems(size.value, s);
        if items.Err? then Err(items.error) else Ok((Array(items.value.0), items.value.1))
    else if typ == TYPE_MAP then
      var size := MapToSize(val);
      if size.Err? then Err(size.error) else
        var entries := FetchEntries(size.value, None, s);
        if entries.Err? then Err(entries.error) else Ok((Map(entries.value.0), entries.value.1))
    else Err(InvalidType)
  }

  function FetchSpecial(val: nat, s: seq<byte>): (r: Parsed<Value>)
    ensures r.Ok? ==> |r.value.1| <= |s|
  {
    if val >= 32 then Err(InvalidSpecial)
    else if val * 8 == SPECIAL_NULL then Ok((Null, s))
    else if val * 8 == SPECIAL_TRUE then Ok((Bool(true), s))
    else if val * 8 == SPECIAL_FALSE then Ok((Bool(false), s))
    else if val * 8 == SPECIAL_ADDR then
      var slice := FetchSlice(s, ADDRESS_SIZE);
      if slice.Err? then Err(slice.error) else Ok((Address(slice.value.0), slice.value.1))
    else Err(InvalidSpecial)
  }

  function FetchSized(size: nat, s: seq<byte>): (r: Parsed<seq<byte>>)
    ensures r.Ok? ==> |r.value.1| <= |s|
  {
    var n := MapToSize(size);
    if n.Err? then Err(n.error) else FetchSlice(s, n.value)
  }

  function FetchText(size: nat, s: seq<byte>): (r: Parsed<seq<byte>>)
    ensures r.Ok? ==> |r.value.1| <= |s|
  {
    var slice := FetchSized(size, s);
    if slice.Ok? && !Utf8.Valid(slice.value.0) then Err(InvalidUtf8) else slice
  }

  function FetchItems(n: nat, s: seq<byte>): (r: Parsed<seq<Value>>)
    ensures r.Ok? ==> |r.value.1| <= |s| && |r.value.0| == n
    decreases |s|, 1, n
  {
    if n == 0 then Ok(([], s)) else
      var v := FetchVal(s);
      if v.Err? then Err(v.error) else
        var rest := FetchItems(n - 1, v.value.1);
        if rest.Err? then rest else Ok(([v.value.0] + rest.value.0, rest.value.1))
  }

  /** `last` is the key before, which the next key must exceed. */
  function FetchEntries(n: nat, last: Option<seq<byte>>, s: seq<byte>): (r: Parsed<seq<Entry>>)
    ensures r.Ok? ==> |r.value.1| <= |s| && |r.value.0| == n
    decreases |s|, 1, n
  {
    if n == 0 then Ok(([], s)) else
      var key := FetchKey(s);
      if key.Err? then Err(key.error)
      else if last.Some? && !Less(last.value, key.value.0) then Err(MapOrder)
      else
        var v := FetchVal(key.value.1);
        if v.Err? then Err(v.error) else
          var rest := FetchEntries(n - 1, Some(key.value.0), v.value.1);
          if rest.Err? then rest else Ok(([Entry(key.value.0, v.value.0)] + rest.value.0, rest.value.1))
  }

  function FetchKey(s: seq<byte>): (r: Parsed<seq<byte>>)
    ensures r.Ok? ==> |r.value.1| < |s|
  {
    var size := FetchUleb(s, 0);
    if size.Err? then Err(size.error) else FetchText(size.value.0, size.value.1)
  }

  function Decode(s: seq<byte>): Result<Value, ParseError> {
    var r := FetchVal(s);
    if r.Err? then Err(r.error)
    else if r.value.1 != [] then Err(PartiallyUnparsed)
    else Ok(r.value.0)
  }

  // ----- writing

  function NumberHead(n: int): nat {
    if n < 0 then (-n - 1) * 8 + TYPE_NINT else n * 8 + TYPE_PINT
  }

  function Encode(v: Value): seq<byte> {
    match v
    case Null => [SPECIAL_NULL]
    case Bool(truth) => [if truth then SPECIAL_TRUE else SPECIAL_FALSE]
    case Address(raw) => [SPECIAL_ADDR] + raw
    case Str(text) => Uleb(|text| * 8 + TYPE_STR) + text
    case Bytes(data) => Uleb(|data| * 8 + TYPE_BYTES) + data
    case Number(n) => Uleb(NumberHead(n))
    case Map(entries) => Uleb(|entries| * 8 + TYPE_MAP) + EncodeEntries(entries)
    case Array(items) => Uleb(|items| * 8 + TYPE_ARR) + EncodeItems(items)
  }

  function EncodeItems(items: seq<Value>): seq<byte> {
    if items == [] then [] else Encode(items[0]) + EncodeItems(items[1..])
  }

  function EncodeEntries(entries: seq<Entry>): seq<byte> {
    if entries == [] then [] else
      Uleb(|entries[0].key|) + entries[0].key + Encode(entries[0].value) + EncodeEntries(entries[1..])
  }

  // ----- LEB128 both ways

  lemma {:induction false} UlebReadsBack(n: nat, off: nat, tail: seq<byte>)
    requires UlebFits(n, off) && (off == 0 || n > 0)
    ensures FetchUleb(Uleb(n) + tail, off) == Ok((n, tail))
    decreases n
  {
    var s := Uleb(n) + tail;
    if n < 128 {
      assert s[1..] == tail;
    } else {
      assert s[1..] == Uleb(n / 128) + tail;
      UlebReadsBack(n / 128, off + 7, tail);
    }
  }

  lemma {:induction false} UlebIsCanonical(s: seq<byte>, off: nat)
    requires FetchUleb(s, off).Ok? && off <= U64_MAX
    ensures var (n, rest) := FetchUleb(s, off).value;
            s == Uleb(n) + rest && UlebFits(n, off) && (off == 0 || n > 0)
    decreases |s|
  {
    var (n, rest) := FetchUleb(s, off).value;
    if s[0] < 128 {
      assert s == [s[0]] + rest;
    } else {
      UlebIsCanonical(s[1..], off + 7);
      var m := FetchUleb(s[1..], off + 7).value.0;
      assert n == s[0] as int % 128 + 128 * m && n / 128 == m && n % 128 == s[0] as int % 128;
      assert s == [s[0]] + s[1..];
    }
  }

  lemma {:induction false} UlebLength(n: nat, k: nat)
    requires k > 0 && n < Pow128(k)
    ensures |Uleb(n)| <= k
    decreases k
  {
    if n >= 128 {
      UlebLength(n / 128, k - 1);
    }
  }

  function Pow128(k: nat): nat {
    if k == 0 then 1 else 128 * Pow128(k - 1)
  }

  /** A size and its type tag always fit. */
  lemma SizeFits(size: nat, typ: nat)
    requires size < TWO_32 && typ < 8
    ensures UlebFits(size * 8 + typ, 0) && UlebFits(size, 0)
  {
    assert Pow128(6) == 128 * 128 * 128 * 128 * 128 * 128;
    UlebLength(size * 8 + typ, 6);
    UlebLength(size, 6);
  }

  // ----- the reader undoes the writer

  lemma SliceReadsBack(a: seq<byte>, tail: seq<byte>)
    ensures FetchSlice(a + tail, |a|) == Ok((a, tail))
  {
    assert (a + tail)[..|a|] == a && (a + tail)[|a|..] == tail;
  }

  /** After a value's head the reader is at its body. */
  lemma HeadReadsBack(typ: nat, val: nat, body: seq<byte>, tail: seq<byte>)
    requires typ < 8 && UlebFits(val * 8 + typ, 0)
    ensures FetchVal(Uleb(val * 8 + typ) + body + tail) == FetchBody(typ, val, body + tail)
  {
    var head := val * 8 + typ;
    assert Uleb(head) + body + tail == Uleb(head) + (body + tail);
    UlebReadsBack(head, 0, body + tail);
    assert head % 8 == typ && head / 8 == val;
  }

  lemma KeyReadsBack(key: seq<byte>, tail: seq<byte>)
    requires IsKey(key)
    ensures FetchKey(Uleb(|key|) + key + tail) == Ok((key, tail))
  {
    SizeFits(|key|, 0);
    UlebReadsBack(|key|, 0, key + tail);
    SizedKeyReadsBack(Uleb(|key|), key, tail);
  }

  lemma SizedKeyReadsBack(size: seq<byte>, key: seq<byte>, tail: seq<byte>)
    requires IsKey(key) && FetchUleb(size + (key + tail), 0) == Ok((|key|, key + tail))
    ensures FetchKey(size + key + tail) == Ok((key, tail))
  {
    Regroup(size, key, tail);
    SliceReadsBack(key, tail);
  }

  /** The tag and the number above it that `Encode` writes first, and what it writes after them. */
  function TypOf(v: Value): (typ: nat)
    ensures typ < 8
  {
    match v
    case Number(n) => if n < 0 then TYPE_NINT else TYPE_PINT
    case Bytes(_) => TYPE_BYTES
    case Str(_) => TYPE_STR
    case Array(_) => TYPE_ARR
    case Map(_) => TYPE_MAP
    case _ => TYPE_SPECIAL
  }

  function ValOf(v: Value): nat {
    match v
    case Null => 0
    case Bool(truth) => if truth then 2 else 1
    case Address(_) => 3
    case Number(n) => if n < 0 then -n - 1 else n
    case Bytes(data) => |data|
    case Str(text) => |text|
    case Array(items) => |items|
    case Map(entries) => |entries|
  }

  function BodyOf(v: Value): seq<byte> {
    match v
    case Address(raw) => raw
    case Str(text) => text
    case Bytes(data) => data
    case Map(entries) => EncodeEntries(entries)
    case Array(items) => EncodeItems(items)
    case _ => []
  }

  lemma SpelledAsHeadAndBody(v: Value)
    ensures Encode(v) == Uleb(ValOf(v) * 8 + TypOf(v)) + BodyOf(v)
    ensures Spellable(v) ==> UlebFits(ValOf(v) * 8 + TypOf(v), 0)
  {
    if !v.Number? && ValOf(v) < TWO_32 {
      SizeFits(ValOf(v), TypOf(v));
    }
  }

  /** Whatever follows, the spelling of a value is read as that value, and nothing more is read. */
  lemma {:induction false} ReadsBack(v: Value, tail: seq<byte>)
    requires Spellable(v)
    ensures FetchVal(Encode(v) + tail) == Ok((v, tail))
    decreases v, 1
  {
    SpelledAsHeadAndBody(v);
    HeadReadsBack(TypOf(v), ValOf(v), BodyOf(v), tail);
    BodyReadsBack(v, tail);
  }

  lemma {:induction false} BodyReadsBack(v: Value, tail: seq<byte>)
    requires Spellable(v)
    ensures FetchBody(TypOf(v), ValOf(v), BodyOf(v) + tail) == Ok((v, tail))
    decreases v, 0
  {
    match v
    case Map(entries) => EntriesReadBack(entries, None, tail);
    case Array(items) => ItemsReadBack(items, tail);
    case _ => SliceReadsBack(BodyOf(v), tail); assert [] + tail == tail;
  }

  lemma {:induction false} ItemsReadBack(items: seq<Value>, tail: seq<byte>)
    requires forall x :: x in items ==> Spellable(x)
    ensures FetchItems(|items|, EncodeItems(items) + tail) == Ok((items, tail))
    decreases items
  {
    if items == [] {
      assert EncodeItems(items) + tail == tail;
    } else {
      var after := EncodeItems(items[1..]) + tail;
      assert EncodeItems(items) + tail == Encode(items[0]) + after;
      ReadsBack(items[0], after);
      ItemsReadBack(items[1..], tail);
      assert items == [items[0]] + items[1..];
    }
  }

  lemma {:induction false} EntriesReadBack(entries: seq<Entry>, last: Option<seq<byte>>, tail: seq<byte>)
    requires SortedKeys(entries) && (last.Some? && entries != [] ==> Less(last.value, entries[0].key))
    requires forall e :: e in entries ==> IsKey(e.key) && Spellable(e.value)
    ensures FetchEntries(|entries|, last, EncodeEntries(entries) + tail) == Ok((entries, tail))
    decreases entries
  {
    if entries == [] {
      assert EncodeEntries(entries) + tail == tail;
    } else {
      var e, more := entries[0], entries[1..];
      assert entries == [e] + more;
      EntriesSpelledFrom(e, more, tail);
      ReadsBack(e.value, EncodeEntries(more) + tail);
      SortedTail(entries);
      EntriesReadBack(more, Some(e.key), tail);
      var after := EncodeEntries(more) + tail;
      KeyReadsBack(e.key, Encode(e.value) + after);
      EntryReadsBack(entries, last, EncodeEntries(entries) + tail, Encode(e.value) + after, after, tail);
    }
  }

  lemma EntryReadsBack(entries: seq<Entry>, last: Option<seq<byte>>, s: seq<byte>, value: seq<byte>, after: seq<byte>,
                       tail: seq<byte>)
    requires entries != [] && (last.Some? ==> Less(last.value, entries[0].key))
    requires FetchKey(s) == Ok((entries[0].key, value)) && FetchVal(value) == Ok((entries[0].value, after))
    requires FetchEntries(|entries| - 1, Some(entries[0].key), after) == Ok((entries[1..], tail))
    ensures FetchEntries(|entries|, last, s) == Ok((entries, tail))
  {
    assert entries == [entries[0]] + entries[1..];
  }

  // ----- the writer undoes the reader

  /** Whatever is accepted is the only spelling of the value it is read as. */
  lemma {:induction false} IsCanonical(s: seq<byte>)
    requires FetchVal(s).Ok?
    ensures var (v, rest) := FetchVal(s).value; s == Encode(v) + rest && Spellable(v)
    decreases |s|, 0
  {
    UlebIsCanonical(s, 0);
    var (head, body) := FetchUleb(s, 0).value;
    BodyIsCanonical(head % 8, head / 8, body);
    var (v, rest) := FetchBody(head % 8, head / 8, body).value;
    SpelledAsHeadAndBody(v);
    Regroup(Uleb(head), BodyOf(v), rest);
  }

  lemma Regroup(a: seq<byte>, b: seq<byte>, c: seq<byte>)
    ensures a + (b + c) == a + b + c
  {
  }

  lemma {:induction false} BodyIsCanonical(typ: nat, val: nat, s: seq<byte>)
    requires UlebFits(val * 8 + typ, 0) && FetchBody(typ, val, s).Ok?
    ensures var (v, rest) := FetchBody(typ, val, s).value;
            TypOf(v) == typ && ValOf(v) == val && s == BodyOf(v) + rest && Spellable(v)
    decreases |s|, 2
  {
    if typ == TYPE_ARR {
      ItemsAreCanonical(val, s);
    } else if typ == TYPE_MAP {
      EntriesAreCanonical(val, None, s);
      EntriesAreGood(val, None, s);
    }
  }

  lemma {:induction false} ItemsAreCanonical(n: nat, s: seq<byte>)
    requires FetchItems(n, s).Ok?
    ensures var (items, rest) := FetchItems(n, s).value;
            s == EncodeItems(items) + rest && forall x :: x in items ==> Spellable(x)
    decreases |s|, 1, n
  {
    if n > 0 {
      IsCanonical(s);
      var (v, after) := FetchVal(s).value;
      ItemsAreCanonical(n - 1, after);
      var (items, rest) := FetchItems(n - 1, after).value;
      assert FetchItems(n, s).value == ([v] + items, rest);
      ItemsSpelledFrom(v, items, rest);
    }
  }

  lemma ItemsSpelledFrom(v: Value, items: seq<Value>, rest: seq<byte>)
    ensures EncodeItems([v] + items) + rest == Encode(v) + (EncodeItems(items) + rest)
  {
    assert ([v] + items)[1..] == items;
  }

  lemma {:induction false} EntriesAreCanonical(n: nat, last: Option<seq<byte>>, s: seq<byte>)
    requires FetchEntries(n, last, s).Ok?
    ensures var (entries, rest) := FetchEntries(n, last, s).value; s == EncodeEntries(entries) + rest
    decreases |s|, 1, n
  {
    if n > 0 {
      EntriesUnfold(n, last, s);
      var (key, value) := FetchKey(s).value;
      var (v, after) := FetchVal(value).value;
      EntriesAreCanonical(n - 1, Some(key), after);
      var (entries, rest) := FetchEntries(n - 1, Some(key), after).value;
      assert s == Uleb(|key|) + key + value by { KeyIsCanonical(s); }
      assert value == Encode(v) + after by { IsCanonical(value); }
      EntryIsSpelled(s, Entry(key, v), value, after, entries, rest);
    }
  }

  lemma EntryIsSpelled(s: seq<byte>, e: Entry, value: seq<byte>, after: seq<byte>, entries: seq<Entry>, rest: seq<byte>)
    requires s == Uleb(|e.key|) + e.key + value && value == Encode(e.value) + after
             && after == EncodeEntries(entries) + rest
    ensures s == EncodeEntries([e] + entries) + rest
  {
    EntriesSpelledFrom(e, entries, rest);
  }

  lemma {:induction false} EntriesAreGood(n: nat, last: Option<seq<byte>>, s: seq<byte>)
    requires FetchEntries(n, last, s).Ok?
    ensures var entries := FetchEntries(n, last, s).value.0;
            GoodEntries(entries) && (last.Some? && entries != [] ==> Less(last.value, entries[0].key))
    decreases |s|, 1, n
  {
    if n > 0 {
      EntriesUnfold(n, last, s);
      var (key, value) := FetchKey(s).value;
      var (v, after) := FetchVal(value).value;
      EntriesAreGood(n - 1, Some(key), after);
      assert IsKey(key) by { KeyIsCanonical(s); }
      assert Spellable(v) by { IsCanonical(value); }
      GoodPrepend(Entry(key, v), FetchEntries(n - 1, Some(key), after).value.0);
    }
  }

  /** What an accepted list of entries begins with. */
  lemma EntriesUnfold(n: nat, last: Option<seq<byte>>, s: seq<byte>)
    requires n > 0 && FetchEntries(n, last, s).Ok?
    ensures FetchKey(s).Ok? && FetchVal(FetchKey(s).value.1).Ok?
    ensures var (key, value) := FetchKey(s).value;
            var (v, after) := FetchVal(value).value;
            var next := FetchEntries(n - 1, Some(key), after);
            && next.Ok? && FetchEntries(n, last, s) == Ok(([Entry(key, v)] + next.value.0, next.value.1))
            && (last.Some? ==> Less(last.value, key))
  {
  }

  lemma KeyIsCanonical(s: seq<byte>)
    requires FetchKey(s).Ok?
    ensures var (key, rest) := FetchKey(s).value; s == Uleb(|key|) + key + rest && IsKey(key)
  {
    UlebIsCanonical(s, 0);
    var (size, after) := FetchUleb(s, 0).value;
    var (key, rest) := FetchKey(s).value;
    assert after == key + rest;
  }

  lemma EntriesSpelledFrom(e: Entry, entries: seq<Entry>, rest: seq<byte>)
    ensures EncodeEntries([e] + entries) + rest
            == Uleb(|e.key|) + e.key + (Encode(e.value) + (EncodeEntries(entries) + rest))
  {
    assert ([e] + entries)[1..] == entries;
  }

  lemma SortedTail(entries: seq<Entry>)
    requires SortedKeys(entries) && entries != []
    ensures SortedKeys(entries[1..]) && (|entries| > 1 ==> Less(entries[0].key, entries[1..][0].key))
  {
  }

  ghost predicate GoodEntries(entries: seq<Entry>) {
    SortedKeys(entries) && forall e :: e in entries ==> IsKey(e.key) && Spellable(e.value)
  }

  lemma GoodPrepend(e: Entry, entries: seq<Entry>)
    requires GoodEntries(entries) && (entries != [] ==> Less(e.key, entries[0].key))
    requires IsKey(e.key) && Spellable(e.value)
    ensures GoodEntries([e] + entries)
  {
    var all := [e] + entries;
    forall i | 0 < i < |all|
      ensures Less(all[i - 1].key, all[i].key)
    {
      assert all[i] == entries[i - 1];
    }
  }

  // ----- the format

  /**
   * The byte strings accepted as `v` are its one spelling and no other, and nothing is accepted as a value too large to
   * spell.
   */
  lemma DecodeIffEncode(s: seq<byte>, v: Value)
    ensures Decode(s) == Ok(v) <==> s == Encode(v) && Spellable(v)
  {
    if Decode(s) == Ok(v) {
      IsCanonical(s);
      assert Encode(v) + [] == Encode(v);
    }
    if s == Encode(v) && Spellable(v) {
      ReadsBack(v, []);
      assert Encode(v) + [] == Encode(v);
    }
  }

  /** No value's spelling begins another's, so a spelling can be followed by anything. */
  lemma EncodeIsPrefixFree(v: Value, w: Value, x: seq<byte>, y: seq<byte>)
    requires Spellable(v) && Spellable(w)
    requires Encode(v) + x == Encode(w) + y
    ensures v == w && x == y
  {
    ReadsBack(v, x);
    ReadsBack(w, y);
  }
}
