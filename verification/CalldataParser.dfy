/** The calldata reader and writer as they run: a cursor over the input, and a growing output buffer. */
module CalldataParser {
  import opened Prelude
  import opened Order
  import opened Calldata
  import Utf8

  /** The step `r`, leaving the cursor at `rest`, is what the format prescribes. */
  ghost predicate Yields<T>(parsed: Parsed<T>, r: Result<T, ParseError>, rest: seq<byte>) {
    if parsed.Ok? then r == Ok(parsed.value.0) && rest == parsed.value.1 else r == Err(parsed.error)
  }

  lemma SevenBits(n: nat)
    ensures Pow2(n + 7) == 128 * Pow2(n)
  {
    assert Pow2(n + 7) == 2 * Pow2(n + 6) == 4 * Pow2(n + 5) == 8 * Pow2(n + 4) == 16 * Pow2(n + 3);
    assert Pow2(n + 3) == 2 * Pow2(n + 2) == 4 * Pow2(n + 1) == 8 * Pow2(n);
  }

  /** A number whose octets so far make `res` and whose octets from bit `off` on are still to be read from `s`. */
  ghost function Shifted(res: nat, off: nat, parsed: Parsed<nat>): Parsed<nat> {
    if parsed.Err? then parsed else Ok((res + parsed.value.0 * Pow2(off), parsed.value.1))
  }

  lemma ShiftedOctet(res: nat, off: nat, s: seq<byte>)
    requires s != [] && s[0] >= 128 && off + 7 <= U64_MAX
    ensures Shifted(res, off, FetchUleb(s, off)) ==
            Shifted(res + s[0] as int % 128 * Pow2(off), off + 7, FetchUleb(s[1..], off + 7))
  {
    var r := FetchUleb(s[1..], off + 7);
    if r.Ok? {
      SevenBits(off);
      Distribute(s[0] as int % 128, r.value.0, Pow2(off));
    }
  }

  lemma Distribute(a: int, b: int, p: int)
    ensures (a + 128 * b) * p == a * p + b * (128 * p)
  {
  }

  /** Having read `done`, what reading the rest yields is what reading all of it yields, less `done`. */
  ghost predicate Continues<T>(done: seq<T>, rest: Parsed<seq<T>>, all: Parsed<seq<T>>) {
    if all.Err? then rest == all
    else rest.Ok? && all.value.0 == done + rest.value.0 && all.value.1 == rest.value.1
  }

  function LastKey(entries: seq<Entry>): Option<seq<byte>> {
    if entries == [] then None else Some(entries[|entries| - 1].key)
  }

  /** What the next entry does to a map being read: an error ends it, anything else is one more entry. */
  lemma EntryStep(done: seq<Entry>, n: nat, s: seq<byte>, all: Parsed<seq<Entry>>)
    requires n > 0 && Continues(done, FetchEntries(n, LastKey(done), s), all)
    ensures var k := Calldata.FetchKey(s);
            if k.Err? then all == Err(k.error)
            else if done != [] && !Less(done[|done| - 1].key, k.value.0) then all == Err(MapOrder)
            else
              var v := Calldata.FetchVal(k.value.1);
              if v.Err? then all == Err(v.error)
              else
                var ret := done + [Entry(k.value.0, v.value.0)];
                Continues(ret, FetchEntries(n - 1, LastKey(ret), v.value.1), all)
  {
    var k := Calldata.FetchKey(s);
    if k.Ok? && (done == [] || Less(done[|done| - 1].key, k.value.0)) {
      var v := Calldata.FetchVal(k.value.1);
      if v.Ok? {
        EntryRead(done, Entry(k.value.0, v.value.0), FetchEntries(n - 1, Some(k.value.0), v.value.1),
                  FetchEntries(n, LastKey(done), s), all);
      }
    }
  }

  lemma EntryRead(done: seq<Entry>, e: Entry, rest: Parsed<seq<Entry>>, next: Parsed<seq<Entry>>,
                  all: Parsed<seq<Entry>>)
    requires Continues(done, next, all)
    requires next == if rest.Err? then rest else Ok(([e] + rest.value.0, rest.value.1))
    ensures Continues(done + [e], rest, all)
  {
    if rest.Ok? {
      assert done + ([e] + rest.value.0) == done + [e] + rest.value.0;
    }
  }

  class Parser {
    var data: seq<byte>

    constructor (input: seq<byte>)
      ensures data == input
    {
      data := input;
    }

    method FetchUleb() returns (r: Result<nat, ParseError>)
      modifies this
      ensures Yields(Calldata.FetchUleb(old(data), 0), r, data)
    {
      var res: nat, off: nat := 0, 0;
      while true
        invariant off <= U64_MAX
        invariant Shifted(res, off, Calldata.FetchUleb(data, off)) == Calldata.FetchUleb(old(data), 0)
        decreases |data|
      {
        if data == [] {
          return Err(UnterminatedUleb);
        }
        ghost var s := data;
        var octet := data[0];
        data := data[1..];
        var before := res;
        res := res + octet as int % 128 * Pow2(off);
        if octet < 128 {
          if octet == 0 && off != 0 {
            return Err(ZeroTopOctet);
          }
          return Ok(res);
        }
        if off + 7 > U64_MAX {
          return Err(NumberTooBig);
        }
        ShiftedOctet(before, off, s);
        off := off + 7;
      }
    }

    method FetchSlice(n: nat) returns (r: Result<seq<byte>, ParseError>)
      modifies this
      ensures Yields(Calldata.FetchSlice(old(data), n), r, data)
    {
      if |data| < n {
        return Err(InvalidSize);
      }
      r := Ok(data[..n]);
      data := data[n..];
    }

    method FetchText(size: nat) returns (r: Result<seq<byte>, ParseError>)
      modifies this
      ensures Yields(Calldata.FetchText(size, old(data)), r, data)
    {
      var fullSize := MapToSize(size);
      if fullSize.Err? {
        return Err(fullSize.error);
      }
      var slice := FetchSlice(fullSize.value);
      if slice.Err? {
        return slice;
      }
      return if Utf8.Valid(slice.value) then slice else Err(InvalidUtf8);
    }

    method FetchKey() returns (r: Result<seq<byte>, ParseError>)
      modifies this
      ensures Yields(Calldata.FetchKey(old(data)), r, data)
    {
      var strSize := FetchUleb();
      if strSize.Err? {
        return Err(strSize.error);
      }
      r := FetchText(strSize.value);
    }

    method FetchVal() returns (r: Result<Value, ParseError>)
      modifies this
      ensures Yields(Calldata.FetchVal(old(data)), r, data)
      decreases |data|, 0
    {
      var head := FetchUleb();
      if head.Err? {
        return Err(head.error);
      }
      var typ: int, val: int := head.value % 8, head.value / 8;
      if typ == TYPE_SPECIAL {
        r := FetchSpecial(val);
      } else if typ == TYPE_BYTES {
        var fullSize := MapToSize(val);
        if fullSize.Err? {
          return Err(fullSize.error);
        }
        var slice := FetchSlice(fullSize.value);
        r := if slice.Ok? then Ok(Bytes(slice.value)) else Err(slice.error);
      } else if typ == TYPE_STR {
        var text := FetchText(val);
        r := if text.Ok? then Ok(Str(text.value)) else Err(text.error);
      } else if typ == TYPE_ARR {
        var fullSize := MapToSize(val);
        if fullSize.Err? {
          return Err(fullSize.error);
        }
        var items := FetchArray(fullSize.value);
        r := if items.Ok? then Ok(Array(items.value)) else Err(items.error);
      } else if typ == TYPE_MAP {
        var fullSize := MapToSize(val);
        if fullSize.Err? {
          return Err(fullSize.error);
        }
        var entries := FetchMap(fullSize.value);
        r := if entries.Ok? then Ok(Map(entries.value)) else Err(entries.error);
      } else if typ == TYPE_NINT {
        r := Ok(Number(-1 - val));
      } else if typ == TYPE_PINT {
        r := Ok(Number(val));
      } else {
        r := Err(InvalidType);
      }
    }

    method FetchSpecial(val: nat) returns (r: Result<Value, ParseError>)
      modifies this
      ensures Yields(Calldata.FetchSpecial(val, old(data)), r, data)
    {
      if val >= 32 {
        return Err(InvalidSpecial);
      }
      var octet := val * 8;
      if octet == SPECIAL_NULL {
        return Ok(Null);
      } else if octet == SPECIAL_TRUE {
        return Ok(Bool(true));
      } else if octet == SPECIAL_FALSE {
        return Ok(Bool(false));
      } else if octet == SPECIAL_ADDR {
        var raw := FetchSlice(ADDRESS_SIZE);
        return if raw.Ok? then Ok(Address(raw.value)) else Err(raw.error);
      }
      return Err(InvalidSpecial);
    }

    method FetchArray(fullSize: nat) returns (r: Result<seq<Value>, ParseError>)
      modifies this
      ensures Yields(FetchItems(fullSize, old(data)), r, data)
      decreases |data|, 1
    {
      var ret: seq<Value>, i := [], 0;
      while i < fullSize
        invariant i <= fullSize && |data| <= |old(data)|
        invariant Continues(ret, FetchItems(fullSize - i, data), FetchItems(fullSize, old(data)))
      {
        var item := FetchVal();
        if item.Err? {
          return Err(item.error);
        }
        ret := ret + [item.value];
        i := i + 1;
      }
      assert FetchItems(0, data) == Ok(([], data)) && ret + [] == ret;
      return Ok(ret);
    }

    method FetchMap(fullSize: nat) returns (r: Result<seq<Entry>, ParseError>)
      modifies this
      ensures Yields(FetchEntries(fullSize, None, old(data)), r, data)
      decreases |data|, 1
    {
      var ret: seq<Entry>, i := [], 0;
      while i < fullSize
        invariant i <= fullSize && |data| <= |old(data)|
        invariant Continues(ret, FetchEntries(fullSize - i, LastKey(ret), data),
                            FetchEntries(fullSize, None, old(data)))
      {
        EntryStep(ret, fullSize - i, data, FetchEntries(fullSize, None, old(data)));
        var key := FetchKey();
        if key.Err? {
          return Err(key.error);
        }
        if ret != [] && !Less(ret[|ret| - 1].key, key.value) {
          return Err(MapOrder);
        }
        var val := FetchVal();
        if val.Err? {
          return Err(val.error);
        }
        ret := ret + [Entry(key.value, val.value)];
        i := i + 1;
      }
      assert FetchEntries(0, LastKey(ret), data) == Ok(([], data)) && ret + [] == ret;
      return Ok(ret);
    }
  }

  method DecodeBytes(input: seq<byte>) returns (r: Result<Value, ParseError>)
    ensures r == Decode(input)
    // accepts exactly the spellings of spellable values
    ensures r.Ok? <==> exists v :: Spellable(v) && input == Encode(v)
  {
    var parser := new Parser(input);
    r := parser.FetchVal();
    if r.Ok? && parser.data != [] {
      r := Err(PartiallyUnparsed);
    }
    if r.Ok? {
      DecodeIffEncode(input, r.value);
    } else if v :| Spellable(v) && input == Encode(v) {
      DecodeIffEncode(input, v);
    }
  }

  /** Writing the entry `i` after `before` leaves the later entries to write. */
  lemma EntriesFrom(before: seq<byte>, entries: seq<Entry>, i: nat)
    requires i < |entries|
    ensures before + EncodeEntries(entries[i..]) ==
            before + Uleb(|entries[i].key|) + entries[i].key + Encode(entries[i].value)
            + EncodeEntries(entries[i + 1..])
  {
    assert entries[i..][1..] == entries[i + 1..];
    var (size, key) := (Uleb(|entries[i].key|), entries[i].key);
    var (value, rest) := (Encode(entries[i].value), EncodeEntries(entries[i + 1..]));
    assert EncodeEntries(entries[i..]) == size + key + value + rest;
    Append(before, size, key, value, rest);
  }

  lemma Append(before: seq<byte>, a: seq<byte>, b: seq<byte>, c: seq<byte>, d: seq<byte>)
    ensures before + (a + b + c + d) == before + a + b + c + d
  {
  }

  class Buffer {
    var bytes: seq<byte>

    constructor ()
      ensures bytes == []
    {
      bytes := [];
    }

    method AppendUleb(n: nat)
      modifies this
      ensures bytes == old(bytes) + Uleb(n)
    {
      if n == 0 {
        bytes := bytes + [0];
        return;
      }
      var num := n;
      while true
        invariant bytes + Uleb(num) == old(bytes) + Uleb(n)
        decreases num
      {
        var cur := num % 256;
        ghost var before := num;
        num := num / 128;
        var hasNext := num != 0;
        if hasNext && cur < 128 {
          cur := cur + 128;
        }
        bytes := bytes + [cur];
        if !hasNext {
          assert Uleb(before) == [cur];
          break;
        }
        assert cur == 128 + before % 128;
        assert Uleb(before) == [cur] + Uleb(num);
      }
    }

    method EncodeTo(v: Value)
      modifies this
      ensures bytes == old(bytes) + Encode(v)
      decreases v
    {
      match v {
        case Null => bytes := bytes + [SPECIAL_NULL];
        case Bool(truth) => bytes := bytes + [if truth then SPECIAL_TRUE else SPECIAL_FALSE];
        case Address(raw) => bytes := bytes + [SPECIAL_ADDR] + raw;
        case Str(text) =>
          AppendUleb(|text| * 8 + TYPE_STR);
          bytes := bytes + text;
        case Bytes(data) =>
          AppendUleb(|data| * 8 + TYPE_BYTES);
          bytes := bytes + data;
        case Number(n) =>
          AppendUleb(NumberHead(n));
        case Map(entries) =>
          AppendUleb(|entries| * 8 + TYPE_MAP);
          EncodeMap(entries);
        case Array(items) =>
          AppendUleb(|items| * 8 + TYPE_ARR);
          EncodeArray(items);
      }
    }

    method EncodeMap(entries: seq<Entry>)
      modifies this
      ensures bytes == old(bytes) + EncodeEntries(entries)
      decreases entries
    {
      for i := 0 to |entries|
        invariant bytes + EncodeEntries(entries[i..]) == old(bytes) + EncodeEntries(entries)
      {
        ghost var before := bytes;
        AppendUleb(|entries[i].key|);
        bytes := bytes + entries[i].key;
        EncodeTo(entries[i].value);
        EntriesFrom(before, entries, i);
      }
    }

    method EncodeArray(items: seq<Value>)
      modifies this
      ensures bytes == old(bytes) + EncodeItems(items)
      decreases items
    {
      for i := 0 to |items|
        invariant bytes + EncodeItems(items[i..]) == old(bytes) + EncodeItems(items)
      {
        EncodeTo(items[i]);
        assert items[i..][1..] == items[i + 1..];
      }
    }
  }
}
