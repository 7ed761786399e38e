/** What the decoding reader of a GGUF header makes of its bytes, without reference to how it reads them. */
module GgufValues {
  import opened Wrappers
  import opened Bytes
  import opened Sequences
  import opened Gguf

  /** A string: its length, and as many of its bytes as the file holds. */
  ghost predicate IsString(f: bytes, off: nat, utf8: Decoder, text: string, end: nat) {
    && off + 8 <= |f| && U64(f, off) < TWO_TO_THE_63
    && end == Min(off + 8 + U64(f, off), |f|) && text == utf8(f[off + 8..end])
  }

  /** All of an array that is kept or short, and the length of any other. */
  function Kept(items: seq<Value>, element: nat, keep: bool): Value {
    if keep || |items| <= 8 then Items(items) else Summary(|items|, element)
  }

  /** These bytes are this value: an array lists its elements in file order, or only counts them when it is long and not kept. */
  ghost predicate IsValue(f: bytes, off: nat, kind: nat, keep: bool, utf8: Decoder, value: Value, end: nat)
    decreases Left(f, off), 0, 0
  {
    if StructSize(kind).Some? then
      end == off + StructSize(kind).value <= |f| && value == Scalar(kind, f[off..end])
    else if kind == 8 then
      value.Text? && IsString(f, off, utf8, value.text, end)
    else
      && kind == 9 && off + 12 <= |f|
      && exists items ::
           && IsItems(f, off + 12, U32(f, off), utf8, items, end) && |items| == U64(f, off + 4)
           && value == Kept(items, U32(f, off), keep)
  }

  ghost predicate IsItems(f: bytes, off: nat, element: nat, utf8: Decoder, items: seq<Value>, end: nat)
    decreases Left(f, off), 1, |items|
  {
    if items == [] then end == off else
    exists mid :: off < mid <= |f| && IsValue(f, off, element, false, utf8, items[0], mid) && IsItems(f, mid, element, utf8, items[1..], end)
  }

  lemma StringExactly(f: bytes, off: nat, utf8: Decoder, text: string, end: nat)
    ensures StringAt(f, off, utf8) == Success((text, end)) <==> IsString(f, off, utf8, text, end)
  {
    if off + 8 <= |f| {
      assert ReadAt(f, off + 8, U64(f, off)) == f[off + 8..Min(off + 8 + U64(f, off), |f|)];
    }
  }

  /** Decoding succeeds with a value and an end if and only if the bytes are that value and end there. */
  lemma {:induction false} ValueExactly(f: bytes, off: nat, kind: nat, keep: bool, utf8: Decoder, value: Value, end: nat)
    ensures ValueAt(f, off, kind, keep, utf8) == Success((value, end)) <==> IsValue(f, off, kind, keep, utf8, value, end)
    decreases Left(f, off), 0, 1
  {
    hide StringAt, IsString, ValuesAt, IsItems, StructSize;
    if StructSize(kind).Some? {
    } else if kind == STRING {
      if value.Text? {
        StringExactly(f, off, utf8, value.text, end);
      }
      StringIsText(f, off, utf8);
    } else if kind == ARRAY && off + 12 <= |f| {
      ArrayExactly(f, off, keep, utf8, value, end);
    }
  }

  lemma StringIsText(f: bytes, off: nat, utf8: Decoder)
    ensures StructSize(STRING).None? && StructSize(ARRAY).None?
  {
  }

  lemma {:induction false} ArrayExactly(f: bytes, off: nat, keep: bool, utf8: Decoder, value: Value, end: nat)
    requires off + 12 <= |f|
    ensures ValueAt(f, off, ARRAY, keep, utf8) == Success((value, end)) <==> IsValue(f, off, ARRAY, keep, utf8, value, end)
    decreases Left(f, off), 0, 0
  {
    hide StringAt, IsString, ValuesAt, IsItems, ReadExactly, IsValue, ValueAt;
    var element, length := U32(f, off), U64(f, off + 4);
    ArrayHead(f, off, keep, utf8);
    var read := ValuesAt(f, off + 12, element, length, utf8);
    if ValueAt(f, off, ARRAY, keep, utf8) == Success((value, end)) {
      var (items, stop) := read.value;
      assert read == Success((items, stop));
      ItemsExactly(f, off + 12, element, length, utf8, items, stop);
      ItemsMakeArray(f, off, keep, utf8, items, end);
    }
    if IsValue(f, off, ARRAY, keep, utf8, value, end) {
      var items := ItemsOf(f, off, keep, utf8, value, end);
      ItemsExactly(f, off + 12, element, length, utf8, items, end);
    }
  }

  lemma ArrayHead(f: bytes, off: nat, keep: bool, utf8: Decoder)
    requires off + 12 <= |f|
    ensures var read := ValuesAt(f, off + 12, U32(f, off), U64(f, off + 4), utf8);
      ValueAt(f, off, ARRAY, keep, utf8) ==
        match read
        case Failure(e) => Failure(e)
        case Success((items, end)) => Success((if keep || U64(f, off + 4) <= 8 then Items(items) else Summary(U64(f, off + 4), U32(f, off)), end))
  {
    hide ValuesAt, U32, U64;
    assert ReadExactly(f, off, 4) == Success(off + 4) && ReadExactly(f, off + 4, 8) == Success(off + 12);
  }

  lemma ItemsMakeArray(f: bytes, off: nat, keep: bool, utf8: Decoder, items: seq<Value>, end: nat)
    requires off + 12 <= |f| && IsItems(f, off + 12, U32(f, off), utf8, items, end) && |items| == U64(f, off + 4)
    ensures IsValue(f, off, ARRAY, keep, utf8, Kept(items, U32(f, off), keep), end)
  {
    hide IsItems;
  }

  lemma ItemsOf(f: bytes, off: nat, keep: bool, utf8: Decoder, value: Value, end: nat) returns (items: seq<Value>)
    requires IsValue(f, off, ARRAY, keep, utf8, value, end)
    ensures off + 12 <= |f| && IsItems(f, off + 12, U32(f, off), utf8, items, end) && |items| == U64(f, off + 4)
    ensures value == Kept(items, U32(f, off), keep)
  {
    hide IsItems;
    items :| IsItems(f, off + 12, U32(f, off), utf8, items, end) && |items| == U64(f, off + 4) && value == Kept(items, U32(f, off), keep);
  }

  lemma {:induction false} ItemsExactly(f: bytes, off: nat, element: nat, n: nat, utf8: Decoder, items: seq<Value>, end: nat)
    requires off <= |f|
    ensures ValuesAt(f, off, element, n, utf8) == Success((items, end)) <==> |items| == n && IsItems(f, off, element, utf8, items, end)
    decreases Left(f, off), 1, n
  {
    hide ValueAt, IsValue;
    if n > 0 {
      var first := ValueAt(f, off, element, false, utf8);
      forall value, mid: nat
        ensures first == Success((value, mid)) <==> IsValue(f, off, element, false, utf8, value, mid)
      {
        ValueExactly(f, off, element, false, utf8, value, mid);
      }
      if first.Success? {
        var (value, mid) := first.value;
        assert first == Success((value, mid));
        if items != [] {
          ItemsExactly(f, mid, element, n - 1, utf8, items[1..], end);
          assert items == [items[0]] + items[1..];
        }
      }
    }
  }

  // The header

  /** One of the parts occurs in the name. */
  ghost predicate AsksFor(parts: seq<string>, name: string) {
    exists i, at :: 0 <= i < |parts| && OccursAt(name, parts[i], at)
  }

  /** No parts ask for everything. */
  ghost predicate Selected(keys: seq<string>, name: string) {
    keys == [] || AsksFor(keys, name)
  }

  lemma MatchesExactly(name: string, parts: seq<string>)
    ensures Matches(name, parts) <==> AsksFor(parts, name)
  {
    hide OccursAt;
    assert forall i :: 0 <= i < |parts| && Contains(name, parts[i]) ==> exists at :: OccursAt(name, parts[i], at);
    forall i, at | 0 <= i < |parts| && OccursAt(name, parts[i], at)
      ensures Matches(name, parts)
    {
      OccursInside(name, parts[i], at);
      assert Contains(name, parts[i]);
    }
  }

  lemma OccursInside(name: string, part: string, at: int)
    requires OccursAt(name, part, at)
    ensures 0 <= at <= |name| - |part|
  {
  }

  ghost predicate IsNamed(entries: seq<KeyEntry>, name: string) {
    exists i :: 0 <= i < |entries| && entries[i].name == name
  }

  ghost predicate IsLast(entries: seq<KeyEntry>, i: nat)
    requires i < |entries|
  {
    forall j :: i < j < |entries| ==> entries[j].name != entries[i].name
  }

  /** The value the bytes of an entry are, kept whole if its name is asked for in full. */
  ghost predicate IsValueOf(f: bytes, utf8: Decoder, full: seq<string>, e: KeyEntry, value: Value) {
    exists end :: IsValue(f, e.valueAt, e.kind, AsksFor(full, e.name), utf8, value, end)
  }

  ghost predicate Adds(entries: seq<KeyEntry>, keys: seq<string>, name: string) {
    IsNamed(entries, name) && Selected(keys, name)
  }

  ghost predicate HasLast(
      f: bytes, entries: seq<KeyEntry>, keys: seq<string>, full: seq<string>, utf8: Decoder, all: map<string, Value>, i: nat)
    requires i < |entries|
  {
    IsLast(entries, i) && Selected(keys, entries[i].name) ==>
      entries[i].name in all && IsValueOf(f, utf8, full, entries[i], all[entries[i].name])
  }

  /** What is recorded of these entries on top of what was there: every selected name, with the value of its last entry. */
  ghost predicate Records(
      f: bytes, entries: seq<KeyEntry>, keys: seq<string>, full: seq<string>, utf8: Decoder,
      out: map<string, Value>, all: map<string, Value>)
  {
    && (forall name :: name in all <==> name in out || Adds(entries, keys, name))
    && (forall name :: name in out && !Adds(entries, keys, name) ==> name in all && all[name] == out[name])
    && (forall i :: 0 <= i < |entries| ==> HasLast(f, entries, keys, full, utf8, all, i))
  }

  lemma {:induction false} EntriesAreRecorded(
      f: bytes, off: nat, n: nat, keys: seq<string>, full: seq<string>, utf8: Decoder, out: map<string, Value>)
    requires KeysDecode(f, off, n, utf8)
    ensures MetadataAt(f, off, n, keys, full, utf8, out).Success?
    ensures Records(f, EntriesAt(f, off, n, utf8), keys, full, utf8, out, MetadataAt(f, off, n, keys, full, utf8, out).value)
    decreases n
  {
    hide StringAt, ValueAt, Wanted, Matches, U32, Records;
    MetadataNeedsKeys(f, off, n, keys, full, utf8, out);
    var entries := EntriesAt(f, off, n, utf8);
    if n == 0 {
      NothingRecorded(f, keys, full, utf8, out);
    } else {
      var e := EntryAt(f, off, utf8);
      KeepingChangesNoEnd(f, e.valueAt, e.kind, Matches(e.name, full), utf8);
      var value := ValueAt(f, e.valueAt, e.kind, Matches(e.name, full), utf8).value.0;
      var now := if Wanted(e.name, keys) then out[e.name := value] else out;
      EntriesAreRecorded(f, NextKey(f, off, utf8), n - 1, keys, full, utf8, now);
      MatchesExactly(e.name, full);
      MatchesExactly(e.name, keys);
      var (v, end) := ValueAt(f, e.valueAt, e.kind, Matches(e.name, full), utf8).value;
      ValueExactly(f, e.valueAt, e.kind, Matches(e.name, full), utf8, v, end);
      WantedIsSelected(e.name, keys);
      OneMoreRecorded(f, e, EntriesAt(f, NextKey(f, off, utf8), n - 1, utf8), keys, full, utf8, out, value,
                      MetadataAt(f, off, n, keys, full, utf8, out).value);
    }
  }

  lemma WantedIsSelected(name: string, keys: seq<string>)
    ensures Wanted(name, keys) <==> Selected(keys, name)
  {
    hide Matches, AsksFor;
    MatchesExactly(name, keys);
  }

  lemma NothingRecorded(f: bytes, keys: seq<string>, full: seq<string>, utf8: Decoder, out: map<string, Value>)
    ensures Records(f, [], keys, full, utf8, out, out)
  {
  }

  lemma OneMoreRecorded(
      f: bytes, e: KeyEntry, rest: seq<KeyEntry>, keys: seq<string>, full: seq<string>, utf8: Decoder,
      out: map<string, Value>, value: Value, all: map<string, Value>)
    requires IsValueOf(f, utf8, full, e, value)
    requires Records(f, rest, keys, full, utf8, if Selected(keys, e.name) then out[e.name := value] else out, all)
    ensures Records(f, [e] + rest, keys, full, utf8, out, all)
  {
    hide IsNamed, Selected, IsValueOf, HasLast;
    var entries := [e] + rest;
    forall name
      ensures IsNamed(entries, name) <==> name == e.name || IsNamed(rest, name)
    {
      NamedCons(e, rest, name);
    }
    forall i | 0 <= i < |entries|
      ensures HasLast(f, entries, keys, full, utf8, all, i)
    {
      if i > 0 {
        assert HasLast(f, rest, keys, full, utf8, all, i - 1);
        LastInRest(f, e, rest, keys, full, utf8, all, i - 1);
      } else {
        LastIsFirst(f, e, rest, keys, full, utf8, out, value, all);
      }
    }
  }

  lemma LastInRest(
      f: bytes, e: KeyEntry, rest: seq<KeyEntry>, keys: seq<string>, full: seq<string>, utf8: Decoder, all: map<string, Value>, i: nat)
    requires i < |rest| && HasLast(f, rest, keys, full, utf8, all, i)
    ensures HasLast(f, [e] + rest, keys, full, utf8, all, i + 1)
  {
    hide Selected, IsValueOf;
    var entries := [e] + rest;
    assert forall j :: 0 <= j < |rest| ==> entries[j + 1] == rest[j];
    if IsLast(entries, i + 1) {
      assert IsLast(rest, i);
    }
  }

  lemma LastIsFirst(
      f: bytes, e: KeyEntry, rest: seq<KeyEntry>, keys: seq<string>, full: seq<string>, utf8: Decoder,
      out: map<string, Value>, value: Value, all: map<string, Value>)
    requires IsValueOf(f, utf8, full, e, value)
    requires Records(f, rest, keys, full, utf8, if Selected(keys, e.name) then out[e.name := value] else out, all)
    ensures HasLast(f, [e] + rest, keys, full, utf8, all, 0)
  {
    hide Selected, IsValueOf, HasLast;
    var entries := [e] + rest;
    assert entries[0] == e;
    assert forall j :: 0 <= j < |rest| ==> entries[j + 1] == rest[j];
    if IsLast(entries, 0) && Selected(keys, e.name) {
      assert !IsNamed(rest, e.name);
      assert !Adds(rest, keys, e.name);
      assert all[e.name] == value;
    }
    LastHere(f, entries, keys, full, utf8, all);
  }

  lemma LastHere(f: bytes, entries: seq<KeyEntry>, keys: seq<string>, full: seq<string>, utf8: Decoder, all: map<string, Value>)
    requires entries != []
    requires IsLast(entries, 0) && Selected(keys, entries[0].name) ==>
      entries[0].name in all && IsValueOf(f, utf8, full, entries[0], all[entries[0].name])
    ensures HasLast(f, entries, keys, full, utf8, all, 0)
  {
  }

  lemma NamedCons(e: KeyEntry, rest: seq<KeyEntry>, name: string)
    ensures IsNamed([e] + rest, name) <==> name == e.name || IsNamed(rest, name)
  {
    var entries := [e] + rest;
    assert entries[0] == e;
    assert forall i :: 0 <= i < |rest| ==> entries[i + 1] == rest[i];
  }

  /** The entry at this place: its name, then its type, then its value. */
  lemma EntryExactly(f: bytes, off: nat, utf8: Decoder)
    requires KeyDecodes(f, off, utf8)
    ensures var e := EntryAt(f, off, utf8);
      && e.valueAt >= 4 && IsString(f, off, utf8, e.name, e.valueAt - 4) && e.kind == U32(f, e.valueAt - 4)
      && IsValue(f, e.valueAt, e.kind, false, utf8, e.value, NextKey(f, off, utf8))
  {
    hide StringAt, ValueAt, IsString, IsValue;
    var (name, typeAt) := StringAt(f, off, utf8).value;
    StringExactly(f, off, utf8, name, typeAt);
    var (value, end) := ValueAt(f, typeAt + 4, U32(f, typeAt), false, utf8).value;
    ValueExactly(f, typeAt + 4, U32(f, typeAt), false, utf8, value, end);
    KeepingChangesNoEnd(f, typeAt + 4, U32(f, typeAt), false, utf8);
  }

  /**
   * The full decode, exactly: it succeeds on the headers whose keys all decode, and then holds the names some part of
   * `keys` occurs in, or all of them when there are no parts, each with the value of its last entry.
   */
  lemma MetadataExactly(f: bytes, keys: seq<string>, full: seq<string>, utf8: Decoder)
    ensures
      var all := Metadata(f, keys, full, utf8);
      && (all.Success? <==> |f| >= 24 && f[0..4] == [0x47, 0x47, 0x55, 0x46] && KeysDecode(f, 24, U64(f, 16), utf8))
      && (all.Success? ==>
            var entries := EntriesAt(f, 24, U64(f, 16), utf8);
            && (forall name :: name in all.value <==> Adds(entries, keys, name))
            && (forall i :: 0 <= i < |entries| ==> HasLast(f, entries, keys, full, utf8, all.value, i)))
  {
    hide MetadataAt, KeysDecode, EntriesAt, HasLast, Adds;
    if |f| >= 24 {
      assert f[0..4] == f[..4];
      MetadataNeedsKeys(f, 24, U64(f, 16), keys, full, utf8, map[]);
      var all := Metadata(f, keys, full, utf8);
      if all.Success? {
        EntriesAreRecorded(f, 24, U64(f, 16), keys, full, utf8, map[]);
      }
    }
  }
}
