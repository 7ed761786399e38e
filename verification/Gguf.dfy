/** The GGUF key/value header read two ways: decoding every value, and stepping over the values nobody asked for. */
module Gguf {
  import opened Wrappers
  import opened Bytes
  import opened Sequences

  const GGUF_MAGIC: bytes := [0x47, 0x47, 0x55, 0x46]
  const STRING := 8
  const ARRAY := 9

  datatype GgufError =
    | NotGguf
    | TooShort
    | ShortRead
    | TooLong
    | Truncated
    | UnknownType
    | WrongType
    | Ambiguous
    | Missing

  /** A decoded value; a scalar keeps its bytes, and a long array nobody asked for keeps only its length. */
  datatype Value =
    | Scalar(kind: nat, raw: bytes)
    | Text(text: string)
    | Items(items: seq<Value>)
    | Summary(length: nat, element: nat)

  /** `bytes.decode("utf-8", "replace")`, total and not injective. */
  type Decoder = bytes -> string

  /** `struct.calcsize` of the decoder's format for each scalar type. */
  function StructSize(kind: nat): (w: Option<nat>)
    ensures w.Some? ==> w.value > 0
  {
    match kind
    case 0 => Some(1)
    case 1 => Some(1)
    case 2 => Some(2)
    case 3 => Some(2)
    case 4 => Some(4)
    case 5 => Some(4)
    case 6 => Some(4)
    case 7 => Some(1)
    case 10 => Some(8)
    case 11 => Some(8)
    case 12 => Some(8)
    case _ => None
  }

  /** The cursor's own width table. */
  function ScalarWidth(kind: nat): (w: Option<nat>)
    ensures w.Some? ==> w.value > 0 && kind != STRING && kind != ARRAY
  {
    if kind == 0 || kind == 1 || kind == 7 then Some(1)
    else if kind == 2 || kind == 3 then Some(2)
    else if 4 <= kind <= 6 then Some(4)
    else if 10 <= kind <= 12 then Some(8)
    else None
  }

  function Left(f: bytes, off: nat): nat {
    if off <= |f| then |f| - off else 0
  }

  // ---------------------------------------------------------------------------
  // Decoding
  // ---------------------------------------------------------------------------

  function ReadExactly(f: bytes, off: nat, n: nat): (r: Result<nat, GgufError>)
    ensures r.Success? ==> r.value == off + n && (n > 0 ==> r.value <= |f|)
  {
    if |ReadAt(f, off, n)| != n then Failure(ShortRead) else Success(off + n)
  }

  /**
   * A length and as many bytes as the file still holds of it: a string cut off by the end of the file is not an error,
   * but a length that `read` cannot take is.
   */
  function StringAt(f: bytes, off: nat, utf8: Decoder): (r: Result<(string, nat), GgufError>)
    ensures r.Success? ==> off < r.value.1 <= |f|
  {
    var o :- ReadExactly(f, off, 8);
    if U64(f, off) >= TWO_TO_THE_63 then Failure(TooLong) else
    var block := ReadAt(f, o, U64(f, off));
    Success((utf8(block), o + |block|))
  }

  function ValueAt(f: bytes, off: nat, kind: nat, keep: bool, utf8: Decoder): (r: Result<(Value, nat), GgufError>)
    ensures r.Success? ==> off < r.value.1 <= |f|
    decreases Left(f, off), 0
  {
    if StructSize(kind).Some? then
      var o :- ReadExactly(f, off, StructSize(kind).value);
      Success((Scalar(kind, f[off..o]), o))
    else if kind == STRING then
      var (text, o) :- StringAt(f, off, utf8);
      Success((Text(text), o))
    else if kind == ARRAY then
      var o1 :- ReadExactly(f, off, 4);
      var o2 :- ReadExactly(f, o1, 8);
      var element, length := U32(f, off), U64(f, o1);
      var (values, o3) :- ValuesAt(f, o2, element, length, utf8);
      Success((if keep || length <= 8 then Items(values) else Summary(length, element), o3))
    else Failure(UnknownType)
  }

  function ValuesAt(f: bytes, off: nat, element: nat, n: nat, utf8: Decoder): (r: Result<(seq<Value>, nat), GgufError>)
    ensures r.Success? ==> off <= r.value.1 && (off <= |f| ==> r.value.1 <= |f|)
    decreases Left(f, off), 1
  {
    if n == 0 then Success(([], off)) else
    var (value, o) :- ValueAt(f, off, element, false, utf8);
    var (rest, o') :- ValuesAt(f, o, element, n - 1, utf8);
    Success(([value] + rest, o'))
  }

  // ---------------------------------------------------------------------------
  // Skipping
  // ---------------------------------------------------------------------------

  function TakeAt(f: bytes, off: nat, n: nat): (r: Result<nat, GgufError>)
    ensures r.Success? ==> r.value == off + n <= |f|
  {
    if off + n > |f| then Failure(Truncated) else Success(off + n)
  }

  function U32At(f: bytes, off: nat): (r: Result<(nat, nat), GgufError>)
    ensures r.Success? ==> r.value.1 == off + 4 <= |f|
  {
    var o :- TakeAt(f, off, 4);
    Success((U32(f, off), o))
  }

  function U64At(f: bytes, off: nat): (r: Result<(nat, nat), GgufError>)
    ensures r.Success? ==> r.value.1 == off + 8 <= |f|
  {
    var o :- TakeAt(f, off, 8);
    Success((U64(f, off), o))
  }

  function CursorStringAt(f: bytes, off: nat, utf8: Decoder): (r: Result<(string, nat), GgufError>)
    ensures r.Success? ==> off < r.value.1 <= |f|
  {
    var (n, o1) :- U64At(f, off);
    var o2 :- TakeAt(f, o1, n);
    Success((utf8(f[o1..o2]), o2))
  }

  function SkipStringAt(f: bytes, off: nat): (r: Result<nat, GgufError>)
    ensures r.Success? ==> off < r.value <= |f|
  {
    var (n, o) :- U64At(f, off);
    TakeAt(f, o, n)
  }

  function SkipStringsAt(f: bytes, off: nat, n: nat): (r: Result<nat, GgufError>)
    ensures r.Success? ==> off <= r.value && (off <= |f| ==> r.value <= |f|)
    decreases n
  {
    if n == 0 then Success(off) else
    var o :- SkipStringAt(f, off);
    SkipStringsAt(f, o, n - 1)
  }

  function SkipAt(f: bytes, off: nat, kind: nat): (r: Result<nat, GgufError>)
    ensures r.Success? ==> off < r.value <= |f|
    decreases Left(f, off), 0
  {
    if ScalarWidth(kind).Some? then TakeAt(f, off, ScalarWidth(kind).value)
    else if kind == STRING then SkipStringAt(f, off)
    else if kind == ARRAY then
      var (element, o1) :- U32At(f, off);
      var (length, o2) :- U64At(f, o1);
      if ScalarWidth(element).Some? then TakeAt(f, o2, ScalarWidth(element).value * length)
      else if element == STRING then SkipStringsAt(f, o2, length)
      else if element == ARRAY then SkipArraysAt(f, o2, length)
      else Failure(UnknownType)
    else Failure(UnknownType)
  }

  function SkipArraysAt(f: bytes, off: nat, n: nat): (r: Result<nat, GgufError>)
    ensures r.Success? ==> off <= r.value && (off <= |f| ==> r.value <= |f|)
    decreases Left(f, off), 1
  {
    if n == 0 then Success(off) else
    var o :- SkipAt(f, off, ARRAY);
    SkipArraysAt(f, o, n - 1)
  }

  /** Walks the header of a mapped file, decoding nothing it is not asked for. */
  class Cursor {
    const f: bytes
    var offset: nat

    constructor (f: bytes)
      ensures this.f == f && offset == 0
    {
      this.f := f;
      offset := 0;
    }

    method Take(n: nat) returns (r: Result<bytes, GgufError>)
      modifies this
      ensures match TakeAt(f, old(offset), n)
              case Success(o) => offset == o && r == Success(f[old(offset)..o])
              case Failure(e) => offset == old(offset) && r == Failure(e)
    {
      var end := offset + n;
      if end > |f| { return Failure(Truncated); }
      var chunk := f[offset..end];
      offset := end;
      return Success(chunk);
    }

    method TakeU32() returns (r: Result<nat, GgufError>)
      modifies this
      ensures match U32At(f, old(offset))
              case Success((n, o)) => offset == o && r == Success(n)
              case Failure(e) => offset == old(offset) && r == Failure(e)
    {
      var chunk :- Take(4);
      assert chunk[0..4] == chunk;
      return Success(U32(chunk, 0));
    }

    method TakeU64() returns (r: Result<nat, GgufError>)
      modifies this
      ensures match U64At(f, old(offset))
              case Success((n, o)) => offset == o && r == Success(n)
              case Failure(e) => offset == old(offset) && r == Failure(e)
    {
      var chunk :- Take(8);
      assert chunk[0..8] == chunk;
      return Success(U64(chunk, 0));
    }

    method String(utf8: Decoder) returns (r: Result<string, GgufError>)
      modifies this
      ensures match CursorStringAt(f, old(offset), utf8)
              case Success((text, o)) => offset == o && r == Success(text)
              case Failure(e) => r == Failure(e)
    {
      var n :- TakeU64();
      var chunk :- Take(n);
      return Success(utf8(chunk));
    }

    method SkipString() returns (r: Result<(), GgufError>)
      modifies this
      ensures match SkipStringAt(f, old(offset))
              case Success(o) => offset == o && r.Success?
              case Failure(e) => r == Failure(e)
    {
      var n :- TakeU64();
      var _ :- Take(n);
      return Success(());
    }

    method SkipStrings(length: nat) returns (r: Result<(), GgufError>)
      modifies this
      ensures match SkipStringsAt(f, old(offset), length)
              case Success(o) => offset == o && r.Success?
              case Failure(e) => r == Failure(e)
    {
      hide SkipStringAt;
      for i := 0 to length
        invariant SkipStringsAt(f, old(offset), length) == SkipStringsAt(f, offset, length - i)
      {
        var _ :- SkipString();
      }
      return Success(());
    }

    method SkipValue(kind: nat) returns (r: Result<(), GgufError>)
      modifies this
      ensures match SkipAt(f, old(offset), kind)
              case Success(o) => offset == o && r.Success?
              case Failure(e) => r == Failure(e)
      decreases Left(f, offset)
    {
      hide SkipStringAt, SkipStringsAt;
      if ScalarWidth(kind).Some? {
        var _ :- Take(ScalarWidth(kind).value);
      } else if kind == STRING {
        var _ :- SkipString();
      } else if kind == ARRAY {
        var element :- TakeU32();
        var length :- TakeU64();
        if ScalarWidth(element).Some? {
          var _ :- Take(ScalarWidth(element).value * length);
        } else if element == STRING {
          var _ :- SkipStrings(length);
        } else if element == ARRAY {
          ghost var first := offset;
          for i := 0 to length
            invariant first <= offset <= |f|
            invariant SkipArraysAt(f, first, length) == SkipArraysAt(f, offset, length - i)
          {
            var _ :- SkipValue(ARRAY);
          }
        } else {
          return Failure(UnknownType);
        }
      } else {
        return Failure(UnknownType);
      }
      return Success(());
    }
  }

  /** An open file read forwards; a read past the end returns what is left. */
  class Handle {
    const f: bytes
    var offset: nat

    constructor (f: bytes)
      ensures this.f == f && offset == 0
    {
      this.f := f;
      offset := 0;
    }

    method Read(n: nat) returns (block: bytes)
      modifies this
      ensures block == ReadAt(f, old(offset), n) && offset == old(offset) + |block|
    {
      block := ReadAt(f, offset, n);
      offset := offset + |block|;
    }

    method Unpack(n: nat) returns (r: Result<bytes, GgufError>)
      modifies this
      ensures match ReadExactly(f, old(offset), n)
              case Success(o) => r == Success(ReadAt(f, old(offset), n)) && offset == o
              case Failure(e) => r == Failure(e)
    {
      var block := Read(n);
      if |block| != n { return Failure(ShortRead); }
      return Success(block);
    }

    method UnpackU32() returns (r: Result<nat, GgufError>)
      modifies this
      ensures match ReadExactly(f, old(offset), 4)
              case Success(o) => r == Success(U32(f, old(offset))) && offset == o
              case Failure(e) => r == Failure(e)
    {
      var block :- Unpack(4);
      assert block[0..4] == f[old(offset)..old(offset) + 4];
      return Success(U32(block, 0));
    }

    method UnpackU64() returns (r: Result<nat, GgufError>)
      modifies this
      ensures match ReadExactly(f, old(offset), 8)
              case Success(o) => r == Success(U64(f, old(offset))) && offset == o
              case Failure(e) => r == Failure(e)
    {
      var block :- Unpack(8);
      assert block[0..8] == f[old(offset)..old(offset) + 8];
      return Success(U64(block, 0));
    }

    method ReadString(utf8: Decoder) returns (r: Result<string, GgufError>)
      modifies this
      ensures match StringAt(f, old(offset), utf8)
              case Success((text, o)) => r == Success(text) && offset == o
              case Failure(e) => r == Failure(e)
    {
      var n :- UnpackU64();
      if n >= TWO_TO_THE_63 { return Failure(TooLong); }
      var block := Read(n);
      return Success(utf8(block));
    }

    method ReadValue(kind: nat, keep: bool, utf8: Decoder) returns (r: Result<Value, GgufError>)
      modifies this
      ensures match ValueAt(f, old(offset), kind, keep, utf8)
              case Success((value, o)) => r == Success(value) && offset == o
              case Failure(e) => r == Failure(e)
      decreases Left(f, offset), 0
    {
      hide StringAt;
      if StructSize(kind).Some? {
        var block :- Unpack(StructSize(kind).value);
        return Success(Scalar(kind, block));
      }
      if kind == STRING {
        var text :- ReadString(utf8);
        return Success(Text(text));
      }
      if kind == ARRAY {
        var element :- UnpackU32();
        var length :- UnpackU64();
        var values :- ReadValues(element, length, utf8);
        return Success(if keep || length <= 8 then Items(values) else Summary(length, element));
      }
      return Failure(UnknownType);
    }

    method ReadValues(element: nat, length: nat, utf8: Decoder) returns (r: Result<seq<Value>, GgufError>)
      modifies this
      ensures match ValuesAt(f, old(offset), element, length, utf8)
              case Success((values, o)) => r == Success(values) && offset == o
              case Failure(e) => r == Failure(e)
      decreases Left(f, offset), 1
    {
      hide ValueAt;
      var values := [];
      PrependNothing(ValuesAt(f, offset, element, length, utf8));
      for i := 0 to length
        invariant old(offset) <= offset && (i > 0 ==> old(offset) < offset <= |f|)
        invariant ValuesAt(f, old(offset), element, length, utf8)
               == Prepend(values, ValuesAt(f, offset, element, length - i, utf8))
      {
        var value :- ReadValue(element, false, utf8);
        PrependStep(values, value, ValuesAt(f, offset, element, length - i - 1, utf8));
        values := values + [value];
      }
      assert ValuesAt(f, offset, element, 0, utf8) == Success(([], offset));
      assert values + [] == values;
      return Success(values);
    }
  }

  lemma PrependNothing(rest: Result<(seq<Value>, nat), GgufError>)
    ensures Prepend([], rest) == rest
  {
    if rest.Success? {
      assert [] + rest.value.0 == rest.value.0;
    }
  }

  ghost function Prepend(values: seq<Value>, rest: Result<(seq<Value>, nat), GgufError>): Result<(seq<Value>, nat), GgufError> {
    match rest
    case Success((more, o)) => Success((values + more, o))
    case Failure(e) => Failure(e)
  }

  lemma PrependStep(values: seq<Value>, value: Value, rest: Result<(seq<Value>, nat), GgufError>)
    ensures Prepend(values, Prepend([value], rest)) == Prepend(values + [value], rest)
  {
    if rest.Success? {
      assert values + ([value] + rest.value.0) == values + [value] + rest.value.0;
    }
  }

  // ---------------------------------------------------------------------------
  // The two readers of the header
  // ---------------------------------------------------------------------------

  predicate Contains(text: string, part: string) {
    exists i :: 0 <= i <= |text| - |part| && OccursAt(text, part, i)
  }

  predicate Matches(key: string, parts: seq<string>) {
    exists i :: 0 <= i < |parts| && Contains(key, parts[i])
  }

  predicate Wanted(key: string, keys: seq<string>) {
    keys == [] || Matches(key, keys)
  }

  /** Every key decoded in file order, a later duplicate replacing an earlier one; `keys` filters, `full` keeps long arrays. */
  function MetadataAt(f: bytes, off: nat, n: nat, keys: seq<string>, full: seq<string>, utf8: Decoder, out: map<string, Value>)
    : Result<map<string, Value>, GgufError>
    decreases n
  {
    if n == 0 then Success(out) else
    var (key, o1) :- StringAt(f, off, utf8);
    var o2 :- ReadExactly(f, o1, 4);
    var (value, o3) :- ValueAt(f, o2, U32(f, o1), Matches(key, full), utf8);
    MetadataAt(f, o3, n - 1, keys, full, utf8, if Wanted(key, keys) then out[key := value] else out)
  }

  function Metadata(f: bytes, keys: seq<string>, full: seq<string>, utf8: Decoder): Result<map<string, Value>, GgufError> {
    if ReadAt(f, 0, 4) != GGUF_MAGIC then Failure(NotGguf) else
    var o1 :- ReadExactly(f, 4, 4);
    var o2 :- ReadExactly(f, o1, 8);
    var o3 :- ReadExactly(f, o2, 8);
    MetadataAt(f, o3, U64(f, o2), keys, full, utf8, map[])
  }

  method DecodeKeys(handle: Handle, n: nat, keys: seq<string>, full: seq<string>, utf8: Decoder)
    returns (r: Result<map<string, Value>, GgufError>)
    modifies handle
    ensures r == MetadataAt(handle.f, old(handle.offset), n, keys, full, utf8, map[])
  {
    hide StringAt, ValueAt, Wanted, Matches;
    var out := map[];
    for i := 0 to n
      invariant MetadataAt(handle.f, old(handle.offset), n, keys, full, utf8, map[])
             == MetadataAt(handle.f, handle.offset, n - i, keys, full, utf8, out)
    {
      var key :- handle.ReadString(utf8);
      var kind :- handle.UnpackU32();
      var value :- handle.ReadValue(kind, Matches(key, full), utf8);
      if Wanted(key, keys) {
        out := out[key := value];
      }
    }
    return Success(out);
  }

  method ReadMetadata(f: bytes, keys: seq<string>, full: seq<string>, utf8: Decoder) returns (r: Result<map<string, Value>, GgufError>)
    ensures r == Metadata(f, keys, full, utf8)
  {
    hide MetadataAt;
    var handle := new Handle(f);
    var magic := handle.Read(4);
    if magic != GGUF_MAGIC { return Failure(NotGguf); }
    var _ :- handle.UnpackU32();
    var _ :- handle.UnpackU64();
    var n :- handle.UnpackU64();
    r := DecodeKeys(handle, n, keys, full, utf8);
  }

  /** The search for one string key from `off` on, given what an earlier occurrence already said. */
  function StringKeyAt(f: bytes, off: nat, n: nat, key: string, exhaustive: bool, utf8: Decoder, found: Option<string>): Result<string, GgufError>
    decreases n
  {
    if n == 0 then (if found.None? then Failure(Missing) else Success(found.value)) else
    var (name, o1) :- CursorStringAt(f, off, utf8);
    var (kind, o2) :- U32At(f, o1);
    if name != key then
      var o3 :- SkipAt(f, o2, kind);
      StringKeyAt(f, o3, n - 1, key, exhaustive, utf8, found)
    else if kind != STRING then Failure(WrongType)
    else
      var (value, o3) :- CursorStringAt(f, o2, utf8);
      if found.Some? && found.value != value then Failure(Ambiguous)
      else if !exhaustive then Success(value)
      else StringKeyAt(f, o3, n - 1, key, exhaustive, utf8, Some(value))
  }

  function StringKey(f: bytes, key: string, exhaustive: bool, utf8: Decoder): Result<string, GgufError> {
    if |f| < 24 then Failure(TooShort) else
    if f[..4] != GGUF_MAGIC then Failure(NotGguf) else
    StringKeyAt(f, 24, U64(f, 16), key, exhaustive, utf8, None)
  }

  method SearchKeys(cursor: Cursor, n: nat, key: string, exhaustive: bool, utf8: Decoder) returns (r: Result<string, GgufError>)
    modifies cursor
    ensures r == StringKeyAt(cursor.f, old(cursor.offset), n, key, exhaustive, utf8, None)
  {
    hide CursorStringAt, SkipAt;
    var found: Option<string> := None;
    for i := 0 to n
      invariant StringKeyAt(cursor.f, old(cursor.offset), n, key, exhaustive, utf8, None)
             == StringKeyAt(cursor.f, cursor.offset, n - i, key, exhaustive, utf8, found)
    {
      var name :- cursor.String(utf8);
      var kind :- cursor.TakeU32();
      if name != key {
        var _ :- cursor.SkipValue(kind);
        continue;
      }
      if kind != STRING { return Failure(WrongType); }
      var value :- cursor.String(utf8);
      if found.Some? && found.value != value { return Failure(Ambiguous); }
      found := Some(value);
      if !exhaustive { return Success(value); }
    }
    if found.None? { return Failure(Missing); }
    return Success(found.value);
  }

  method ReadStringKey(f: bytes, key: string, exhaustive: bool, utf8: Decoder) returns (r: Result<string, GgufError>)
    ensures r == StringKey(f, key, exhaustive, utf8)
  {
    hide StringKeyAt;
    if |f| < 24 { return Failure(TooShort); }
    var cursor := new Cursor(f);
    var magic := cursor.Take(4);
    assert f[0..4] == f[..4];
    if magic.value != GGUF_MAGIC { return Failure(NotGguf); }
    var _ := cursor.TakeU32();
    var _ := cursor.TakeU64();
    var n := cursor.TakeU64();
    r := SearchKeys(cursor, n.value, key, exhaustive, utf8);
  }

  // ---------------------------------------------------------------------------
  // Skipping stops where decoding stops
  // ---------------------------------------------------------------------------

  lemma WidthTablesAgree(kind: nat)
    ensures StructSize(kind) == ScalarWidth(kind)
  {
  }

  /** No file is longer than a file position can say. */
  predicate IsFile(f: bytes) {
    |f| < TWO_TO_THE_63
  }

  lemma StringsAgree(f: bytes, off: nat, utf8: Decoder)
    requires IsFile(f) || StringAt(f, off, utf8).Success?
    ensures CursorStringAt(f, off, utf8).Success? ==> StringAt(f, off, utf8) == CursorStringAt(f, off, utf8)
    ensures SkipStringAt(f, off).Success? <==> CursorStringAt(f, off, utf8).Success?
    ensures SkipStringAt(f, off).Success? ==> SkipStringAt(f, off).value == CursorStringAt(f, off, utf8).value.1
  {
  }

  lemma {:induction false} ScalarsAgree(f: bytes, off: nat, element: nat, n: nat, utf8: Decoder)
    requires ScalarWidth(element).Some? && off + ScalarWidth(element).value * n <= |f|
    ensures ValuesAt(f, off, element, n, utf8).Success?
    ensures ValuesAt(f, off, element, n, utf8).value.1 == off + ScalarWidth(element).value * n
    decreases n
  {
    if n > 0 {
      WidthTablesAgree(element);
      var w := ScalarWidth(element).value;
      assert w * n == w + w * (n - 1) && w * (n - 1) >= 0;
      ScalarsAgree(f, off + w, element, n - 1, utf8);
    }
  }

  lemma {:induction false} SkippedStringsAgree(f: bytes, off: nat, n: nat, utf8: Decoder)
    requires SkipStringsAt(f, off, n).Success? && (IsFile(f) || ValuesAt(f, off, STRING, n, utf8).Success?)
    ensures ValuesAt(f, off, STRING, n, utf8).Success?
    ensures ValuesAt(f, off, STRING, n, utf8).value.1 == SkipStringsAt(f, off, n).value
    decreases n
  {
    hide SkipStringAt, StringAt, CursorStringAt;
    if n > 0 {
      StringsAgree(f, off, utf8);
      SkippedStringsAgree(f, SkipStringAt(f, off).value, n - 1, utf8);
    }
  }

  /** Whatever the cursor steps over, at any depth of arrays within arrays, it leaves exactly where decoding would. (Of data
      longer than any file this is known only where decoding succeeds, since no string of that length can be read.) */
  lemma {:induction false} SkipStopsWhereReadStops(f: bytes, off: nat, kind: nat, keep: bool, utf8: Decoder)
    requires SkipAt(f, off, kind).Success? && (IsFile(f) || ValueAt(f, off, kind, keep, utf8).Success?)
    ensures ValueAt(f, off, kind, keep, utf8).Success?
    ensures ValueAt(f, off, kind, keep, utf8).value.1 == SkipAt(f, off, kind).value
    decreases Left(f, off), 0
  {
    hide StringAt, CursorStringAt, SkipStringAt, SkipStringsAt, ScalarWidth, StructSize;
    WidthTablesAgree(kind);
    if ScalarWidth(kind).Some? {
    } else if kind == STRING {
      StringsAgree(f, off, utf8);
    } else {
      var element, length := U32(f, off), U64(f, off + 4);
      if ScalarWidth(element).Some? {
        ScalarsAgree(f, off + 12, element, length, utf8);
      } else if element == STRING {
        SkippedStringsAgree(f, off + 12, length, utf8);
      } else {
        SkippedArraysAgree(f, off + 12, length, utf8);
      }
    }
  }

  lemma {:induction false} SkippedArraysAgree(f: bytes, off: nat, n: nat, utf8: Decoder)
    requires SkipArraysAt(f, off, n).Success? && (IsFile(f) || ValuesAt(f, off, ARRAY, n, utf8).Success?)
    ensures ValuesAt(f, off, ARRAY, n, utf8).Success?
    ensures ValuesAt(f, off, ARRAY, n, utf8).value.1 == SkipArraysAt(f, off, n).value
    decreases Left(f, off), 1
  {
    if n > 0 {
      SkipStopsWhereReadStops(f, off, ARRAY, false, utf8);
      hide SkipAt, ValueAt;
      SkippedArraysAgree(f, SkipAt(f, off, ARRAY).value, n - 1, utf8);
    }
  }

  // ---------------------------------------------------------------------------
  // When what decoding accepts can be skipped
  // ---------------------------------------------------------------------------

  /** Where decoding a value ends; keeping a long array or summarising it makes no difference. */
  function EndOf(f: bytes, off: nat, kind: nat, utf8: Decoder): (end: nat)
    requires ValueAt(f, off, kind, false, utf8).Success?
    ensures off < end <= |f|
  {
    ValueAt(f, off, kind, false, utf8).value.1
  }

  lemma {:induction false} KeepingChangesNoEnd(f: bytes, off: nat, kind: nat, keep: bool, utf8: Decoder)
    ensures ValueAt(f, off, kind, keep, utf8).Success? <==> ValueAt(f, off, kind, false, utf8).Success?
    ensures ValueAt(f, off, kind, keep, utf8).Success? ==> ValueAt(f, off, kind, keep, utf8).value.1 == EndOf(f, off, kind, utf8)
  {
    hide StringAt, ReadExactly, StructSize, ValuesAt;
  }

  /** The declared length of the string at `off` stays within the file. */
  predicate Uncut(f: bytes, off: nat) {
    off + 8 <= |f| && off + 8 + U64(f, off) <= |f|
  }

  predicate KnownElement(element: nat) {
    ScalarWidth(element).Some? || element == STRING || element == ARRAY
  }

  /**
   * Nothing in this decodable value is damaged in a way decoding overlooks: no string in it, at any
   * depth, runs past the end of the file, and no empty array in it claims an unknown element type.
   */
  predicate Whole(f: bytes, off: nat, kind: nat, utf8: Decoder)
    requires ValueAt(f, off, kind, false, utf8).Success?
    decreases Left(f, off), 0
  {
    if kind == STRING then Uncut(f, off)
    else if kind != ARRAY then true
    else
      var element, length := U32(f, off), U64(f, off + 4);
      (length == 0 ==> KnownElement(element)) && WholeItems(f, off + 12, element, length, utf8)
  }

  predicate WholeItems(f: bytes, off: nat, element: nat, n: nat, utf8: Decoder)
    requires ValuesAt(f, off, element, n, utf8).Success?
    decreases Left(f, off), 1
  {
    n == 0 || (Whole(f, off, element, utf8) && WholeItems(f, EndOf(f, off, element, utf8), element, n - 1, utf8))
  }

  lemma {:induction false} ScalarsFit(f: bytes, off: nat, element: nat, n: nat, utf8: Decoder)
    requires ScalarWidth(element).Some? && ValuesAt(f, off, element, n, utf8).Success? && off <= |f|
    ensures off + ScalarWidth(element).value * n <= |f|
    ensures WholeItems(f, off, element, n, utf8)
    decreases n
  {
    if n > 0 {
      WidthTablesAgree(element);
      var w := ScalarWidth(element).value;
      assert w * n == w + w * (n - 1);
      ScalarsFit(f, off + w, element, n - 1, utf8);
      assert EndOf(f, off, element, utf8) == off + w;
      assert Whole(f, off, element, utf8);
    }
  }

  lemma {:induction false} StringsSkippable(f: bytes, off: nat, n: nat, utf8: Decoder)
    requires ValuesAt(f, off, STRING, n, utf8).Success?
    ensures SkipStringsAt(f, off, n).Success? <==> WholeItems(f, off, STRING, n, utf8)
    decreases n
  {
    if n > 0 {
      StringSkippable(f, off, utf8);
      StringsAgree(f, off, utf8);
      hide StringAt, CursorStringAt, SkipStringAt, Uncut;
      StringsSkippable(f, EndOf(f, off, STRING, utf8), n - 1, utf8);
    }
  }

  lemma {:induction false} StringSkippable(f: bytes, off: nat, utf8: Decoder)
    requires ValueAt(f, off, STRING, false, utf8).Success?
    ensures SkipStringAt(f, off).Success? <==> Uncut(f, off)
    ensures SkipStringAt(f, off).Success? ==> SkipStringAt(f, off).value == EndOf(f, off, STRING, utf8)
  {
    WidthTablesAgree(STRING);
  }

  /** What decoding accepts, skipping accepts exactly when it is whole. */
  lemma {:induction false} SkippableExactlyWhenWhole(f: bytes, off: nat, kind: nat, keep: bool, utf8: Decoder)
    requires ValueAt(f, off, kind, keep, utf8).Success?
    ensures ValueAt(f, off, kind, false, utf8).Success?
    ensures SkipAt(f, off, kind).Success? <==> Whole(f, off, kind, utf8)
    decreases Left(f, off), 0
  {
    hide StringAt, CursorStringAt, SkipStringAt, SkipStringsAt, Uncut;
    KeepingChangesNoEnd(f, off, kind, keep, utf8);
    WidthTablesAgree(kind);
    if kind == STRING {
      StringSkippable(f, off, utf8);
    } else if kind == ARRAY {
      var element, length := U32(f, off), U64(f, off + 4);
      WidthTablesAgree(element);
      if ScalarWidth(element).Some? {
        ScalarsFit(f, off + 12, element, length, utf8);
      } else if element == STRING {
        StringsSkippable(f, off + 12, length, utf8);
      } else if element == ARRAY {
        ArraysSkippable(f, off + 12, length, utf8);
      }
    }
  }

  lemma {:induction false} ArraysSkippable(f: bytes, off: nat, n: nat, utf8: Decoder)
    requires ValuesAt(f, off, ARRAY, n, utf8).Success?
    ensures SkipArraysAt(f, off, n).Success? <==> WholeItems(f, off, ARRAY, n, utf8)
    decreases Left(f, off), 1
  {
    if n > 0 {
      SkippableExactlyWhenWhole(f, off, ARRAY, false, utf8);
      if SkipAt(f, off, ARRAY).Success? {
        SkipStopsWhereReadStops(f, off, ARRAY, false, utf8);
      }
      hide SkipAt, ValueAt, Whole;
      ArraysSkippable(f, EndOf(f, off, ARRAY, utf8), n - 1, utf8);
    }
  }

  /** The two kinds of damage, at their smallest: a string the file cuts short, and an empty array of a type nobody knows. */
  lemma ReadAcceptsMore(utf8: Decoder)
    ensures
      var cut: bytes := [5, 0, 0, 0, 0, 0, 0, 0, 0x61];
      ValueAt(cut, 0, STRING, false, utf8) == Success((Text(utf8([0x61])), 9)) && SkipAt(cut, 0, STRING).Failure?
      && !Whole(cut, 0, STRING, utf8)
    ensures
      var empty: bytes := [99, 0, 0, 0, 0, 0, 0, 0, 0, 0, 0, 0];
      ValueAt(empty, 0, ARRAY, false, utf8) == Success((Items([]), 12)) && SkipAt(empty, 0, ARRAY).Failure?
      && !Whole(empty, 0, ARRAY, utf8)
  {
    hide Le, U64, U32;
    var cut: bytes := [5, 0, 0, 0, 0, 0, 0, 0, 0x61];
    SmallNumber(cut, 0, 8, 5);
    assert cut[8..9] == [0x61];
    var empty: bytes := [99, 0, 0, 0, 0, 0, 0, 0, 0, 0, 0, 0];
    SmallNumber(empty, 0, 4, 99);
    SmallNumber(empty, 4, 8, 0);
    assert ValuesAt(empty, 12, 99, 0, utf8) == Success(([], 12));
    SkippableExactlyWhenWhole(cut, 0, STRING, false, utf8);
    SkippableExactlyWhenWhole(empty, 0, ARRAY, false, utf8);
  }

  lemma SmallNumber(f: bytes, o: nat, width: nat, n: byte)
    requires width > 0 && o + width <= |f| && f[o] == n && forall i :: o < i < o + width ==> f[i] == 0
    ensures width == 4 ==> U32(f, o) == n
    ensures width == 8 ==> U64(f, o) == n
  {
    var digits := f[o..o + width];
    assert digits[0] == n && forall i :: 0 < i < width ==> digits[i] == f[o + i];
    ZeroDigits(digits[1..]);
  }

  lemma {:induction false} ZeroDigits(digits: bytes)
    requires forall i :: 0 <= i < |digits| ==> digits[i] == 0
    ensures Le(digits) == 0
  {
    if digits != [] {
      ZeroDigits(digits[1..]);
    }
  }

  // ---------------------------------------------------------------------------
  // The key readers agree
  // ---------------------------------------------------------------------------

  /** A value found earlier is the one an exhaustive search ends with, or it ends in a refusal. */
  lemma {:induction false} FoundStays(f: bytes, off: nat, n: nat, key: string, utf8: Decoder, found: string)
    requires StringKeyAt(f, off, n, key, true, utf8, Some(found)).Success?
    ensures StringKeyAt(f, off, n, key, true, utf8, Some(found)) == Success(found)
    decreases n
  {
    hide CursorStringAt, SkipAt;
    if n > 0 {
      var (name, o1) := CursorStringAt(f, off, utf8).value;
      var (kind, o2) := U32At(f, o1).value;
      if name != key {
        FoundStays(f, SkipAt(f, o2, kind).value, n - 1, key, utf8, found);
      } else {
        FoundStays(f, CursorStringAt(f, o2, utf8).value.1, n - 1, key, utf8, found);
      }
    }
  }

  lemma {:induction false} EarlyExitAgrees(f: bytes, off: nat, n: nat, key: string, utf8: Decoder)
    requires StringKeyAt(f, off, n, key, true, utf8, None).Success?
    ensures StringKeyAt(f, off, n, key, false, utf8, None) == StringKeyAt(f, off, n, key, true, utf8, None)
    decreases n
  {
    hide CursorStringAt, SkipAt;
    if n > 0 {
      var (name, o1) := CursorStringAt(f, off, utf8).value;
      var (kind, o2) := U32At(f, o1).value;
      if name != key {
        EarlyExitAgrees(f, SkipAt(f, o2, kind).value, n - 1, key, utf8);
      } else {
        var (value, o3) := CursorStringAt(f, o2, utf8).value;
        FoundStays(f, o3, n - 1, key, utf8, value);
      }
    }
  }

  lemma {:induction false} MetadataAgrees(
      f: bytes, off: nat, n: nat, key: string, utf8: Decoder, found: Option<string>,
      keys: seq<string>, full: seq<string>, out: map<string, Value>)
    requires IsFile(f) && StringKeyAt(f, off, n, key, true, utf8, found).Success? && Wanted(key, keys)
    requires found.Some? ==> key in out && out[key] == Text(found.value)
    ensures
      var v := StringKeyAt(f, off, n, key, true, utf8, found).value;
      var all := MetadataAt(f, off, n, keys, full, utf8, out);
      all.Success? && key in all.value && all.value[key] == Text(v)
    decreases n
  {
    hide CursorStringAt, StringAt, SkipAt, ValueAt, Wanted, Matches, U32At, ReadExactly, U32;
    if n > 0 {
      StringsAgree(f, off, utf8);
      var (name, o1) := CursorStringAt(f, off, utf8).value;
      var (kind, o2) := U32At(f, o1).value;
      NumbersAgree(f, o1);
      if name != key {
        SkipStopsWhereReadStops(f, o2, kind, Matches(name, full), utf8);
        var (value, o3) := ValueAt(f, o2, kind, Matches(name, full), utf8).value;
        MetadataAgrees(f, o3, n - 1, key, utf8, found, keys, full, if Wanted(name, keys) then out[name := value] else out);
      } else {
        TextValue(f, o2, Matches(name, full), utf8);
        var (text, o3) := CursorStringAt(f, o2, utf8).value;
        MetadataAgrees(f, o3, n - 1, key, utf8, Some(text), keys, full, out[key := Text(text)]);
      }
    }
  }

  lemma NumbersAgree(f: bytes, off: nat)
    requires U32At(f, off).Success?
    ensures ReadExactly(f, off, 4) == Success(U32At(f, off).value.1) && off + 4 <= |f| && U32At(f, off).value.0 == U32(f, off)
  {
  }

  lemma {:induction false} TextValue(f: bytes, off: nat, keep: bool, utf8: Decoder)
    requires IsFile(f) && CursorStringAt(f, off, utf8).Success?
    ensures
      var (text, o) := CursorStringAt(f, off, utf8).value;
      ValueAt(f, off, STRING, keep, utf8) == Success((Text(text), o))
  {
    StringsAgree(f, off, utf8);
    WidthTablesAgree(STRING);
    hide StringAt, CursorStringAt;
  }

  /** What the exhaustive search accepts, the early exit returns and the full decode records: one answer from three readers. */
  lemma ThreeReadersAgree(f: bytes, key: string, utf8: Decoder, keys: seq<string>, full: seq<string>)
    requires IsFile(f) && StringKey(f, key, true, utf8).Success?
    ensures StringKey(f, key, false, utf8) == StringKey(f, key, true, utf8)
    ensures
      Wanted(key, keys) ==>
        var all := Metadata(f, keys, full, utf8);
        all.Success? && key in all.value && all.value[key] == Text(StringKey(f, key, true, utf8).value)
  {
    hide StringKeyAt, MetadataAt, Wanted;
    var n := U64(f, 16);
    assert f[0..4] == f[..4];
    EarlyExitAgrees(f, 24, n, key, utf8);
    if Wanted(key, keys) {
      MetadataAgrees(f, 24, n, key, utf8, None, keys, full, map[]);
    }
  }

  // ---------------------------------------------------------------------------
  // When the search succeeds on a header that decodes
  // ---------------------------------------------------------------------------

  /** One key of a header: where its name, its type and its value lie, and what name and value decode to. */
  datatype KeyEntry = KeyEntry(nameAt: nat, name: string, kind: nat, valueAt: nat, value: Value)

  /** The key at `off` can be decoded. */
  predicate KeyDecodes(f: bytes, off: nat, utf8: Decoder) {
    && StringAt(f, off, utf8).Success?
    && var typeAt := StringAt(f, off, utf8).value.1;
    && typeAt + 4 <= |f| && ValueAt(f, typeAt + 4, U32(f, typeAt), false, utf8).Success?
  }

  function EntryAt(f: bytes, off: nat, utf8: Decoder): KeyEntry
    requires KeyDecodes(f, off, utf8)
  {
    var (name, typeAt) := StringAt(f, off, utf8).value;
    KeyEntry(off, name, U32(f, typeAt), typeAt + 4, ValueAt(f, typeAt + 4, U32(f, typeAt), false, utf8).value.0)
  }

  function NextKey(f: bytes, off: nat, utf8: Decoder): nat
    requires KeyDecodes(f, off, utf8)
  {
    var typeAt := StringAt(f, off, utf8).value.1;
    EndOf(f, typeAt + 4, U32(f, typeAt), utf8)
  }

  predicate KeysDecode(f: bytes, off: nat, n: nat, utf8: Decoder)
    decreases n
  {
    n == 0 || (KeyDecodes(f, off, utf8) && KeysDecode(f, NextKey(f, off, utf8), n - 1, utf8))
  }

  /** The keys of a header in file order. */
  function EntriesAt(f: bytes, off: nat, n: nat, utf8: Decoder): (entries: seq<KeyEntry>)
    requires KeysDecode(f, off, n, utf8)
    ensures |entries| == n
    decreases n
  {
    if n == 0 then [] else [EntryAt(f, off, utf8)] + EntriesAt(f, NextKey(f, off, utf8), n - 1, utf8)
  }

  /** Neither the name nor the value of the key is damaged in a way decoding overlooks. */
  predicate WholeEntry(f: bytes, e: KeyEntry, utf8: Decoder) {
    && Uncut(f, e.nameAt)
    && ValueAt(f, e.valueAt, e.kind, false, utf8).Success? && Whole(f, e.valueAt, e.kind, utf8)
  }

  predicate AllWhole(f: bytes, entries: seq<KeyEntry>, utf8: Decoder) {
    forall i :: 0 <= i < |entries| ==> WholeEntry(f, entries[i], utf8)
  }

  /** The key occurs, always as a string, and always as the same one; `found` is what came before. */
  predicate OneAnswer(entries: seq<KeyEntry>, key: string, found: Option<string>) {
    && (found.Some? || exists e :: e in entries && e.name == key)
    && (forall e :: e in entries && e.name == key ==> e.kind == STRING)
    && (forall e, d :: e in entries && d in entries && e.name == key && d.name == key ==> e.value == d.value)
    && (forall e :: e in entries && e.name == key && found.Some? ==> e.value == Text(found.value))
  }

  lemma {:induction false} MetadataNeedsKeys(
      f: bytes, off: nat, n: nat, keys: seq<string>, full: seq<string>, utf8: Decoder, out: map<string, Value>)
    ensures MetadataAt(f, off, n, keys, full, utf8, out).Success? <==> KeysDecode(f, off, n, utf8)
    decreases n
  {
    hide StringAt, ValueAt, Wanted, Matches, U32;
    if n > 0 && StringAt(f, off, utf8).Success? {
      var (key, o1) := StringAt(f, off, utf8).value;
      assert ReadExactly(f, o1, 4).Success? <==> o1 + 4 <= |f|;
      if o1 + 4 <= |f| {
        KeepingChangesNoEnd(f, o1 + 4, U32(f, o1), Matches(key, full), utf8);
        if ValueAt(f, o1 + 4, U32(f, o1), false, utf8).Success? {
          var value := ValueAt(f, o1 + 4, U32(f, o1), Matches(key, full), utf8).value.0;
          MetadataNeedsKeys(f, NextKey(f, off, utf8), n - 1, keys, full, utf8, if Wanted(key, keys) then out[key := value] else out);
        }
      }
    }
  }

  lemma OneAnswerPast(e: KeyEntry, rest: seq<KeyEntry>, key: string, found: Option<string>)
    requires e.name != key
    ensures OneAnswer([e] + rest, key, found) <==> OneAnswer(rest, key, found)
  {
    assert forall d :: d in [e] + rest <==> d == e || d in rest;
  }

  lemma OneAnswerHere(e: KeyEntry, rest: seq<KeyEntry>, key: string, found: Option<string>)
    requires e.name == key && (e.kind == STRING ==> e.value.Text?)
    ensures OneAnswer([e] + rest, key, found) <==> AgreesHere(e, rest, key, found)
  {
    assert forall d :: d in [e] + rest <==> d == e || d in rest;
  }

  predicate AgreesHere(e: KeyEntry, rest: seq<KeyEntry>, key: string, found: Option<string>) {
    e.kind == STRING && (found.Some? ==> e.value == Text(found.value)) && OneAnswer(rest, key, Some(TextOf(e.value)))
  }

  function TextOf(value: Value): string {
    if value.Text? then value.text else ""
  }

  /** A cursor reading a string that is whole reads what decoding reads. */
  lemma CursorReadsWhole(f: bytes, off: nat, utf8: Decoder)
    requires StringAt(f, off, utf8).Success?
    ensures CursorStringAt(f, off, utf8).Success? <==> Uncut(f, off)
    ensures Uncut(f, off) ==> CursorStringAt(f, off, utf8) == StringAt(f, off, utf8)
  {
  }

  lemma {:induction false} StringValue(f: bytes, off: nat, utf8: Decoder)
    requires ValueAt(f, off, STRING, false, utf8).Success?
    ensures StringAt(f, off, utf8).Success?
    ensures ValueAt(f, off, STRING, false, utf8).value == (Text(StringAt(f, off, utf8).value.0), StringAt(f, off, utf8).value.1)
    ensures Whole(f, off, STRING, utf8) <==> Uncut(f, off)
  {
    WidthTablesAgree(STRING);
    hide StringAt, Uncut;
  }

  lemma {:induction false} SearchOnDecodedKeys(f: bytes, off: nat, n: nat, key: string, utf8: Decoder, found: Option<string>)
    requires KeysDecode(f, off, n, utf8)
    ensures var entries := EntriesAt(f, off, n, utf8);
      StringKeyAt(f, off, n, key, true, utf8, found).Success? <==> AllWhole(f, entries, utf8) && OneAnswer(entries, key, found)
    decreases n
  {
    hide StringAt, CursorStringAt, ValueAt, SkipAt, U32, Uncut, Whole, OneAnswer, AllWhole;
    var entries := EntriesAt(f, off, n, utf8);
    if n == 0 {
      NoEntries(f, key, utf8, found);
    } else {
      var e, next := EntryAt(f, off, utf8), NextKey(f, off, utf8);
      var rest := EntriesAt(f, next, n - 1, utf8);
      AllWholeCons(f, e, rest, utf8);
      CursorReadsWhole(f, off, utf8);
      if e.kind == STRING {
        StringValue(f, e.valueAt, utf8);
      }
      if e.name == key {
        OneAnswerHere(e, rest, key, found);
      } else {
        OneAnswerPast(e, rest, key, found);
      }
      if Uncut(f, off) {
        if e.name != key {
          SkippableExactlyWhenWhole(f, e.valueAt, e.kind, false, utf8);
          if Whole(f, e.valueAt, e.kind, utf8) {
            SkipStopsWhereReadStops(f, e.valueAt, e.kind, false, utf8);
          }
          SearchOnDecodedKeys(f, next, n - 1, key, utf8, found);
        } else if e.kind == STRING {
          CursorReadsWhole(f, e.valueAt, utf8);
          SearchOnDecodedKeys(f, next, n - 1, key, utf8, Some(TextOf(e.value)));
        }
      }
    }
  }

  lemma NoEntries(f: bytes, key: string, utf8: Decoder, found: Option<string>)
    ensures AllWhole(f, [], utf8) && (OneAnswer([], key, found) <==> found.Some?)
  {
  }

  lemma AllWholeCons(f: bytes, e: KeyEntry, rest: seq<KeyEntry>, utf8: Decoder)
    ensures AllWhole(f, [e] + rest, utf8) <==> WholeEntry(f, e, utf8) && AllWhole(f, rest, utf8)
  {
    hide WholeEntry;
    var all := [e] + rest;
    assert all[0] == e && forall i :: 0 <= i < |rest| ==> all[i + 1] == rest[i];
    if AllWhole(f, all, utf8) {
      forall i | 0 <= i < |rest|
        ensures WholeEntry(f, rest[i], utf8)
      {
        assert WholeEntry(f, all[i + 1], utf8);
      }
    }
  }

  /**
   * On a header that decodes, the exhaustive search succeeds if and only if no name or value in it is
   * damaged in a way decoding overlooks, and the key occurs, always as a string, and always the same one.
   */
  lemma {:induction false} SearchSucceedsExactly(f: bytes, key: string, utf8: Decoder, keys: seq<string>, full: seq<string>)
    requires Metadata(f, keys, full, utf8).Success?
    ensures |f| >= 24 && KeysDecode(f, 24, U64(f, 16), utf8)
    ensures var entries := EntriesAt(f, 24, U64(f, 16), utf8);
      StringKey(f, key, true, utf8).Success? <==> AllWhole(f, entries, utf8) && OneAnswer(entries, key, None)
  {
    hide MetadataAt, StringKeyAt, KeysDecode, EntriesAt, AllWhole, OneAnswer;
    assert f[0..4] == f[..4];
    MetadataNeedsKeys(f, 24, U64(f, 16), keys, full, utf8, map[]);
    SearchOnDecodedKeys(f, 24, U64(f, 16), key, utf8, None);
  }
}
