/**
 The NVDS block codec (nvdsparser.py). A block is the ASCII signature "NVDS",
 then entries `key | 6 | size (LE16) | value | 0xFF padding to a multiple of 4`,
 then a header whose key and marker are both 0xFF, then 0xFF up to 4096 bytes.
 */
module Nvds {
  import opened Bytes
  import opened Results
  import opened Struct

  /** "NVDS" in ASCII. */
  const Signature: seq<byte> := [0x4E, 0x56, 0x44, 0x53]
  const BlockSize := 4096
  /** The only type marker a non-sentinel entry may carry. */
  const ValueMarker: byte := 6

  datatype Entry = Entry(key: byte, value: seq<byte>)

  /** What one header read yields: the sentinel, or an entry and the bytes after its padding. */
  datatype Header = End | Item(entry: Entry, rest: seq<byte>)

  /** Padding after a value of `size` bytes. */
  function Pad(size: nat): (n: nat)
    ensures n < 4 && (size + n) % 4 == 0
    ensures size % 4 == 0 ==> n == 0
  {
    (4 - size % 4) % 4
  }

  lemma PadIs(size: nat)
    ensures size % 4 != 0 ==> Pad(size) == 4 - size % 4
    ensures size % 4 == 0 ==> Pad(size) == 0
  {
  }

  /** The offset just past an entry whose header declares `size`. */
  function Next(size: nat): (n: nat)
    ensures n % 4 == 0 && n >= 4
  {
    4 + size + Pad(size)
  }

  // ---------------------------------------------------------------------------
  // loads

  /**
   The part of a `loads` turn after a header with marker 6: the value and the
   bytes after its padding. A value cut short by the end of the data is taken
   as far as it goes and leaves nothing behind, and so does a value whose
   padding is cut short.
   */
  function TakeEntry(data: seq<byte>): (h: Header)
    requires |data| >= 4
    ensures h.Item? && h.entry.key == data[0] && |h.rest| < |data|
    ensures |h.entry.value| <= U16(data[2], data[3])
  {
    var size := U16(data[2], data[3]);
    if Next(size) <= |data| then Item(Entry(data[0], data[4..4 + size]), data[Next(size)..])
    else Item(Entry(data[0], if 4 + size <= |data| then data[4..4 + size] else data[4..]), [])
  }

  /**
   The same turn as Python's clamped slices write it: `value, data =
   data[:size], data[size:]`, then `data = data[4 - size % 4:]` when the
   size is not a multiple of 4; padding bytes are skipped unread.
   */
  lemma TakeEntrySlices(data: seq<byte>)
    requires |data| >= 4
    ensures var size := U16(data[2], data[3]);
      var body := data[4..];
      var skip := if size % 4 != 0 then 4 - size % 4 else 0;
      TakeEntry(data) == Item(Entry(data[0], Take(body, size)), Drop(Drop(body, size), skip))
  {
    var size := U16(data[2], data[3]);
    var skip := if size % 4 != 0 then 4 - size % 4 else 0;
    var body := data[4..];
    PadIs(size);
    SliceSteps(body, size, skip);
    if Next(size) <= |data| {
      assert body[..size] == data[4..4 + size];
      assert body[size + skip..] == data[Next(size)..];
    } else if 4 + size <= |data| {
      assert body[..size] == data[4..4 + size];
    }
  }

  /** Clamped slicing of `body` at `size` and then at `skip`, by where `body` ends. */
  lemma SliceSteps(body: seq<byte>, size: nat, skip: nat)
    ensures size + skip <= |body| ==> Take(body, size) == body[..size] && Drop(Drop(body, size), skip) == body[size + skip..]
    ensures size <= |body| < size + skip ==> Take(body, size) == body[..size] && Drop(Drop(body, size), skip) == []
    ensures |body| < size ==> Take(body, size) == body && Drop(Drop(body, size), skip) == []
  {
  }

  /** One turn of the `loads` loop on the bytes after the previous entry. */
  function ReadEntry(data: seq<byte>): (r: Result<Header>)
    ensures |data| < 4 ==> r == Err(ShortHeader)
    ensures r.Ok? && r.value.End? <==> |data| >= 4 && data[0] == 0xFF && data[1] == 0xFF
    ensures r.Err? <==> |data| < 4 || (data[1] != ValueMarker && !(data[0] == 0xFF && data[1] == 0xFF))
    ensures r.Err? && |data| >= 4 ==> r.fault == BadMarker(data[1])
    ensures r.Ok? && r.value.Item? ==> data[1] == ValueMarker && r.value == TakeEntry(data)
  {
    if |data| < 4 then Err(ShortHeader)
    else
      var key, marker := data[0], data[1];
      if key == 0xFF && marker == 0xFF then Ok(End)
      else if marker != ValueMarker then Err(BadMarker(marker))
      else Ok(TakeEntry(data))
  }

  /** The entries of an entry area, in the order `loads` meets them. */
  function ParseEntries(data: seq<byte>): (r: Result<seq<Entry>>)
    decreases |data|
  {
    match ReadEntry(data)
    case Err(f) => Err(f)
    case Ok(End) => Ok([])
    case Ok(Item(e, rest)) =>
      match ParseEntries(rest)
      case Err(f) => Err(f)
      case Ok(es) => Ok([e] + es)
  }

  /** An area that starts with an entry parses to that entry followed by what the rest parses to. */
  lemma ParseCons(data: seq<byte>, rest: seq<byte>, es: seq<Entry>)
    requires es != [] && ReadEntry(data) == Ok(Item(es[0], rest)) && ParseEntries(rest) == Ok(es[1..])
    ensures ParseEntries(data) == Ok(es)
  {
    assert [es[0]] + es[1..] == es;
  }

  /** A block's entries in order, after the signature check. */
  function LoadEntries(block: seq<byte>): (r: Result<seq<Entry>>)
  {
    if Take(block, 4) != Signature then Err(BadSignature) else ParseEntries(block[4..])
  }

  /** The dictionary `values[key] = value` builds, later entries overwriting earlier ones. */
  function ToMap(es: seq<Entry>): (m: map<byte, seq<byte>>)
    ensures forall i | 0 <= i < |es| :: es[i].key in m
    ensures forall k | k in m :: exists i | 0 <= i < |es| :: es[i] == Entry(k, m[k])
  {
    if es == [] then map[]
    else
      var m := ToMap(es[..|es| - 1]);
      assert forall i | 0 <= i < |es| - 1 :: es[..|es| - 1][i] == es[i];
      m[es[|es| - 1].key := es[|es| - 1].value]
  }

  /** `NVDSParser.loads`. */
  function Loads(block: seq<byte>): (r: Result<map<byte, seq<byte>>>)
    ensures Take(block, 4) != Signature ==> r == Err(BadSignature)
    ensures r.Ok? <==> LoadEntries(block).Ok?
    ensures r.Ok? ==> r.value == ToMap(LoadEntries(block).value)
  {
    match LoadEntries(block)
    case Err(f) => Err(f)
    case Ok(es) => Ok(ToMap(es))
  }

  // ---------------------------------------------------------------------------
  // dumps

  /** Bytes one entry occupies once encoded. */
  function EncodedSize(es: seq<Entry>): nat {
    if es == [] then 0 else Next(|es[0].value|) + EncodedSize(es[1..])
  }

  /** Every value's length fits the 16-bit size field. */
  predicate Packable(es: seq<Entry>) {
    forall i | 0 <= i < |es| :: |es[i].value| < 0x1_0000
  }

  /** One turn of the `dumps` loop: header, value, 0xFF padding. */
  function EncodeEntry(e: Entry): (r: Result<seq<byte>>)
    ensures r.Ok? <==> |e.value| < 0x1_0000
    ensures r.Err? ==> r.fault == OutOfRange(|e.value|)
    ensures r.Ok? ==> |r.value| == Next(|e.value|)
  {
    match PackU16(|e.value|)
    case Err(f) => Err(f)
    case Ok(size) =>
      var padding := if |e.value| % 4 != 0 then Fill(4 - |e.value| % 4) else [];
      PadIs(|e.value|);
      Ok([e.key, ValueMarker] + size + e.value + padding)
  }

  /** The bytes `dumps` writes for one entry read back as that entry, whatever follows them. */
  lemma ReadEncodedEntry(e: Entry, tail: seq<byte>)
    requires |e.value| < 0x1_0000
    ensures ReadEntry(EncodeEntry(e).value + tail) == Ok(Item(e, tail))
  {
    EncodedFields(e, tail);
  }

  /** The bytes `dumps` writes for one entry: key, type marker, little-endian size, value, 0xFF padding to a multiple of 4. */
  lemma EncodeEntryLayout(e: Entry)
    requires |e.value| < 0x1_0000
    ensures EncodeEntry(e) == Ok([e.key, ValueMarker] + Le16(|e.value|) + e.value + Fill(Pad(|e.value|)))
  {
    PadIs(|e.value|);
  }

  /** Where the fields of an encoded entry sit, whatever follows it. */
  lemma EncodedFields(e: Entry, tail: seq<byte>)
    requires |e.value| < 0x1_0000
    ensures var data := EncodeEntry(e).value + tail;
      var size := |e.value|;
      && Next(size) <= |data| && data[0] == e.key && data[1] == ValueMarker
      && U16(data[2], data[3]) == size
      && data[4..4 + size] == e.value && data[Next(size)..] == tail
  {
    var size := |e.value|;
    EncodeEntryLayout(e);
    FieldsAt(e.key, Le16(size), e.value, Fill(Pad(size)), tail);
  }

  /** Slicing a header, a value, padding and what follows back apart. */
  lemma FieldsAt(key: byte, len: seq<byte>, value: seq<byte>, pad: seq<byte>, tail: seq<byte>)
    requires |len| == 2
    ensures var data := [key, ValueMarker] + len + value + pad + tail;
      && data[0] == key && data[1] == ValueMarker && data[2] == len[0] && data[3] == len[1]
      && data[4..4 + |value|] == value && data[4 + |value| + |pad|..] == tail
  {
    var data := [key, ValueMarker] + len + value + pad + tail;
    assert data[4..4 + |value|] == value;
    assert data[4 + |value| + |pad|..] == tail;
  }

  /** The entry area `dumps` writes for `es`, in order. */
  function EncodeEntries(es: seq<Entry>): (r: Result<seq<byte>>)
    ensures r.Ok? <==> Packable(es)
    ensures r.Ok? ==> |r.value| == EncodedSize(es)
  {
    if es == [] then Ok([])
    else
      match EncodeEntry(es[0])
      case Err(f) => Err(f)
      case Ok(head) =>
        match EncodeEntries(es[1..])
        case Err(f) => Err(f)
        case Ok(tail) =>
          assert forall i | 1 <= i < |es| :: es[1..][i - 1] == es[i];
          Ok(head + tail)
  }

  /**
   `NVDSParser.dumps`, with the dictionary's iteration order made explicit.
   When the encoding is longer than a block no fill is added and nothing is raised.
   */
  function Dumps(es: seq<Entry>): (r: Result<seq<byte>>)
    ensures r.Ok? <==> Packable(es)
    ensures r.Ok? ==> |r.value| == if 4 + EncodedSize(es) <= BlockSize then BlockSize else 4 + EncodedSize(es)
  {
    match EncodeEntries(es)
    case Err(f) => Err(f)
    case Ok(body) =>
      var data := Signature + body;
      Ok(data + Fill(BlockSize - |data|))
  }

  // ---------------------------------------------------------------------------
  // loads and dumps together

  /** A signature followed at once by the sentinel is a block with no entries. */
  lemma EmptyBlock(tail: seq<byte>)
    ensures Loads(Signature + [0xFF, 0xFF] + tail) == (if |tail| >= 2 then Ok(map[]) else Err(ShortHeader))
  {
    var block := Signature + [0xFF, 0xFF] + tail;
    assert Take(block, 4) == Signature;
    assert block[4..] == [0xFF, 0xFF] + tail;
  }

  /** When no later entry repeats the key of entry `i`, the dictionary holds entry `i`'s value. */
  lemma {:induction false} LaterEntryWins(es: seq<Entry>, i: nat)
    requires i < |es|
    requires forall j | i < j < |es| :: es[j].key != es[i].key
    ensures ToMap(es)[es[i].key] == es[i].value
  {
    if i < |es| - 1 {
      var init := es[..|es| - 1];
      assert init[i] == es[i];
      assert forall j | i < j < |init| :: init[j] == es[j];
      LaterEntryWins(init, i);
    }
  }

  /** With keys all different, the dictionary holds every entry's own value. */
  lemma DistinctKeysKept(es: seq<Entry>)
    requires forall i, j | 0 <= i < j < |es| :: es[i].key != es[j].key
    ensures forall i | 0 <= i < |es| :: ToMap(es)[es[i].key] == es[i].value
  {
    forall i | 0 <= i < |es|
      ensures ToMap(es)[es[i].key] == es[i].value
    {
      LaterEntryWins(es, i);
    }
  }

  lemma PackableTail(es: seq<Entry>)
    requires es != [] && Packable(es)
    ensures |es[0].value| < 0x1_0000 && Packable(es[1..])
  {
    assert forall i | 0 <= i < |es| - 1 :: es[1..][i] == es[i + 1];
  }

  /** The entry area of a non-empty list is its first entry's encoding followed by the rest's. */
  lemma EncodeCons(es: seq<Entry>)
    requires es != [] && Packable(es)
    ensures |es[0].value| < 0x1_0000 && Packable(es[1..])
    ensures EncodeEntries(es).value == EncodeEntry(es[0]).value + EncodeEntries(es[1..]).value
    ensures EncodedSize(es) == Next(|es[0].value|) + EncodedSize(es[1..])
  {
    PackableTail(es);
  }

  /** The entry area of `es` followed by at least a sentinel parses back to `es`. */
  lemma {:induction false} ParseEncoded(es: seq<Entry>, fill: seq<byte>)
    requires Packable(es)
    requires |fill| >= 4 && fill[0] == 0xFF && fill[1] == 0xFF
    ensures ParseEntries(EncodeEntries(es).value + fill) == Ok(es)
  {
    if es == [] {
      assert EncodeEntries(es).value + fill == fill;
      assert ReadEntry(fill) == Ok(End);
    } else {
      EncodeCons(es);
      ParseEncoded(es[1..], fill);
      ParseEncodedStep(es, EncodeEntries(es).value, EncodeEntries(es[1..]).value, fill);
    }
  }

  /** One entry of `ParseEncoded`: the first entry's bytes, then an area that parses to the rest. */
  lemma ParseEncodedStep(es: seq<Entry>, area: seq<byte>, tail: seq<byte>, fill: seq<byte>)
    requires es != [] && |es[0].value| < 0x1_0000
    requires area == EncodeEntry(es[0]).value + tail
    requires ParseEntries(tail + fill) == Ok(es[1..])
    ensures ParseEntries(area + fill) == Ok(es)
  {
    var head := EncodeEntry(es[0]).value;
    Regroup(head, tail, fill);
    ReadEncodedEntry(es[0], tail + fill);
    ParseCons(head + (tail + fill), tail + fill, es);
  }

  /** The entry area of `es` followed by fewer than four bytes runs out before any sentinel. */
  lemma {:induction false} ParseEncodedShort(es: seq<Entry>, fill: seq<byte>)
    requires Packable(es)
    requires |fill| < 4
    ensures ParseEntries(EncodeEntries(es).value + fill) == Err(ShortHeader)
  {
    if es == [] {
      assert EncodeEntries(es).value + fill == fill;
    } else {
      EncodeCons(es);
      ParseEncodedShort(es[1..], fill);
      ParseShortStep(es, EncodeEntries(es).value, EncodeEntries(es[1..]).value, fill);
    }
  }

  /** One entry of `ParseEncodedShort`: the first entry's bytes, then an area that runs out. */
  lemma ParseShortStep(es: seq<Entry>, area: seq<byte>, tail: seq<byte>, fill: seq<byte>)
    requires es != [] && |es[0].value| < 0x1_0000
    requires area == EncodeEntry(es[0]).value + tail
    requires ParseEntries(tail + fill) == Err(ShortHeader)
    ensures ParseEntries(area + fill) == Err(ShortHeader)
  {
    var head := EncodeEntry(es[0]).value;
    Regroup(head, tail, fill);
    ReadEncodedEntry(es[0], tail + fill);
  }

  /**
   `loads(dumps(es))` gives back `es`, in order, exactly when the encoding
   leaves room in the block for the four sentinel bytes; otherwise the parse
   runs off the end of the data.
   */
  lemma RoundTrip(es: seq<Entry>)
    requires Packable(es)
    ensures 4 + EncodedSize(es) + 4 <= BlockSize ==> LoadEntries(Dumps(es).value) == Ok(es)
    ensures 4 + EncodedSize(es) + 4 > BlockSize ==> LoadEntries(Dumps(es).value) == Err(ShortHeader)
  {
    var fill := DumpsSplit(es);
    var area := EncodeEntries(es).value + fill;
    if 4 + EncodedSize(es) + 4 <= BlockSize {
      ParseEncoded(es, fill);
    } else {
      ParseEncodedShort(es, fill);
    }
    LoadsArea(Dumps(es).value, area, ParseEntries(area));
  }

  /** `loads` of a block that starts with the signature parses what follows it. */
  lemma LoadsArea(block: seq<byte>, area: seq<byte>, r: Result<seq<Entry>>)
    requires Take(block, 4) == Signature && block[4..] == area && ParseEntries(area) == r
    ensures LoadEntries(block) == r
  {
  }

  /** The dictionary `loads(dumps(es))` is the dictionary of `es` when the block has room for the sentinel. */
  lemma LoadsDumps(es: seq<Entry>)
    requires Packable(es) && 4 + EncodedSize(es) + 4 <= BlockSize
    ensures Loads(Dumps(es).value) == Ok(ToMap(es))
  {
    RoundTrip(es);
  }

  /** What `dumps` writes after the signature: the entry area and the fill. */
  lemma DumpsSplit(es: seq<Entry>) returns (fill: seq<byte>)
    requires Packable(es)
    ensures fill == Fill(BlockSize - 4 - EncodedSize(es))
    ensures Take(Dumps(es).value, 4) == Signature
    ensures Dumps(es).value[4..] == EncodeEntries(es).value + fill
  {
    var body := EncodeEntries(es).value;
    fill := Fill(BlockSize - 4 - |body|);
    var block := Dumps(es).value;
    assert block == Signature + (body + fill);
  }

  /**
   A canonical entry area: every byte `loads` skips without reading (value
   padding, the sentinel's size field, everything after it) is 0xFF.
   */
  ghost predicate Canonical(data: seq<byte>)
    decreases |data|
  {
    && |data| >= 4
    && if data[0] == 0xFF && data[1] == 0xFF then AllFill(data)
       else
         var size := U16(data[2], data[3]);
         && data[1] == ValueMarker
         && Next(size) <= |data|
         && AllFill(data[4 + size..Next(size)])
         && Canonical(data[Next(size)..])
  }

  /** A canonical entry's bytes, padding included, are what `dumps` writes for it. */
  lemma CanonicalEntryBytes(data: seq<byte>)
    requires |data| >= 4 && data[1] == ValueMarker
    requires var size := U16(data[2], data[3]);
      Next(size) <= |data| && AllFill(data[4 + size..Next(size)])
    ensures var size := U16(data[2], data[3]);
      EncodeEntry(Entry(data[0], data[4..4 + size])) == Ok(data[..Next(size)])
  {
    var size := U16(data[2], data[3]);
    Le16OfU16(data[2], data[3]);
    EncodeEntryLayout(Entry(data[0], data[4..4 + size]));
    CanonicalEntrySplit(data, size);
  }

  /** The bytes of a canonical entry, field by field. */
  lemma CanonicalEntrySplit(data: seq<byte>, size: nat)
    requires |data| >= 4 && data[1] == ValueMarker
    requires Next(size) <= |data| && AllFill(data[4 + size..Next(size)])
    ensures data[..Next(size)] == [data[0], ValueMarker] + [data[2], data[3]] + data[4..4 + size] + Fill(Pad(size))
  {
    assert data[4 + size..Next(size)] == Fill(Pad(size));
    assert data[..Next(size)] == [data[0], ValueMarker] + [data[2], data[3]] + data[4..4 + size] + data[4 + size..Next(size)];
  }

  lemma CanonicalEnd(data: seq<byte>, es: seq<Entry>)
    requires ParseEntries(data) == Ok(es) && Canonical(data)
    requires data[0] == 0xFF && data[1] == 0xFF
    ensures es == [] && data == Fill(|data|)
  {
  }

  lemma EmptyReencodes(data: seq<byte>)
    requires data == Fill(|data|)
    ensures Reencodes(data, [])
  {
    assert EncodeEntries([]).value + Fill(|data|) == Fill(|data|);
  }

  lemma SplitAt(data: seq<byte>, n: nat)
    requires n <= |data|
    ensures data == data[..n] + data[n..]
  {
  }

  /** Peeling one entry off a canonical area that parses. */
  lemma CanonicalStep(data: seq<byte>)
    requires ParseEntries(data).Ok? && Canonical(data)
    requires !(data[0] == 0xFF && data[1] == 0xFF)
    ensures var size := U16(data[2], data[3]);
      var rest := data[Next(size)..];
      && Canonical(rest) && ParseEntries(rest).Ok?
      && ParseEntries(data).value == [Entry(data[0], data[4..4 + size])] + ParseEntries(rest).value
      && EncodeEntry(Entry(data[0], data[4..4 + size])) == Ok(data[..Next(size)])
  {
    var size := U16(data[2], data[3]);
    assert ReadEntry(data) == Ok(Item(Entry(data[0], data[4..4 + size]), data[Next(size)..]));
    CanonicalEntryBytes(data);
  }

  /** `data` is the encoding of `es` followed by 0xFF. */
  ghost predicate Reencodes(data: seq<byte>, es: seq<Entry>) {
    && Packable(es)
    && EncodedSize(es) <= |data|
    && data == EncodeEntries(es).value + Fill(|data| - EncodedSize(es))
  }

  /** A canonical entry area is the encoding of what it parses to, then 0xFF. */
  lemma {:induction false} CanonicalReencodes(data: seq<byte>, es: seq<Entry>)
    requires ParseEntries(data) == Ok(es) && Canonical(data)
    ensures Reencodes(data, es)
  {
    if data[0] == 0xFF && data[1] == 0xFF {
      CanonicalEnd(data, es);
      EmptyReencodes(data);
    } else {
      CanonicalStep(data);
      var size := U16(data[2], data[3]);
      var head, rest := data[..Next(size)], data[Next(size)..];
      SplitAt(data, Next(size));
      var more := ParseEntries(rest).value;
      CanonicalReencodes(rest, more);
      var e := Entry(data[0], data[4..4 + size]);
      assert es == [e] + more;
      Reassemble(es, e, more, head, rest, data);
    }
  }

  lemma Reassemble(es: seq<Entry>, e: Entry, more: seq<Entry>, head: seq<byte>, rest: seq<byte>, data: seq<byte>)
    requires es == [e] + more && EncodeEntry(e) == Ok(head) && data == head + rest
    requires Reencodes(rest, more)
    ensures Reencodes(data, es)
  {
    assert es[1..] == more;
    assert Packable(es) by {
      forall i | 0 <= i < |es| ensures |es[i].value| < 0x1_0000 {
        if i > 0 { assert es[i] == more[i - 1]; }
      }
    }
    EncodeCons(es);
  }

  /** An entry area `dumps` writes, followed by 0xFF fill with room for the sentinel, is canonical. */
  lemma {:induction false} EncodedIsCanonical(es: seq<Entry>, fill: seq<byte>)
    requires Packable(es)
    requires |fill| >= 4 && AllFill(fill)
    ensures Canonical(EncodeEntries(es).value + fill)
  {
    if es == [] {
      assert EncodeEntries(es).value + fill == fill;
    } else {
      EncodeCons(es);
      var head, tail := EncodeEntry(es[0]).value, EncodeEntries(es[1..]).value;
      var data := head + (tail + fill);
      assert EncodeEntries(es).value + fill == data;
      EncodedIsCanonical(es[1..], fill);
      EntryLayout(es[0], tail + fill);
    }
  }

  /** An entry `dumps` writes, followed by a canonical area, starts a canonical area. */
  lemma EntryLayout(e: Entry, tail: seq<byte>)
    requires |e.value| < 0x1_0000 && Canonical(tail)
    ensures Canonical(EncodeEntry(e).value + tail)
  {
    var head := EncodeEntry(e).value;
    var data := head + tail;
    var size := |e.value|;
    Le16OfU16(data[2], data[3]);
    PadIs(size);
    assert U16(data[2], data[3]) == size;
    assert data[Next(size)..] == tail;
    assert data[4 + size..Next(size)] == head[4 + size..];
  }

  lemma SameBlock(a: seq<byte>, b: seq<byte>)
    requires |a| >= 4 && |b| >= 4 && a[..4] == b[..4] && a[4..] == b[4..]
    ensures a == b
  {
    SplitAt(a, 4);
    SplitAt(b, 4);
  }

  /** A canonical 4096-byte block is what `dumps` writes for the entries `loads` finds in it. */
  lemma CanonicalBlockDumps(block: seq<byte>)
    requires LoadEntries(block).Ok?
    requires |block| == BlockSize && Canonical(block[4..])
    ensures Dumps(LoadEntries(block).value) == Ok(block)
  {
    var es := LoadEntries(block).value;
    var data := block[4..];
    assert ParseEntries(data) == Ok(es);
    CanonicalReencodes(data, es);
    var fill := DumpsSplit(es);
    SameBlock(Dumps(es).value, block);
  }

  /** A block that `dumps` writes and that parses back is 4096 bytes long and canonical. */
  lemma DumpedBlockCanonical(block: seq<byte>, es: seq<Entry>)
    requires LoadEntries(block).Ok? && Dumps(es) == Ok(block)
    ensures |block| == BlockSize && Canonical(block[4..])
  {
    var fill := DumpsSplit(es);
    assert ParseEntries(block[4..]).Ok?;
    if |fill| < 4 {
      ParseEncodedShort(es, fill);
      assert false;
    }
    EncodedIsCanonical(es, fill);
  }

  /**
   Dumping the entry list a block parses to, in the order the entries appear,
   gives the block back exactly for the 4096-byte blocks that parse and are
   canonical. This is `dumps(loads(block)) == block` only when the block's
   keys are distinct and the dictionary iterates in the order of the block.
   */
  lemma BlockRoundTrip(block: seq<byte>)
    requires LoadEntries(block).Ok?
    ensures (|block| == BlockSize && Canonical(block[4..])) <==> Dumps(LoadEntries(block).value) == Ok(block)
  {
    if |block| == BlockSize && Canonical(block[4..]) {
      CanonicalBlockDumps(block);
    }
    if Dumps(LoadEntries(block).value) == Ok(block) {
      DumpedBlockCanonical(block, LoadEntries(block).value);
    }
  }

  // ---------------------------------------------------------------------------
  // describe

  /** The key registry: a label for each known key. */
  const Fields: map<int, string> := map[
    1 := "Device address",
    2 := "Device name",
    3 := "Clock drift",
    4 := "External wake-up time",
    5 := "Oscillator wake-up time",
    6 := "Radio wake-up time",
    7 := "Sleep mode enable",
    8 := "Factory_Setting_2",
    9 := "Factory_Setting_3",
    10 := "Factory_Setting_4",
    11 := "TK Type",
    12 := "TK",
    13 := "IRK",
    14 := "CSRK",
    15 := "LTK",
    16 := "XCSEL",
    17 := "Temperature offset",
    18 := "ADC scale",
    19 := "ADC VCM"
  ]

  /** `NVDSParser.describe`: the registry label, or "Unknown". */
  function Describe(key: int): (name: string)
    ensures name == "Unknown" <==> !(1 <= key <= 19)
    ensures 1 <= key <= 19 ==> name == Fields[key]
  {
    if key in Fields then Fields[key] else "Unknown"
  }
}
