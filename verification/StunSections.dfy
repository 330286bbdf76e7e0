/**
 The type-length-value layer of a STUN message: how a section of padded
 attributes is written, and how it is split again, whatever the values mean.
 */
module StunSections {
  import opened Bytes
  import opened StunCodec

  /** An attribute as written: its type and its value. */
  datatype Pair = Pair(typeCode: u16, value: bytes)

  /** An attribute as read, with the offset of its header in the message. */
  datatype Raw = Raw(offset: nat, typeCode: u16, value: bytes)

  /** The attributes read before the end or before the first malformed one. */
  datatype Split = Split(raws: seq<Raw>, error: Option<StunError>)

  function PushPair(pair: Pair): bytes {
    PushAttribute(pair.typeCode, pair.value)
  }

  function EncodePairs(pairs: seq<Pair>): bytes {
    if pairs == [] then [] else PushPair(pairs[0]) + EncodePairs(pairs[1..])
  }

  function TypeAt(input: bytes, offset: nat): u16
    requires offset + 4 <= |input|
  {
    FieldsRead(input[offset..offset + 2]);
    FromBigEndian(input[offset..offset + 2])
  }

  function LengthAt(input: bytes, offset: nat): u16
    requires offset + 4 <= |input|
  {
    FieldsRead(input[offset + 2..offset + 4]);
    FromBigEndian(input[offset + 2..offset + 4])
  }

  function MinNat(a: nat, b: nat): nat {
    if a <= b then a else b
  }

  /** Where the attribute behind the one at `offset` starts; the last one may lack its padding. */
  function NextOffset(input: bytes, offset: nat): nat
    requires offset + 4 <= |input|
  {
    MinNat(offset + 4 + LengthAt(input, offset) + PaddingLen(LengthAt(input, offset)), |input|)
  }

  function SplitSection(input: bytes, offset: nat): (split: Split)
    requires offset <= |input|
    decreases |input| - offset
  {
    if offset == |input| then Split([], None)
    else if offset + 4 > |input| then Split([], Some(TruncatedAttributeHeader))
    else if offset + 4 + LengthAt(input, offset) > |input| then Split([], Some(TruncatedAttributeValue))
    else AddFirst(RawAt(input, offset), SplitSection(input, NextOffset(input, offset)))
  }

  function RawAt(input: bytes, offset: nat): Raw
    requires offset + 4 <= |input| && offset + 4 + LengthAt(input, offset) <= |input|
  {
    Raw(offset, TypeAt(input, offset), input[offset + 4..offset + 4 + LengthAt(input, offset)])
  }

  function AddFirst(raw: Raw, rest: Split): Split {
    rest.(raws := [raw] + rest.raws)
  }

  /** The bytes an attribute takes, header and padding included. */
  function PairSize(pair: Pair): nat {
    4 + |pair.value| + PaddingLen(|pair.value|)
  }

  function SectionLen(pairs: seq<Pair>): nat {
    if pairs == [] then 0 else PairSize(pairs[0]) + SectionLen(pairs[1..])
  }

  /** The written attributes with the offsets they get from `offset` on. */
  function Place(pairs: seq<Pair>, offset: nat): seq<Raw> {
    if pairs == [] then []
    else [Raw(offset, pairs[0].typeCode, pairs[0].value)] + Place(pairs[1..], offset + PairSize(pairs[0]))
  }

  predicate SectionAt(input: bytes, offset: nat, section: bytes) {
    offset + |section| <= |input| && input[offset..offset + |section|] == section
  }

  lemma CutSection(input: bytes, offset: nat, first: bytes, second: bytes)
    requires SectionAt(input, offset, first + second)
    ensures SectionAt(input, offset, first) && SectionAt(input, offset + |first|, second)
  {
    var both := first + second;
    assert input[offset..offset + |first|] == both[..|first|];
    assert input[offset + |first|..offset + |both|] == both[|first|..];
  }

  lemma PairLength(pair: Pair)
    ensures |PushPair(pair)| == PairSize(pair) && PairSize(pair) % 4 == 0
  {
  }

  /** Where the parts of an attribute that stands at an offset are. */
  lemma AttributeCuts(input: bytes, offset: nat, kind: bytes, length: bytes, value: bytes, padding: bytes)
    requires |kind| == 2 && |length| == 2 && SectionAt(input, offset, kind + length + value + padding)
    ensures offset + 4 + |value| <= |input|
    ensures input[offset..offset + 2] == kind && input[offset + 2..offset + 4] == length
    ensures input[offset + 4..offset + 4 + |value|] == value
  {
    CutSection(input, offset, kind + length + value, padding);
    CutSection(input, offset, kind + length, value);
    CutSection(input, offset, kind, length);
  }

  /** Reading at a written attribute gives its type, its length and its value. */
  lemma ReadPair(input: bytes, offset: nat, pair: Pair)
    requires |pair.value| < U16 && SectionAt(input, offset, PushPair(pair))
    ensures offset + 4 + |pair.value| <= |input|
    ensures TypeAt(input, offset) == pair.typeCode && LengthAt(input, offset) == |pair.value|
    ensures input[offset + 4..offset + 4 + |pair.value|] == pair.value
  {
    var value := pair.value;
    AttributeCuts(input, offset, BigEndian(pair.typeCode, 2), BigEndian(|value|, 2), value, Zeros(PaddingLen(|value|)));
    FieldsRoundTrip(pair.typeCode);
    FieldsRoundTrip(|value|);
  }

  lemma SplitPair(input: bytes, offset: nat, pair: Pair)
    requires |pair.value| < U16 && SectionAt(input, offset, PushPair(pair))
    ensures offset + PairSize(pair) <= |input|
    ensures SplitSection(input, offset) ==
            AddFirst(Raw(offset, pair.typeCode, pair.value), SplitSection(input, offset + PairSize(pair)))
  {
    ReadPair(input, offset, pair);
    PairLength(pair);
  }

  /** The attributes `pairs` stand in `input` one behind the other. */
  predicate Laid(input: bytes, offset: nat, pairs: seq<Pair>)
    decreases |pairs|
  {
    if pairs == [] then offset <= |input|
    else && |pairs[0].value| < U16
         && SectionAt(input, offset, PushPair(pairs[0]))
         && Laid(input, offset + PairSize(pairs[0]), pairs[1..])
  }

  lemma {:induction false} EncodedIsLaid(input: bytes, offset: nat, pairs: seq<Pair>)
    requires SectionAt(input, offset, EncodePairs(pairs)) && |EncodePairs(pairs)| < U16
    ensures Laid(input, offset, pairs)
    decreases |pairs|
  {
    if pairs != [] {
      PairLength(pairs[0]);
      CutSection(input, offset, PushPair(pairs[0]), EncodePairs(pairs[1..]));
      EncodedIsLaid(input, offset + PairSize(pairs[0]), pairs[1..]);
    }
  }

  lemma SumOfFours(a: nat, b: nat)
    requires a % 4 == 0 && b % 4 == 0
    ensures (a + b) % 4 == 0
  {
  }

  lemma {:induction false} EncodedLength(pairs: seq<Pair>)
    ensures |EncodePairs(pairs)| == SectionLen(pairs) && SectionLen(pairs) % 4 == 0
  {
    if pairs != [] {
      PairLength(pairs[0]);
      EncodedLength(pairs[1..]);
      SumOfFours(PairSize(pairs[0]), SectionLen(pairs[1..]));
    }
  }

  function AddAll(raws: seq<Raw>, rest: Split): Split {
    rest.(raws := raws + rest.raws)
  }

  lemma AddNone(rest: Split)
    ensures AddAll([], rest) == rest
  {
    assert [] + rest.raws == rest.raws;
  }

  lemma AddFirstToAll(raw: Raw, raws: seq<Raw>, rest: Split)
    ensures AddFirst(raw, AddAll(raws, rest)) == AddAll([raw] + raws, rest)
  {
  }

  /** Reading from each offset, as a function of the offset alone. */
  ghost function Reader(input: bytes): nat -> Split {
    (offset: nat) => if offset <= |input| then SplitSection(input, offset) else Split([], None)
  }

  /** At each attribute the reader finds it first and goes on behind it. */
  ghost predicate Chained(reader: nat -> Split, offset: nat, pairs: seq<Pair>)
    decreases |pairs|
  {
    pairs == []
    || (&& reader(offset) == AddFirst(Raw(offset, pairs[0].typeCode, pairs[0].value), reader(offset + PairSize(pairs[0])))
        && Chained(reader, offset + PairSize(pairs[0]), pairs[1..]))
  }

  lemma {:induction false} ChainReads(reader: nat -> Split, offset: nat, pairs: seq<Pair>)
    requires Chained(reader, offset, pairs)
    ensures reader(offset) == AddAll(Place(pairs, offset), reader(offset + SectionLen(pairs)))
    decreases |pairs|
  {
    if pairs == [] {
      AddNone(reader(offset));
    } else {
      var next := offset + PairSize(pairs[0]);
      ChainReads(reader, next, pairs[1..]);
      AddFirstToAll(Raw(offset, pairs[0].typeCode, pairs[0].value), Place(pairs[1..], next),
                    reader(next + SectionLen(pairs[1..])));
    }
  }

  lemma ReaderStep(input: bytes, offset: nat, pair: Pair)
    requires |pair.value| < U16 && SectionAt(input, offset, PushPair(pair))
    ensures Reader(input)(offset)
            == AddFirst(Raw(offset, pair.typeCode, pair.value), Reader(input)(offset + PairSize(pair)))
  {
    SplitPair(input, offset, pair);
  }

  lemma {:induction false} LaidFits(input: bytes, offset: nat, pairs: seq<Pair>)
    requires Laid(input, offset, pairs)
    ensures offset + SectionLen(pairs) <= |input|
    decreases |pairs|
  {
    if pairs != [] {
      LaidFits(input, offset + PairSize(pairs[0]), pairs[1..]);
    }
  }

  lemma {:induction false} LaidIsChained(input: bytes, offset: nat, pairs: seq<Pair>, reader: nat -> Split)
    requires Laid(input, offset, pairs) && reader == Reader(input)
    ensures Chained(reader, offset, pairs)
    decreases |pairs|
  {
    if pairs != [] {
      ReaderStep(input, offset, pairs[0]);
      LaidIsChained(input, offset + PairSize(pairs[0]), pairs[1..], reader);
    }
  }

  lemma LaidReads(input: bytes, offset: nat, pairs: seq<Pair>)
    requires Laid(input, offset, pairs)
    ensures offset <= offset + SectionLen(pairs) <= |input|
    ensures Reader(input)(offset) == AddAll(Place(pairs, offset), Reader(input)(offset + SectionLen(pairs)))
  {
    LaidFits(input, offset, pairs);
    LaidIsChained(input, offset, pairs, Reader(input));
    ChainReads(Reader(input), offset, pairs);
  }

  lemma ReaderSplits(input: bytes, offset: nat, raws: seq<Raw>, end: nat)
    requires offset <= |input| && end <= |input| && Reader(input)(offset) == AddAll(raws, Reader(input)(end))
    ensures SplitSection(input, offset) == AddAll(raws, SplitSection(input, end))
  {
  }

  /** Splitting a written section gives back its types and values at their offsets. */
  lemma SplitWritten(input: bytes, offset: nat, pairs: seq<Pair>)
    requires Laid(input, offset, pairs)
    ensures offset + SectionLen(pairs) <= |input|
    ensures SplitSection(input, offset) == AddAll(Place(pairs, offset), SplitSection(input, offset + SectionLen(pairs)))
  {
    LaidReads(input, offset, pairs);
    ReaderSplits(input, offset, Place(pairs, offset), offset + SectionLen(pairs));
  }

  lemma {:induction false} EncodePairsAppend(a: seq<Pair>, b: seq<Pair>)
    ensures EncodePairs(a + b) == EncodePairs(a) + EncodePairs(b)
  {
    if a == [] {
      assert a + b == b;
    } else {
      EncodePairsAppend(a[1..], b);
      assert (a + b)[1..] == a[1..] + b;
      Regroup(PushPair(a[0]), EncodePairs(a[1..]), EncodePairs(b));
    }
  }

  lemma {:induction false} PlaceAppend(a: seq<Pair>, b: seq<Pair>, offset: nat)
    ensures Place(a + b, offset) == Place(a, offset) + Place(b, offset + SectionLen(a))
    decreases |a|
  {
    if a == [] {
      assert a + b == b;
    } else {
      PlaceAppend(a[1..], b, offset + PairSize(a[0]));
      assert (a + b)[1..] == a[1..] + b;
    }
  }

  /** The size attributes would take if written with padding. */
  function RawSize(raws: seq<Raw>): nat {
    if raws == [] then 0 else 4 + |raws[0].value| + PaddingLen(|raws[0].value|) + RawSize(raws[1..])
  }

  /** What is read from a section would take at most three bytes more than the section. */
  lemma {:induction false} SplitSize(input: bytes, offset: nat)
    requires offset <= |input|
    ensures RawSize(SplitSection(input, offset).raws) <= |input| - offset + 3
    decreases |input| - offset
  {
    if offset + 4 <= |input| && offset + 4 + LengthAt(input, offset) <= |input| {
      var next := NextOffset(input, offset);
      SplitSize(input, next);
      var raw, rest := RawAt(input, offset), SplitSection(input, next);
      assert SplitSection(input, offset).raws == [raw] + rest.raws;
      assert ([raw] + rest.raws)[1..] == rest.raws;
      if next == |input| {
        assert rest.raws == [];
      }
    }
  }

  /** Every attribute read stands in the input at its offset, with its type, its length and its value. */
  predicate Stands(input: bytes, raw: Raw) {
    && raw.offset + 4 + |raw.value| <= |input| && |raw.value| < U16
    && input[raw.offset..raw.offset + 2] == BigEndian(raw.typeCode, 2)
    && input[raw.offset + 2..raw.offset + 4] == BigEndian(|raw.value|, 2)
    && input[raw.offset + 4..raw.offset + 4 + |raw.value|] == raw.value
  }

  /** Where the attribute behind one that starts at an offset starts, on a boundary of four bytes or at the end. */
  function Behind(input: bytes, raw: Raw, offset: nat): nat {
    MinNat((offset + 4 + |raw.value| + 3) / 4 * 4, |input|)
  }

  /** The attributes follow one another from an offset on, up to an end; the last may lack its padding. */
  predicate Tiles(input: bytes, raws: seq<Raw>, offset: nat, end: nat) {
    if raws == [] then offset == end
    else raws[0].offset == offset && Stands(input, raws[0]) && Tiles(input, raws[1..], Behind(input, raws[0], offset), end)
  }

  lemma RawStands(input: bytes, offset: nat)
    requires offset + 4 <= |input| && offset + 4 + LengthAt(input, offset) <= |input| && offset % 4 == 0
    ensures var raw := RawAt(input, offset);
            Stands(input, raw) && NextOffset(input, offset) == Behind(input, raw, offset)
  {
    FieldsRead(input[offset..offset + 2]);
    FieldsRead(input[offset + 2..offset + 4]);
    RoundUp(offset + 4, LengthAt(input, offset));
  }

  lemma RoundUp(start: nat, len: nat)
    requires start % 4 == 0
    ensures start + len + PaddingLen(len) == (start + len + 3) / 4 * 4
  {
  }

  lemma TilesMore(input: bytes, raw: Raw, rest: seq<Raw>, offset: nat, end: nat)
    requires raw.offset == offset && Stands(input, raw) && Tiles(input, rest, Behind(input, raw, offset), end)
    ensures Tiles(input, [raw] + rest, offset, end)
  {
    assert ([raw] + rest)[1..] == rest;
  }

  /** Whatever the input, what is read tiles it from the start, and without an error up to its end. */
  lemma NextAligned(input: bytes, offset: nat)
    requires offset % 4 == 0 && offset + 4 <= |input|
    ensures offset < NextOffset(input, offset) <= |input|
    ensures NextOffset(input, offset) % 4 == 0 || NextOffset(input, offset) == |input|
  {
    RoundUp(offset + 4, LengthAt(input, offset));
  }

  lemma {:induction false} SplitTiles(input: bytes, offset: nat) returns (end: nat)
    requires offset <= |input| && (offset % 4 == 0 || offset == |input|)
    ensures Tiles(input, SplitSection(input, offset).raws, offset, end)
    ensures SplitSection(input, offset).error.None? ==> end == |input|
    decreases |input| - offset
  {
    end := offset;
    if offset + 4 <= |input| && offset + 4 + LengthAt(input, offset) <= |input| {
      RawStands(input, offset);
      NextAligned(input, offset);
      end := SplitTiles(input, NextOffset(input, offset));
      TilesMore(input, RawAt(input, offset), SplitSection(input, NextOffset(input, offset)).raws, offset, end);
    }
  }

  /** And only that reading tiles the bytes to their end. */
  lemma {:induction false} TilesSplit(input: bytes, raws: seq<Raw>, offset: nat)
    requires offset <= |input| && (offset % 4 == 0 || offset == |input|) && Tiles(input, raws, offset, |input|)
    ensures SplitSection(input, offset) == Split(raws, None)
    decreases |raws|
  {
    if raws != [] {
      FieldsRoundTrip(raws[0].typeCode);
      FieldsRoundTrip(|raws[0].value|);
      assert RawAt(input, offset) == raws[0];
      RawStands(input, offset);
      NextAligned(input, offset);
      TilesSplit(input, raws[1..], NextOffset(input, offset));
      assert raws == [raws[0]] + raws[1..];
    }
  }

  lemma {:induction false} TiledStands(input: bytes, raws: seq<Raw>, offset: nat, end: nat, i: nat)
    requires Tiles(input, raws, offset, end) && i < |raws| && offset <= |input|
    ensures offset <= raws[i].offset && Stands(input, raws[i])
    decreases |raws|
  {
    if i > 0 {
      TiledStands(input, raws[1..], Behind(input, raws[0], offset), end, i - 1);
    }
  }
}
