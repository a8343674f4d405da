/**
 The bytes that BinaryIO writes and reads, position by position. Here a length or an offset is its
 four bytes, lowest first, and a record of a sample is time, offset, weight, deviation and padding.
 */
module Layout {
  import opened Codec
  import opened Tiles
  import opened Wrappers

  /** The uint32 at position k. */
  ghost function At(e: bytes, k: nat): nat
    requires k + 4 <= |e|
  {
    e[k] as int + 256 * e[k + 1] as int + 65536 * e[k + 2] as int + 16777216 * e[k + 3] as int
  }

  lemma WordLayout(v: nat, tail: bytes)
    ensures At(Word(v) + tail, 0) == v % 0x1_0000_0000
  {
    WordRoundTrip(v);
    var e := Word(v) + tail;
    assert e[0] == Word(v)[0] && e[1] == Word(v)[1] && e[2] == Word(v)[2] && e[3] == Word(v)[3];
  }

  lemma AtIsWord(e: bytes, k: nat)
    requires k + 4 <= |e|
    ensures WordOf(e[k..k + 4]) == At(e, k)
  {
  }

  lemma AtInside(e: bytes, b: nat, c: nat, k: nat)
    requires b + k + 4 <= c <= |e|
    ensures At(e[b..c], k) == At(e, b + k)
  {
  }

  lemma SliceOfSlice(e: bytes, b: nat, c: nat, k: nat, m: nat)
    requires b <= c <= |e| && k <= m <= c - b
    ensures e[b..c][k..m] == e[b + k..b + m]
  {
    var s := e[b..c];
    forall j | 0 <= j < m - k ensures s[k..m][j] == e[b + k..b + m][j] {
      assert s[k..m][j] == s[k + j] == e[b + k + j];
    }
  }

  lemma SliceOfFront(f: bytes, g: bytes, k: nat, m: nat)
    requires k <= m <= |f|
    ensures (f + g)[k..m] == f[k..m]
  {
  }

  lemma SliceOfBack(f: bytes, g: bytes, k: nat, m: nat)
    requires k <= m <= |g|
    ensures (f + g)[|f| + k..|f| + m] == g[k..m]
  {
  }

  // ---------------------------------------------------------------- vectors

  lemma RoomFor(size: nat, i: nat, n: nat)
    requires i < n
    ensures 0 <= i * size && i * size + size <= n * size && (n - 1) * size == n * size - size
  {
    assert n * size == i * size + size + (n - i - 1) * size;
  }

  /** Values of one size lie one after another from position k on. */
  ghost predicate ItemsAt(e: bytes, k: nat, size: nat, items: seq<bytes>) {
    forall i {:trigger items[i]} | 0 <= i < |items| :: ItemAt(e, k + i * size, size, items[i])
  }

  ghost predicate ItemAt(e: bytes, k: int, size: nat, item: bytes) {
    0 <= k && k + size <= |e| && e[k..k + size] == item
  }

  lemma {:induction false} FlattenAt(items: seq<bytes>, n: nat, size: nat, i: nat)
    requires i < n <= |items| && AllOfSize(items, size)
    ensures ItemAt(FlattenTo(items, n), i * size, size, items[i])
    decreases n
  {
    var f := FlattenTo(items, n - 1);
    FlattenLength(items, n - 1, size);
    if i < n - 1 {
      FlattenAt(items, n - 1, size, i);
      SliceOfFront(f, items[n - 1], i * size, i * size + size);
    } else {
      SliceOfBack(f, items[i], 0, size);
      assert items[i][0..size] == items[i];
    }
  }

  lemma ItemBehind(w: bytes, f: bytes, k: int, size: nat, item: bytes)
    requires ItemAt(f, k, size, item)
    ensures ItemAt(w + f, |w| + k, size, item)
  {
    SliceOfBack(w, f, k, k + size);
  }

  lemma ItemInside(e: bytes, b: nat, c: nat, k: int, size: nat, item: bytes)
    requires b <= c <= |e| && ItemAt(e[b..c], k, size, item)
    ensures ItemAt(e, b + k, size, item)
  {
    SliceOfSlice(e, b, c, k, k + size);
  }

  /** A vector is its length in bytes and then its values in order. */
  lemma VectorLayout(items: seq<bytes>, size: nat)
    requires AllOfSize(items, size) && |items| * size < 0x1_0000_0000
    ensures var e := EncodeVector(items, size);
            |e| == 4 + |items| * size && At(e, 0) == |items| * size && ItemsAt(e, 4, size, items)
  {
    var w, f := Word(|items| * size), FlattenTo(items, |items|);
    FlattenLength(items, |items|, size);
    WordLayout(|items| * size, f);
    SmallMod(|items| * size);
    forall i {:trigger items[i]} | 0 <= i < |items| ensures ItemAt(w + f, 4 + i * size, size, items[i]) {
      FlattenAt(items, |items|, size, i);
      ItemBehind(w, f, i * size, size, items[i]);
    }
  }

  lemma ChunksUnfold(b: bytes, size: nat)
    requires 0 < size <= |b|
    ensures Chunks(b, size) == Chunks(b[..|b| - size], size) + [b[|b| - size..]]
  {
  }

  lemma {:induction false} ChunksLength(b: bytes, size: nat, n: nat)
    requires size > 0 && |b| == n * size
    ensures |Chunks(b, size)| == n
    decreases n
  {
    if n > 0 {
      RoomFor(size, 0, n);
      ChunksUnfold(b, size);
      ChunksLength(b[..|b| - size], size, n - 1);
    }
  }

  lemma {:induction false} ChunkAt(b: bytes, size: nat, n: nat, i: nat)
    requires size > 0 && |b| == n * size && i < n
    ensures |Chunks(b, size)| == n && ItemAt(b, i * size, size, Chunks(b, size)[i])
    decreases n
  {
    RoomFor(size, i, n);
    var m := |b| - size;
    var c := b[..m];
    ChunksUnfold(b, size);
    ChunksLength(c, size, n - 1);
    if i < n - 1 {
      ChunkAt(c, size, n - 1, i);
      assert c == b[0..m];
      ItemInside(b, 0, m, i * size, size, Chunks(c, size)[i]);
    }
  }

  /** What reading makes of any bytes: the values, or a failure exactly for a length that does not fit. */
  lemma VectorRead(rest: bytes, size: nat)
    requires size > 0
    ensures var r := DecodeVector(rest, size);
            && (r.Done? <==> |rest| >= 4 && At(rest, 0) % size == 0 && 4 + At(rest, 0) <= |rest|)
            && (r.Done? ==> r.used == 4 + At(rest, 0) == 4 + |r.value| * size)
  {
    if |rest| >= 4 {
      AtIsWord(rest, 0);
      var len := At(rest, 0);
      if len % size == 0 && 4 + len <= |rest| {
        WholeMultiple(len, size);
        ChunksLength(rest[4..4 + len], size, len / size);
      }
    }
  }

  lemma WholeMultiple(len: nat, size: nat)
    requires size > 0 && len % size == 0
    ensures len == len / size * size
  {
  }

  /** Value i of those read. */
  lemma ItemRead(rest: bytes, size: nat, i: nat)
    requires size > 0 && DecodeVector(rest, size).Done? && i < |DecodeVector(rest, size).value|
    ensures var r := DecodeVector(rest, size);
            4 + i * size + size <= r.used <= |rest| && ItemAt(rest, 4 + i * size, size, r.value[i])
  {
    var r := DecodeVector(rest, size);
    VectorRead(rest, size);
    AtIsWord(rest, 0);
    RoomFor(size, i, |r.value|);
    ChunkAt(rest[4..r.used], size, |r.value|, i);
    ItemInside(rest, 4, r.used, i * size, size, r.value[i]);
  }

  // ---------------------------------------------------------------- texts

  /** A text is its length, its characters, and zeros up to a multiple of four. */
  lemma TextLayout(text: bytes)
    requires |text| < 0x1_0000_0000
    ensures var e := EncodeText(text);
            && 4 + |text| <= |e| < 8 + |text| && |e| % 4 == 0
            && At(e, 0) == |text| && e[4..4 + |text|] == text
            && forall k | 4 + |text| <= k < |e| :: e[k] == 0
  {
    WordLayout(|text|, text + Zeros(WriteStringLength(|text|) - 4 - |text|));
    assert EncodeText(text) == Word(|text|) + (text + Zeros(WriteStringLength(|text|) - 4 - |text|));
    SmallMod(|text|);
  }

  lemma TextRead(rest: bytes)
    ensures var r := DecodeText(rest);
            && (r.Done? <==> |rest| >= 4 && 4 + (At(rest, 0) + 3) / 4 * 4 <= |rest|)
            && (r.Done? ==> r.value == rest[4..4 + At(rest, 0)] && r.used == 4 + (At(rest, 0) + 3) / 4 * 4)
  {
    if |rest| >= 4 {
      AtIsWord(rest, 0);
    }
  }

  // ---------------------------------------------------------------- string samples

  /** The record of a sample at position k. */
  ghost predicate RecordAt(e: bytes, k: nat, time: bytes, begin: nat, weight: bytes, stddev: bytes) {
    && k + 24 <= |e|
    && e[k..k + 8] == time && At(e, k + 8) == begin
    && e[k + 12..k + 16] == weight && e[k + 16..k + 20] == stddev
  }

  lemma RecordInside(e: bytes, k: nat, b: bytes, time: bytes, begin: nat, weight: bytes, stddev: bytes)
    requires k + 24 <= |e| && e[k..k + 24] == b
    ensures RecordAt(b, 0, time, begin, weight, stddev) <==> RecordAt(e, k, time, begin, weight, stddev)
  {
    AtInside(e, k, k + 24, 8);
    SliceOfSlice(e, k, k + 24, 0, 8);
    SliceOfSlice(e, k, k + 24, 12, 16);
    SliceOfSlice(e, k, k + 24, 16, 20);
  }

  lemma IndexLayout(x: Index, pad: bytes)
    requires x.Valid() && |pad| == 4
    ensures RecordAt(IndexBytes(x, pad), 0, x.time, x.value, x.weight, x.stddev)
  {
    var b := IndexBytes(x, pad);
    assert b[..8] == x.time && b[8..12] == Word(x.value) && b[12..16] == x.weight && b[16..20] == x.stddev;
    AtIsWord(b, 8);
    WordRoundTrip(x.value);
  }

  /** Where each text begins: where the one before it ends. */
  ghost predicate Begins(begins: seq<nat>, samples: seq<Sample>) {
    && |begins| == |samples| + 1 && begins[0] == 0
    && forall i {:trigger samples[i]} | 0 <= i < |samples| :: begins[i + 1] == begins[i] + |samples[i].value|
  }

  ghost function BeginsOf(samples: seq<Sample>): (begins: seq<nat>)
    ensures Begins(begins, samples)
  {
    seq(|samples| + 1, i requires 0 <= i <= |samples| => |TextsBefore(samples, i)|)
  }

  /** What the bytes e say of a sample: its record, and its part of the text, which begins at position t. */
  ghost predicate SampleAt(e: bytes, t: nat, i: nat, sample: Sample, begin: nat, end: nat) {
    && RecordAt(e, 4 + 24 * i, sample.time, begin, sample.weight, sample.stddev)
    && begin <= end && t + end <= |e| && e[t + begin..t + end] == sample.value
  }

  /** The bytes e are the records of these samples, and then all the texts as one text. */
  ghost predicate LaidOut(e: bytes, samples: seq<Sample>, begins: seq<nat>)
    requires Begins(begins, samples)
  {
    var n := |samples|;
    && 4 + 24 * n + 4 + begins[n] <= |e| && At(e, 0) == 24 * n && At(e, 4 + 24 * n) == begins[n]
    && forall i {:trigger samples[i]} | 0 <= i < n ::
         SampleAt(e, 4 + 24 * n + 4, i, samples[i], begins[i], begins[i + 1])
  }

  /**
   String samples are a vector of records of 24 bytes, which hold time, beginning of the text, weight and
   deviation, and then all the texts, one after another, as one text.
   */
  lemma SamplesLayout(samples: seq<Sample>, pad: bytes) returns (begins: seq<nat>)
    requires AllValid(samples) && |pad| == 4 && SamplesFit(samples)
    ensures Begins(begins, samples) && LaidOut(EncodeSamples(samples, pad), samples, begins)
  {
    begins := BeginsOf(samples);
    var items, text := IndexItems(Decompose(samples), pad), Texts(samples);
    IndexesRoundTrip(samples, pad);
    VectorLayout(items, 24);
    TextLayout(text);
    EachSample(samples, pad, begins, items, EncodeVector(items, 24), EncodeText(text));
  }

  lemma EachSample(samples: seq<Sample>, pad: bytes, begins: seq<nat>, items: seq<bytes>, v: bytes, x: bytes)
    requires AllValid(samples) && |pad| == 4 && SamplesFit(samples)
    requires begins == BeginsOf(samples) && items == IndexItems(Decompose(samples), pad)
    requires |v| == 4 + 24 * |samples| && At(v, 0) == 24 * |samples| && ItemsAt(v, 4, 24, items)
    requires ItemAt(x, 4, |Texts(samples)|, Texts(samples)) && At(x, 0) == |Texts(samples)|
    ensures LaidOut(v + x, samples, begins)
  {
    AtPart(v, x);
    forall i {:trigger samples[i]} | 0 <= i < |samples|
      ensures SampleAt(v + x, |v| + 4, i, samples[i], begins[i], begins[i + 1])
    {
      assert ItemAt(v, 4 + i * 24, 24, items[i]);
      SampleLayout(samples, pad, v, x, i, Texts(samples));
    }
  }

  lemma AtPart(v: bytes, x: bytes)
    requires |v| >= 4 && |x| >= 4
    ensures At(v + x, 0) == At(v, 0) && At(v + x, |v|) == At(x, 0)
  {
  }

  lemma SampleLayout(samples: seq<Sample>, pad: bytes, v: bytes, x: bytes, i: nat, text: bytes)
    requires AllValid(samples) && |pad| == 4 && SamplesFit(samples) && i < |samples| && text == Texts(samples)
    requires ItemAt(v, 4 + i * 24, 24, IndexBytes(Decompose(samples)[i], pad)) && ItemAt(x, 4, |text|, text)
    ensures SampleAt(v + x, |v| + 4, i, samples[i], |TextsBefore(samples, i)|, |TextsBefore(samples, i + 1)|)
  {
    assert samples[i].Valid();
    TextAt(samples, i);
    SmallMod(|TextsBefore(samples, i)|);
    SamplePlaced(v, x, text, i, samples[i], Decompose(samples)[i], pad,
                 |TextsBefore(samples, i)|, |TextsBefore(samples, i + 1)|);
  }

  lemma SamplePlaced(v: bytes, x: bytes, text: bytes, i: nat, s: Sample, index: Index, pad: bytes, b: nat, c: nat)
    requires index.Valid() && |pad| == 4 && index == Index(s.time, b, s.weight, s.stddev)
    requires ItemAt(v, 4 + i * 24, 24, IndexBytes(index, pad)) && ItemAt(x, 4, |text|, text)
    requires b <= c <= |text| && text[b..c] == s.value
    ensures SampleAt(v + x, |v| + 4, i, s, b, c)
  {
    var k := 4 + 24 * i;
    SliceOfFront(v, x, k, k + 24);
    IndexLayout(index, pad);
    RecordInside(v + x, k, IndexBytes(index, pad), index.time, index.value, index.weight, index.stddev);
    SliceOfBack(v, x, 4 + b, 4 + c);
    SliceOfSlice(x, 4, 4 + |text|, b, c);
  }

  /** The text from `begin` to `end`, or to the end of all texts if that comes first or `end` lies before `begin`. */
  lemma PieceRead(text: bytes, begin: nat, end: nat)
    requires begin <= |text| < 0x1_0000_0000 && end < 0x1_0000_0000
    ensures Piece(text, begin, end) == if begin <= end <= |text| then text[begin..end] else text[begin..]
  {
    if begin <= end {
      SmallMod(end - begin);
    } else {
      assert (end - begin) % WORD == end - begin + WORD;
    }
  }

  lemma RecordRead(rest: bytes, i: nat)
    requires DecodeVector(rest, 24).Done? && i < |DecodeVector(rest, 24).value|
    ensures var x := IndexesOf(DecodeVector(rest, 24).value)[i];
            4 + 24 * i + 24 <= |rest| && RecordAt(rest, 4 + 24 * i, x.time, x.value, x.weight, x.stddev)
  {
    var b := DecodeVector(rest, 24).value[i];
    ItemRead(rest, 24, i);
    AtIsWord(b, 8);
    var x := IndexOf(b);
    RecordInside(rest, 4 + 24 * i, b, x.time, x.value, x.weight, x.stddev);
  }

  /** Where the text of record i begins. */
  ghost function BeginAt(rest: bytes, i: nat): nat
    requires 4 + 24 * i + 24 <= |rest|
  {
    At(rest, 4 + 24 * i + 8)
  }

  ghost predicate BeginsWithin(rest: bytes, n: nat, total: nat)
    requires 4 + 24 * n <= |rest|
  {
    forall i: nat {:trigger BeginAt(rest, i)} | i < n :: BeginAt(rest, i) <= total
  }

  lemma ComposableRead(rest: bytes, text: bytes)
    requires DecodeVector(rest, 24).Done?
    ensures var v := DecodeVector(rest, 24).value;
            4 + 24 * |v| <= |rest| && (Composable(IndexesOf(v), text) <==> BeginsWithin(rest, |v|, |text|))
  {
    var v := DecodeVector(rest, 24).value;
    VectorRead(rest, 24);
    if Composable(IndexesOf(v), text) {
      forall i: nat {:trigger BeginAt(rest, i)} | i < |v| ensures BeginAt(rest, i) <= |text| {
        RecordRead(rest, i);
        assert IndexesOf(v)[i].value <= |text|;
      }
    } else {
      var i :| 0 <= i < |v| && IndexesOf(v)[i].value > |text|;
      RecordRead(rest, i);
      assert BeginAt(rest, i) > |text|;
    }
  }

  /** The text that is read from position k on. */
  lemma TextBehind(rest: bytes, k: nat)
    requires k <= |rest|
    ensures var t := DecodeText(rest[k..]);
            && (t.Done? <==> k + 4 <= |rest| && k + 4 + (At(rest, k) + 3) / 4 * 4 <= |rest|)
            && (t.Done? ==> t.value == rest[k + 4..k + 4 + At(rest, k)] && t.used == 4 + (At(rest, k) + 3) / 4 * 4)
  {
    var x := rest[k..];
    TextRead(x);
    if |x| >= 4 {
      AtInside(rest, k, |rest|, 0);
      if DecodeText(x).Done? {
        SliceOfSlice(rest, k, |rest|, 4, 4 + At(x, 0));
      }
    }
  }

  /**
   What reading makes of any bytes: it fails exactly if the length of the records is wrong, if the text behind
   them is not all there, or if a text begins past it.
   */
  lemma SamplesRead(rest: bytes)
    ensures var r, v := DecodeSamples(rest), DecodeVector(rest, 24);
            && (v.Fail? ==> r.Fail?)
            && (v.Done? ==>
                  var n, t := |v.value|, DecodeText(rest[v.used..]);
                  && v.used == 4 + 24 * n <= |rest|
                  && (r.Done? <==> t.Done? && BeginsWithin(rest, n, At(rest, 4 + 24 * n)))
                  && (r.Done? ==> r.used == v.used + t.used && |r.value| == n))
  {
    var v := DecodeVector(rest, 24);
    VectorRead(rest, 24);
    if v.Done? {
      TextBehind(rest, v.used);
      var t := DecodeText(rest[v.used..]);
      if t.Done? {
        ComposableRead(rest, t.value);
      }
    }
  }

  /** s is what the bytes say of sample i of n. */
  ghost predicate IsRead(rest: bytes, n: nat, i: nat, s: Sample) {
    && i < n && 4 + 24 * n + 4 <= |rest|
    && var total, begin := At(rest, 4 + 24 * n), BeginAt(rest, i);
    var end := if i + 1 < n then BeginAt(rest, i + 1) else total;
    && 4 + 24 * n + 4 + total <= |rest| && begin <= total
    && RecordAt(rest, 4 + 24 * i, s.time, begin, s.weight, s.stddev)
    && var text := rest[4 + 24 * n + 4..4 + 24 * n + 4 + total];
    s.value == if begin <= end <= total then text[begin..end] else text[begin..]
  }

  lemma ReadFrom(rest: bytes, n: nat, i: nat, x: Index, end: nat, t: bytes)
    requires i < n && 4 + 24 * n + 4 <= |rest| && 4 + 24 * n + 4 + At(rest, 4 + 24 * n) <= |rest|
    requires t == rest[4 + 24 * n + 4..4 + 24 * n + 4 + At(rest, 4 + 24 * n)] && x.value <= |t|
    requires RecordAt(rest, 4 + 24 * i, x.time, x.value, x.weight, x.stddev)
    requires end == if i + 1 < n then BeginAt(rest, i + 1) else |t|
    ensures IsRead(rest, n, i, Codec.Sample(x.time, Piece(t, x.value, end), x.weight, x.stddev))
  {
    PieceRead(t, x.value, end);
  }

  lemma SampleDecoded(rest: bytes, i: nat)
    requires DecodeSamples(rest).Done? && i < |DecodeSamples(rest).value|
    ensures DecodeVector(rest, 24).Done? && |DecodeVector(rest, 24).value| == |DecodeSamples(rest).value|
    ensures DecodeVector(rest, 24).used <= |rest| && DecodeText(rest[DecodeVector(rest, 24).used..]).Done?
    ensures var indexes, t := IndexesOf(DecodeVector(rest, 24).value),
                              DecodeText(rest[DecodeVector(rest, 24).used..]).value;
            && indexes[i].value <= |t|
            && DecodeSamples(rest).value[i] ==
               Codec.Sample(indexes[i].time, Piece(t, indexes[i].value, EndOf(indexes, t, i)), indexes[i].weight,
                            indexes[i].stddev)
  {
  }

  lemma EndRead(rest: bytes, i: nat, t: bytes)
    requires DecodeVector(rest, 24).Done? && i < |DecodeVector(rest, 24).value| && |t| < 0x1_0000_0000
    ensures var v := DecodeVector(rest, 24).value;
            && 4 + 24 * |v| <= |rest|
            && EndOf(IndexesOf(v), t, i) == if i + 1 < |v| then BeginAt(rest, i + 1) else |t|
  {
    VectorRead(rest, 24);
    if i + 1 < |DecodeVector(rest, 24).value| {
      RecordRead(rest, i + 1);
    } else {
      SmallMod(|t|);
    }
  }

  /** Each sample of those read: its record, and its part of the text. */
  lemma SampleRead(rest: bytes, i: nat)
    requires DecodeSamples(rest).Done? && i < |DecodeSamples(rest).value|
    ensures IsRead(rest, |DecodeSamples(rest).value|, i, DecodeSamples(rest).value[i])
  {
    SampleDecoded(rest, i);
    var n, s, v := |DecodeSamples(rest).value|, DecodeSamples(rest).value[i], DecodeVector(rest, 24);
    var indexes, t := IndexesOf(v.value), DecodeText(rest[v.used..]).value;
    var end := EndOf(indexes, t, i);
    assert 4 + 24 * n + 4 + At(rest, 4 + 24 * n) <= |rest|
        && t == rest[4 + 24 * n + 4..4 + 24 * n + 4 + At(rest, 4 + 24 * n)] by {
      VectorRead(rest, 24);
      TextBehind(rest, v.used);
    }
    assert RecordAt(rest, 4 + 24 * i, indexes[i].time, indexes[i].value, indexes[i].weight, indexes[i].stddev) by {
      RecordRead(rest, i);
    }
    EndRead(rest, i, t);
    ReadFrom(rest, n, i, indexes[i], end, t);
  }

  // ---------------------------------------------------------------- tiles and sequences of values

  /** A tile is its header, the double samples, the string samples and the ranges, in this order. */
  lemma TileLayout(c: Content, pad: bytes)
    requires c.Valid() && c.Fits() && |pad| == 4
    ensures var e, s := EncodeTile(c, pad), 12 + 24 * |c.doubles|;
            && s + 32 <= |e| && e[..8] == c.header && At(e, 8) == 24 * |c.doubles|
            && ItemsAt(e, 12, 24, c.doubles)
            && e[s..|e| - 32] == EncodeSamples(c.strings, pad) && e[|e| - 32..] == c.ranges
  {
    var v, x := EncodeVector(c.doubles, 24), EncodeSamples(c.strings, pad);
    VectorLayout(c.doubles, 24);
    FourParts(c.header, v, x, c.ranges);
    TilePart(EncodeTile(c, pad), v, c.doubles);
  }

  lemma TilePart(e: bytes, v: bytes, items: seq<bytes>)
    requires 4 <= |v| && 8 + |v| <= |e| && e[8..8 + |v|] == v && ItemsAt(v, 4, 24, items)
    ensures At(e, 8) == At(v, 0) && ItemsAt(e, 12, 24, items)
  {
    AtInside(e, 8, 8 + |v|, 0);
    forall i {:trigger items[i]} | 0 <= i < |items| ensures ItemAt(e, 12 + i * 24, 24, items[i]) {
      assert ItemAt(v, 4 + i * 24, 24, items[i]);
      ItemInside(e, 8, 8 + |v|, 4 + i * 24, 24, items[i]);
    }
  }

  lemma FourParts(h: bytes, v: bytes, x: bytes, r: bytes)
    ensures var e := h + v + x + r;
            && e[..|h|] == h && e[|h|..|h| + |v|] == v
            && e[|h| + |v|..|e| - |r|] == x && e[|e| - |r|..] == r
  {
  }

  lemma LengthsBefore(vs: seq<Value>, i: nat)
    requires 0 < i <= |vs|
    ensures WriteLengths(vs[..i]) == vs[0].WriteLength() + WriteLengths(vs[1..][..i - 1])
  {
    assert vs[..i][1..] == vs[1..][..i - 1];
  }

  /** Values written one after another lie one after another. */
  lemma {:induction false} AllLayout(vs: seq<Value>, pad: bytes, i: nat)
    requires |pad| == 4 && i < |vs| && forall v | v in vs :: v.Valid()
    ensures ItemAt(EncodeAll(vs, pad), WriteLengths(vs[..i]), vs[i].WriteLength(), Encode(vs[i], pad))
    decreases |vs|
  {
    var first, rest := Encode(vs[0], pad), EncodeAll(vs[1..], pad);
    assert |first| == vs[0].WriteLength() by {
      ValueRoundTrip(vs[0], pad, []);
    }
    if i > 0 {
      var tail := vs[1..];
      AllLayout(tail, pad, i - 1);
      LengthsBefore(vs, i);
      ItemBehind(first, rest, WriteLengths(tail[..i - 1]), vs[i].WriteLength(), Encode(vs[i], pad));
    } else {
      assert vs[..0] == [];
      SliceOfFront(first, rest, 0, |first|);
      assert first[0..|first|] == first;
    }
  }
}
