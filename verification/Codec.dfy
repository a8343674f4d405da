/** The bytes that BinaryIO writes for a value, and what reading makes of bytes. */
module Codec {
  import Arith

  type byte = x: int | 0 <= x < 0x100

  type bytes = seq<byte>

  const WORD := 0x1_0000_0000

  /** A uint32 as it lies in memory, lowest byte first. */
  function Word(v: nat): (b: bytes)
    ensures |b| == 4
  {
    var q1 := v / 0x100;
    var q2 := q1 / 0x100;
    [v % 0x100, q1 % 0x100, q2 % 0x100, q2 / 0x100 % 0x100]
  }

  function WordOf(b: bytes): (v: nat)
    requires |b| == 4
    ensures v < WORD
  {
    b[0] as int + 0x100 * b[1] as int + 0x1_0000 * b[2] as int + 0x100_0000 * b[3] as int
  }

  lemma WordRoundTrip(v: nat)
    ensures WordOf(Word(v)) == v % WORD
  {
    var q1 := v / 0x100;
    var q2 := q1 / 0x100;
    var q3 := q2 / 0x100;
    Arith.DivModUnique(v, WORD, q3 / 0x100, WordOf(Word(v)));
  }

  function Zeros(n: nat): (b: bytes)
    ensures |b| == n
  {
    seq(n, _ => 0)
  }

  /** DataSample<std::string>; the time, weight and deviation are blocks of bytes here. */
  datatype Sample = Sample(time: bytes, value: bytes, weight: bytes, stddev: bytes) {
    ghost predicate Valid() {
      |time| == 8 && |weight| == 4 && |stddev| == 4
    }
  }

  /** DataSample<uint32>: where the text of a sample begins. */
  datatype Index = Index(time: bytes, value: nat, weight: bytes, stddev: bytes) {
    ghost predicate Valid() {
      |time| == 8 && |weight| == 4 && |stddev| == 4 && value < WORD
    }
  }

  const INDEX_SIZE := 24

  /** An index as it lies in memory; its last four bytes are padding and may hold anything. */
  function IndexBytes(x: Index, pad: bytes): (b: bytes)
    requires |pad| == 4
    ensures |x.time| == 8 && |x.weight| == 4 && |x.stddev| == 4 ==> |b| == INDEX_SIZE
  {
    x.time + Word(x.value) + x.weight + x.stddev + pad
  }

  function IndexOf(b: bytes): (x: Index)
    requires |b| == INDEX_SIZE
    ensures x.Valid()
  {
    Index(b[..8], WordOf(b[8..12]), b[12..16], b[16..20])
  }

  lemma IndexRoundTrip(x: Index, pad: bytes)
    requires x.Valid() && |pad| == 4
    ensures IndexOf(IndexBytes(x, pad)) == x
  {
    var b := IndexBytes(x, pad);
    assert b[..8] == x.time && b[8..12] == Word(x.value) && b[12..16] == x.weight && b[16..20] == x.stddev;
    WordRoundTrip(x.value);
  }

  // ---------------------------------------------------------------- texts of samples in one text

  /** The texts of the first n samples, one after another. */
  ghost function TextsBefore(samples: seq<Sample>, n: nat): bytes
    requires n <= |samples|
  {
    if n == 0 then [] else TextsBefore(samples, n - 1) + samples[n - 1].value
  }

  ghost function Texts(samples: seq<Sample>): bytes {
    TextsBefore(samples, |samples|)
  }

  /** decompose_string_samples: the offsets are 32 bits wide. */
  ghost function Decompose(samples: seq<Sample>): (indexes: seq<Index>)
    ensures |indexes| == |samples|
  {
    seq(|samples|, i requires 0 <= i < |samples| =>
        Index(samples[i].time, |TextsBefore(samples, i)| % WORD, samples[i].weight, samples[i].stddev))
  }

  /** text.substr(begin, end - begin) in 32-bit arithmetic; it fails when begin lies past the text. */
  function Piece(text: bytes, begin: nat, end: nat): (p: bytes)
    requires begin <= |text|
  {
    var len := (end - begin) % WORD;
    text[begin..if len < |text| - begin then begin + len else |text|]
  }

  function EndOf(indexes: seq<Index>, text: bytes, i: nat): nat
    requires i < |indexes|
  {
    if i + 1 < |indexes| then indexes[i + 1].value else |text| % WORD
  }

  ghost predicate Composable(indexes: seq<Index>, text: bytes) {
    forall i {:trigger indexes[i]} | 0 <= i < |indexes| :: indexes[i].value <= |text|
  }

  /** compose_string_samples. */
  ghost function Compose(indexes: seq<Index>, text: bytes): (samples: seq<Sample>)
    requires Composable(indexes, text)
    ensures |samples| == |indexes|
  {
    seq(|indexes|, i requires 0 <= i < |indexes| =>
        Sample(indexes[i].time, Piece(text, indexes[i].value, EndOf(indexes, text, i)),
               indexes[i].weight, indexes[i].stddev))
  }

  lemma {:induction false} TextsPrefix(samples: seq<Sample>, i: nat, n: nat)
    requires i <= n <= |samples|
    ensures |TextsBefore(samples, i)| <= |TextsBefore(samples, n)|
    ensures TextsBefore(samples, n)[..|TextsBefore(samples, i)|] == TextsBefore(samples, i)
    decreases n
  {
    if i < n {
      TextsPrefix(samples, i, n - 1);
    }
  }

  /** The text of sample i lies at its offset, and the next offset is where it ends. */
  lemma TextAt(samples: seq<Sample>, i: nat)
    requires i < |samples|
    ensures var begin, end := |TextsBefore(samples, i)|, |TextsBefore(samples, i + 1)|;
            && begin + |samples[i].value| == end <= |Texts(samples)|
            && Texts(samples)[begin..end] == samples[i].value
  {
    TextsPrefix(samples, i + 1, |samples|);
    var begin, end := |TextsBefore(samples, i)|, |TextsBefore(samples, i + 1)|;
    assert Texts(samples)[begin..end] == Texts(samples)[..end][begin..];
  }

  lemma SmallMod(v: nat)
    requires v < WORD
    ensures v % WORD == v
  {
  }

  lemma PieceIs(samples: seq<Sample>, i: nat)
    requires i < |samples| && |Texts(samples)| < WORD
    ensures var indexes, text := Decompose(samples), Texts(samples);
            && indexes[i].value <= |text|
            && Piece(text, indexes[i].value, EndOf(indexes, text, i)) == samples[i].value
  {
    var begin, end := |TextsBefore(samples, i)|, |TextsBefore(samples, i + 1)|;
    TextAt(samples, i);
    SmallMod(begin);
    SmallMod(end);
    SmallMod(end - begin);
  }

  /** Composing undoes decomposing as long as 32 bits can hold every offset. */
  lemma ComposeDecompose(samples: seq<Sample>)
    requires |Texts(samples)| < WORD
    ensures Composable(Decompose(samples), Texts(samples))
    ensures Compose(Decompose(samples), Texts(samples)) == samples
  {
    var indexes, text := Decompose(samples), Texts(samples);
    forall i {:trigger indexes[i]} | 0 <= i < |samples| ensures indexes[i].value <= |text| {
      PieceIs(samples, i);
    }
    forall i | 0 <= i < |samples| ensures Compose(indexes, text)[i] == samples[i] {
      PieceIs(samples, i);
    }
  }

  // ---------------------------------------------------------------- vectors of fixed-size values

  ghost predicate AllOfSize(items: seq<bytes>, size: nat) {
    forall i {:trigger items[i]} | 0 <= i < |items| :: |items[i]| == size
  }

  /** The first n values, one after another. */
  ghost function FlattenTo(items: seq<bytes>, n: nat): bytes
    requires n <= |items|
  {
    if n == 0 then [] else FlattenTo(items, n - 1) + items[n - 1]
  }

  /** Bytes taken apart into values of one size. */
  ghost function Chunks(b: bytes, size: nat): (items: seq<bytes>)
    requires size > 0
    ensures AllOfSize(items, size)
    decreases |b|
  {
    if |b| < size then [] else Chunks(b[..|b| - size], size) + [b[|b| - size..]]
  }

  ghost function EncodeVector(items: seq<bytes>, size: nat): bytes {
    Word(|items| * size) + FlattenTo(items, |items|)
  }

  datatype Parsed<+T> = Fail | Done(value: T, used: nat)

  ghost function DecodeVector(rest: bytes, size: nat): (r: Parsed<seq<bytes>>)
    requires size > 0
    ensures r.Done? ==> r.used <= |rest| && AllOfSize(r.value, size)
  {
    if |rest| < 4 then Fail
    else
      var len := WordOf(rest[..4]);
      if len % size != 0 || 4 + len > |rest| then Fail else Done(Chunks(rest[4..4 + len], size), 4 + len)
  }

  lemma {:induction false} FlattenLength(items: seq<bytes>, n: nat, size: nat)
    requires n <= |items| && AllOfSize(items, size)
    ensures |FlattenTo(items, n)| == n * size
  {
    if n > 0 {
      FlattenLength(items, n - 1, size);
    }
  }

  lemma {:induction false} ChunksFlatten(items: seq<bytes>, n: nat, size: nat)
    requires n <= |items| && AllOfSize(items, size) && size > 0
    ensures Chunks(FlattenTo(items, n), size) == items[..n]
  {
    if n > 0 {
      ChunksFlatten(items, n - 1, size);
      var b := FlattenTo(items, n);
      assert b[..|b| - size] == FlattenTo(items, n - 1) && b[|b| - size..] == items[n - 1];
    }
  }

  lemma {:induction false} ChunksCount(b: bytes, size: nat)
    requires size > 0
    ensures |Chunks(b, size)| * size <= |b|
    decreases |b|
  {
    if |b| >= size {
      ChunksCount(b[..|b| - size], size);
    }
  }

  /** A vector is read back if and only if its length in bytes fits in 32 bits. */
  lemma VectorRoundTrip(items: seq<bytes>, size: nat, tail: bytes)
    requires AllOfSize(items, size) && size > 0
    ensures var e := EncodeVector(items, size);
            && |e| == 4 + |items| * size
            && (|items| * size < WORD <==> DecodeVector(e + tail, size) == Done(items, |e|))
    ensures var r := DecodeVector(EncodeVector(items, size) + tail, size);
            |items| * size >= WORD && r.Done? ==> |r.value| < |items|
  {
    var n, rest := |items| * size, EncodeVector(items, size) + tail;
    FlattenLength(items, |items|, size);
    assert rest[..4] == Word(n);
    WordRoundTrip(n);
    if n < WORD {
      SmallMod(n);
      MulMod(|items|, size);
      assert rest[4..4 + n] == FlattenTo(items, |items|);
      ChunksFlatten(items, |items|, size);
      assert items[..|items|] == items;
    } else {
      var r := DecodeVector(rest, size);
      if r.Done? {
        ChunksCount(rest[4..4 + n % WORD], size);
        MulSmaller(|r.value|, |items|, size);
      }
    }
  }

  lemma MulMod(n: nat, size: nat)
    requires size > 0
    ensures n * size % size == 0
  {
    Arith.DivModUnique(n * size, size, n, 0);
  }

  lemma MulSmaller(m: nat, n: nat, size: nat)
    requires m * size < n * size
    ensures m < n
  {
    if m >= n {
      MulGrows(n, m, size);
    }
  }

  lemma MulGrows(m: nat, n: nat, size: nat)
    requires m <= n
    ensures m * size <= n * size
  {
    assert n * size == m * size + (n - m) * size;
  }

  // ---------------------------------------------------------------- strings

  /** write_string_length: four bytes for the length, and the text padded to a multiple of four. */
  function WriteStringLength(len: nat): (n: nat)
    ensures 4 + len <= n <= 7 + len && n % 4 == 0
  {
    4 + (len + 3) / 4 * 4
  }

  ghost function EncodeText(text: bytes): bytes {
    Word(|text|) + text + Zeros(WriteStringLength(|text|) - 4 - |text|)
  }

  ghost function DecodeText(rest: bytes): (r: Parsed<bytes>)
    ensures r.Done? ==> r.used <= |rest|
  {
    if |rest| < 4 then Fail
    else
      var len := WordOf(rest[..4]);
      if WriteStringLength(len) > |rest| then Fail else Done(rest[4..4 + len], WriteStringLength(len))
  }

  /** A text is read back if and only if its length fits in 32 bits; otherwise it is cut short. */
  lemma TextRoundTrip(text: bytes, tail: bytes)
    ensures var e := EncodeText(text);
            && |e| == WriteStringLength(|text|)
            && (|text| < WORD <==> DecodeText(e + tail) == Done(text, |e|))
    ensures var r := DecodeText(EncodeText(text) + tail);
            r.Done? && r.value == text[..|text| % WORD]
  {
    var n, rest := |text|, EncodeText(text) + tail;
    assert rest[..4] == Word(n);
    WordRoundTrip(n);
    var len := n % WORD;
    assert len <= n;
    LengthGrows(len, n);
    assert rest[4..4 + len] == text[..len];
    if n < WORD {
      SmallMod(n);
      assert text[..n] == text;
    } else {
      assert |text[..len]| < n;
    }
  }

  lemma LengthGrows(m: nat, n: nat)
    requires m <= n
    ensures WriteStringLength(m) <= WriteStringLength(n)
  {
  }

  // ---------------------------------------------------------------- string samples

  ghost predicate AllValid(samples: seq<Sample>) {
    forall i {:trigger samples[i]} | 0 <= i < |samples| :: samples[i].Valid()
  }

  function IndexItems(indexes: seq<Index>, pad: bytes): (items: seq<bytes>)
    requires |pad| == 4
    ensures |items| == |indexes|
  {
    seq(|indexes|, i requires 0 <= i < |indexes| => IndexBytes(indexes[i], pad))
  }

  function IndexesOf(items: seq<bytes>): (indexes: seq<Index>)
    requires AllOfSize(items, INDEX_SIZE)
    ensures |indexes| == |items|
  {
    seq(|items|, i requires 0 <= i < |items| => IndexOf(items[i]))
  }

  lemma IndexesRoundTrip(samples: seq<Sample>, pad: bytes)
    requires AllValid(samples) && |pad| == 4
    ensures var items := IndexItems(Decompose(samples), pad);
            AllOfSize(items, INDEX_SIZE) && IndexesOf(items) == Decompose(samples)
  {
    var indexes := Decompose(samples);
    var items := IndexItems(indexes, pad);
    forall i {:trigger items[i]} | 0 <= i < |items|
      ensures |items[i]| == INDEX_SIZE && IndexOf(items[i]) == indexes[i]
    {
      assert samples[i].Valid();
      IndexRoundTrip(indexes[i], pad);
    }
  }

  ghost function EncodeSamples(samples: seq<Sample>, pad: bytes): bytes
    requires |pad| == 4
  {
    EncodeVector(IndexItems(Decompose(samples), pad), INDEX_SIZE) + EncodeText(Texts(samples))
  }

  /** The indexes, the text, and the samples composed from them; an offset past the text is an error. */
  ghost function DecodeSamples(rest: bytes): (r: Parsed<seq<Sample>>)
    ensures r.Done? ==> r.used <= |rest|
  {
    var v := DecodeVector(rest, INDEX_SIZE);
    if v.Fail? then Fail
    else
      var t := DecodeText(rest[v.used..]);
      if t.Fail? || !Composable(IndexesOf(v.value), t.value) then Fail
      else Done(Compose(IndexesOf(v.value), t.value), v.used + t.used)
  }

  /** Where the texts first reach past 32 bits. */
  lemma {:induction false} Crossing(samples: seq<Sample>, n: nat) returns (i: nat)
    requires n <= |samples| && |TextsBefore(samples, n)| >= WORD
    ensures i < n && |TextsBefore(samples, i)| < WORD <= |TextsBefore(samples, i + 1)|
  {
    i := n - 1;
    if |TextsBefore(samples, i)| >= WORD {
      i := Crossing(samples, i);
    }
  }

  /** Texts that are too long do not come back from the text that is left of them. */
  lemma LongTextsLost(samples: seq<Sample>, text: bytes)
    requires |Texts(samples)| >= WORD > |text| && Composable(Decompose(samples), text)
    ensures Compose(Decompose(samples), text) != samples
  {
    var i := Crossing(samples, |samples|);
    var indexes := Decompose(samples);
    SmallMod(|TextsBefore(samples, i)|);
    assert indexes[i].value + |Piece(text, indexes[i].value, EndOf(indexes, text, i))| <= |text|;
    assert Compose(indexes, text)[i] != samples[i];
  }

  ghost predicate SamplesFit(samples: seq<Sample>) {
    |samples| * INDEX_SIZE < WORD && |Texts(samples)| < WORD
  }

  /** Samples are read back if and only if their indexes and their texts each fit in 32 bits. */
  lemma SamplesRoundTrip(samples: seq<Sample>, pad: bytes, tail: bytes)
    requires AllValid(samples) && |pad| == 4
    ensures var e := EncodeSamples(samples, pad);
            && |e| == 4 + |samples| * INDEX_SIZE + WriteStringLength(|Texts(samples)|)
            && (SamplesFit(samples) <==> DecodeSamples(e + tail) == Done(samples, |e|))
    ensures var r := DecodeSamples(EncodeSamples(samples, pad) + tail);
            !SamplesFit(samples) ==> r.Fail? || r.value != samples
  {
    var items, text := IndexItems(Decompose(samples), pad), Texts(samples);
    var v, t := EncodeVector(items, INDEX_SIZE), EncodeText(text);
    IndexesRoundTrip(samples, pad);
    VectorRoundTrip(items, INDEX_SIZE, t + tail);
    TextRoundTrip(text, tail);
    assert v + t + tail == v + (t + tail);
    var rest := v + (t + tail);
    if |samples| * INDEX_SIZE < WORD {
      assert rest[|v|..] == t + tail;
      if |text| < WORD {
        ComposeDecompose(samples);
      } else {
        var left := DecodeText(t + tail).value;
        if Composable(Decompose(samples), left) {
          LongTextsLost(samples, left);
        }
      }
    }
  }

  // ---------------------------------------------------------------- any sequence of values

  datatype Value =
    | Fixed(bits: bytes)
    | Vector(size: nat, items: seq<bytes>)
    | Text(text: bytes)
    | Samples(samples: seq<Sample>)
  {
    ghost predicate Valid() {
      match this
      case Fixed(_) => true
      case Vector(size, items) => size > 0 && AllOfSize(items, size)
      case Text(_) => true
      case Samples(samples) => AllValid(samples)
    }

    /** Every length and offset fits in 32 bits. */
    ghost predicate Fits() {
      match this
      case Fixed(_) => true
      case Vector(size, items) => |items| * size < WORD
      case Text(text) => |text| < WORD
      case Samples(samples) => SamplesFit(samples)
    }

    /** write_length. */
    ghost function WriteLength(): nat {
      match this
      case Fixed(bits) => |bits|
      case Vector(size, items) => 4 + |items| * size
      case Text(text) => WriteStringLength(|text|)
      case Samples(samples) => 4 + |samples| * INDEX_SIZE + WriteStringLength(|Texts(samples)|)
    }
  }

  /** What a reader is asked for. */
  datatype Shape = FixedShape(size: nat) | VectorShape(size: nat) | TextShape | SamplesShape

  function ShapeOf(v: Value): Shape {
    match v
    case Fixed(bits) => FixedShape(|bits|)
    case Vector(size, _) => VectorShape(size)
    case Text(_) => TextShape
    case Samples(_) => SamplesShape
  }

  ghost function Encode(v: Value, pad: bytes): bytes
    requires |pad| == 4
  {
    match v
    case Fixed(bits) => bits
    case Vector(size, items) => EncodeVector(items, size)
    case Text(text) => EncodeText(text)
    case Samples(samples) => EncodeSamples(samples, pad)
  }

  ghost function Decode(shape: Shape, rest: bytes): (r: Parsed<Value>)
    requires shape.VectorShape? ==> shape.size > 0
    ensures r.Done? ==> r.used <= |rest|
  {
    match shape
    case FixedShape(size) => if size > |rest| then Fail else Done(Fixed(rest[..size]), size)
    case VectorShape(size) =>
      (match DecodeVector(rest, size) case Fail => Fail case Done(items, used) => Done(Vector(size, items), used))
    case TextShape => (match DecodeText(rest) case Fail => Fail case Done(text, used) => Done(Text(text), used))
    case SamplesShape =>
      (match DecodeSamples(rest) case Fail => Fail case Done(samples, used) => Done(Samples(samples), used))
  }

  /** A value takes exactly its write length, and is read back if and only if it fits. */
  lemma ValueRoundTrip(v: Value, pad: bytes, tail: bytes)
    requires v.Valid() && |pad| == 4
    ensures |Encode(v, pad)| == v.WriteLength()
    ensures v.Fits() <==> Decode(ShapeOf(v), Encode(v, pad) + tail) == Done(v, v.WriteLength())
  {
    match v
    case Fixed(bits) => assert (bits + tail)[..|bits|] == bits;
    case Vector(size, items) => VectorRoundTrip(items, size, tail);
    case Text(text) => TextRoundTrip(text, tail);
    case Samples(samples) => SamplesRoundTrip(samples, pad, tail);
  }

  ghost function EncodeAll(vs: seq<Value>, pad: bytes): bytes
    requires |pad| == 4
    decreases |vs|
  {
    if vs == [] then [] else Encode(vs[0], pad) + EncodeAll(vs[1..], pad)
  }

  ghost function WriteLengths(vs: seq<Value>): nat
    decreases |vs|
  {
    if vs == [] then 0 else vs[0].WriteLength() + WriteLengths(vs[1..])
  }

  ghost predicate AllReadable(shapes: seq<Shape>) {
    forall s | s in shapes :: s.VectorShape? ==> s.size > 0
  }

  ghost function DecodeAll(shapes: seq<Shape>, rest: bytes): (r: Parsed<seq<Value>>)
    requires AllReadable(shapes)
    decreases |shapes|
  {
    if shapes == [] then Done([], 0)
    else
      match Decode(shapes[0], rest)
      case Fail => Fail
      case Done(v, used) =>
        match DecodeAll(shapes[1..], rest[used..])
        case Fail => Fail
        case Done(vs, more) => Done([v] + vs, used + more)
  }

  function Shapes(vs: seq<Value>): (shapes: seq<Shape>)
    ensures |shapes| == |vs|
  {
    seq(|vs|, i requires 0 <= i < |vs| => ShapeOf(vs[i]))
  }

  /** Any sequence of values fills exactly the sum of its write lengths and is read back equal, in order, to the end. */
  lemma {:induction false} AllRoundTrip(vs: seq<Value>, pad: bytes)
    requires |pad| == 4 && forall v | v in vs :: v.Valid() && v.Fits()
    ensures |EncodeAll(vs, pad)| == WriteLengths(vs)
    ensures AllReadable(Shapes(vs)) && DecodeAll(Shapes(vs), EncodeAll(vs, pad)) == Done(vs, WriteLengths(vs))
    decreases |vs|
  {
    ShapesReadable(vs);
    if vs != [] {
      AllRoundTrip(vs[1..], pad);
      var e, rest := Encode(vs[0], pad), EncodeAll(vs[1..], pad);
      ValueRoundTrip(vs[0], pad, rest);
      assert (e + rest)[|e|..] == rest;
      assert Shapes(vs)[1..] == Shapes(vs[1..]);
      assert [vs[0]] + vs[1..] == vs;
    }
  }

  lemma ShapesReadable(vs: seq<Value>)
    requires forall v | v in vs :: v.Valid()
    ensures AllReadable(Shapes(vs))
  {
    forall s | s in Shapes(vs) ensures s.VectorShape? ==> s.size > 0 {
      var i :| 0 <= i < |vs| && s == Shapes(vs)[i];
      assert vs[i].Valid();
    }
  }
}
