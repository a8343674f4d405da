/** The writer and the reader of BinaryIO: a pointer that moves through a buffer of bytes. */
module BinaryIO {
  import Arith
  import opened Codec

  /** decompose_string_samples. */
  method DecomposeSamples(samples: seq<Sample>) returns (indexes: seq<Index>, text: bytes)
    ensures indexes == Decompose(samples) && text == Texts(samples)
  {
    indexes := [];
    var index := 0;
    for i := 0 to |samples|
      invariant index == |TextsBefore(samples, i)| % WORD
      invariant indexes == Decompose(samples)[..i]
    {
      indexes := indexes + [Index(samples[i].time, index, samples[i].weight, samples[i].stddev)];
      AddMod(|TextsBefore(samples, i)|, |samples[i].value|);
      index := (index + |samples[i].value|) % WORD;
    }
    text := [];
    for i := 0 to |samples|
      invariant text == TextsBefore(samples, i)
    {
      text := text + samples[i].value;
    }
  }

  lemma AddMod(a: nat, b: nat)
    ensures (a % WORD + b) % WORD == (a + b) % WORD
  {
    Arith.DivModUnique(a + b, WORD, a / WORD + (a % WORD + b) / WORD, (a % WORD + b) % WORD);
  }

  /** compose_string_samples; not ok when an index lies past the text, which makes substr throw. */
  method ComposeSamples(indexes: seq<Index>, text: bytes) returns (ok: bool, samples: seq<Sample>)
    ensures ok <==> Composable(indexes, text)
    ensures ok ==> samples == Compose(indexes, text)
  {
    samples := [];
    for i := 0 to |indexes|
      invariant Composable(indexes[..i], text)
      invariant |samples| == i
      invariant forall j {:trigger samples[j]} | 0 <= j < i ::
                  && indexes[j].value <= |text|
                  && samples[j] == Sample(indexes[j].time, Piece(text, indexes[j].value, EndOf(indexes, text, j)),
                                          indexes[j].weight, indexes[j].stddev)
    {
      var begin := indexes[i].value;
      if begin > |text| {
        return false, [];
      }
      samples := samples + [Sample(indexes[i].time, Piece(text, begin, EndOf(indexes, text, i)),
                                   indexes[i].weight, indexes[i].stddev)];
    }
    assert indexes[..|indexes|] == indexes;
    ok := true;
  }

  /** A buffer after b was written at a position. */
  ghost function Written(before: bytes, at: nat, b: bytes): (after: bytes)
    requires at + |b| <= |before|
    ensures |after| == |before|
  {
    before[..at] + b + before[at + |b|..]
  }

  lemma WrittenTwice(before: bytes, at: nat, a: bytes, b: bytes)
    requires at + |a| + |b| <= |before|
    ensures Written(Written(before, at, a), at + |a|, b) == Written(before, at, a + b)
  {
    var once := Written(before, at, a);
    assert once[..at + |a|] == before[..at] + a;
    assert once[at + |a| + |b|..] == before[at + |a| + |b|..];
  }

  /**
   What a write of b at a position does: not ok means a bounds assertion failed, which ends the
   program; otherwise the pointer is past the bytes and they are all that changed.
   */
  ghost predicate Wrote(ok: bool, b: bytes, end: nat, before: bytes, at: nat, after: bytes, ptr: nat)
    requires end <= |before|
  {
    (ok <==> at + |b| <= end) && (ok ==> ptr == at + |b| && after == Written(before, at, b))
  }

  lemma WroteBoth(a: bytes, b: bytes, end: nat, before: bytes, at: nat, mid: bytes, after: bytes, ptr: nat, ok: bool)
    requires end <= |before| == |mid|
    requires Wrote(true, a, end, before, at, mid, at + |a|) && Wrote(ok, b, end, mid, at + |a|, after, ptr)
    ensures Wrote(ok, a + b, end, before, at, after, ptr)
  {
    if ok {
      WrittenTwice(before, at, a, b);
    }
  }

  /** Values written one after another into a buffer of exactly their write lengths fill it, and nothing fails. */
  lemma BufferFilled(vs: seq<Value>, pad: bytes, before: bytes, after: bytes, ptr: nat, ok: bool)
    requires |pad| == 4 && forall v | v in vs :: v.Valid() && v.Fits()
    requires |before| == WriteLengths(vs)
    requires Wrote(ok, EncodeAll(vs, pad), |before|, before, 0, after, ptr)
    ensures ok && ptr == |before|
    ensures AllReadable(Shapes(vs)) && DecodeAll(Shapes(vs), after) == Done(vs, |after|)
  {
    AllRoundTrip(vs, pad);
    WholeWritten(ok, EncodeAll(vs, pad), before, after, ptr);
  }

  lemma WholeWritten(ok: bool, b: bytes, before: bytes, after: bytes, ptr: nat)
    requires |b| == |before| && Wrote(ok, b, |before|, before, 0, after, ptr)
    ensures ok && ptr == |before| && after == b
  {
  }

  lemma FailedAlready(part: bytes, whole: bytes, end: nat, before: bytes, at: nat, after: bytes, ptr: nat)
    requires end <= |before| && |part| <= |whole| && Wrote(false, part, end, before, at, after, ptr)
    ensures Wrote(false, whole, end, before, at, after, ptr)
  {
  }

  class BinaryWriter {
    const buf: array<byte>
    const end: nat
    var ptr: nat

    ghost predicate Valid()
      reads `ptr
    {
      ptr <= end <= buf.Length
    }

    constructor (buf: array<byte>, start: nat, end: nat)
      requires start <= end <= buf.Length
      ensures Valid() && this.buf == buf && this.end == end && ptr == start
    {
      this.buf, this.end, ptr := buf, end, start;
    }

    predicate Eof()
      reads `ptr
    {
      ptr >= end
    }

    method WriteBytes(b: bytes) returns (ok: bool)
      requires Valid()
      modifies `ptr, buf
      ensures Valid() && Wrote(ok, b, end, old(buf[..]), old(ptr), buf[..], ptr)
    {
      if ptr + |b| > end {
        return false;
      }
      forall i | 0 <= i < |b| {
        buf[ptr + i] := b[i];
      }
      assert buf[..] == Written(old(buf[..]), ptr, b);
      ptr := ptr + |b|;
      ok := true;
    }

    method WriteZeros(len: nat) returns (ok: bool)
      requires Valid()
      modifies `ptr, buf
      ensures Valid() && Wrote(ok, Zeros(len), end, old(buf[..]), old(ptr), buf[..], ptr)
    {
      ok := WriteBytes(Zeros(len));
    }

    /** write_length of a vector: four bytes and the sizes of the values. */
    static method WriteLengthOfVector(items: seq<bytes>, size: nat) returns (ret: nat)
      requires AllOfSize(items, size)
      ensures ret == Vector(size, items).WriteLength()
    {
      ret := 4;
      for i := 0 to |items|
        invariant ret == 4 + |FlattenTo(items, i)|
      {
        ret := ret + |items[i]|;
      }
      FlattenLength(items, |items|, size);
    }

    /** write_length of samples, found by taking them apart. */
    static method WriteLengthOfSamples(samples: seq<Sample>, pad: bytes) returns (ret: nat)
      requires AllValid(samples) && |pad| == 4
      ensures ret == Samples(samples).WriteLength()
    {
      var indexes, text := DecomposeSamples(samples);
      IndexesRoundTrip(samples, pad);
      ret := WriteLengthOfVector(IndexItems(indexes, pad), INDEX_SIZE);
      ret := ret + WriteStringLength(|text|);
    }

    /** A value of fixed size, given as its bytes. */
    method Write(v: bytes) returns (ok: bool)
      requires Valid()
      modifies `ptr, buf
      ensures Valid() && Wrote(ok, v, end, old(buf[..]), old(ptr), buf[..], ptr)
    {
      ok := WriteBytes(v);
    }

    /** A value that follows a part already written. */
    method WriteNext(v: bytes, ghost before: bytes, ghost at: nat, ghost part: bytes) returns (ok: bool)
      requires Valid() && ptr == at + |part| && |before| == buf.Length
      requires Wrote(true, part, end, before, at, buf[..], ptr)
      modifies `ptr, buf
      ensures Valid() && Wrote(ok, part + v, end, before, at, buf[..], ptr)
    {
      ghost var mid := buf[..];
      ok := Write(v);
      WroteBoth(part, v, end, before, at, mid, buf[..], ptr, ok);
    }

    /** The values of a vector, which follow its length. */
    method WriteItems(items: seq<bytes>, ghost before: bytes, ghost at: nat, ghost head: bytes) returns (ok: bool)
      requires Valid() && ptr == at + |head| && |before| == buf.Length
      requires Wrote(true, head, end, before, at, buf[..], ptr)
      modifies `ptr, buf
      ensures Valid() && Wrote(ok, head + FlattenTo(items, |items|), end, before, at, buf[..], ptr)
    {
      ghost var part := head;
      assert part == head + FlattenTo(items, 0);
      for i := 0 to |items|
        invariant Valid() && ptr == at + |part|
        invariant part == head + FlattenTo(items, i)
        invariant Wrote(true, part, end, before, at, buf[..], ptr)
      {
        ok := WriteNext(items[i], before, at, part);
        PartNext(head, items, i);
        part := part + items[i];
        if !ok {
          FlattenGrows(items, i + 1, |items|);
          FailedAlready(part, head + FlattenTo(items, |items|), end, before, at, buf[..], ptr);
          return;
        }
      }
      ok := true;
    }

    /** A vector of values of fixed size. */
    method WriteVector(items: seq<bytes>, size: nat) returns (ok: bool)
      requires Valid() && AllOfSize(items, size)
      modifies `ptr, buf
      ensures Valid() && Wrote(ok, EncodeVector(items, size), end, old(buf[..]), old(ptr), buf[..], ptr)
    {
      var head := Word(|items| * size);
      ok := Write(head);
      if ok {
        ok := WriteItems(items, old(buf[..]), old(ptr), head);
      } else {
        FailedAlready(head, EncodeVector(items, size), end, old(buf[..]), old(ptr), buf[..], ptr);
      }
    }

    /** A string: its length, its characters, and zeros up to a multiple of four. */
    method WriteText(text: bytes) returns (ok: bool)
      requires Valid()
      modifies `ptr, buf
      ensures Valid() && Wrote(ok, EncodeText(text), end, old(buf[..]), old(ptr), buf[..], ptr)
    {
      var endptr := ptr + WriteStringLength(|text|);
      var head := Word(|text|);
      ghost var before, at := buf[..], ptr;
      ok := Write(head);
      if !ok {
        return;
      }
      ghost var mid := buf[..];
      ok := WriteBytes(text);
      WroteBoth(head, text, end, before, at, mid, buf[..], ptr, ok);
      if !ok {
        return;
      }
      mid := buf[..];
      var rest := endptr - ptr;
      ok := WriteZeros(rest);
      WroteBoth(head + text, Zeros(rest), end, before, at, mid, buf[..], ptr, ok);
    }

    /** Samples: a vector of indexes, and a string with all the texts. */
    method WriteSamples(samples: seq<Sample>, pad: bytes) returns (ok: bool)
      requires Valid() && AllValid(samples) && |pad| == 4
      modifies `ptr, buf
      ensures Valid() && Wrote(ok, EncodeSamples(samples, pad), end, old(buf[..]), old(ptr), buf[..], ptr)
    {
      ghost var before, at := buf[..], ptr;
      var indexes, text := DecomposeSamples(samples);
      IndexesRoundTrip(samples, pad);
      ok := WriteVector(IndexItems(indexes, pad), INDEX_SIZE);
      if !ok {
        return;
      }
      ghost var mid := buf[..];
      ok := WriteText(text);
      WroteBoth(EncodeVector(IndexItems(indexes, pad), INDEX_SIZE), EncodeText(text), end, before, at, mid, buf[..],
        ptr, ok);
    }
  }

  lemma PartNext(head: bytes, items: seq<bytes>, i: nat)
    requires i < |items|
    ensures head + FlattenTo(items, i) + items[i] == head + FlattenTo(items, i + 1)
  {
    assert head + FlattenTo(items, i) + items[i] == head + (FlattenTo(items, i) + items[i]);
  }

  lemma {:induction false} FlattenGrows(items: seq<bytes>, m: nat, n: nat)
    requires m <= n <= |items|
    ensures |FlattenTo(items, m)| <= |FlattenTo(items, n)|
    decreases n
  {
    if m < n {
      FlattenGrows(items, m, n - 1);
    }
  }

  class BinaryReader {
    const buf: array<byte>
    const end: nat
    var ptr: nat

    ghost predicate Valid()
      reads `ptr
    {
      ptr <= end <= buf.Length
    }

    /** What is still to be read. */
    ghost function Rest(): bytes
      requires Valid()
      reads `ptr, buf
    {
      buf[ptr..end]
    }

    constructor (buf: array<byte>, start: nat, end: nat)
      requires start <= end <= buf.Length
      ensures Valid() && this.buf == buf && this.end == end && ptr == start
    {
      this.buf, this.end, ptr := buf, end, start;
    }

    predicate Eof()
      reads `ptr
    {
      ptr >= end
    }

    method ReadBytes(len: nat) returns (ok: bool, b: bytes)
      requires Valid()
      modifies `ptr
      ensures Valid() && (ok <==> len <= |old(Rest())|)
      ensures ptr == old(ptr) + if ok then len else 0
      ensures ok ==> b == old(Rest())[..len]
    {
      if ptr + len > end {
        return false, [];
      }
      b := buf[ptr..ptr + len];
      ptr := ptr + len;
      ok := true;
    }

    method SkipBytes(len: nat) returns (ok: bool)
      requires Valid()
      modifies `ptr
      ensures Valid() && (ok <==> len <= |old(Rest())|)
      ensures ptr == old(ptr) + if ok then len else 0
    {
      if ptr + len > end {
        return false;
      }
      ptr := ptr + len;
      ok := true;
    }

    /** A value of fixed size, as its bytes. */
    method Read(size: nat) returns (ok: bool, v: bytes)
      requires Valid()
      modifies `ptr
      ensures Valid() && (ok <==> size <= |old(Rest())|)
      ensures ptr == old(ptr) + if ok then size else 0
      ensures ok ==> v == old(Rest())[..size]
    {
      ok, v := ReadBytes(size);
    }

    /** The values of a vector, one after another. */
    method ReadItems(n: nat, size: nat) returns (ok: bool, items: seq<bytes>)
      requires Valid() && size > 0
      modifies `ptr
      ensures Valid() && (ok <==> Times(n, size) <= |old(Rest())|)
      ensures ptr >= old(ptr) && (ok ==> ptr == old(ptr) + Times(n, size))
      ensures ok ==> items == Chunks(old(Rest())[..Times(n, size)], size)
    {
      ghost var data, at := Rest(), ptr;
      items := [];
      for i := 0 to n
        invariant Valid() && ptr == at + Times(i, size) <= at + |data|
        invariant items == Chunks(data[..Times(i, size)], size)
      {
        ghost var k := Times(i, size);
        var item;
        assert Times(i + 1, size) == k + size;
        ok, item := Read(size);
        if !ok {
          TimesGrows(i + 1, n, size);
          return;
        }
        ChunksNext(data, k, size);
        assert item == data[k..k + size];
        items := items + [item];
      }
      ok := true;
    }

    /** A vector of values of fixed size. */
    method ReadVector(size: nat) returns (ok: bool, items: seq<bytes>)
      requires Valid() && size > 0
      modifies `ptr
      ensures Valid() && ptr >= old(ptr) && (ok <==> DecodeVector(old(Rest()), size).Done?)
      ensures ok ==> DecodeVector(old(Rest()), size) == Done(items, ptr - old(ptr))
    {
      ghost var rest, at := Rest(), ptr;
      items := [];
      var word;
      ok, word := Read(4);
      if !ok {
        return;
      }
      var len := WordOf(word);
      if len % size != 0 {
        return false, items;
      }
      var n := len / size;
      DivExact(len, size);
      TimesIsProduct(n, size);
      assert Rest() == rest[4..];
      ok, items := ReadItems(n, size);
      assert len <= |rest[4..]| ==> rest[4..4 + len] == rest[4..][..len];
    }

    /** A string; the padding is skipped. */
    method ReadText() returns (ok: bool, text: bytes)
      requires Valid()
      modifies `ptr
      ensures Valid() && ptr >= old(ptr) && (ok <==> DecodeText(old(Rest())).Done?)
      ensures ok ==> DecodeText(old(Rest())) == Done(text, ptr - old(ptr))
    {
      var startptr := ptr;
      ghost var rest := Rest();
      var word;
      text := [];
      ok, word := Read(4);
      if !ok {
        return;
      }
      var len := WordOf(word);
      var endptr := startptr + WriteStringLength(len);
      assert Rest() == rest[4..];
      ok, text := ReadBytes(len);
      if !ok {
        return;
      }
      assert text == rest[4..4 + len];
      ok := SkipBytes(endptr - ptr);
    }

    /** Samples: the indexes, the texts, and what they make. */
    method ReadSamples() returns (ok: bool, samples: seq<Sample>)
      requires Valid()
      modifies `ptr
      ensures Valid() && ptr >= old(ptr) && (ok <==> DecodeSamples(old(Rest())).Done?)
      ensures ok ==> DecodeSamples(old(Rest())) == Done(samples, ptr - old(ptr))
    {
      samples := [];
      ghost var rest, at := Rest(), ptr;
      var items, text;
      ok, items := ReadVector(INDEX_SIZE);
      if !ok {
        return;
      }
      assert Rest() == rest[ptr - at..];
      ok, text := ReadText();
      if !ok {
        return;
      }
      ok, samples := ComposeSamples(IndexesOf(items), text);
    }
  }

  lemma DivExact(len: nat, size: nat)
    requires size > 0 && len % size == 0
    ensures len / size * size == len
  {
  }

  /** n times size, counted up. */
  ghost function Times(n: nat, size: nat): nat {
    if n == 0 then 0 else Times(n - 1, size) + size
  }

  lemma {:induction false} TimesIsProduct(n: nat, size: nat)
    ensures Times(n, size) == n * size
  {
    if n > 0 {
      TimesIsProduct(n - 1, size);
    }
  }

  lemma {:induction false} TimesGrows(m: nat, n: nat, size: nat)
    requires m <= n
    ensures Times(m, size) <= Times(n, size)
    decreases n
  {
    if m < n {
      TimesGrows(m, n - 1, size);
    }
  }

  lemma ChunksNext(data: bytes, k: nat, size: nat)
    requires size > 0 && k + size <= |data|
    ensures Chunks(data[..k + size], size) == Chunks(data[..k], size) + [data[k..k + size]]
  {
    var b := data[..k + size];
    assert b[..|b| - size] == data[..k] && b[|b| - size..] == data[k..k + size];
  }
}
