/** How a tile is written to and read from its binary form (Tile.cpp), with the writer and reader of BinaryIO. */
module Tiles {
  import opened Codec
  import opened BinaryIO
  import opened Wrappers

  const MAGIC := 0x6954_7442
  const VERSION := 0x0001_0000
  const HEADER_SIZE := 8
  const DOUBLE_SAMPLE_SIZE := 24
  const RANGES_SIZE := 32

  /** The fields of a tile; header, samples of doubles and ranges are structs of fixed size, given as bytes. */
  datatype Content = Content(header: bytes, doubles: seq<bytes>, strings: seq<Sample>, ranges: bytes) {
    ghost predicate Valid() {
      && |header| == HEADER_SIZE && AllOfSize(doubles, DOUBLE_SAMPLE_SIZE)
      && AllValid(strings) && |ranges| == RANGES_SIZE
    }

    ghost predicate Fits() {
      |doubles| * DOUBLE_SAMPLE_SIZE < WORD && SamplesFit(strings)
    }

    /** binary_length. */
    ghost function BinaryLength(): nat {
      |header| + (4 + |doubles| * DOUBLE_SAMPLE_SIZE) + Samples(strings).WriteLength() + |ranges|
    }
  }

  ghost function EncodeTile(c: Content, pad: bytes): bytes
    requires |pad| == 4
  {
    c.header + EncodeVector(c.doubles, DOUBLE_SAMPLE_SIZE) + EncodeSamples(c.strings, pad) + c.ranges
  }

  /** from_binary: what an older tile does not have is cleared. */
  ghost function DecodeTile(src: bytes, cleared: bytes): (r: Option<Content>) {
    if |src| < HEADER_SIZE then None
    else
      var rest := src[HEADER_SIZE..];
      var d := DecodeVector(rest, DOUBLE_SAMPLE_SIZE);
      if d.Fail? then None else DecodeTail(src[..HEADER_SIZE], d.value, rest[d.used..], cleared)
  }

  ghost function DecodeTail(header: bytes, doubles: seq<bytes>, rest: bytes, cleared: bytes): (r: Option<Content>)
    ensures r.Some? ==> r.value.header == header && r.value.doubles == doubles
  {
    if rest == [] then Some(Content(header, doubles, [], cleared))
    else
      var s := DecodeSamples(rest);
      if s.Fail? then None
      else if s.used == |rest| then Some(Content(header, doubles, s.value, cleared))
      else if |rest| - s.used < RANGES_SIZE then None
      else Some(Content(header, doubles, s.value, rest[s.used..][..RANGES_SIZE]))
  }

  /** A tile is read back from its binary form if and only if its samples fit in 32-bit lengths. */
  lemma TileRoundTrip(c: Content, pad: bytes, cleared: bytes)
    requires c.Valid() && |pad| == 4
    ensures |EncodeTile(c, pad)| == c.BinaryLength()
    ensures DecodeTile(EncodeTile(c, pad), cleared) == Some(c) <==> c.Fits()
  {
    var v, s := EncodeVector(c.doubles, DOUBLE_SAMPLE_SIZE), EncodeSamples(c.strings, pad);
    assert EncodeTile(c, pad) == c.header + (v + (s + c.ranges));
    DecodeStart(c.header, v, s + c.ranges, cleared);
    VectorRoundTrip(c.doubles, DOUBLE_SAMPLE_SIZE, s + c.ranges);
    assert |s| == Samples(c.strings).WriteLength() by {
      SamplesRoundTrip(c.strings, pad, []);
    }
    if |c.doubles| * DOUBLE_SAMPLE_SIZE < WORD {
      TailRoundTrip(c, pad, cleared);
    }
  }

  lemma DecodeStart(header: bytes, v: bytes, rest: bytes, cleared: bytes)
    requires |header| == HEADER_SIZE
    ensures var d := DecodeVector(v + rest, DOUBLE_SAMPLE_SIZE);
            && DecodeTile(header + (v + rest), cleared) ==
               (if d.Fail? then None else DecodeTail(header, d.value, (v + rest)[d.used..], cleared))
            && (v + rest)[|v|..] == rest
  {
    HeaderApart(header, v, rest);
  }

  lemma HeaderApart(header: bytes, v: bytes, rest: bytes)
    ensures (header + (v + rest))[..|header|] == header
    ensures (header + (v + rest))[|header|..] == v + rest && (v + rest)[|v|..] == rest
  {
  }

  lemma TailRoundTrip(c: Content, pad: bytes, cleared: bytes)
    requires c.Valid() && |pad| == 4
    ensures DecodeTail(c.header, c.doubles, EncodeSamples(c.strings, pad) + c.ranges, cleared) == Some(c) <==>
            SamplesFit(c.strings)
  {
    var s := EncodeSamples(c.strings, pad);
    SamplesRoundTrip(c.strings, pad, c.ranges);
    assert (s + c.ranges)[|s|..] == c.ranges && c.ranges[..RANGES_SIZE] == c.ranges;
  }

  /** Tiles that were written before there were text samples, or ranges, can be read as well. */
  lemma OlderTiles(c: Content, pad: bytes, cleared: bytes)
    requires c.Valid() && c.Fits() && |pad| == 4
    ensures var start := c.header + EncodeVector(c.doubles, DOUBLE_SAMPLE_SIZE);
            && DecodeTile(start, cleared) == Some(c.(strings := [], ranges := cleared))
            && DecodeTile(start + EncodeSamples(c.strings, pad), cleared) == Some(c.(ranges := cleared))
  {
    var v, s := EncodeVector(c.doubles, DOUBLE_SAMPLE_SIZE), EncodeSamples(c.strings, pad);
    StartDecoded(c, [], cleared);
    StartDecoded(c, s, cleared);
    SamplesRoundTrip(c.strings, pad, []);
    Joined(c.header, v, s);
  }

  lemma Joined<T>(h: seq<T>, v: seq<T>, s: seq<T>)
    ensures h + (v + []) == h + v && h + (v + s) == (h + v) + s && s + [] == s
  {
  }

  /** The header and the doubles are read back whatever comes after them. */
  lemma StartDecoded(c: Content, rest: bytes, cleared: bytes)
    requires c.Valid() && c.Fits()
    ensures DecodeTile(c.header + (EncodeVector(c.doubles, DOUBLE_SAMPLE_SIZE) + rest), cleared) ==
            DecodeTail(c.header, c.doubles, rest, cleared)
  {
    DecodeStart(c.header, EncodeVector(c.doubles, DOUBLE_SAMPLE_SIZE), rest, cleared);
    VectorRoundTrip(c.doubles, DOUBLE_SAMPLE_SIZE, rest);
  }

  class Tile {
    var header: bytes
    var doubles: seq<bytes>
    var strings: seq<Sample>
    var ranges: bytes
    /** The bytes of ranges that cover nothing. */
    const cleared: bytes

    constructor (cleared: bytes)
      ensures Contents() == Content(Word(MAGIC) + Word(VERSION), [], [], cleared) && this.cleared == cleared
      ensures |cleared| == RANGES_SIZE ==> Contents().Valid()
      ensures header == [0x42, 0x74, 0x54, 0x69, 0, 0, 1, 0]
    {
      header, this.cleared, ranges := Word(MAGIC) + Word(VERSION), cleared, cleared;
      doubles, strings := [], [];
    }

    ghost function Contents(): Content
      reads this
    {
      Content(header, doubles, strings, ranges)
    }

    method BinaryLength(pad: bytes) returns (n: nat)
      requires Contents().Valid() && |pad| == 4
      ensures n == Contents().BinaryLength()
    {
      var d := BinaryWriter.WriteLengthOfVector(doubles, DOUBLE_SAMPLE_SIZE);
      var s := BinaryWriter.WriteLengthOfSamples(strings, pad);
      n := |header| + d + s + |ranges|;
    }

    /** to_binary: no bounds assertion fires, and the buffer is filled. */
    method ToBinary(pad: bytes) returns (dest: array<byte>)
      requires Contents().Valid() && |pad| == 4
      ensures fresh(dest) && dest[..] == EncodeTile(Contents(), pad)
    {
      TileRoundTrip(Contents(), pad, cleared);
      var n := BinaryLength(pad);
      dest := new byte[n];
      ghost var before := dest[..];
      var writer := new BinaryWriter(dest, 0, n);
      var ok := writer.Write(header);
      ghost var part, mid := header, dest[..];
      ok := writer.WriteVector(doubles, DOUBLE_SAMPLE_SIZE);
      WroteBoth(part, EncodeVector(doubles, DOUBLE_SAMPLE_SIZE), n, before, 0, mid, dest[..], writer.ptr, ok);
      part, mid := part + EncodeVector(doubles, DOUBLE_SAMPLE_SIZE), dest[..];
      ok := writer.WriteSamples(strings, pad);
      WroteBoth(part, EncodeSamples(strings, pad), n, before, 0, mid, dest[..], writer.ptr, ok);
      part, mid := part + EncodeSamples(strings, pad), dest[..];
      ok := writer.Write(ranges);
      WroteBoth(part, ranges, n, before, 0, mid, dest[..], writer.ptr, ok);
      WholeWritten(ok, EncodeTile(Contents(), pad), before, dest[..], writer.ptr);
    }

    /** from_binary; not ok is an assertion that fails. */
    method FromBinary(src: array<byte>) returns (ok: bool)
      modifies this
      ensures ok <==> DecodeTile(src[..], cleared).Some?
      ensures ok ==> Some(Contents()) == DecodeTile(src[..], cleared)
    {
      var reader := new BinaryReader(src, 0, src.Length);
      assert reader.Rest() == src[..];
      ok, header := reader.Read(HEADER_SIZE);
      if !ok {
        return;
      }
      ghost var rest := src[..][HEADER_SIZE..];
      assert reader.Rest() == rest;
      ok, doubles := reader.ReadVector(DOUBLE_SAMPLE_SIZE);
      if !ok {
        return;
      }
      ghost var d := DecodeVector(rest, DOUBLE_SAMPLE_SIZE);
      assert reader.Rest() == rest[d.used..];
      ok := ReadTail(reader);
    }

    method ReadTail(reader: BinaryReader) returns (ok: bool)
      requires reader.Valid()
      modifies this, reader
      ensures header == old(header) && doubles == old(doubles)
      ensures ok <==> DecodeTail(header, doubles, old(reader.Rest()), cleared).Some?
      ensures ok ==> Some(Contents()) == DecodeTail(header, doubles, old(reader.Rest()), cleared)
    {
      ghost var rest, at := reader.Rest(), reader.ptr;
      if !reader.Eof() {
        ok, strings := reader.ReadSamples();
        if !ok {
          return;
        }
        assert reader.Rest() == rest[reader.ptr - at..];
      } else {
        strings := [];
      }
      if !reader.Eof() {
        ok, ranges := reader.Read(RANGES_SIZE);
      } else {
        ok, ranges := true, cleared;
      }
    }
  }
}
