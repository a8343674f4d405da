/** Any sequence of values through the writer and the reader of BinaryIO. */
module Streams {
  import opened Codec
  import opened BinaryIO

  /** The overloads of BinaryWriter::write. */
  method WriteValue(w: BinaryWriter, v: Value, pad: bytes) returns (ok: bool)
    requires w.Valid() && v.Valid() && |pad| == 4
    modifies w`ptr, w.buf
    ensures w.Valid() && Wrote(ok, Encode(v, pad), w.end, old(w.buf[..]), old(w.ptr), w.buf[..], w.ptr)
  {
    match v
    case Fixed(bits) => ok := w.Write(bits);
    case Vector(size, items) => ok := w.WriteVector(items, size);
    case Text(text) => ok := w.WriteText(text);
    case Samples(samples) => ok := w.WriteSamples(samples, pad);
  }

  /** One write after another; it fails if and only if the values do not fit. */
  method WriteAll(w: BinaryWriter, vs: seq<Value>, pad: bytes) returns (ok: bool)
    requires w.Valid() && (forall v | v in vs :: v.Valid()) && |pad| == 4
    modifies w`ptr, w.buf
    ensures w.Valid() && Wrote(ok, EncodeAll(vs, pad), w.end, old(w.buf[..]), old(w.ptr), w.buf[..], w.ptr)
    decreases |vs|
  {
    if vs == [] {
      ok := true;
      assert w.buf[..] == Written(w.buf[..], w.ptr, []);
    } else {
      ghost var before, at := w.buf[..], w.ptr;
      ok := WriteValue(w, vs[0], pad);
      ghost var mid := w.buf[..];
      if ok {
        ok := WriteAll(w, vs[1..], pad);
        WroteBoth(Encode(vs[0], pad), EncodeAll(vs[1..], pad), w.end, before, at, mid, w.buf[..], w.ptr, ok);
      } else {
        FailedAlready(Encode(vs[0], pad), EncodeAll(vs, pad), w.end, before, at, w.buf[..], w.ptr);
      }
    }
  }

  /** The overloads of BinaryReader::read. */
  method ReadValue(r: BinaryReader, shape: Shape) returns (ok: bool, v: Value)
    requires r.Valid() && (shape.VectorShape? ==> shape.size > 0)
    modifies r`ptr
    ensures r.Valid() && r.ptr >= old(r.ptr) && (ok <==> Decode(shape, old(r.Rest())).Done?)
    ensures ok ==> Decode(shape, old(r.Rest())) == Done(v, r.ptr - old(r.ptr))
  {
    match shape {
      case FixedShape(size) =>
        var bits;
        ok, bits := r.Read(size);
        v := Fixed(bits);
      case VectorShape(size) =>
        var items;
        ok, items := r.ReadVector(size);
        v := Vector(size, items);
      case TextShape =>
        var text;
        ok, text := r.ReadText();
        v := Text(text);
      case SamplesShape =>
        var samples;
        ok, samples := r.ReadSamples();
        v := Samples(samples);
    }
  }

  /** One read after another. */
  method ReadAll(r: BinaryReader, shapes: seq<Shape>) returns (ok: bool, vs: seq<Value>)
    requires r.Valid() && AllReadable(shapes)
    modifies r`ptr
    ensures r.Valid() && r.ptr >= old(r.ptr) && (ok <==> DecodeAll(shapes, old(r.Rest())).Done?)
    ensures ok ==> DecodeAll(shapes, old(r.Rest())) == Done(vs, r.ptr - old(r.ptr))
    decreases |shapes|
  {
    ok, vs := true, [];
    if shapes != [] {
      ghost var rest, at := r.Rest(), r.ptr;
      var v;
      ok, v := ReadValue(r, shapes[0]);
      if ok {
        ghost var used := r.ptr - at;
        assert r.Rest() == rest[used..];
        ok, vs := ReadAll(r, shapes[1..]);
        assert DecodeAll(shapes, rest) == Joined(v, used, DecodeAll(shapes[1..], rest[used..])) by {
          DecodeAllNext(shapes, rest, v, used);
        }
        vs := [v] + vs;
      }
    }
  }

  ghost function Joined(v: Value, used: nat, more: Parsed<seq<Value>>): Parsed<seq<Value>> {
    match more
    case Fail => Fail
    case Done(vs, n) => Done([v] + vs, used + n)
  }

  lemma DecodeAllNext(shapes: seq<Shape>, rest: bytes, v: Value, used: nat)
    requires AllReadable(shapes) && shapes != [] && Decode(shapes[0], rest) == Done(v, used)
    ensures DecodeAll(shapes, rest) == Joined(v, used, DecodeAll(shapes[1..], rest[used..]))
  {
  }

  /** The sum of the write lengths. */
  method TotalLength(vs: seq<Value>, pad: bytes) returns (length: nat)
    requires (forall v | v in vs :: v.Valid()) && |pad| == 4
    ensures length == WriteLengths(vs)
    decreases |vs|
  {
    length := 0;
    if vs != [] {
      assert vs[0].Valid();
      var first;
      match vs[0] {
        case Fixed(bits) => first := |bits|;
        case Vector(size, items) => first := BinaryWriter.WriteLengthOfVector(items, size);
        case Text(text) => first := WriteStringLength(|text|);
        case Samples(samples) => first := BinaryWriter.WriteLengthOfSamples(samples, pad);
      }
      length := TotalLength(vs[1..], pad);
      length := first + length;
    }
  }

  /**
   Values that fit, written into a buffer of exactly the sum of their write lengths and read back:
   no assertion fires, writer and reader end at eof, and the values come back equal and in order.
   */
  method WriteThenRead(vs: seq<Value>, pad: bytes)
    returns (w: BinaryWriter, r: BinaryReader, wrote: bool, read: bool, out: seq<Value>)
    requires (forall v | v in vs :: v.Valid() && v.Fits()) && |pad| == 4
    ensures wrote && w.Eof() && w.buf.Length == WriteLengths(vs)
    ensures read && r.Eof() && r.buf == w.buf && out == vs
  {
    var length := TotalLength(vs, pad);
    var buf := new byte[length];
    ghost var before := buf[..];
    w := new BinaryWriter(buf, 0, length);
    wrote := WriteAll(w, vs, pad);
    BufferFilled(vs, pad, before, buf[..], w.ptr, wrote);
    r := new BinaryReader(buf, 0, length);
    assert r.Rest() == buf[..];
    read, out := ReadAll(r, Shapes(vs));
  }
}
