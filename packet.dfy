/** The update payload and its wire frame (src/packet.cpp, include/ircom/packet.h).
    A double is carried as its IEEE 754 binary64 bit pattern, so the codec is
    exact: no floating-point arithmetic is involved. */
module Packet {

  type Byte = bv8

  /** The 64-bit pattern of an IEEE 754 binary64 value. */
  type F64Bits = bv64

  /** packet::payload: position x, y and timestamp t. */
  datatype Payload = Payload(x: F64Bits, y: F64Bits, t: F64Bits)

  const F64_SIZE: nat := 8
  const PAYLOAD_SIZE: nat := 3 * F64_SIZE

  /** Byte i of the big-endian encoding of v, counting from the most significant
      byte: byte 7 is the low byte of v, and byte i of v is byte i + 1 of v >> 8. */
  function BigEndianByte(v: F64Bits, i: nat): Byte
    requires i < F64_SIZE
    decreases F64_SIZE - i
  {
    if i == F64_SIZE - 1 then (v & 0xFF) as Byte else BigEndianByte(v >> 8, i + 1)
  }

  /** boost::endian::big_float64_buf_t holding v: its eight bytes, most significant first. */
  function EncodeF64(v: F64Bits): (r: seq<Byte>)
    ensures r == [Shr(v, 56), Shr(v, 48), Shr(v, 40), Shr(v, 32), Shr(v, 24), Shr(v, 16), Shr(v, 8), Shr(v, 0)]
  {
    BigEndianBytes(v);
    seq(F64_SIZE, i requires 0 <= i < F64_SIZE => BigEndianByte(v, i))
  }

  /** The low byte of v shifted right by s bits. */
  function Shr(v: F64Bits, s: bv6): Byte
  {
    ((v >> s) & 0xFF) as Byte
  }

  /** The 64-bit value whose big-endian bytes are b0 .. b7. */
  function Combine(b0: Byte, b1: Byte, b2: Byte, b3: Byte, b4: Byte, b5: Byte, b6: Byte, b7: Byte): F64Bits
  {
    ((b0 as bv64) << 56) | ((b1 as bv64) << 48) | ((b2 as bv64) << 40) | ((b3 as bv64) << 32)
    | ((b4 as bv64) << 24) | ((b5 as bv64) << 16) | ((b6 as bv64) << 8) | (b7 as bv64)
  }

  /** big_float64_buf_t::value() on the eight bytes b[0..8]. */
  function DecodeF64(b: seq<Byte>): F64Bits
    requires |b| >= F64_SIZE
  {
    Combine(b[0], b[1], b[2], b[3], b[4], b[5], b[6], b[7])
  }

  lemma BigEndianBytes(v: F64Bits)
    ensures BigEndianByte(v, 0) == Shr(v, 56) && BigEndianByte(v, 1) == Shr(v, 48)
    ensures BigEndianByte(v, 2) == Shr(v, 40) && BigEndianByte(v, 3) == Shr(v, 32)
    ensures BigEndianByte(v, 4) == Shr(v, 24) && BigEndianByte(v, 5) == Shr(v, 16)
    ensures BigEndianByte(v, 6) == Shr(v, 8) && BigEndianByte(v, 7) == Shr(v, 0)
  {
  }

  lemma CombineBytes(v: F64Bits)
    ensures Combine(Shr(v, 56), Shr(v, 48), Shr(v, 40), Shr(v, 32), Shr(v, 24), Shr(v, 16), Shr(v, 8), Shr(v, 0)) == v
  {
  }

  lemma SplitCombined(b0: Byte, b1: Byte, b2: Byte, b3: Byte, b4: Byte, b5: Byte, b6: Byte, b7: Byte)
    ensures var v := Combine(b0, b1, b2, b3, b4, b5, b6, b7);
      && Shr(v, 56) == b0 && Shr(v, 48) == b1 && Shr(v, 40) == b2 && Shr(v, 32) == b3
      && Shr(v, 24) == b4 && Shr(v, 16) == b5 && Shr(v, 8) == b6 && Shr(v, 0) == b7
  {
  }

  /** Decoding an encoded value gives it back. */
  lemma {:induction false} DecodeEncodeF64(v: F64Bits)
    ensures DecodeF64(EncodeF64(v)) == v
  {
    CombineBytes(v);
  }

  /** Decoding reads exactly eight bytes, and encoding gives them back. */
  lemma {:induction false} EncodeDecodeF64(b: seq<Byte>)
    requires |b| >= F64_SIZE
    ensures EncodeF64(DecodeF64(b)) == b[..F64_SIZE]
  {
    SplitCombined(b[0], b[1], b[2], b[3], b[4], b[5], b[6], b[7]);
  }

  /** payload::serialize on an empty vector: x, then y, then t, 8 bytes each. */
  function Serialize(p: Payload): (r: seq<Byte>)
    ensures |r| == PAYLOAD_SIZE
  {
    EncodeF64(p.x) + EncodeF64(p.y) + EncodeF64(p.t)
  }

  /** Round trip: deserializing the 24 bytes serialize produced gives the same three bit patterns. */
  lemma {:induction false} DeserializeSerialize(p: Payload)
    ensures Deserialize(Serialize(p)) == p
  {
    var r := Serialize(p);
    assert r[..8] == EncodeF64(p.x) && r[8..16] == EncodeF64(p.y) && r[16..24] == EncodeF64(p.t);
    DecodeEncodeF64(p.x);
    DecodeEncodeF64(p.y);
    DecodeEncodeF64(p.t);
  }

  /** Byte 8n + i of the serialized payload is byte i of field n in big-endian order. */
  lemma SerializeLayout(p: Payload, n: nat, i: nat)
    requires n < 3 && i < F64_SIZE
    ensures Serialize(p)[8 * n + i] == BigEndianByte(Field(p, n), i)
  {
    var ex, ey, et := EncodeF64(p.x), EncodeF64(p.y), EncodeF64(p.t);
    ConcatIndex(ex, ey, et, 8 * n + i);
  }

  /** Indexing into the concatenation of three 8-byte blocks. */
  lemma ConcatIndex<T>(a: seq<T>, b: seq<T>, c: seq<T>, k: nat)
    requires |a| == |b| == |c| == 8 && k < 24
    ensures (a + b + c)[k] == if k < 8 then a[k] else if k < 16 then b[k - 8] else c[k - 16]
  {
  }

  /** The fields of a payload in wire order: x, y, t. */
  function Field(p: Payload, n: nat): F64Bits
    requires n < 3
  {
    if n == 0 then p.x else if n == 1 then p.y else p.t
  }

  /** payload::deserialize: x from bytes 0-7, y from 8-15, t from 16-23. */
  function Deserialize(b: seq<Byte>): Payload
    requires |b| >= PAYLOAD_SIZE
  {
    Payload(DecodeF64(b[..8]), DecodeF64(b[8..16]), DecodeF64(b[16..24]))
  }

  /** x is read from bytes 0-7, y from bytes 8-15 and t from bytes 16-23. */
  lemma {:induction false} DeserializeFields(b: seq<Byte>)
    requires |b| >= PAYLOAD_SIZE
    ensures var r := Deserialize(b);
      EncodeF64(r.x) == b[..8] && EncodeF64(r.y) == b[8..16] && EncodeF64(r.t) == b[16..24]
  {
    EncodeDecodeF64(b[..8]);
    EncodeDecodeF64(b[8..16]);
    EncodeDecodeF64(b[16..24]);
    assert b[..8][..8] == b[..8] && b[8..16][..8] == b[8..16] && b[16..24][..8] == b[16..24];
  }

  /** Deserializing reads only the first 24 bytes, and serializing the result gives them back. */
  lemma {:induction false} SerializeDeserialize(b: seq<Byte>)
    requires |b| >= PAYLOAD_SIZE
    ensures Serialize(Deserialize(b)) == b[..PAYLOAD_SIZE]
  {
    EncodeDecodeF64(b[..8]);
    EncodeDecodeF64(b[8..16]);
    EncodeDecodeF64(b[16..24]);
    assert b[..24] == b[..8] + b[8..16] + b[16..24];
  }

  /** Two byte strings that agree on their first 24 bytes deserialize alike. */
  lemma {:induction false} DeserializeReadsPrefix(a: seq<Byte>, b: seq<Byte>)
    requires |a| >= PAYLOAD_SIZE && |b| >= PAYLOAD_SIZE
    requires a[..PAYLOAD_SIZE] == b[..PAYLOAD_SIZE]
    ensures Deserialize(a) == Deserialize(b)
  {
    SliceOfCommonPrefix(a, b, PAYLOAD_SIZE, 0, 8);
    SliceOfCommonPrefix(a, b, PAYLOAD_SIZE, 8, 16);
    SliceOfCommonPrefix(a, b, PAYLOAD_SIZE, 16, 24);
  }

  /** payload::serialize(out): appends the 24 payload bytes to the caller's vector. */
  method AppendSerialized(p: Payload, out: seq<Byte>) returns (r: seq<Byte>)
    ensures |r| == |out| + PAYLOAD_SIZE
    ensures r[..|out|] == out
    ensures Deserialize(r[|out|..]) == p
  {
    r := out;
    r := r + EncodeF64(p.x);
    r := r + EncodeF64(p.y);
    r := r + EncodeF64(p.t);
    AppendedParts(out, EncodeF64(p.x), EncodeF64(p.y), EncodeF64(p.t));
    DeserializeSerialize(p);
  }

  /** payload::deserialize(in): reads x, y and t while advancing idx by 8. */
  method ReadPayload(inp: seq<Byte>) returns (p: Payload)
    requires |inp| >= PAYLOAD_SIZE
    ensures Serialize(p) == inp[..PAYLOAD_SIZE]
  {
    var idx := 0;
    var x := DecodeF64(inp[idx..idx + F64_SIZE]);
    idx := idx + F64_SIZE;
    var y := DecodeF64(inp[idx..idx + F64_SIZE]);
    idx := idx + F64_SIZE;
    var t := DecodeF64(inp[idx..idx + F64_SIZE]);
    idx := idx + F64_SIZE;
    p := Payload(x, y, t);
    SerializeDeserialize(inp);
  }

  // ---------------------------------------------------------------------------
  // Framing

  /** HEADER and FOOTER without their terminating NUL. */
  const HEADER: seq<Byte> := [0x69, 0x72, 0x63, 0x6F, 0x6D]
  const FOOTER: seq<Byte> := [0x65, 0x6E, 0x64]

  /** The marker bytes are the ASCII codes of "ircom" and "end". */
  lemma MarkersAreAscii()
    ensures |HEADER| == |"ircom"| && forall i :: 0 <= i < |HEADER| ==> HEADER[i] as int == "ircom"[i] as int
    ensures |FOOTER| == |"end"| && forall i :: 0 <= i < |FOOTER| ==> FOOTER[i] as int == "end"[i] as int
  {
  }

  const HEADER_SIZE: nat := 5
  const FOOTER_SIZE: nat := 3
  const FRAME_SIZE: nat := HEADER_SIZE + PAYLOAD_SIZE + FOOTER_SIZE

  /** The three buffers one flush iteration hands to a single async_write:
      HEADER, the serialized payload, FOOTER. */
  function Frame(p: Payload): (r: seq<Byte>)
    ensures |r| == FRAME_SIZE == 32
  {
    HEADER + Serialize(p) + FOOTER
  }

  /** A frame carries "ircom" in bytes 0-4, the payload in bytes 5-28 and "end"
      in bytes 29-31, and decoding it gives the payload back. */
  lemma {:induction false} FrameLayout(p: Payload)
    ensures Frame(p)[..HEADER_SIZE] == HEADER
    ensures Frame(p)[HEADER_SIZE..HEADER_SIZE + PAYLOAD_SIZE] == Serialize(p)
    ensures Frame(p)[HEADER_SIZE + PAYLOAD_SIZE..] == FOOTER
    ensures DecodeFrame(Frame(p)) == p
  {
    FrameParts(HEADER, Serialize(p), FOOTER);
    DeserializeReadsPrefix(Frame(p)[HEADER_SIZE..], Serialize(p));
    DeserializeSerialize(p);
  }

  /** handle_updates: the payload of a 32-byte frame is decoded from offset 5.
      Header and footer bytes are not looked at. */
  function DecodeFrame(f: seq<Byte>): Payload
    requires |f| == FRAME_SIZE
  {
    Deserialize(f[HEADER_SIZE..])
  }

  /** The payload read from a frame is the one whose serialization is bytes 5-28. */
  lemma {:induction false} DecodeFrameReadsPayload(f: seq<Byte>)
    requires |f| == FRAME_SIZE
    ensures Serialize(DecodeFrame(f)) == f[HEADER_SIZE..HEADER_SIZE + PAYLOAD_SIZE]
  {
    SerializeDeserialize(f[HEADER_SIZE..]);
    assert f[HEADER_SIZE..][..PAYLOAD_SIZE] == f[HEADER_SIZE..HEADER_SIZE + PAYLOAD_SIZE];
  }

  /** Frames that differ only in their header or footer bytes decode alike. */
  lemma {:induction false} DecodeFrameIgnoresMarkers(f: seq<Byte>, g: seq<Byte>)
    requires |f| == FRAME_SIZE && |g| == FRAME_SIZE
    requires f[HEADER_SIZE..HEADER_SIZE + PAYLOAD_SIZE] == g[HEADER_SIZE..HEADER_SIZE + PAYLOAD_SIZE]
    ensures DecodeFrame(f) == DecodeFrame(g)
  {
    assert f[HEADER_SIZE..][..PAYLOAD_SIZE] == f[HEADER_SIZE..HEADER_SIZE + PAYLOAD_SIZE];
    assert g[HEADER_SIZE..][..PAYLOAD_SIZE] == g[HEADER_SIZE..HEADER_SIZE + PAYLOAD_SIZE];
    DeserializeReadsPrefix(f[HEADER_SIZE..], g[HEADER_SIZE..]);
  }

  /** The byte stream of consecutive frames, one per payload. */
  function Frames(ps: seq<Payload>): seq<Byte>
  {
    if ps == [] then [] else Frames(ps[..|ps| - 1]) + Frame(ps[|ps| - 1])
  }

  /** Writing one more frame extends the stream by exactly that frame. */
  lemma FramesSnoc(ps: seq<Payload>, p: Payload)
    ensures Frames(ps + [p]) == Frames(ps) + Frame(p)
  {
    assert (ps + [p])[..|ps|] == ps;
  }

  /** The stream has 32 bytes per payload, and its k-th 32-byte chunk is the frame of ps[k]. */
  lemma {:induction false} FramesChunk(ps: seq<Payload>, k: nat)
    requires k < |ps|
    ensures |Frames(ps)| == 32 * |ps|
    ensures Frames(ps)[32 * k..32 * k + 32] == Frame(ps[k])
  {
    var init, last := ps[..|ps| - 1], ps[|ps| - 1];
    assert Frames(ps) == Frames(init) + Frame(last);
    FramesLength(ps);
    FramesLength(init);
    if k < |init| {
      assert Frames(ps)[32 * k..32 * k + 32] == Frame(ps[k]) by {
        FramesChunk(init, k);
        SliceOfPrefix(Frames(init), Frame(last), 32 * k, 32 * k + 32);
      }
    } else {
      assert Frames(ps)[32 * k..32 * k + 32] == Frame(ps[k]) by {
        SliceOfSuffix(Frames(init), Frame(last));
        assert Frames(ps)[32 * k..32 * k + 32] == Frames(ps)[32 * k..];
      }
    }
  }

  lemma {:induction false} FramesLength(ps: seq<Payload>)
    ensures |Frames(ps)| == 32 * |ps|
  {
    if ps != [] {
      FramesLength(ps[..|ps| - 1]);
    }
  }

  lemma SliceOfPrefix<T>(a: seq<T>, b: seq<T>, i: nat, j: nat)
    requires i <= j <= |a|
    ensures (a + b)[i..j] == a[i..j]
  {
  }

  lemma SliceOfSuffix<T>(a: seq<T>, b: seq<T>)
    ensures (a + b)[|a|..] == b
  {
  }

  lemma SliceOfCommonPrefix<T>(a: seq<T>, b: seq<T>, n: nat, i: nat, j: nat)
    requires n <= |a| && n <= |b| && a[..n] == b[..n] && i <= j <= n
    ensures a[i..j] == b[i..j]
  {
    forall k | i <= k < j
      ensures a[k] == b[k]
    {
      assert a[k] == a[..n][k] && b[k] == b[..n][k];
    }
  }

  lemma AppendedParts<T>(out: seq<T>, a: seq<T>, b: seq<T>, c: seq<T>)
    ensures (out + a + b + c)[..|out|] == out
    ensures (out + a + b + c)[|out|..] == a + b + c
  {
  }

  lemma FrameParts<T>(h: seq<T>, m: seq<T>, f: seq<T>)
    ensures (h + m + f)[..|h|] == h
    ensures (h + m + f)[|h|..|h| + |m|] == m
    ensures (h + m + f)[|h|..] == m + f
    ensures (h + m + f)[|h| + |m|..] == f
  {
  }
}
