/** The tunnel's wire format: a byte stream is cut into chunks, and each chunk is
    framed with the client id, a NUL and a 32-bit type in host (little-endian) order. */
module Framing {
  import opened Words

  const TUNNEL_CHUNK_BYTES: nat := 1100
  const ID_BYTES: nat := 6
  const HEADER_BYTES: nat := 11

  const DATA: Word32 := 0
  const DISCONNECT: Word32 := 1

  type Bytes = seq<Byte>
  type ClientId = s: Bytes | |s| == ID_BYTES witness seq(ID_BYTES, _ => 0)

  datatype Parsed =
    | Invalid
    | Data(id: ClientId, payload: Bytes)
    | Disconnect(id: ClientId)
    | Unknown(kind: Word32)

  function Kind(b: Bytes): Word32
    requires |b| == 4
  {
    ReadsFit(b);
    Pow2Values();
    ReadLittleEndian(b)
  }

  /** Only data packets carry a payload. */
  function BuildPacket(id: ClientId, data: Bytes, kind: Word32): (p: Bytes)
    ensures |p| >= HEADER_BYTES
  {
    id + [0] + LittleEndian(kind, 4) + (if kind == DATA then data else [])
  }

  function ParsePacket(p: Bytes): Parsed {
    if |p| < HEADER_BYTES then Invalid
    else
      var kind := Kind(p[7..11]);
      if kind == DATA then Data(p[..6], p[11..])
      else if kind == DISCONNECT then Disconnect(p[..6])
      else Unknown(kind)
  }

  /** The pieces one call cuts its data into. */
  function Chunks(data: Bytes): (cs: seq<Bytes>)
    ensures cs != []
  {
    if |data| <= TUNNEL_CHUNK_BYTES then [data]
    else [data[..TUNNEL_CHUNK_BYTES]] + Chunks(data[TUNNEL_CHUNK_BYTES..])
  }

  function Framed(id: ClientId, chunks: seq<Bytes>): (fs: seq<Bytes>)
    ensures |fs| == |chunks|
    ensures forall k | 0 <= k < |chunks| :: fs[k] == BuildPacket(id, chunks[k], DATA)
  {
    seq(|chunks|, k requires 0 <= k < |chunks| => BuildPacket(id, chunks[k], DATA))
  }

  /** The packets produced for one call of the sender. */
  function Frames(id: ClientId, data: Bytes, kind: Word32): seq<Bytes> {
    if kind == DATA then Framed(id, Chunks(data)) else [BuildPacket(id, data, kind)]
  }

  /** The receiver's side: the payloads of the data packets, joined. */
  function Reassemble(frames: seq<Bytes>): Bytes {
    if frames == [] then []
    else
      var p := ParsePacket(frames[0]);
      (if p.Data? then p.payload else []) + Reassemble(frames[1..])
  }

  lemma ParseBuilt(id: ClientId, data: Bytes, kind: Word32)
    ensures ParsePacket(BuildPacket(id, data, kind)) ==
              if kind == DATA then Data(id, data)
              else if kind == DISCONNECT then Disconnect(id) else Unknown(kind)
  {
    var p := BuildPacket(id, data, kind);
    Pow2Values();
    LittleEndianRoundTrip(kind, 4);
    assert p[..6] == id && p[7..11] == LittleEndian(kind, 4);
    assert kind == DATA ==> p[11..] == data;
  }

  /** The receiver never looks at the byte after the id: a data packet is exactly
      what the sender would have built if and only if that byte is NUL. */
  lemma BuildParsed(p: Bytes)
    requires ParsePacket(p).Data?
    ensures BuildPacket(ParsePacket(p).id, ParsePacket(p).payload, DATA) == p <==> p[6] == 0
  {
    LittleEndianOfRead(p[7..11]);
    var built := BuildPacket(p[..6], p[11..], DATA);
    assert built == p[..6] + [0] + p[7..11] + p[11..];
    assert p == p[..6] + [p[6]] + p[7..11] + p[11..];
    assert built[6] == 0;
  }

  lemma {:induction false} ChunkSizes(data: Bytes)
    ensures forall c | c in Chunks(data) :: |c| <= TUNNEL_CHUNK_BYTES && (data != [] ==> c != [])
  {
    if |data| > TUNNEL_CHUNK_BYTES {
      ChunkSizes(data[TUNNEL_CHUNK_BYTES..]);
    }
  }

  lemma {:induction false} ReassembleFramed(id: ClientId, data: Bytes)
    ensures Reassemble(Framed(id, Chunks(data))) == data
  {
    var chunks := Chunks(data);
    var frames := Framed(id, chunks);
    ParseBuilt(id, chunks[0], DATA);
    assert frames[1..] == Framed(id, chunks[1..]);
    if |data| > TUNNEL_CHUNK_BYTES {
      var rest := data[TUNNEL_CHUNK_BYTES..];
      assert chunks[1..] == Chunks(rest);
      ReassembleFramed(id, rest);
      assert data == data[..TUNNEL_CHUNK_BYTES] + rest;
    } else {
      assert frames[1..] == [];
    }
  }

  /** Chunking, framing and parsing give back the id and the byte string. */
  lemma StreamRoundTrip(id: ClientId, data: Bytes)
    ensures var frames := Frames(id, data, DATA);
            && Reassemble(frames) == data
            && forall f | f in frames ::
                 && ParsePacket(f).Data? && ParsePacket(f).id == id
                 && |ParsePacket(f).payload| <= TUNNEL_CHUNK_BYTES
  {
    ReassembleFramed(id, data);
    ChunkSizes(data);
    forall f | f in Frames(id, data, DATA)
      ensures ParsePacket(f).Data? && ParsePacket(f).id == id && |ParsePacket(f).payload| <= TUNNEL_CHUNK_BYTES
    {
      var k :| 0 <= k < |Chunks(data)| && f == BuildPacket(id, Chunks(data)[k], DATA);
      ParseBuilt(id, Chunks(data)[k], DATA);
    }
  }

  // ----- byte by byte -----

  lemma LittleEndianFour(b: Bytes)
    requires |b| == 4
    ensures ReadLittleEndian(b) == Four(b[3], b[2], b[1], b[0])
  {
    LittleEndianTwo(b);
    LittleEndianTwo(b[2..]);
    assert b[2..][2..] == [];
  }

  /** A packet: six bytes of id, a zero byte, the type with its least significant byte first, and the
      payload if the type is 0. */
  lemma PacketExactly(id: ClientId, data: Bytes, kind: Word32)
    ensures var p := BuildPacket(id, data, kind);
            && |p| == 11 + (if kind == 0 then |data| else 0)
            && p[..6] == id && p[6] == 0 && Four(p[10], p[9], p[8], p[7]) == kind
            && (kind == 0 ==> p[11..] == data)
  {
    TypeBytes(kind);
    var p, b := BuildPacket(id, data, kind), LittleEndian(kind, 4);
    assert p[7] == b[0] && p[8] == b[1] && p[9] == b[2] && p[10] == b[3];
  }

  lemma TypeBytes(kind: Word32)
    ensures var b := LittleEndian(kind, 4); Four(b[3], b[2], b[1], b[0]) == kind
  {
    Pow2Values();
    LittleEndianRoundTrip(kind, 4);
    LittleEndianFour(LittleEndian(kind, 4));
  }

  /** What is made of any bytes: eleven or more of them are data if the type is 0 and a disconnect if
      it is 1; the byte after the id is not looked at. */
  lemma ParseExactly(p: Bytes)
    ensures ParsePacket(p) ==
              if |p| < 11 then Invalid
              else
                var kind := Four(p[10], p[9], p[8], p[7]);
                if kind == 0 then Data(p[..6], p[11..])
                else if kind == 1 then Disconnect(p[..6]) else Unknown(kind)
  {
    if |p| >= 11 {
      LittleEndianFour(p[7..11]);
    }
  }

  /** Piece k of the data is its k-th stretch of 1100 bytes, or what is left of it. */
  function Piece(data: Bytes, k: nat): Bytes
    requires 1100 * k <= |data|
  {
    if 1100 * k + 1100 < |data| then data[1100 * k..1100 * k + 1100] else data[1100 * k..]
  }

  /** There are as many pieces as it takes, and one empty piece if there are no bytes. */
  lemma {:induction false} ChunksExactly(data: Bytes, k: nat)
    ensures |Chunks(data)| == if data == [] then 1 else (|data| + 1099) / 1100
    ensures k < |Chunks(data)| ==> 1100 * k <= |data| && Chunks(data)[k] == Piece(data, k)
  {
    if |data| > 1100 {
      var rest := data[1100..];
      ChunksExactly(rest, if k > 0 then k - 1 else 0);
      if k > 0 && 1100 * k <= |data| {
        PieceOfRest(data, rest, k);
      }
    }
  }

  lemma PieceOfRest(data: Bytes, rest: Bytes, k: nat)
    requires k > 0 && 1100 * k <= |data| && rest == data[1100..]
    ensures Piece(data, k) == Piece(rest, k - 1)
  {}

  /** One call produces one packet for each piece of its data, and one packet for any other type. */
  lemma FramesExactly(id: ClientId, data: Bytes, kind: Word32)
    ensures kind == 0 ==>
              && |Frames(id, data, 0)| == |Chunks(data)|
              && forall k | 0 <= k < |Chunks(data)| :: Frames(id, data, 0)[k] == BuildPacket(id, Chunks(data)[k], 0)
    ensures kind != 0 ==> Frames(id, data, kind) == [BuildPacket(id, [], kind)]
  {}
}
