/**
 The ArtDmx packet layout (Art-Net 4 specification, ArtDmx packet definition),
 ArtPoll, and the universe bytes of ArtPollReply.
 */
module ArtNet {
  import opened Dmx
  import opened Htp

  const HEADER: seq<byte> := [0x41, 0x72, 0x74, 0x2D, 0x4E, 0x65, 0x74, 0x00] // "Art-Net" and a zero
  const HEADER_SIZE := 18
  // Universes that fit the 15-bit Port-Address.
  const PORT_ADDRESSES := 0x8000

  /** The packet, field by field. */
  function Packet(channels: ChannelData, sequence: byte, universe: Universe, physical: byte): seq<byte> {
    Fields(sequence, universe, physical) + channels
  }

  /** The fixed fields of the packet, before the channels. */
  function Fields(sequence: byte, universe: Universe, physical: byte): seq<byte> {
    HEADER + [0x00, 0x50, 0, 14, sequence, physical, universe % 0x100, universe / 0x100 % 0x80, 0x02, 0x00]
  }

  method EncodeFields(buf: array<byte>, sequence: byte, universe: Universe, physical: byte)
    requires buf.Length == HEADER_SIZE + MAX_CHANNELS
    modifies buf
    ensures buf[..HEADER_SIZE] == Fields(sequence, universe, physical)
  {
    forall i | 0 <= i < |HEADER| { buf[i] := HEADER[i]; }
    buf[8], buf[9] := 0x00, 0x50; // OpCode, little-endian
    buf[10], buf[11] := 0, 14; // protocol version, big-endian
    buf[12] := sequence;
    buf[13] := physical;
    buf[14] := universe % 0x100;
    buf[15] := universe / 0x100 % 0x80;
    buf[16], buf[17] := MAX_CHANNELS / 0x100, MAX_CHANNELS % 0x100; // length, big-endian
    assert buf[..8] == HEADER;
    assert buf[..HEADER_SIZE] == buf[..8] + buf[8..HEADER_SIZE];
  }

  method EncodeArtDmx(frame: Frame, sequence: byte, universe: Universe, physical: byte) returns (packet: seq<byte>)
    ensures packet == Packet(frame.channels, sequence, universe, physical)
  {
    hide Fields;
    var length := MAX_CHANNELS;
    var buf := new byte[HEADER_SIZE + length](_ => 0);
    EncodeFields(buf, sequence, universe, physical);
    forall i | 0 <= i < length { buf[HEADER_SIZE + i] := frame.channels[i]; }
    assert buf[HEADER_SIZE..] == frame.channels;
    packet := buf[..];
    assert packet == buf[..HEADER_SIZE] + buf[HEADER_SIZE..];
  }

  /** A 16-bit field from its low and high bytes. */
  function Word(low: byte, high: byte): Universe {
    low as int + 0x100 * high as int
  }

  datatype Parsed = NotArtDmx | ArtDmx(frame: Frame, universe: Universe)

  predicate HasHeader(data: seq<byte>) {
    |data| >= |HEADER| && data[..|HEADER|] == HEADER
  }

  function Least(a: nat, b: nat): nat {
    if a < b then a else b
  }

  /** What a datagram means: as many channels as it declares, holds, and a frame can take. */
  function Parse(data: seq<byte>): Parsed {
    if |data| < HEADER_SIZE || !HasHeader(data) || Word(data[8], data[9]) != 0x5000 then NotArtDmx
    else
      var length := Least(Least(Word(data[17], data[16]), MAX_CHANNELS), |data| - HEADER_SIZE);
      ArtDmx(MakeFrame(data[HEADER_SIZE..HEADER_SIZE + length]), Word(data[14], data[15]))
  }

  method DecodeArtDmx(data: seq<byte>) returns (frame: Frame, universe: Universe, ok: bool)
    ensures Parse(data) == if ok then ArtDmx(frame, universe) else NotArtDmx
    ensures !ok ==> frame == EMPTY_FRAME && universe == 0
  {
    frame, universe, ok := EMPTY_FRAME, 0, false;
    if |data| < HEADER_SIZE {
      return;
    }
    if data[..8] != HEADER {
      return;
    }
    if Word(data[8], data[9]) != 0x5000 {
      return;
    }
    universe := Word(data[14], data[15]);
    var length := Word(data[17], data[16]);
    if length > MAX_CHANNELS {
      length := MAX_CHANNELS;
    }
    if |data| - HEADER_SIZE < length {
      length := |data| - HEADER_SIZE;
    }
    var channels: ChannelData := EMPTY_FRAME.channels;
    for i := 0 to length
      invariant channels == data[HEADER_SIZE..HEADER_SIZE + i] + Zeros(MAX_CHANNELS - i)
    {
      channels := channels[i := data[HEADER_SIZE + i]];
    }
    frame, ok := Frame(START_CODE_DMX, channels, length), true;
  }

  predicate IsArtPoll(data: seq<byte>) {
    |data| >= 10 && data[..8] == HEADER && Word(data[8], data[9]) == 0x2000
  }

  /** A datagram is never both a poll and DMX. */
  lemma PollIsNotDmx(data: seq<byte>)
    ensures IsArtPoll(data) ==> Parse(data) == NotArtDmx
  {
  }

  /** All 512 channels survive, and the universe up to its low 15 bits. */
  lemma RoundTrip(channels: ChannelData, sequence: byte, universe: Universe, physical: byte)
    ensures Parse(Packet(channels, sequence, universe, physical))
         == ArtDmx(MakeFrame(channels), universe % PORT_ADDRESSES)
    ensures |Packet(channels, sequence, universe, physical)| == HEADER_SIZE + MAX_CHANNELS
  {
    var data := Packet(channels, sequence, universe, physical);
    assert data[..8] == HEADER;
    assert data[HEADER_SIZE..] == channels;
    assert data[HEADER_SIZE..HEADER_SIZE + MAX_CHANNELS] == channels;
    SplitUniverse(universe);
  }

  /** A datagram is ArtDmx exactly if it has the fixed fields and starts with the header and the opcode. */
  lemma ParsesIff(data: seq<byte>)
    ensures Parse(data).ArtDmx? <==> |data| >= HEADER_SIZE && data[..10] == HEADER + [0x00, 0x50]
  {
    if |data| >= HEADER_SIZE {
      assert data[..10][..8] == data[..8] && (HEADER + [0x00, 0x50])[..8] == HEADER;
      assert data[..10] == data[..8] + [data[8], data[9]];
      assert data[..10][8] == data[8] && data[..10][9] == data[9];
    }
  }

  /**
   Whatever the version, sequence and physical fields: n declared channels are the
   first n bytes present, at most 512; a datagram cut short gives what is present.
   */
  lemma Declares(version: (byte, byte), sequence: byte, physical: byte, universe: (byte, byte), n: (byte, byte),
                 present: seq<byte>)
    ensures var data := HEADER + [0x00, 0x50, version.0, version.1, sequence, physical,
                                  universe.0, universe.1, n.0, n.1] + present;
            var declared := 0x100 * n.0 as int + n.1 as int;
            && Parse(data).ArtDmx?
            && Parse(data).universe == universe.0 as int + 0x100 * universe.1 as int
            && (declared <= MAX_CHANNELS && declared <= |present| ==> Parse(data).frame == MakeFrame(present[..declared]))
            && (MAX_CHANNELS <= declared && MAX_CHANNELS <= |present| ==>
                  Parse(data).frame == MakeFrame(present[..MAX_CHANNELS]))
            && (|present| <= MAX_CHANNELS && |present| <= declared ==> Parse(data).frame == MakeFrame(present))
  {
    var fields := [0x00, 0x50, version.0, version.1, sequence, physical, universe.0, universe.1, n.0, n.1];
    var data := HEADER + fields + present;
    assert data[..8] == HEADER && data[HEADER_SIZE..] == present;
    assert forall k :: 0 <= k < 10 ==> data[8 + k] == fields[k];
    assert forall k :: 0 <= k <= |present| ==> data[HEADER_SIZE..HEADER_SIZE + k] == present[..k];
    assert present[..|present|] == present;
  }

  /** Full-size packets of this protocol version with a 15-bit universe. */
  predicate Canonical(data: seq<byte>) {
    |data| == HEADER_SIZE + MAX_CHANNELS && data[10..12] == [0, 14] && data[15] < 0x80 && data[16..18] == [0x02, 0x00]
  }

  /** Of the datagrams understood, exactly the canonical ones are reproduced by encoding what was decoded. */
  lemma EncodesBackIff(data: seq<byte>)
    requires Parse(data).ArtDmx?
    ensures Packet(Parse(data).frame.channels, data[12], Parse(data).universe, data[13]) == data <==> Canonical(data)
  {
    var p := Parse(data);
    var packet := Packet(p.frame.channels, data[12], p.universe, data[13]);
    assert p.universe % 0x100 == data[14] && p.universe / 0x100 == data[15];
    assert packet[10] == 0 && packet[11] == 14 && packet[16] == 2 && packet[17] == 0 && packet[15] < 0x80;
    assert data[10..12] == [data[10], data[11]] && data[16..18] == [data[16], data[17]];
    if Canonical(data) {
      assert data[10] == 0 && data[11] == 14 && data[16] == 2 && data[17] == 0;
      assert p.frame.channels == data[HEADER_SIZE..];
      assert packet == data;
    }
  }

  /** The universe as an ArtPollReply carries it: NetSwitch, SubSwitch and SwIn. */
  datatype Switches = Switches(net: byte, sub: byte, low: byte)

  function ReplySwitches(universe: Universe): Switches {
    Switches(universe / 0x100 % 0x80, universe / 0x10 % 0x10, universe % 0x10)
  }

  lemma SplitUniverse(u: Universe)
    ensures 0x100 * (u / 0x100 % 0x80) + 0x10 * (u / 0x10 % 0x10) + u % 0x10 == u % 0x8000
    ensures u % 0x100 + 0x100 * (u / 0x100 % 0x80) == u % 0x8000
  {
  }

  /** The three fields in their ranges, put together, are the 15-bit universe; ArtDmx packets carry the same. */
  lemma SwitchesCompose(universe: Universe, channels: ChannelData, sequence: byte)
    ensures var s := ReplySwitches(universe);
            && s.net < 0x80 && s.sub < 0x10 && s.low < 0x10
            && 0x100 * s.net as int + 0x10 * s.sub as int + s.low as int == universe % PORT_ADDRESSES
            && Parse(Packet(channels, sequence, universe, 0)).universe
            == 0x100 * s.net as int + 0x10 * s.sub as int + s.low as int
  {
    hide Packet, Parse;
    RoundTrip(channels, sequence, universe, 0);
    SplitUniverse(universe);
  }
}
