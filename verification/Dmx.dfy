/**
 The vocabulary shared by the receive pipeline: bytes, frames, line events, and
 the ordered stream of data bytes and events that every serial port delivers.
 */
module Dmx {

  type byte = x: int | 0 <= x < 256

  const MAX_CHANNELS := 512
  const START_CODE_DMX: byte := 0
  // A full packet on the wire: the start code plus 512 channels.
  const PACKET_SIZE := 1 + MAX_CHANNELS
  // The receiver reads into a buffer of this size.
  const CHUNK_SIZE := 1024

  type ChannelData = c: seq<byte> | |c| == MAX_CHANNELS witness seq(MAX_CHANNELS, _ => 0)
  type ChannelCount = n: nat | n <= MAX_CHANNELS

  /** A frame owns all 512 channel slots; only the first `length` are meaningful. */
  datatype Frame = Frame(startCode: byte, channels: ChannelData, length: ChannelCount) {
    function Payload(): seq<byte> {
      channels[..length]
    }

    // Append one channel value, in bounds only while the frame is not full.
    function Store(b: byte): Frame
      requires length < MAX_CHANNELS
    {
      this.(channels := channels[length := b], length := length + 1)
    }
  }

  function Zeros(n: nat): seq<byte> {
    seq(n, _ => 0)
  }

  /** The DMX frame carrying exactly `payload`, every later slot zero. */
  function MakeFrame(payload: seq<byte>): Frame
    requires |payload| <= MAX_CHANNELS
  {
    Frame(START_CODE_DMX, payload + Zeros(MAX_CHANNELS - |payload|), |payload|)
  }

  const EMPTY_FRAME: Frame := Frame(START_CODE_DMX, Zeros(MAX_CHANNELS), 0)

  lemma EmptyFrameIsMade()
    ensures EMPTY_FRAME == MakeFrame([])
  {
    assert Zeros(MAX_CHANNELS) == [] + Zeros(MAX_CHANNELS);
  }

  lemma StoreExtends(payload: seq<byte>, b: byte)
    requires |payload| < MAX_CHANNELS
    ensures MakeFrame(payload).Store(b) == MakeFrame(payload + [b])
  {
    assert MakeFrame(payload).Store(b).channels == MakeFrame(payload + [b]).channels;
  }

  lemma PayloadOfMade(payload: seq<byte>)
    requires |payload| <= MAX_CHANNELS
    ensures MakeFrame(payload).Payload() == payload
  {
  }

  // ----- the ordered stream of data and line events -----

  datatype Marker = MarkerNone | MarkerBreak | MarkerError

  datatype Item = Data(value: byte) | Break | Error

  /** One result of a port read: data bytes, then the event that ended them. */
  datatype Chunk = Chunk(data: seq<byte>, marker: Marker)

  function DataItems(data: seq<byte>): (items: seq<Item>)
    ensures |items| == |data|
    ensures forall i :: 0 <= i < |data| ==> items[i] == Data(data[i])
  {
    seq(|data|, i requires 0 <= i < |data| => Data(data[i]))
  }

  function MarkerItems(m: Marker): seq<Item> {
    match m
    case MarkerNone => []
    case MarkerBreak => [Break]
    case MarkerError => [Error]
  }

  function ChunkItems(c: Chunk): seq<Item> {
    DataItems(c.data) + MarkerItems(c.marker)
  }

  function ChunksItems(cs: seq<Chunk>): seq<Item> {
    if cs == [] then [] else ChunkItems(cs[0]) + ChunksItems(cs[1..])
  }

  /** The data bytes of a stream, events forgotten. */
  function DataOf(items: seq<Item>): seq<byte> {
    if items == [] then []
    else DataOf(items[..|items| - 1]) + (match items[|items| - 1] case Data(b) => [b] case _ => [])
  }

  lemma {:induction false} DataOfAppend(a: seq<Item>, b: seq<Item>)
    ensures DataOf(a + b) == DataOf(a) + DataOf(b)
  {
    if b == [] {
      assert a + b == a;
    } else {
      var b0 := b[..|b| - 1];
      assert (a + b)[..|a + b| - 1] == a + b0;
      DataOfAppend(a, b0);
    }
  }

  lemma {:induction false} DataOfDataItems(data: seq<byte>)
    ensures DataOf(DataItems(data)) == data
  {
    if data != [] {
      var d0 := data[..|data| - 1];
      assert DataItems(data)[..|data| - 1] == DataItems(d0);
      DataOfDataItems(d0);
      assert data == d0 + [data[|data| - 1]];
    }
  }

  lemma DataOfMarker(m: Marker)
    ensures DataOf(MarkerItems(m)) == []
  {
    if m != MarkerNone {
      assert MarkerItems(m)[..0] == [];
    }
  }

  lemma {:induction false} DataOfAllData(items: seq<Item>)
    requires forall k :: 0 <= k < |items| ==> items[k].Data?
    ensures |DataOf(items)| == |items| && items == DataItems(DataOf(items))
  {
    if items != [] {
      DataOfAllData(items[..|items| - 1]);
    }
  }

  lemma DataOfRest(items: seq<Item>, n: nat)
    requires forall k :: 0 <= k < |items| ==> items[k].Data?
    requires n <= |items|
    ensures |DataOf(items)| == |items| && DataOf(items[n..]) == DataOf(items)[n..]
  {
    assert items == items[..n] + items[n..];
    DataOfAppend(items[..n], items[n..]);
    DataOfAllData(items[..n]);
    DataOfAllData(items);
  }

  lemma DataItemsAppend(a: seq<byte>, b: seq<byte>)
    ensures DataItems(a + b) == DataItems(a) + DataItems(b)
  {
  }

  function Concat<T>(parts: seq<seq<T>>): seq<T> {
    if parts == [] then [] else Concat(parts[..|parts| - 1]) + parts[|parts| - 1]
  }
}
