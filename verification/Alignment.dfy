/**
 The search for the start-code offset in an unframed byte stream.
 */
module Alignment {
  import opened Dmx

  datatype Offset = NotFound | Found(off: nat)

  /** Every position in the buffer that is off modulo the packet size holds the start code. */
  ghost predicate Aligned(buf: seq<byte>, off: nat) {
    forall p :: 0 <= p < |buf| && p % PACKET_SIZE == off ==> buf[p] == START_CODE_DMX
  }

  ghost function FirstAligned(buf: seq<byte>, from: nat): Offset
    decreases PACKET_SIZE - from
  {
    if from >= PACKET_SIZE then NotFound
    else if Aligned(buf, from) then Found(from)
    else FirstAligned(buf, from + 1)
  }

  ghost function AlignmentOf(buf: seq<byte>): Offset {
    if |buf| < 2 * PACKET_SIZE then NotFound else FirstAligned(buf, 0)
  }

  lemma {:induction false} FirstAlignedIsLeast(buf: seq<byte>, from: nat)
    ensures match FirstAligned(buf, from)
            case Found(off) => from <= off < PACKET_SIZE && Aligned(buf, off) && forall o :: from <= o < off ==> !Aligned(buf, o)
            case NotFound => forall o :: from <= o < PACKET_SIZE ==> !Aligned(buf, o)
    decreases PACKET_SIZE - from
  {
    if from < PACKET_SIZE && !Aligned(buf, from) {
      FirstAlignedIsLeast(buf, from + 1);
    }
  }

  /**
   Sound, least and complete: on two packets or more, the smallest offset whose
   every boundary in the buffer holds a start code, and none only if there is none.
   */
  lemma AlignmentIsLeast(buf: seq<byte>)
    ensures match AlignmentOf(buf)
            case Found(off) =>
              && off + PACKET_SIZE < |buf| && off < PACKET_SIZE
              && Aligned(buf, off) && forall o :: 0 <= o < off ==> !Aligned(buf, o)
            case NotFound =>
              |buf| < 2 * PACKET_SIZE || forall o :: 0 <= o < PACKET_SIZE ==> !Aligned(buf, o)
  {
    FirstAlignedIsLeast(buf, 0);
  }

  /** The inner scan: neighbouring boundaries, one stride at a time. */
  method CheckOffset(buf: seq<byte>, off: nat) returns (aligned: bool)
    requires off < PACKET_SIZE && 2 * PACKET_SIZE <= |buf|
    ensures aligned <==> Aligned(buf, off)
  {
    var p := off;
    while p + PACKET_SIZE < |buf|
      invariant p < |buf| && p % PACKET_SIZE == off
      invariant forall q :: 0 <= q < p && q % PACKET_SIZE == off ==> buf[q] == START_CODE_DMX
      invariant off < p ==> buf[p] == START_CODE_DMX
    {
      if buf[p] != START_CODE_DMX || buf[p + PACKET_SIZE] != START_CODE_DMX {
        assert (p + PACKET_SIZE) % PACKET_SIZE == off;
        return false;
      }
      p := p + PACKET_SIZE;
    }
    return true;
  }

  method FindAlignment(buf: seq<byte>) returns (off: nat, ok: bool)
    ensures AlignmentOf(buf) == if ok then Found(off) else NotFound
  {
    off := 0;
    if |buf| < 2 * PACKET_SIZE {
      return 0, false;
    }
    while off < PACKET_SIZE
      invariant off <= PACKET_SIZE
      invariant AlignmentOf(buf) == FirstAligned(buf, off)
    {
      var aligned := CheckOffset(buf, off);
      if aligned {
        return off, true;
      }
      off := off + 1;
    }
    return 0, false;
  }
}
