/**
 The POSIX serial port: what the operating system's reads deliver, a reference
 for the stream of data and events they stand for, and the buffered `ReadChunk`.
 */
module SerialPort {
  import opened Dmx
  import Parmrk

  const RAW_BUF_SIZE := 4096

  /** A successful read of a tty is never empty and never exceeds the buffer. */
  type RawRead = r: seq<byte> | 0 < |r| <= RAW_BUF_SIZE witness [0]

  datatype ReadResult = Bytes(raw: RawRead) | DeadlineExceeded | Eof | Failed

  /** Platform constants: whether short reads stand for breaks, and the USB payload size. */
  datatype Platform = Platform(breakFromShortRead: bool, usbPayloadSize: nat)

  // ----- reference -----

  /** Decoder state, whether a short read still waits to be reported, and the stream so far. */
  datatype Stream = Stream(state: Parmrk.State, pending: bool, items: seq<Item>)

  const START := Stream(Parmrk.Idle, false, [])

  /** What is still to come from bytes that were read but not decoded. */
  function Finish(s: Stream, carry: seq<byte>): Stream {
    if carry == [] then s
    else
      var d := Parmrk.Run(s.state, carry);
      var onEvent := Parmrk.EndsOnEvent(s.state, carry);
      Stream(d.state, s.pending && onEvent, s.items + d.items + (if s.pending && !onEvent then [Break] else []))
  }

  function AfterRead(p: Platform, s: Stream, raw: seq<byte>): Stream {
    Finish(s.(pending := s.pending || (p.breakFromShortRead && |raw| < p.usbPayloadSize)), raw)
  }

  function AfterReads(p: Platform, raws: seq<seq<byte>>): Stream {
    if raws == [] then START
    else AfterRead(p, AfterReads(p, raws[..|raws| - 1]), raws[|raws| - 1])
  }

  lemma AfterReadsSnoc(p: Platform, raws: seq<seq<byte>>, raw: seq<byte>)
    ensures AfterReads(p, raws + [raw]) == AfterRead(p, AfterReads(p, raws), raw)
  {
    assert (raws + [raw])[..|raws|] == raws;
  }

  /** Decoding the carry up to `n` and then the rest is decoding the carry. */
  lemma FinishSplit(s: Stream, a: seq<byte>, b: seq<byte>)
    requires a != [] && b != []
    ensures Finish(s, a + b)
         == Finish(s.(state := Parmrk.Run(s.state, a).state, items := s.items + Parmrk.Run(s.state, a).items), b)
  {
    hide Parmrk.Run, Parmrk.EndsOnEvent;
    Parmrk.RunAppend(s.state, a, b);
    Parmrk.EndsOnEventSuffix(s.state, a, b);
    var x, y := Parmrk.Run(s.state, a).items, Parmrk.Run(Parmrk.Run(s.state, a).state, b).items;
    assert s.items + (x + y) == s.items + x + y;
  }

  /** Where the driver reports breaks, the stream is the decoding of all bytes read, however they were split. */
  lemma {:induction false} SplitInvariance(p: Platform, raws: seq<seq<byte>>)
    requires !p.breakFromShortRead
    ensures var d := Parmrk.Run(Parmrk.Idle, Concat(raws));
            AfterReads(p, raws) == Stream(d.state, false, d.items)
  {
    if raws != [] {
      var r0, r := raws[..|raws| - 1], raws[|raws| - 1];
      SplitInvariance(p, r0);
      Parmrk.RunAppend(Parmrk.Idle, Concat(r0), r);
    }
  }

  lemma FinishData(s: Stream, carry: seq<byte>)
    ensures DataOf(Finish(s, carry).items) == DataOf(s.items) + DataOf(Parmrk.Run(s.state, carry).items)
    ensures Finish(s, carry).state == Parmrk.Run(s.state, carry).state
  {
    var d := Parmrk.Run(s.state, carry);
    DataOfAppend(s.items, d.items);
    DataOfAppend(s.items + d.items, [Break]);
    assert DataOf([Break]) == DataOf([Break][..0]);
    assert s.items + d.items + [] == s.items + d.items;
    assert carry == [] ==> s.items + [] == s.items;
  }

  /** Inferring breaks never touches the data: the data bytes are those of the plain decoding. */
  lemma {:induction false} InferenceKeepsData(p: Platform, raws: seq<seq<byte>>)
    ensures AfterReads(p, raws).state == Parmrk.Run(Parmrk.Idle, Concat(raws)).state
    ensures DataOf(AfterReads(p, raws).items) == DataOf(Parmrk.Run(Parmrk.Idle, Concat(raws)).items)
  {
    if raws != [] {
      var r0, r := raws[..|raws| - 1], raws[|raws| - 1];
      InferenceKeepsData(p, r0);
      Parmrk.RunAppend(Parmrk.Idle, Concat(r0), r);
      var s := AfterReads(p, r0);
      FinishData(s.(pending := s.pending || (p.breakFromShortRead && |r| < p.usbPayloadSize)), r);
      DataOfAppend(Parmrk.Run(Parmrk.Idle, Concat(r0)).items, Parmrk.Run(s.state, r).items);
    }
  }

  // ----- which reads stand for a break -----

  /** Reads of data only: every read's bytes, followed by a break exactly if such breaks are inferred and it was short. */
  function Flushes(p: Platform, raws: seq<seq<byte>>): seq<Item> {
    if raws == [] then []
    else
      var raw := raws[|raws| - 1];
      Flushes(p, raws[..|raws| - 1]) + DataItems(raw)
      + (if p.breakFromShortRead && |raw| < p.usbPayloadSize then [Break] else [])
  }

  lemma {:induction false} PlainRun(raw: seq<byte>)
    requires 0xFF !in raw
    ensures Parmrk.Run(Parmrk.Idle, raw) == Parmrk.Decoded(Parmrk.Idle, DataItems(raw))
  {
    if raw != [] {
      var init, b := raw[..|raw| - 1], raw[|raw| - 1];
      PlainRun(init);
      assert raw == init + [b] && DataItems(raw) == DataItems(init) + [Data(b)];
    }
  }

  /** Where no byte is escaped, a short read is a break right after its data, and nothing else is a break. */
  lemma {:induction false} PlainReads(p: Platform, raws: seq<seq<byte>>)
    requires forall k :: 0 <= k < |raws| ==> raws[k] != [] && 0xFF !in raws[k]
    ensures AfterReads(p, raws) == Stream(Parmrk.Idle, false, Flushes(p, raws))
  {
    if raws != [] {
      var raw := raws[|raws| - 1];
      PlainReads(p, raws[..|raws| - 1]);
      PlainRun(raw);
      PlainRun(raw[..|raw| - 1]);
    }
  }

  /** The k-th read ends exactly on the last byte of an event. */
  predicate OnEvent(raws: seq<seq<byte>>, k: nat)
    requires k < |raws|
  {
    Parmrk.EndsOnEvent(Parmrk.Run(Parmrk.Idle, Concat(raws[..k])).state, raws[k])
  }

  /** Some read was short, and it and every read since then ended on an event. */
  ghost predicate Owed(p: Platform, raws: seq<seq<byte>>) {
    exists j :: 0 <= j < |raws| && p.breakFromShortRead && |raws[j]| < p.usbPayloadSize
             && forall k :: j <= k < |raws| ==> OnEvent(raws, k)
  }

  lemma OwedSnoc(p: Platform, raws: seq<seq<byte>>, raw: seq<byte>)
    ensures Owed(p, raws + [raw]) <==>
              (Owed(p, raws) || (p.breakFromShortRead && |raw| < p.usbPayloadSize)) && OnEvent(raws + [raw], |raws|)
  {
    hide Parmrk.EndsOnEvent, Parmrk.Run, Concat;
    var more := raws + [raw];
    forall k | 0 <= k < |raws|
      ensures OnEvent(more, k) <==> OnEvent(raws, k)
    {
      assert more[..k] == raws[..k];
    }
    if Owed(p, raws) && OnEvent(more, |raws|) {
      var j :| 0 <= j < |raws| && p.breakFromShortRead && |raws[j]| < p.usbPayloadSize
            && forall k :: j <= k < |raws| ==> OnEvent(raws, k);
      assert |more[j]| < p.usbPayloadSize && forall k :: j <= k < |more| ==> OnEvent(more, k);
    }
    if Owed(p, more) {
      var j :| 0 <= j < |more| && p.breakFromShortRead && |more[j]| < p.usbPayloadSize
            && forall k :: j <= k < |more| ==> OnEvent(more, k);
      if j < |raws| {
        assert |raws[j]| < p.usbPayloadSize && forall k :: j <= k < |raws| ==> OnEvent(raws, k);
      }
    }
  }

  /** An inferred break is still to come exactly if it is owed. */
  lemma {:induction false} PendingIff(p: Platform, raws: seq<seq<byte>>)
    requires forall k :: 0 <= k < |raws| ==> raws[k] != []
    ensures AfterReads(p, raws).pending <==> Owed(p, raws)
  {
    hide Parmrk.Run, Parmrk.EndsOnEvent, Concat, Owed, AfterReads;
    if raws == [] {
      NothingOwed(p);
    } else {
      var r0, r := raws[..|raws| - 1], raws[|raws| - 1];
      PendingIff(p, r0);
      InferenceKeepsData(p, r0);
      assert raws == r0 + [r] && raws[..|r0|] == r0;
      AfterReadsSnoc(p, r0, r);
      OwedSnoc(p, r0, r);
    }
  }

  lemma NothingOwed(p: Platform)
    ensures !Owed(p, []) && AfterReads(p, []) == START
  {
  }

  /**
   In general a read adds what it decodes to, and one break after that exactly if
   it is short or a break is owed, unless it ends on an event itself: a break owed
   comes out at the first later read that does not.
   */
  lemma ReadAdds(p: Platform, raws: seq<seq<byte>>, raw: seq<byte>)
    requires raw != [] && forall k :: 0 <= k < |raws| ==> raws[k] != []
    ensures var s := Parmrk.Run(Parmrk.Idle, Concat(raws)).state;
            var due := Owed(p, raws) || (p.breakFromShortRead && |raw| < p.usbPayloadSize);
            AfterReads(p, raws + [raw]).items ==
              AfterReads(p, raws).items + Parmrk.Run(s, raw).items
              + (if due && !Parmrk.EndsOnEvent(s, raw) then [Break] else [])
  {
    hide Parmrk.Run, Parmrk.EndsOnEvent, Owed, AfterReads, Concat;
    PendingIff(p, raws);
    InferenceKeepsData(p, raws);
    AfterReadsSnoc(p, raws, raw);
  }

  /** The whole stream seen from the port's fields: delivered, then `out`, then `mark`, then the carry decoded. */
  function Look(s: Parmrk.State, pending: bool, delivered: seq<Item>, out: seq<byte>, mark: Marker, carry: seq<byte>): Stream {
    Finish(Stream(s, pending, delivered + DataItems(out) + MarkerItems(mark)), carry)
  }

  lemma LookServe(s: Parmrk.State, pending: bool, delivered: seq<Item>, out: seq<byte>, n: nat, mark: Marker, carry: seq<byte>)
    requires n <= |out|
    ensures var m := if n == |out| then mark else MarkerNone;
            var left := if n == |out| then MarkerNone else mark;
            var delivered' := delivered + DataItems(out[..n]) + MarkerItems(m);
            Look(s, pending, delivered, out, mark, carry) == Look(s, pending, delivered', out[n..], left, carry)
  {
    assert out == out[..n] + out[n..];
    DataItemsAppend(out[..n], out[n..]);
    if n == |out| {
      assert out[n..] == [] && DataItems(out[n..]) == [];
      assert delivered + DataItems(out[..n]) + MarkerItems(mark) + [] + []
          == delivered + DataItems(out) + MarkerItems(mark);
    } else {
      assert delivered + DataItems(out[..n]) + [] + DataItems(out[n..]) + MarkerItems(mark)
          == delivered + (DataItems(out[..n]) + DataItems(out[n..])) + MarkerItems(mark);
    }
  }

  lemma LookNothing(s: Parmrk.State, pending: bool, delivered: seq<Item>, carry: seq<byte>)
    ensures Look(s, pending, delivered, [], MarkerNone, carry) == Finish(Stream(s, pending, delivered), carry)
  {
    assert delivered + DataItems([]) + MarkerItems(MarkerNone) == delivered;
  }

  lemma FinishNothing(s: Stream)
    ensures Finish(s, []) == s
  {
  }

  lemma LookDecode(s: Parmrk.State, pending: bool, delivered: seq<Item>, carry: seq<byte>,
                   consumed: nat, out: seq<byte>, m: Marker)
    requires 0 < consumed <= |carry|
    requires Parmrk.Run(s, carry[..consumed]).items == DataItems(out) + MarkerItems(m)
    requires Parmrk.EndsOnEvent(s, carry[..consumed]) <==> m != MarkerNone
    requires m == MarkerNone ==> consumed == |carry|
    ensures var s' := Parmrk.Run(s, carry[..consumed]).state;
            var flush := m == MarkerNone && consumed == |carry| && pending;
            && Finish(Stream(s, pending, delivered), carry)
            == Look(s', pending && !flush, delivered, out, if flush then MarkerBreak else m, carry[consumed..])
            && (out == [] && m == MarkerNone && !flush ==> Parmrk.Held(s') > Parmrk.Held(s))
  {
    var a, b := carry[..consumed], carry[consumed..];
    assert carry == a + b;
    SilentPass(s, a);
    assert delivered + DataItems(out) + MarkerItems(m) == delivered + (DataItems(out) + MarkerItems(m));
    if b != [] {
      FinishSplit(Stream(s, pending, delivered), a, b);
    } else {
      assert carry == a;
      assert m == MarkerNone ==> delivered + DataItems(out) + [] == delivered + DataItems(out);
    }
  }

  /** A pass that yields nothing has moved the automaton further into an escape. */
  lemma {:induction false} SilentPass(s: Parmrk.State, wire: seq<byte>)
    ensures wire != [] && Parmrk.Run(s, wire).items == [] ==> Parmrk.Held(Parmrk.Run(s, wire).state) > Parmrk.Held(s)
  {
    if wire != [] {
      SilentPass(s, wire[..|wire| - 1]);
    }
  }

  // ----- the port -----

  /** A failed read; on a pollable descriptor an end of file is a hangup. */
  predicate Fails(res: ReadResult, pollable: bool) {
    res.Failed? || (res.Eof? && pollable)
  }

  /** The results that a script holds before its first failure: reads and idle lines. */
  function Due(script: seq<ReadResult>, pollable: bool): seq<ReadResult> {
    if script == [] || Fails(script[0], pollable) then [] else [script[0]] + Due(script[1..], pollable)
  }

  /** They are the script up to its first failed result. */
  lemma {:induction false} DueIsPrefix(script: seq<ReadResult>, pollable: bool)
    ensures Due(script, pollable) <= script
    ensures forall res :: res in Due(script, pollable) ==> !Fails(res, pollable)
    ensures |Due(script, pollable)| < |script| ==> Fails(script[|Due(script, pollable)|], pollable)
  {
    if script != [] && !Fails(script[0], pollable) {
      DueIsPrefix(script[1..], pollable);
    }
  }

  function RawsOf(results: seq<ReadResult>): seq<seq<byte>> {
    if results == [] then []
    else RawsOf(results[..|results| - 1]) + (if results[|results| - 1].Bytes? then [results[|results| - 1].raw] else [])
  }

  /** The raw reads that a script holds before its first failure. */
  function Ahead(script: seq<ReadResult>, pollable: bool): seq<seq<byte>> {
    RawsOf(Due(script, pollable))
  }

  /** For every idle result, how much of the stream comes before it. */
  function QuietsAt(p: Platform, results: seq<ReadResult>): seq<nat> {
    if results == [] then []
    else
      var init := results[..|results| - 1];
      QuietsAt(p, init) + (if results[|results| - 1].Bytes? then [] else [|AfterReads(p, RawsOf(init)).items|])
  }

  lemma ReadsSnoc(p: Platform, results: seq<ReadResult>, res: ReadResult)
    ensures RawsOf(results + [res]) == RawsOf(results) + (if res.Bytes? then [res.raw] else [])
    ensures QuietsAt(p, results + [res])
         == QuietsAt(p, results) + (if res.Bytes? then [] else [|AfterReads(p, RawsOf(results)).items|])
  {
    assert (results + [res])[..|results|] == results;
  }

  /** The operating system's side: an arbitrary script of read results, whose end is a failed read. */
  class Tty {
    var script: seq<ReadResult>

    constructor (script: seq<ReadResult>)
      ensures this.script == script
    {
      this.script := script;
    }

    method Read(buf: array<byte>) returns (n: nat, res: ReadResult)
      requires buf.Length == RAW_BUF_SIZE
      modifies this, buf
      ensures old(script) == [] ==> res == Failed && script == []
      ensures old(script) != [] ==> res == old(script)[0] && script == old(script)[1..]
      ensures res.Bytes? ==> n == |res.raw| && buf[..n] == res.raw
      ensures !res.Bytes? ==> n == 0
    {
      n := 0;
      if script == [] {
        return 0, Failed;
      }
      res, script := script[0], script[1..];
      if res.Bytes? {
        n := |res.raw|;
        forall i | 0 <= i < n { buf[i] := res.raw[i]; }
      }
    }
  }

  lemma DueStep(results: seq<ReadResult>, script: seq<ReadResult>, pollable: bool)
    ensures results + Due(script, pollable)
         == if script == [] || Fails(script[0], pollable) then results
            else results + [script[0]] + Due(script[1..], pollable)
  {
    assert results + [] == results;
  }

  lemma SplitSlice(a: array<byte>, lo: nat, mid: nat, hi: nat)
    requires lo <= mid <= hi <= a.Length
    ensures a[lo..hi][..mid - lo] == a[lo..mid] && a[lo..hi][mid - lo..] == a[mid..hi]
  {
  }

  /** Go's copy of src[lo..lo + n] to the front of dst. */
  method Copy(dst: array<byte>, src: array<byte>, lo: nat, n: nat)
    requires dst != src && n <= dst.Length && lo + n <= src.Length
    modifies dst
    ensures dst[..n] == src[lo..lo + n]
  {
    forall i | 0 <= i < n { dst[i] := src[lo + i]; }
  }

  class SerialPort {
    const tty: Tty
    const platform: Platform
    const pollable: bool

    const dec: Parmrk.Decoder
    const carryBuf: array<byte>
    const outBuf: array<byte>
    var carryLo: nat // carryBuf[carryLo..carryHi] is read but not yet decoded
    var carryHi: nat
    var out: array<byte> // out[outLo..outHi] is decoded but not yet returned
    var outLo: nat
    var outHi: nat
    var mark: Marker // event pending once out drains
    var pendingBreak: bool // a short read is waiting to be reported as a break

    ghost var results: seq<ReadResult> // what was read and did not fail
    ghost var delivered: seq<Item>

    ghost function Raws(): seq<seq<byte>>
      reads this
    {
      RawsOf(results)
    }

    ghost function Carry(): seq<byte>
      reads this, carryBuf
      requires carryLo <= carryHi <= carryBuf.Length
    {
      carryBuf[carryLo..carryHi]
    }

    ghost function Out(): seq<byte>
      reads this, out
      requires outLo <= outHi <= out.Length
    {
      out[outLo..outHi]
    }

    ghost predicate Shape()
      reads this
    {
      && carryBuf.Length == outBuf.Length == RAW_BUF_SIZE
      && carryBuf != outBuf && out != carryBuf
      && carryLo <= carryHi <= carryBuf.Length
      && outLo <= outHi <= out.Length
    }

    ghost predicate Valid()
      reads this, dec, carryBuf, out
    {
      && Shape()
      && AfterReads(platform, Raws()) == Look(dec.state, pendingBreak, delivered, Out(), mark, Carry())
    }

    ghost predicate Drained()
      reads this
    {
      AfterReads(platform, Raws()).items == delivered
    }

    /** How many items were read but not yet delivered. */
    ghost function Undelivered(): nat
      requires Valid()
      reads this, dec, carryBuf, out
    {
      |AfterReads(platform, Raws()).items| - |delivered|
    }

    constructor (tty: Tty, platform: Platform, pollable: bool)
      ensures Valid() && this.tty == tty && this.platform == platform && this.pollable == pollable
      ensures results == [] && delivered == []
      ensures fresh(dec) && fresh(carryBuf) && fresh(outBuf) && fresh(out)
    {
      this.tty, this.platform, this.pollable := tty, platform, pollable;
      dec := new Parmrk.Decoder();
      var ob := new byte[RAW_BUF_SIZE];
      carryBuf := new byte[RAW_BUF_SIZE];
      outBuf, out := ob, ob;
      carryLo, carryHi, outLo, outHi := 0, 0, 0, 0;
      mark, pendingBreak := MarkerNone, false;
      results, delivered := [], [];
    }

    /** Return decoded data, and the pending event once the data is drained. */
    method Serve(buf: array<byte>) returns (n: nat, m: Marker)
      requires Valid() && buf != carryBuf && buf != out
      modifies this`outLo, this`mark, this`delivered, buf
      ensures Valid()
      ensures n == if |old(Out())| <= buf.Length then |old(Out())| else buf.Length
      ensures n < buf.Length ==> Out() == [] && mark == MarkerNone
      ensures old(Out()) == [] ==> n == 0 && m == old(mark)
      ensures delivered == old(delivered) + DataItems(buf[..n]) + MarkerItems(m)
    {
      hide Look, AfterReads, DataItems, MarkerItems;
      n := if outHi - outLo <= buf.Length then outHi - outLo else buf.Length;
      ghost var o := Out();
      LookServe(dec.state, pendingBreak, delivered, o, n, mark, Carry());
      SplitSlice(out, outLo, outLo + n, outHi);
      Copy(buf, out, outLo, n);
      outLo := outLo + n;
      SplitSlice(out, outLo - n, outLo, outHi);
      assert Out() == o[n..];
      m := MarkerNone;
      if outLo == outHi {
        m := mark;
        mark := MarkerNone;
      }
      delivered := delivered + DataItems(buf[..n]) + MarkerItems(m);
      assert m == (if n == |o| then old(mark) else MarkerNone) && Out() == o[n..];
      assert Carry() == old(Carry()) && delivered == old(delivered) + DataItems(o[..n]) + MarkerItems(m);
      assert AfterReads(platform, Raws()) == Look(dec.state, pendingBreak, delivered, o[n..], mark, Carry());
    }

    /** One pass of the decoder over the carry. Nothing undelivered is left in outBuf. */
    method DecodeCarry()
      requires Valid() && Out() == [] && mark == MarkerNone && Carry() != []
      modifies this`carryLo, this`out, this`outLo, this`outHi, this`mark, this`pendingBreak, dec, outBuf
      ensures Valid() && (out == outBuf || fresh(out))
      ensures |Carry()| < |old(Carry())|
      ensures Out() == [] && mark == MarkerNone ==>
                Carry() == [] && Parmrk.Held(dec.state) > Parmrk.Held(old(dec.state))
    {
      hide Look, Finish, AfterReads, DataItems, MarkerItems, Parmrk.Run, Parmrk.EndsOnEvent;
      ghost var c, s := Carry(), dec.state;
      LookNothing(s, pendingBreak, delivered, c);
      var out', n, m, consumed := dec.Decode(outBuf, 0, carryBuf, carryLo, carryHi);
      assert c[..consumed] == carryBuf[carryLo..carryLo + consumed];
      LookDecode(s, pendingBreak, delivered, c, consumed, out'[0..n], m);
      carryLo := carryLo + consumed;
      assert Carry() == c[consumed..];
      if m == MarkerNone && carryLo == carryHi && pendingBreak {
        m := MarkerBreak;
        pendingBreak := false;
      }
      out, outLo, outHi, mark := out', 0, n, m;
    }

    /** Refill the carry, which is empty. */
    method Fill() returns (res: ReadResult)
      requires Valid() && Out() == [] && mark == MarkerNone && Carry() == []
      modifies this`carryLo, this`carryHi, this`pendingBreak, this`results, tty, carryBuf
      ensures Valid() && Out() == [] && mark == MarkerNone
      ensures results == if Fails(res, pollable) then old(results) else old(results) + [res]
      ensures Carry() == if res.Bytes? then res.raw else []
      ensures Raws() == if res.Bytes? then old(Raws()) + [res.raw] else old(Raws())
      ensures !res.Bytes? ==> Drained()
      ensures old(tty.script) == [] ==> res == Failed && tty.script == []
      ensures old(tty.script) != [] ==> res == old(tty.script)[0] && tty.script == old(tty.script)[1..]
    {
      hide Look, Finish, AfterReads, DataItems, MarkerItems, Parmrk.Run, Parmrk.EndsOnEvent, RawsOf;
      var n;
      LookNothing(dec.state, pendingBreak, delivered, []);
      FinishNothing(Stream(dec.state, pendingBreak, delivered));
      ghost var raws := Raws();
      n, res := tty.Read(carryBuf);
      ReadsSnoc(platform, results, res);
      if res.Bytes? {
        carryLo, carryHi := 0, n;
        if platform.breakFromShortRead && n < platform.usbPayloadSize {
          pendingBreak := true;
        }
        assert Out() == [] && Carry() == res.raw;
        AfterReadsSnoc(platform, raws, res.raw);
        LookNothing(dec.state, pendingBreak, delivered, res.raw);
        results := results + [res];
        assert AfterReads(platform, Raws()) == Look(dec.state, pendingBreak, delivered, [], MarkerNone, res.raw);
      } else {
        assert Out() == [] && Carry() == [];
        if !Fails(res, pollable) {
          results := results + [res];
        }
        assert RawsOf(results) == raws + [] == raws;
      }
    }

    /**
     Deliver the next stretch of the stream: data bytes and the event that
     directly follows them. An idle line is reported exactly when it is met, once
     everything read before it has been delivered; so is a failure.
     */
    method ReadChunk(buf: array<byte>) returns (n: nat, m: Marker, ok: bool)
      requires Valid() && buf != carryBuf && buf != out && buf != outBuf
      modifies this, tty, dec, carryBuf, outBuf, buf
      ensures Valid() && (out == old(out) || out == outBuf || fresh(out))
      ensures n <= buf.Length && (n < buf.Length ==> Out() == [] && mark == MarkerNone)
      ensures delivered == old(delivered) + DataItems(buf[..n]) + MarkerItems(m)
      ensures !ok ==> n == 0 && m == MarkerNone && Drained()
      ensures buf.Length > 0 && n == 0 && m == MarkerNone ==> Drained()
      ensures buf.Length > 0 ==>
                QuietsAt(platform, results) ==
                  old(QuietsAt(platform, results)) + (if ok && n == 0 && m == MarkerNone then [|delivered|] else [])
      ensures old(results) <= results && |Raws()| <= |old(Raws())| + 3
      ensures old(results + Due(tty.script, pollable)) == if ok then results + Due(tty.script, pollable) else results
      ensures ok && tty.script == old(tty.script) ==> results == old(results)
      ensures ok && buf.Length > 0 ==>
                |tty.script| < |old(tty.script)| ||
                (|tty.script| == |old(tty.script)| && Undelivered() < old(Undelivered()))
    {
      hide Look, Finish, AfterReads, DataItems, Due, QuietsAt, RawsOf;
      n, m, ok := 0, MarkerNone, true;
      ghost var rounds: nat := 0;
      while true
        invariant Valid() && (out == old(out) || out == outBuf || fresh(out))
        invariant buf != out
        invariant delivered == old(delivered)
        invariant old(results) <= results && |Raws()| == |old(Raws())| + rounds
        invariant QuietsAt(platform, results) == old(QuietsAt(platform, results))
        invariant |tty.script| <= |old(tty.script)| - rounds
        invariant old(results + Due(tty.script, pollable)) == results + Due(tty.script, pollable)
        invariant rounds == 0 ==> results == old(results) && tty.script == old(tty.script)
        invariant if Out() == [] && mark == MarkerNone then
                    rounds <= Parmrk.Held(dec.state) + (if Carry() == [] then 0 else 1)
                  else rounds <= 3
        decreases |tty.script|, |Carry()|
      {
        if outLo < outHi || mark != MarkerNone {
          n, m := Serve(buf);
          return;
        }
        if carryLo < carryHi {
          DecodeCarry();
        } else {
          DueStep(results, tty.script, pollable);
          ghost var before := results;
          var res := Fill();
          ReadsSnoc(platform, before, res);
          assert QuietsAt(platform, before) + [] == QuietsAt(platform, before);
          match res
          case DeadlineExceeded => return 0, MarkerNone, true;
          case Eof =>
            // A blocking read that timed out; on a pollable descriptor, a hangup.
            ok := !pollable;
            return;
          case Failed => return 0, MarkerNone, false;
          case Bytes(_) => rounds := rounds + 1;
        }
      }
    }
  }
}
