/**
 The PARMRK escape automaton (section 11.2.2 "Input Modes" of IEEE Std 1003.1,
 Base Definitions). `Run` is the reference semantics, one byte at a time;
 `Decoder.Decode` is the buffered decoder that stops at the first line event.
 */
module Parmrk {
  import opened Dmx

  datatype State = Idle | SawFF | SawFF00

  datatype Decoded = Decoded(state: State, items: seq<Item>)

  /** What one wire byte does to the automaton. */
  function Step(s: State, b: byte): Decoded {
    match s
    case Idle => if b == 0xFF then Decoded(SawFF, []) else Decoded(Idle, [Data(b)])
    case SawFF =>
      if b == 0xFF then Decoded(Idle, [Data(0xFF)])
      else if b == 0 then Decoded(SawFF00, [])
      else Decoded(Idle, [Data(0xFF), Data(b)])
    case SawFF00 => Decoded(Idle, [if b == 0 then Break else Error])
  }

  function Run(s: State, wire: seq<byte>): Decoded {
    if wire == [] then Decoded(s, [])
    else
      var d := Run(s, wire[..|wire| - 1]);
      var e := Step(d.state, wire[|wire| - 1]);
      Decoded(e.state, d.items + e.items)
  }

  /** Decoding in pieces with carried state is decoding the whole. */
  lemma {:induction false} RunAppend(s: State, a: seq<byte>, b: seq<byte>)
    ensures Run(s, a + b).state == Run(Run(s, a).state, b).state
    ensures Run(s, a + b).items == Run(s, a).items + Run(Run(s, a).state, b).items
  {
    if b == [] {
      assert a + b == a;
    } else {
      assert (a + b)[..|a + b| - 1] == a + b[..|b| - 1];
      RunAppend(s, a, b[..|b| - 1]);
    }
  }

  lemma {:induction false} ChunkInvariance(s: State, parts: seq<seq<byte>>)
    ensures Run(s, Concat(parts)) == RunParts(s, parts)
  {
    if parts != [] {
      ChunkInvariance(s, parts[..|parts| - 1]);
      RunAppend(s, Concat(parts[..|parts| - 1]), parts[|parts| - 1]);
    }
  }

  function RunParts(s: State, parts: seq<seq<byte>>): Decoded {
    if parts == [] then Decoded(s, [])
    else
      var d := RunParts(s, parts[..|parts| - 1]);
      var e := Run(d.state, parts[|parts| - 1]);
      Decoded(e.state, d.items + e.items)
  }

  // ----- round trip -----

  type NonZeroByte = b: byte | b != 0 witness 1

  /** A line as the driver sees it, before escaping. */
  datatype LineEvent = Byte(value: byte) | LineBreak | LineError(bad: NonZeroByte)

  function Escape(e: LineEvent): seq<byte> {
    match e
    case Byte(b) => if b == 0xFF then [0xFF, 0xFF] else [b]
    case LineBreak => [0xFF, 0, 0]
    case LineError(x) => [0xFF, 0, x as byte]
  }

  function EscapeAll(es: seq<LineEvent>): seq<byte> {
    if es == [] then [] else EscapeAll(es[..|es| - 1]) + Escape(es[|es| - 1])
  }

  function Forget(e: LineEvent): Item {
    match e
    case Byte(b) => Data(b)
    case LineBreak => Break
    case LineError(_) => Error
  }

  function ForgetAll(es: seq<LineEvent>): seq<Item> {
    if es == [] then [] else ForgetAll(es[..|es| - 1]) + [Forget(es[|es| - 1])]
  }

  lemma RunEscape(e: LineEvent)
    ensures Run(Idle, Escape(e)) == Decoded(Idle, [Forget(e)])
  {
    var w := Escape(e);
    if |w| == 1 {
      RunOne(Idle, w[0]);
    } else if |w| == 2 {
      assert w == [w[0]] + [w[1]];
      RunAppend(Idle, [w[0]], [w[1]]);
      RunOne(Idle, w[0]);
      RunOne(SawFF, w[1]);
    } else {
      assert w == [w[0]] + ([w[1]] + [w[2]]);
      RunAppend(Idle, [w[0]], [w[1]] + [w[2]]);
      RunAppend(SawFF, [w[1]], [w[2]]);
      RunOne(Idle, w[0]);
      RunOne(SawFF, w[1]);
      RunOne(SawFF00, w[2]);
    }
  }

  lemma RunOne(s: State, b: byte)
    ensures Run(s, [b]) == Step(s, b)
  {
    assert [b][..0] == [];
    assert Run(s, [b][..0]) == Decoded(s, []);
  }

  /** Decoding undoes escaping; only the value of an erroneous byte is lost. */
  lemma {:induction false} RoundTrip(es: seq<LineEvent>)
    ensures Run(Idle, EscapeAll(es)) == Decoded(Idle, ForgetAll(es))
  {
    if es != [] {
      var e0, e := es[..|es| - 1], es[|es| - 1];
      var w0, w1 := EscapeAll(e0), Escape(e);
      RoundTrip(e0);
      RunAppend(Idle, w0, w1);
      RunEscape(e);
    }
  }

  /** A lone FF, which no conforming driver sends, is data, and so is the byte after it. */
  lemma LoneFF(es: seq<LineEvent>, b: byte)
    requires b != 0 && b != 0xFF
    ensures Run(Idle, EscapeAll(es) + [0xFF, b]) == Decoded(Idle, ForgetAll(es) + [Data(0xFF), Data(b)])
  {
    RoundTrip(es);
    RunAppend(Idle, EscapeAll(es), [0xFF, b]);
    assert [0xFF, b] == [0xFF] + [b];
    RunAppend(Idle, [0xFF], [b]);
    RunOne(Idle, 0xFF);
    RunOne(SawFF, b);
  }

  // ----- byte accounting -----

  function Held(s: State): nat {
    match s case Idle => 0 case SawFF => 1 case SawFF00 => 2
  }

  /** Decoding never invents bytes: output plus held bytes is bounded by input plus held bytes. */
  lemma {:induction false} Accounting(s: State, wire: seq<byte>)
    ensures |Run(s, wire).items| + Held(Run(s, wire).state) <= |wire| + Held(s)
  {
    if wire != [] {
      Accounting(s, wire[..|wire| - 1]);
    }
  }

  /** The bytes end exactly on the last byte of a line event. */
  predicate EndsOnEvent(s: State, wire: seq<byte>) {
    wire != [] && Run(s, wire[..|wire| - 1]).state == SawFF00
  }

  /** That is: the last thing decoded is an event, and nothing is held. */
  lemma EndsOnEventIff(s: State, wire: seq<byte>)
    requires wire != []
    ensures var d := Run(s, wire);
            EndsOnEvent(s, wire) <==> d.state == Idle && d.items != [] && !d.items[|d.items| - 1].Data?
  {
  }

  lemma EndsOnEventSuffix(s: State, a: seq<byte>, b: seq<byte>)
    requires b != []
    ensures EndsOnEvent(s, a + b) == EndsOnEvent(Run(s, a).state, b)
  {
    assert (a + b)[..|a + b| - 1] == a + b[..|b| - 1];
    RunAppend(s, a, b[..|b| - 1]);
  }

  // ----- the decoder -----

  /** Go's append on a slice of a fixed buffer: in place while there is room, else a larger copy. */
  method Append(a: array<byte>, n: nat, b: byte) returns (r: array<byte>)
    requires n <= a.Length
    modifies a
    ensures r == a || fresh(r)
    ensures n < a.Length ==> r == a
    ensures n < r.Length
    ensures r[..n + 1] == old(a[..n]) + [b]
  {
    if n < a.Length {
      r := a;
    } else {
      r := new byte[2 * n + 1];
      forall i | 0 <= i < n { r[i] := a[i]; }
      assert r[..n] == a[..n];
    }
    r[n] := b;
    assert r[..n + 1] == r[..n] + [b];
  }

  /**
   Where the decoder stands, `data` put out so far, when the reference is at r.
   In the `again` case it has put out a lone FF as data without consuming `next`.
   */
  ghost predicate At(r: Decoded, s: State, data: seq<byte>, again: bool, next: seq<byte>) {
    if again then
      && s == Idle && next != [] && next[0] != 0 && next[0] != 0xFF
      && r.state == SawFF && r.items + [Data(0xFF)] == DataItems(data)
    else
      r == Decoded(s, DataItems(data))
  }

  /** One pass of the decoder's loop: new state, bytes put out, event found, whether b was consumed. */
  datatype Pass = Pass(state: State, out: seq<byte>, marker: Marker, consumed: bool)

  function PassOf(s: State, b: byte): Pass {
    match s
    case Idle => if b == 0xFF then Pass(SawFF, [], MarkerNone, true) else Pass(Idle, [b], MarkerNone, true)
    case SawFF =>
      if b == 0xFF then Pass(Idle, [0xFF], MarkerNone, true)
      else if b == 0 then Pass(SawFF00, [], MarkerNone, true)
      else Pass(Idle, [0xFF], MarkerNone, false)
    case SawFF00 => Pass(Idle, [], if b == 0 then MarkerBreak else MarkerError, true)
  }

  function After(r: Decoded, b: byte): Decoded {
    Decoded(Step(r.state, b).state, r.items + Step(r.state, b).items)
  }

  lemma RunSnoc(s: State, w: seq<byte>, b: byte)
    ensures Run(s, w + [b]) == After(Run(s, w), b)
    ensures EndsOnEvent(s, w + [b]) <==> Run(s, w).state == SawFF00
  {
    assert (w + [b])[..|w|] == w;
  }

  lemma RunNothing(s: State)
    ensures Run(s, []) == Decoded(s, DataItems([])) && !EndsOnEvent(s, [])
  {
  }

  lemma PassFollowsStep(r: Decoded, s: State, data: seq<byte>, again: bool, next: seq<byte>)
    requires At(r, s, data, again, next) && next != []
    ensures var p := PassOf(s, next[0]);
            if p.marker != MarkerNone then
              r.state == SawFF00 && After(r, next[0]) == Decoded(p.state, DataItems(data + p.out) + MarkerItems(p.marker))
            else if p.consumed then
              r.state != SawFF00 && At(After(r, next[0]), p.state, data + p.out, false, next[1..])
            else
              r.state != SawFF00 && At(r, p.state, data + p.out, true, next)
  {
    var p := PassOf(s, next[0]);
    DataItemsAppend(data, p.out);
    if p.out == [] {
      assert data + p.out == data;
    } else {
      assert DataItems(p.out) == [Data(p.out[0])];
    }
  }

  class Decoder {
    var state: State

    constructor ()
      ensures state == Idle
    {
      state := Idle;
    }

    /** The body of the decoding loop. */
    method Feed(dst: array<byte>, len: nat, b: byte)
      returns (out: array<byte>, outLen: nat, m: Marker, consumed: bool)
      requires len <= dst.Length
      modifies this, dst
      ensures out == dst || fresh(out)
      ensures outLen <= out.Length && len <= outLen
      ensures out[..outLen] == old(dst[..len]) + PassOf(old(state), b).out
      ensures Pass(state, PassOf(old(state), b).out, m, consumed) == PassOf(old(state), b)
    {
      out, outLen, m, consumed := dst, len, MarkerNone, true;
      match state
      case Idle =>
        if b == 0xFF {
          state := SawFF;
        } else {
          out := Append(out, outLen, b);
          outLen := outLen + 1;
        }
      case SawFF =>
        if b == 0xFF {
          out := Append(out, outLen, 0xFF);
          outLen := outLen + 1;
          state := Idle;
        } else if b == 0 {
          state := SawFF00;
        } else {
          // Not reachable from a conforming tty: keep the FF, look at b again.
          out := Append(out, outLen, 0xFF);
          outLen := outLen + 1;
          state := Idle;
          consumed := false;
        }
      case SawFF00 =>
        state := Idle;
        m := if b == 0 then MarkerBreak else MarkerError;
    }

    /**
     Decode src[lo..hi] onto dst[..len] up to the first line event. What was
     consumed is decoded exactly as the reference decodes it; a missing event
     means that everything was consumed.
     */
    method Decode(dst: array<byte>, len: nat, src: array<byte>, lo: nat, hi: nat)
      returns (out: array<byte>, outLen: nat, m: Marker, consumed: nat)
      requires len <= dst.Length && lo <= hi <= src.Length && dst != src
      modifies this, dst
      ensures out == dst || fresh(out)
      ensures len <= outLen <= out.Length && out[..len] == old(dst[..len])
      ensures consumed <= hi - lo && (lo < hi ==> 0 < consumed)
      ensures Run(old(state), src[lo..lo + consumed])
           == Decoded(state, DataItems(out[len..outLen]) + MarkerItems(m))
      ensures m == MarkerNone ==> consumed == hi - lo
      ensures EndsOnEvent(old(state), src[lo..lo + consumed]) <==> m != MarkerNone
    {
      hide Run, EndsOnEvent;
      RunNothing(state);
      out, outLen, m := dst, len, MarkerNone;
      ghost var s0, kept := state, dst[..len];
      ghost var w: seq<byte>, rest, data: seq<byte> := [], src[lo..hi], [];
      ghost var again := false;
      var i := 0;
      while i < hi - lo && m == MarkerNone
        invariant i <= hi - lo && (m != MarkerNone ==> 0 < i)
        invariant w == src[lo..lo + i] && rest == src[lo + i..hi]
        invariant out == dst || fresh(out)
        invariant out != src
        invariant outLen <= out.Length && out[..outLen] == kept + data
        invariant m == MarkerNone ==> At(Run(s0, w), state, data, again, rest)
        invariant m != MarkerNone ==> Run(s0, w) == Decoded(state, DataItems(data) + MarkerItems(m))
        invariant m != MarkerNone <==> EndsOnEvent(s0, w)
        decreases hi - lo - i, Held(state)
      {
        var b := src[lo + i];
        PassFollowsStep(Run(s0, w), state, data, again, rest);
        RunSnoc(s0, w, b);
        ghost var p := PassOf(state, b);
        var taken;
        out, outLen, m, taken := Feed(out, outLen, b);
        assert (kept + data) + p.out == kept + (data + p.out);
        data, again := data + p.out, !taken;
        if taken {
          i, w, rest := i + 1, w + [b], rest[1..];
        }
      }
      consumed := i;
      assert data == out[len..outLen];
    }
  }
}
