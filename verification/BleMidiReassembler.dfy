/**
 The reassembler: joins the fragments of a system-exclusive message that the
 decoder cut at packet boundaries into one `F0 ... F7` message. System
 realtime messages that arrive while a sysex is open are held back and
 delivered right after it, in arrival order. No delta time is lost: what is
 not yet attached to an emitted message is held in the state.
 */
module BleMidiReassembler {
  import opened Midi

  datatype ReassemblerState = ReassemblerState(
    sysex: seq<byte>,      // _bufferSysex
    realtime: seq<Event>,  // _bufferSysrt: queued realtime messages with their deltas
    carry: int,            // _deltaUnaddedReassembly
    sysexStart: int,       // _deltaSysexStart
    after: int)            // _deltaAfter: time since the last queued item of the open sysex

  /** `initializeReassembler`. */
  function InitializeReassembler(): (s: ReassemblerState)
    ensures !InSysex(s) && Inv(s) && Held(s) == 0
  {
    ReassemblerState([], [], 0, 0, 0)
  }

  /** A sysex is open exactly when either buffer is non-empty. */
  predicate InSysex(s: ReassemblerState)
  {
    |s.sysex| > 0 || |s.realtime| > 0
  }

  /** The state invariant: while idle nothing is held but the carry; while a
      sysex is open the carry is empty and the buffer starts with F0. */
  predicate Inv(s: ReassemblerState)
  {
    && (!InSysex(s) ==> s.sysexStart == 0 && s.after == 0)
    && (InSysex(s) ==> s.carry == 0 && |s.sysex| > 0 && s.sysex[0] == 0xF0)
  }

  /** Elapsed time received but not yet attached to an emitted message. */
  function Held(s: ReassemblerState): int
  {
    s.carry + s.sysexStart + SumDeltas(s.realtime) + s.after
  }

  predicate IsRealtime(m: seq<byte>)
  {
    |m| > 0 && m[0] >= 0xF8
  }

  predicate IsContinuation(m: seq<byte>)
  {
    |m| > 0 && m[0] < 0x80
  }

  predicate StartsWith(m: seq<byte>, b: byte)
  {
    |m| > 0 && m[0] == b
  }

  /** `_flush`: emit the open sysex with its start delta, then the queued
      realtime messages in arrival order; the time since the last queued item
      becomes the carry. */
  function Flush(s: ReassemblerState): (r: (ReassemblerState, seq<Event>))
    ensures r.0 == ReassemblerState([], [], s.after, 0, 0)
    ensures r.1 == [Event(s.sysexStart, s.sysex)] + s.realtime
  {
    (ReassemblerState([], [], s.after, 0, 0), [Event(s.sysexStart, s.sysex)] + s.realtime)
  }

  /** After a flush no sysex is open, and all held time but the overwritten
      carry (which is 0 while a sysex is open) is emitted or carried. */
  lemma FlushConservesTime(s: ReassemblerState)
    ensures var r := Flush(s);
      && !InSysex(r.0) && Inv(r.0)
      && SumDeltas(r.1) + Held(r.0) + s.carry == Held(s)
  {
    SumDeltasCons(Event(s.sysexStart, s.sysex), s.realtime);
  }

  /** Open a sysex with fragment `m` (which starts with F0). */
  function Start(s: ReassemblerState, delta: int, m: seq<byte>): ReassemblerState
  {
    ReassemblerState(m, [], 0, s.carry + delta, 0)
  }

  /** `reassemble` while no sysex is open. */
  function ReassembleIdle(s: ReassemblerState, delta: int, m: seq<byte>): (r: (ReassemblerState, seq<Event>))
    // anything but F0/F7 passes straight through with the carry
    ensures !StartsWith(m, 0xF0) && !StartsWith(m, 0xF7) ==>
      r.1 == [Event(s.carry + delta, m)] && r.0 == s.(carry := 0)
    // F0 opens a sysex that takes over the carry
    ensures StartsWith(m, 0xF0) ==>
      r.1 == [] && r.0 == ReassemblerState(m, [], 0, s.carry + delta, 0)
    // a stray F7 is dropped and its time carried
    ensures StartsWith(m, 0xF7) ==>
      r.1 == [] && r.0 == s.(carry := s.carry + delta)
  {
    if !StartsWith(m, 0xF0) && !StartsWith(m, 0xF7) then
      // Non-sysex
      (s.(carry := 0), [Event(s.carry + delta, m)])
    else if StartsWith(m, 0xF0) then
      // Start sysex
      (Start(s, delta, m), [])
    else
      // Unexpected EOX
      (s.(carry := s.carry + delta), [])
  }

  /** `reassemble` while a sysex is open. */
  function ReassembleInSysex(s: ReassemblerState, delta: int, m: seq<byte>): (r: (ReassemblerState, seq<Event>))
    // data extends the buffer; its time counts after the sysex
    ensures IsContinuation(m) ==>
      r.1 == [] && r.0 == s.(sysex := s.sysex + m, after := s.after + delta)
    // realtime is queued with the time since the previous queued item
    ensures IsRealtime(m) ==>
      r.1 == [] && r.0 == s.(realtime := s.realtime + [Event(s.after + delta, m)], after := 0)
    // F7 completes the sysex, which is delivered before the queued realtime
    ensures StartsWith(m, 0xF7) ==>
      r.1 == [Event(s.sysexStart, s.sysex + m)] + s.realtime
      && r.0 == ReassemblerState([], [], s.after + delta, 0, 0)
    // F0 delivers the unterminated sysex and opens a new one
    ensures StartsWith(m, 0xF0) ==>
      r.1 == [Event(s.sysexStart, s.sysex)] + s.realtime
      && r.0 == ReassemblerState(m, [], 0, s.after + delta, 0)
    // anything else delivers the unterminated sysex, the queue, then itself
    ensures !IsContinuation(m) && !IsRealtime(m) && !StartsWith(m, 0xF0) && !StartsWith(m, 0xF7) ==>
      r.1 == [Event(s.sysexStart, s.sysex)] + s.realtime + [Event(s.after + delta, m)]
      && r.0 == ReassemblerState([], [], 0, 0, 0)
  {
    if IsContinuation(m) then
      (s.(sysex := s.sysex + m, after := s.after + delta), [])
    else if IsRealtime(m) then
      (s.(realtime := s.realtime + [Event(s.after + delta, m)], after := 0), [])
    else if StartsWith(m, 0xF7) then
      // EOX: flush
      Flush(s.(sysex := s.sysex + m, after := s.after + delta))
    else if StartsWith(m, 0xF0) then
      // Sysex aborted by the next sysex: flush, then start again
      var fl := Flush(s);
      (Start(fl.0, delta, m), fl.1)
    else
      // Sysex aborted without EOX: flush, then pass the message through
      var fl := Flush(s);
      (fl.0.(carry := 0), fl.1 + [Event(fl.0.carry + delta, m)])
  }

  /** `reassemble`: one decoded fragment in, the completed messages out. */
  function Reassemble(s: ReassemblerState, delta: int, m: seq<byte>): (r: (ReassemblerState, seq<Event>))
    // a sysex is open afterwards exactly when this fragment starts one, or
    // continues or interleaves with one already open
    ensures InSysex(r.0) <==> StartsWith(m, 0xF0) || (InSysex(s) && (IsContinuation(m) || IsRealtime(m)))
  {
    if !InSysex(s) then ReassembleIdle(s, delta, m) else ReassembleInSysex(s, delta, m)
  }

  lemma IdleConservesTime(s: ReassemblerState, delta: int, m: seq<byte>)
    requires Inv(s) && !InSysex(s)
    ensures var r := ReassembleIdle(s, delta, m);
      Inv(r.0) && SumDeltas(r.1) + Held(r.0) == Held(s) + delta
  {
    assert SumDeltas(s.realtime) == 0;
    if !StartsWith(m, 0xF0) && !StartsWith(m, 0xF7) {
      var e := Event(s.carry + delta, m);
      assert [e][..0] == [];
      assert SumDeltas([e]) == e.delta;
    }
  }

  lemma InSysexConservesTime(s: ReassemblerState, delta: int, m: seq<byte>)
    requires Inv(s) && InSysex(s)
    ensures var r := ReassembleInSysex(s, delta, m);
      Inv(r.0) && SumDeltas(r.1) + Held(r.0) == Held(s) + delta
  {
    if IsContinuation(m) {
    } else if IsRealtime(m) {
      var q := s.realtime + [Event(s.after + delta, m)];
      assert q[..|q| - 1] == s.realtime;
    } else if StartsWith(m, 0xF7) {
      SumDeltasCons(Event(s.sysexStart, s.sysex + m), s.realtime);
    } else if StartsWith(m, 0xF0) {
      SumDeltasCons(Event(s.sysexStart, s.sysex), s.realtime);
    } else {
      var fl := [Event(s.sysexStart, s.sysex)] + s.realtime;
      SumDeltasCons(Event(s.sysexStart, s.sysex), s.realtime);
      SumDeltasAppend(fl, [Event(s.after + delta, m)]);
      SumDeltasCons(Event(s.after + delta, m), []);
    }
  }

  /** `reassemble` keeps the invariant and conserves time: what it emits plus
      what it holds afterwards is what it held before plus the fragment's
      delta. */
  lemma ReassembleConservesTime(s: ReassemblerState, delta: int, m: seq<byte>)
    requires Inv(s)
    ensures var r := Reassemble(s, delta, m);
      Inv(r.0) && SumDeltas(r.1) + Held(r.0) == Held(s) + delta
  {
    if !InSysex(s) {
      IdleConservesTime(s, delta, m);
    } else {
      InSysexConservesTime(s, delta, m);
    }
  }

  /** Feed a sequence of fragments, collecting everything emitted. */
  function Run(s: ReassemblerState, ins: seq<Event>): (ReassemblerState, seq<Event>)
    decreases |ins|
  {
    if |ins| == 0 then (s, [])
    else
      var step := Reassemble(s, ins[0].delta, ins[0].msg);
      var rest := Run(step.0, ins[1..]);
      (rest.0, step.1 + rest.1)
  }

  // ---------------------------------------------------------------------------
  // Properties
  // ---------------------------------------------------------------------------

  /** Time conservation over any run of fragments: everything received is
      either emitted or still held. */
  lemma {:induction false} RunConservesTime(s: ReassemblerState, ins: seq<Event>)
    requires Inv(s)
    ensures SumDeltas(Run(s, ins).1) + Held(Run(s, ins).0) == Held(s) + SumDeltas(ins)
    decreases |ins|
  {
    if |ins| > 0 {
      var step := Reassemble(s, ins[0].delta, ins[0].msg);
      ReassembleConservesTime(s, ins[0].delta, ins[0].msg);
      RunConservesTime(step.0, ins[1..]);
      SumDeltasAppend(step.1, Run(step.0, ins[1..]).1);
      SumDeltasCons(ins[0], ins[1..]);
      assert ins == [ins[0]] + ins[1..];
    }
  }

  /** Feeding `a` then `b` is feeding `a + b`. */
  lemma {:induction false} RunAppend(s: ReassemblerState, a: seq<Event>, b: seq<Event>)
    ensures var ra := Run(s, a); var rb := Run(ra.0, b);
      Run(s, a + b) == (rb.0, ra.1 + rb.1)
    decreases |a|
  {
    if |a| == 0 {
      assert a + b == b;
      var rb := Run(s, b);
      assert Run(s, a) == (s, []);
      assert [] + rb.1 == rb.1;
    } else {
      var step := Reassemble(s, a[0].delta, a[0].msg);
      assert (a + b)[0] == a[0] && (a + b)[1..] == a[1..] + b;
      RunAppend(step.0, a[1..], b);
      var ra' := Run(step.0, a[1..]);
      var rb := Run(ra'.0, b);
      assert step.1 + (ra'.1 + rb.1) == (step.1 + ra'.1) + rb.1;
    }
  }

  lemma RunSingle(s: ReassemblerState, e: Event)
    ensures Run(s, [e]) == Reassemble(s, e.delta, e.msg)
  {
    var step := Reassemble(s, e.delta, e.msg);
    assert [e][1..] == [];
    assert Run(step.0, []) == (step.0, []);
    assert step.1 + [] == step.1;
  }

  /** The bytes of the data fragments among `xs`, in order. */
  function DataBytes(xs: seq<Event>): seq<byte>
  {
    if |xs| == 0 then []
    else (if IsContinuation(xs[0].msg) then xs[0].msg else []) + DataBytes(xs[1..])
  }

  /** The realtime messages among `xs`, in order. */
  function RealtimeMessages(xs: seq<Event>): seq<seq<byte>>
  {
    if |xs| == 0 then []
    else (if IsRealtime(xs[0].msg) then [xs[0].msg] else []) + RealtimeMessages(xs[1..])
  }

  /** Inside an open sysex, data fragments and realtime messages emit nothing:
      the data extends the buffer and the realtime messages join the queue,
      both in arrival order. */
  lemma {:induction false} OpenSysexAccumulates(s: ReassemblerState, xs: seq<Event>)
    requires Inv(s) && InSysex(s)
    requires forall i :: 0 <= i < |xs| ==> IsContinuation(xs[i].msg) || IsRealtime(xs[i].msg)
    ensures var r := Run(s, xs);
      && r.1 == [] && InSysex(r.0)
      && r.0.sysex == s.sysex + DataBytes(xs) && r.0.sysexStart == s.sysexStart
      && Messages(r.0.realtime) == Messages(s.realtime) + RealtimeMessages(xs)
    decreases |xs|
  {
    if |xs| > 0 {
      var step := Reassemble(s, xs[0].delta, xs[0].msg);
      OpenSysexStep(s, xs[0]);
      OpenSysexAccumulates(step.0, xs[1..]);
      var rest := Run(step.0, xs[1..]);
      assert Run(s, xs) == (rest.0, step.1 + rest.1);
      var data := if IsContinuation(xs[0].msg) then xs[0].msg else [];
      var rt := if IsRealtime(xs[0].msg) then [xs[0].msg] else [];
      assert DataBytes(xs) == data + DataBytes(xs[1..]);
      assert RealtimeMessages(xs) == rt + RealtimeMessages(xs[1..]);
      assert s.sysex + data + DataBytes(xs[1..]) == s.sysex + (data + DataBytes(xs[1..]));
    }
  }

  /** One data fragment or realtime message inside an open sysex. */
  lemma OpenSysexStep(s: ReassemblerState, e: Event)
    requires Inv(s) && InSysex(s) && (IsContinuation(e.msg) || IsRealtime(e.msg))
    ensures var step := Reassemble(s, e.delta, e.msg);
      && step.1 == [] && Inv(step.0) && InSysex(step.0)
      && step.0.sysexStart == s.sysexStart
      && step.0.sysex == s.sysex + (if IsContinuation(e.msg) then e.msg else [])
      && Messages(step.0.realtime) == Messages(s.realtime) + (if IsRealtime(e.msg) then [e.msg] else [])
  {
    var step := Reassemble(s, e.delta, e.msg);
    if IsRealtime(e.msg) {
      assert Messages(step.0.realtime) == Messages(s.realtime) + [e.msg];
    } else {
      assert s.sysex + e.msg == s.sysex + (if IsContinuation(e.msg) then e.msg else []);
    }
  }

  /** A sysex cut into a start fragment, data fragments with realtime messages
      in between, and a closing F7 fragment, comes out as one message
      `start ++ data ++ F7...` carrying the carry plus the start's delta,
      followed by the realtime messages in arrival order. */
  lemma SysexReassembly(s: ReassemblerState, first: Event, xs: seq<Event>, last: Event)
    requires Inv(s) && !InSysex(s)
    requires StartsWith(first.msg, 0xF0) && StartsWith(last.msg, 0xF7)
    requires forall i :: 0 <= i < |xs| ==> IsContinuation(xs[i].msg) || IsRealtime(xs[i].msg)
    ensures var r := Run(s, [first] + xs + [last]);
      && !InSysex(r.0)
      && Messages(r.1) == [first.msg + DataBytes(xs) + last.msg] + RealtimeMessages(xs)
      && r.1[0].delta == s.carry + first.delta
  {
    RunSingle(s, first);
    var s1 := Run(s, [first]).0;
    assert Run(s, [first]).1 == [];
    OpenSysexAccumulates(s1, xs);
    var s2 := Run(s1, xs).0;
    RunSingle(s2, last);
    var fin := Run(s2, [last]);
    assert fin.1 == [Event(s2.sysexStart, s2.sysex + last.msg)] + s2.realtime;
    RunAppend(s, [first], xs);
    RunAppend(s, [first] + xs, [last]);
    MessagesAppend([Event(s2.sysexStart, s2.sysex + last.msg)], s2.realtime);
  }

  /** The sysex `F0 01 02`, `03 04`, `05`, closed by `F7`, reassembles into
      exactly `F0 01 02 03 04 05 F7` carrying the carry plus the first
      fragment's delta; the later fragments' time is carried on. */
  lemma SysexExample(s: ReassemblerState)
    requires Inv(s) && !InSysex(s)
    ensures var r := Run(s, [Event(3, [0xF0, 0x01, 0x02]), Event(1, [0x03, 0x04]), Event(2, [0x05]), Event(4, [0xF7])]);
      r.1 == [Event(s.carry + 3, [0xF0, 0x01, 0x02, 0x03, 0x04, 0x05, 0xF7])] && r.0.carry == 7
  {
    var e1, e2, e3, e4 := Event(3, [0xF0, 0x01, 0x02]), Event(1, [0x03, 0x04]), Event(2, [0x05]), Event(4, [0xF7]);
    var s1 := Reassemble(s, 3, [0xF0, 0x01, 0x02]).0;
    var s2 := Reassemble(s1, 1, [0x03, 0x04]).0;
    var s3 := Reassemble(s2, 2, [0x05]).0;
    assert s3 == ReassemblerState([0xF0, 0x01, 0x02, 0x03, 0x04, 0x05], [], 0, s.carry + 3, 3);
    RunSingle(s3, e4);
    assert s3.sysex + [0xF7] == [0xF0, 0x01, 0x02, 0x03, 0x04, 0x05, 0xF7];
    assert [Event(s3.sysexStart, s3.sysex + [0xF7])] + s3.realtime == [Event(s3.sysexStart, s3.sysex + [0xF7])];
    assert Run(s3, [e4]).1 == [Event(s.carry + 3, [0xF0, 0x01, 0x02, 0x03, 0x04, 0x05, 0xF7])];
    assert Run(s2, [e3, e4]) == Run(s3, [e4]) by {
      assert [e3, e4][1..] == [e4];
      assert Reassemble(s2, 2, [0x05]) == (s3, []);
      assert [] + Run(s3, [e4]).1 == Run(s3, [e4]).1;
    }
    assert Run(s1, [e2, e3, e4]) == Run(s3, [e4]) by {
      assert [e2, e3, e4][1..] == [e3, e4];
      assert Reassemble(s1, 1, [0x03, 0x04]) == (s2, []);
    }
    assert Run(s, [e1, e2, e3, e4]) == Run(s3, [e4]) by {
      assert [e1, e2, e3, e4][1..] == [e2, e3, e4];
      assert Reassemble(s, 3, [0xF0, 0x01, 0x02]) == (s1, []);
    }
  }

  /** A fragment `05 F7` is data (its first byte is below 0x80): the EOX is
      buffered but does not close the sysex, so nothing is emitted yet. */
  lemma TrailingEoxInDataFragment(s: ReassemblerState)
    requires Inv(s) && !InSysex(s)
    ensures var r := Run(s, [Event(0, [0xF0, 0x01, 0x02]), Event(0, [0x03, 0x04]), Event(0, [0x05, 0xF7])]);
      r.1 == [] && InSysex(r.0) && r.0.sysex == [0xF0, 0x01, 0x02, 0x03, 0x04, 0x05, 0xF7]
  {
    var s1 := Reassemble(s, 0, [0xF0, 0x01, 0x02]).0;
    var s2 := Reassemble(s1, 0, [0x03, 0x04]).0;
    assert s2.sysex == [0xF0, 0x01, 0x02, 0x03, 0x04];
  }

  /** Realtime during a sysex: `F8` (delta 5) arriving after a data fragment
      (delta 2) is delivered right after the sysex with delta 7, the time
      since the sysex's last queued item. */
  lemma RealtimeDuringSysexExample(s: ReassemblerState)
    requires Inv(s) && !InSysex(s)
    ensures var r := Run(s, [Event(1, [0xF0, 0x7E]), Event(2, [0x01]), Event(5, [0xF8]), Event(3, [0x02]), Event(4, [0xF7])]);
      r.1 == [Event(s.carry + 1, [0xF0, 0x7E, 0x01, 0x02, 0xF7]), Event(7, [0xF8])] && r.0.carry == 7
  {
    var e1, e2, e3, e4, e5 := Event(1, [0xF0, 0x7E]), Event(2, [0x01]), Event(5, [0xF8]), Event(3, [0x02]), Event(4, [0xF7]);
    var s1 := Reassemble(s, 1, [0xF0, 0x7E]).0;
    var s2 := Reassemble(s1, 2, [0x01]).0;
    var s3 := Reassemble(s2, 5, [0xF8]).0;
    assert s3 == ReassemblerState([0xF0, 0x7E, 0x01], [Event(7, [0xF8])], 0, s.carry + 1, 0);
    var s4 := Reassemble(s3, 3, [0x02]).0;
    assert s4 == ReassemblerState([0xF0, 0x7E, 0x01, 0x02], [Event(7, [0xF8])], 0, s.carry + 1, 3);
    RunSingle(s4, e5);
    assert s4.sysex + [0xF7] == [0xF0, 0x7E, 0x01, 0x02, 0xF7];
    assert Run(s4, [e5]).1 == [Event(s.carry + 1, [0xF0, 0x7E, 0x01, 0x02, 0xF7]), Event(7, [0xF8])];
    assert Run(s3, [e4, e5]) == Run(s4, [e5]) by {
      assert [e4, e5][1..] == [e5];
      assert Reassemble(s3, 3, [0x02]) == (s4, []);
      assert [] + Run(s4, [e5]).1 == Run(s4, [e5]).1;
    }
    assert Run(s2, [e3, e4, e5]) == Run(s4, [e5]) by {
      assert [e3, e4, e5][1..] == [e4, e5];
      assert Reassemble(s2, 5, [0xF8]) == (s3, []);
    }
    assert Run(s1, [e2, e3, e4, e5]) == Run(s4, [e5]) by {
      assert [e2, e3, e4, e5][1..] == [e3, e4, e5];
      assert Reassemble(s1, 2, [0x01]) == (s2, []);
    }
    assert Run(s, [e1, e2, e3, e4, e5]) == Run(s4, [e5]) by {
      assert [e1, e2, e3, e4, e5][1..] == [e2, e3, e4, e5];
      assert Reassemble(s, 1, [0xF0, 0x7E]) == (s1, []);
    }
  }
}
