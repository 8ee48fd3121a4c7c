/**
 The filter stage: drops messages whose status byte is on a configured list
 (by default system common and system realtime messages other than the EOX)
 and passes the rest through. The delta time of a dropped message is not
 lost: it is added to the delta of the next message that passes.
 */
module MidiFilter {
  import opened Midi

  datatype FilterState = FilterState(
    statusBytes: seq<int>,  // filterStatusByte
    carry: int)             // _deltaUnadded

  /** The constructor's default list: F1-F6 and F8-FF. */
  const DefaultStatusBytes: seq<int> :=
    [0xF1, 0xF2, 0xF3, 0xF4, 0xF5, 0xF6, 0xF8, 0xF9, 0xFA, 0xFB, 0xFC, 0xFD, 0xFE, 0xFF]

  /** The default list drops exactly the system common and system realtime
      statuses except F7: channel messages, F0 and F7 all pass. */
  lemma DefaultStatusBytesExactly(x: int)
    ensures x in DefaultStatusBytes <==> 0xF1 <= x <= 0xFF && x != 0xF7
  {
    if 0xF1 <= x <= 0xFF && x != 0xF7 {
      assert DefaultStatusBytes[x - 0xF1 - (if x > 0xF7 then 1 else 0)] == x;
    }
  }

  /** A new filter (constructor) starts with no carried time. */
  function NewFilter(statusBytes: seq<int>): (f: FilterState)
    ensures f.statusBytes == statusBytes && f.carry == 0
  {
    FilterState(statusBytes, 0)
  }

  /** `initialize`: the next passed message gets only its own delta. */
  function Initialize(f: FilterState): (r: FilterState)
    ensures r.statusBytes == f.statusBytes && r.carry == 0
  {
    f.(carry := 0)
  }

  /** `message[0] === f` for some listed `f`; an empty message has no first
      byte (`undefined`), which equals no number. */
  predicate Dropped(statusBytes: seq<int>, m: seq<byte>)
  {
    |m| > 0 && m[0] in statusBytes
  }

  /** `filter`: one message in, zero or one message out. */
  function Filter(f: FilterState, delta: int, m: seq<byte>): (r: (FilterState, seq<Event>))
    ensures r.0.statusBytes == f.statusBytes
    ensures Dropped(f.statusBytes, m) ==> r.1 == [] && r.0.carry == f.carry + delta
    ensures !Dropped(f.statusBytes, m) ==> r.1 == [Event(f.carry + delta, m)] && r.0.carry == 0
  {
    if Dropped(f.statusBytes, m) then
      (f.(carry := f.carry + delta), [])
    else
      (f.(carry := 0), [Event(f.carry + delta, m)])
  }

  /** Feed a sequence of messages, collecting what passes. */
  function RunFilter(f: FilterState, ins: seq<Event>): (FilterState, seq<Event>)
    decreases |ins|
  {
    if |ins| == 0 then (f, [])
    else
      var step := Filter(f, ins[0].delta, ins[0].msg);
      var rest := RunFilter(step.0, ins[1..]);
      (rest.0, step.1 + rest.1)
  }

  /** Reference definition: the messages of `ins` not on the list, in order. */
  function Passed(statusBytes: seq<int>, ins: seq<Event>): seq<seq<byte>>
  {
    if |ins| == 0 then []
    else (if Dropped(statusBytes, ins[0].msg) then [] else [ins[0].msg]) + Passed(statusBytes, ins[1..])
  }

  /** The filter passes exactly the unlisted messages, unchanged and in order. */
  lemma {:induction false} RunFilterPassesUnlisted(f: FilterState, ins: seq<Event>)
    ensures Messages(RunFilter(f, ins).1) == Passed(f.statusBytes, ins)
    ensures RunFilter(f, ins).0.statusBytes == f.statusBytes
    decreases |ins|
  {
    if |ins| > 0 {
      var step := Filter(f, ins[0].delta, ins[0].msg);
      RunFilterPassesUnlisted(step.0, ins[1..]);
      MessagesAppend(step.1, RunFilter(step.0, ins[1..]).1);
    }
  }

  /** No time is lost: the deltas passed on plus the time still carried equal
      the carry before plus every delta received. */
  lemma {:induction false} RunFilterConservesTime(f: FilterState, ins: seq<Event>)
    ensures SumDeltas(RunFilter(f, ins).1) + RunFilter(f, ins).0.carry == f.carry + SumDeltas(ins)
    decreases |ins|
  {
    if |ins| > 0 {
      var step := Filter(f, ins[0].delta, ins[0].msg);
      RunFilterConservesTime(step.0, ins[1..]);
      SumDeltasAppend(step.1, RunFilter(step.0, ins[1..]).1);
      SumDeltasCons(ins[0], ins[1..]);
      assert ins == [ins[0]] + ins[1..];
      if !Dropped(f.statusBytes, ins[0].msg) {
        SumDeltasCons(Event(f.carry + ins[0].delta, ins[0].msg), []);
      }
    }
  }

  /** A passed message carries the time of every message dropped since the
      previous one: after the realtime clock `F8` (delta 4) is dropped, the
      note-on (delta 6) is passed with delta 10. */
  lemma DropCarriesTimeExample(f: FilterState)
    requires f.statusBytes == DefaultStatusBytes && f.carry == 0
    ensures RunFilter(f, [Event(4, [0xF8]), Event(6, [0x90, 0x3C, 0x40])]).1 == [Event(10, [0x90, 0x3C, 0x40])]
  {
    var e1, e2 := Event(4, [0xF8]), Event(6, [0x90, 0x3C, 0x40]);
    DefaultStatusBytesExactly(0xF8);
    DefaultStatusBytesExactly(0x90);
    var f1 := Filter(f, 4, [0xF8]).0;
    assert f1.carry == 4;
    var r2 := Filter(f1, 6, [0x90, 0x3C, 0x40]);
    assert r2.1 == [Event(10, [0x90, 0x3C, 0x40])];
    assert RunFilter(r2.0, []) == (r2.0, []);
    assert [e1, e2][1..] == [e2];
    assert [e2][1..] == [];
    assert RunFilter(f1, [e2]).1 == r2.1 + [];
    assert RunFilter(f, [e1, e2]).1 == [] + RunFilter(f1, [e2]).1;
  }
}
