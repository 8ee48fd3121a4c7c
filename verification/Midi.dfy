/**
 Shared vocabulary of the recording pipeline: bytes, optional values and the
 `(delta, message)` events that every stage consumes and produces.
 */
module Midi {

  /** An octet, as stored in a `Uint8Array`. */
  type byte = x: int | 0 <= x < 256

  datatype Option<+T> = None | Some(value: T)

  /** One MIDI message (or fragment of one) with its delta time in milliseconds. */
  datatype Event = Event(delta: int, msg: seq<byte>)

  /** The byte at index `i`, or 0 past the end: JavaScript reads `undefined`
      there, and `new Uint8Array([.., undefined])` stores it as 0. */
  function At(bs: seq<byte>, i: int): (b: byte)
    requires 0 <= i
    ensures i < |bs| ==> b == bs[i]
    ensures |bs| <= i ==> b == 0
  {
    if i < |bs| then bs[i] else 0
  }

  /** Total elapsed time carried by a sequence of events. */
  function SumDeltas(es: seq<Event>): int
  {
    if |es| == 0 then 0 else SumDeltas(es[..|es| - 1]) + es[|es| - 1].delta
  }

  lemma {:induction false} SumDeltasAppend(a: seq<Event>, b: seq<Event>)
    ensures SumDeltas(a + b) == SumDeltas(a) + SumDeltas(b)
    decreases |b|
  {
    if |b| == 0 {
      assert a + b == a;
    } else {
      assert (a + b)[..|a + b| - 1] == a + b[..|b| - 1];
      SumDeltasAppend(a, b[..|b| - 1]);
    }
  }

  lemma SumDeltasCons(e: Event, es: seq<Event>)
    ensures SumDeltas([e] + es) == e.delta + SumDeltas(es)
  {
    SumDeltasAppend([e], es);
    assert [e][..0] == [];
  }

  /** The messages of a sequence of events, in order. */
  function Messages(es: seq<Event>): (ms: seq<seq<byte>>)
    ensures |ms| == |es|
    ensures forall i :: 0 <= i < |es| ==> ms[i] == es[i].msg
  {
    seq(|es|, i requires 0 <= i < |es| => es[i].msg)
  }

  lemma MessagesAppend(a: seq<Event>, b: seq<Event>)
    ensures Messages(a + b) == Messages(a) + Messages(b)
  {
  }

  predicate NonNegativeDeltas(es: seq<Event>)
  {
    forall i :: 0 <= i < |es| ==> es[i].delta >= 0
  }

  /** Concatenation of a sequence of byte strings. */
  function Concat(parts: seq<seq<byte>>): seq<byte>
  {
    if |parts| == 0 then [] else Concat(parts[..|parts| - 1]) + parts[|parts| - 1]
  }
}
