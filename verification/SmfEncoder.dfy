/**
 The SMF encoder: appends each MIDI message, with its delta time, to a track
 as a Standard MIDI File event, and builds a format-0 file of one track with a
 fixed tempo, so that one tick of the 480-per-quarter division is one
 millisecond. Each writer has a reader as its partner: the bytes of every
 event, and the built file, read back as what was written.
 */
module SmfEncoder {
  import opened Midi
  import Vlq

  datatype EncoderState = EncoderState(trackData: seq<byte>)  // _trackData

  /** One event of the track as the encoder writes it: a MIDI or sysex
      message, or a meta event. */
  datatype TrackEvent =
    | Message(delta: int, msg: seq<byte>)
    | Meta(delta: int, kind: byte, data: seq<byte>)

  /** `initialize`: an empty track. */
  function Initialize(s: EncoderState): (r: EncoderState)
    ensures |r.trackData| == 0
  {
    EncoderState([])
  }

  /** What follows the delta time for message `m`: a channel message
      verbatim; a sysex as `F0`, the length of the rest, the rest; anything
      else (system common, realtime, and the empty message, whose missing
      first byte compares false both ways) as an escape `F7`, its length, and
      the whole message. */
  function MessageBody(m: seq<byte>): seq<byte>
  {
    if |m| > 0 && m[0] < 0xF0 then m
    else if |m| > 0 && m[0] == 0xF0 then [0xF0] + Vlq.Encode(|m| - 1) + m[1..]
    else [0xF7] + Vlq.Encode(|m|) + m
  }

  /** The bytes of one event. */
  function EventBytes(e: TrackEvent): seq<byte>
  {
    if e.Message? then Vlq.Encode(e.delta) + MessageBody(e.msg)
    else Vlq.Encode(e.delta) + [0xFF, e.kind] + Vlq.Encode(|e.data|) + e.data
  }

  /** `encode`: the track grows by the event and nothing else changes. */
  function Encode(s: EncoderState, delta: int, m: seq<byte>): (r: EncoderState)
    ensures |r.trackData| > |s.trackData| && r.trackData[..|s.trackData|] == s.trackData
    ensures r.trackData[|s.trackData|..] == EventBytes(Message(delta, m))
    ensures Encodable(Message(delta, m)) ==>
      DecodeEvent(r.trackData[|s.trackData|..]) == Some(Message(delta, m))
  {
    var r := EncoderState(s.trackData + EventBytes(Message(delta, m)));
    assert r.trackData[..|s.trackData|] == s.trackData;
    assert r.trackData[|s.trackData|..] == EventBytes(Message(delta, m));
    if Encodable(Message(delta, m)) then DecodeEventBytes(Message(delta, m)); r else r
  }

  /** `{@UTF-8}`, the marker that declares a text's encoding. */
  const Utf8Tag: seq<byte> := [0x7B, 0x40, 0x55, 0x54, 0x46, 0x2D, 0x38, 0x7D]

  /** Whether some byte of `bs` is above 127 (the loop of `meta_text`). */
  function NonAscii(bs: seq<byte>): (b: bool)
    ensures b <==> exists i :: 0 <= i < |bs| && bs[i] > 127
  {
    if |bs| == 0 then false
    else if bs[0] > 127 then true
    else
      assert forall i :: 1 <= i < |bs| ==> bs[i] == bs[1..][i - 1];
      NonAscii(bs[1..])
  }

  /** The payload of a text meta event for a text whose UTF-8 encoding is
      `utf8`: the text itself, prefixed by the marker when it is not ASCII. */
  function TextPayload(utf8: seq<byte>): (p: seq<byte>)
  {
    if NonAscii(utf8) then Utf8Tag + utf8 else utf8
  }

  /** `meta_text`, given the UTF-8 encoding of the text. The type is any
      number; the byte array of the file keeps it modulo 256. */
  function MetaText(s: EncoderState, delta: int, kind: int, utf8: seq<byte>): (r: EncoderState)
    ensures |r.trackData| > |s.trackData| && r.trackData[..|s.trackData|] == s.trackData
    ensures r.trackData[|s.trackData|..] == EventBytes(Meta(delta, kind % 256, TextPayload(utf8)))
    ensures 0 <= delta <= Vlq.Max && |TextPayload(utf8)| <= Vlq.Max ==>
      DecodeEvent(r.trackData[|s.trackData|..]) == Some(Meta(delta, kind % 256, TextPayload(utf8)))
  {
    var e := Meta(delta, kind % 256, TextPayload(utf8));
    var r := EncoderState(s.trackData + EventBytes(e));
    assert r.trackData[..|s.trackData|] == s.trackData;
    assert r.trackData[|s.trackData|..] == EventBytes(e);
    if Encodable(e) then DecodeMeta(e); r else r
  }

  /** `meta_binary`, with the type kept modulo 256 as in `meta_text`. */
  function MetaBinary(s: EncoderState, delta: int, kind: int, binary: seq<byte>): (r: EncoderState)
    ensures |r.trackData| > |s.trackData| && r.trackData[..|s.trackData|] == s.trackData
    ensures r.trackData[|s.trackData|..] == EventBytes(Meta(delta, kind % 256, binary))
    ensures 0 <= delta <= Vlq.Max && |binary| <= Vlq.Max ==>
      DecodeEvent(r.trackData[|s.trackData|..]) == Some(Meta(delta, kind % 256, binary))
  {
    var e := Meta(delta, kind % 256, binary);
    var r := EncoderState(s.trackData + EventBytes(e));
    assert r.trackData[..|s.trackData|] == s.trackData;
    assert r.trackData[|s.trackData|..] == EventBytes(e);
    if Encodable(e) then DecodeMeta(e); r else r
  }

  // ---------------------------------------------------------------------------
  // The file
  // ---------------------------------------------------------------------------

  /** `MThd`, length 6, format 0, one track, division 480. */
  const HeaderChunk: seq<byte> := [0x4D, 0x54, 0x68, 0x64, 0x00, 0x00, 0x00, 0x06, 0x00, 0x00, 0x00, 0x01, 0x01, 0xE0]
  const TrackTag: seq<byte> := [0x4D, 0x54, 0x72, 0x6B]
  /** Delta 0, set tempo to 480000 microseconds per quarter note. */
  const TempoEvent: seq<byte> := [0x00, 0xFF, 0x51, 0x03, 0x07, 0x53, 0x00]
  /** Delta 0, end of track. */
  const EndEvent: seq<byte> := [0x00, 0xFF, 0x2F, 0x00]

  /** `_convertLength4`, as the bytes the file receives: each masked and
      shifted value is stored in a `Uint8Array`, which keeps its low eight
      bits, so the length is written modulo 2^32, most significant first. */
  function Be32(n: int): (r: seq<byte>)
    ensures |r| == 4
  {
    [n / 0x100_0000 % 0x100, n / 0x1_0000 % 0x100, n / 0x100 % 0x100, n % 0x100]
  }

  /** Reading a four-byte big-endian length. */
  function FromBe32(bs: seq<byte>): int
    requires |bs| == 4
  {
    ((bs[0] as int * 0x100 + bs[1]) * 0x100 + bs[2]) * 0x100 + bs[3]
  }

  /** `build`: header chunk, then one track chunk holding the tempo event,
      the recorded track and the end-of-track event. */
  function Build(s: EncoderState): (f: seq<byte>)
    ensures |f| == |s.trackData| + 33
    ensures f[..14] == HeaderChunk && f[14..18] == TrackTag && f[18..22] == Be32(|s.trackData| + 11)
    ensures f[22..29] == TempoEvent && f[29..|f| - 4] == s.trackData && f[|f| - 4..] == EndEvent
  {
    var track := TempoEvent + s.trackData + EndEvent;
    var f := HeaderChunk + TrackTag + Be32(|track|) + track;
    assert f[..14] == HeaderChunk;
    assert f[14..18] == TrackTag;
    assert f[18..22] == Be32(|track|);
    assert f[22..] == track;
    assert f[22..29] == track[..7] == TempoEvent;
    assert f[29..|f| - 4] == track[7..|track| - 4] == s.trackData;
    assert f[|f| - 4..] == track[|track| - 4..] == EndEvent;
    f
  }

  // ---------------------------------------------------------------------------
  // Reading back
  // ---------------------------------------------------------------------------

  /** The event a framed body denotes: a meta event of type `kind` for
      `FF`, a sysex (with its `F0` restored) for `F0`, the bytes themselves
      for the escape `F7`. */
  function Framed(d: int, status: byte, kind: byte, data: seq<byte>): TrackEvent
  {
    if status == 0xFF then Meta(d, kind, data)
    else if status == 0xF0 then Message(d, [0xF0] + data)
    else Message(d, data)
  }

  /** Read back the bytes of exactly one event: the delta time, then a
      channel message (everything up to the end), or `F0`/`F7`, or `FF` and
      a type byte, followed by a length and exactly that many data bytes. */
  function DecodeEvent(bs: seq<byte>): (r: Option<TrackEvent>)
  {
    var dv := Vlq.Parse(bs, 0);
    if dv.None? || dv.value.1 == |bs| then None
    else
      var d, k := dv.value.0, dv.value.1;
      var status := bs[k];
      if status < 0xF0 then Some(Message(d, bs[k..]))
      else if status == 0xF0 || status == 0xF7 || (status == 0xFF && k + 1 < |bs|) then
        var h := if status == 0xFF then 2 else 1;
        var lv := Vlq.Parse(bs, k + h);
        if lv.None? || k + h + lv.value.1 + lv.value.0 != |bs| then None
        else Some(Framed(d, status, if status == 0xFF then bs[k + 1] else 0, bs[k + h + lv.value.1..]))
      else None
  }

  /** Events whose delta time and lengths fit a four-byte quantity. */
  predicate Encodable(e: TrackEvent)
  {
    && 0 <= e.delta <= Vlq.Max
    && (e.Message? && |e.msg| > 0 && e.msg[0] == 0xF0 ==> |e.msg| - 1 <= Vlq.Max)
    && (e.Message? && (|e.msg| == 0 || e.msg[0] > 0xF0) ==> |e.msg| <= Vlq.Max)
    && (e.Meta? ==> |e.data| <= Vlq.Max)
  }

  /** A quantity written after `pre` and followed by anything reads back. */
  lemma ReadAt(pre: seq<byte>, d: int, rest: seq<byte>)
    requires 0 <= d <= Vlq.Max
    ensures var v := Vlq.Encode(d);
      Vlq.Parse(pre + v + rest, |pre|) == Some((d, |v|))
  {
    var v := Vlq.Encode(d);
    var bs := pre + v + rest;
    assert bs[|pre|..|pre| + |v|] == v;
    Vlq.ParseEncode(d, bs, |pre|);
  }

  /** The delta time at the front of a framed event reads back. */
  lemma ReadFirst(d: int, x: seq<byte>, y: seq<byte>, z: seq<byte>)
    requires 0 <= d <= Vlq.Max
    ensures var v := Vlq.Encode(d);
      Vlq.Parse(v + x + y + z, 0) == Some((d, |v|))
  {
    var v := Vlq.Encode(d);
    var bs := v + x + y + z;
    assert bs[0..|v|] == v;
    Vlq.ParseEncode(d, bs, 0);
  }

  /** A channel message (or anything below `F0`) after its delta time. */
  lemma DecodeVerbatim(d: int, m: seq<byte>)
    requires 0 <= d <= Vlq.Max && |m| > 0 && m[0] < 0xF0
    ensures DecodeEvent(Vlq.Encode(d) + m) == Some(Message(d, m))
  {
    var v := Vlq.Encode(d);
    ReadAt([], d, m);
    assert [] + v + m == v + m;
    assert (v + m)[|v|..] == m;
  }

  /** A framed body after its delta time: `head` is the status byte, and
      the type byte for a meta event. */
  lemma DecodeFramed(d: int, head: seq<byte>, data: seq<byte>)
    requires 0 <= d <= Vlq.Max && |data| <= Vlq.Max
    requires head == [0xF0] || head == [0xF7] || (|head| == 2 && head[0] == 0xFF)
    ensures var bs := Vlq.Encode(d) + head + Vlq.Encode(|data|) + data;
      DecodeEvent(bs) == Some(Framed(d, head[0], if |head| == 2 then head[1] else 0, data))
  {
    var v, w := Vlq.Encode(d), Vlq.Encode(|data|);
    var bs := v + head + w + data;
    ReadFirst(d, head, w, data);
    ReadAt(v + head, |data|, data);
    assert bs[|v|] == head[0];
    assert |head| == 2 ==> bs[|v| + 1] == head[1];
    assert bs[|v| + |head| + |w|..] == data;
  }

  lemma DecodeMeta(e: TrackEvent)
    requires e.Meta? && Encodable(e)
    ensures DecodeEvent(EventBytes(e)) == Some(e)
  {
    var v := Vlq.Encode(e.delta);
    assert EventBytes(e) == v + [0xFF, e.kind] + Vlq.Encode(|e.data|) + e.data;
    DecodeFramed(e.delta, [0xFF, e.kind], e.data);
  }

  lemma DecodeSysex(e: TrackEvent)
    requires e.Message? && Encodable(e) && |e.msg| > 0 && e.msg[0] == 0xF0
    ensures DecodeEvent(EventBytes(e)) == Some(e)
  {
    var v, m := Vlq.Encode(e.delta), e.msg;
    assert EventBytes(e) == v + [0xF0] + Vlq.Encode(|m[1..]|) + m[1..];
    DecodeFramed(e.delta, [0xF0], m[1..]);
    assert [0xF0] + m[1..] == m;
  }

  lemma DecodeEscaped(e: TrackEvent)
    requires e.Message? && Encodable(e) && (|e.msg| == 0 || e.msg[0] > 0xF0)
    ensures DecodeEvent(EventBytes(e)) == Some(e)
  {
    var v := Vlq.Encode(e.delta);
    assert EventBytes(e) == v + [0xF7] + Vlq.Encode(|e.msg|) + e.msg;
    DecodeFramed(e.delta, [0xF7], e.msg);
  }

  /** Round trip: the bytes of an event read back as that event. */
  lemma DecodeEventBytes(e: TrackEvent)
    requires Encodable(e)
    ensures DecodeEvent(EventBytes(e)) == Some(e)
  {
    if e.Meta? {
      DecodeMeta(e);
    } else if |e.msg| > 0 && e.msg[0] < 0xF0 {
      DecodeVerbatim(e.delta, e.msg);
    } else if |e.msg| > 0 && e.msg[0] == 0xF0 {
      DecodeSysex(e);
    } else {
      DecodeEscaped(e);
    }
  }

  /** The text payload carries the `{@UTF-8}` marker exactly when some
      byte of the text is above 127; otherwise it is the text itself. */
  lemma TextMarker(utf8: seq<byte>)
    ensures TextPayload(utf8) == Utf8Tag + utf8 <==> exists i :: 0 <= i < |utf8| && utf8[i] > 127
    ensures TextPayload(utf8) == utf8 <==> forall i :: 0 <= i < |utf8| ==> utf8[i] <= 127
  {
    assert |Utf8Tag + utf8| != |utf8|;
  }

  /** A length written by `Be32` reads back modulo 2^32, and exactly when
      it fits 32 bits. */
  lemma Be32RoundTrip(n: int)
    requires n >= 0
    ensures FromBe32(Be32(n)) == n % 0x1_0000_0000
    ensures n < 0x1_0000_0000 ==> FromBe32(Be32(n)) == n
  {
    var a, b, c := n / 0x100, n / 0x1_0000, n / 0x100_0000;
    assert b == a / 0x100 && c == b / 0x100;
    assert n == 0x100 * a + n % 0x100;
    assert a == 0x100 * b + a % 0x100;
    assert b == 0x100 * c + b % 0x100;
    assert c == 0x100 * (c / 0x100) + c % 0x100;
    var low := ((c % 0x100 * 0x100 + b % 0x100) * 0x100 + a % 0x100) * 0x100 + n % 0x100;
    assert n == 0x1_0000_0000 * (c / 0x100) + low;
    assert 0 <= low < 0x1_0000_0000;
  }

  /** Read a file as `build` lays it out: the fixed header chunk, the track
      tag, a length that covers the rest of the file, the tempo event first
      and the end-of-track event last; the recorded track is what lies
      between them. */
  function ReadFile(f: seq<byte>): (r: Option<seq<byte>>)
    ensures r.Some? ==> |r.value| + 33 == |f|
  {
    if |f| < 33 then None
    else if f[..14] != HeaderChunk || f[14..18] != TrackTag then None
    else if FromBe32(f[18..22]) != |f| - 22 then None
    else if f[22..29] != TempoEvent || f[|f| - 4..] != EndEvent then None
    else Some(f[29..|f| - 4])
  }

  /** Round trip: a built file reads back as the recorded track, as long as
      the track chunk's length fits its 32-bit field. */
  lemma ReadBuild(s: EncoderState)
    requires |s.trackData| + 11 < 0x1_0000_0000
    ensures ReadFile(Build(s)) == Some(s.trackData)
  {
    var f := Build(s);
    Be32RoundTrip(|s.trackData| + 11);
    assert f[18..22] == Be32(|f| - 22);
  }

  /** A sequence of `encode` calls, in order. */
  function EncodeAll(s: EncoderState, es: seq<Event>): (r: EncoderState)
    decreases |es|
  {
    if |es| == 0 then s
    else Encode(EncodeAll(s, es[..|es| - 1]), es[|es| - 1].delta, es[|es| - 1].msg)
  }

  /** The bytes of each event of `es`, as a message event. */
  function EventsBytes(es: seq<Event>): (parts: seq<seq<byte>>)
    ensures |parts| == |es|
    ensures forall i :: 0 <= i < |es| ==> parts[i] == EventBytes(Message(es[i].delta, es[i].msg))
  {
    seq(|es|, i requires 0 <= i < |es| => EventBytes(Message(es[i].delta, es[i].msg)))
  }

  /** After a sequence of `encode` calls the track is the old track followed
      by the events' bytes in call order, and each event's bytes read back as
      that event. */
  lemma {:induction false} EncodeAllTrack(s: EncoderState, es: seq<Event>)
    ensures EncodeAll(s, es).trackData == s.trackData + Concat(EventsBytes(es))
    decreases |es|
  {
    if |es| > 0 {
      var init := es[..|es| - 1];
      EncodeAllTrack(s, init);
      assert EventsBytes(es)[..|es| - 1] == EventsBytes(init);
    }
  }

  /** Every event of a recording reads back from its own bytes. */
  lemma EncodeAllSegments(es: seq<Event>)
    requires forall i :: 0 <= i < |es| ==> Encodable(Message(es[i].delta, es[i].msg))
    ensures forall i :: 0 <= i < |es| ==>
      DecodeEvent(EventsBytes(es)[i]) == Some(Message(es[i].delta, es[i].msg))
  {
    forall i | 0 <= i < |es|
      ensures DecodeEvent(EventsBytes(es)[i]) == Some(Message(es[i].delta, es[i].msg))
    {
      DecodeEventBytes(Message(es[i].delta, es[i].msg));
    }
  }
}
