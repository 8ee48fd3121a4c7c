/**
 The BLE-MIDI packet decoder: one notification packet in, zero or more
 timestamped MIDI fragments out.

 A packet is a header byte `10hhhhhh` carrying the six high bits of a 13-bit
 millisecond clock, followed by timestamp bytes `1lllllll` carrying the seven
 low bits, MIDI status bytes and data bytes (section "Packet Encoding" of the
 MMA Specification for MIDI over Bluetooth Low Energy 1.0). The decoder turns
 the wrapping device clock into non-negative delta times, reconciling it with
 the host's arrival time once per packet.
 */
module BleMidiDecoder {
  import opened Midi

  /** The device clock wraps every 2^13 ms. */
  const Wrap: int := 8192
  /** Default `timestampErrorThreshold`, in ms. */
  const DefaultErrorThreshold: int := 100

  /** The decoder's persistent state. The source starts `_bleTimestampHigh`
      and `_bleTimestampLow` as `null`; the only operations that read them
      (`|` and `<`) treat `null` as 0, so they start at 0 here. */
  datatype DecoderState = DecoderState(
    tsHigh: int,             // _bleTimestampHigh
    tsLow: int,              // _bleTimestampLow
    bleBefore: Option<int>,  // _bleTimestampBefore
    hostBefore: Option<int>, // _eventTimestampBefore
    pending: int,            // _deltaUnaddedDecode: offset owed to the next fragment
    waitUntilStable: bool,   // _bWaitUntilStable
    errorThreshold: int)     // timestampErrorThreshold

  /** How decoding of one packet ended. `MissingStatus` is the source's
      default switch branch, which only a running status that was never set
      can reach. */
  datatype Status = Complete | MalformedPacket | MissingStatus

  datatype Decoded = Decoded(state: DecoderState, fragments: seq<Event>, status: Status)

  /** Parsing position inside one packet, with the locals of the decode loop
      that survive from one fragment to the next. */
  datatype Cursor = Cursor(pos: nat, running: Option<byte>, cont: bool, tsLow: Option<int>)

  datatype StepResult =
    | Stop(state: DecoderState)
    | Emit(state: DecoderState, next: Cursor, fragment: Event)

  // ---------------------------------------------------------------------------
  // Clock arithmetic
  // ---------------------------------------------------------------------------

  /** The reconstructed device clock `(tsHigh << 7) | tsLow`, for a 7-bit
      `tsLow`. */
  function Ts(s: DecoderState): int
  {
    s.tsHigh * 128 + s.tsLow
  }

  /** The last reconstructed timestamp is the one recorded in `bleBefore`. */
  predicate Synced(s: DecoderState)
  {
    0 <= s.tsLow < 128 && s.bleBefore == Some(Ts(s))
  }

  predicate LowOk(tl: Option<int>)
  {
    tl.None? || 0 <= tl.value < 128
  }

  /** A running status is only ever a channel-message status. */
  predicate RunningOk(running: Option<byte>)
  {
    running.None? || 0x80 <= running.value < 0xF0
  }

  /** `Math.round(n / 8192)`: rounds halves up, so it is a floor division of
      `n + 4096`. */
  function Round8192(n: int): int
  {
    (n + Wrap / 2) / Wrap
  }

  /** `Math.ceil(m / 8192)`. */
  function Ceil8192(m: int): int
  {
    (m + Wrap - 1) / Wrap
  }

  function Abs(n: int): nat
  {
    if n < 0 then -n else n
  }

  /** The device delta unwrapped by the number of clock wraps that the host's
      delta implies: the value congruent to `bleDelta` that lies nearest to
      `hostDelta`. */
  function UnwrappedOffset(bleDelta: int, hostDelta: int): (r: int)
    ensures r % Wrap == bleDelta % Wrap
    ensures hostDelta - Wrap / 2 < r <= hostDelta + Wrap / 2
  {
    var n := hostDelta - bleDelta;
    var k := Round8192(n);
    assert Wrap * k <= n + Wrap / 2 < Wrap * k + Wrap;
    Wrap * k + bleDelta
  }

  /** No other value congruent to `bleDelta` lies as near to `hostDelta`. */
  lemma UnwrappedOffsetIsUnique(bleDelta: int, hostDelta: int, x: int)
    requires x % Wrap == bleDelta % Wrap
    requires hostDelta - Wrap / 2 < x <= hostDelta + Wrap / 2
    ensures x == UnwrappedOffset(bleDelta, hostDelta)
  {
    var r := UnwrappedOffset(bleDelta, hostDelta);
    var q := (x - r) / Wrap;
    assert x - r == Wrap * q;
    assert -Wrap < x - r < Wrap;
  }

  /** A negative offset moved up by the smallest multiple of the wrap period
      that makes it non-negative. */
  function LiftNegative(raw: int): (r: int)
    requires raw < 0
    ensures 0 <= r < Wrap
    ensures r % Wrap == raw % Wrap
  {
    var c := Ceil8192(-raw);
    assert Wrap * c - Wrap < -raw <= Wrap * c;
    raw + c * Wrap
  }

  /** The header's device delta; 0 on the first packet. */
  function HeaderBleDelta(s: DecoderState, high: int, tl: Option<int>): int
  {
    var low := if tl.Some? then tl.value else s.tsLow;
    if s.bleBefore.None? then 0 else high * 128 + low - s.bleBefore.value
  }

  /** The header's host delta; 0 on the first packet. */
  function HeaderHostDelta(s: DecoderState, host: int): int
  {
    if s.hostBefore.None? then 0 else host - s.hostBefore.value
  }

  /** `|hostDelta - bleDelta| mod 8192` stays within the threshold of a whole
      number of wraps. */
  predicate WithinThreshold(threshold: int, bleDelta: int, hostDelta: int)
  {
    var diff := Abs(hostDelta - bleDelta) % Wrap;
    !(threshold < diff && diff < Wrap - threshold)
  }

  /** The header that confirms the clocks agree while the decoder is still
      waiting for them to: not an initial header, a non-negative unwrapped
      offset, and a differential error within the threshold. */
  predicate Stabilises(s: DecoderState, bleDelta: int, hostDelta: int)
  {
    && s.waitUntilStable
    && !(bleDelta == 0 && hostDelta == 0)
    && UnwrappedOffset(bleDelta, hostDelta) >= 0
    && WithinThreshold(s.errorThreshold, bleDelta, hostDelta)
  }

  // ---------------------------------------------------------------------------
  // Operations
  // ---------------------------------------------------------------------------

  /** `initializeDecoder`: forget the clocks and wait for them to stabilise.
      The stabilisation timer it starts is the separate step
      `StabilizationTimeout`. */
  function InitializeDecoder(errorThreshold: int): (s: DecoderState)
    ensures s.waitUntilStable && s.pending == 0
    ensures s.bleBefore.None? && s.hostBefore.None?
  {
    DecoderState(0, 0, None, None, 0, true, errorThreshold)
  }

  /** The constructor: `initializeDecoder` with the default threshold. */
  function NewDecoder(): (s: DecoderState)
    ensures s.waitUntilStable && s.pending == 0
    ensures s.bleBefore.None? && s.hostBefore.None?
    ensures s.errorThreshold == 100
  {
    InitializeDecoder(DefaultErrorThreshold)
  }

  /** The stabilisation timer firing: stop discarding fragments. */
  function StabilizationTimeout(s: DecoderState): (r: DecoderState)
    ensures !r.waitUntilStable
    ensures r.(waitUntilStable := s.waitUntilStable) == s
  {
    s.(waitUntilStable := false)
  }

  /** `_setHeaderTimestamp`: record the header's clock and compute the offset
      owed to the packet's first fragment. */
  function SetHeaderTimestamp(s: DecoderState, high: int, tl: Option<int>, host: int): (r: DecoderState)
    requires 0 <= high < 64 && LowOk(tl) && 0 <= s.tsLow < 128
    ensures Synced(r) && Ts(r) < Wrap
    ensures r.tsHigh == high && r.tsLow == (if tl.Some? then tl.value else s.tsLow)
    ensures r.hostBefore == Some(host) && r.errorThreshold == s.errorThreshold
    ensures var bd, hd := HeaderBleDelta(s, high, tl), HeaderHostDelta(s, host);
      && r.pending >= 0
      && (Stabilises(s, bd, hd) ==> r.pending == 0)
      && (!Stabilises(s, bd, hd) ==> r.pending % Wrap == bd % Wrap)
      && (!Stabilises(s, bd, hd) && UnwrappedOffset(bd, hd) >= 0 ==> r.pending == UnwrappedOffset(bd, hd))
      && (UnwrappedOffset(bd, hd) < 0 ==> r.pending < Wrap)
      && (r.waitUntilStable <==> s.waitUntilStable && !Stabilises(s, bd, hd))
  {
    var low := if tl.Some? then tl.value else s.tsLow;
    var bleDelta := HeaderBleDelta(s, high, tl);
    var hostDelta := HeaderHostDelta(s, host);
    var raw := UnwrappedOffset(bleDelta, hostDelta);
    var s1 := s.(tsHigh := high, tsLow := low, bleBefore := Some(high * 128 + low),
                 hostBefore := Some(host), pending := raw);
    if bleDelta == 0 && hostDelta == 0 then
      // Initial packet: the offset is 0 and nothing else is decided.
      s1
    else if raw < 0 then
      s1.(pending := LiftNegative(raw))
    else if !WithinThreshold(s.errorThreshold, bleDelta, hostDelta) then
      // Unstable: only logged.
      s1
    else if s.waitUntilStable then
      s1.(pending := 0, waitUntilStable := false)
    else
      s1
  }

  /** `_calcDelta`: advance the reconstructed clock to a fragment's
      timestamp and return the fragment's delta, which carries the pending
      header offset and consumes it. */
  function CalcDelta(s: DecoderState, tl: Option<int>): (r: (DecoderState, int))
    requires Synced(s) && LowOk(tl)
    ensures Synced(r.0) && r.0.pending == 0
    ensures Ts(r.0) >= Ts(s)
    ensures r.1 == s.pending + (Ts(r.0) - Ts(s))
    ensures tl.None? ==> Ts(r.0) == Ts(s)
    ensures tl.Some? ==> r.0.tsLow == tl.value
    ensures tl.Some? && tl.value < s.tsLow ==> r.0.tsHigh == s.tsHigh + 1
    ensures tl.Some? && tl.value >= s.tsLow ==> r.0.tsHigh == s.tsHigh
    ensures r.0.waitUntilStable == s.waitUntilStable && r.0.hostBefore == s.hostBefore
    ensures r.0.errorThreshold == s.errorThreshold
  {
    var high := if tl.Some? && tl.value < s.tsLow then s.tsHigh + 1 else s.tsHigh;
    var low := if tl.Some? then tl.value else s.tsLow;
    var ts := high * 128 + low;
    var bleDelta := if s.bleBefore.None? then ts else ts - s.bleBefore.value;
    (s.(tsHigh := high, tsLow := low, bleBefore := Some(ts), pending := 0), s.pending + bleDelta)
  }

  /** Index of the first byte at or after `p` with bit 7 set, or the end of
      the packet. */
  function DataRunEnd(buf: seq<byte>, p: nat): (e: nat)
    requires p <= |buf|
    ensures p <= e <= |buf|
    ensures forall i :: p <= i < e ==> buf[i] < 0x80
    ensures e < |buf| ==> buf[e] >= 0x80
    decreases |buf| - p
  {
    if p == |buf| || buf[p] >= 0x80 then p else DataRunEnd(buf, p + 1)
  }

  /** What a decoded fragment looks like, read off its first byte. */
  predicate FragmentShape(m: seq<byte>)
  {
    if |m| == 0 then true
    else if m[0] < 0x80 then forall i :: 0 <= i < |m| ==> m[i] < 0x80
    else if m[0] < 0xC0 || 0xE0 <= m[0] < 0xF0 then |m| == 3
    else if m[0] < 0xE0 then |m| == 2
    else if m[0] >= 0xF8 then |m| == 1
    else forall i :: 1 <= i < |m| ==> m[i] < 0x80
  }

  /** What an iteration reads before the MIDI data: the timestamp byte, if
      any, and the status byte, explicit or implied. */
  datatype Lead = Lead(tsLow: Option<int>, status: Option<byte>, pos: nat)

  function ReadLead(buf: seq<byte>, c: Cursor): (r: Lead)
    requires c.pos < |buf| && LowOk(c.tsLow) && RunningOk(c.running)
    ensures LowOk(r.tsLow) && c.pos <= r.pos <= |buf|
    ensures r.status.Some? ==> r.status.value >= 0x80
    ensures r.pos == c.pos ==> buf[c.pos] < 0x80
    ensures r.status.None? ==> c.running.None? && !(buf[c.pos] < 0x80 && c.cont)
    ensures buf[c.pos] < 0x80 && c.cont ==> r.status == Some(0xF0) && r.pos == c.pos
    ensures buf[c.pos] < 0x80 && !c.cont ==> r.status == c.running && r.pos == c.pos
    // a byte with bit 7 set is a timestamp byte; if the next one has bit 7 set
    // too it is the status, otherwise the running status applies
    ensures buf[c.pos] >= 0x80 ==> r.tsLow == Some(buf[c.pos] % 0x80)
    ensures buf[c.pos] < 0x80 ==> r.tsLow == c.tsLow
    ensures buf[c.pos] >= 0x80 && At(buf, c.pos + 1) >= 0x80 ==>
      r.status == Some(At(buf, c.pos + 1)) && r.pos == c.pos + 2
    ensures buf[c.pos] >= 0x80 && At(buf, c.pos + 1) < 0x80 ==>
      r.status == c.running && r.pos == c.pos + 1
  {
    var b0 := buf[c.pos];
    var b1 := At(buf, c.pos + 1);
    if b0 >= 0x80 && b1 >= 0x80 then Lead(Some(b0 % 0x80), Some(b1), c.pos + 2)  // timestamp and status
    else if b0 >= 0x80 then Lead(Some(b0 % 0x80), c.running, c.pos + 1)          // timestamp, running status
    else if c.cont then Lead(c.tsLow, Some(0xF0), c.pos)                         // sysex continues
    else Lead(c.tsLow, c.running, c.pos)                                         // running status
  }

  /** A fragment cut out of the packet, with the loop locals it leaves. */
  datatype Cut = Cut(msg: seq<byte>, pos: nat, running: Option<byte>, cont: bool)

  /** The fragment for status `sb`, whose data starts at `q`. */
  function CutFragment(buf: seq<byte>, q: nat, sb: byte, c: Cursor): (r: Cut)
    requires q <= |buf| && sb >= 0x80 && RunningOk(c.running)
    ensures var m := r.msg;
      && q <= r.pos && RunningOk(r.running)
      && FragmentShape(m)
      && (sb < 0xF0 ==> q < r.pos)
      && (q < |buf| && buf[q] < 0x80 && sb < 0xF8 ==> q < r.pos)
      // running status follows channel messages only
      && (|m| > 0 && 0x80 <= m[0] < 0xF0 ==> r.running == Some(m[0]))
      && (!(|m| > 0 && 0x80 <= m[0] < 0xF0) ==> r.running == c.running)
      // F0 sets the continuation flag, realtime keeps it, other statuses clear it
      && (|m| > 0 && m[0] == 0xF0 ==> r.cont)
      && (|m| > 0 && m[0] >= 0xF8 ==> r.cont == c.cont)
      && (|m| > 0 && 0x80 <= m[0] < 0xF8 && m[0] != 0xF0 ==> !r.cont)
      && (sb == 0xF0 && c.cont ==> r.cont && (|m| == 0 || m[0] < 0x80))
      // a system-exclusive or system-common run stops only at a byte with bit 7 set
      && (|m| == 0 || m[0] < 0x80 || 0xF0 <= m[0] < 0xF8 ==> r.pos >= |buf| || buf[r.pos] >= 0x80)
    // the bytes taken from the packet: two data bytes, one, none, or the data run
    ensures var n := sb / 16; n == 0x8 || n == 0x9 || n == 0xA || n == 0xB || n == 0xE ==>
      r.msg == [sb, At(buf, q), At(buf, q + 1)] && r.pos == q + 2
    ensures sb / 16 == 0xC || sb / 16 == 0xD ==> r.msg == [sb, At(buf, q)] && r.pos == q + 1
    ensures sb >= 0xF8 ==> r.msg == [sb] && r.pos == q
    ensures 0xF0 <= sb < 0xF8 ==> r == CutRun(buf, q, sb, c)
  {
    var nibble := sb / 16;
    if nibble == 0x8 || nibble == 0x9 || nibble == 0xA || nibble == 0xB || nibble == 0xE then
      Cut([sb, At(buf, q), At(buf, q + 1)], q + 2, Some(sb), false)
    else if nibble == 0xC || nibble == 0xD then
      Cut([sb, At(buf, q)], q + 1, Some(sb), false)
    else if sb >= 0xF8 then
      // System realtime
      Cut([sb], q, c.running, c.cont)
    else
      CutRun(buf, q, sb, c)
  }

  /** System exclusive or system common: the status (unless it is the F0 of
      a continuing sysex) and every following data byte. */
  function CutRun(buf: seq<byte>, q: nat, sb: byte, c: Cursor): (r: Cut)
    requires q <= |buf| && 0xF0 <= sb < 0xF8
    ensures q <= r.pos <= |buf| && r.running == c.running && r.cont == (sb == 0xF0)
    ensures FragmentShape(r.msg)
    ensures !c.cont || sb != 0xF0 ==> |r.msg| > 0 && r.msg[0] == sb
    ensures sb == 0xF0 && c.cont ==> |r.msg| == 0 || r.msg[0] < 0x80
    ensures q < |buf| && buf[q] < 0x80 ==> q < r.pos
    ensures r.pos >= |buf| || buf[r.pos] >= 0x80
    // the fragment ends with exactly the data bytes up to the next byte with bit 7 set
    ensures r.pos == DataRunEnd(buf, q)
    ensures |r.msg| == (if !c.cont || sb != 0xF0 then 1 else 0) + (r.pos - q)
    ensures r.msg[|r.msg| - (r.pos - q)..] == buf[q..r.pos]
  {
    var e := DataRunEnd(buf, q);
    var head: seq<byte> := if !c.cont || sb != 0xF0 then [sb] else [];
    var run := buf[q..e];
    assert forall i :: 0 <= i < |run| ==> run[i] < 0x80;
    Cut(head + run, e, c.running, sb == 0xF0)
  }

  /** One iteration of the decode loop: read the optional timestamp byte and
      status byte, advance the clock, and cut out one fragment. */
  function Step(s: DecoderState, buf: seq<byte>, c: Cursor): (r: StepResult)
    requires c.pos < |buf| && Synced(s) && LowOk(c.tsLow) && RunningOk(c.running)
    ensures r.state.waitUntilStable == s.waitUntilStable && r.state.hostBefore == s.hostBefore
    ensures r.state.errorThreshold == s.errorThreshold
    ensures Synced(r.state) && r.state.pending == 0 && Ts(r.state) >= Ts(s)
    ensures r.Emit? ==>
      && c.pos < r.next.pos
      && r.fragment.delta == s.pending + (Ts(r.state) - Ts(s))
      && LowOk(r.next.tsLow) && RunningOk(r.next.running)
      && FragmentShape(r.fragment.msg)
    ensures r.Emit? && buf[c.pos] < 0x80 && c.cont ==>
      r.next.cont && |r.fragment.msg| > 0 && r.fragment.msg[0] < 0x80
    ensures r.Stop? <==> c.running.None? && !(buf[c.pos] < 0x80 && c.cont) &&
                         (buf[c.pos] < 0x80 || At(buf, c.pos + 1) < 0x80)
    // the clock follows the lead's timestamp byte: a low part below the
    // previous one means the 7-bit counter wrapped
    ensures r.state == CalcDelta(s, ReadLead(buf, c).tsLow).0
    // the fragment is what the lead's status cuts out right after the lead
    ensures var lead := ReadLead(buf, c);
      r.Emit? ==> (lead.status.Some? &&
        var cut := CutFragment(buf, lead.pos, lead.status.value, c);
        r.fragment.msg == cut.msg && r.next == Cursor(cut.pos, cut.running, cut.cont, lead.tsLow))
  {
    var lead := ReadLead(buf, c);
    var (s1, delta) := CalcDelta(s, lead.tsLow);
    match lead.status
    case None => Stop(s1)
    case Some(sb) =>
      var cut := CutFragment(buf, lead.pos, sb, c);
      Emit(s1, Cursor(cut.pos, cut.running, cut.cont, lead.tsLow), Event(delta, cut.msg))
  }

  /** The decode loop from cursor `c` to the end of the packet. Fragments are
      discarded (but the clock still advances) while `waitUntilStable`
      holds. */
  function Body(s: DecoderState, buf: seq<byte>, c: Cursor): (r: Decoded)
    requires Synced(s) && LowOk(c.tsLow) && RunningOk(c.running)
    requires s.pending >= 0
    ensures r.status != MalformedPacket
    ensures Synced(r.state) && Ts(r.state) >= Ts(s)
    ensures r.state.waitUntilStable == s.waitUntilStable && r.state.hostBefore == s.hostBefore
    ensures r.state.errorThreshold == s.errorThreshold
    ensures s.waitUntilStable ==> r.fragments == []
    ensures NonNegativeDeltas(r.fragments)
    ensures forall i :: 0 <= i < |r.fragments| ==> FragmentShape(r.fragments[i].msg)
    decreases |buf| - c.pos
  {
    if c.pos >= |buf| then Decoded(s, [], Complete)
    else
      match Step(s, buf, c)
      case Stop(s1) => Decoded(s1, [], MissingStatus)
      case Emit(s1, c1, f) =>
        var rest := Body(s1, buf, c1);
        Decoded(rest.state, (if s1.waitUntilStable then [] else [f]) + rest.fragments, rest.status)
  }

  /** The first timestampLow of a packet, absent when the packet opens with
      the continuation of a system-exclusive message. */
  function HeaderLow(buf: seq<byte>): (tl: Option<int>)
    requires |buf| >= 2
    ensures LowOk(tl)
    ensures tl.Some? <==> buf[1] >= 0x80
    ensures tl.Some? ==> tl.value == buf[1] % 0x80
  {
    if buf[1] >= 0x80 then Some(buf[1] % 0x80) else None
  }

  /** The state after a packet's header has been read. */
  function HeaderState(s: DecoderState, host: int, buf: seq<byte>): (h: DecoderState)
    requires |buf| >= 3 && buf[0] / 64 == 2 && 0 <= s.tsLow < 128
    ensures Synced(h) && h.pending >= 0
  {
    SetHeaderTimestamp(s, buf[0] % 64, HeaderLow(buf), host)
  }

  /** `decode`: one BLE-MIDI notification packet received at host time
      `host` (ms). */
  function Decode(s: DecoderState, host: int, buf: seq<byte>): (r: Decoded)
    requires 0 <= s.tsLow < 128
    ensures r.status == MalformedPacket <==> |buf| < 3 || buf[0] / 64 != 2
    ensures r.status == MalformedPacket ==> r.state == s && r.fragments == []
    ensures 0 <= r.state.tsLow < 128
    ensures r.state.errorThreshold == s.errorThreshold
    ensures r.state.waitUntilStable ==> s.waitUntilStable
    ensures r.state.waitUntilStable ==> r.fragments == []
    ensures NonNegativeDeltas(r.fragments)
    ensures forall i :: 0 <= i < |r.fragments| ==> FragmentShape(r.fragments[i].msg)
  {
    if |buf| < 3 || buf[0] / 64 != 2 then
      Decoded(s, [], MalformedPacket)
    else
      var h := HeaderState(s, host, buf);
      Body(h, buf, Cursor(1, None, buf[1] < 0x80, HeaderLow(buf)))
  }

  // ---------------------------------------------------------------------------
  // Properties
  // ---------------------------------------------------------------------------

  /** Within a packet, the fragments' deltas add up to the pending header
      offset plus the distance the reconstructed clock advanced: the offset is
      paid out once. Only an iteration that ends decoding for want of a status
      byte can swallow its share. */
  lemma {:induction false} BodyConservesTime(s: DecoderState, buf: seq<byte>, c: Cursor)
    requires Synced(s) && LowOk(c.tsLow) && RunningOk(c.running) && s.pending >= 0
    requires !s.waitUntilStable
    requires c.pos < |buf| || s.pending == 0
    ensures var r := Body(s, buf, c);
      && SumDeltas(r.fragments) <= s.pending + (Ts(r.state) - Ts(s))
      && (r.status == Complete ==> SumDeltas(r.fragments) == s.pending + (Ts(r.state) - Ts(s)))
    decreases |buf| - c.pos
  {
    if c.pos < |buf| {
      match Step(s, buf, c)
      case Stop(s1) =>
      case Emit(s1, c1, f) =>
        BodyConservesTime(s1, buf, c1);
        var rest := Body(s1, buf, c1);
        SumDeltasAppend([f], rest.fragments);
        assert [f][..0] == [];
    }
  }

  /** Decoder time conservation for one accepted packet: its fragments carry
      the header offset plus the device-clock time the packet spans. */
  lemma DecodeConservesTime(s: DecoderState, host: int, buf: seq<byte>)
    requires 0 <= s.tsLow < 128 && |buf| >= 3 && buf[0] / 64 == 2
    ensures var h, r := HeaderState(s, host, buf), Decode(s, host, buf);
      !r.state.waitUntilStable ==>
        && SumDeltas(r.fragments) <= h.pending + (Ts(r.state) - Ts(h))
        && (r.status == Complete ==> SumDeltas(r.fragments) == h.pending + (Ts(r.state) - Ts(h)))
  {
    var h := HeaderState(s, host, buf);
    if !h.waitUntilStable {
      BodyConservesTime(h, buf, Cursor(1, None, buf[1] < 0x80, HeaderLow(buf)));
    }
  }

  /** The stability gate opens during decoding exactly when the packet's header
      confirms the clocks agree; that header's offset is then zero. */
  lemma StabilityGate(s: DecoderState, host: int, buf: seq<byte>)
    requires 0 <= s.tsLow < 128 && |buf| >= 3 && buf[0] / 64 == 2
    requires s.waitUntilStable
    ensures var bd, hd := HeaderBleDelta(s, buf[0] % 64, HeaderLow(buf)), HeaderHostDelta(s, host);
      && (!Decode(s, host, buf).state.waitUntilStable <==> Stabilises(s, bd, hd))
      && (Stabilises(s, bd, hd) ==> HeaderState(s, host, buf).pending == 0)
  {
  }

  /** The first packet after `initializeDecoder` is an initial header: it
      cannot confirm stability, so all of its fragments are discarded and no
      offset is owed. */
  lemma FirstPacketIsDiscarded(threshold: int, host: int, buf: seq<byte>)
    requires |buf| >= 3 && buf[0] / 64 == 2
    ensures var r := Decode(InitializeDecoder(threshold), host, buf);
      r.fragments == [] && r.state.waitUntilStable
    ensures HeaderState(InitializeDecoder(threshold), host, buf).pending == 0
  {
    var s := InitializeDecoder(threshold);
    assert HeaderBleDelta(s, buf[0] % 64, HeaderLow(buf)) == 0;
    assert HeaderHostDelta(s, host) == 0;
  }

  /** A fragment behind a timestamp byte is timed by that byte: the low part
      of the clock becomes the byte's seven bits, the high part goes up by one
      when they are below the previous low part (the 7-bit counter wrapped),
      and the fragment's delta is the owed offset plus the distance between
      the two low parts, taken modulo 128. */
  lemma StepFollowsTimestamp(s: DecoderState, buf: seq<byte>, c: Cursor)
    requires c.pos < |buf| && Synced(s) && LowOk(c.tsLow) && RunningOk(c.running)
    requires buf[c.pos] >= 0x80
    ensures var r, low := Step(s, buf, c), buf[c.pos] % 0x80;
      && r.state.tsLow == low
      && r.state.tsHigh == s.tsHigh + (if low < s.tsLow then 1 else 0)
      && (r.Emit? ==> r.fragment.delta == s.pending + (if low < s.tsLow then low + 128 - s.tsLow else low - s.tsLow))
  {
    assert ReadLead(buf, c).tsLow == Some(buf[c.pos] % 0x80);
  }

  /** One iteration of the decode loop: the packet ends cleanly, a missing
      status ends it with nothing more, or the fragment the iteration cuts is
      the first one delivered (while stable). */
  lemma {:induction false} BodyFirstFragment(s: DecoderState, buf: seq<byte>, c: Cursor)
    requires Synced(s) && LowOk(c.tsLow) && RunningOk(c.running) && s.pending >= 0
    ensures var r := Body(s, buf, c);
      && (c.pos >= |buf| ==> r.fragments == [] && r.status == Complete && r.state == s)
      && (c.pos < |buf| && Step(s, buf, c).Stop? ==> r.fragments == [] && r.status == MissingStatus)
      && (c.pos < |buf| && Step(s, buf, c).Emit? && !s.waitUntilStable ==>
            |r.fragments| > 0 && r.fragments[0] == Step(s, buf, c).fragment)
  {
  }

  /** A note off, note on, key pressure, control change or pitch bend
      message, written out with its status byte. */
  predicate ThreeByteChannel(m: seq<byte>)
  {
    && |m| == 3 && m[1] < 0x80 && m[2] < 0x80
    && var n := m[0] / 16; (n == 0x8 || n == 0x9 || n == 0xA || n == 0xB || n == 0xE)
  }

  /** The plainest packet layout the standard allows: a header, then for each
      message a timestamp byte and the message with its own status byte, no
      running status and no system messages. */
  predicate ChannelPacket(buf: seq<byte>, msgs: seq<seq<byte>>)
  {
    && |buf| == 1 + 4 * |msgs| && buf[0] / 64 == 2 && |msgs| > 0
    && forall k :: 0 <= k < |msgs| ==>
         && ThreeByteChannel(msgs[k]) && buf[1 + 4 * k] >= 0x80
         && buf[2 + 4 * k] == msgs[k][0] && buf[3 + 4 * k] == msgs[k][1]
         && buf[4 + 4 * k] == msgs[k][2]
  }

  /** One iteration over the k-th message of a channel packet cuts exactly
      that message and moves on to the next timestamp byte. */
  lemma ChannelStep(s: DecoderState, buf: seq<byte>, msgs: seq<seq<byte>>, k: nat, c: Cursor)
    requires Synced(s) && LowOk(c.tsLow) && RunningOk(c.running) && s.pending >= 0
    requires ChannelPacket(buf, msgs) && k < |msgs| && c.pos == 1 + 4 * k
    ensures Step(s, buf, c).Emit?
    ensures Step(s, buf, c).fragment.msg == msgs[k] && Step(s, buf, c).next.pos == c.pos + 4
    ensures var low := buf[c.pos] % 0x80;
      Step(s, buf, c).fragment.delta == s.pending + (if low < s.tsLow then low + 128 - s.tsLow else low - s.tsLow)
  {
    StepFollowsTimestamp(s, buf, c);
    var p := c.pos;
    assert ThreeByteChannel(msgs[k]) && buf[p] >= 0x80;
    assert buf[p + 1] == msgs[k][0] && buf[p + 2] == msgs[k][1] && buf[p + 3] == msgs[k][2];
    var lead := ReadLead(buf, c);
    assert lead.status == Some(msgs[k][0]) && lead.pos == p + 2;
    var cut := CutFragment(buf, p + 2, msgs[k][0], c);
    assert cut.msg == [msgs[k][0], msgs[k][1], msgs[k][2]] && cut.pos == p + 4;
  }

  /** An iteration that emits: decoding goes on from the next cursor, and
      while stable the fragment is prepended to what follows. */
  lemma {:induction false} BodyEmits(s: DecoderState, buf: seq<byte>, c: Cursor)
    requires Synced(s) && LowOk(c.tsLow) && RunningOk(c.running) && s.pending >= 0
    requires c.pos < |buf| && Step(s, buf, c).Emit?
    ensures var st := Step(s, buf, c);
      var r, rest := Body(s, buf, c), Body(st.state, buf, st.next);
      && r.status == rest.status
      && (!s.waitUntilStable ==> Messages(r.fragments) == [st.fragment.msg] + Messages(rest.fragments))
  {
    var st := Step(s, buf, c);
    var rest := Body(st.state, buf, st.next);
    BodyCons(s, buf, c);
    if !s.waitUntilStable {
      MessagesCons(st.fragment, rest.fragments);
    }
  }

  lemma {:induction false} BodyCons(s: DecoderState, buf: seq<byte>, c: Cursor)
    requires Synced(s) && LowOk(c.tsLow) && RunningOk(c.running) && s.pending >= 0
    requires c.pos < |buf| && Step(s, buf, c).Emit?
    ensures var st := Step(s, buf, c);
      var r, rest := Body(s, buf, c), Body(st.state, buf, st.next);
      && r.status == rest.status
      && (!s.waitUntilStable ==> r.fragments == [st.fragment] + rest.fragments)
  {
  }

  lemma MessagesCons(f: Event, rest: seq<Event>)
    ensures Messages([f] + rest) == [f.msg] + Messages(rest)
  {
    MessagesAppend([f], rest);
  }

  lemma SuffixCons(xs: seq<seq<byte>>, k: nat)
    requires k < |xs|
    ensures xs[k..] == [xs[k]] + xs[k + 1..]
  {
  }

  /** From the k-th timestamp byte of a channel packet on, the decoder
      delivers exactly the packet's remaining messages, in order. */
  lemma {:induction false} ChannelRunDecodes(s: DecoderState, buf: seq<byte>, msgs: seq<seq<byte>>, k: nat, c: Cursor)
    requires Synced(s) && LowOk(c.tsLow) && RunningOk(c.running) && s.pending >= 0
    requires ChannelPacket(buf, msgs) && k <= |msgs| && c.pos == 1 + 4 * k
    ensures var r := Body(s, buf, c);
      && r.status == Complete
      && (!s.waitUntilStable ==> Messages(r.fragments) == msgs[k..])
    decreases |msgs| - k
  {
    if k < |msgs| {
      ChannelStep(s, buf, msgs, k, c);
      var st := Step(s, buf, c);
      ChannelRunDecodes(st.state, buf, msgs, k + 1, st.next);
      BodyEmits(s, buf, c);
      SuffixCons(msgs, k);
    }
  }

  /** Decoding a channel packet completes and, once the clocks are stable,
      delivers exactly its messages in packet order. */
  lemma ChannelPacketDecodes(s: DecoderState, host: int, buf: seq<byte>, msgs: seq<seq<byte>>)
    requires 0 <= s.tsLow < 128 && ChannelPacket(buf, msgs)
    ensures var r := Decode(s, host, buf);
      && r.status == Complete
      && (!r.state.waitUntilStable ==> Messages(r.fragments) == msgs)
  {
    var h := HeaderState(s, host, buf);
    assert buf[1] >= 0x80 by { assert ThreeByteChannel(msgs[0]); }
    ChannelRunDecodes(h, buf, msgs, 0, Cursor(1, None, buf[1] < 0x80, HeaderLow(buf)));
    assert msgs[0..] == msgs;
  }

  /** The state the running-status example starts from: clock 0, synced,
      nothing owed, stable. */
  predicate AtZero(s: DecoderState)
  {
    && s.tsHigh == 0 && s.tsLow == 0 && s.bleBefore == Some(0) && s.hostBefore == Some(0)
    && s.pending == 0 && !s.waitUntilStable
  }

  /** The packet of the running-status example below. */
  predicate RunningStatusPacket(buf: seq<byte>)
  {
    buf == [0x80, 0x80, 0x90, 0x3C, 0x40, 0x3E, 0x50]
  }

  /** Running status: at clock 0, with nothing owed, `80 80 90 3C 40 3E 50`
      decodes to two note-ons. */
  lemma RunningStatusExample(s: DecoderState, buf: seq<byte>)
    requires AtZero(s) && RunningStatusPacket(buf)
    ensures Decode(s, 0, buf).fragments == [Event(0, [0x90, 0x3C, 0x40]), Event(0, [0x90, 0x3E, 0x50])]
  {
    var c0 := Cursor(1, None, false, Some(0));
    var c1 := Cursor(5, Some(0x90), false, Some(0));
    var c2 := Cursor(7, Some(0x90), false, Some(0));
    assert HeaderLow(buf) == Some(0);
    assert HeaderState(s, 0, buf) == s;
    assert CalcDelta(s, Some(0)) == (s, 0);
    assert Step(s, buf, c0) == Emit(s, c1, Event(0, [0x90, 0x3C, 0x40])) by {
      assert ReadLead(buf, c0) == Lead(Some(0), Some(0x90), 3);
      assert CutFragment(buf, 3, 0x90, c0) == Cut([0x90, 0x3C, 0x40], 5, Some(0x90), false);
    }
    assert Step(s, buf, c1) == Emit(s, c2, Event(0, [0x90, 0x3E, 0x50])) by {
      assert ReadLead(buf, c1) == Lead(Some(0), Some(0x90), 5);
      assert CutFragment(buf, 5, 0x90, c1) == Cut([0x90, 0x3E, 0x50], 7, Some(0x90), false);
    }
    assert Body(s, buf, c2).fragments == [];
    assert Body(s, buf, c1).fragments == [Event(0, [0x90, 0x3E, 0x50])];
  }

  /** The packet of the timestamp example below. */
  predicate TimestampPacket(buf: seq<byte>)
  {
    buf == [0x80, 0x80, 0x90, 0x3C, 0x40, 0x8A, 0x80, 0x3C, 0x00]
  }

  /** The first iteration of the timestamp example: a note-on at clock 0. */
  lemma TimestampFirstStep(s: DecoderState, buf: seq<byte>)
    requires AtZero(s) && TimestampPacket(buf)
    ensures Step(s, buf, Cursor(1, None, false, Some(0)))
      == Emit(s, Cursor(5, Some(0x90), false, Some(0)), Event(0, [0x90, 0x3C, 0x40]))
  {
    var c0 := Cursor(1, None, false, Some(0));
    assert CalcDelta(s, Some(0)) == (s, 0);
    assert ReadLead(buf, c0) == Lead(Some(0), Some(0x90), 3);
    assert CutFragment(buf, 3, 0x90, c0) == Cut([0x90, 0x3C, 0x40], 5, Some(0x90), false);
  }

  /** The second iteration: timestampLow 10 puts the note-off 10 ms later. */
  lemma TimestampSecondStep(s: DecoderState, buf: seq<byte>)
    requires AtZero(s) && TimestampPacket(buf)
    ensures Step(s, buf, Cursor(5, Some(0x90), false, Some(0)))
      == Emit(s.(tsLow := 10, bleBefore := Some(10)), Cursor(9, Some(0x80), false, Some(10)), Event(10, [0x80, 0x3C, 0x00]))
  {
    var c1 := Cursor(5, Some(0x90), false, Some(0));
    assert CalcDelta(s, Some(10)) == (s.(tsLow := 10, bleBefore := Some(10)), 10);
    assert ReadLead(buf, c1) == Lead(Some(10), Some(0x80), 7);
    assert CutFragment(buf, 7, 0x80, c1) == Cut([0x80, 0x3C, 0x00], 9, Some(0x80), false);
  }

  /** Timestamps inside a packet: at clock 0, with nothing owed, a note-on at
      timestampLow 0 and a note-off at timestampLow 10 are 10 ms apart. */
  lemma TimestampExample(s: DecoderState, buf: seq<byte>)
    requires AtZero(s) && TimestampPacket(buf)
    ensures Decode(s, 0, buf).fragments == [Event(0, [0x90, 0x3C, 0x40]), Event(10, [0x80, 0x3C, 0x00])]
  {
    var c0 := Cursor(1, None, false, Some(0));
    var c1 := Cursor(5, Some(0x90), false, Some(0));
    var c2 := Cursor(9, Some(0x80), false, Some(10));
    var s2 := s.(tsLow := 10, bleBefore := Some(10));
    assert HeaderLow(buf) == Some(0);
    assert HeaderState(s, 0, buf) == s;
    TimestampFirstStep(s, buf);
    TimestampSecondStep(s, buf);
    BodyCons(s, buf, c0);
    BodyCons(s, buf, c1);
    assert Body(s2, buf, c2).fragments == [];
  }
}
