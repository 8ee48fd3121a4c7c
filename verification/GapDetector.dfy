/**
 The gap detector: tracks which notes and pedals are held on the 16 channels
 and reports a gap when nothing is held and no message has arrived for at
 least `minNoMessagePeriod` milliseconds. The one-shot timer of the source is
 modelled as an explicit `Timeout` step that the environment takes when the
 period elapses with the timer armed; a timer that `initialize` orphaned
 fires through the separate `StrayTimeout` step.
 */
module GapDetector {
  import opened Midi

  const Channels := 16
  const NoteNumbers := 128
  const DefaultMinNoMessagePeriod := 1000
  /** A data byte read past the end of a message (`undefined`); it is unequal
      to every byte, in particular to 0. */
  const Undefined := -1

  datatype GapState = GapState(
    notes: seq<seq<int>>,     // _notes: note-on count per channel and note number
    damper: seq<int>,         // _damper_pedals: last value per channel
    sostenuto: seq<int>,      // _sostenuto_pedals: last value per channel
    noNotes: bool,            // _bNoNotes
    noPedals: bool,           // _bNoPedals
    inGap: bool,              // _bInGap
    armed: bool,              // a gap timer is pending (_timeoutID)
    strays: nat,              // timers still pending whose id `initialize` dropped
    minNoMessagePeriod: int)  // minNoMessagePeriodAsGap

  /** The result of one step: the new state, whether a gap was reported, and
      whether the step ended by throwing. */
  datatype Outcome = Outcome(state: GapState, gap: bool, thrown: bool)

  predicate Shaped(s: GapState)
  {
    && |s.notes| == Channels
    && (forall i :: 0 <= i < Channels ==> |s.notes[i]| == NoteNumbers)
    && |s.damper| == Channels && |s.sostenuto| == Channels
  }

  ghost predicate AnyNoteOn(s: GapState)
    requires Shaped(s)
  {
    exists i, j :: 0 <= i < Channels && 0 <= j < NoteNumbers && s.notes[i][j] != 0
  }

  ghost predicate AnyPedalOn(s: GapState)
    requires Shaped(s)
  {
    exists i :: 0 <= i < Channels && (s.damper[i] != 0 || s.sostenuto[i] != 0)
  }

  predicate CountsNonNegative(s: GapState)
    requires Shaped(s)
  {
    forall i, j :: 0 <= i < Channels && 0 <= j < NoteNumbers ==> s.notes[i][j] >= 0
  }

  /** The detector's invariant: the two flags say exactly whether a note or a
      pedal is held, and a timer is armed only while nothing is held. */
  ghost predicate Consistent(s: GapState)
  {
    && Shaped(s)
    && CountsNonNegative(s)
    && (s.noNotes <==> !AnyNoteOn(s))
    && (s.noPedals <==> !AnyPedalOn(s))
    && (s.armed ==> s.noNotes && s.noPedals)
  }

  /** `initialize`: every counter and pedal at 0, in a gap. It forgets the
      pending timer's id without cancelling it, so that timer becomes a stray:
      it still fires, and no later `detect` can cancel it. */
  function Initialize(s: GapState): (r: GapState)
    ensures Consistent(r) && !AnyNoteOn(r) && !AnyPedalOn(r)
    ensures r.inGap && !r.armed && r.minNoMessagePeriod == s.minNoMessagePeriod
    ensures r.strays == s.strays + (if s.armed then 1 else 0)
  {
    GapState(seq(Channels, _ => seq(NoteNumbers, _ => 0)), seq(Channels, _ => 0), seq(Channels, _ => 0),
             true, true, true, false, s.strays + (if s.armed then 1 else 0), s.minNoMessagePeriod)
  }

  /** The constructor: a one-second threshold, then `initialize`. */
  function NewDetector(): (r: GapState)
    ensures Consistent(r) && r.inGap && !r.armed && r.strays == 0 && r.minNoMessagePeriod == 1000
  {
    Initialize(GapState([], [], [], true, true, true, false, 0, DefaultMinNoMessagePeriod))
  }

  /** `message[i]`, or `Undefined` past the end. */
  function Field(m: seq<byte>, i: nat): (v: int)
    ensures i < |m| ==> v == m[i]
    ensures |m| <= i ==> v == Undefined && v != 0
  {
    if i < |m| then m[i] else Undefined
  }

  /** `message[0] & 0xf0`; `undefined & 0xf0` is 0. */
  function StatusNibble(m: seq<byte>): int
  {
    if |m| == 0 then 0 else m[0] / 16 * 16
  }

  /** `message[0] & 0xf`. */
  function Channel(m: seq<byte>): (ch: int)
    ensures 0 <= ch < Channels
  {
    if |m| == 0 then 0 else m[0] % 16
  }

  /** A control change with controller 0x78-0x7F (channel mode message). */
  predicate ChannelMode(m: seq<byte>)
  {
    StatusNibble(m) == 0xB0 && 0x78 <= Field(m, 1) <= 0x7F
  }

  /** A note-on whose note number does not index the 128-entry row (absent, or
      not below 128): the source increments a property outside the scanned
      range, so the count is invisible but `_bNoNotes` still becomes false. */
  predicate OffGridNoteOn(m: seq<byte>)
  {
    StatusNibble(m) == 0x90 && Field(m, 2) != 0 && !(0 <= Field(m, 1) < NoteNumbers)
  }

  /** `_note_on`. */
  function NoteOn(s: GapState, ch: int, note: int): (r: GapState)
    requires Shaped(s) && 0 <= ch < Channels
    ensures Shaped(r) && !r.noNotes
    ensures 0 <= note < NoteNumbers ==> r.notes[ch][note] == s.notes[ch][note] + 1
    ensures forall i, j :: 0 <= i < Channels && 0 <= j < NoteNumbers && (i, j) != (ch, note) ==>
      r.notes[i][j] == s.notes[i][j]
    ensures r.damper == s.damper && r.sostenuto == s.sostenuto && r.noPedals == s.noPedals
    ensures r.inGap == s.inGap && r.armed == s.armed && r.minNoMessagePeriod == s.minNoMessagePeriod
  {
    var notes := if 0 <= note < NoteNumbers then s.notes[ch := s.notes[ch][note := s.notes[ch][note] + 1]] else s.notes;
    s.(notes := notes, noNotes := false)
  }

  /** `_note_off`: decrement, floored at 0; the flag is set once no count is
      left anywhere, and never cleared here. */
  function NoteOff(s: GapState, ch: int, note: int): (r: GapState)
    requires Shaped(s) && 0 <= ch < Channels
    ensures Shaped(r)
    ensures 0 <= note < NoteNumbers ==>
      r.notes[ch][note] == if s.notes[ch][note] - 1 < 0 then 0 else s.notes[ch][note] - 1
    ensures forall i, j :: 0 <= i < Channels && 0 <= j < NoteNumbers && (i, j) != (ch, note) ==>
      r.notes[i][j] == s.notes[i][j]
    ensures r.noNotes <==> s.noNotes || !AnyNoteOn(r)
    ensures r.damper == s.damper && r.sostenuto == s.sostenuto && r.noPedals == s.noPedals
    ensures r.inGap == s.inGap && r.armed == s.armed && r.minNoMessagePeriod == s.minNoMessagePeriod
  {
    var count := if 0 <= note < NoteNumbers then s.notes[ch][note] - 1 else 0;
    var notes := if 0 <= note < NoteNumbers then s.notes[ch := s.notes[ch][note := if count < 0 then 0 else count]] else s.notes;
    var t := s.(notes := notes);
    t.(noNotes := s.noNotes || !IsNoteOn(t))
  }

  /** `_damper_pedal` and `_sostenuto_pedal`: store the value; a non-zero
      value holds, a zero sets the flag once no pedal is held anywhere. */
  function Pedal(s: GapState, sostenuto: bool, ch: int, value: int): (r: GapState)
    requires Shaped(s) && 0 <= ch < Channels
    ensures Shaped(r) && r.notes == s.notes && r.noNotes == s.noNotes
    ensures !sostenuto ==> r.damper == s.damper[ch := value] && r.sostenuto == s.sostenuto
    ensures sostenuto ==> r.sostenuto == s.sostenuto[ch := value] && r.damper == s.damper
    ensures value != 0 ==> !r.noPedals
    ensures value == 0 ==> (r.noPedals <==> s.noPedals || !AnyPedalOn(r))
    ensures r.inGap == s.inGap && r.armed == s.armed && r.minNoMessagePeriod == s.minNoMessagePeriod
  {
    var t := if sostenuto then s.(sostenuto := s.sostenuto[ch := value]) else s.(damper := s.damper[ch := value]);
    assert Shaped(t) && t.notes == s.notes;
    if value == 0 then t.(noPedals := s.noPedals || !IsPedalOn(t)) else t.(noPedals := false)
  }

  /** `_isNoteOn`: scan the 16 x 128 counts for a non-zero one. */
  function IsNoteOn(s: GapState): (b: bool)
    requires Shaped(s)
    ensures b <==> AnyNoteOn(s)
  {
    ScanNotes(s, 0, 0)
  }

  /** Scan the counts from channel `i`, note `j` onwards, row by row. */
  function ScanNotes(s: GapState, i: nat, j: nat): (b: bool)
    requires Shaped(s) && i <= Channels && j <= NoteNumbers
    ensures b <==> exists i', j' :: i <= i' < Channels && 0 <= j' < NoteNumbers && (i' > i || j' >= j) && s.notes[i'][j'] != 0
    decreases Channels - i, NoteNumbers - j
  {
    if i == Channels then false
    else if j == NoteNumbers then ScanNotes(s, i + 1, 0)
    else if s.notes[i][j] != 0 then true
    else ScanNotes(s, i, j + 1)
  }

  /** `_isPedalOn`: scan the channels for a non-zero damper or sostenuto. */
  function IsPedalOn(s: GapState): (b: bool)
    requires Shaped(s)
    ensures b <==> AnyPedalOn(s)
  {
    ScanPedals(s, 0)
  }

  function ScanPedals(s: GapState, i: nat): (b: bool)
    requires Shaped(s) && i <= Channels
    ensures b <==> exists i' :: i <= i' < Channels && (s.damper[i'] != 0 || s.sostenuto[i'] != 0)
    decreases Channels - i
  {
    if i == Channels then false
    else if s.damper[i] != 0 || s.sostenuto[i] != 0 then true
    else ScanPedals(s, i + 1)
  }

  /** The `switch` of `detect`, for every message but a channel mode one. */
  function Dispatch(s: GapState, m: seq<byte>): (r: GapState)
    requires Shaped(s)
    ensures Shaped(r)
    ensures r.inGap == s.inGap && r.armed == s.armed && r.strays == s.strays
    ensures r.minNoMessagePeriod == s.minNoMessagePeriod
    // a note-on with a non-zero velocity counts the note once more
    ensures var ch, note := Channel(m), Field(m, 1);
      StatusNibble(m) == 0x90 && Field(m, 2) != 0 && 0 <= note < NoteNumbers ==>
        r.notes[ch][note] == s.notes[ch][note] + 1
    // a note-off, or a note-on with velocity 0, counts it once less, never below 0
    ensures var ch, note := Channel(m), Field(m, 1);
      (StatusNibble(m) == 0x80 || (StatusNibble(m) == 0x90 && Field(m, 2) == 0)) && 0 <= note < NoteNumbers ==>
        r.notes[ch][note] == if s.notes[ch][note] > 0 then s.notes[ch][note] - 1 else 0
    // controllers 0x40 and 0x42 store the damper and sostenuto level of the channel
    ensures StatusNibble(m) == 0xB0 && Field(m, 1) == 0x40 ==>
      r.damper == s.damper[Channel(m) := Field(m, 2)] && r.sostenuto == s.sostenuto && r.notes == s.notes
    ensures StatusNibble(m) == 0xB0 && Field(m, 1) == 0x42 ==>
      r.sostenuto == s.sostenuto[Channel(m) := Field(m, 2)] && r.damper == s.damper && r.notes == s.notes
    // every other message leaves the detector as it was
    ensures (StatusNibble(m) != 0x80 && StatusNibble(m) != 0x90 &&
             !(StatusNibble(m) == 0xB0 && (Field(m, 1) == 0x40 || Field(m, 1) == 0x42))) ==> r == s
  {
    var ch := Channel(m);
    if StatusNibble(m) == 0x80 then NoteOff(s, ch, Field(m, 1))
    else if StatusNibble(m) == 0x90 then
      if Field(m, 2) != 0 then NoteOn(s, ch, Field(m, 1)) else NoteOff(s, ch, Field(m, 1))
    else if StatusNibble(m) == 0xB0 && Field(m, 1) == 0x40 then Pedal(s, false, ch, Field(m, 2))
    else if StatusNibble(m) == 0xB0 && Field(m, 1) == 0x42 then Pedal(s, true, ch, Field(m, 2))
    else s
  }

  /** `Dispatch` reads neither the gap flag nor the timer. */
  lemma DispatchIgnoresTimer(s: GapState, m: seq<byte>)
    requires Shaped(s)
    ensures Dispatch(s.(armed := false, inGap := false), m) == Dispatch(s, m).(armed := false, inGap := false)
  {
    var ch, note := Channel(m), Field(m, 1);
    if StatusNibble(m) == 0x80 || (StatusNibble(m) == 0x90 && Field(m, 2) == 0) {
      NoteOffIgnoresTimer(s, ch, note);
    } else if StatusNibble(m) == 0xB0 && (Field(m, 1) == 0x40 || Field(m, 1) == 0x42) {
      PedalIgnoresTimer(s, Field(m, 1) == 0x42, ch, Field(m, 2));
    }
  }

  lemma NoteOffIgnoresTimer(s: GapState, ch: int, note: int)
    requires Shaped(s) && 0 <= ch < Channels
    ensures NoteOff(s.(armed := false, inGap := false), ch, note) == NoteOff(s, ch, note).(armed := false, inGap := false)
  {
    var u := s.(armed := false, inGap := false);
    var count := if 0 <= note < NoteNumbers then s.notes[ch][note] - 1 else 0;
    var notes := if 0 <= note < NoteNumbers then s.notes[ch := s.notes[ch][note := if count < 0 then 0 else count]] else s.notes;
    assert IsNoteOn(u.(notes := notes)) == IsNoteOn(s.(notes := notes)) by {
      assert u.(notes := notes).notes == s.(notes := notes).notes;
    }
  }

  lemma PedalIgnoresTimer(s: GapState, sostenuto: bool, ch: int, value: int)
    requires Shaped(s) && 0 <= ch < Channels
    ensures Pedal(s.(armed := false, inGap := false), sostenuto, ch, value) == Pedal(s, sostenuto, ch, value).(armed := false, inGap := false)
  {
    var u := s.(armed := false, inGap := false);
    var t := if sostenuto then s.(sostenuto := s.sostenuto[ch := value]) else s.(damper := s.damper[ch := value]);
    var tu := t.(armed := false, inGap := false);
    assert AnyPedalOn(tu) == AnyPedalOn(t);
    if value == 0 {
      assert Pedal(u, sostenuto, ch, value) == tu.(noPedals := s.noPedals || !IsPedalOn(tu));
    } else {
      assert Pedal(u, sostenuto, ch, value) == tu.(noPedals := false);
    }
  }

  /** The immediate gap decision of `detect`: the silence before this message
      is long enough and nothing was held through it. */
  predicate GapBefore(s: GapState, delta: int)
  {
    !s.inGap && s.noNotes && s.noPedals && delta >= s.minNoMessagePeriod
  }

  /** `detect`, as written: a channel mode message calls a method name that
      does not exist, so the step throws after disarming the timer and
      leaving the gap, with nothing else updated and no timer armed. */
  function Detect(s: GapState, delta: int, m: seq<byte>): (r: Outcome)
    requires Shaped(s)
    ensures Shaped(r.state) && !r.state.inGap
    ensures r.gap <==> GapBefore(s, delta)
    ensures r.thrown <==> ChannelMode(m)
    ensures r.thrown ==> r.state == s.(inGap := false, armed := false)
    ensures !r.thrown ==> (r.state.armed <==> r.state.noNotes && r.state.noPedals)
    // otherwise the counters, levels and flags are updated as `Dispatch` does
    ensures !r.thrown ==> var d := Dispatch(s, m);
      && r.state.notes == d.notes && r.state.damper == d.damper && r.state.sostenuto == d.sostenuto
      && r.state.noNotes == d.noNotes && r.state.noPedals == d.noPedals
    ensures r.state.strays == s.strays && r.state.minNoMessagePeriod == s.minNoMessagePeriod
  {
    var s1 := s.(armed := false, inGap := false);
    if ChannelMode(m) then Outcome(s1, GapBefore(s, delta), true)
    else
      DispatchIgnoresTimer(s, m);
      var s2 := Dispatch(s1, m);
      Outcome(s2.(armed := s2.noNotes && s2.noPedals), GapBefore(s, delta), false)
  }

  /** `detect` as evidently intended: a channel mode message re-initialises
      the detector (`_channel_mode_message`), after which nothing is held and
      the timer is armed. */
  function DetectIntended(s: GapState, delta: int, m: seq<byte>): (r: Outcome)
    requires Shaped(s)
    ensures Shaped(r.state) && !r.thrown
    ensures r.gap <==> GapBefore(s, delta)
    ensures ChannelMode(m) ==> r.state == Initialize(s).(armed := true, strays := s.strays)
    ensures !ChannelMode(m) ==> r.state == Detect(s, delta, m).state
    ensures r.state.armed <==> r.state.noNotes && r.state.noPedals
    ensures r.state.strays == s.strays && r.state.minNoMessagePeriod == s.minNoMessagePeriod
  {
    var s1 := s.(armed := false, inGap := false);
    var s2 := if ChannelMode(m) then Initialize(s1) else Dispatch(s1, m);
    Outcome(s2.(armed := s2.noNotes && s2.noPedals), GapBefore(s, delta), false)
  }

  /** The timer callback: enter the gap and report it. The callback runs only
      while a timer is armed; it does not clear `_timeoutID`, but a fired
      timer cannot fire again, which `armed := false` records. */
  function Timeout(s: GapState): (r: Outcome)
    ensures r.gap <==> s.armed
    ensures s.armed ==> r.state == s.(inGap := true, armed := false)
    ensures !s.armed ==> r.state == s
    ensures !r.thrown
  {
    if s.armed then Outcome(s.(inGap := true, armed := false), true, false) else Outcome(s, false, false)
  }

  /** A stray timer firing: the same callback, which enters the gap and
      reports it whatever is held by then. */
  function StrayTimeout(s: GapState): (r: Outcome)
    ensures r.gap <==> s.strays > 0
    ensures s.strays > 0 ==> r.state == s.(inGap := true, strays := s.strays - 1)
    ensures s.strays == 0 ==> r.state == s
    ensures !r.thrown
  {
    if s.strays > 0 then Outcome(s.(inGap := true, strays := s.strays - 1), true, false) else Outcome(s, false, false)
  }

  // ---------------------------------------------------------------------------
  // Properties
  // ---------------------------------------------------------------------------

  /** A note-off never turns a count on: every count left non-zero was
      non-zero before. */
  lemma NoteOffOnlyReleases(s: GapState, ch: int, note: int)
    requires Shaped(s) && CountsNonNegative(s) && 0 <= ch < Channels
    ensures var r := NoteOff(s, ch, note); CountsNonNegative(r) && (AnyNoteOn(r) ==> AnyNoteOn(s))
  {
    var r := NoteOff(s, ch, note);
    if AnyNoteOn(r) {
      var i, j :| 0 <= i < Channels && 0 <= j < NoteNumbers && r.notes[i][j] != 0;
      assert s.notes[i][j] != 0;
    }
  }

  /** Setting a pedal to 0 never turns a pedal on. */
  lemma PedalOffOnlyReleases(s: GapState, sostenuto: bool, ch: int)
    requires Shaped(s) && 0 <= ch < Channels
    ensures var r := Pedal(s, sostenuto, ch, 0); AnyPedalOn(r) ==> AnyPedalOn(s)
  {
    var r := Pedal(s, sostenuto, ch, 0);
    if AnyPedalOn(r) {
      var i :| 0 <= i < Channels && (r.damper[i] != 0 || r.sostenuto[i] != 0);
      assert s.damper[i] != 0 || s.sostenuto[i] != 0;
    }
  }

  lemma DispatchKeepsFlags(s: GapState, m: seq<byte>)
    requires Consistent(s) && !OffGridNoteOn(m)
    ensures var r := Dispatch(s, m);
      && CountsNonNegative(r)
      && (r.noNotes <==> !AnyNoteOn(r))
      && (r.noPedals <==> !AnyPedalOn(r))
  {
    var ch := Channel(m);
    var r := Dispatch(s, m);
    if StatusNibble(m) == 0x80 || (StatusNibble(m) == 0x90 && Field(m, 2) == 0) {
      NoteOffOnlyReleases(s, ch, Field(m, 1));
    } else if StatusNibble(m) == 0x90 {
      var note := Field(m, 1);
      assert r.notes[ch][note] == s.notes[ch][note] + 1;
      assert AnyNoteOn(r);
    } else if StatusNibble(m) == 0xB0 && (Field(m, 1) == 0x40 || Field(m, 1) == 0x42) {
      var sost := Field(m, 1) == 0x42;
      var v := Field(m, 2);
      if v == 0 {
        PedalOffOnlyReleases(s, sost, ch);
      } else {
        assert r.damper[ch] != 0 || r.sostenuto[ch] != 0;
      }
    }
  }

  /** `detect` keeps the invariant for every message except a note-on that
      does not index the grid; afterwards a timer is armed exactly when no
      note and no pedal is held. */
  lemma DetectKeepsConsistent(s: GapState, delta: int, m: seq<byte>)
    requires Consistent(s) && !OffGridNoteOn(m)
    ensures var r := Detect(s, delta, m);
      && Consistent(r.state)
      && (!r.thrown ==> (r.state.armed <==> !AnyNoteOn(r.state) && !AnyPedalOn(r.state)))
  {
    if !ChannelMode(m) {
      DispatchKeepsFlags(s.(armed := false, inGap := false), m);
    }
  }

  /** The same for the intended `detect`, with no exception. */
  lemma DetectIntendedKeepsConsistent(s: GapState, delta: int, m: seq<byte>)
    requires Consistent(s) && !OffGridNoteOn(m)
    ensures var r := DetectIntended(s, delta, m);
      && Consistent(r.state)
      && (r.state.armed <==> !AnyNoteOn(r.state) && !AnyPedalOn(r.state))
  {
    if !ChannelMode(m) {
      DetectKeepsConsistent(s, delta, m);
    }
  }

  lemma TimeoutKeepsConsistent(s: GapState)
    requires Consistent(s)
    ensures Consistent(Timeout(s).state) && !Timeout(s).state.armed
  {
  }

  /** One report per silence: once the detector is quiet after a message, the
      silence that follows is reported either by the timer or, if the next
      message comes first, by that message when the silence reached the
      threshold; never by both. */
  lemma OneReportPerSilence(s: GapState, delta: int, m: seq<byte>, delta2: int, m2: seq<byte>)
    requires Consistent(s) && !OffGridNoteOn(m)
    requires Detect(s, delta, m).state.armed
    ensures var q := Detect(s, delta, m).state;
      && Timeout(q).gap
      && !Detect(Timeout(q).state, delta2, m2).gap
      && (Detect(q, delta2, m2).gap <==> delta2 >= q.minNoMessagePeriod)
  {
    DetectKeepsConsistent(s, delta, m);
  }

  /** While a note is held, neither an immediate gap nor the armed timer's
      gap is reported, however long the silence. A stray timer still can be
      (`StrayTimerReportsHeldNote`). */
  lemma HeldNoteSuppressesGap(s: GapState, delta: int, m: seq<byte>)
    requires Consistent(s) && AnyNoteOn(s)
    ensures !Detect(s, delta, m).gap && !Timeout(s).gap
  {
  }

  /** A note-on opens the notes and disarms the timer; the matching note-off
      closes them again and arms the timer. */
  lemma NoteOnOffExample(s: GapState)
    requires Consistent(s) && !AnyNoteOn(s) && !AnyPedalOn(s)
    ensures var r1 := Detect(s, 0, [0x90, 0x3C, 0x40]);
      var r2 := Detect(r1.state, 500, [0x80, 0x3C, 0x00]);
      && AnyNoteOn(r1.state) && !r1.state.armed
      && !AnyNoteOn(r2.state) && r2.state.armed && !r2.gap
  {
    var r1 := Detect(s, 0, [0x90, 0x3C, 0x40]);
    assert r1.state.notes[0][0x3C] == 1;
    DetectKeepsConsistent(s, 0, [0x90, 0x3C, 0x40]);
    DetectKeepsConsistent(r1.state, 500, [0x80, 0x3C, 0x00]);
  }

  /** As written, All Notes Off (`B0 7B 00`) on a held note throws: the note
      stays held and no timer is armed, so no gap can be reported until that
      very note is released. */
  lemma ChannelModeLeavesNotesHeld(s: GapState)
    requires Consistent(s) && !AnyNoteOn(s) && !AnyPedalOn(s)
    ensures var r1 := Detect(s, 0, [0x90, 0x3C, 0x40]);
      var r2 := Detect(r1.state, 0, [0xB0, 0x7B, 0x00]);
      && r2.thrown && AnyNoteOn(r2.state) && !r2.state.armed
      && !Timeout(r2.state).gap
  {
    var r1 := Detect(s, 0, [0x90, 0x3C, 0x40]);
    assert r1.state.notes[0][0x3C] == 1;
    var r2 := Detect(r1.state, 0, [0xB0, 0x7B, 0x00]);
    assert r2.state.notes[0][0x3C] == 1;
  }

  /** As intended, any channel mode message releases every note and pedal and
      arms the timer, so the silence after it is reported. */
  lemma ChannelModeReleasesAll(s: GapState, delta: int, m: seq<byte>)
    requires Shaped(s) && ChannelMode(m)
    ensures var r := DetectIntended(s, delta, m);
      && Consistent(r.state) && !AnyNoteOn(r.state) && !AnyPedalOn(r.state)
      && r.state.armed && Timeout(r.state).gap
  {
  }

  /** `initialize` while the idle timer is armed leaves that timer running.
      After a note-on and its note-off have armed it, re-initialising and
      pressing the note again still lets it fire: a gap is reported while
      the note is held, and `detect` can no longer cancel it. */
  lemma StrayTimerReportsHeldNote(s: GapState)
    requires Consistent(s) && !AnyNoteOn(s) && !AnyPedalOn(s) && s.strays == 0
    ensures var r1 := Detect(s, 0, [0x90, 0x3C, 0x40]);
      var r2 := Detect(r1.state, 0, [0x80, 0x3C, 0x00]);
      var r3 := Detect(Initialize(r2.state), 0, [0x90, 0x3C, 0x40]);
      && r2.state.armed && AnyNoteOn(r3.state) && !r3.state.armed
      && !Timeout(r3.state).gap && StrayTimeout(r3.state).gap
  {
    NoteOnOffExample(s);
    var r2 := Detect(Detect(s, 0, [0x90, 0x3C, 0x40]).state, 0, [0x80, 0x3C, 0x00]);
    var i := Initialize(r2.state);
    assert i.strays == 1;
    var r3 := Detect(i, 0, [0x90, 0x3C, 0x40]);
    assert r3.state.notes[0][0x3C] == 1 && r3.state.strays == 1;
  }
}
