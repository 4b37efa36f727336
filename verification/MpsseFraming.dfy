/** What the slave sees of a run: pin updates agree with the shadow, and every transfer list arrives as frames
    of bytes shifted at the right clock level and edges while chip select is active. */
module MpsseFraming {
  import opened BitString
  import opened Memory
  import opened MpsseChip
  import opened MpsseSpi
  import opened SpiApi

  /** The slave is selected when its chip-select pin says so. */
  predicate Wired(env: Env, c: Chip)
    requires env.Valid()
  {
    c.view.selected == env.slave.Selects(c.dir, c.out)
  }

  predicate Consistent(env: Env, s: State)
    requires env.Valid()
  {
    Agrees(env, s) && Wired(env, s.chip)
  }

  lemma HalvesAt(a: Pins, b: Pins, p: nat)
    requires p < PINS
    ensures Pin(a[..8] + b[8..], p) == if p < 8 then Pin(b, p) else Pin(a, p)
  {
  }

  lemma SameHalf(a: Pins, b: Pins, p: nat)
    requires p < PINS && if p < 8 then !LowDiffers(a, b) else !HighDiffers(a, b)
    ensures Pin(a, p) == Pin(b, p)
  {
    if p < 8 {
      assert a[8..][7 - p] == b[8..][7 - p];
    } else {
      assert a[..8][PINS - 1 - p] == b[..8][PINS - 1 - p];
    }
  }

  /** Setting pins keeps the shadow in agreement with the chip although unchanged halves are never sent,
      and changes exactly the pins in the mask that the chip has. */
  lemma SetGpioAgrees(env: Env, s: State, mask: Pins, dir: Pins, val: Pins)
    requires env.Valid() && Agrees(env, s)
    ensures var s' := SetGpio(env, s, mask, dir, val);
      && Agrees(env, s')
      && (forall p: nat | p < env.maxGpios :: Pin(s'.chip.dir, p) == if Pin(mask, p) then Pin(dir, p) else Pin(s.chip.dir, p))
      && (forall p: nat | p < env.maxGpios :: Pin(s'.chip.out, p) == if Pin(mask, p) then Pin(val, p) else Pin(s.chip.out, p))
  {
    hide LowDiffers, HighDiffers, Pin;
    var s' := SetGpio(env, s, mask, dir, val);
    forall p: nat | p < env.maxGpios
      ensures Pin(s'.dir, p) == Pin(s'.chip.dir, p) && Pin(s'.out, p) == Pin(s'.chip.out, p)
      ensures Pin(s'.dir, p) == if Pin(mask, p) then Pin(dir, p) else Pin(s.dir, p)
      ensures Pin(s'.out, p) == if Pin(mask, p) then Pin(val, p) else Pin(s.out, p)
    {
      PinSet(env, s, mask, dir, val, p);
    }
  }

  lemma MaskedPin(mask: Pins, n: nat, p: nat)
    requires p < n <= PINS
    ensures Pin(And(mask, FirstPins(n)), p) == Pin(mask, p)
  {
    assert Pin(FirstPins(n), p);
  }

  lemma PinSet(env: Env, s: State, mask: Pins, dir: Pins, val: Pins, p: nat)
    requires env.Valid() && Agrees(env, s) && p < env.maxGpios
    ensures var s' := SetGpio(env, s, mask, dir, val);
      && Pin(s'.dir, p) == Pin(s'.chip.dir, p) && Pin(s'.out, p) == Pin(s'.chip.out, p)
      && Pin(s'.dir, p) == (if Pin(mask, p) then Pin(dir, p) else Pin(s.dir, p))
      && Pin(s'.out, p) == (if Pin(mask, p) then Pin(val, p) else Pin(s.out, p))
  {
    hide LowDiffers, HighDiffers, Pin, Merge, FirstPins, And;
    MaskedPin(mask, env.maxGpios, p);
    var m := And(mask, FirstPins(env.maxGpios));
    var newDir, newOut := Merge(s.dir, m, dir), Merge(s.out, m, val);
    var lowSent := LowDiffers(newDir, s.dir) || LowDiffers(newOut, s.out);
    var highSent := HighDiffers(newDir, s.dir) || HighDiffers(newOut, s.out);
    if !(if p < 8 then lowSent else highSent) {
      SameHalf(newDir, s.dir, p);
      SameHalf(newOut, s.out, p);
    }
    HalvesAt(s.chip.dir, newDir, p);
    HalvesAt(s.chip.out, newOut, p);
    var d1 := if lowSent then s.chip.dir[..8] + newDir[8..] else s.chip.dir;
    var o1 := if lowSent then s.chip.out[..8] + newOut[8..] else s.chip.out;
    HalvesAt(newDir, d1, p);
    HalvesAt(newOut, o1, p);
  }

  /** One call of mpsse_set_gpio. */
  datatype Update = Update(mask: Pins, dir: Pins, val: Pins)

  function SetAll(env: Env, s: State, updates: seq<Update>): State
    requires env.Valid()
    decreases |updates|
  {
    if updates == [] then s
    else
      var u := updates[|updates| - 1];
      SetGpio(env, SetAll(env, s, updates[..|updates| - 1]), u.mask, u.dir, u.val)
  }

  /** What the last update with pin p in its mask made it. */
  function LastDir(updates: seq<Update>, p: nat, was: bool): bool
    requires p < PINS
    decreases |updates|
  {
    if updates == [] then was
    else
      var u := updates[|updates| - 1];
      if Pin(u.mask, p) then Pin(u.dir, p) else LastDir(updates[..|updates| - 1], p, was)
  }

  function LastOut(updates: seq<Update>, p: nat, was: bool): bool
    requires p < PINS
    decreases |updates|
  {
    if updates == [] then was
    else
      var u := updates[|updates| - 1];
      if Pin(u.mask, p) then Pin(u.val, p) else LastOut(updates[..|updates| - 1], p, was)
  }

  /** After any sequence of updates the shadow agrees with the chip, and every pin the chip has is what
      the last update that names it made it. */
  lemma {:induction false} SequenceAgrees(env: Env, s: State, updates: seq<Update>)
    requires env.Valid() && Agrees(env, s)
    ensures var s' := SetAll(env, s, updates);
      && Agrees(env, s')
      && (forall p: nat | p < env.maxGpios :: Pin(s'.chip.dir, p) == LastDir(updates, p, Pin(s.chip.dir, p)))
      && (forall p: nat | p < env.maxGpios :: Pin(s'.chip.out, p) == LastOut(updates, p, Pin(s.chip.out, p)))
    decreases |updates|
  {
    hide SetGpio, Agrees, Pin;
    if updates != [] {
      var front, u := updates[..|updates| - 1], updates[|updates| - 1];
      SequenceAgrees(env, s, front);
      SetGpioAgrees(env, SetAll(env, s, front), u.mask, u.dir, u.val);
    }
  }

  /** From the pin reset on, any sequence of updates without a failing transfer: all pins start as inputs at low level. */
  method UpdateAll(m: Mpsse, updates: seq<Update>) returns (ok: bool)
    requires m.Setup().Valid() && m.gpioDir == m.gpioOut == Zeros(PINS)
    modifies m`gpioDir, m`gpioOut, m.link
    ensures ok <==> m.link.faults == old(m.link.faults)
    ensures ok ==>
      && Agrees(m.Setup(), m.Now())
      && (forall p: nat | p < m.maxGpios <= PINS :: Pin(m.link.chip.dir, p) == LastDir(updates, p, false))
      && (forall p: nat | p < m.maxGpios <= PINS :: Pin(m.link.chip.out, p) == LastOut(updates, p, false))
  {
    hide SetGpio, LastDir, LastOut;
    ok := m.ResetPins();
    if !ok {
      return;
    }
    ghost var s := m.Now();
    ResetIsZero(m.Setup(), s);
    assert updates[..0] == [];
    for i := 0 to |updates|
      invariant m.link.faults == old(m.link.faults) && m.Now() == SetAll(m.Setup(), s, updates[..i])
    {
      var u := updates[i];
      assert updates[..i + 1][..i] == updates[..i];
      ok := m.SetPins(u.mask, u.dir, u.val);
      if !ok {
        return;
      }
    }
    assert updates[..|updates|] == updates;
    SequenceAgrees(m.Setup(), s, updates);
    ok := true;
  }

  lemma ResetIsZero(env: Env, s: State)
    requires env.Valid() && Agrees(env, s) && s.dir == s.out == Zeros(PINS)
    ensures forall p: nat | p < env.maxGpios :: !Pin(s.chip.dir, p) && !Pin(s.chip.out, p)
  {
    forall p: nat | p < env.maxGpios ensures !Pin(s.chip.dir, p) && !Pin(s.chip.out, p) {
      assert !Pin(s.dir, p) && !Pin(s.out, p);
    }
  }

  // ---- after a transfer has failed ----

  /** The shadow is what the chip drives on the low half of the pins, or on the high half. */
  predicate HalfAgrees(env: Env, s: State, low: bool) {
    forall p: nat | p < env.maxGpios <= PINS && (p < 8 <==> low) ::
      Pin(s.dir, p) == Pin(s.chip.dir, p) && Pin(s.out, p) == Pin(s.chip.out, p)
  }

  /** The update changes the shadow of this half. */
  predicate HalfChanges(s: State, s': State, low: bool) {
    if low then LowDiffers(s'.dir, s.dir) || LowDiffers(s'.out, s.out)
    else HighDiffers(s'.dir, s.dir) || HighDiffers(s'.out, s.out)
  }

  /** Repeating an update never reaches the chip, whatever became of the first one: the shadow already has the values. */
  lemma RepeatSendsNothing(env: Env, s: State, chip: Chip, mask: Pins, dir: Pins, val: Pins)
    requires env.Valid()
    ensures var s' := SetGpio(env, s, mask, dir, val).(chip := chip); SetGpio(env, s', mask, dir, val) == s'
  {
    hide FirstPins, And, Drive, Merge;
    var m := And(mask, FirstPins(env.maxGpios));
    MergeTwice(s.dir, m, dir);
    MergeTwice(s.out, m, val);
  }

  lemma MergeTwice(was: Pins, mask: Pins, val: Pins)
    ensures Merge(Merge(was, mask, val), mask, val) == Merge(was, mask, val)
  {
  }

  /** Whatever shadow and chip were, after an update they agree on a half of the pins if and only if they agreed there before
      or the update changes the shadow of that half. */
  lemma MendedIff(env: Env, s: State, mask: Pins, dir: Pins, val: Pins, low: bool)
    requires env.Valid()
    ensures var s' := SetGpio(env, s, mask, dir, val);
      HalfAgrees(env, s', low) <==> HalfAgrees(env, s, low) || HalfChanges(s, s', low)
  {
    hide LowDiffers, HighDiffers, Merge, FirstPins, And, Pin;
    var s' := SetGpio(env, s, mask, dir, val);
    forall p: nat | p < env.maxGpios && (p < 8 <==> low)
      ensures HalfChanges(s, s', low) ==> Pin(s'.dir, p) == Pin(s'.chip.dir, p) && Pin(s'.out, p) == Pin(s'.chip.out, p)
      ensures !HalfChanges(s, s', low) ==>
        && Pin(s'.dir, p) == Pin(s.dir, p) && Pin(s'.out, p) == Pin(s.out, p)
        && Pin(s'.chip.dir, p) == Pin(s.chip.dir, p) && Pin(s'.chip.out, p) == Pin(s.chip.out, p)
    {
      HalfSet(env, s, mask, dir, val, low, p);
    }
  }

  lemma HalfSet(env: Env, s: State, mask: Pins, dir: Pins, val: Pins, low: bool, p: nat)
    requires env.Valid() && p < env.maxGpios && (p < 8 <==> low)
    ensures var s' := SetGpio(env, s, mask, dir, val);
      if HalfChanges(s, s', low) then Pin(s'.dir, p) == Pin(s'.chip.dir, p) && Pin(s'.out, p) == Pin(s'.chip.out, p)
      else
        && Pin(s'.dir, p) == Pin(s.dir, p) && Pin(s'.out, p) == Pin(s.out, p)
        && Pin(s'.chip.dir, p) == Pin(s.chip.dir, p) && Pin(s'.chip.out, p) == Pin(s.chip.out, p)
  {
    hide LowDiffers, HighDiffers, Pin, Merge, FirstPins, And;
    var m := And(mask, FirstPins(env.maxGpios));
    var newDir, newOut := Merge(s.dir, m, dir), Merge(s.out, m, val);
    var lowSent := LowDiffers(newDir, s.dir) || LowDiffers(newOut, s.out);
    if !HalfChanges(s, SetGpio(env, s, mask, dir, val), low) {
      SameHalf(newDir, s.dir, p);
      SameHalf(newOut, s.out, p);
    }
    HalvesAt(s.chip.dir, newDir, p);
    HalvesAt(s.chip.out, newOut, p);
    var d1 := if lowSent then s.chip.dir[..8] + newDir[8..] else s.chip.dir;
    var o1 := if lowSent then s.chip.out[..8] + newOut[8..] else s.chip.out;
    HalvesAt(newDir, d1, p);
    HalvesAt(newOut, o1, p);
  }

  /** Up to two packets act on the slave as one change of pins. */
  lemma SetGpioIsDrive(env: Env, s: State, mask: Pins, dir: Pins, val: Pins)
    requires env.Valid() && Consistent(env, s)
    ensures var c' := SetGpio(env, s, mask, dir, val).chip; c' == Drive(env.slave, s.chip, c'.dir, c'.out)
  {
    hide Merge, FirstPins, And, LowDiffers, HighDiffers;
  }

  /** One pin update as the slave and the host see it. */
  lemma SetGpioEffect(env: Env, s: State, mask: Pins, dir: Pins, val: Pins)
    requires env.Valid() && Consistent(env, s)
    ensures var s' := SetGpio(env, s, mask, dir, val);
      && Consistent(env, s')
      && s'.chip == Drive(env.slave, s.chip, s'.chip.dir, s'.chip.out)
      && (forall p: nat | p < env.maxGpios :: Pin(s'.chip.dir, p) == if Pin(mask, p) then Pin(dir, p) else Pin(s.chip.dir, p))
      && (forall p: nat | p < env.maxGpios :: Pin(s'.chip.out, p) == if Pin(mask, p) then Pin(val, p) else Pin(s.chip.out, p))
  {
    hide SetGpio, Agrees, Pin;
    SetGpioAgrees(env, s, mask, dir, val);
    SetGpioIsDrive(env, s, mask, dir, val);
  }

  /** Inside a frame: the slave is selected since a moment of idle clock, and the clock stands ready to shift. */
  predicate InFrame(env: Env, s: State)
    requires env.Valid()
  {
    && Consistent(env, s) && s.chip.view.selected && s.chip.view.selClock == ModeOf(env.mode).idle
    && Pin(s.chip.out, 0) == ModeOf(env.mode).start
  }

  function Closed(v: View, clock: bool): View {
    v.(selected := false, open := [], frames := v.frames + [Frame(v.selClock, v.open, clock)])
  }

  /** Starting releases the slave if it was left selected, and selects it while the clock is idle. */
  lemma StartEffect(env: Env, s: State)
    requires env.Valid() && Consistent(env, s)
    ensures var s', v := Start(env, s), s.chip.view;
      && InFrame(env, s') && s'.chip.view.open == [] && s'.chip.view.stray == v.stray
      && s'.chip.view.frames == (if v.selected then Closed(v, ModeOf(env.mode).idle) else v).frames
  {
    hide SetGpio, Agrees, Pin, Levels, Mask, ModeOf;
    EdgesRightIff(env);
    var cs, high := env.slave.cs, env.slave.activeHigh;
    SetGpioEffect(env, s, Mask(SK, cs), Mask(SK, cs), Levels(cs, env.Cpol(), !high));
    var s1 := SetGpio(env, s, Mask(SK, cs), Mask(SK, cs), Levels(cs, env.Cpol(), !high));
    SetGpioEffect(env, s1, Mask(cs, cs), Mask(cs, cs), Levels(cs, env.Cpol(), high));
    var s2 := SetGpio(env, s1, Mask(cs, cs), Mask(cs, cs), Levels(cs, env.Cpol(), high));
    SetGpioEffect(env, s2, Mask(SK, SK), Mask(SK, SK), Levels(cs, !env.Cpol(), high));
  }

  /** Stopping brings the clock back to idle and then releases the slave. */
  lemma StopEffect(env: Env, s: State)
    requires env.Valid() && InFrame(env, s)
    ensures Consistent(env, Stop(env, s)) && Stop(env, s).chip.view == Closed(s.chip.view, ModeOf(env.mode).idle)
  {
    hide SetGpio, Agrees, Pin, Levels, Mask, ModeOf;
    EdgesRightIff(env);
    var cs, high := env.slave.cs, env.slave.activeHigh;
    var s1 := if env.Cpha() then SetGpio(env, s, Mask(SK, SK), Mask(SK, SK), Levels(cs, env.Cpol(), false)) else s;
    SetGpioEffect(env, s, Mask(SK, SK), Mask(SK, SK), Levels(cs, env.Cpol(), false));
    SetGpioEffect(env, s1, Mask(cs, cs), Mask(cs, cs), Levels(cs, false, !high));
  }

  // ---- what a list of transfers means to the slave ----

  function Sent(m: BusMode, tx: seq<Byte>): (r: seq<Shift>)
    ensures |r| == |tx|
  {
    seq(|tx|, i requires 0 <= i < |tx| => Shift(m.start, m.outRising, false, tx[i]))
  }

  /** n bytes of the slave's, each answered to everything before it. */
  function Fetched(m: BusMode, slave: Slave, frames: seq<Frame>, open: seq<Shift>, n: nat): (r: seq<Shift>)
    ensures |r| == n
    decreases n
  {
    if n == 0 then []
    else
      var byte := Shift(m.start, m.inRising, true, slave.answer(frames, open));
      [byte] + Fetched(m, slave, frames, open + [byte], n - 1)
  }

  function BytesOf(shifts: seq<Shift>): (r: seq<Byte>)
    ensures |r| == |shifts|
  {
    seq(|shifts|, i requires 0 <= i < |shifts| => shifts[i].byte)
  }

  datatype Ideal = Ideal(ok: bool, frames: seq<Frame>, open: seq<Shift>, selected: bool, rxs: seq<seq<Byte>>)

  /** A perfect SPI master: transfers up to one marked end are one frame, selected and released at idle clock. */
  function IdealRun(m: BusMode, slave: Slave, frames: seq<Frame>, open: seq<Shift>, xfers: seq<Transfer<Byte>>, start: bool,
                    rxs: seq<seq<Byte>>): Ideal
    requires forall x | x in xfers :: x.Valid()
    decreases |xfers|
  {
    if xfers == [] then Ideal(true, frames, if start then [] else open, !start, rxs)
    else
      var x := xfers[0];
      var open1 := if start then [] else open;
      if !x.Plain() then Ideal(false, frames + [Frame(m.idle, open1, m.idle)], [], false, rxs)
      else
        var shifts := if x.dir.Out? then Sent(m, x.tx) else Fetched(m, slave, frames, open1, x.len);
        var rxs' := rxs + [if x.dir.Out? then [] else BytesOf(shifts)];
        if x.end
        then IdealRun(m, slave, frames + [Frame(m.idle, open1 + shifts, m.idle)], [], xfers[1..], true, rxs')
        else IdealRun(m, slave, frames, open1 + shifts, xfers[1..], false, rxs')
  }

  lemma {:induction false} ShiftOutEffect(m: BusMode, c: Chip, tx: seq<Byte>)
    requires c.view.selected && Pin(c.out, 0) == m.start
    ensures ShiftOut(c, m.outRising, tx) == c.(view := c.view.(open := c.view.open + Sent(m, tx)))
    decreases |tx|
  {
    hide Pin;
    if tx == [] {
      assert c.view.open + [] == c.view.open;
    } else {
      ShiftOutEffect(m, ShiftByte(c, m.outRising, false, tx[0]), tx[1..]);
      assert (c.view.open + [Sent(m, tx)[0]]) + Sent(m, tx[1..]) == c.view.open + Sent(m, tx);
    }
  }

  lemma {:induction false} ShiftInEffect(m: BusMode, slave: Slave, c: Chip, n: nat)
    requires c.view.selected && Pin(c.out, 0) == m.start
    ensures var shifts := Fetched(m, slave, c.view.frames, c.view.open, n);
      ShiftIn(slave, c, m.inRising, n)
      == c.(view := c.view.(open := c.view.open + shifts), readable := c.readable + BytesOf(shifts))
    decreases n
  {
    hide Pin;
    var shifts := Fetched(m, slave, c.view.frames, c.view.open, n);
    if n == 0 {
      assert c.view.open + shifts == c.view.open && c.readable + BytesOf(shifts) == c.readable;
    } else {
      var byte := slave.answer(c.view.frames, c.view.open);
      var c' := ShiftByte(c, m.inRising, true, byte).(readable := c.readable + [byte]);
      ShiftInEffect(m, slave, c', n - 1);
      assert (c.view.open + [shifts[0]]) + shifts[1..] == c.view.open + shifts;
      assert (c.readable + [byte]) + BytesOf(shifts[1..]) == c.readable + BytesOf(shifts);
    }
  }

  /** One transfer inside a frame. */
  lemma MoveEffect(env: Env, s: State, x: Transfer<Byte>)
    requires env.Valid() && env.mode < 4 && InFrame(env, s) && x.Valid()
    ensures var v := s.chip.view;
      var m := ModeOf(env.mode);
      var shifts := if x.dir.Out? then Sent(m, x.tx) else Fetched(m, env.slave, v.frames, v.open, x.len);
      && InFrame(env, Move(env, s, x)) && Move(env, s, x).chip.view == v.(open := v.open + shifts)
      && Received(env, s, x) == if x.dir.Out? then [] else BytesOf(shifts)
  {
    hide Pin, Agrees, ModeOf;
    EdgesRightIff(env);
    if x.dir.Out? {
      ShiftOutEffect(ModeOf(env.mode), s.chip, x.tx);
    } else {
      ShiftInEffect(ModeOf(env.mode), env.slave, s.chip, x.len);
    }
    SamePinsAgree(env, s, Move(env, s, x));
  }

  lemma SamePinsAgree(env: Env, s: State, t: State)
    requires t.dir == s.dir && t.out == s.out && t.chip.dir == s.chip.dir && t.chip.out == s.chip.out && Agrees(env, s)
    ensures Agrees(env, t)
  {
  }

  /** The slave's view and the caller's data at the end of a run are the ideal ones. */
  predicate Matches(env: Env, o: Outcome, i: Ideal, stray: bool)
    requires env.Valid()
  {
    var v := o.s.chip.view;
    && (o.status.Ok? <==> i.ok) && !o.status.IoError? && o.rxs == i.rxs && Consistent(env, o.s)
    && v.frames == i.frames && v.selected == i.selected && v.stray == stray
    && (v.selected ==> v.open == i.open && v.selClock == ModeOf(env.mode).idle)
  }

  lemma {:induction false} RunFrames(env: Env, s: State, xfers: seq<Transfer<Byte>>, start: bool, rxs: seq<seq<Byte>>)
    requires env.Valid() && env.mode < 4 && forall x | x in xfers :: x.Valid()
    requires if start then Consistent(env, s) && !s.chip.view.selected else InFrame(env, s)
    ensures Matches(env, Run(env, s, xfers, start, rxs),
                    IdealRun(ModeOf(env.mode), env.slave, s.chip.view.frames, s.chip.view.open, xfers, start, rxs),
                    s.chip.view.stray)
    decreases |xfers|
  {
    hide Consistent, Start, Stop, Move, Received, Sent, Fetched, BytesOf, Matches, Pin;
    if xfers == [] {
      NoTransfers(env, s, start, rxs);
    } else {
      var x := xfers[0];
      if start {
        StartEffect(env, s);
      }
      var s1 := if start then Start(env, s) else s;
      if !x.Plain() {
        StopEffect(env, s1);
        Refused(env, s, s1, xfers, start, rxs);
      } else {
        MoveEffect(env, s1, x);
        var s2 := Move(env, s1, x);
        if x.end {
          StopEffect(env, s2);
        }
        RunFrames(env, if x.end then Stop(env, s2) else s2, xfers[1..], x.end, rxs + [Received(env, s1, x)]);
      }
    }
  }

  lemma NoTransfers(env: Env, s: State, start: bool, rxs: seq<seq<Byte>>)
    requires env.Valid() && if start then Consistent(env, s) && !s.chip.view.selected else InFrame(env, s)
    ensures Matches(env, Run(env, s, [], start, rxs),
                    IdealRun(ModeOf(env.mode), env.slave, s.chip.view.frames, s.chip.view.open, [], start, rxs),
                    s.chip.view.stray)
  {
    hide Consistent;
  }

  lemma Refused(env: Env, s: State, s1: State, xfers: seq<Transfer<Byte>>, start: bool, rxs: seq<seq<Byte>>)
    requires env.Valid() && forall x | x in xfers :: x.Valid()
    requires xfers != [] && !xfers[0].Plain() && s1 == if start then Start(env, s) else s
    requires Consistent(env, Stop(env, s1)) && Stop(env, s1).chip.view == Closed(s1.chip.view, ModeOf(env.mode).idle)
    requires s1.chip.view.frames == s.chip.view.frames && s1.chip.view.stray == s.chip.view.stray
    requires s1.chip.view.selClock == ModeOf(env.mode).idle && s1.chip.view.open == if start then [] else s.chip.view.open
    ensures Matches(env, Run(env, s, xfers, start, rxs),
                    IdealRun(ModeOf(env.mode), env.slave, s.chip.view.frames, s.chip.view.open, xfers, start, rxs),
                    s.chip.view.stray)
  {
    hide Consistent, Start, Stop;
  }

  /** Every run from a released slave is the ideal run, in all four modes and both polarities, on low and high pins. */
  lemma RunIsIdeal(env: Env, s: State, xfers: seq<Transfer<Byte>>)
    requires env.Valid() && env.mode < 4 && Consistent(env, s) && !s.chip.view.selected && forall x | x in xfers :: x.Valid()
    ensures Matches(env, Run(env, s, xfers, true, []),
                    IdealRun(ModeOf(env.mode), env.slave, s.chip.view.frames, [], xfers, true, []), s.chip.view.stray)
  {
    hide Run, Matches, Consistent;
    RunFrames(env, s, xfers, true, []);
    OpenIgnored(env, s.chip.view.frames, s.chip.view.open, xfers);
  }

  lemma OpenIgnored(env: Env, frames: seq<Frame>, open: seq<Shift>, xfers: seq<Transfer<Byte>>)
    requires forall x | x in xfers :: x.Valid()
    ensures IdealRun(ModeOf(env.mode), env.slave, frames, open, xfers, true, [])
         == IdealRun(ModeOf(env.mode), env.slave, frames, [], xfers, true, [])
  {
  }

  /** What a slave wired for this mode number has to see of a byte and of a frame. */
  predicate ByteInMode(mode: nat, b: Shift) {
    b.clock == (mode == 1 || mode == 2) && b.rising == if b.incoming then mode == 0 || mode == 3 else mode == 1 || mode == 2
  }

  predicate BytesInMode(mode: nat, bytes: seq<Shift>) { forall k | 0 <= k < |bytes| :: ByteInMode(mode, bytes[k]) }

  predicate FrameInMode(mode: nat, f: Frame) {
    f.selClock == f.relClock == (mode == 2 || mode == 3) && BytesInMode(mode, f.shifts)
  }

  lemma {:induction false} FetchedInMode(mode: nat, slave: Slave, frames: seq<Frame>, open: seq<Shift>, n: nat)
    requires mode < 4
    ensures BytesInMode(mode, Fetched(ModeOf(mode), slave, frames, open, n))
    decreases n
  {
    if n > 0 {
      var m := ModeOf(mode);
      FetchedInMode(mode, slave, frames, open + [Shift(m.start, m.inRising, true, slave.answer(frames, open))], n - 1);
    }
  }

  lemma {:induction false} IdealInMode(mode: nat, slave: Slave, frames: seq<Frame>, open: seq<Shift>,
                                       xfers: seq<Transfer<Byte>>, start: bool, rxs: seq<seq<Byte>>)
    requires mode < 4 && BytesInMode(mode, open) && forall x | x in xfers :: x.Valid()
    ensures var i := IdealRun(ModeOf(mode), slave, frames, open, xfers, start, rxs);
      && frames <= i.frames && BytesInMode(mode, i.open)
      && forall k | |frames| <= k < |i.frames| :: FrameInMode(mode, i.frames[k])
    decreases |xfers|
  {
    hide ByteInMode, Fetched, Sent, BytesOf;
    if xfers != [] && xfers[0].Plain() {
      var m, x := ModeOf(mode), xfers[0];
      var open1 := if start then [] else open;
      var shifts := if x.dir.Out? then Sent(m, x.tx) else Fetched(m, slave, frames, open1, x.len);
      SentInMode(mode, x.tx);
      FetchedInMode(mode, slave, frames, open1, x.len);
      var rxs' := rxs + [if x.dir.Out? then [] else BytesOf(shifts)];
      if x.end {
        IdealInMode(mode, slave, frames + [Frame(m.idle, open1 + shifts, m.idle)], [], xfers[1..], true, rxs');
      } else {
        IdealInMode(mode, slave, frames, open1 + shifts, xfers[1..], false, rxs');
      }
    }
  }

  lemma SentInMode(mode: nat, tx: seq<Byte>)
    requires mode < 4
    ensures BytesInMode(mode, Sent(ModeOf(mode), tx))
  {
  }

  /** In every run modes 0 and 1 select and release the slave at low clock, modes 2 and 3 at high clock; bytes start at
      low clock in modes 0 and 3 and at high clock in modes 1 and 2; they go out on the falling edge and are sampled on
      the rising edge in modes 0 and 3, the other way round in modes 1 and 2. */
  lemma RunInMode(env: Env, s: State, xfers: seq<Transfer<Byte>>)
    requires env.Valid() && env.mode < 4 && Consistent(env, s) && !s.chip.view.selected && forall x | x in xfers :: x.Valid()
    ensures var v := Run(env, s, xfers, true, []).s.chip.view;
      && (forall k | |s.chip.view.frames| <= k < |v.frames| :: FrameInMode(env.mode, v.frames[k]))
      && (v.selected ==> v.selClock == (env.mode == 2 || env.mode == 3) && BytesInMode(env.mode, v.open))
  {
    hide Run, IdealRun, Consistent, FrameInMode, BytesInMode;
    NoneInMode(env.mode);
    RunIsIdeal(env, s, xfers);
    IdealInMode(env.mode, env.slave, s.chip.view.frames, [], xfers, true, []);
  }

  lemma NoneInMode(mode: nat)
    ensures BytesInMode(mode, [])
  {
  }

  /** A call on a host in step with its chip: unless a USB transfer fails, the slave sees the ideal frames,
      the caller gets the slave's bytes, and host and chip stay in step. */
  method Transact(m: Mpsse, xfers: seq<Transfer<Byte>>) returns (status: Status, rxs: seq<seq<Byte>>)
    requires m.Setup().Valid() && m.mode < 4 && m.scratch.Length == BUF_LEN && m.link.chip.readable == []
    requires Consistent(m.Setup(), m.Now()) && !m.link.chip.view.selected && forall x | x in xfers :: x.Valid()
    modifies m`gpioDir, m`gpioOut, m.link, m.scratch
    ensures m.link.faults == old(m.link.faults) ==>
              Matches(m.Setup(), Outcome(status, m.Now(), rxs),
                      IdealRun(ModeOf(m.mode), m.link.slave, old(m.link.chip.view.frames), [], xfers, true, []),
                      old(m.link.chip.view.stray))
    ensures status.Ok? ==> m.link.faults == old(m.link.faults)
    ensures m.link.dataFaults > old(m.link.dataFaults) && m.link.faults == old(m.link.faults) + 1 ==>
              status.IoError? && Released(m.Setup(), m.gpioDir, m.gpioOut)
  {
    hide Run, Matches, IdealRun, Consistent;
    RunIsIdeal(m.Setup(), m.Now(), xfers);
    status, rxs := m.GenericXfer(xfers);
  }
}
