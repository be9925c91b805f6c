/** The emulated floppy drive: motor, head stepping and side selection, driven by
    writes to the CIA port and by delay events. */
module Drive {
  import opened LinkedList
  import opened EventOrder
  import opened EventFire
  import opened EventQueue

  datatype Motor = Off | SpinningUp | SpinningDown | On
  datatype Step = Still | In | Out

  /** The bits of the CIA-B port that the drive looks at; all are active low. */
  datatype Port = Port(motor: bool, sel0: bool, side: bool, direc: bool, step: bool)

  const MOTOR: nat := 0
  const STEP: nat := 1
  const DATA: nat := 2
  const EVENTS: nat := 3

  const STEP_DELAY: nat := 1_000_000
  const MOTORON_DELAY: nat := 100_000_000
  const MOTOROFF_DELAY: nat := 1_000_000

  /** The drive and its events.  ready and track0 are the CIA-A input lines, low
      when false. */
  datatype State = State(motor: Motor, step: Step, tracknr: nat, latched: Port, ready: bool, track0: bool, events: Sim)

  ghost predicate EventsOk(d: State)
  {
    |d.events.time| == EVENTS && Consistent(d.events)
  }

  // ----- what the source computes

  /** track_load: the data event is due one cell after now. */
  function TrackLoad(d: State, now: nat, cell: nat): State
    requires EventsOk(d)
  {
    d.(events := Set(d.events, DATA, now + cell))
  }

  /** disk_recalc_cia_inputs. */
  function Recalc(d: State, port: Port): State
  {
    d.(ready := port.sel0 || !(d.motor.On? || d.motor.SpinningDown?), track0 := port.sel0 || d.tracknr > 1)
  }

  function MotorCb(d: State, now: nat, cell: nat): State
    requires EventsOk(d)
  {
    Recalc(if d.motor == SpinningUp then TrackLoad(d.(motor := On), now, cell)
           else d.(motor := Off, events := Unset(d.events, DATA)), d.latched)
  }

  /** Track numbers are kept in sixteen bits. */
  function StepCb(d: State, now: nat, cell: nat): State
    requires EventsOk(d)
  {
    var e := d.(tracknr := (if d.step == In then d.tracknr + 2 else d.tracknr + 0xfffe) % 0x10000, step := Still);
    Recalc(TrackLoad(e, now, cell), d.latched)
  }

  /** The side bit. */
  function SideChanged(d: State, port: Port, now: nat, cell: nat): State
    requires EventsOk(d)
  {
    if d.latched.side == port.side then d
    else TrackLoad(d.(tracknr := if d.tracknr % 2 == 0 then d.tracknr + 1 else d.tracknr - 1), now, cell)
  }

  /** The motor bit is latched when the drive becomes selected. */
  function MotorLatched(d: State, port: Port, now: nat): State
    requires EventsOk(d)
  {
    if !d.latched.sel0 then d
    else if !port.motor then
      if d.motor == Off then d.(motor := SpinningUp, events := Set(d.events, MOTOR, now + MOTORON_DELAY))
      else if d.motor == SpinningDown then d.(motor := On, events := Unset(d.events, MOTOR))
      else d
    else
      if d.motor == On then d.(motor := SpinningDown, events := Set(d.events, MOTOR, now + MOTOROFF_DELAY))
      else if d.motor == SpinningUp then d.(motor := Off, events := Unset(d.events, MOTOR))
      else d
  }

  /** A step request on the rising edge of the step bit. */
  function StepRequested(d: State, port: Port, now: nat): State
    requires EventsOk(d)
  {
    if d.latched.step || !port.step || d.step != Still then d
    else
      var s := if port.direc then Out else In;
      if (s == Out && d.tracknr <= 1) || (s == In && d.tracknr >= 159) then d
      else d.(step := s, events := Set(d.events, STEP, now + STEP_DELAY))
  }

  lemma SetOk(d: State, e: nat, t: nat)
    requires EventsOk(d) && e < EVENTS && t != 0
    ensures EventsOk(d.(events := Set(d.events, e, t)))
    ensures forall f: nat | f < EVENTS :: Set(d.events, e, t).time[f] == if f == e then t else d.events.time[f]
  {
    SetKeeps(d.events, e, t);
  }

  lemma UnsetOk(d: State, e: nat)
    requires EventsOk(d) && e < EVENTS
    ensures EventsOk(d.(events := Unset(d.events, e)))
    ensures forall f: nat | f < EVENTS :: Unset(d.events, e).time[f] == if f == e then 0 else d.events.time[f]
  {
    UnsetKeeps(d.events, e);
  }

  // ----- what holds in every reachable state

  /** The events match the motor and the step, and the track matches the side. */
  ghost predicate Sound(d: State, side: bool)
  {
    && EventsOk(d)
    && (d.motor.SpinningUp? || d.motor.SpinningDown? <==> d.events.time[MOTOR] != 0)
    && (d.step != Still <==> d.events.time[STEP] != 0)
    && d.tracknr <= 161
    && (d.step == Out ==> d.tracknr >= 2)
    && (d.step == In ==> d.tracknr <= 159)
    && (d.tracknr % 2 == 1 <==> !side)
  }

  ghost predicate LinesMatch(d: State)
  {
    && d.ready == (d.latched.sel0 || !(d.motor.On? || d.motor.SpinningDown?))
    && d.track0 == (d.latched.sel0 || d.tracknr > 1)
  }

  ghost predicate Inv(d: State)
  {
    Sound(d, d.latched.side) && LinesMatch(d)
  }

  /** disk_init. */
  function Initial(): State
  {
    State(Off, Still, 2, Port(true, true, true, true, true), true, true, Sim([], [0, 0, 0]))
  }

  lemma InitialHolds()
    ensures Inv(Initial())
  {
  }

  lemma SideKeeps(d: State, port: Port, now: nat, cell: nat)
    requires Sound(d, d.latched.side) && cell > 0
    ensures Sound(SideChanged(d, port, now, cell), port.side)
  {
    hide Consistent, Set;
    SetOk(d, DATA, now + cell);
  }

  lemma SideEvents(d: State, port: Port, now: nat, cell: nat)
    requires EventsOk(d) && cell > 0
    ensures EventsOk(SideChanged(d, port, now, cell))
  {
    SetOk(d, DATA, now + cell);
  }

  lemma LatchKeeps(d: State, port: Port, now: nat)
    requires EventsOk(d)
    ensures EventsOk(MotorLatched(d, port, now))
    ensures forall side | Sound(d, side) :: Sound(MotorLatched(d, port, now), side)
  {
    hide Consistent, Set, Unset;
    SetOk(d, MOTOR, now + MOTORON_DELAY);
    SetOk(d, MOTOR, now + MOTOROFF_DELAY);
    UnsetOk(d, MOTOR);
  }

  lemma RequestKeeps(d: State, port: Port, now: nat, side: bool)
    requires Sound(d, side)
    ensures Sound(StepRequested(d, port, now), side)
  {
    hide Consistent, Set;
    SetOk(d, STEP, now + STEP_DELAY);
  }

  /** disk_cia_changed. */
  function CiaChanged(d: State, port: Port, now: nat, cell: nat): State
    requires EventsOk(d) && cell > 0
  {
    SideEvents(d, port, now, cell);
    var d1 := SideChanged(d, port, now, cell);
    if port.sel0 then Recalc(d1.(latched := port), port)
    else
      LatchKeeps(d1, port, now);
      Recalc(StepRequested(MotorLatched(d1, port, now), port, now).(latched := port), port)
  }

  lemma CiaKeeps(d: State, port: Port, now: nat, cell: nat)
    requires Inv(d) && cell > 0
    ensures Inv(CiaChanged(d, port, now, cell))
  {
    hide Sound, SideChanged, MotorLatched, StepRequested;
    SoundEvents(d, d.latched.side);
    SideEvents(d, port, now, cell);
    SideKeeps(d, port, now, cell);
    var d1 := SideChanged(d, port, now, cell);
    LatchKeeps(d1, port, now);
    if !port.sel0 {
      var d2 := MotorLatched(d1, port, now);
      RequestKeeps(d2, port, now, port.side);
      SoundLines(StepRequested(d2, port, now), port.side, port);
    } else {
      SoundLines(d1, port.side, port);
    }
  }

  lemma SoundEvents(d: State, side: bool)
    requires Sound(d, side)
    ensures EventsOk(d)
  {
  }

  /** The lines are worked out anew from a sound state. */
  lemma SoundLines(d: State, side: bool, port: Port)
    requires Sound(d, side) && port.side == side
    ensures Inv(Recalc(d.(latched := port), port))
  {
    hide Consistent;
  }

  // ----- events firing

  /** What happens next: a write to the port, or the head of the queue falls due. */
  datatype Input = Write(port: Port) | Fire

  /** The state after the head of the queue has been taken out and its callback
      has run; the data callback asks for the next cell. */
  function Fired(d: State, now: nat, cell: nat): State
    requires EventsOk(d) && cell > 0
  {
    if d.events.queue == [] then d
    else
      var e := d.events.queue[0];
      assert EventsOk(d.(events := Unset(d.events, e))) by { UnsetOk(d, e); }
      var u := d.(events := Unset(d.events, e));
      if e == MOTOR then MotorCb(u, now, cell)
      else if e == STEP then StepCb(u, now, cell)
      else TrackLoad(u, now, cell)
  }

  /** The spinning motor has come up or down. */
  lemma MotorFires(d: State, now: nat, cell: nat)
    requires Inv(d) && cell > 0 && d.events.time[MOTOR] != 0
    ensures EventsOk(d.(events := Unset(d.events, MOTOR)))
    ensures Inv(MotorCb(d.(events := Unset(d.events, MOTOR)), now, cell))
  {
    hide Set, Unset, Consistent;
    UnsetOk(d, MOTOR);
    var u := d.(events := Unset(d.events, MOTOR));
    SetOk(u, DATA, now + cell);
    UnsetOk(u, DATA);
  }

  lemma StepFires(d: State, now: nat, cell: nat)
    requires Inv(d) && cell > 0 && d.events.time[STEP] != 0
    ensures EventsOk(d.(events := Unset(d.events, STEP)))
    ensures Inv(StepCb(d.(events := Unset(d.events, STEP)), now, cell))
  {
    hide Set, Unset, Consistent;
    UnsetOk(d, STEP);
    SetOk(d.(events := Unset(d.events, STEP)), DATA, now + cell);
    Stepped(d.tracknr, d.step == In);
  }

  lemma Stepped(nr: nat, inwards: bool)
    requires if inwards then nr <= 159 else 2 <= nr <= 161
    ensures (if inwards then nr + 2 else nr + 0xfffe) % 0x10000 == if inwards then nr + 2 else nr - 2
  {
  }

  lemma DataFires(d: State, now: nat, cell: nat)
    requires Inv(d) && cell > 0
    ensures EventsOk(d.(events := Unset(d.events, DATA)))
    ensures Inv(TrackLoad(d.(events := Unset(d.events, DATA)), now, cell))
  {
    hide Set, Unset, Consistent;
    UnsetOk(d, DATA);
    SetOk(d.(events := Unset(d.events, DATA)), DATA, now + cell);
  }

  lemma FiredKeeps(d: State, now: nat, cell: nat)
    requires Inv(d) && cell > 0
    ensures Inv(Fired(d, now, cell))
  {
    hide Inv, MotorCb, StepCb, TrackLoad;
    InvEvents(d);
    if d.events.queue != [] {
      HeadHasTime(d.events);
      var e := d.events.queue[0];
      if e == MOTOR {
        MotorFires(d, now, cell);
      } else if e == STEP {
        StepFires(d, now, cell);
      } else {
        DataFires(d, now, cell);
      }
    }
  }

  // ----- what a request brings about

  /** The state in which the callback of event e starts. */
  function Due(d: State, e: nat): State
    requires EventsOk(d) && e < EVENTS
  {
    d.(events := Unset(d.events, e))
  }

  /** The step bit rises while the drive is selected and the head is at rest: a
      millisecond later it is two tracks further in, or out with the direction bit set;
      at the end of the way nothing is begun. */
  lemma HeadSteps(d: State, port: Port, now: nat, cell: nat, later: nat, cell': nat)
    requires Inv(d) && cell > 0 && cell' > 0
    requires !port.sel0 && port.side == d.latched.side && !d.latched.step && port.step && d.step == Still
    ensures EventsOk(d) && EventsOk(CiaChanged(d, port, now, cell))
    ensures var e := CiaChanged(d, port, now, cell);
            var goes := if port.direc then d.tracknr >= 2 else d.tracknr <= 158;
            && e.tracknr == d.tracknr
            && e.events.time[STEP] == (if goes then now + 1_000_000 else 0)
            && (goes ==> EventsOk(Due(e, STEP)) && StepCb(Due(e, STEP), later, cell').step == Still
                         && StepCb(Due(e, STEP), later, cell').tracknr == if port.direc then d.tracknr - 2 else d.tracknr + 2)
  {
    hide Consistent, Set, Unset, MotorLatched;
    LatchedIs(d, port, now);
    var d2 := MotorLatched(d, port, now);
    SetOk(d2, STEP, now + STEP_DELAY);
    CiaKeeps(d, port, now, cell);
    var e := CiaChanged(d, port, now, cell);
    UnsetOk(e, STEP);
    if if port.direc then d.tracknr >= 2 else d.tracknr <= 158 {
      Stepped(d.tracknr, !port.direc);
    }
  }

  lemma LatchedIs(d: State, port: Port, now: nat)
    requires EventsOk(d)
    ensures EventsOk(MotorLatched(d, port, now))
    ensures var e := MotorLatched(d, port, now);
            && e.tracknr == d.tracknr && e.step == d.step && e.latched == d.latched
            && e.events.time[STEP] == d.events.time[STEP] && e.events.time[DATA] == d.events.time[DATA]
  {
    hide Consistent, Set, Unset;
    SetOk(d, MOTOR, now + MOTORON_DELAY);
    SetOk(d, MOTOR, now + MOTOROFF_DELAY);
    UnsetOk(d, MOTOR);
  }

  /** What becomes of the motor once its event, if there is one, has fired. */
  ghost function Settled(d: State, later: nat, cell: nat): State
    requires EventsOk(d)
  {
    if d.events.time[MOTOR] == 0 then d
    else
      UnsetOk(d, MOTOR);
      MotorCb(Due(d, MOTOR), later, cell)
  }

  /** Selecting the drive sets its motor as the motor bit says, low meaning on: whatever
      it was doing, it ends up running and ready, or stopped and not ready.  It takes a
      hundred milliseconds to come up and one to stop. */
  lemma MotorFollows(d: State, port: Port, now: nat, cell: nat, later: nat, cell': nat)
    requires Inv(d) && cell > 0 && cell' > 0 && d.latched.sel0 && !port.sel0
    ensures EventsOk(d) && EventsOk(CiaChanged(d, port, now, cell))
    ensures var e := CiaChanged(d, port, now, cell);
            var f := Settled(e, later, cell');
            && f.motor == (if port.motor then Off else On) && f.ready == port.motor
            && (d.motor == Off && !port.motor ==> e.events.time[MOTOR] == now + 100_000_000)
            && (d.motor == On && port.motor ==> e.events.time[MOTOR] == now + 1_000_000)
            && (e.events.time[MOTOR] != 0 ==> f.events.time[DATA] == if port.motor then 0 else later + cell')
  {
    hide Consistent, Set, Unset, StepRequested;
    SideEvents(d, port, now, cell);
    var d1 := SideChanged(d, port, now, cell);
    MotorApart(d, port, now, cell);
    SetOk(d1, MOTOR, now + MOTORON_DELAY);
    SetOk(d1, MOTOR, now + MOTOROFF_DELAY);
    UnsetOk(d1, MOTOR);
    LatchKeeps(d1, port, now);
    RequestApart(MotorLatched(d1, port, now), port, now);
    CiaKeeps(d, port, now, cell);
    var e := CiaChanged(d, port, now, cell);
    UnsetOk(e, MOTOR);
    if e.events.time[MOTOR] != 0 {
      SetOk(Due(e, MOTOR), DATA, later + cell');
      UnsetOk(Due(e, MOTOR), DATA);
    }
  }

  /** What the selecting write does at once: a motor already on its way to what the bit
      says is left alone, one on its way to the opposite turns round without delay. */
  lemma MotorTurns(d: State, port: Port, now: nat, cell: nat)
    requires Inv(d) && cell > 0 && d.latched.sel0 && !port.sel0
    ensures EventsOk(d) && EventsOk(CiaChanged(d, port, now, cell))
    ensures var e := CiaChanged(d, port, now, cell);
            var was, due := d.events.time[MOTOR], e.events.time[MOTOR];
            if port.motor then
              && (d.motor == On ==> e.motor == SpinningDown && due == now + 1_000_000)
              && (d.motor == SpinningDown ==> e.motor == SpinningDown && due == was)
              && (d.motor == Off || d.motor == SpinningUp ==> e.motor == Off && due == 0)
            else
              && (d.motor == Off ==> e.motor == SpinningUp && due == now + 100_000_000)
              && (d.motor == SpinningUp ==> e.motor == SpinningUp && due == was)
              && (d.motor == On || d.motor == SpinningDown ==> e.motor == On && due == 0)
  {
    hide Consistent, Set, Unset, StepRequested;
    SideEvents(d, port, now, cell);
    var d1 := SideChanged(d, port, now, cell);
    MotorApart(d, port, now, cell);
    SetOk(d1, MOTOR, now + MOTORON_DELAY);
    SetOk(d1, MOTOR, now + MOTOROFF_DELAY);
    UnsetOk(d1, MOTOR);
    LatchKeeps(d1, port, now);
    RequestApart(MotorLatched(d1, port, now), port, now);
    CiaKeeps(d, port, now, cell);
  }

  /** The motor bit counts only when the drive becomes selected. */
  lemma MotorHolds(d: State, port: Port, now: nat, cell: nat)
    requires Inv(d) && cell > 0 && (port.sel0 || !d.latched.sel0)
    ensures EventsOk(d) && EventsOk(CiaChanged(d, port, now, cell))
    ensures var e := CiaChanged(d, port, now, cell);
            e.motor == d.motor && e.events.time[MOTOR] == d.events.time[MOTOR]
  {
    hide Consistent, Set, Unset, StepRequested;
    MotorApart(d, port, now, cell);
    RequestApart(SideChanged(d, port, now, cell), port, now);
    CiaKeeps(d, port, now, cell);
  }

  /** The step bit counts only where it rises, while the drive is selected and the head
      at rest; a step under way is not disturbed. */
  lemma StepHolds(d: State, port: Port, now: nat, cell: nat)
    requires Inv(d) && cell > 0 && (port.sel0 || d.latched.step || !port.step || d.step != Still)
    ensures EventsOk(d) && EventsOk(CiaChanged(d, port, now, cell))
    ensures var e := CiaChanged(d, port, now, cell);
            && e.step == d.step && e.events.time[STEP] == d.events.time[STEP]
            && e.tracknr / 2 == d.tracknr / 2
  {
    hide Consistent, Set, Unset, MotorLatched;
    SetOk(d, DATA, now + cell);
    MotorApart(d, port, now, cell);
    LatchedIs(SideChanged(d, port, now, cell), port, now);
    CiaKeeps(d, port, now, cell);
  }

  /** What the head of the queue brings about when it fires. */
  lemma FiredDoes(d: State, now: nat, cell: nat)
    requires Inv(d) && cell > 0 && EventsOk(d) && d.events.queue != []
    ensures EventsOk(Fired(d, now, cell)) && d.events.queue[0] < EVENTS
    ensures var f, e := Fired(d, now, cell), d.events.queue[0];
            && (e == MOTOR ==> f.motor == (if d.motor == SpinningUp then On else Off) && f.events.time[MOTOR] == 0
                               && f.events.time[DATA] == if d.motor == SpinningUp then now + cell else 0)
            && (e == STEP ==> f.step == Still && f.events.time[STEP] == 0 && f.events.time[DATA] == now + cell
                              && f.tracknr == if d.step == In then d.tracknr + 2 else d.tracknr - 2)
            && (e == DATA ==> f.events.time[DATA] == now + cell)
            && (e != MOTOR ==> f.motor == d.motor && f.events.time[MOTOR] == d.events.time[MOTOR])
            && (e != STEP ==> f.step == d.step && f.tracknr == d.tracknr && f.events.time[STEP] == d.events.time[STEP])
  {
    hide Consistent, Set, Unset;
    HeadHasTime(d.events);
    FiredKeeps(d, now, cell);
    var e := d.events.queue[0];
    UnsetOk(d, e);
    var u := d.(events := Unset(d.events, e));
    SetOk(u, DATA, now + cell);
    UnsetOk(u, DATA);
    if e == STEP {
      Stepped(d.tracknr, d.step == In);
    }
  }

  lemma MotorApart(d: State, port: Port, now: nat, cell: nat)
    requires EventsOk(d) && cell > 0
    ensures var e := SideChanged(d, port, now, cell);
            EventsOk(e) && e.motor == d.motor && e.latched == d.latched && e.events.time[MOTOR] == d.events.time[MOTOR]
  {
    hide Consistent, Set;
    SetOk(d, DATA, now + cell);
  }

  lemma RequestApart(d: State, port: Port, now: nat)
    requires EventsOk(d)
    ensures var e := StepRequested(d, port, now);
            EventsOk(e) && e.motor == d.motor && e.events.time[MOTOR] == d.events.time[MOTOR]
  {
    hide Consistent, Set;
    SetOk(d, STEP, now + STEP_DELAY);
  }

  lemma InvEvents(d: State)
    requires Inv(d)
    ensures EventsOk(d)
  {
  }

  lemma HeadHasTime(s: Sim)
    requires Consistent(s) && s.queue != []
    ensures s.queue[0] < |s.time| && s.time[s.queue[0]] != 0
  {
    assert s.queue[0] in s.queue;
  }

  /** Any sequence of inputs, each at a time of its own and with a cell time of
      the track that is then under the head. */
  datatype Timed = Timed(input: Input, now: nat, cell: nat)

  function Next(d: State, t: Timed): State
    requires EventsOk(d) && t.cell > 0
  {
    match t.input
    case Write(port) => CiaChanged(d, port, t.now, t.cell)
    case Fire => Fired(d, t.now, t.cell)
  }

  lemma NextKeeps(d: State, t: Timed)
    requires Inv(d) && t.cell > 0
    ensures Inv(Next(d, t))
  {
    match t.input
    case Write(port) => CiaKeeps(d, port, t.now, t.cell);
    case Fire => FiredKeeps(d, t.now, t.cell);
  }

  ghost predicate RunOk(ts: seq<Timed>)
  {
    forall i | 0 <= i < |ts| :: ts[i].cell > 0
  }

  /** The drive after a run: every state of it keeps the invariant. */
  ghost function Run(ts: seq<Timed>): (d: State)
    requires RunOk(ts)
    ensures Inv(d)
  {
    if ts == [] then InitialHolds(); Initial()
    else
      NextKeeps(Run(ts[..|ts| - 1]), ts[|ts| - 1]);
      Next(Run(ts[..|ts| - 1]), ts[|ts| - 1])
  }

  // ----- the drive

  class Df0 {
    const base: EventBase
    var motor: Motor
    var step: Step
    var tracknr: nat
    var latched: Port
    var ready: bool
    var track0: bool

    ghost predicate Valid()
      reads this, base, base.active, base.active.spine, base.events
    {
      base.Valid() && |base.events| == EVENTS && Inv(View())
    }

    ghost function View(): State
      reads this, base, base.active, base.active.spine, base.events
    {
      State(motor, step, tracknr, latched, ready, track0, base.View())
    }

    /** disk_init, with its three events. */
    constructor ()
      ensures Valid() && fresh(base) && fresh(base.active) && fresh(base.events)
      ensures View() == Initial()
    {
      hide Consistent, Distinct, Chained;
      var b := AllocEvents();
      base := b;
      motor, step, tracknr, latched := Off, Still, 2, Port(true, true, true, true, true);
      ready, track0 := true, true;
      new;
      InitialHolds();
    }

    static method AllocEvents() returns (b: EventBase)
      ensures b.Valid() && fresh(b) && fresh(b.active) && |b.events| == EVENTS && fresh(b.events)
      ensures b.View() == Sim([], [0, 0, 0])
    {
      hide Consistent, Distinct, Chained;
      b := new EventBase();
      var m := b.EventAlloc();
      var s := b.EventAlloc();
      var d := b.EventAlloc();
    }

    /** disk_recalc_cia_inputs. */
    method RecalcCiaInputs()
      modifies this`ready, this`track0
      ensures ready == (latched.sel0 || !(motor.On? || motor.SpinningDown?))
      ensures track0 == (latched.sel0 || tracknr > 1)
    {
      ready, track0 := true, true;
      if latched.sel0 {
        return;
      }
      match motor {
        case Off => ready := true;
        case SpinningUp => ready := true;
        case On => ready := false;
        case SpinningDown => ready := false;
      }
      if tracknr <= 1 {
        track0 := false;
      }
    }

    lemma EventsKnown()
      requires base.Valid() && |base.events| == EVENTS
      ensures EventsOk(View())
    {
    }

    /** track_load, as far as the events go: data_cb asks for the first cell. */
    method LoadTrack(cell: nat)
      requires base.Valid() && |base.events| == EVENTS && cell > 0
      modifies base.active, base.events
      ensures base.Valid() && EventsOk(old(View()))
      ensures View() == TrackLoad(old(View()), base.now, cell)
    {
      hide Consistent, Distinct, Chained, Set, Unset, EventBase.Valid, EventBase.View;
      EventsKnown();
      base.EventSet(DATA, base.now + cell);
    }

    /** motor_cb. */
    method MotorCallback(cell: nat)
      requires base.Valid() && |base.events| == EVENTS && cell > 0
      modifies base.active, base.events, this
      ensures base.Valid() && EventsOk(old(View()))
      ensures View() == MotorCb(old(View()), base.now, cell)
    {
      hide Consistent, Distinct, Chained, Set, Unset, EventBase.Valid, EventBase.View;
      EventsKnown();
      if motor == SpinningUp {
        motor := On;
        LoadTrack(cell);
      } else {
        motor := Off;
        base.EventUnset(DATA);
      }
      RecalcCiaInputs();
    }

    /** step_cb. */
    method StepCallback(cell: nat)
      requires base.Valid() && |base.events| == EVENTS && cell > 0
      modifies base.active, base.events, this
      ensures base.Valid() && EventsOk(old(View()))
      ensures View() == StepCb(old(View()), base.now, cell)
    {
      hide Consistent, Distinct, Chained, Set, Unset, EventBase.Valid, EventBase.View;
      EventsKnown();
      if step == In {
        tracknr := (tracknr + 2) % 0x10000;
      } else {
        tracknr := (tracknr + 0xfffe) % 0x10000;
      }
      step := Still;
      LoadTrack(cell);
      RecalcCiaInputs();
    }

    /** disk_cia_changed. */
    method DiskCiaChanged(port: Port, cell: nat)
      requires Valid() && cell > 0
      modifies base.active, base.events, this
      ensures Valid() && EventsOk(old(View()))
      ensures View() == CiaChanged(old(View()), port, base.now, cell)
    {
      hide Consistent, Distinct, Chained, Set, Unset, SideChanged, MotorLatched, StepRequested, Inv, EventBase.Valid, EventBase.View;
      InvEvents(View());
      CiaKeeps(View(), port, base.now, cell);
      ChangeSide(port, cell);
      if !port.sel0 {
        LatchMotor(port);
        RequestStep(port);
      }
      latched := port;
      RecalcCiaInputs();
    }

    method ChangeSide(port: Port, cell: nat)
      requires base.Valid() && |base.events| == EVENTS && cell > 0
      modifies base.active, base.events, this`tracknr
      ensures base.Valid() && EventsOk(old(View()))
      ensures View() == SideChanged(old(View()), port, base.now, cell)
    {
      hide Consistent, Distinct, Chained, Set, Unset, EventBase.Valid, EventBase.View;
      EventsKnown();
      if latched.side != port.side {
        tracknr := if tracknr % 2 == 0 then tracknr + 1 else tracknr - 1;
        LoadTrack(cell);
      }
    }

    method LatchMotor(port: Port)
      requires base.Valid() && |base.events| == EVENTS
      modifies base.active, base.events, this`motor
      ensures base.Valid() && EventsOk(old(View()))
      ensures View() == MotorLatched(old(View()), port, base.now)
    {
      hide Consistent, Distinct, Chained, Set, Unset, EventBase.Valid, EventBase.View;
      EventsKnown();
      if latched.sel0 {
        if !port.motor {
          if motor == Off {
            motor := SpinningUp;
            base.EventSet(MOTOR, base.now + MOTORON_DELAY);
          } else if motor == SpinningDown {
            motor := On;
            base.EventUnset(MOTOR);
          }
        } else {
          if motor == On {
            motor := SpinningDown;
            base.EventSet(MOTOR, base.now + MOTOROFF_DELAY);
          } else if motor == SpinningUp {
            motor := Off;
            base.EventUnset(MOTOR);
          }
        }
      }
    }

    method RequestStep(port: Port)
      requires base.Valid() && |base.events| == EVENTS
      modifies base.active, base.events, this`step
      ensures base.Valid() && EventsOk(old(View()))
      ensures View() == StepRequested(old(View()), port, base.now)
    {
      hide Consistent, Distinct, Chained, Set, Unset, EventBase.Valid, EventBase.View;
      EventsKnown();
      if !latched.step && port.step && step == Still {
        step := if port.direc then Out else In;
        if (step == Out && tracknr <= 1) || (step == In && tracknr >= 159) {
          step := Still;
        }
        if step != Still {
          base.EventSet(STEP, base.now + STEP_DELAY);
        }
      }
    }

    /** One due event of fire_events and its callback. */
    method FireNext(cell: nat)
      requires Valid() && cell > 0 && base.active.spine != []
      modifies base.active, base.events, this
      ensures Valid() && EventsOk(old(View()))
      ensures View() == Fired(old(View()), base.now, cell)
    {
      hide Consistent, Distinct, Chained, Set, Unset, Inv;
      ghost var d := View();
      FiredKeeps(d, base.now, cell);
      var e := base.TakeHead();
      HeadUnset(d.events);
      if e == MOTOR {
        MotorCallback(cell);
      } else if e == STEP {
        StepCallback(cell);
      } else {
        LoadTrack(cell);
      }
    }
  }

  lemma HeadUnset(s: Sim)
    requires Consistent(s) && s.queue != []
    ensures s.queue[0] < |s.time| && Unset(s, s.queue[0]) == Sim(s.queue[1..], s.time[s.queue[0] := 0])
  {
    assert s.queue[0] in s.queue;
  }
}
