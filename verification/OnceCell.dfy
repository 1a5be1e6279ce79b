/**
 The set-once cell shared by any number of threads. A step is one atomic action of one thread: a
 compare-exchange, a load or a store of the state byte, or the plain read or write of the slot.
 */
module OnceCell {
  import opened Options

  datatype Phase = Empty | Busy | Ready

  /** `arg` is what the caller passed, `held` what the thread carries in its local variable. */
  datatype Pc<T> =
    | Idle
    | Trying(arg: T, held: T)
    | Watching(arg: T, held: T)
    | Filling(arg: T, held: T)
    | Publishing(arg: T)
    | Asking(blocking: bool)
    | Reading(blocking: bool)

  /** What calls have returned so far; `waited` tells a `wait` from a `get`. */
  datatype Event<T> =
    | SetOk(arg: T)
    | SetErr(arg: T, back: T)
    | GotNone(waited: bool)
    | Yielded(waited: bool, value: T)

  datatype State<T> = State(phase: Phase, slot: Option<T>, writes: nat, pc: map<nat, Pc<T>>, events: seq<Event<T>>)

  datatype Action<T> = CallSet(arg: T) | CallGet | CallWait | Advance

  function Log<T>(s: State<T>, e: Event<T>): State<T> {
    s.(events := s.events + [e])
  }

  ghost predicate Next<T(!new)>(s: State<T>, t: nat, act: Action<T>, s': State<T>)
    requires t in s.pc
  {
    match act
    case CallSet(arg) => s.pc[t].Idle? && s' == s.(pc := s.pc[t := Trying(arg, arg)])
    case CallGet => s.pc[t].Idle? && s' == s.(pc := s.pc[t := Asking(false)])
    case CallWait => s.pc[t].Idle? && s' == s.(pc := s.pc[t := Asking(true)])
    case Advance =>
      match s.pc[t]
      case Idle => false
      case Trying(arg, held) => (
        // compare_exchange(EMPTY, BUSY)
        match s.phase
        case Empty => s' == s.(phase := Busy, pc := s.pc[t := Filling(arg, held)])
        case Busy => s' == s.(pc := s.pc[t := Watching(arg, held)])
        case Ready => s' == Log(s, SetErr(arg, held)).(pc := s.pc[t := Idle]))
      case Watching(arg, held) =>
        s' == if s.phase.Busy? then s else s.(pc := s.pc[t := Trying(arg, held)])
      case Filling(arg, held) =>
        s' == s.(slot := Some(held), writes := s.writes + 1, pc := s.pc[t := Publishing(arg)])
      case Publishing(arg) =>
        s' == Log(s, SetOk(arg)).(phase := Ready, pc := s.pc[t := Idle])
      case Asking(blocking) =>
        if s.phase.Ready? then s' == s.(pc := s.pc[t := Reading(blocking)])
        else if blocking then s' == s
        else s' == Log(s, GotNone(blocking)).(pc := s.pc[t := Idle])
      case Reading(blocking) =>
        s.slot.Some? && s' == Log(s, Yielded(blocking, s.slot.value)).(pc := s.pc[t := Idle])
  }

  // ----- the invariant -----

  predicate Writer<T>(s: State<T>, t: nat) {
    t in s.pc && (s.pc[t].Filling? || s.pc[t].Publishing?)
  }

  /** The BUSY phase belongs to exactly one writer, and the slot follows the phase. */
  ghost predicate PhaseRight<T(!new)>(s: State<T>) {
    && (forall t, u :: Writer(s, t) && Writer(s, u) ==> t == u)
    && (s.phase.Busy? <==> exists t :: Writer(s, t))
    && (s.phase.Empty? ==> s.slot.None?)
    && (s.phase.Ready? ==> s.slot.Some?)
    && s.writes == (if s.slot.Some? then 1 else 0)
  }

  ghost predicate LocalsRight<T(!new)>(s: State<T>) {
    && (forall t :: t in s.pc && (s.pc[t].Trying? || s.pc[t].Watching? || s.pc[t].Filling?) ==>
          s.pc[t].held == s.pc[t].arg)
    && (forall t :: t in s.pc && s.pc[t].Filling? ==> s.slot.None?)
    && (forall t :: t in s.pc && s.pc[t].Publishing? ==> s.slot == Some(s.pc[t].arg))
    && (forall t :: t in s.pc && s.pc[t].Reading? ==> s.phase.Ready?)
  }

  /** A call that returned at `i` shows that the cell was ready by then. */
  predicate ShowsReady<T>(e: Event<T>) {
    !e.GotNone?
  }

  /**
   * What the returned calls may say: the first to show readiness is the one success, nobody else succeeds,
   * losers get back what they passed, readers get the winner's value, no `wait` comes back empty, and
   * readiness is never taken back.
   */
  ghost predicate HistoryRight<T(!new)>(s: State<T>) {
    && (s.phase.Ready? <==> exists i :: 0 <= i < |s.events| && ShowsReady(s.events[i]))
    && (forall i :: 0 <= i < |s.events| ==> EventRight(s, i))
  }

  ghost predicate EventRight<T>(s: State<T>, i: int)
    requires 0 <= i < |s.events|
  {
    match s.events[i]
    case SetOk(arg) => s.slot == Some(arg) && forall j :: 0 <= j < i ==> s.events[j].GotNone?
    case SetErr(arg, back) => back == arg && s.slot.Some? && SetBefore(s, i)
    case GotNone(waited) => !waited && forall j :: 0 <= j < i ==> s.events[j].GotNone?
    case Yielded(_, value) => s.slot == Some(value) && SetBefore(s, i)
  }

  ghost predicate SetBefore<T>(s: State<T>, i: int)
    requires i <= |s.events|
  {
    exists j :: 0 <= j < i && s.events[j].SetOk?
  }

  ghost predicate Good<T(!new)>(s: State<T>) {
    PhaseRight(s) && LocalsRight(s) && HistoryRight(s)
  }

  lemma NextWriter<T(!new)>(s: State<T>, t: nat, act: Action<T>, s': State<T>)
    requires t in s.pc && Good(s) && Next(s, t, act, s')
    ensures forall u, v :: Writer(s', u) && Writer(s', v) ==> u == v
    ensures s'.phase.Busy? <==> exists u :: Writer(s', u)
  {
    assert forall u :: u != t ==> (Writer(s', u) <==> Writer(s, u));
    assert Writer(s, t) ==> s.phase.Busy?;
    forall u | Writer(s, u) ensures s.phase.Busy? {}
    if s'.phase.Busy? && !Writer(s', t) {
      var u :| Writer(s, u);
      assert Writer(s', u);
    }
  }

  lemma NextPhase<T(!new)>(s: State<T>, t: nat, act: Action<T>, s': State<T>)
    requires t in s.pc && Good(s) && Next(s, t, act, s')
    ensures PhaseRight(s') && LocalsRight(s')
    ensures s.slot.Some? ==> s'.slot == s.slot
    ensures s.phase.Ready? ==> s'.phase.Ready?
  {
    NextWriter(s, t, act, s');
    assert Writer(s, t) ==> s.phase.Busy?;
    forall u | u in s'.pc && s'.pc[u].Filling? ensures s'.slot.None? {
      assert Writer(s', u) && (u != t ==> Writer(s, u));
    }
  }

  /** The events only grow. */
  lemma NextEvents<T(!new)>(s: State<T>, t: nat, act: Action<T>, s': State<T>)
    requires t in s.pc && Next(s, t, act, s')
    ensures s'.events == s.events || exists e :: s'.events == s.events + [e]
  {
  }

  /** An event that was right stays right: the slot keeps its value and the past does not change. */
  lemma EventStays<T(!new)>(s: State<T>, s': State<T>, i: int)
    requires 0 <= i < |s.events| && EventRight(s, i)
    requires |s.events| <= |s'.events| && forall j :: 0 <= j < |s.events| ==> s'.events[j] == s.events[j]
    requires s.slot.Some? ==> s'.slot == s.slot
    ensures EventRight(s', i)
  {
  }

  /** Readiness is always the work of a success that has returned. */
  lemma ReadyHasSetOk<T(!new)>(s: State<T>)
    requires Good(s) && s.phase.Ready?
    ensures SetBefore(s, |s.events|)
  {
    var i :| 0 <= i < |s.events| && ShowsReady(s.events[i]);
    assert EventRight(s, i);
  }

  lemma NewEventRight<T(!new)>(s: State<T>, t: nat, act: Action<T>, s': State<T>, e: Event<T>)
    requires t in s.pc && Good(s) && Next(s, t, act, s') && s'.events == s.events + [e]
    ensures EventRight(s', |s.events|)
    ensures ShowsReady(e) <==> s'.phase.Ready?
  {
    var n := |s.events|;
    forall j | 0 <= j < n ensures s'.events[j] == s.events[j] {}
    if s.phase.Ready? {
      ReadyHasSetOk(s);
      var j :| 0 <= j < n && s.events[j].SetOk?;
      assert s'.events[j].SetOk?;
    }
    if Writer(s, t) { assert s.phase.Busy?; }
    assert s'.events[n] == e;
  }

  lemma NextHistory<T(!new)>(s: State<T>, t: nat, act: Action<T>, s': State<T>)
    requires t in s.pc && Good(s) && Next(s, t, act, s')
    ensures HistoryRight(s')
  {
    NextPhase(s, t, act, s');
    NextEvents(s, t, act, s');
    forall i | 0 <= i < |s.events| ensures EventRight(s', i) && s'.events[i] == s.events[i] {
      assert EventRight(s, i);
      EventStays(s, s', i);
    }
    if s'.events != s.events {
      var e :| s'.events == s.events + [e];
      NewEventRight(s, t, act, s', e);
      assert s'.events[|s.events|] == e;
    } else if s'.phase.Ready? != s.phase.Ready? {
      assert false;
    }
  }

  lemma NextGood<T(!new)>(s: State<T>, t: nat, act: Action<T>, s': State<T>)
    requires t in s.pc && Good(s) && Next(s, t, act, s')
    ensures Good(s')
  {
    NextPhase(s, t, act, s');
    NextHistory(s, t, act, s');
  }

  // ----- every interleaving -----

  ghost predicate Initial<T(!new)>(s: State<T>) {
    s.phase.Empty? && s.slot.None? && s.writes == 0 && s.events == [] && forall t :: t in s.pc ==> s.pc[t].Idle?
  }

  ghost predicate AnyStep<T(!new)>(s: State<T>, s': State<T>) {
    exists t, act :: t in s.pc && Next(s, t, act, s')
  }

  ghost predicate IsTrace<T(!new)>(trace: seq<State<T>>) {
    trace != [] && Initial(trace[0]) && forall i :: 0 <= i < |trace| - 1 ==> AnyStep(trace[i], trace[i + 1])
  }

  lemma {:induction false} TraceGood<T(!new)>(trace: seq<State<T>>, i: nat)
    requires IsTrace(trace) && i < |trace|
    ensures Good(trace[i])
  {
    if i > 0 {
      TraceGood(trace, i - 1);
      assert AnyStep(trace[i - 1], trace[i - 1 + 1]);
      var t, act :| t in trace[i - 1].pc && Next(trace[i - 1], t, act, trace[i]);
      NextGood(trace[i - 1], t, act, trace[i]);
    } else {
      assert forall t :: !Writer(trace[0], t);
    }
  }

  /**
   * In every interleaving: the slot is written at most once and at most one `set` succeeds; a losing `set`
   * returns its own value; `get` and `wait` yield only the winner's value; and after any call has shown the
   * cell ready, no `get` finds it empty.
   */
  lemma SetOnce<T(!new)>(trace: seq<State<T>>, n: nat, i: nat, j: nat)
    requires IsTrace(trace) && n < |trace| && i < j < |trace[n].events|
    ensures trace[n].writes <= 1
    ensures !(trace[n].events[i].SetOk? && trace[n].events[j].SetOk?)
    ensures trace[n].events[j].SetErr? ==> trace[n].events[j].back == trace[n].events[j].arg
    ensures trace[n].events[i].SetOk? && trace[n].events[j].Yielded? ==>
              trace[n].events[j].value == trace[n].events[i].arg
    ensures trace[n].events[i].GotNone? || !trace[n].events[j].GotNone?
  {
    TraceGood(trace, n);
    assert EventRight(trace[n], i) && EventRight(trace[n], j);
  }

  /** Anything read or refused was preceded by the success that stored the value. */
  lemma ReadersFollowWinner<T(!new)>(trace: seq<State<T>>, n: nat, i: nat)
    requires IsTrace(trace) && n < |trace| && i < |trace[n].events|
    requires trace[n].events[i].Yielded? || trace[n].events[i].SetErr?
    ensures exists w :: 0 <= w < i && trace[n].events[w].SetOk?
              && (trace[n].events[i].Yielded? ==> trace[n].events[i].value == trace[n].events[w].arg)
  {
    TraceGood(trace, n);
    assert EventRight(trace[n], i);
    var w :| 0 <= w < i && trace[n].events[w].SetOk?;
    assert EventRight(trace[n], w);
  }

  /** No thread ever reads the slot before it is written, and nobody writes it after. */
  lemma ReadsAreInitialised<T(!new)>(trace: seq<State<T>>, n: nat, t: nat)
    requires IsTrace(trace) && n < |trace| && t in trace[n].pc
    ensures trace[n].pc[t].Reading? ==> trace[n].slot.Some?
    ensures trace[n].pc[t].Filling? ==> trace[n].slot.None? && forall u :: Writer(trace[n], u) ==> u == t
  {
    TraceGood(trace, n);
    assert trace[n].pc[t].Filling? ==> Writer(trace[n], t);
  }

  // ----- what a call returns -----

  /** The call of thread `t` returns in the step from `trace[i]` to the next state. */
  ghost predicate Returns<T(!new)>(trace: seq<State<T>>, i: nat, t: nat) {
    i + 1 < |trace| && t in trace[i].pc && !trace[i].pc[t].Idle? && t in trace[i + 1].pc && trace[i + 1].pc[t].Idle?
  }

  predicate InRead<T>(pc: Pc<T>, waits: bool) {
    pc == Asking(waits) || pc == Reading(waits)
  }

  /** A call begins as what it is: `wait` as a waiting read, `get` as one that does not wait, `set` with its value. */
  lemma CallsBegin<T(!new)>(s: State<T>, t: nat, arg: T, s': State<T>)
    requires t in s.pc
    ensures Next(s, t, CallWait, s') ==> InRead(s'.pc[t], true)
    ensures Next(s, t, CallGet, s') ==> InRead(s'.pc[t], false)
    ensures Next(s, t, CallSet(arg), s') ==>
              !InRead(s'.pc[t], true) && !InRead(s'.pc[t], false) && !s'.pc[t].Idle? && s'.pc[t].arg == arg
  {
  }

  /** Only a thread's own step moves it. */
  lemma OwnStep<T(!new)>(trace: seq<State<T>>, i: nat, t: nat)
    requires IsTrace(trace) && i + 1 < |trace| && t in trace[i].pc && t in trace[i + 1].pc
    requires trace[i + 1].pc[t] != trace[i].pc[t] && !trace[i].pc[t].Idle?
    ensures Next(trace[i], t, Advance, trace[i + 1])
  {
    assert AnyStep(trace[i], trace[i + 1]);
    var u, act :| u in trace[i].pc && Next(trace[i], u, act, trace[i + 1]);
    assert u == t;
  }

  /** `wait` comes back with a value only: the one that an earlier success stored. */
  lemma WaitYields<T(!new)>(trace: seq<State<T>>, i: nat, t: nat)
    requires IsTrace(trace) && Returns(trace, i, t) && InRead(trace[i].pc[t], true)
    ensures exists v, w ::
              && trace[i + 1].events == trace[i].events + [Yielded(true, v)]
              && trace[i + 1].slot == Some(v)
              && 0 <= w < |trace[i].events| && trace[i].events[w] == SetOk(v)
  {
    OwnStep(trace, i, t);
    TraceGood(trace, i);
    assert trace[i].phase.Ready?;
    WinnerStored(trace[i]);
  }

  lemma WinnerStored<T(!new)>(s: State<T>)
    requires Good(s) && s.phase.Ready?
    ensures s.slot.Some? && exists w :: 0 <= w < |s.events| && s.events[w] == SetOk(s.slot.value)
  {
    ReadyHasSetOk(s);
    var w :| 0 <= w < |s.events| && s.events[w].SetOk?;
    assert EventRight(s, w);
  }

  /** `get` comes back with none or with the winner's value; a value means that an earlier success stored it. */
  lemma GetAnswers<T(!new)>(trace: seq<State<T>>, i: nat, t: nat)
    requires IsTrace(trace) && Returns(trace, i, t) && InRead(trace[i].pc[t], false)
    ensures if trace[i].phase.Ready?
            then exists v, w ::
                   && trace[i + 1].events == trace[i].events + [Yielded(false, v)]
                   && 0 <= w < |trace[i].events| && trace[i].events[w] == SetOk(v)
            else trace[i + 1].events == trace[i].events + [GotNone(false)]
  {
    OwnStep(trace, i, t);
    TraceGood(trace, i);
    if trace[i].phase.Ready? { WinnerStored(trace[i]); }
  }

  /** A `get` that looks at the state returns none in that step exactly when the cell is not ready. */
  lemma GetNoneExactly<T(!new)>(trace: seq<State<T>>, i: nat, t: nat)
    requires IsTrace(trace) && i + 1 < |trace| && t in trace[i].pc && t in trace[i + 1].pc
    requires trace[i].pc[t] == Asking(false) && trace[i + 1].pc[t] != Asking(false)
    ensures trace[i + 1].pc[t].Idle? && trace[i + 1].events == trace[i].events + [GotNone(false)]
       <==> !trace[i].phase.Ready?
    ensures trace[i].phase.Ready? ==> trace[i + 1].pc[t] == Reading(false)
  {
    OwnStep(trace, i, t);
  }

  /** `set` comes back either as the one success, with its value in the slot, or after it, with its own value. */
  lemma SetAnswers<T(!new)>(trace: seq<State<T>>, i: nat, t: nat)
    requires IsTrace(trace) && Returns(trace, i, t)
    requires !InRead(trace[i].pc[t], true) && !InRead(trace[i].pc[t], false)
    ensures var arg := trace[i].pc[t].arg;
            if trace[i].phase.Ready?
            then trace[i + 1].events == trace[i].events + [SetErr(arg, arg)] && trace[i + 1].slot == trace[i].slot
            else trace[i + 1].events == trace[i].events + [SetOk(arg)] && trace[i + 1].slot == Some(arg)
  {
    OwnStep(trace, i, t);
    TraceGood(trace, i);
    assert trace[i].pc[t].Publishing? ==> Writer(trace[i], t);
  }

  /** A thread in a call can always go on, but for a `set` behind a writer and a `wait` on a cell not ready. */
  lemma NobodyStuck<T(!new)>(trace: seq<State<T>>, i: nat, t: nat)
    requires IsTrace(trace) && i < |trace| && t in trace[i].pc && !trace[i].pc[t].Idle?
    requires trace[i].pc[t].Watching? ==> !trace[i].phase.Busy?
    requires trace[i].pc[t] == Asking(true) ==> trace[i].phase.Ready?
    ensures exists s' :: Next(trace[i], t, Advance, s') && t in s'.pc && s'.pc[t] != trace[i].pc[t]
  {
    TraceGood(trace, i);
    var s := trace[i];
    match s.pc[t]
    case Trying(arg, held) =>
      match s.phase {
        case Empty => assert Next(s, t, Advance, s.(phase := Busy, pc := s.pc[t := Filling(arg, held)]));
        case Busy => assert Next(s, t, Advance, s.(pc := s.pc[t := Watching(arg, held)]));
        case Ready => assert Next(s, t, Advance, Log(s, SetErr(arg, held)).(pc := s.pc[t := Idle]));
      }
    case Watching(arg, held) => assert Next(s, t, Advance, s.(pc := s.pc[t := Trying(arg, held)]));
    case Filling(arg, held) =>
      assert Next(s, t, Advance, s.(slot := Some(held), writes := s.writes + 1, pc := s.pc[t := Publishing(arg)]));
    case Publishing(arg) =>
      assert Next(s, t, Advance, Log(s, SetOk(arg)).(phase := Ready, pc := s.pc[t := Idle]));
    case Asking(blocking) =>
      if s.phase.Ready? {
        assert Next(s, t, Advance, s.(pc := s.pc[t := Reading(blocking)]));
      } else {
        assert Next(s, t, Advance, Log(s, GotNone(blocking)).(pc := s.pc[t := Idle]));
      }
    case Reading(blocking) =>
      assert Next(s, t, Advance, Log(s, Yielded(blocking, s.slot.value)).(pc := s.pc[t := Idle]));
    case Idle =>
  }
}
