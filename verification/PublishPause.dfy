/** The publish pause of one live document: freeze every editor, wait for an acknowledgement from each, publish. */
module PublishPause {
  import opened Basics

  // `Pause` is the simple machine and `DocSessionPublishPause` the class with the fields the program keeps.

  type Socket = string

  datatype Outcome = AllAcked | NoEditors | TimedOut | Disconnected

  predicate IsReady(o: Outcome) { o.AllAcked? || o.NoEditors? }

  datatype Pause =
    | Idle
    | Collecting(required: set<Socket>, acked: set<Socket>)
    | Settled(required: set<Socket>, acked: set<Socket>, outcome: Outcome)

  // The pause, the number of calls of `start` so far, and which of them were answered, with what, in order.
  datatype Machine = Machine(pause: Pause, starts: nat, answers: seq<Answer>)
  datatype Answer = Answer(start: nat, outcome: Outcome)

  datatype Op = Start(editors: set<Socket>) | Ready(s: Socket) | Leave(s: Socket) | Expire | Abort | End

  const Initial := Machine(Idle, 0, [])

  function Settle(m: Machine, acked: set<Socket>, o: Outcome): Machine
    requires m.pause.Collecting? && m.starts > 0
  {
    m.(pause := Settled(m.pause.required, acked, o), answers := m.answers + [Answer(m.starts - 1, o)])
  }

  // Starting twice without an `End` between is an error of the caller; the machine does not move.
  function Step(m: Machine, op: Op): Machine
    requires m.pause.Collecting? ==> m.starts > 0
  {
    match op
    case Start(editors) =>
      if !m.pause.Idle? then m
      else if editors == {} then
        Machine(Settled({}, {}, NoEditors), m.starts + 1, m.answers + [Answer(m.starts, NoEditors)])
      else Machine(Collecting(editors, {}), m.starts + 1, m.answers)
    case Ready(s) =>
      if !m.pause.Collecting? || s !in m.pause.required then m
      else if m.pause.required <= m.pause.acked + {s} then Settle(m, m.pause.acked + {s}, AllAcked)
      else m.(pause := Collecting(m.pause.required, m.pause.acked + {s}))
    case Leave(s) =>
      if m.pause.Collecting? && s in m.pause.required - m.pause.acked then Settle(m, m.pause.acked, Disconnected) else m
    case Expire => if m.pause.Collecting? then Settle(m, m.pause.acked, TimedOut) else m
    case Abort => if m.pause.Collecting? then Settle(m, m.pause.acked, Disconnected) else m
    case End => m.(pause := Idle)
  }

  /** What holds of the machine between calls. */
  predicate Sound(m: Machine) {
    && (forall i :: 0 <= i < |m.answers| ==> m.answers[i].start < m.starts)
    && (forall i, j :: 0 <= i < j < |m.answers| ==> m.answers[i].start < m.answers[j].start)
    && (match m.pause
        case Idle => true
        case Collecting(required, acked) =>
          m.starts > 0 && acked < required
          && forall i :: 0 <= i < |m.answers| ==> m.answers[i].start < m.starts - 1
        case Settled(required, acked, o) =>
          && acked <= required
          && (IsReady(o) <==> required == acked)
          && (o.NoEditors? <==> required == {})
          && m.starts > 0 && m.answers != [] && m.answers[|m.answers| - 1] == Answer(m.starts - 1, o))
  }

  lemma {:induction false} StepIsSound(m: Machine, op: Op)
    requires Sound(m)
    ensures Sound(Step(m, op))
  {
    var n := Step(m, op);
    if op.Ready? && n != m && n.pause.Settled? {
      assert m.pause.acked + {op.s} == m.pause.required;
    }
  }

  function Run(m: Machine, ops: seq<Op>): Machine
    requires Sound(m)
    decreases |ops|
  {
    if ops == [] then m
    else
      StepIsSound(m, ops[0]);
      Run(Step(m, ops[0]), ops[1..])
  }

  /** Every call of `start` is answered at most once, over any sequence of calls, and answers come in call order. */
  lemma {:induction false} AnsweredAtMostOnce(m: Machine, ops: seq<Op>)
    requires Sound(m)
    ensures Sound(Run(m, ops)) && m.answers <= Run(m, ops).answers
    ensures forall i, j :: 0 <= i < j < |Run(m, ops).answers| ==> Run(m, ops).answers[i].start != Run(m, ops).answers[j].start
    decreases |ops|
  {
    if ops != [] {
      StepIsSound(m, ops[0]);
      AnsweredAtMostOnce(Step(m, ops[0]), ops[1..]);
    }
  }

  /** A settled pause stays as it is until `End`, whatever else is called. */
  lemma {:induction false} OnlyEndMovesASettledPause(m: Machine, ops: seq<Op>)
    requires Sound(m) && m.pause.Settled?
    requires forall i :: 0 <= i < |ops| ==> !ops[i].End?
    ensures Run(m, ops) == m
    decreases |ops|
  {
    if ops != [] {
      assert !ops[0].End?;
      OnlyEndMovesASettledPause(m, ops[1..]);
    }
  }

  /** A call of `start` whose pause is ended before it settles is never answered, whatever is called afterwards. */
  lemma {:induction false} EndedEarlyIsNeverAnswered(m: Machine, ops: seq<Op>)
    requires Sound(m) && m.pause.Collecting?
    ensures Sound(Step(m, End))
    ensures forall i :: 0 <= i < |Run(Step(m, End), ops).answers|
              ==> Run(Step(m, End), ops).answers[i].start != m.starts - 1
  {
    StepIsSound(m, End);
    LateAnswersAreForLateStarts(Step(m, End), ops);
  }

  // From an idle pause, only calls of `start` still to come are answered.
  lemma {:induction false} LateAnswersAreForLateStarts(m: Machine, ops: seq<Op>)
    requires Sound(m)
    ensures m.starts <= Run(m, ops).starts && m.answers <= Run(m, ops).answers
    ensures forall i :: |m.answers| <= i < |Run(m, ops).answers|
              ==> Run(m, ops).answers[i].start >= if m.pause.Collecting? then m.starts - 1 else m.starts
    decreases |ops|
  {
    if ops != [] {
      StepIsSound(m, ops[0]);
      LateAnswersAreForLateStarts(Step(m, ops[0]), ops[1..]);
    }
  }

  datatype Phase = PhaseIdle | PhasePausing | PhaseReady | PhaseAborted

  class DocSessionPublishPause {
    var state: Phase
    var requiredSockets: set<Socket>
    var readySockets: set<Socket>
    var timerArmed: bool
    var waiter: Option<nat>       // the promise still to resolve, by the number of the call that made it
    var settled: bool
    var starts: nat               // numbers the promises
    ghost var abs: Machine

    /** The fields are one state of the simple machine, and a waiter and a timer exist exactly while collecting. */
    ghost predicate Valid() reads this {
      && Sound(abs) && starts == abs.starts
      && (abs.pause.Idle? <==> state == PhaseIdle)
      && (abs.pause.Collecting? <==> state == PhasePausing)
      && (abs.pause.Settled? ==> settled && state == if IsReady(abs.pause.outcome) then PhaseReady else PhaseAborted)
      && (!abs.pause.Idle? ==> abs.pause.required == requiredSockets && abs.pause.acked == readySockets)
      && (abs.pause.Idle? ==> requiredSockets == {} && readySockets == {})
      && (abs.pause.Collecting? <==> waiter == Some(abs.starts - 1))
      && (!abs.pause.Collecting? ==> waiter == None)
      && (abs.pause.Collecting? ==> !settled)
      && (timerArmed <==> abs.pause.Collecting?)
    }

    constructor ()
      ensures Valid() && abs == Initial
    {
      state := PhaseIdle;
      requiredSockets, readySockets, timerArmed, waiter, settled, starts := {}, {}, false, None, false, 0;
      abs := Initial;
    }

    /** `None` is the error of starting a pause that is not idle; otherwise the number of this call. */
    method Begin(editors: set<Socket>) returns (promise: Option<nat>)
      requires Valid()
      modifies this
      ensures Valid() && abs == Step(old(abs), Start(editors))
      ensures promise == if old(state) == PhaseIdle then Some(old(abs.starts)) else None
    {
      if state != PhaseIdle { return None; }
      requiredSockets, readySockets, settled, state := editors, {}, false, PhasePausing;
      waiter := Some(starts);
      promise := waiter;
      starts := starts + 1;
      if |requiredSockets| == 0 {
        assert editors == {};
        abs := Machine(Collecting(editors, {}), abs.starts + 1, abs.answers);
        SettleWith(NoEditors, PhaseReady);
      } else {
        timerArmed := true;
        abs := Step(abs, Start(editors));
      }
    }

    method MarkReady(s: Socket)
      requires Valid()
      modifies this
      ensures Valid() && abs == Step(old(abs), Ready(s))
    {
      if state != PhasePausing || s !in requiredSockets { return; }
      readySockets := readySockets + {s};
      var all := AllRequiredReady();
      if all {
        assert readySockets == requiredSockets;
        abs := abs.(pause := Collecting(requiredSockets, readySockets));
        SettleWith(AllAcked, PhaseReady);
      } else {
        abs := abs.(pause := Collecting(requiredSockets, readySockets));
      }
    }

    method HandleSocketDisconnect(s: Socket)
      requires Valid()
      modifies this
      ensures Valid() && abs == Step(old(abs), Leave(s))
    {
      if state != PhasePausing || s !in requiredSockets || s in readySockets { return; }
      SettleWith(Disconnected, PhaseAborted);
    }

    method GiveUp()
      requires Valid()
      modifies this
      ensures Valid() && abs == Step(old(abs), Abort)
    {
      if state != PhasePausing { return; }
      SettleWith(Disconnected, PhaseAborted);
    }

    /** The timer fires; it cannot once the pause has settled or ended, because both disarm it. */
    method TimerFires()
      requires Valid() && timerArmed
      modifies this
      ensures Valid() && abs == Step(old(abs), Expire)
    {
      SettleWith(TimedOut, PhaseAborted);
    }

    method Finish()
      requires Valid()
      modifies this
      ensures Valid() && abs == Step(old(abs), End)
    {
      timerArmed, requiredSockets, readySockets, waiter, settled, state := false, {}, {}, None, false, PhaseIdle;
      abs := Step(abs, End);
    }

    method AllRequiredReady() returns (all: bool)
      ensures all <==> requiredSockets <= readySockets
    {
      var left := requiredSockets;
      while left != {}
        invariant left <= requiredSockets && requiredSockets - left <= readySockets
      {
        var s :| s in left;
        if s !in readySockets { return false; }
        left := left - {s};
      }
      return true;
    }

    // The waiter is taken before it is called, so no second call of `settle` can answer it again.
    method SettleWith(o: Outcome, next: Phase)
      requires !settled && abs.pause.Collecting? && starts == abs.starts > 0 && waiter == Some(starts - 1)
      requires abs.pause.required == requiredSockets && abs.pause.acked == readySockets
      requires next == if IsReady(o) then PhaseReady else PhaseAborted
      requires Sound(Settle(abs, readySockets, o))
      modifies this
      ensures Valid() && abs == Settle(old(abs), old(readySockets), o)
      ensures requiredSockets == old(requiredSockets) && readySockets == old(readySockets)
    {
      if settled { return; }
      settled := true;
      timerArmed := false;
      state := next;
      var resolve := waiter;
      waiter := None;
      if resolve.Some? {
        abs := abs.(pause := Settled(requiredSockets, readySockets, o), answers := abs.answers + [Answer(resolve.value, o)]);
      }
    }
  }
}
