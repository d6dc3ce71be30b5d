/** The publish pause among its editors: what `ready` proves about the edits already sent. */
module PausedEditors {
  import opened Basics
  import P = PublishPause

  // Every editor has one ordered channel each way. The start and end of a pause go down, edits and one
  // acknowledgement per pause come up; no frame names the pause it belongs to.

  type Socket = P.Socket

  datatype Up = Update(id: nat) | PublishReady
  datatype Down = PauseStart | PauseEnd

  // Free edits; Freezing saw the start and may still emit edits until it is quiescent; Frozen has acknowledged.
  datatype Client = Free | Freezing | Frozen

  datatype Link = Link(down: seq<Down>, client: Client, up: seq<Up>)

  // `lost` keeps, for each socket that closed, the frames the server had not yet handled.
  datatype System = System(machine: P.Machine, links: map<Socket, Link>, lost: map<Socket, seq<Up>>)

  datatype Event =
    | Connect(s: Socket)
    | Close(s: Socket)
    | Edit(s: Socket, id: nat)
    | Quiesce(s: Socket)
    | ClientReads(s: Socket)
    | ServerReads(s: Socket)
    | Begin
    | TimerFires
    | GiveUp
    | Finish

  predicate Enabled(y: System, e: Event) {
    match e
    case Connect(s) => s !in y.links && s !in y.lost
    case Close(s) => s in y.links
    case Edit(s, _) => s in y.links && !y.links[s].client.Frozen?
    case Quiesce(s) => s in y.links && y.links[s].client.Freezing?
    case ClientReads(s) => s in y.links && y.links[s].down != []
    case ServerReads(s) => s in y.links && y.links[s].up != []
    case Begin => y.machine.pause.Idle?
    case TimerFires => y.machine.pause.Collecting?
    case GiveUp => y.machine.pause.Collecting?
    case Finish => !y.machine.pause.Idle?
  }

  function Told(links: map<Socket, Link>, d: Down): map<Socket, Link> {
    map s | s in links :: links[s].(down := links[s].down + [d])
  }

  function Sends(l: Link, u: Up): Link { l.(up := l.up + [u]) }

  function Reads(l: Link): Link
    requires l.down != []
  {
    l.(down := l.down[1..],
       client := if l.down[0].PauseEnd? then Free else if l.client.Free? then Freezing else l.client)
  }

  function Next(y: System, e: Event): System
    requires Enabled(y, e) && P.Sound(y.machine)
  {
    match e
    case Connect(s) =>
      // A socket that joins during a pause starts frozen and is told when it ends.
      y.(links := y.links[s := Link([], if y.machine.pause.Idle? then Free else Frozen, [])])
    case Close(s) => System(P.Step(y.machine, P.Leave(s)), y.links - {s}, y.lost[s := y.links[s].up])
    case Edit(s, id) => y.(links := y.links[s := Sends(y.links[s], Update(id))])
    case Quiesce(s) => y.(links := y.links[s := Sends(y.links[s], PublishReady).(client := Frozen)])
    case ClientReads(s) => y.(links := y.links[s := Reads(y.links[s])])
    case ServerReads(s) =>
      var l := y.links[s];
      y.(machine := if l.up[0].PublishReady? then P.Step(y.machine, P.Ready(s)) else y.machine,
         links := y.links[s := l.(up := l.up[1..])])
    case Begin => y.(machine := P.Step(y.machine, P.Start(y.links.Keys)), links := Told(y.links, PauseStart))
    case TimerFires => y.(machine := P.Step(y.machine, P.Expire))
    case GiveUp => y.(machine := P.Step(y.machine, P.Abort))
    case Finish => y.(machine := P.Step(y.machine, P.End), links := Told(y.links, PauseEnd))
  }

  // Every frame still to be read turns the client the other way, and the last one leaves it as the server has it.
  predicate InStep(down: seq<Down>, paused: bool, wanted: bool)
    decreases |down|
  {
    if down == [] then paused == wanted
    else down[0].PauseStart? == !paused && InStep(down[1..], !paused, wanted)
  }

  predicate Inv(y: System) {
    && P.Sound(y.machine)
    && y.links.Keys !! y.lost.Keys
    && forall s | s in y.links :: InStep(y.links[s].down, !y.links[s].client.Free?, !y.machine.pause.Idle?)
  }

  const Empty := System(P.Initial, map[], map[])

  lemma {:induction false} InStepAppend(down: seq<Down>, paused: bool, d: Down)
    requires InStep(down, paused, d.PauseEnd?)
    ensures InStep(down + [d], paused, d.PauseStart?)
    decreases |down|
  {
    if down != [] {
      InStepAppend(down[1..], !paused, d);
      assert (down + [d])[1..] == down[1..] + [d];
    }
  }

  lemma {:induction false} NextKeepsInv(y: System, e: Event)
    requires Inv(y) && Enabled(y, e)
    ensures Inv(Next(y, e))
  {
    match e {
      case Close(s) => P.StepIsSound(y.machine, P.Leave(s));
      case ServerReads(s) => P.StepIsSound(y.machine, P.Ready(s));
      case Begin =>
        P.StepIsSound(y.machine, P.Start(y.links.Keys));
        forall s | s in y.links ensures InStep(y.links[s].down + [PauseStart], !y.links[s].client.Free?, true) {
          InStepAppend(y.links[s].down, !y.links[s].client.Free?, PauseStart);
        }
      case TimerFires => P.StepIsSound(y.machine, P.Expire);
      case GiveUp => P.StepIsSound(y.machine, P.Abort);
      case Finish =>
        P.StepIsSound(y.machine, P.End);
        forall s | s in y.links ensures InStep(y.links[s].down + [PauseEnd], !y.links[s].client.Free?, false) {
          InStepAppend(y.links[s].down, !y.links[s].client.Free?, PauseEnd);
        }
      case _ =>
    }
  }

  predicate IsRun(y: System, es: seq<Event>)
    decreases |es|
  {
    Inv(y) && (es == [] || (Enabled(y, es[0]) && (NextKeepsInv(y, es[0]); IsRun(Next(y, es[0]), es[1..]))))
  }

  function After(y: System, es: seq<Event>): (z: System)
    requires IsRun(y, es)
    ensures Inv(z)
    decreases |es|
  {
    if es == [] then y else After(Next(y, es[0]), es[1..])
  }

  /** The editor still owes, or has in flight, an acknowledgement of a pause that is over. */
  predicate Stale(l: Link) {
    PublishReady in l.up || l.client.Freezing? || PauseStart in l.down
  }

  /** Nothing the editor sent before its acknowledgement is still waiting to be handled. */
  predicate NothingUnhandled(y: System, s: Socket) {
    && (s in y.links ==> y.links[s].up == [])
    && (s in y.lost ==> y.lost[s] == [])
  }

  // Where a required editor stands in a pause that began with nothing stale.
  predicate Waiting(l: Link) {
    || (l.client.Free? && l.down == [PauseStart] && PublishReady !in l.up)
    || (l.client.Frozen? && l.down == [PauseEnd, PauseStart] && PublishReady !in l.up)
    || (l.client.Freezing? && l.down == [] && PublishReady !in l.up)
    || (l.client.Frozen? && l.down == [] && l.up != []
        && l.up[|l.up| - 1].PublishReady? && PublishReady !in l.up[..|l.up| - 1])
  }

  predicate Done(l: Link) { l.client.Frozen? && l.down == [] && l.up == [] }

  /** One editor in a pause it entered with nothing stale, until the next pause begins. */
  predicate Orderly(y: System, s: Socket) {
    && Inv(y)
    && (!y.machine.pause.Idle? ==>
          if s !in y.machine.pause.required then s in y.links ==> Done(y.links[s])
          else if s in y.machine.pause.acked then
            && s in y.links.Keys + y.lost.Keys
            && (s in y.links ==> Done(y.links[s]))
            && (s in y.lost ==> y.lost[s] == [])
          else y.machine.pause.Collecting? ==> s in y.links && Waiting(y.links[s]))
  }

  lemma {:induction false} QuietDown(down: seq<Down>, paused: bool)
    requires InStep(down, paused, false) && PauseStart !in down
    ensures down == if paused then [PauseEnd] else []
    decreases |down|
  {
    if paused {
      QuietDown(down[1..], false);
    }
  }

  lemma {:induction false} BeginIsOrderly(y: System, s: Socket)
    requires Inv(y) && y.machine.pause.Idle? && s in y.links && !Stale(y.links[s])
    ensures Orderly(Next(y, Begin), s)
  {
    NextKeepsInv(y, Begin);
    QuietDown(y.links[s].down, !y.links[s].client.Free?);
  }

  lemma {:induction false} WaitingStays(l: Link, id: nat)
    requires Waiting(l)
    ensures !l.client.Frozen? ==> Waiting(Sends(l, Update(id)))
    ensures l.client.Freezing? ==> Waiting(Sends(l, PublishReady).(client := Frozen))
    ensures l.down != [] ==> Waiting(Reads(l))
    ensures l.up != [] && l.up[0].Update? ==> Waiting(l.(up := l.up[1..]))
    ensures l.up != [] && l.up[0].PublishReady? ==> Done(l.(up := l.up[1..]))
  {
    assert Sends(l, PublishReady).up[..|l.up|] == l.up;
    if l.up != [] {
      if |l.up| == 1 {
        assert l.up[1..] == [];
      } else {
        assert l.up[1..][..|l.up| - 2] == l.up[1..|l.up| - 1];
        assert l.up[0] == l.up[..|l.up| - 1][0];
      }
    }
  }

  lemma {:induction false} StaysOrderly(y: System, e: Event, s: Socket)
    requires Orderly(y, s) && Enabled(y, e) && !e.Begin?
    ensures Orderly(Next(y, e), s)
  {
    NextKeepsInv(y, e);
    if s in y.links && Waiting(y.links[s]) {
      WaitingStays(y.links[s], if e.Edit? then e.id else 0);
    }
  }

  lemma {:induction false} OrderlyRun(y: System, es: seq<Event>, s: Socket)
    requires Orderly(y, s) && IsRun(y, es) && Begin !in es
    ensures Orderly(After(y, es), s)
    decreases |es|
  {
    if es != [] {
      assert es[0] in es;
      StaysOrderly(y, es[0], s);
      OrderlyRun(Next(y, es[0]), es[1..], s);
    }
  }

  // `es` leads from `y` to `z` with no further pause beginning.
  ghost predicate Leads(y: System, es: seq<Event>, z: System) {
    Begin !in es && IsRun(y, es) && After(y, es) == z
  }

  // The pause `y` begins ends up in `z` with no other pause beginning in between.
  ghost predicate InPauseOf(y: System, z: System)
    requires Inv(y) && y.machine.pause.Idle?
  {
    exists es :: Leads(Next(y, Begin), es, z)
  }

  /** When the server counts an editor as ready, it has handled all that editor sent, in every run of the pause,
    * exactly when the editor entered the pause with no acknowledgement of an earlier one outstanding. */
  lemma {:induction false} AckIsProofIffNothingStale(y: System, s: Socket)
    requires Inv(y) && y.machine.pause.Idle? && s in y.links
    ensures (forall z | InPauseOf(y, z) && !z.machine.pause.Idle? && s in z.machine.pause.acked :: NothingUnhandled(z, s))
       <==> !Stale(y.links[s])
  {
    if Stale(y.links[s]) {
      var es, z := StaleAckMisleads(y, s);
      assert InPauseOf(y, z);
      assert !NothingUnhandled(z, s);
    } else {
      BeginIsOrderly(y, s);
      forall z | InPauseOf(y, z) && !z.machine.pause.Idle? && s in z.machine.pause.acked
        ensures NothingUnhandled(z, s)
      {
        var es :| Leads(Next(y, Begin), es, z);
        OrderlyRun(Next(y, Begin), es, s);
        assert z.machine.pause.acked <= z.machine.pause.required;
      }
    }
  }

  /** `ready` is safe to publish on: everything any required editor sent has been handled, whether or not it is
    * still connected. True of every run of a pause exactly when no editor entered it with a stale acknowledgement. */
  lemma {:induction false} ReadyIsSafeIffNothingStale(y: System)
    requires Inv(y) && y.machine.pause.Idle?
    ensures (forall z | InPauseOf(y, z) && SettledReady(z), s | s in z.machine.pause.required :: NothingUnhandled(z, s))
       <==> (forall s | s in y.links :: !Stale(y.links[s]))
  {
    if s :| s in y.links && Stale(y.links[s]) {
      var es, z := StaleAckMisleads(y, s);
      var es', z' := EveryoneElseAcks(z, s);
      LeadsOn(Next(y, Begin), es, z, es', z');
      assert InPauseOf(y, z') && SettledReady(z');
      assert !NothingUnhandled(z', s);
    } else {
      forall z, s | InPauseOf(y, z) && SettledReady(z) && s in z.machine.pause.required ensures NothingUnhandled(z, s) {
        var es :| Leads(Next(y, Begin), es, z);
        NextKeepsInv(y, Begin);
        RequiredIsFixed(Next(y, Begin), es);
        BeginIsOrderly(y, s);
        OrderlyRun(Next(y, Begin), es, s);
      }
    }
  }

  ghost predicate SettledReady(z: System) {
    z.machine.pause.Settled? && P.IsReady(z.machine.pause.outcome)
  }

  // The set of editors asked does not change until the pause ends.
  lemma {:induction false} RequiredIsFixed(y: System, es: seq<Event>)
    requires IsRun(y, es) && Begin !in es
    ensures var z := After(y, es);
      !z.machine.pause.Idle? ==> !y.machine.pause.Idle? && z.machine.pause.required == y.machine.pause.required
    decreases |es|
  {
    if es != [] {
      assert es[0] in es;
      RequiredIsFixed(Next(y, es[0]), es[1..]);
    }
  }

  lemma {:induction false} LeadsOn(x: System, es: seq<Event>, y: System, fs: seq<Event>, z: System)
    requires Leads(x, es, y) && Leads(y, fs, z)
    ensures Leads(x, es + fs, z)
    decreases |es|
  {
    if es == [] {
      assert es + fs == fs;
    } else {
      assert es[0] in es;
      NextKeepsInv(x, es[0]);
      LeadsOn(Next(x, es[0]), es[1..], y, fs, z);
      assert (es + fs)[1..] == es[1..] + fs;
    }
  }

  lemma {:induction false} OneStepLeads(y: System, e: Event)
    requires Inv(y) && Enabled(y, e) && !e.Begin?
    ensures Leads(y, [e], Next(y, e))
  {
    NextKeepsInv(y, e);
    assert IsRun(Next(y, e), [e][1..]);
  }

  // The editor reads all it was told; the last frame was the start of the pause.
  lemma {:induction false} ReadsAll(y: System, s: Socket) returns (es: seq<Event>, z: System)
    requires Inv(y) && s in y.links && y.links[s].down != [] && !y.machine.pause.Idle?
    ensures Leads(y, es, z) && z == y.(links := y.links[s := Link([], Freezing, y.links[s].up)])
    decreases |y.links[s].down|
  {
    OneStepLeads(y, ClientReads(s));
    var y' := Next(y, ClientReads(s));
    es, z := [ClientReads(s)], y';
    if y'.links[s].down != [] {
      var fs;
      fs, z := ReadsAll(y', s);
      LeadsOn(y, es, y', fs, z);
      es := es + fs;
    }
  }

  // An editor that owes an old acknowledgement sends it while the new start is still on its way.
  lemma {:induction false} OldAckIsSent(y: System, s: Socket) returns (es: seq<Event>, z: System)
    requires Inv(y) && s in y.links && y.links[s].down != [] && !y.machine.pause.Idle?
    requires var l := y.links[s]; PublishReady in l.up || l.client.Freezing? || PauseStart in l.down[..|l.down| - 1]
    ensures Leads(y, es, z) && s in z.links && z == y.(links := y.links[s := z.links[s]])
    ensures PublishReady in z.links[s].up && z.links[s].down != []
    decreases |y.links[s].down|
  {
    var l := y.links[s];
    if PublishReady in l.up {
      es, z := [], y;
    } else if l.client.Freezing? {
      OneStepLeads(y, Quiesce(s));
      es, z := [Quiesce(s)], Next(y, Quiesce(s));
      assert z.links[s].up[|l.up|] == PublishReady;
    } else {
      var y' := Next(y, ClientReads(s));
      OneStepLeads(y, ClientReads(s));
      assert y'.links[s].down[..|l.down| - 2] == l.down[..|l.down| - 1][1..];
      es, z := OldAckIsSent(y', s);
      LeadsOn(y, [ClientReads(s)], y', es, z);
      es := [ClientReads(s)] + es;
    }
  }

  // The server handles the editor's frames up to its first acknowledgement; the rest stays in the channel.
  lemma {:induction false} AckIsHandled(y: System, s: Socket) returns (es: seq<Event>, z: System)
    requires Inv(y) && s in y.links && PublishReady in y.links[s].up
    requires y.machine.pause.Collecting? && s in y.machine.pause.required - y.machine.pause.acked
    ensures Leads(y, es, z) && s in z.links && z == y.(machine := P.Step(y.machine, P.Ready(s)), links := y.links[s := z.links[s]])
    ensures y.links[s].up[|y.links[s].up| - 1].Update? ==> z.links[s].up != []
    decreases |y.links[s].up|
  {
    var l := y.links[s];
    OneStepLeads(y, ServerReads(s));
    var y' := Next(y, ServerReads(s));
    es, z := [ServerReads(s)], y';
    if l.up[0].Update? {
      assert l.up[1..][|l.up| - 2] == l.up[|l.up| - 1];
      var fs;
      fs, z := AckIsHandled(y', s);
      LeadsOn(y, es, y', fs, z);
      es := es + fs;
    }
  }

  // The run that misleads: the old acknowledgement counts for the new pause while a later edit waits behind it.
  lemma {:induction false} StaleAckMisleads(y: System, s: Socket) returns (es: seq<Event>, z: System)
    requires Inv(y) && y.machine.pause.Idle? && s in y.links && Stale(y.links[s])
    ensures Leads(Next(y, Begin), es, z) && s in z.links && z.links[s].up != []
    ensures z.machine == P.Step(Next(y, Begin).machine, P.Ready(s)) && z.links.Keys == y.links.Keys
    ensures forall t | t in z.links && t != s :: z.links[t].down != []
  {
    NextKeepsInv(y, Begin);
    var y0 := Next(y, Begin);
    assert y0.links[s].down[..|y.links[s].down|] == y.links[s].down;
    assert y0.machine.pause.Collecting? by { assert s in y.links.Keys; }
    var e1, y1 := OldAckIsSent(y0, s);
    var e2;
    e2, z := EditBehindTheAck(y1, s);
    LeadsOn(y0, e1, y1, e2, z);
    es := e1 + e2;
  }

  // With an old acknowledgement on its way the editor reads on, edits, and the server takes the acknowledgement.
  lemma {:induction false} EditBehindTheAck(y: System, s: Socket) returns (es: seq<Event>, z: System)
    requires Inv(y) && s in y.links && PublishReady in y.links[s].up && y.links[s].down != []
    requires y.machine.pause.Collecting? && s in y.machine.pause.required - y.machine.pause.acked
    ensures Leads(y, es, z) && s in z.links && z.links[s].up != []
    ensures z == y.(machine := P.Step(y.machine, P.Ready(s)), links := y.links[s := z.links[s]])
  {
    var e1, y1 := ReadsAll(y, s);
    OneStepLeads(y1, Edit(s, 0));
    var y2 := Next(y1, Edit(s, 0));
    assert y2.links[s].up[..|y.links[s].up|] == y.links[s].up;
    var e3;
    e3, z := AckIsHandled(y2, s);
    LeadsOn(y1, [Edit(s, 0)], y2, e3, z);
    es := e1 + ([Edit(s, 0)] + e3);
    LeadsOn(y, e1, y1, [Edit(s, 0)] + e3, z);
  }

  // Every other required editor reads its channel and acknowledges.
  lemma {:induction false} EveryoneElseAcks(y: System, s: Socket) returns (es: seq<Event>, z: System)
    requires Inv(y) && s in y.links && !y.machine.pause.Idle? && s in y.machine.pause.acked
    requires y.machine.pause.Collecting? || SettledReady(y)
    requires y.machine.pause.required <= y.links.Keys
    requires forall t | t in y.machine.pause.required - y.machine.pause.acked :: y.links[t].down != []
    ensures Leads(y, es, z) && SettledReady(z) && s in z.machine.pause.required
    ensures s in z.links && z.links[s] == y.links[s]
    decreases |y.machine.pause.required - y.machine.pause.acked|
  {
    if y.machine.pause.Settled? {
      es, z := [], y;
    } else {
      assert y.machine.pause.acked < y.machine.pause.required;
      assert exists t :: t in y.machine.pause.required && t !in y.machine.pause.acked;
      var t :| t in y.machine.pause.required && t !in y.machine.pause.acked;
      var e1, y1 := ReadsAll(y, t);
      OneStepLeads(y1, Quiesce(t));
      var y2 := Next(y1, Quiesce(t));
      assert y2.links[t].up[|y1.links[t].up|] == PublishReady;
      var e3, y3 := AckIsHandled(y2, t);
      assert y3.machine.pause.required - y3.machine.pause.acked < y.machine.pause.required - y.machine.pause.acked;
      SmallerSet(y3.machine.pause.required - y3.machine.pause.acked, y.machine.pause.required - y.machine.pause.acked);
      var e4;
      e4, z := EveryoneElseAcks(y3, s);
      LeadsOn(y2, e3, y3, e4, z);
      LeadsOn(y1, [Quiesce(t)], y2, e3 + e4, z);
      es := e1 + ([Quiesce(t)] + (e3 + e4));
      LeadsOn(y, e1, y1, [Quiesce(t)] + (e3 + e4), z);
    }
  }

  lemma {:induction false} SmallerSet<T>(a: set<T>, b: set<T>)
    requires a < b
    ensures |a| < |b|
  {
    assert b == a + (b - a);
    assert |b| == |a| + |b - a|;
  }

  /** No acknowledgement is owed for a pause that is over. */
  ghost predicate Calm(y: System) {
    && Inv(y)
    && (y.machine.pause.Idle? ==> forall s | s in y.links :: !Stale(y.links[s]))
    && (!y.machine.pause.Idle? ==> forall s | s in y.links.Keys + y.machine.pause.required :: Orderly(y, s))
  }

  lemma {:induction false} StaysCalm(y: System, e: Event)
    requires Calm(y) && Enabled(y, e)
    requires e.Finish? ==> SettledReady(y)
    ensures Calm(Next(y, e))
  {
    NextKeepsInv(y, e);
    var z := Next(y, e);
    if z.machine.pause.Idle? {
      forall s | s in z.links ensures !Stale(z.links[s]) {
        assert s in y.links ==> (if y.machine.pause.Idle? then !Stale(y.links[s]) else Orderly(y, s));
      }
    } else if e.Begin? {
      forall s | s in y.links ensures Orderly(z, s) { BeginIsOrderly(y, s); }
    } else {
      forall s | s in z.links.Keys + z.machine.pause.required ensures Orderly(z, s) {
        assert s in y.links.Keys + y.machine.pause.required ==> Orderly(y, s);
        if s in y.links.Keys + y.machine.pause.required { StaysOrderly(y, e, s); }
      }
    }
  }

  // Every pause in the run that ended had settled `ready`.
  ghost predicate EveryPauseCompletes(y: System, es: seq<Event>)
    requires IsRun(y, es)
    decreases |es|
  {
    es != [] ==> (es[0].Finish? ==> SettledReady(y)) && EveryPauseCompletes(Next(y, es[0]), es[1..])
  }

  /** From the first editor on, while no pause has been given up, every `ready` is safe to publish on. */
  lemma {:induction false} ReadyIsSafeWhileEveryPauseCompletes(y: System, es: seq<Event>)
    requires Calm(y) && IsRun(y, es) && EveryPauseCompletes(y, es)
    ensures Calm(Empty) && Calm(After(y, es))
    ensures SettledReady(After(y, es)) ==>
      forall s | s in After(y, es).machine.pause.required :: NothingUnhandled(After(y, es), s)
    decreases |es|
  {
    if es != [] {
      StaysCalm(y, es[0]);
      ReadyIsSafeWhileEveryPauseCompletes(Next(y, es[0]), es[1..]);
    } else if SettledReady(y) {
      forall s | s in y.machine.pause.required ensures NothingUnhandled(y, s) {
        assert Orderly(y, s);
      }
    }
  }
}
