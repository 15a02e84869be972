/** The xApp and IMI together: the xApp's messages travel over a FIFO channel that keeps message
    boundaries, IMI overwrites its command with each of them, forwards the command to the base
    station once per turn, and collects what the command asks for. */
module ControlLoop {
  import opened Wrappers
  import opened Prb
  import opened XApp
  import KpmWindow

  /** `outbox` holds messages of the current turn that the xApp has yet to send; `sent` is everything
      the xApp ever decided to send, `delivered` of which IMI has received; `forwarded` is what the
      base station has been told. */
  datatype System = System(
    x: State, running: bool, outbox: seq<Message>,
    channel: seq<Message>, command: Message, window: KpmWindow.Window,
    sent: seq<Message>, delivered: nat, forwarded: seq<Message>)

  /** The start over an empty namespace. */
  const INIT := System(START, true, [], [], CollectKpms, KpmWindow.EMPTY, [], 0, [])

  /** A start of the whole system, in which the namespace may hold entries of an earlier IMI. */
  ghost predicate Starts(s0: System) {
    s0 == INIT.(window := s0.window) && s0.window.k == 0
  }

  /** A start over a namespace with entries at these positions. */
  ghost predicate StartsOver(s0: System, left: set<nat>) {
    Starts(s0) && KpmWindow.RepresentsHistory(s0.window, KpmWindow.History(left, []))
  }

  datatype Step =
    | XKpms(kpm: KpmInput)
    | XIqs(iq: IqInput)
    | Send
    | Deliver
    | ImiTurn(report: KpmWindow.Report)

  predicate Enabled(s: System, step: Step) {
    match step
    case XKpms(_) => s.running && s.outbox == [] && s.x.mode == Kpms
    case XIqs(_) => s.running && s.outbox == [] && s.x.mode == Iqs
    case Send => s.outbox != []
    case Deliver => s.channel != []
    case ImiTurn(_) => true
  }

  function TurnOf(s: State, step: Step): Outcome
    requires step.XKpms? || step.XIqs?
  {
    match step
    case XKpms(x) => KpmTurn(s, x)
    case XIqs(x) => IqTurn(s, x)
  }

  function Next(s: System, step: Step): System
    requires Enabled(s, step)
  {
    match step
    case XKpms(_) => Decided(s, TurnOf(s.x, step))
    case XIqs(_) => Decided(s, TurnOf(s.x, step))
    case Send => s.(channel := s.channel + [s.outbox[0]], outbox := s.outbox[1..])
    case Deliver => s.(command := s.channel[0], channel := s.channel[1..], delivered := s.delivered + 1)
    case ImiTurn(report) =>
      var (forwarded, window) := Served(s.command, s.forwarded, s.window, report);
      s.(forwarded := forwarded, window := window)
  }

  /** One turn of IMI's loop: the command goes to the base station, and KPMs are collected if it asks
      for them. */
  function Served(command: Message, forwarded: seq<Message>, window: KpmWindow.Window, report: KpmWindow.Report)
    : (seq<Message>, KpmWindow.Window)
  {
    (forwarded + [command], if DispatchesToKpms(Wire(command)) then KpmWindow.Turn(window, report) else window)
  }

  class Imi {
    var command: seq<int>
    var forwarded: seq<seq<int>>
    const collector: KpmWindow.Collector

    constructor ()
      ensures command == Wire(CollectKpms) && forwarded == []
      ensures fresh(collector) && collector.View() == KpmWindow.EMPTY
    {
      command, forwarded := [0x6B], [];
      collector := new KpmWindow.Collector();
    }

    /** handle_xAppClient: at most 8 bytes are received, and replace the command. */
    method Receive(message: seq<int>)
      modifies `command
      ensures command == if |message| <= 8 then message else message[..8]
      ensures forall m: Message :: message == Wire(m) ==> command == Wire(m)
    {
      command := if |message| <= 8 then message else message[..8];
    }

    /** One turn of handle_clients. */
    method Serve(report: KpmWindow.Report, ghost m: Message)
      requires command == Wire(m)
      modifies `forwarded, collector
      ensures forwarded == old(forwarded) + [command]
      ensures collector.View() == Served(m, [], old(collector.View()), report).1
    {
      forwarded := forwarded + [command];
      if command == [0x6B] || |command| == 8 {
        collector.Collect(report);
      } else if command == [0x69] {
        // I/Q samples are received; the KPM store is not touched
      }
    }
  }

  function Decided(s: System, o: Outcome): System {
    s.(x := o.state, running := o.running, outbox := o.sent, sent := s.sent + o.sent)
  }

  /** A run: steps in any order; one that is not enabled does nothing. */
  function Run(s: System, steps: seq<Step>): System {
    if steps == [] then s
    else
      var before := Run(s, steps[..|steps| - 1]);
      var step := steps[|steps| - 1];
      if Enabled(before, step) then Next(before, step) else before
  }

  /** Who can move when: a running xApp that has sent all its messages takes its next turn, in the mode
      it is in, without waiting for IMI; the channel waits for nobody; IMI always turns. */
  lemma NobodyWaits(s: System, kpm: KpmInput, iq: IqInput, report: KpmWindow.Report)
    ensures Enabled(s, XKpms(kpm)) <==> s.running && s.outbox == [] && s.x.mode == Kpms
    ensures Enabled(s, XIqs(iq)) <==> s.running && s.outbox == [] && s.x.mode == Iqs
    ensures Enabled(s, Send) <==> |s.outbox| > 0
    ensures Enabled(s, Deliver) <==> |s.channel| > 0
    ensures Enabled(s, ImiTurn(report))
  {
  }

  /** What each step does, and that it leaves everything else alone: only the xApp changes its state and
      adds messages; sending and delivering move one message; only IMI tells the base station and
      collects, and it collects a report exactly unless its command asks for I/Q data. */
  lemma StepEffects(s: System, step: Step)
    requires Enabled(s, step)
    ensures var s' := Next(s, step);
            match step
            case XKpms(x) =>
              var o := KpmTurn(s.x, x);
              s' == System(o.state, o.running, o.sent, s.channel, s.command, s.window, s.sent + o.sent, s.delivered,
                           s.forwarded)
            case XIqs(x) =>
              var o := IqTurn(s.x, x);
              s' == System(o.state, o.running, o.sent, s.channel, s.command, s.window, s.sent + o.sent, s.delivered,
                           s.forwarded)
            case Send =>
              && s.outbox == [s.outbox[0]] + s'.outbox && s'.channel == s.channel + [s.outbox[0]]
              && s' == s.(outbox := s'.outbox, channel := s'.channel)
            case Deliver =>
              && s.channel == [s'.command] + s'.channel
              && s' == s.(channel := s'.channel, command := s'.command, delivered := s.delivered + 1)
            case ImiTurn(report) =>
              && s'.window == (if s.command == CollectIq then s.window else KpmWindow.Turn(s.window, report))
              && s' == s.(forwarded := s.forwarded + [s.command], window := s'.window)
  {
    DispatchFollowsMessage(s.command);
  }

  /** The newest message on its way to IMI, or the command it holds. */
  function Newest(s: System): Message {
    if s.outbox != [] then s.outbox[|s.outbox| - 1]
    else if s.channel != [] then s.channel[|s.channel| - 1]
    else s.command
  }

  /** No message is lost, duplicated or reordered between the xApp and IMI's command. */
  ghost predicate Fifo(s: System) {
    && s.delivered <= |s.sent|
    && s.channel + s.outbox == s.sent[s.delivered..]
    && s.command == if s.delivered == 0 then CollectKpms else s.sent[s.delivered - 1]
  }

  ghost predicate Inv(s: System) {
    && XApp.Inv(s.x)
    && Fifo(s)
    && (s.running ==> Collects(Newest(s)) == s.x.mode)
    && s.window.k < 100
  }

  lemma NextKeepsInv(s: System, step: Step)
    requires Inv(s) && Enabled(s, step)
    ensures Inv(Next(s, step))
  {
    match step
    case XKpms(x) =>
      KpmTurnKeepsInv(s.x, x);
      DecidedKeepsInv(s, step);
    case XIqs(x) =>
      IqTurnKeepsInv(s.x, x);
      DecidedKeepsInv(s, step);
    case Send => SendKeepsInv(s);
    case Deliver => DeliverKeepsInv(s);
    case ImiTurn(_) =>
  }

  lemma SendKeepsInv(s: System)
    requires Inv(s) && s.outbox != []
    ensures Inv(Next(s, Send))
  {
    assert s.channel + [s.outbox[0]] + s.outbox[1..] == s.channel + s.outbox;
  }

  lemma DeliverKeepsInv(s: System)
    requires Inv(s) && s.channel != []
    ensures Inv(Next(s, Deliver))
  {
    assert s.sent[s.delivered..] == [s.channel[0]] + (s.channel[1..] + s.outbox);
    assert s.sent[s.delivered] == s.sent[s.delivered..][0];
    assert s.sent[s.delivered..][1..] == s.sent[s.delivered + 1..];
  }

  lemma DecidedKeepsInv(s: System, step: Step)
    requires Inv(s) && Enabled(s, step) && (step.XKpms? || step.XIqs?)
    requires XApp.Inv(TurnOf(s.x, step).state)
    ensures Inv(Next(s, step))
  {
    var o := TurnOf(s.x, step);
    if step.XKpms? {
      KpmTurnAnnouncesMode(s.x, step.kpm);
    } else {
      IqTurnAnnouncesMode(s.x, step.iq);
    }
    assert s.channel + s.outbox == s.channel;
    assert (s.sent + o.sent)[s.delivered..] == s.sent[s.delivered..] + o.sent;
  }

  /** In every state of every run the two sides agree: the newest message under way asks for what the
      xApp's mode needs; once everything is delivered, IMI collects exactly that; and while the xApp
      examines I/Q data, its last metrics were over the threshold. */
  lemma {:induction false} ModesAgree(s0: System, steps: seq<Step>)
    requires Starts(s0)
    ensures var s := Run(s0, steps);
            && Inv(s)
            && (s.running ==> Collects(Newest(s)) == s.x.mode)
            && (s.running && s.outbox == [] && s.channel == [] ==>
                  (DispatchesToKpms(Wire(s.command)) <==> s.x.mode == Kpms) &&
                  (DispatchesToIq(Wire(s.command)) <==> s.x.mode == Iqs))
            && (s.x.mode == Iqs ==> s.x.metrics.Some? && |s.x.metrics.value| == 10
                                    && OverThreshold(s.x.metrics.value) == Truth(true))
  {
    if steps == [] {
    } else {
      var before := Run(s0, steps[..|steps| - 1]);
      ModesAgree(s0, steps[..|steps| - 1]);
      if Enabled(before, steps[|steps| - 1]) {
        NextKeepsInv(before, steps[|steps| - 1]);
      }
    }
    DispatchFollowsMessage(Run(s0, steps).command);
  }

  /** From every state of every run the messages under way can all be delivered, without the xApp doing
      anything, and then IMI collects what the xApp's mode needs. */
  lemma {:induction false} Drains(s: System) returns (steps: seq<Step>)
    requires Inv(s)
    ensures forall step | step in steps :: step == Send || step == Deliver
    ensures var s' := Run(s, steps);
            && s'.outbox == [] && s'.channel == [] && s'.x == s.x && s'.sent == s.sent
            && (s.running ==> Collects(s'.command) == s.x.mode)
    decreases 2 * |s.outbox| + |s.channel|
  {
    if s.outbox == [] && s.channel == [] {
      steps := [];
    } else {
      var step := if s.outbox != [] then Send else Deliver;
      NextKeepsInv(s, step);
      var rest := Drains(Next(s, step));
      steps := [step] + rest;
      RunFirst(s, step, rest);
    }
  }

  // ----- what IMI collects -----

  /** The reports IMI collects in a run. */
  function Collected(s0: System, steps: seq<Step>): seq<KpmWindow.Report> {
    if steps == [] then []
    else
      var front, step := steps[..|steps| - 1], steps[|steps| - 1];
      if step.ImiTurn? && DispatchesToKpms(Wire(Run(s0, front).command)) then Collected(s0, front) + [step.report]
      else Collected(s0, front)
  }

  /** What a run that started over a namespace with these positions makes of the store. */
  function HistoryOf(s0: System, left: set<nat>, steps: seq<Step>): KpmWindow.History {
    KpmWindow.RecordedAll(KpmWindow.History(left, []), Collected(s0, steps))
  }

  /** In every state of every run the store holds exactly what the log and the entries left behind make
      of it, whatever the xApp does meanwhile; and from an empty namespace, as long as flushes succeed,
      the log of the entries collected since the last flush. */
  lemma WindowIsLog(s0: System, left: set<nat>, steps: seq<Step>)
    requires StartsOver(s0, left)
    ensures var s, reports := Run(s0, steps), Collected(s0, steps);
            && s.window == KpmWindow.Turns(s0.window, reports)
            && KpmWindow.RepresentsHistory(s.window, HistoryOf(s0, left, steps))
            && (left == {} && FlushesSucceed(steps) ==>
                  HistoryOf(s0, left, steps).left == {}
                  && KpmWindow.Represents(s.window, KpmWindow.LoggedAll([], reports)))
  {
    WindowIsCollected(s0, steps);
    KpmWindow.StoreRefinesHistory(s0.window, KpmWindow.History(left, []), Collected(s0, steps));
    if left == {} && FlushesSucceed(steps) {
      CollectedFlushes(s0, steps);
      KpmWindow.FlushesLeaveNothing(Collected(s0, steps));
    }
  }

  predicate FlushesSucceed(steps: seq<Step>) {
    forall step | step in steps && step.ImiTurn? :: step.report.flushes
  }

  lemma {:induction false} WindowIsCollected(s0: System, steps: seq<Step>)
    ensures Run(s0, steps).window == KpmWindow.Turns(s0.window, Collected(s0, steps))
  {
    if steps == [] {
    } else {
      var front, step := steps[..|steps| - 1], steps[|steps| - 1];
      WindowIsCollected(s0, front);
      if step.ImiTurn? {
        assert (Collected(s0, front) + [step.report])[..|Collected(s0, front)|] == Collected(s0, front);
      }
    }
  }

  lemma {:induction false} CollectedFlushes(s0: System, steps: seq<Step>)
    requires FlushesSucceed(steps)
    ensures forall r | r in Collected(s0, steps) :: r.flushes
  {
    if steps == [] {
    } else {
      var front := steps[..|steps| - 1];
      assert steps[|steps| - 1] in steps && forall x | x in front :: x in steps;
      CollectedFlushes(s0, front);
    }
  }

  /** What a KPM turn reads in one piece: keys are listed in any order, and the values of the last two
      come back in any order. */
  ghost predicate Reads(window: KpmWindow.Window, keys: seq<string>, sorted: seq<string>, read: seq<string>,
                        parse: string -> seq<Ue>, entries: seq<seq<Ue>>)
  {
    && KpmWindow.Lists(keys, window) && KpmWindow.SortedKeys(keys, sorted)
    && multiset(read) == multiset(KpmWindow.LastN(sorted, 2))
    && |entries| == |read|
    && forall i | 0 <= i < |read| :: read[i] in window.store && entries[i] == parse(window.store[read[i]])
  }

  /** The entry is what was logged under this key. */
  ghost predicate IsLogged(log: KpmWindow.Log, key: string, parse: string -> seq<Ue>, entry: seq<Ue>) {
    exists p: nat :: KpmWindow.Logs(log, p) && key == KpmWindow.Key(p) && entry == parse(log[p].value)
  }

  /** In every run, whatever fails: the entries read are what IMI has logged since its counter was last
      0, exactly when all that was left behind is covered; and then they are the two newest that were
      written.  From an empty namespace, as long as flushes succeed, that is always so. */
  lemma ReadsNewestReports(s0: System, left: set<nat>, steps: seq<Step>, keys: seq<string>, sorted: seq<string>,
                           read: seq<string>, parse: string -> seq<Ue>, entries: seq<seq<Ue>>)
    requires StartsOver(s0, left)
    requires Reads(Run(s0, steps).window, keys, sorted, read, parse, entries)
    ensures var h := HistoryOf(s0, left, steps);
            && ((forall i | 0 <= i < |read| :: IsLogged(h.log, read[i], parse, entries[i]))
                <==> KpmWindow.AllCovered(h))
            && (KpmWindow.AllCovered(h) ==>
                  multiset(read) == multiset(KpmWindow.Keys(KpmWindow.LastN(KpmWindow.Stored(h.log), 2))))
            && (left == {} && FlushesSucceed(steps) ==> KpmWindow.AllCovered(h))
  {
    WindowIsLog(s0, left, steps);
    var window, h := Run(s0, steps).window, HistoryOf(s0, left, steps);
    hide Run, HistoryOf;
    KpmWindow.ViewIsCurrent(window, h, keys, sorted);
    ReadIsCurrent(window, h, keys, sorted, read, parse, entries);
  }

  lemma ReadIsCurrent(window: KpmWindow.Window, h: KpmWindow.History, keys: seq<string>, sorted: seq<string>,
                      read: seq<string>, parse: string -> seq<Ue>, entries: seq<seq<Ue>>)
    requires KpmWindow.RepresentsHistory(window, h) && Reads(window, keys, sorted, read, parse, entries)
    ensures (forall i | 0 <= i < |read| :: IsLogged(h.log, read[i], parse, entries[i]))
            <==> (forall key | key in KpmWindow.LastN(sorted, 2) :: KpmWindow.Current(key, h.log))
  {
    hide KpmWindow.Key, KpmWindow.Lists, KpmWindow.SortedKeys, KpmWindow.LastN;
    forall i | 0 <= i < |read|
      ensures IsLogged(h.log, read[i], parse, entries[i]) <==> KpmWindow.Current(read[i], h.log)
    {
      if KpmWindow.Current(read[i], h.log) {
        var p: nat :| KpmWindow.Logs(h.log, p) && read[i] == KpmWindow.Key(p);
        assert window.store[read[i]] == h.log[p].value;
      }
    }
    forall key
      ensures key in read <==> key in KpmWindow.LastN(sorted, 2)
    {
      assert key in multiset(read) <==> key in multiset(KpmWindow.LastN(sorted, 2));
    }
  }

  /** An alarm is raised, in whatever state, only if exactly two UEs of the entries read have traffic,
      and one of these two has a block error rate of at least 5. */
  lemma AlarmNeedsBadRate(x: State, kpm: KpmInput, entries: seq<seq<Ue>>)
    requires kpm.extracted == Some(Rows(Active(entries))) && KpmTurn(x, kpm).branch == KpmAlarm
    ensures |Active(entries)| == 2 && exists ue | ue in Active(entries) :: ue.rxBler.Some? && ue.rxBler.value >= 5.0
  {
    CompleteMetrics(entries);
    var ues := Active(entries);
    assert ues[0] in ues && ues[1] in ues;
  }

  // ----- what the xApp sends -----

  /** Step n is an I/Q turn that retains an unsafe range. */
  ghost predicate RetainsAt(s0: System, steps: seq<Step>, n: nat)
    requires n < |steps|
  {
    var s := Run(s0, steps[..n]);
    steps[n].XIqs? && Enabled(s, steps[n]) && RetainsUnsafe(s.x, steps[n].iq)
  }

  /** In every run: all ranges ever sent lie in the channel or unblank, exactly when no turn has
      retained a range that failed the check. */
  lemma {:induction false} SentIsSafe(s0: System, steps: seq<Step>)
    requires Starts(s0)
    ensures (forall m | m in Run(s0, steps).sent :: Safe(m))
            <==> (forall n | 0 <= n < |steps| :: !RetainsAt(s0, steps, n))
  {
    if steps == [] {
    } else {
      var last := |steps| - 1;
      var front, step := steps[..last], steps[last];
      SentIsSafe(s0, front);
      ModesAgree(s0, front);
      forall n | 0 <= n < last
        ensures RetainsAt(s0, steps, n) <==> RetainsAt(s0, front, n)
      {
        assert front[..n] == steps[..n];
      }
      var s := Run(s0, front);
      assert Run(s0, steps) == if Enabled(s, step) then Next(s, step) else s;
      assert RetainsAt(s0, steps, last) <==> step.XIqs? && Enabled(s, step) && RetainsUnsafe(s.x, step.iq);
      hide Run, RetainsAt, RetainsUnsafe, Enabled, Inv;
      assert (forall n | 0 <= n < |steps| :: !RetainsAt(s0, steps, n)) <==>
             (forall n | 0 <= n < last :: !RetainsAt(s0, front, n)) && !RetainsAt(s0, steps, last);
      if Enabled(s, step) {
        StepIsSafe(s, step);
      }
    }
  }

  lemma StepIsSafe(s: System, step: Step)
    requires Inv(s) && Enabled(s, step)
    ensures (forall m | m in Next(s, step).sent :: Safe(m)) <==>
            (forall m | m in s.sent :: Safe(m)) && !(step.XIqs? && RetainsUnsafe(s.x, step.iq))
  {
    match step
    case XKpms(kpm) =>
      var any: IqInput :| true;
      SafeUnlessRetained(s.x, kpm, any);
      SafeConcat(s.sent, TurnOf(s.x, step).sent);
    case XIqs(iq) =>
      var any: KpmInput :| true;
      SafeUnlessRetained(s.x, any, iq);
      SafeConcat(s.sent, TurnOf(s.x, step).sent);
    case _ =>
  }

  lemma SafeConcat(a: seq<Message>, b: seq<Message>)
    ensures (forall m | m in a + b :: Safe(m)) <==> (forall m | m in a :: Safe(m)) && (forall m | m in b :: Safe(m))
  {
    assert forall m | m in a :: m in a + b;
    assert forall m | m in b :: m in a + b;
  }

  // ----- what reaches the base station -----

  /** For each turn of IMI, how many messages had been delivered before it. */
  function Heard(s0: System, steps: seq<Step>): seq<nat> {
    if steps == [] then []
    else
      var front := steps[..|steps| - 1];
      Heard(s0, front) + if steps[|steps| - 1].ImiTurn? then [Run(s0, front).delivered] else []
  }

  /** IMI's command after so many deliveries. */
  function CommandAfter(sent: seq<Message>, delivered: nat): Message
    requires delivered <= |sent|
  {
    if delivered == 0 then CollectKpms else sent[delivered - 1]
  }

  /** The base station was told what IMI held after these numbers of deliveries. */
  ghost predicate Told(s: System, heard: seq<nat>) {
    && s.delivered <= |s.sent| && |s.forwarded| == |heard|
    && (forall j | 0 <= j < |heard| :: heard[j] <= s.delivered && s.forwarded[j] == CommandAfter(s.sent, heard[j]))
    && (forall i, j | 0 <= i < j < |heard| :: heard[i] <= heard[j])
  }

  /** In every run the base station is told exactly what IMI holds at its turns, in the order of
      sending: message i (counted from 0) as often as i+1 occurs in Heard. */
  lemma {:induction false} ForwardedIsHeard(s0: System, steps: seq<Step>)
    requires Starts(s0)
    ensures Told(Run(s0, steps), Heard(s0, steps))
  {
    if steps == [] {
    } else {
      var front, step := steps[..|steps| - 1], steps[|steps| - 1];
      ForwardedIsHeard(s0, front);
      ModesAgree(s0, front);
      ModesAgree(s0, steps);
      if Enabled(Run(s0, front), step) {
        StepTells(Run(s0, front), step, Heard(s0, front));
      }
    }
  }

  lemma StepTells(s: System, step: Step, heard: seq<nat>)
    requires Enabled(s, step) && Fifo(s) && Fifo(Next(s, step)) && Told(s, heard)
    ensures Told(Next(s, step), heard + if step.ImiTurn? then [s.delivered] else [])
  {
    SentGrows(s, step);
    hide Next;
  }

  lemma SentGrows(s: System, step: Step)
    requires Enabled(s, step)
    ensures s.sent <= Next(s, step).sent && s.delivered <= Next(s, step).delivered
    ensures step.ImiTurn? ==> Next(s, step).forwarded == s.forwarded + [s.command] && Next(s, step).sent == s.sent
    ensures !step.ImiTurn? ==> Next(s, step).forwarded == s.forwarded
  {
  }

  /** Step n is a turn of IMI after so many deliveries. */
  ghost predicate TurnAt(s0: System, steps: seq<Step>, n: nat, count: nat)
    requires n < |steps|
  {
    steps[n].ImiTurn? && Run(s0, steps[..n]).delivered == count
  }

  lemma {:induction false} HeardAt(s0: System, steps: seq<Step>, count: nat)
    ensures count in Heard(s0, steps) <==> exists n :: 0 <= n < |steps| && TurnAt(s0, steps, n, count)
  {
    if steps == [] {
    } else {
      var last := |steps| - 1;
      var front, step := steps[..last], steps[last];
      HeardAt(s0, front, count);
      forall n | 0 <= n < last
        ensures TurnAt(s0, steps, n, count) <==> TurnAt(s0, front, n, count)
      {
        assert front[..n] == steps[..n];
      }
      assert TurnAt(s0, steps, last, count) <==> step.ImiTurn? && Run(s0, front).delivered == count;
      assert Heard(s0, steps) == Heard(s0, front) + if step.ImiTurn? then [Run(s0, front).delivered] else [];
      hide Run, Heard, TurnAt;
    }
  }

  /** What was heard stays heard, and later turns hear later messages. */
  lemma {:induction false} HeardGrows(s0: System, steps: seq<Step>, more: seq<Step>)
    ensures Heard(s0, steps) <= Heard(s0, steps + more)
    ensures Run(s0, steps).delivered <= Run(s0, steps + more).delivered
    ensures forall j | |Heard(s0, steps)| <= j < |Heard(s0, steps + more)| ::
              Run(s0, steps).delivered <= Heard(s0, steps + more)[j]
  {
    if more == [] {
      assert steps + more == steps;
    } else {
      var front, step := more[..|more| - 1], more[|more| - 1];
      HeardGrows(s0, steps, front);
      assert (steps + more)[..|steps + more| - 1] == steps + front;
      if Enabled(Run(s0, steps + front), step) {
        SentGrows(Run(s0, steps + front), step);
      }
    }
  }

  /** A message not yet overtaken can still be heard. */
  lemma {:induction false} CanBeHeard(s0: System, steps: seq<Step>, count: nat) returns (more: seq<Step>)
    requires Starts(s0) && Run(s0, steps).delivered <= count <= |Run(s0, steps).sent|
    ensures count in Heard(s0, steps + more)
    decreases 2 * |Run(s0, steps).outbox| + |Run(s0, steps).channel|
  {
    var s := Run(s0, steps);
    if s.delivered == count {
      more := [ImiTurn(KpmWindow.Report(None, true, true))];
      assert (steps + more)[..|steps|] == steps;
    } else {
      ModesAgree(s0, steps);
      assert |s.channel + s.outbox| > 0;
      var step := if s.channel != [] then Deliver else Send;
      RunOne(s0, steps, step);
      var rest := CanBeHeard(s0, steps + [step], count);
      more := [step] + rest;
      assert steps + [step] + rest == steps + more;
    }
  }

  /** In every run: a message is lost to the base station, however the run goes on, exactly when the
      next message has been delivered and no turn of IMI came in between. */
  lemma LostForGood(s0: System, steps: seq<Step>, i: nat)
    requires Starts(s0) && i < |Run(s0, steps).sent|
    ensures (forall more :: i + 1 !in Heard(s0, steps + more))
            <==> Run(s0, steps).delivered > i + 1 && i + 1 !in Heard(s0, steps)
  {
    var none: seq<Step> := [];
    assert steps + none == steps;
    if Run(s0, steps).delivered <= i + 1 {
      var more := CanBeHeard(s0, steps, i + 1);
      assert i + 1 in Heard(s0, steps + more);
    } else if i + 1 !in Heard(s0, steps) {
      forall more
        ensures i + 1 !in Heard(s0, steps + more)
      {
        HeardGrows(s0, steps, more);
      }
    } else {
      assert i + 1 in Heard(s0, steps + none);
    }
  }

  lemma {:induction false} RunConcat(s: System, a: seq<Step>, b: seq<Step>)
    ensures Run(s, a + b) == Run(Run(s, a), b)
    decreases |b|
  {
    if b == [] {
      assert a + b == a;
    } else {
      RunConcat(s, a, b[..|b| - 1]);
      assert (a + b)[..|a + b| - 1] == a + b[..|b| - 1];
    }
  }

  lemma RunOne(s: System, steps: seq<Step>, step: Step)
    requires Enabled(Run(s, steps), step)
    ensures Run(s, steps + [step]) == Next(Run(s, steps), step)
  {
    assert (steps + [step])[..|steps|] == steps;
  }

  lemma RunFirst(s: System, step: Step, rest: seq<Step>)
    requires Enabled(s, step)
    ensures Run(s, [step] + rest) == Run(Next(s, step), rest)
  {
    assert Run(s, []) == s && [step][..0] == [];
    RunConcat(s, [step], rest);
  }

  const OVER: Metrics := [Some(0.0), Some(0.0), Some(9.0), Some(0.0), Some(0.0),
                          Some(0.0), Some(0.0), Some(0.0), Some(0.0), Some(0.0)]
  const ALARM := XKpms(KpmInput(Some(OVER), Some(1), true))
  const NOTHING_SEEN := XIqs(IqInput(Some(2), true, true, Nil, 2))

  /** One block at the upper edge of the channel: it is detected, but fails the check. */
  const EDGE_SEEN := XIqs(IqInput(Some(1), true, true, Box.Box(SOI_END - PX_PER_PRB, SOI_END), 2))

  function Alarmed(): System {
    Next(Next(Next(INIT, ALARM), Send), Deliver)
  }

  lemma AlarmedIsReached()
    ensures Run(INIT, [ALARM, Send, Deliver]) == Alarmed()
    ensures Alarmed().x == State(Iqs, Some(OVER), OVER, None, (0, 0)) && Alarmed().running
    ensures Alarmed().outbox == [] && Alarmed().channel == [] && Alarmed().command == CollectIq
  {
    assert Run(INIT, []) == INIT;
    RunOne(INIT, [], ALARM);
    assert [] + [ALARM] == [ALARM];
    RunOne(INIT, [ALARM], Send);
    assert [ALARM] + [Send] == [ALARM, Send];
    RunOne(INIT, [ALARM, Send], Deliver);
    assert [ALARM, Send] + [Deliver] == [ALARM, Send, Deliver];
  }

  const OVER_AGAIN := OVER[0 := Some(1.0)]
  const SECOND_ALARM := XKpms(KpmInput(Some(OVER_AGAIN), Some(1), true))

  /** The blocks 5 to 10. */
  const RANGE_BOX := Box.Box(SOI_END - 10.0 * PX_PER_PRB, SOI_END - 5.0 * PX_PER_PRB)
  const RANGE_SEEN := XIqs(IqInput(Some(1), true, true, RANGE_BOX, 2))
  const IDLE_TURN := ImiTurn(KpmWindow.Report(None, true, true))

  lemma RangeOfBox()
    ensures GetAffectedPrbs(true, RANGE_SEEN.iq.box) == Interference(5, 10)
  {
    OffsetOfBoundary(5);
    OffsetOfBoundary(10);
  }

  /** A run in which the base station is never told to blank the blocks of a confirmed range: the
      metrics raise the next alarm, and its message is delivered right behind the range. */
  lemma RangeCanBeLost() returns (steps: seq<Step>)
    ensures var s := Run(INIT, steps);
            && s.running && s.outbox == [] && s.channel == []
            && s.sent == [CollectIq, PrbRange(5, 10), CollectIq] && s.forwarded == [CollectIq]
    ensures forall more :: 2 !in Heard(INIT, steps + more)
  {
    steps := RangeThenAlarm();
    steps := OvertakeRange(steps);
    ForwardedIsHeard(INIT, steps);
    LostForGood(INIT, steps, 1);
  }

  lemma RangeThenAlarm() returns (steps: seq<Step>)
    ensures var s := Run(INIT, steps);
            && s.running && s.channel == [PrbRange(5, 10)] && s.outbox == [CollectIq]
            && s.sent == [CollectIq, PrbRange(5, 10), CollectIq] && s.delivered == 1 && s.forwarded == []
  {
    AlarmedIsReached();
    RangeOfBox();
    var s0 := [ALARM, Send, Deliver];
    var s := Alarmed();
    RunOne(INIT, s0, RANGE_SEEN);
    RunOne(INIT, s0 + [RANGE_SEEN], Send);
    assert OVER_AGAIN[0] != OVER[0];
    RunOne(INIT, s0 + [RANGE_SEEN] + [Send], SECOND_ALARM);
    steps := s0 + [RANGE_SEEN] + [Send] + [SECOND_ALARM];
  }

  lemma OvertakeRange(steps: seq<Step>) returns (all: seq<Step>)
    requires |Run(INIT, steps).channel| == 1 && |Run(INIT, steps).outbox| == 1
    ensures var s, s' := Run(INIT, steps), Run(INIT, all);
            && s' == s.(channel := [], outbox := [], command := s.outbox[0], delivered := s.delivered + 2,
                        forwarded := s.forwarded + [s.outbox[0]], window := s'.window)
  {
    RunOne(INIT, steps, Send);
    RunOne(INIT, steps + [Send], Deliver);
    RunOne(INIT, steps + [Send] + [Deliver], Deliver);
    RunOne(INIT, steps + [Send] + [Deliver] + [Deliver], IDLE_TURN);
    all := steps + [Send] + [Deliver] + [Deliver] + [IDLE_TURN];
    hide Run;
  }

  /** A run in which the xApp sends a range that failed its own check: the range is retained after
      being stored unchecked. */
  lemma RetainedRangeCanBeUnsafe()
    ensures exists steps, m :: m in Run(INIT, steps).sent && !Safe(m)
  {
    AlarmedIsReached();
    ChannelGeometry();
    var a := Alarmed();
    var b := Next(a, EDGE_SEEN);
    assert GetAffectedPrbs(true, EDGE_SEEN.iq.box) == Interference(0, 1);
    assert b.x == State(Iqs, Some(OVER), OVER, Some(1), (0, 1)) && b.outbox == [] && b.running;
    var c := Next(b, NOTHING_SEEN);
    var s0 := [ALARM, Send, Deliver];
    RunOne(INIT, s0, EDGE_SEEN);
    RunOne(INIT, s0 + [EDGE_SEEN], NOTHING_SEEN);
    var steps := s0 + [EDGE_SEEN] + [NOTHING_SEEN];
    assert c.outbox == [PrbRange(0, 1), CollectKpms];
    assert PrbRange(0, 1) in c.outbox && c.sent == b.sent + c.outbox;
    assert PrbRange(0, 1) in Run(INIT, steps).sent && !Safe(PrbRange(0, 1));
  }
}
