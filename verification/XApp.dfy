/** The radar xApp: a machine of two modes that decides what IMI is to collect and which resource
    blocks the base station is to blank. */
module XApp {
  import opened Wrappers
  import opened Prb

  datatype Mode = Kpms | Iqs

  /** b'k', b'i', and two 32-bit integers. */
  datatype Message = CollectKpms | CollectIq | PrbRange(lo: int, hi: int)

  function Int32(x: int): seq<int> {
    [x % 256, x / 256 % 256, x / 65536 % 256, x / 16777216 % 256]
  }

  function Wire(m: Message): seq<int> {
    match m
    case CollectKpms => [0x6B]
    case CollectIq => [0x69]
    case PrbRange(lo, hi) => Int32(lo) + Int32(hi)
  }

  predicate IsInt32(x: int) {
    -0x8000_0000 <= x < 0x8000_0000
  }

  /** A message whose numbers fit into 32 bits; packing any other raises an exception. */
  predicate Packable(m: Message) {
    m.PrbRange? ==> IsInt32(m.lo) && IsInt32(m.hi)
  }

  lemma Int32IsOneToOne(x: int, y: int)
    requires IsInt32(x) && IsInt32(y) && Int32(x) == Int32(y)
    ensures x == y
  {
    Digits(x);
    Digits(y);
    assert forall i | 0 <= i < 4 :: Int32(x)[i] == Int32(y)[i];
  }

  lemma Digits(x: int)
    requires IsInt32(x)
    ensures x % 0x1_0000_0000
            == Int32(x)[0] + 0x100 * Int32(x)[1] + 0x1_0000 * Int32(x)[2] + 0x100_0000 * Int32(x)[3]
    ensures x == if x >= 0 then x % 0x1_0000_0000 else x % 0x1_0000_0000 - 0x1_0000_0000
    ensures x >= 0 <==> x % 0x1_0000_0000 < 0x8000_0000
  {
    assert x / 65536 == x / 256 / 256;
    assert x / 16777216 == x / 65536 / 256;
  }

  /** What is on the wire: the letters k and i, or two 32-bit numbers, the lower block first, each with
      its least significant byte first and negative ones in two's complement. */
  lemma WireBytes(m: Message)
    requires Packable(m)
    ensures m.CollectKpms? ==> Wire(m) == ['k' as int]
    ensures m.CollectIq? ==> Wire(m) == ['i' as int]
    ensures m.PrbRange? ==>
              var b := Wire(m);
              && |b| == 8 && (forall i | 0 <= i < 8 :: 0 <= b[i] <= 255)
              && m.lo + (if m.lo < 0 then 0x1_0000_0000 else 0)
                 == b[0] + 0x100 * b[1] + 0x1_0000 * b[2] + 0x100_0000 * b[3]
              && m.hi + (if m.hi < 0 then 0x1_0000_0000 else 0)
                 == b[4] + 0x100 * b[5] + 0x1_0000 * b[6] + 0x100_0000 * b[7]
  {
    if m.PrbRange? {
      Digits(m.lo);
      Digits(m.hi);
    }
  }

  /** The bytes on the wire tell the messages apart. */
  lemma WireIsOneToOne(m: Message, m': Message)
    requires Packable(m) && Packable(m')
    ensures Wire(m) == Wire(m') <==> m == m'
  {
    if Wire(m) == Wire(m') && m.PrbRange? {
      assert Wire(m)[..4] == Int32(m.lo) && Wire(m)[4..] == Int32(m.hi);
      assert |Wire(m')| == 8;
      assert Wire(m')[..4] == Int32(m'.lo) && Wire(m')[4..] == Int32(m'.hi);
      Int32IsOneToOne(m.lo, m'.lo);
      Int32IsOneToOne(m.hi, m'.hi);
    }
  }

  /** Metric values as they come out of JSON: a number, or null. */
  type Metrics = seq<Option<real>>

  // ----- from stored entries to metrics -----

  /** The metrics of one UE that the xApp looks at. */
  datatype Ue = Ue(puschSinr: Option<real>, rxBitrate: Option<real>, rxBler: Option<real>, ulMcs: Option<real>,
                   ulBuffer: Option<real>)

  /** A UE without traffic is skipped. */
  predicate Idle(ue: Ue) {
    ue.rxBitrate == Some(0.0) && ue.rxBler == Some(0.0) && ue.ulBuffer == Some(0.0)
  }

  function Row(ue: Ue): Metrics {
    [ue.puschSinr, ue.rxBitrate, ue.rxBler, ue.ulMcs, ue.ulBuffer]
  }

  /** The UEs with traffic of all entries, in order. */
  function Active(entries: seq<seq<Ue>>): seq<Ue> {
    if entries == [] then [] else Active(entries[..|entries| - 1]) + ActiveOf(entries[|entries| - 1])
  }

  function ActiveOf(ues: seq<Ue>): seq<Ue> {
    if ues == [] then []
    else ActiveOf(ues[..|ues| - 1]) + if Idle(ues[|ues| - 1]) then [] else [ues[|ues| - 1]]
  }

  function Rows(ues: seq<Ue>): Metrics {
    if ues == [] then [] else Rows(ues[..|ues| - 1]) + Row(ues[|ues| - 1])
  }

  lemma {:induction false} RowsConcat(a: seq<Ue>, b: seq<Ue>)
    ensures Rows(a + b) == Rows(a) + Rows(b)
  {
    if b == [] {
      assert a + b == a;
    } else {
      RowsConcat(a, b[..|b| - 1]);
      assert (a + b)[..|a + b| - 1] == a + b[..|b| - 1];
    }
  }

  /** All UEs of all entries, in order. */
  function All(entries: seq<seq<Ue>>): seq<Ue> {
    if entries == [] then [] else All(entries[..|entries| - 1]) + entries[|entries| - 1]
  }

  ghost predicate Increasing(a: seq<nat>) {
    forall i, j | 0 <= i < j < |a| :: a[i] < a[j]
  }

  /** `picked` consists of the UEs of `ues` at the positions `at`, which are those with traffic. */
  ghost predicate Picks(ues: seq<Ue>, picked: seq<Ue>, at: seq<nat>) {
    && |at| == |picked| && Increasing(at)
    && (forall i | 0 <= i < |at| :: at[i] < |ues| && picked[i] == ues[at[i]])
    && (forall p | 0 <= p < |ues| ::
          p in at <==> !(ues[p].rxBitrate == Some(0.0) && ues[p].rxBler == Some(0.0) && ues[p].ulBuffer == Some(0.0)))
  }

  /** The UEs kept are exactly those of which not all three numbers are 0, each once and in order. */
  lemma ActiveIs(entries: seq<seq<Ue>>) returns (at: seq<nat>)
    ensures Picks(All(entries), Active(entries), at)
  {
    ActiveOfAll(entries);
    at := ActiveOfIs(All(entries));
  }

  lemma {:induction false} ActiveOfAll(entries: seq<seq<Ue>>)
    ensures Active(entries) == ActiveOf(All(entries))
  {
    if entries == [] {
    } else {
      ActiveOfAll(entries[..|entries| - 1]);
      ActiveOfConcat(All(entries[..|entries| - 1]), entries[|entries| - 1]);
    }
  }

  lemma {:induction false} ActiveOfConcat(a: seq<Ue>, b: seq<Ue>)
    ensures ActiveOf(a + b) == ActiveOf(a) + ActiveOf(b)
  {
    if b == [] {
      assert a + b == a;
    } else {
      ActiveOfConcat(a, b[..|b| - 1]);
      assert (a + b)[..|a + b| - 1] == a + b[..|b| - 1];
    }
  }

  lemma {:induction false} ActiveOfIs(ues: seq<Ue>) returns (at: seq<nat>)
    ensures Picks(ues, ActiveOf(ues), at)
  {
    if ues == [] {
      at := [];
    } else {
      var n := |ues| - 1;
      at := ActiveOfIs(ues[..n]);
      assert ues == ues[..n] + [ues[n]];
      if Idle(ues[n]) {
        SkipOne(ues[..n], ActiveOf(ues[..n]), at, ues[n]);
        assert ActiveOf(ues[..n]) + [] == ActiveOf(ues[..n]);
      } else {
        PickOne(ues[..n], ActiveOf(ues[..n]), at, ues[n]);
        at := at + [n];
      }
    }
  }

  lemma SkipOne(ues: seq<Ue>, picked: seq<Ue>, at: seq<nat>, ue: Ue)
    requires Picks(ues, picked, at) && Idle(ue)
    ensures Picks(ues + [ue], picked, at)
  {
    assert forall i | 0 <= i < |at| :: at[i] in at && at[i] < |ues|;
  }

  lemma PickOne(ues: seq<Ue>, picked: seq<Ue>, at: seq<nat>, ue: Ue)
    requires Picks(ues, picked, at) && !Idle(ue)
    ensures Picks(ues + [ue], picked + [ue], at + [|ues|])
  {
    assert forall i | 0 <= i < |at| :: at[i] in at && at[i] < |ues|;
    assert Increasing(at + [|ues|]);
    hide Increasing;
  }

  /** Each UE contributes these five numbers, in this order. */
  lemma {:induction false} RowsAt(ues: seq<Ue>, i: nat)
    requires i < |ues|
    ensures |Rows(ues)| == 5 * |ues|
    ensures Rows(ues)[5 * i..5 * i + 5] ==
            [ues[i].puschSinr, ues[i].rxBitrate, ues[i].rxBler, ues[i].ulMcs, ues[i].ulBuffer]
  {
    RowsLength(ues);
    var front := ues[..|ues| - 1];
    RowsLength(front);
    if i < |front| {
      RowsAt(front, i);
      assert Rows(ues)[5 * i..5 * i + 5] == Rows(front)[5 * i..5 * i + 5];
    }
  }

  /** The loop that collects the metrics. */
  method ExtractMetrics(entries: seq<seq<Ue>>) returns (metrics: Metrics)
    ensures metrics == Rows(Active(entries))
  {
    metrics := [];
    var i := 0;
    while i < |entries|
      invariant 0 <= i <= |entries| && metrics == Rows(Active(entries[..i]))
    {
      ghost var before := Active(entries[..i]);
      assert before + [] == before;
      var ues := entries[i];
      var j := 0;
      while j < |ues|
        invariant 0 <= j <= |ues| && metrics == Rows(before + ActiveOf(ues[..j]))
      {
        NextUe(before, ues, j);
        if !Idle(ues[j]) {
          metrics := metrics + Row(ues[j]);
        }
        j := j + 1;
      }
      assert ues[..j] == ues && entries[..i + 1][..i] == entries[..i];
      i := i + 1;
    }
    assert entries[..i] == entries;
  }

  lemma NextUe(before: seq<Ue>, ues: seq<Ue>, j: nat)
    requires j < |ues|
    ensures Rows(before + ActiveOf(ues[..j + 1])) ==
            Rows(before + ActiveOf(ues[..j])) + if Idle(ues[j]) then [] else Row(ues[j])
  {
    assert ues[..j + 1][..j] == ues[..j];
    var ues' := before + ActiveOf(ues[..j]);
    if Idle(ues[j]) {
      assert ActiveOf(ues[..j + 1]) == ActiveOf(ues[..j]);
    } else {
      assert (ues' + [ues[j]])[..|ues'|] == ues';
      assert before + ActiveOf(ues[..j + 1]) == ues' + [ues[j]];
    }
  }

  lemma {:induction false} RowsLength(ues: seq<Ue>)
    ensures |Rows(ues)| == 5 * |ues|
  {
    if ues == [] {
    } else {
      RowsLength(ues[..|ues| - 1]);
    }
  }

  /** The metrics are complete exactly when two UEs in all had traffic, and then the values compared
      with the threshold are their two block error rates. */
  lemma CompleteMetrics(entries: seq<seq<Ue>>)
    ensures var ues, m := Active(entries), Rows(Active(entries));
            && (|m| == 10 <==> |ues| == 2)
            && (|m| == 10 ==> m[2] == ues[0].rxBler && m[7] == ues[1].rxBler)
  {
    var ues := Active(entries);
    RowsLength(ues);
    if |ues| == 2 {
      assert ues[..1] == [ues[0]] && [ues[0]][..0] == [];
      assert Rows([ues[0]]) == [] + Row(ues[0]);
      assert Rows(ues) == Rows([ues[0]]) + Row(ues[1]);
    }
  }

  // ----- the state machine -----

  /** The loop's variables; metrics is None until it is first assigned. */
  datatype State = State(
    mode: Mode, metrics: Option<Metrics>, prevMetrics: Metrics, prevImage: Option<int>, held: (int, int))

  const START := State(Kpms, None, [], None, (0, 0))

  /** The two block error rates against the threshold, evaluated from left to right. */
  datatype Test = Raises | Truth(holds: bool)

  function OverThreshold(m: Metrics): Test
    requires |m| == 10
  {
    match m[2]
    case None => Raises
    case Some(x) =>
      if x >= 5.0 then Truth(true)
      else match m[7]
        case None => Raises
        case Some(y) => Truth(y >= 5.0)
  }

  /** What a KPM turn meets: a failing look-up or the metrics extracted from the entries read; the
      classifier's answer or its failure; and whether sending works. */
  datatype KpmInput = KpmInput(extracted: Option<Metrics>, prediction: Option<int>, sends: bool)

  /** What an I/Q turn meets: the image in the store, whether the prediction comes through, what it
      sees, and how many sends go through before one fails. */
  datatype IqInput = IqInput(image: Option<int>, predicts: bool, soiFound: bool, box: Box, sends: nat)

  /** The ways through one turn. */
  datatype Branch =
    | KpmIdle | KpmError | KpmRetain | KpmUnblank | KpmAlarm
    | IqIdle | IqCrash | IqConfirm | IqReject | IqRetain | IqUnblank

  /** The new state, the messages sent, the way taken, and whether the process goes on. */
  datatype Outcome = Outcome(state: State, sent: seq<Message>, branch: Branch, running: bool)

  function SortedPair(a: int, b: int): (int, int) {
    if a <= b then (a, b) else (b, a)
  }

  function Held(s: State): Message {
    PrbRange(s.held.0, s.held.1)
  }

  /** One turn in KPMs mode. */
  function KpmTurn(s: State, x: KpmInput): Outcome {
    if x.extracted.None? || |x.extracted.value| != 10 || x.extracted.value == s.prevMetrics then
      Outcome(s, [], KpmIdle, true)
    else
      var m := x.extracted.value;
      var s' := s.(metrics := Some(m), prevMetrics := m);
      if x.prediction.None? || OverThreshold(m).Raises? then Outcome(s', [], KpmError, true)
      else
        var prediction := if OverThreshold(m).holds then 1 else 0;
        if prediction != 0 then
          if x.sends then Outcome(s'.(mode := Iqs), [CollectIq], KpmAlarm, true) else Outcome(s', [], KpmAlarm, true)
        else if OverThreshold(m).holds then
          Outcome(s', if x.sends then [Held(s)] else [], KpmRetain, true)
        else Outcome(s', if x.sends then [PrbRange(0, 0)] else [], KpmUnblank, true)
  }

  /** One turn in I/Qs mode.  A failing send ends the process; so does any other exception. */
  function IqTurn(s: State, x: IqInput): Outcome {
    if x.image == s.prevImage then Outcome(s, [], IqIdle, true)
    else
      var s' := s.(prevImage := x.image);
      if !x.predicts then Outcome(s', [], IqCrash, false)
      else match GetAffectedPrbs(x.soiFound, x.box)
        case Interference(prb1, prb2) =>
          var (lo, hi) := SortedPair(prb1, prb2);
          var s'' := s'.(held := (lo, hi));
          if !InChannel(lo, hi) then Outcome(s'', [], IqReject, true)
          else if x.sends == 0 then Outcome(s'', [], IqConfirm, false)
          else Outcome(s''.(mode := Kpms), [PrbRange(lo, hi)], IqConfirm, true)
        case _ =>
          if s.metrics.None? || |s.metrics.value| != 10 || OverThreshold(s.metrics.value).Raises? then
            Outcome(s', [], IqCrash, false)
          else
            var retain := OverThreshold(s.metrics.value).holds;
            var range := if retain then Held(s) else PrbRange(0, 0);
            var branch := if retain then IqRetain else IqUnblank;
            if x.sends == 0 then Outcome(s', [], branch, false)
            else if x.sends == 1 then Outcome(s', [range], branch, false)
            else Outcome(s'.(mode := Kpms), [range, CollectKpms], branch, true)
  }

  // ----- the loop body as the source writes it -----

  class Process {
    var currentMode: Mode
    var metrics: Option<Metrics>
    var prevExtractedMetrics: Metrics
    var prevRawBytes: Option<int>
    var interfResFinal: (int, int)

    function View(): State
      reads this
    {
      State(currentMode, metrics, prevExtractedMetrics, prevRawBytes, interfResFinal)
    }

    constructor ()
      ensures View() == START
    {
      currentMode, metrics, prevExtractedMetrics, prevRawBytes, interfResFinal := Kpms, None, [], None, (0, 0);
    }

    /** The branch for KPMs mode; an exception ends the turn, and one in the comparison or from the
        socket leaves the mode as it is. */
    method RunKpms(x: KpmInput) returns (sent: seq<Message>)
      requires currentMode == Kpms
      modifies this
      ensures View() == KpmTurn(old(View()), x).state && sent == KpmTurn(old(View()), x).sent
    {
      sent := [];
      if x.extracted.None? {
        return;
      }
      var curr := x.extracted.value;
      if |curr| == 5 * 2 {
        if curr != prevExtractedMetrics {
          metrics := Some(curr);
          prevExtractedMetrics := curr;
          if x.prediction.None? {
            return;
          }
          var pred := x.prediction.value;
          var over := OverThreshold(curr);
          if over.Raises? {
            return;
          }
          if over.holds {
            pred := 1;
          } else {
            pred := 0;
          }
          if pred == 0 {
            var range := if over.holds then PrbRange(interfResFinal.0, interfResFinal.1) else PrbRange(0, 0);
            if !x.sends {
              return;
            }
            sent := sent + [range];
            if currentMode != Kpms {
              assert false;  // the mode test that follows the send never succeeds here
            }
          } else {
            if !x.sends {
              return;
            }
            sent := sent + [CollectIq];
            currentMode := Iqs;
          }
        }
      }
    }

    /** The branch for I/Qs mode. */
    method RunIqs(x: IqInput) returns (sent: seq<Message>, running: bool)
      requires currentMode == Iqs
      modifies this
      ensures var o := IqTurn(old(View()), x);
              View() == o.state && sent == o.sent && running == o.running
    {
      sent, running := [], true;
      if x.image != prevRawBytes {
        prevRawBytes := x.image;
        if !x.predicts {
          return sent, false;
        }
        var interfRes := GetAffectedPrbs(x.soiFound, x.box);
        if interfRes != NoDetections && interfRes != NoInterference {
          interfResFinal := SortedPair(interfRes.prb1, interfRes.prb2);
          if interfResFinal.0 > 0 && interfResFinal.1 > interfResFinal.0
             && interfResFinal.0 < 50 && interfResFinal.1 < 50 {
            if x.sends == 0 {
              return sent, false;
            }
            sent := sent + [PrbRange(interfResFinal.0, interfResFinal.1)];
            currentMode := Kpms;
          }
        } else if currentMode != Kpms {
          if metrics.None? || |metrics.value| != 10 || OverThreshold(metrics.value).Raises? {
            return sent, false;
          }
          var range;
          if OverThreshold(metrics.value).holds {
            range := PrbRange(interfResFinal.0, interfResFinal.1);
          } else {
            range := PrbRange(0, 0);
          }
          if x.sends == 0 {
            return sent, false;
          }
          sent := sent + [range];
          if x.sends == 1 {
            return sent, false;
          }
          sent := sent + [CollectKpms];
          currentMode := Kpms;
        }
      }
    }
  }

  // ----- what every turn keeps -----

  /** Whenever I/Q data is being examined, metrics is bound and one of its rates is over the
      threshold. */
  ghost predicate Inv(s: State) {
    && (s.metrics.Some? ==> |s.metrics.value| == 10)
    && (s.mode == Iqs ==> s.metrics.Some? && OverThreshold(s.metrics.value) == Truth(true))
    && s.held.0 <= s.held.1
  }

  lemma KpmTurnKeepsInv(s: State, x: KpmInput)
    requires Inv(s) && s.mode == Kpms
    ensures Inv(KpmTurn(s, x).state)
  {
  }

  lemma IqTurnKeepsInv(s: State, x: IqInput)
    requires Inv(s) && s.mode == Iqs
    ensures Inv(IqTurn(s, x).state)
  {
  }

  /** A KPM turn, for every state and input.  Without ten new metrics nothing happens.  With them both
      rates are compared with 5, from left to right: one that is not below it raises the alarm; if both
      are below it the base station is told to unblank; a missing rate that has to be looked at, a
      missing prediction or a failing send lets nothing out and keeps the mode. */
  lemma KpmTurnIs(s: State, x: KpmInput)
    requires s.mode == Kpms
    ensures x.extracted.None? || |x.extracted.value| != 10 || x.extracted.value == s.prevMetrics ==>
              KpmTurn(s, x).state == s && KpmTurn(s, x).sent == []
    ensures x.extracted.Some? && |x.extracted.value| == 10 && x.extracted.value != s.prevMetrics ==>
              var m, o := x.extracted.value, KpmTurn(s, x);
              var a, b := m[2], m[7];
              var acts := x.prediction.Some? && x.sends && a.Some?;
              var alarm := acts && (a.value >= 5.0 || (b.Some? && b.value >= 5.0));
              var unblank := acts && a.value < 5.0 && b.Some? && b.value < 5.0;
              && o.sent == (if alarm then [CollectIq] else if unblank then [PrbRange(0, 0)] else [])
              && o.state == State(if alarm then Iqs else Kpms, Some(m), m, s.prevImage, s.held)
    ensures KpmTurn(s, x).running
  {
  }

  /** A new image with a box: the blocks of the box are stored, and they are sent, with a return to KPMs
      mode, exactly when the box lies between the first and the last block boundary and is not a single
      row on one.  A box that fails this changes nothing else; a send that fails ends the process. */
  lemma IqTurnWithBox(s: State, x: IqInput)
    requires s.mode == Iqs && x.image != s.prevImage && x.predicts
    requires x.box.Box? && x.box.ymin <= x.box.ymax
    ensures var o, low, high := IqTurn(s, x), Offset(x.box.ymax), Offset(x.box.ymin);
            var inside := 1.0 <= low && high <= 49.0 && !(high == low && low == low.Floor as real);
            var (lo, hi) := o.state.held;
            && o.sent == (if inside && x.sends > 0 then [PrbRange(lo, hi)] else [])
            && o.state == s.(mode := if inside && x.sends > 0 then Kpms else Iqs,
                             prevImage := x.image, held := (lo, hi))
            && o.running == (inside ==> x.sends > 0)
            && (inside ==> lo as real <= low < lo as real + 1.0 && hi as real - 1.0 < high <= hi as real)
            && GetAffectedPrbs(x.soiFound, x.box) == Interference(lo, hi)
  {
    ConfirmedRangeIsTight(x.soiFound, x.box);
    RangeCoversBox(x.soiFound, x.box, x.box.ymin);
    DetectionIs(x.soiFound, x.box);
  }

  /** A box upside down is stored and checked like any other, its blocks put in order. */
  lemma IqTurnWithAnyBox(s: State, x: IqInput)
    requires s.mode == Iqs && x.image != s.prevImage && x.predicts && x.box.Box?
    ensures var o, d := IqTurn(s, x), GetAffectedPrbs(x.soiFound, x.box);
            var lo, hi := if d.prb1 < d.prb2 then d.prb1 else d.prb2, if d.prb1 < d.prb2 then d.prb2 else d.prb1;
            && o.state.held == (lo, hi)
            && (0 < lo < hi < 50 && x.sends > 0 <==> o.sent == [PrbRange(lo, hi)] && o.state.mode == Kpms)
            && (!(0 < lo < hi < 50) <==> o.sent == [] && o.state.mode == Iqs && o.running)
  {
  }

  /** Every other I/Q turn.  An image seen before changes nothing; a prediction that fails ends the
      process; an image without a box makes the xApp send the range it holds and then the command to
      collect KPMs, and only with both of these sent it returns to KPMs mode. */
  lemma IqTurnWithoutBox(s: State, x: IqInput)
    requires Inv(s) && s.mode == Iqs
    ensures x.image == s.prevImage ==> IqTurn(s, x).state == s && IqTurn(s, x).sent == [] && IqTurn(s, x).running
    ensures x.image != s.prevImage && !x.predicts ==>
              var o := IqTurn(s, x);
              o.state == s.(prevImage := x.image) && o.sent == [] && !o.running
    ensures x.image != s.prevImage && x.predicts && x.box.Nil? ==>
              var o, messages := IqTurn(s, x), [PrbRange(s.held.0, s.held.1), CollectKpms];
              && o.sent == (if x.sends < 2 then messages[..x.sends] else messages)
              && o.running == (x.sends >= 2)
              && o.state == State(if x.sends >= 2 then Kpms else Iqs, s.metrics, s.prevMetrics, x.image, s.held)
  {
  }

  /** Two branches of the source can never be taken: retaining a range in KPMs mode, and unblanking
      (or failing on unbound metrics) in I/Qs mode.  The unblank message is computed only from KPMs
      mode with both rates below the threshold. */
  lemma DeadBranches(s: State, kpm: KpmInput, iq: IqInput)
    requires Inv(s)
    ensures s.mode == Kpms ==> KpmTurn(s, kpm).branch != KpmRetain
    ensures s.mode == Iqs ==> IqTurn(s, iq).branch != IqUnblank
    ensures s.mode == Iqs && iq.predicts ==> IqTurn(s, iq).branch != IqCrash
    ensures s.mode == Kpms && PrbRange(0, 0) in KpmTurn(s, kpm).sent ==>
              kpm.extracted.Some? && |kpm.extracted.value| == 10 && OverThreshold(kpm.extracted.value) == Truth(false)
  {
  }

  /** The classifier's answer is overwritten: only its failing matters. */
  lemma PredictionIsIrrelevant(s: State, x: KpmInput, other: int)
    requires x.prediction.Some?
    ensures KpmTurn(s, x) == KpmTurn(s, x.(prediction := Some(other)))
  {
  }

  /** What the last of a sequence of messages makes IMI collect. */
  function Collects(m: Message): Mode {
    if m == CollectIq then Iqs else Kpms
  }

  /** IMI's dispatch on the received bytes. */
  predicate DispatchesToKpms(bytes: seq<int>) {
    bytes == [0x6B] || |bytes| == 8
  }

  predicate DispatchesToIq(bytes: seq<int>) {
    bytes == [0x69]
  }

  lemma DispatchFollowsMessage(m: Message)
    ensures DispatchesToKpms(Wire(m)) <==> Collects(m) == Kpms
    ensures DispatchesToIq(Wire(m)) <==> Collects(m) == Iqs
    ensures |Wire(m)| <= 8
  {
  }

  /** A turn sends nothing and keeps its mode, or ends with a message that asks for what its new mode
      needs. */
  lemma KpmTurnAnnouncesMode(s: State, x: KpmInput)
    requires s.mode == Kpms
    ensures var o := KpmTurn(s, x);
            o.running && if o.sent == [] then o.state.mode == s.mode else Collects(o.sent[|o.sent| - 1]) == o.state.mode
  {
  }

  lemma IqTurnAnnouncesMode(s: State, x: IqInput)
    requires s.mode == Iqs
    ensures var o := IqTurn(s, x);
            o.running ==>
              if o.sent == [] then o.state.mode == s.mode else Collects(o.sent[|o.sent| - 1]) == o.state.mode
  {
  }

  // ----- the ranges sent -----

  predicate Safe(m: Message) {
    m.PrbRange? ==> InChannel(m.lo, m.hi) || (m.lo, m.hi) == (0, 0)
  }

  lemma SafeRanges(m: Message)
    ensures Safe(m) <==> !m.PrbRange? || 0 < m.lo < m.hi < 50 || (m.lo == 0 && m.hi == 0)
  {
  }

  /** The turn sends a retained range that is neither in the channel nor the unblanking one. */
  predicate RetainsUnsafe(s: State, x: IqInput) {
    x.image != s.prevImage && x.predicts && x.box.Nil? && x.sends > 0 && !Safe(Held(s))
  }

  /** Every range sent is one inside the channel or the unblanking one, except exactly when a range
      is retained that failed the check when it was detected: the detection is stored before it is
      checked. */
  lemma SafeUnlessRetained(s: State, kpm: KpmInput, iq: IqInput)
    requires Inv(s)
    ensures s.mode == Kpms ==> forall m | m in KpmTurn(s, kpm).sent :: Safe(m)
    ensures s.mode == Iqs ==>
              ((forall m | m in IqTurn(s, iq).sent :: Safe(m)) <==> !RetainsUnsafe(s, iq))
  {
    var o := IqTurn(s, iq);
    if s.mode == Iqs && o.branch == IqRetain && iq.sends > 0 {
      assert o.sent[0] == Held(s) && o.sent[0] in o.sent;
    }
  }

  /** A range confirmed from a box covers all of the box and is less than two blocks wider. */
  lemma ConfirmedRangeCoversBox(s: State, x: IqInput)
    requires IqTurn(s, x).branch == IqConfirm && x.sends > 0
    requires x.box.Box? && x.box.ymin <= x.box.ymax
    ensures exists lo, hi ::
              && IqTurn(s, x).sent == [PrbRange(lo, hi)] && InChannel(lo, hi)
              && (forall y | x.box.ymin <= y <= x.box.ymax :: lo as real <= Offset(y) <= hi as real)
              && (hi - lo) as real < Offset(x.box.ymin) - Offset(x.box.ymax) + 2.0
  {
    ConfirmedRangeIsTight(x.soiFound, x.box);
    RangeCoversBox(x.soiFound, x.box, x.box.ymin);
    var d := GetAffectedPrbs(x.soiFound, x.box);
    assert IqTurn(s, x).sent == [PrbRange(d.prb1, d.prb2)];
  }
}
