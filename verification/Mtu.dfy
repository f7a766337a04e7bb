/** The path MTU probe: a binary search whose every question may be lost or cut short. */
module Mtu {
  import opened Basics
  import opened Powers

  /** What one ping came back with. */
  datatype Pong = Failed | Heard(reportedMtu: int, tooLargeToSend: bool, received: int)

  /** The network's answer to the n-th ping, of the given payload; it may depend on both. */
  type Network = (nat, int) -> Pong

  /** Whether the run has been cancelled by the time n pings have been sent. */
  type Cancellation = nat -> bool

  const MIN_PACKET_SIZE := 20

  datatype MtuStep = MtuStep(packetSize: int, fits: bool, reportedMtu: int)

  /** What the remaining attempts at one size conclude, and how many pings have then been sent. */
  function Attempts(net: Network, cancelled: Cancellation, sent: nat, size: int, overhead: int, left: nat): (r: (MtuStep, nat))
    ensures sent <= r.1 <= sent + left
    ensures r.0.packetSize == size && (r.0.fits ==> r.0.reportedMtu == 0)
    decreases left
  {
    if left == 0 then (MtuStep(size, false, 0), sent)
    else
      match net(sent, size - overhead)
      case Failed => (MtuStep(size, false, 0), sent + 1)
      case Heard(reported, tooLarge, received) =>
        if reported > 0 then (MtuStep(size, false, reported), sent + 1)
        else if tooLarge then (MtuStep(size, false, 0), sent + 1)
        else if received > 0 then (MtuStep(size, true, 0), sent + 1)
        else if cancelled(sent + 1) then (MtuStep(size, false, 0), sent + 1)
        else Attempts(net, cancelled, sent + 1, size, overhead, left - 1)
  }

  /** How often a size is tried while nothing at all comes back. */
  function Tries(): nat { 2 }

  /** One size, probed: a size too small to carry a probe fails unsent, any other gets two attempts. */
  function Probed(net: Network, cancelled: Cancellation, sent: nat, size: int, overhead: int): (MtuStep, nat) {
    if size - overhead < MIN_PACKET_SIZE then (MtuStep(size, false, 0), sent)
    else Attempts(net, cancelled, sent, size, overhead, Tries())
  }

  // ------------------------------------------------------------- what a probe concludes

  /** A ping that came back: no router reported an MTU, and the packet could be sent. */
  predicate Received(pong: Pong) { pong.Heard? && pong.reportedMtu <= 0 && !pong.tooLargeToSend && pong.received > 0 }

  /** A ping of which nothing at all was heard. */
  predicate Silence(pong: Pong) { pong.Heard? && pong.reportedMtu <= 0 && !pong.tooLargeToSend && pong.received <= 0 }

  /** The MTU a router reported, or 0. */
  function Report(pong: Pong): int { if pong.Heard? && pong.reportedMtu > 0 then pong.reportedMtu else 0 }

  /** A probe's conclusion, told from the pings: none is sent when the size cannot carry one; a second
      only after silence that was not cut short; and the last one sent decides. */
  predicate Concludes(net: Network, cancelled: Cancellation, sent: nat, size: int, overhead: int, step: MtuStep, now: nat) {
    var payload := size - overhead;
    && step.packetSize == size
    && (payload < 20 ==> step == MtuStep(size, false, 0) && now == sent)
    && (payload >= 20 ==>
          var again := Silence(net(sent, payload)) && !cancelled(sent + 1);
          && now == sent + (if again then 2 else 1)
          && (step.fits <==> Received(net(now - 1, payload)))
          && step.reportedMtu == Report(net(now - 1, payload)))
  }

  lemma {:induction false} ProbedConcludes(net: Network, cancelled: Cancellation, sent: nat, size: int, overhead: int)
    ensures var (step, now) := Probed(net, cancelled, sent, size, overhead);
            Concludes(net, cancelled, sent, size, overhead, step, now)
  {
    if size - overhead >= 20 {
      LastTry(net, cancelled, sent + 1, size, overhead);
      assert Probed(net, cancelled, sent, size, overhead) == Attempts(net, cancelled, sent, size, overhead, 2);
    }
  }

  lemma {:induction false} LastTry(net: Network, cancelled: Cancellation, sent: nat, size: int, overhead: int)
    ensures var (step, now) := Attempts(net, cancelled, sent, size, overhead, 1);
            && now == sent + 1 && step.packetSize == size
            && (step.fits <==> Received(net(sent, size - overhead)))
            && step.reportedMtu == Report(net(sent, size - overhead))
  {
  }

  method ProbeSize(net: Network, cancelled: Cancellation, sent: nat, size: int, overhead: int)
    returns (step: MtuStep, now: nat)
    ensures (step, now) == Probed(net, cancelled, sent, size, overhead)
    ensures Concludes(net, cancelled, sent, size, overhead, step, now)
  {
    ProbedConcludes(net, cancelled, sent, size, overhead);
    now := sent;
    if size - overhead < MIN_PACKET_SIZE {
      return MtuStep(size, false, 0), now;
    }
    for attempt := 0 to Tries()
      invariant Attempts(net, cancelled, sent, size, overhead, Tries())
                == Attempts(net, cancelled, now, size, overhead, Tries() - attempt)
    {
      var pong := net(now, size - overhead);
      now := now + 1;
      if pong.Failed? {
        return MtuStep(size, false, 0), now;
      }
      if pong.reportedMtu > 0 {
        return MtuStep(size, false, pong.reportedMtu), now;
      }
      if pong.tooLargeToSend {
        return MtuStep(size, false, 0), now;
      }
      if pong.received > 0 {
        return MtuStep(size, true, 0), now;
      }
      if cancelled(now) {
        break;
      }
    }
    return MtuStep(size, false, 0), now;
  }

  // ------------------------------------------------------------------------- the search

  /** Halvings that bring n candidates down to one: the logarithm to base 2, rounded up. */
  function CeilLog2(n: nat): (k: nat)
    requires n > 0
  {
    if n == 1 then 0 else 1 + CeilLog2((n + 1) / 2)
  }

  lemma {:induction false} CeilLog2Monotone(m: nat, n: nat)
    requires 0 < m <= n
    ensures CeilLog2(m) <= CeilLog2(n)
  {
    if m > 1 {
      CeilLog2Monotone((m + 1) / 2, (n + 1) / 2);
    }
  }

  /** CeilLog2 is the least power of two exponent that reaches n. */
  lemma {:induction false} CeilLog2Is(n: nat)
    requires n > 0
    ensures n <= Pow2(CeilLog2(n))
    ensures n > 1 ==> Pow2(CeilLog2(n) - 1) < n
  {
    if n > 1 {
      var m := (n + 1) / 2;
      CeilLog2Is(m);
      if m > 1 {
        assert Pow2(CeilLog2(m)) == 2 * Pow2(CeilLog2(m) - 1);
      }
    }
  }

  /** A report lowers the figure when there is none yet or it is smaller. */
  function Lowered(reported: int, step: MtuStep): int {
    if step.reportedMtu > 0 && (reported == 0 || step.reportedMtu < reported) then step.reportedMtu else reported
  }

  /** The smallest MTU any step's router reported, or 0. */
  function SmallestReport(steps: seq<MtuStep>): int {
    if steps == [] then 0 else Lowered(SmallestReport(steps[..|steps| - 1]), steps[|steps| - 1])
  }

  lemma {:induction false} SmallestReportLaw(steps: seq<MtuStep>)
    ensures forall s | s in steps && s.reportedMtu > 0 :: 0 < SmallestReport(steps) <= s.reportedMtu
    ensures SmallestReport(steps) != 0 ==> exists s | s in steps :: s.reportedMtu == SmallestReport(steps) > 0
  {
    if steps != [] {
      var n := |steps| - 1;
      SmallestReportLaw(steps[..n]);
      assert steps == steps[..n] + [steps[n]];
      assert steps[n] in steps;
    }
  }

  /** Pings sent by the end of a run of steps, when at[i] counts those sent by the end of step i. */
  function SentBy(at: seq<nat>): nat { if at == [] then 0 else at[|at| - 1] }

  /** Every step is an honest probe of the network, made after the ones before it. */
  ghost predicate Honest(net: Network, cancelled: Cancellation, overhead: int, steps: seq<MtuStep>, at: seq<nat>) {
    && |at| == |steps|
    && (steps != [] ==>
          var n := |steps| - 1;
          && (steps[n], at[n]) == Probed(net, cancelled, SentBy(at[..n]), steps[n].packetSize, overhead)
          && Honest(net, cancelled, overhead, steps[..n], at[..n]))
  }

  lemma {:induction false} HonestAt(net: Network, cancelled: Cancellation, overhead: int, steps: seq<MtuStep>, at: seq<nat>, i: nat)
    requires Honest(net, cancelled, overhead, steps, at) && i < |steps|
    ensures (steps[i], at[i]) == Probed(net, cancelled, SentBy(at[..i]), steps[i].packetSize, overhead)
  {
    var n := |steps| - 1;
    if i < n {
      HonestAt(net, cancelled, overhead, steps[..n], at[..n], i);
      assert at[..n][..i] == at[..i];
    }
  }

  /** Some step found the size to fit, or not to fit. */
  predicate Saw(steps: seq<MtuStep>, size: int, fits: bool) {
    exists i | 0 <= i < |steps| :: steps[i].packetSize == size && steps[i].fits == fits
  }

  /** A path that carries exactly the packets up to mtu, whenever one is sent. */
  ghost predicate CarriesUpTo(net: Network, overhead: int, mtu: int) {
    forall n: nat, payload: int | payload >= 20 :: AnsweredAt(net, n, payload) <==> payload + overhead <= mtu
  }

  lemma {:induction false} FitsIff(net: Network, cancelled: Cancellation, sent: nat, size: int, overhead: int, mtu: int)
    requires CarriesUpTo(net, overhead, mtu) && size - overhead >= 20
    ensures Probed(net, cancelled, sent, size, overhead).0.fits <==> size <= mtu
  {
    ProbedConcludes(net, cancelled, sent, size, overhead);
    assert AnsweredAt(net, sent, size - overhead) <==> size <= mtu;
    assert AnsweredAt(net, sent + 1, size - overhead) <==> size <= mtu;
  }

  /** A ping that carried a packet of the size came back. */
  ghost predicate CameBack(net: Network, payload: int) { exists n: nat :: AnsweredAt(net, n, payload) }

  predicate AnsweredAt(net: Network, n: nat, payload: int) { Received(net(n, payload)) }

  lemma {:induction false} SeenCameBack(net: Network, cancelled: Cancellation, overhead: int, steps: seq<MtuStep>, at: seq<nat>,
                                        size: int)
    requires Honest(net, cancelled, overhead, steps, at) && Saw(steps, size, true)
    ensures CameBack(net, size - overhead)
  {
    var i :| 0 <= i < |steps| && steps[i].packetSize == size && steps[i].fits;
    HonestAt(net, cancelled, overhead, steps, at, i);
    ProbedConcludes(net, cancelled, SentBy(at[..i]), size, overhead);
    assert AnsweredAt(net, at[i] - 1, size - overhead);
  }

  datatype MtuResult = Broken(reported: int, steps: seq<MtuStep>)
                     | Found(searched: int, discovered: int, reported: int, steps: seq<MtuStep>)

  /** The range searched: settings stand in for values not given, and the ends are put in order. */
  function Range(min: int, max: int, settingMin: int, settingMax: int): (r: (int, int))
    ensures r.0 <= r.1
  {
    var low := if min <= 0 then settingMin else min;
    var high := if max <= 0 then settingMax else max;
    if low > high then (high, low) else (low, high)
  }

  /** Values given in order are the range; in the wrong order they are turned round; one not given is the setting. */
  lemma {:induction false} RangeLaw(min: int, max: int, settingMin: int, settingMax: int)
    ensures 0 < min <= max ==> Range(min, max, settingMin, settingMax) == (min, max)
    ensures 0 < max <= min ==> Range(min, max, settingMin, settingMax) == (max, min)
    ensures min <= 0 && max <= 0 && settingMin <= settingMax ==> Range(min, max, settingMin, settingMax) == (settingMin, settingMax)
    ensures min <= 0 && settingMin <= max && max > 0 ==> Range(min, max, settingMin, settingMax) == (settingMin, max)
    ensures max <= 0 && min <= settingMax && min > 0 ==> Range(min, max, settingMin, settingMax) == (min, settingMax)
  {
  }

  /** Where the search stands: lower fits, everything above upper is out, and time is running down. */
  ghost predicate Searching(net: Network, cancelled: Cancellation, overhead: int, steps: seq<MtuStep>, at: seq<nat>,
                            low: int, high: int, lower: int, upper: int)
  {
    && low <= lower <= upper <= high && lower > 0
    && Honest(net, cancelled, overhead, steps, at) && steps != []
    && Saw(steps, lower, true) && (upper == high || Saw(steps, upper + 1, false))
    && |steps| - 1 + CeilLog2(upper - lower + 1) <= CeilLog2(high - low + 1)
  }

  lemma {:induction false} SawMore(steps: seq<MtuStep>, step: MtuStep, size: int, fits: bool)
    ensures Saw(steps, size, fits) ==> Saw(steps + [step], size, fits)
    ensures Saw(steps + [step], step.packetSize, step.fits)
  {
    var more := steps + [step];
    if Saw(steps, size, fits) {
      var i :| 0 <= i < |steps| && steps[i].packetSize == size && steps[i].fits == fits;
      assert more[i] == steps[i];
    }
    assert more[|steps|] == step;
  }

  lemma {:induction false} HonestMore(net: Network, cancelled: Cancellation, overhead: int, steps: seq<MtuStep>, at: seq<nat>,
                   step: MtuStep, now: nat)
    requires Honest(net, cancelled, overhead, steps, at)
    requires (step, now) == Probed(net, cancelled, SentBy(at), step.packetSize, overhead)
    ensures Honest(net, cancelled, overhead, steps + [step], at + [now])
  {
    assert (steps + [step])[..|steps|] == steps && (at + [now])[..|at|] == at;
  }

  lemma {:induction false} ReportMore(steps: seq<MtuStep>, step: MtuStep)
    ensures SmallestReport(steps + [step]) == Lowered(SmallestReport(steps), step)
  {
    assert (steps + [step])[..|steps|] == steps;
  }

  /** The floor's own probe, where it fits, is where the search begins. */
  lemma {:induction false} FirstStep(net: Network, cancelled: Cancellation, overhead: int, floor: MtuStep, sent: nat, low: int, high: int)
    requires low <= high && overhead > 0 && floor.packetSize == low
    requires (floor, sent) == Probed(net, cancelled, 0, low, overhead)
    ensures Honest(net, cancelled, overhead, [floor], [sent])
    ensures SmallestReport([floor]) == if floor.reportedMtu > 0 then floor.reportedMtu else 0
    ensures floor.fits ==> Searching(net, cancelled, overhead, [floor], [sent], low, high, low, high)
  {
    SawMore([], floor, low, true);
    ReportMore([], floor);
    HonestMore(net, cancelled, overhead, [], [], floor, sent);
    assert [] + [floor] == [floor];
    FitsAreReal(net, cancelled, 0, low, overhead);
  }

  lemma {:induction false} FitsAreReal(net: Network, cancelled: Cancellation, sent: nat, size: int, overhead: int)
    ensures Probed(net, cancelled, sent, size, overhead).0.fits ==> size - overhead >= MIN_PACKET_SIZE
  {
  }

  /** One question halves what is left. */
  lemma {:induction false} SearchStep(net: Network, cancelled: Cancellation, overhead: int, steps: seq<MtuStep>, at: seq<nat>,
                   low: int, high: int, lower: int, upper: int, step: MtuStep, now: nat)
    requires Searching(net, cancelled, overhead, steps, at, low, high, lower, upper) && lower < upper
    requires step.packetSize == (lower + upper + 1) / 2
    requires (step, now) == Probed(net, cancelled, SentBy(at), step.packetSize, overhead)
    ensures Searching(net, cancelled, overhead, steps + [step], at + [now], low, high,
                      if step.fits then step.packetSize else lower,
                      if step.fits then upper else step.packetSize - 1)
  {
    HonestMore(net, cancelled, overhead, steps, at, step, now);
    SawMore(steps, step, lower, true);
    SawMore(steps, step, upper + 1, false);
    var width := upper - lower + 1;
    CeilLog2Monotone(if step.fits then upper - step.packetSize + 1 else step.packetSize - lower, (width + 1) / 2);
  }

  /** On a path that carries exactly the sizes up to some MTU, what was seen pins it down. */
  lemma {:induction false} TruePath(net: Network, cancelled: Cancellation, overhead: int, steps: seq<MtuStep>, at: seq<nat>,
                 found: int, high: int, mtu: int)
    requires Honest(net, cancelled, overhead, steps, at) && Saw(steps, found, true) && found <= high
    requires found == high || Saw(steps, found + 1, false)
    requires CarriesUpTo(net, overhead, mtu)
    ensures found == if mtu < high then mtu else high
  {
    var i :| 0 <= i < |steps| && steps[i].packetSize == found && steps[i].fits;
    HonestAt(net, cancelled, overhead, steps, at, i);
    FitsAreReal(net, cancelled, SentBy(at[..i]), found, overhead);
    FitsIff(net, cancelled, SentBy(at[..i]), found, overhead, mtu);
    if found != high {
      var j :| 0 <= j < |steps| && steps[j].packetSize == found + 1 && !steps[j].fits;
      HonestAt(net, cancelled, overhead, steps, at, j);
      FitsIff(net, cancelled, SentBy(at[..j]), found + 1, overhead, mtu);
    }
  }

  /** Probe the floor; search between it and the ceiling; let a router's report have the last word. */
  method MtuProbe(net: Network, cancelled: Cancellation, overhead: int,
                  min: int, max: int, settingMin: int, settingMax: int)
    returns (r: MtuResult, ghost at: seq<nat>)
    requires overhead > 0
    ensures Honest(net, cancelled, overhead, r.steps, at) && r.steps != []
    ensures r.reported == SmallestReport(r.steps)
    ensures var (low, high) := Range(min, max, settingMin, settingMax);
            && r.steps[0].packetSize == low
            && (r.Broken? <==> !r.steps[0].fits)
            && |r.steps| - 1 <= CeilLog2(high - low + 1)
            && (r.Found? ==>
                  && low <= r.searched <= high && Saw(r.steps, r.searched, true) && CameBack(net, r.searched - overhead)
                  && (!cancelled(SentBy(at)) ==> r.searched == high || Saw(r.steps, r.searched + 1, false))
                  && r.discovered ==
                       (if 0 < r.reported < r.searched then r.reported else r.searched))
  {
    var (low, high) := Range(min, max, settingMin, settingMax);
    var floor, sent := ProbeSize(net, cancelled, 0, low, overhead);
    FirstStep(net, cancelled, overhead, floor, sent, low, high);
    if !floor.fits {
      return Broken(if floor.reportedMtu > 0 then floor.reportedMtu else 0, [floor]), [sent];
    }
    var found, reported, steps;
    found, reported, steps, at := Search(net, cancelled, overhead, low, high, floor, sent);
    var discovered := found;
    if reported > 0 && reported < discovered {
      discovered := reported;
    }
    r := Found(found, discovered, reported, steps);
    SeenCameBack(net, cancelled, overhead, steps, at, found);
  }

  /** The bisection proper: the floor has been seen to fit, nothing is known of the top. */
  method Search(net: Network, cancelled: Cancellation, overhead: int, low: int, high: int, floor: MtuStep, floorSent: nat)
    returns (found: int, reported: int, steps: seq<MtuStep>, ghost at: seq<nat>)
    requires Searching(net, cancelled, overhead, [floor], [floorSent], low, high, low, high)
    requires SmallestReport([floor]) == if floor.reportedMtu > 0 then floor.reportedMtu else 0
    ensures Honest(net, cancelled, overhead, steps, at) && steps != [] && steps[0] == floor
    ensures reported == SmallestReport(steps) && |steps| - 1 <= CeilLog2(high - low + 1)
    ensures low <= found <= high && Saw(steps, found, true)
    ensures !cancelled(SentBy(at)) ==> found == high || Saw(steps, found + 1, false)
  {
    steps, at, found := [floor], [floorSent], low;
    reported := if floor.reportedMtu > 0 then floor.reportedMtu else 0;
    var lower, upper, sent := low, high, floorSent;
    while lower < upper && !cancelled(sent)
      invariant Searching(net, cancelled, overhead, steps, at, low, high, lower, upper)
      invariant SentBy(at) == sent && steps[0] == floor && found == lower
      invariant reported == SmallestReport(steps)
      decreases upper - lower
    {
      var middle := (lower + upper + 1) / 2;
      var step, now := ProbeSize(net, cancelled, sent, middle, overhead);
      SearchStep(net, cancelled, overhead, steps, at, low, high, lower, upper, step, now);
      ReportMore(steps, step);
      steps, at, sent := steps + [step], at + [now], now;
      if step.reportedMtu > 0 && (reported == 0 || step.reportedMtu < reported) {
        reported := step.reportedMtu;
      }
      if step.fits {
        lower := middle;
        found := middle;
      } else {
        upper := middle - 1;
      }
    }
  }

  /** An interface that will not send more than 1400 bytes and says so: the default search finds 1400. */
  lemma {:induction false} NarrowInterface(net: Network, cancelled: Cancellation, steps: seq<MtuStep>, at: seq<nat>, found: int)
    requires forall sent: nat, payload: int ::
               net(sent, payload) == if payload + 28 <= 1400 then Heard(0, false, 1) else Heard(0, true, 0)
    requires Honest(net, cancelled, 28, steps, at) && Saw(steps, found, true) && found <= 1500
    requires found == 1500 || Saw(steps, found + 1, false)
    ensures found == 1400
  {
    assert CarriesUpTo(net, 28, 1400);
    TruePath(net, cancelled, 28, steps, at, found, 1500, 1400);
  }

  /** The figure is never above what a router reported. */
  lemma {:induction false} ReportHasTheLastWord(steps: seq<MtuStep>, searched: int, discovered: int)
    requires discovered == if 0 < SmallestReport(steps) < searched then SmallestReport(steps) else searched
    ensures forall s | s in steps && s.reportedMtu > 0 :: discovered <= s.reportedMtu
  {
    SmallestReportLaw(steps);
  }
}
