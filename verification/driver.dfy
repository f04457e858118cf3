/**
  A session of calls on one `Clocks` controller, as firmware makes them
  during bring-up: a sequence of operations applied to the register record
  in order, stopping at the first call that never returns.
 */
module Driver {
  import opened Options
  import opened Registers
  import opened Clocks
  import opened Hardware

  /** One call on the controller, with the polls the hardware answers it with
      for the two blocking ones. */
  datatype Op =
    | EnableHf(samples: seq<u32>)
    | DisableHf
    | StartLf(samples: seq<u32>)
    | StopLf
    | SelectRc
    | SelectSynth
    | SelectExternal(cfg: Option<LfOscConfiguration>)

  /** Whether a call exists, with this argument list, on hardware family `v`. */
  predicate Available(v: Variant, op: Op) {
    match op
    case SelectRc => HasSrcSelection(v)
    case SelectSynth => HasSrcSelection(v)
    case SelectExternal(cfg) => ExternalArgFits(v, cfg)
    case _ => true
  }

  predicate IsSelection(op: Op) {
    op.SelectRc? || op.SelectSynth? || op.SelectExternal?
  }

  /** One call. Its register record on return is the effect of its accesses,
      and only a source selection writes LFCLKSRC. */
  function Apply(v: Variant, r: RegFile, op: Op): (o: Outcome)
    requires Available(v, op)
    ensures o.Returned? ==> o.regs == Replay(r, o.trace)
    ensures o.Returned? && !IsSelection(op) ==> o.regs.lfclksrc == r.lfclksrc
    ensures o.Returned? && IsSelection(op) ==> forall g :: Get(o.regs, g) == Get(r, g)
  {
    match op
    case EnableHf(samples) => StartReplays(r, Hf, samples); EnableExtHfosc(r, samples)
    case DisableHf => DisableExtHfosc(r)
    case StartLf(samples) => StartReplays(r, Lf, samples); StartLfclk(r, samples)
    case StopLf => StopLfclk(r)
    case SelectRc => SetLfclkSrcRc(v, r)
    case SelectSynth => SetLfclkSrcSynth(v, r)
    case SelectExternal(cfg) => SetLfclkSrcExternal(v, r, cfg)
  }

  predicate AllAvailable(v: Variant, ops: seq<Op>) {
    forall i :: 0 <= i < |ops| ==> Available(v, ops[i])
  }

  /** The calls of `ops` one after another; the session blocks with the
      first call that does. Its register record on return is the effect of
      all the accesses made. */
  function Run(v: Variant, r: RegFile, ops: seq<Op>): (o: Outcome)
    requires AllAvailable(v, ops)
    ensures o.Returned? ==> o.regs == Replay(r, o.trace)
    decreases |ops|
  {
    if |ops| == 0 then Returned(r, [])
    else
      match Apply(v, r, ops[0])
      case Blocked(t) => Blocked(t)
      case Returned(r1, t1) =>
        match Run(v, r1, ops[1..])
        case Blocked(t2) => Blocked(t1 + t2)
        case Returned(r2, t2) => ReplayAppend(r, t1, t2); Returned(r2, t1 + t2)
  }

  /** An empty session changes nothing; otherwise the session's accesses
      begin with those of its first call, and it returns only if that call
      does. */
  lemma RunFirst(v: Variant, r: RegFile, ops: seq<Op>)
    requires AllAvailable(v, ops)
    ensures |ops| == 0 ==> Run(v, r, ops) == Returned(r, [])
    ensures |ops| > 0 ==> Apply(v, r, ops[0]).trace <= Run(v, r, ops).trace
    ensures Run(v, r, ops).Returned? && |ops| > 0 ==> Apply(v, r, ops[0]).Returned?
  {
  }

  /** A session of one call is that call. */
  lemma RunSingle(v: Variant, r: RegFile, op: Op)
    requires Available(v, op)
    ensures Run(v, r, [op]) == Apply(v, r, op)
  {
  }

  /** A session of several calls makes the accesses of its first call and
      then those of the rest of the session, from the record the first call
      left. */
  lemma RunCons(v: Variant, r: RegFile, ops: seq<Op>)
    requires AllAvailable(v, ops)
    requires |ops| > 0
    ensures var first := Apply(v, r, ops[0]);
            first.Returned? ==>
              AllAvailable(v, ops[1..]) &&
              Run(v, r, ops).trace == first.trace + Run(v, first.regs, ops[1..]).trace &&
              Run(v, r, ops).Returned? == Run(v, first.regs, ops[1..]).Returned?
  {
  }

  /** The state a controller is in between calls: both started events are
      clear, and on family B the bypass bit is never set without the
      external bit, the one pair no crystal configuration produces. */
  predicate Settled(v: Variant, r: RegFile) {
    && r.eventsHfclkstarted == 0
    && r.eventsLfclkstarted == 0
    && (v == B ==> (r.lfclksrc.bypass ==> r.lfclksrc.external))
  }

  lemma ApplyKeepsSettled(v: Variant, r: RegFile, op: Op)
    requires Available(v, op)
    requires Settled(v, r)
    ensures Apply(v, r, op).Returned? ==> Settled(v, Apply(v, r, op).regs)
  {
  }

  /** Every call that returns leaves the controller settled again. */
  lemma {:induction false} RunKeepsSettled(v: Variant, r: RegFile, ops: seq<Op>)
    requires AllAvailable(v, ops)
    requires Settled(v, r)
    ensures Run(v, r, ops).Returned? ==> Settled(v, Run(v, r, ops).regs)
    decreases |ops|
  {
    if |ops| > 0 {
      ApplyKeepsSettled(v, r, ops[0]);
      var o := Apply(v, r, ops[0]);
      if o.Returned? {
        assert AllAvailable(v, ops[1..]) by {
          forall i | 0 <= i < |ops[1..]|
            ensures Available(v, ops[1..][i])
          {
            assert ops[1..][i] == ops[i + 1];
          }
        }
        RunKeepsSettled(v, o.regs, ops[1..]);
      }
    }
  }

  /** In a settled state the started event of either domain is clear. */
  lemma SettledEventClear(v: Variant, r: RegFile, d: Domain)
    requires Settled(v, r)
    ensures Get(r, StartedEvent(d)) == 0
  {
  }

  /** Whatever calls came before, a start in a settled session waits for the
      peripheral to raise its event. */
  lemma {:induction false} StartAfterSessionWaits(v: Variant, r: RegFile, ops: seq<Op>, d: Domain, raised: seq<bool>)
    requires AllAvailable(v, ops)
    requires Settled(v, r)
    requires Run(v, r, ops).Returned?
    ensures var r' := Run(v, r, ops).regs;
            Start(r', d, Sticky(Get(r', StartedEvent(d)), raised)).Returned?
            <==> exists j :: 0 <= j < |raised| && raised[j]
  {
    var r' := Run(v, r, ops).regs;
    RunKeepsSettled(v, r, ops);
    SettledEventClear(v, r', d);
    FreshStartWaitsForHardware(r', d, raised);
  }

  /** A source selection overwrites any earlier one: the LFCLKSRC contents
      after two selections are those of the second alone. On family B this
      is what makes an RC selection after a bypassed crystal clear both bits. */
  lemma SelectionLastWins(v: Variant, r: RegFile, x: Op, y: Op)
    requires IsSelection(x) && IsSelection(y)
    requires Available(v, x) && Available(v, y)
    ensures Apply(v, Apply(v, r, x).regs, y).regs == Apply(v, r, y).regs
  {
  }

  /** On family B an RC or synthesized selection clears bypass and external
      whatever was selected before; on family A it keeps them. */
  lemma SelectionAfterCrystal(v: Variant, r: RegFile, cfg: Option<LfOscConfiguration>, y: Op)
    requires ExternalArgFits(v, cfg)
    requires y == SelectRc || y == SelectSynth
    ensures var s := Apply(v, Apply(v, r, SelectExternal(cfg)).regs, y).regs.lfclksrc;
            && (v == B ==> !s.bypass && !s.external)
            && (v == A ==> s.bypass == r.lfclksrc.bypass && s.external == r.lfclksrc.external)
  {
  }
}
