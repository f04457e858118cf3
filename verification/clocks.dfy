/**
  The `Clocks` controller: start and stop of the high- and low-frequency
  clocks, and selection of the low-frequency source, as state transformers
  over the register record. Each operation returns the bus accesses it makes
  and, when it returns at all, the register record afterwards.
 */
module Clocks {
  import opened Options
  import opened Registers

  /** Nominal rate of the high-frequency clock, in Hz. */
  const HfclkFreq: u32 := 64_000_000
  /** Nominal rate of the low-frequency clock, in Hz. */
  const LfclkFreq: u32 := 32_768

  function Pow2(n: nat): nat {
    if n == 0 then 1 else 2 * Pow2(n - 1)
  }

  /** Both rates fit the 32-bit constants they are declared as, and the
      low-frequency rate is the power of two a 15-bit prescaler divides down. */
  lemma FrequencyConstants()
    ensures HfclkFreq as int == 64 * 1000 * 1000
    ensures LfclkFreq as int == Pow2(15)
    ensures LfclkFreq < HfclkFreq
  {
    assert Pow2(3) == 8;
    assert Pow2(6) == 64;
    assert Pow2(9) == 512;
    assert Pow2(12) == 4096;
  }

  /** The hardware family the driver is built for, fixed at build time.
      A: the LFCLKSRC register has the source selector only;
      B: it also has explicit bypass and external-enable bits;
      C: feature `9160` (the `CLOCK_NS` block), with no source-selection methods. */
  datatype Variant = A | B | C

  /** Source-selection operations exist on families A and B only. */
  predicate HasSrcSelection(v: Variant) {
    v != C
  }

  /** How the external 32 kHz crystal is driven. */
  datatype LfOscConfiguration =
    | NoExternalNoBypass
    | ExternalNoBypass
    | ExternalAndBypass

  /** The (external, bypass) bit pair written for a crystal configuration. */
  function ExtByp(cfg: LfOscConfiguration): (p: (bool, bool))
    ensures p.1 ==> p.0
  {
    match cfg
    case NoExternalNoBypass => (false, false)
    case ExternalNoBypass => (true, false)
    case ExternalAndBypass => (true, true)
  }

  /** The crystal configuration an (external, bypass) pair stands for, if any. */
  function ConfigOf(ext: bool, byp: bool): (c: Option<LfOscConfiguration>)
    ensures c.None? <==> byp && !ext
  {
    if !ext && !byp then Some(NoExternalNoBypass)
    else if ext && !byp then Some(ExternalNoBypass)
    else if ext && byp then Some(ExternalAndBypass)
    else None
  }

  /** `ConfigOf` inverts `ExtByp`: the bit pair determines the configuration,
      so distinct configurations give distinct pairs. */
  lemma ExtBypRoundTrip(cfg: LfOscConfiguration)
    ensures ConfigOf(ExtByp(cfg).0, ExtByp(cfg).1) == Some(cfg)
  {
  }

  /** `ExtByp` inverts `ConfigOf` on every pair it accepts: the pairs produced
      are exactly those with bypass implying external. */
  lemma ConfigOfRoundTrip(ext: bool, byp: bool)
    ensures ConfigOf(ext, byp).Some? ==> ExtByp(ConfigOf(ext, byp).value) == (ext, byp)
    ensures (exists cfg :: ExtByp(cfg) == (ext, byp)) <==> (byp ==> ext)
  {
  }

  lemma ExtBypInjective(c1: LfOscConfiguration, c2: LfOscConfiguration)
    ensures ExtByp(c1) == ExtByp(c2) <==> c1 == c2
  {
  }

  /** The two clock domains, each with a start task, a started event and a
      stop task. */
  datatype Domain = Hf | Lf

  function StartTask(d: Domain): Reg {
    match d
    case Hf => TasksHfclkstart
    case Lf => TasksLfclkstart
  }

  function StartedEvent(d: Domain): Reg {
    match d
    case Hf => EventsHfclkstarted
    case Lf => EventsLfclkstarted
  }

  function StopTask(d: Domain): Reg {
    match d
    case Hf => TasksHfclkstop
    case Lf => TasksLfclkstop
  }

  /** What a call did: either it returned, with the register record after the
      call, or it is still spinning after the accesses made so far. */
  datatype Outcome =
    | Returned(regs: RegFile, trace: seq<Access>)
    | Blocked(trace: seq<Access>)

  /** The busy-wait on an event: `samples` are the values the event field
      presents at successive polls; the wait ends at the first poll that reads
      exactly 1, and never ends if no supplied poll does. */
  function BusyWait(samples: seq<u32>): (k: Option<nat>)
    ensures k.Some? ==> k.value < |samples| && samples[k.value] == 1
    ensures k.Some? ==> forall j :: 0 <= j < k.value ==> samples[j] != 1
    ensures k.None? ==> forall j :: 0 <= j < |samples| ==> samples[j] != 1
    decreases |samples|
  {
    if |samples| == 0 then None
    else if samples[0] == 1 then Some(0)
    else
      match BusyWait(samples[1..])
      case None => None
      case Some(k) => Some(k + 1)
  }

  /** The start handshake of a domain: write 1 to the start task, poll the
      started event until it reads 1, then write 0 to the event. */
  function Start(r: RegFile, d: Domain, samples: seq<u32>): (o: Outcome)
    // it returns exactly when some poll sees the event set
    ensures o.Returned? <==> exists k :: 0 <= k < |samples| && samples[k] == 1
    // the task is triggered once, first, and never again
    ensures |o.trace| >= 1 && o.trace[0] == Write(StartTask(d), 1)
    ensures forall i :: 1 <= i < |o.trace| ==> Touches(o.trace[i], StartedEvent(d))
    // every poll before the last one saw something other than 1
    ensures |o.trace| <= |samples| + 2
    ensures forall i :: 1 <= i < |o.trace| && o.trace[i].Read? ==> i <= |samples| && o.trace[i] == Read(StartedEvent(d), samples[i - 1])
    ensures o.Blocked? ==> |o.trace| == |samples| + 1
    ensures o.Blocked? ==> forall i :: 1 <= i < |o.trace| ==> o.trace[i].Read? && o.trace[i].value != 1
    ensures o.Returned? ==>
              && |o.trace| >= 3
              && o.trace[|o.trace| - 2] == Read(StartedEvent(d), 1)
              && o.trace[|o.trace| - 1] == Write(StartedEvent(d), 0)
              && (forall i :: 1 <= i < |o.trace| - 1 ==> o.trace[i].Read?)
              && (forall i :: 1 <= i < |o.trace| - 2 ==> o.trace[i].value != 1)
    // on return the event is cleared and nothing but the pair has changed
    ensures o.Returned? ==>
              && Get(o.regs, StartedEvent(d)) == 0
              && Get(o.regs, StartTask(d)) == 1
              && (forall g :: g != StartTask(d) && g != StartedEvent(d) ==> Get(o.regs, g) == Get(r, g))
              && o.regs.lfclksrc == r.lfclksrc
  {
    var task := StartTask(d);
    var event := StartedEvent(d);
    match BusyWait(samples)
    case None =>
      Blocked([Write(task, 1)] + Polls(event, samples))
    case Some(k) =>
      Returned(Set(Set(r, task, 1), event, 0), [Write(task, 1)] + Polls(event, samples[..k + 1]) + [Write(event, 0)])
  }

  /** The register record on return of a start is what its bus accesses
      produce. */
  lemma StartReplays(r: RegFile, d: Domain, samples: seq<u32>)
    ensures Start(r, d, samples).Returned? ==> Replay(r, Start(r, d, samples).trace) == Start(r, d, samples).regs
  {
    match BusyWait(samples)
    case None =>
    case Some(k) =>
      var task := StartTask(d);
      var event := StartedEvent(d);
      var polls := samples[..k + 1];
      var r1 := Set(r, task, 1);
      ReplayAppend(r, [Write(task, 1)] + Polls(event, polls), [Write(event, 0)]);
      ReplayAppend(r, [Write(task, 1)], Polls(event, polls));
      assert Replay(r, [Write(task, 1)]) == r1 by {
        assert [Write(task, 1)][1..] == [];
      }
      ReplayPolls(r1, event, polls);
      SetTwice(r1, event, 1, 0);
      assert Replay(Set(r1, event, 1), [Write(event, 0)]) == Set(Set(r1, event, 1), event, 0) by {
        assert [Write(event, 0)][1..] == [];
      }
  }

  /** The stop of a domain: a single write of 1 to its stop task. */
  function Stop(r: RegFile, d: Domain): (o: Outcome)
    ensures o.Returned?
    ensures |o.trace| == 1 && o.trace[0] == Write(StopTask(d), 1)
    ensures Get(o.regs, StopTask(d)) == 1
    ensures forall g :: g != StopTask(d) ==> Get(o.regs, g) == Get(r, g)
    ensures o.regs.lfclksrc == r.lfclksrc
    ensures o.regs == Replay(r, o.trace)
  {
    var t := [Write(StopTask(d), 1)];
    assert t[1..] == [];
    Returned(Set(r, StopTask(d), 1), t)
  }

  /** Use an external oscillator as the high-frequency clock source. */
  function EnableExtHfosc(r: RegFile, samples: seq<u32>): (o: Outcome)
    ensures o.Returned? <==> exists k :: 0 <= k < |samples| && samples[k] == 1
    ensures |o.trace| >= 1 && o.trace[0] == Write(TasksHfclkstart, 1)
    ensures o.Returned? ==> o.regs == r.(tasksHfclkstart := 1, eventsHfclkstarted := 0)
  {
    var o := Start(r, Hf, samples);
    if o.Returned? then
      Extensionality(o.regs, r.(tasksHfclkstart := 1, eventsHfclkstarted := 0));
      o
    else o
  }

  /** Use the internal oscillator as the high-frequency clock source. */
  function DisableExtHfosc(r: RegFile): (o: Outcome)
    ensures o.Returned? && o.trace == [Write(TasksHfclkstop, 1)]
    ensures o.regs == r.(tasksHfclkstop := 1)
  {
    var o := Stop(r, Hf);
    Extensionality(o.regs, r.(tasksHfclkstop := 1));
    o
  }

  /** Start the low-frequency clock, from whatever source LFCLKSRC selects. */
  function StartLfclk(r: RegFile, samples: seq<u32>): (o: Outcome)
    ensures o.Returned? <==> exists k :: 0 <= k < |samples| && samples[k] == 1
    ensures |o.trace| >= 1 && o.trace[0] == Write(TasksLfclkstart, 1)
    ensures o.Returned? ==> o.regs == r.(tasksLfclkstart := 1, eventsLfclkstarted := 0)
  {
    var o := Start(r, Lf, samples);
    if o.Returned? then
      Extensionality(o.regs, r.(tasksLfclkstart := 1, eventsLfclkstarted := 0));
      o
    else o
  }

  /** Stop the low-frequency clock. */
  function StopLfclk(r: RegFile): (o: Outcome)
    ensures o.Returned? && o.trace == [Write(TasksLfclkstop, 1)]
    ensures o.regs == r.(tasksLfclkstop := 1)
  {
    var o := Stop(r, Lf);
    Extensionality(o.regs, r.(tasksLfclkstop := 1));
    o
  }

  /** A single write of `s` to LFCLKSRC. */
  function WriteLfClkSrc(r: RegFile, s: LfClkSrc): (o: Outcome)
    ensures o.Returned? && o.trace == [WriteSrc(s)]
    ensures o.regs == r.(lfclksrc := s)
    ensures o.regs == Replay(r, o.trace)
  {
    assert [WriteSrc(s)][1..] == [];
    Returned(r.(lfclksrc := s), [WriteSrc(s)])
  }

  /** The LFCLKSRC contents a selection writes. Family A has the selector
      only, so the other two fields keep whatever they held; family B writes
      all three. */
  function Selected(v: Variant, prev: LfClkSrc, src: LfSrc, ext: bool, byp: bool): LfClkSrc {
    if v == A then prev.(src := src) else LfClkSrc(src, byp, ext)
  }

  /** Use the internal RC oscillator as the low-frequency source. */
  function SetLfclkSrcRc(v: Variant, r: RegFile): (o: Outcome)
    requires HasSrcSelection(v)
    ensures o.Returned? && o.trace == [WriteSrc(o.regs.lfclksrc)]
    ensures o.regs.lfclksrc.src == Rc
    ensures v == B ==> !o.regs.lfclksrc.bypass && !o.regs.lfclksrc.external
    ensures v == A ==> o.regs.lfclksrc.bypass == r.lfclksrc.bypass && o.regs.lfclksrc.external == r.lfclksrc.external
    ensures o.regs == r.(lfclksrc := o.regs.lfclksrc)
  {
    WriteLfClkSrc(r, Selected(v, r.lfclksrc, Rc, false, false))
  }

  /** Derive the low-frequency clock from the high-frequency clock. */
  function SetLfclkSrcSynth(v: Variant, r: RegFile): (o: Outcome)
    requires HasSrcSelection(v)
    ensures o.Returned? && o.trace == [WriteSrc(o.regs.lfclksrc)]
    ensures o.regs.lfclksrc.src == Synth
    ensures v == B ==> !o.regs.lfclksrc.bypass && !o.regs.lfclksrc.external
    ensures v == A ==> o.regs.lfclksrc.bypass == r.lfclksrc.bypass && o.regs.lfclksrc.external == r.lfclksrc.external
    ensures o.regs == r.(lfclksrc := o.regs.lfclksrc)
  {
    WriteLfClkSrc(r, Selected(v, r.lfclksrc, Synth, false, false))
  }

  /** The argument list of the external-crystal selection on each family:
      none on A, a crystal configuration on B. */
  predicate ExternalArgFits(v: Variant, cfg: Option<LfOscConfiguration>) {
    (v == A && cfg.None?) || (v == B && cfg.Some?)
  }

  /** Drive the low-frequency clock from an external crystal. */
  function SetLfclkSrcExternal(v: Variant, r: RegFile, cfg: Option<LfOscConfiguration>): (o: Outcome)
    requires ExternalArgFits(v, cfg)
    ensures o.Returned? && o.trace == [WriteSrc(o.regs.lfclksrc)]
    ensures o.regs.lfclksrc.src == Xtal
    ensures v == B ==> ConfigOf(o.regs.lfclksrc.external, o.regs.lfclksrc.bypass) == cfg
    ensures v == A ==> o.regs.lfclksrc.bypass == r.lfclksrc.bypass && o.regs.lfclksrc.external == r.lfclksrc.external
    ensures o.regs == r.(lfclksrc := o.regs.lfclksrc)
  {
    var (ext, byp) := if cfg.Some? then ExtByp(cfg.value) else (false, false);
    WriteLfClkSrc(r, Selected(v, r.lfclksrc, Xtal, ext, byp))
  }

  /** Stopping twice leaves the register record as stopping once: a stop
      writes a constant to its task and nothing else. */
  lemma StopIdempotent(r: RegFile)
    ensures DisableExtHfosc(DisableExtHfosc(r).regs).regs == DisableExtHfosc(r).regs
    ensures StopLfclk(StopLfclk(r).regs).regs == StopLfclk(r).regs
  {
  }

  /** The low-frequency start handshake does not depend on the selected
      source: the same polls give the same accesses whatever LFCLKSRC holds,
      and LFCLKSRC is carried through unchanged. */
  lemma StartLfclkIgnoresSource(r: RegFile, s: LfClkSrc, samples: seq<u32>)
    ensures StartLfclk(r.(lfclksrc := s), samples).trace == StartLfclk(r, samples).trace
    ensures StartLfclk(r, samples).Returned? ==>
              StartLfclk(r.(lfclksrc := s), samples).regs == StartLfclk(r, samples).regs.(lfclksrc := s)
  {
  }
}
