# nrf-hal `Clocks`: a Dafny model of the CLOCK peripheral driver

The `Clocks` controller of `nrf-hal-common` starts and stops the
high-frequency (HF) and low-frequency (LF) clocks of an nRF microcontroller.
It also selects the LF clock's source. It does this through a small protocol
on the CLOCK peripheral's registers:

- A start writes 1 to a start task.
- It then busy-waits until the matching "started" event reads 1.
- It then writes 0 to the event to clear it.
- A stop writes 1 to a stop task and returns.
- A source selection writes the LFCLKSRC register. Its layout depends on the
  chip family the crate is built for.

The model treats the register block as an immutable record (`Registers.RegFile`).
It records every bus access an operation makes (`Registers.Access`). Every
public method of `Clocks` is a pure function from a record to an `Outcome`:

- `Returned(regs, trace)` when the call returns;
- `Blocked(trace)` when the polls the hardware supplied never read 1, so
  the call would still be spinning.

The busy-wait reads come from the environment as a sequence `samples` of
32-bit values, one per poll. `Hardware.Sticky` is a separate model of an
event field that the peripheral raises and that stays 1 until software
clears it. Feeding it into the handshake shows why the clear matters: with
a cleared flag a start returns exactly when the peripheral raised the event;
with a stale flag it returns after one poll even if the clock never started.

The build-time hardware family is `Clocks.Variant`:

- `A`: feature `51`. LFCLKSRC has the source selector only.
- `B`: neither `51` nor `9160`. LFCLKSRC adds explicit bypass and
  external-enable bits.
- `C`: feature `9160`. There are no source-selection methods.

A method that exists only on some families carries a precondition naming
them (`HasSrcSelection`, `ExternalArgFits`). `Driver` strings calls into a
session and proves the invariant every returning call restores.

Files: `options.dfy` (Option), `registers.dfy` (register record, bus
accesses, replay), `clocks.dfy` (the controller), `hardware.dfy` (sticky
event model), `driver.dfy` (sessions of calls).

## Model

| member | source | states |
|---|---|---|
| Clocks.FrequencyConstants | nrf-hal-common/src/clocks.rs:9-12 | HFCLK_FREQ is 64 MHz and LFCLK_FREQ is 32 768 Hz = 2^15; both fit their u32 type and LF is below HF |
| Clocks.ExtByp | nrf-hal-common/src/clocks.rs:108-112 | the bit pair written for a crystal configuration never has bypass without external |
| Clocks.ConfigOf | nrf-hal-common/src/clocks.rs:108-112 | the inverse reading of an (external, bypass) pair; it is undefined exactly for bypass without external |
| Clocks.ExtBypRoundTrip | nrf-hal-common/src/clocks.rs:108-112 | reading back the pair written for any configuration gives that configuration |
| Clocks.ConfigOfRoundTrip | nrf-hal-common/src/clocks.rs:108-112 | every accepted pair is produced by its configuration; the producible pairs are exactly those with bypass implying external |
| Clocks.ExtBypInjective | nrf-hal-common/src/clocks.rs:108-112 | two configurations give the same bit pair if and only if they are equal |
| Clocks.BusyWait | nrf-hal-common/src/clocks.rs:39 | the wait ends at the first poll reading exactly 1; every earlier poll read something else; without such a poll it never ends |
| Clocks.Start | nrf-hal-common/src/clocks.rs:35-43 | the start task is written 1 once, first; then only event polls follow, then the clear; it returns iff some poll reads 1; on return the event is 0, the task is 1, and every other field and LFCLKSRC are unchanged |
| Clocks.StartReplays | nrf-hal-common/src/clocks.rs:35-43 | the register record a start returns is exactly the effect of the bus accesses it made |
| Clocks.EnableExtHfosc | nrf-hal-common/src/clocks.rs:35-43 | returns iff a poll of the HF started event reads 1; on return only tasks_hfclkstart (1) and events_hfclkstarted (0) differ from before |
| Clocks.StartLfclk | nrf-hal-common/src/clocks.rs:51-60 | returns iff a poll of the LF started event reads 1; on return only tasks_lfclkstart (1) and events_lfclkstarted (0) differ; the HF fields and LFCLKSRC are kept |
| Clocks.StartLfclkIgnoresSource | nrf-hal-common/src/clocks.rs:51-60 | the LF start makes the same accesses whatever LFCLKSRC holds, and carries LFCLKSRC through unchanged |
| Clocks.Stop | nrf-hal-common/src/clocks.rs:46-48 | a stop always returns after one access, a write of 1 to the stop task; every other field is unchanged |
| Clocks.DisableExtHfosc | nrf-hal-common/src/clocks.rs:46-48 | one write of 1 to tasks_hfclkstop; no event field and no LFCLKSRC access; always returns |
| Clocks.StopLfclk | nrf-hal-common/src/clocks.rs:64-66 | one write of 1 to tasks_lfclkstop; no event field and no LFCLKSRC access; always returns |
| Clocks.StopIdempotent | nrf-hal-common/src/clocks.rs:46-66 | stopping a clock twice leaves the same register record as stopping it once |
| Clocks.SetLfclkSrcRc | nrf-hal-common/src/clocks.rs:69-92 | only on families A and B; writes LFCLKSRC once with src Rc; on B bypass and external become disabled; on A they are kept; no task or event field changes |
| Clocks.SetLfclkSrcSynth | nrf-hal-common/src/clocks.rs:75-100 | only on families A and B; writes LFCLKSRC once with src Synth; on B bypass and external become disabled; on A they are kept |
| Clocks.SetLfclkSrcExternal | nrf-hal-common/src/clocks.rs:81-116 | takes no configuration on A and one on B; src becomes Xtal; on B the written pair reads back as the given configuration; on A bypass and external are kept |
| Hardware.FreshStartWaitsForHardware | nrf-hal-common/src/clocks.rs:35-60 | with the started event cleared, a start returns exactly when the peripheral raises the event at some poll |
| Hardware.StaleFlagReturnsAtOnce | nrf-hal-common/src/clocks.rs:39-42 | with the started event left at 1, a start returns after a single poll whatever the peripheral does |
| Hardware.SecondEnableWaits | nrf-hal-common/src/clocks.rs:35-43 | after one HF start returns, the next HF start waits for the peripheral instead of returning on the old flag |
| Driver.Apply | nrf-hal-common/src/clocks.rs:35-116 | every call's register record on return is the effect of its accesses; only a source selection changes LFCLKSRC, and it changes nothing else |
| Driver.Run | nrf-hal-common/src/clocks.rs:35-116 | a session's register record on return is the effect of all the accesses it made |
| Driver.RunFirst | nrf-hal-common/src/clocks.rs:35-116 | an empty session changes nothing; otherwise a session's accesses begin with its first call's, and it returns only if its first call does |
| Driver.RunSingle | nrf-hal-common/src/clocks.rs:35-116 | a session of one call is exactly that call |
| Driver.RunCons | nrf-hal-common/src/clocks.rs:35-116 | when the first call returns, the session's accesses are that call's followed by the rest of the session's, run from the record it left, and the session returns iff the rest does |
| Driver.ApplyKeepsSettled | nrf-hal-common/src/clocks.rs:35-116 | every call that returns keeps both started events clear and, on B, bypass implying external |
| Driver.RunKeepsSettled | nrf-hal-common/src/clocks.rs:35-116 | the same invariant holds after any returning session of calls |
| Driver.StartAfterSessionWaits | nrf-hal-common/src/clocks.rs:35-60 | after any returning session from a settled state, a start waits for the peripheral to raise its event |
| Driver.SelectionLastWins | nrf-hal-common/src/clocks.rs:69-116 | on A and B, a source selection overwrites any earlier one: the record after two selections is that of the second alone |
| Driver.SelectionAfterCrystal | nrf-hal-common/src/clocks.rs:87-116 | on B, an RC or synthesized selection after any crystal selection leaves bypass and external disabled; on A it keeps them |

## Left out

- Memory-mapped I/O: each `write(|w| unsafe { w.bits(..) })` and each `read().bits()` is one `Access` on the abstract record.
- The register `write` closure's reset-value semantics: a write sets exactly the fields the method names. On family A, LFCLKSRC has no bypass or external bits. The record still has them, and family-A selections leave them as they were.
- Family A's register encoding of the crystal posture is not modelled. The code writes only the selector there.
- The `CLOCK_NS` / `CLOCK` import alias of feature `9160` (clocks.rs:3-7). It only means family C exists, where `HasSrcSelection` is false.
- `Clocks::new` and ownership of the peripheral handle (clocks.rs:28-32). There is no logic in them, and exclusivity is a type-system matter.
- Timing. The datasheet latencies in comments are not modelled, and there is no timeout. Non-termination appears as `Blocked` when the supplied polls never read 1.
- The electrical behaviour of the clocks. Only register fields are observable.
- The sticky event model in hardware.dfy is a model of the peripheral, not driver code. It assumes a raised event reads 1 until software writes it, and software writes it only after the poll loop ends.
