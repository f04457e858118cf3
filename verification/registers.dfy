/**
  The CLOCK peripheral's register block, seen as a record of named fields.
  The driver never touches memory directly: every effect it has is one bus
  access (a write of a value to a field, or a read of a field), and the
  record after a run of accesses is obtained by replaying them in order.
 */
module Registers {

  /** The width of every task and event register. */
  newtype u32 = x: int | 0 <= x < 0x1_0000_0000

  /** The task and event registers the driver uses. */
  datatype Reg =
    | TasksHfclkstart
    | TasksHfclkstop
    | TasksLfclkstart
    | TasksLfclkstop
    | EventsHfclkstarted
    | EventsLfclkstarted

  /** The three-way source selector of the LFCLKSRC register. */
  datatype LfSrc = Rc | Xtal | Synth

  /** LFCLKSRC: the selector and the bypass / external-enable bits
      (`true` stands for the `Enabled` value of a bit). */
  datatype LfClkSrc = LfClkSrc(src: LfSrc, bypass: bool, external: bool)

  /** The last value held by each field of the register block. */
  datatype RegFile = RegFile(
    tasksHfclkstart: u32,
    tasksHfclkstop: u32,
    tasksLfclkstart: u32,
    tasksLfclkstop: u32,
    eventsHfclkstarted: u32,
    eventsLfclkstarted: u32,
    lfclksrc: LfClkSrc)

  function Get(r: RegFile, g: Reg): u32 {
    match g
    case TasksHfclkstart => r.tasksHfclkstart
    case TasksHfclkstop => r.tasksHfclkstop
    case TasksLfclkstart => r.tasksLfclkstart
    case TasksLfclkstop => r.tasksLfclkstop
    case EventsHfclkstarted => r.eventsHfclkstarted
    case EventsLfclkstarted => r.eventsLfclkstarted
  }

  /** The register block after `v` is written to field `g`: that field reads
      back `v`, every other field is as before. */
  function Set(r: RegFile, g: Reg, v: u32): (r': RegFile)
    ensures Get(r', g) == v
    ensures forall h :: h != g ==> Get(r', h) == Get(r, h)
    ensures r'.lfclksrc == r.lfclksrc
  {
    match g
    case TasksHfclkstart => r.(tasksHfclkstart := v)
    case TasksHfclkstop => r.(tasksHfclkstop := v)
    case TasksLfclkstart => r.(tasksLfclkstart := v)
    case TasksLfclkstop => r.(tasksLfclkstop := v)
    case EventsHfclkstarted => r.(eventsHfclkstarted := v)
    case EventsLfclkstarted => r.(eventsLfclkstarted := v)
  }

  /** Two records that agree on every field are the same record. */
  lemma Extensionality(r: RegFile, r': RegFile)
    requires forall g :: Get(r, g) == Get(r', g)
    requires r.lfclksrc == r'.lfclksrc
    ensures r == r'
  {
    assert Get(r, TasksHfclkstart) == Get(r', TasksHfclkstart);
    assert Get(r, TasksHfclkstop) == Get(r', TasksHfclkstop);
    assert Get(r, TasksLfclkstart) == Get(r', TasksLfclkstart);
    assert Get(r, TasksLfclkstop) == Get(r', TasksLfclkstop);
    assert Get(r, EventsHfclkstarted) == Get(r', EventsHfclkstarted);
    assert Get(r, EventsLfclkstarted) == Get(r', EventsLfclkstarted);
  }

  /** One access on the peripheral bus. A `Read` records the value the
      hardware presented in the field at that moment. */
  datatype Access =
    | Write(reg: Reg, value: u32)
    | Read(reg: Reg, value: u32)
    | WriteSrc(src: LfClkSrc)

  predicate Touches(a: Access, g: Reg) {
    !a.WriteSrc? && a.reg == g
  }

  /** The field contents once access `a` has happened. */
  function Effect(r: RegFile, a: Access): RegFile {
    match a
    case Write(g, v) => Set(r, g, v)
    case Read(g, v) => Set(r, g, v)
    case WriteSrc(s) => r.(lfclksrc := s)
  }

  /** The field contents once the accesses of `t` have happened in order. */
  function Replay(r: RegFile, t: seq<Access>): RegFile
    decreases |t|
  {
    if |t| == 0 then r else Replay(Effect(r, t[0]), t[1..])
  }

  lemma {:induction false} ReplayAppend(r: RegFile, a: seq<Access>, b: seq<Access>)
    ensures Replay(r, a + b) == Replay(Replay(r, a), b)
    decreases |a|
  {
    if |a| == 0 {
      assert a + b == b;
    } else {
      assert (a + b)[0] == a[0];
      assert (a + b)[1..] == a[1..] + b;
      ReplayAppend(Effect(r, a[0]), a[1..], b);
    }
  }

  /** Writing a field twice is the same as writing the second value once. */
  lemma SetTwice(r: RegFile, g: Reg, u: u32, v: u32)
    ensures Set(Set(r, g, u), g, v) == Set(r, g, v)
  {
  }

  /** The bus reads of `values` from field `g`, one per element. */
  function Polls(g: Reg, values: seq<u32>): (t: seq<Access>)
    ensures |t| == |values|
    ensures forall i :: 0 <= i < |t| ==> t[i] == Read(g, values[i])
  {
    seq(|values|, i requires 0 <= i < |values| => Read(g, values[i]))
  }

  /** After a run of reads of `g` the field holds the last value read. */
  lemma {:induction false} ReplayPolls(r: RegFile, g: Reg, values: seq<u32>)
    requires |values| > 0
    ensures Replay(r, Polls(g, values)) == Set(r, g, values[|values| - 1])
    decreases |values|
  {
    var t := Polls(g, values);
    assert t[0] == Read(g, values[0]);
    if |values| == 1 {
      assert t[1..] == [];
    } else {
      assert t[1..] == Polls(g, values[1..]);
      ReplayPolls(Set(r, g, values[0]), g, values[1..]);
      SetTwice(r, g, values[0], values[|values| - 1]);
    }
  }
}
