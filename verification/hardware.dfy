/**
  A model of how an event field behaves on the hardware side: it keeps its
  value until the peripheral raises it, and once raised it reads 1 until
  software writes it back. Fed into the start handshake, it shows why the
  handshake must clear the event before returning.
 */
module Hardware {
  import opened Registers
  import opened Clocks

  /** The values an event field presents at successive polls when it holds
      `cur` and the peripheral raises it at every poll `k` with `raised[k]`. */
  function Sticky(cur: u32, raised: seq<bool>): (vals: seq<u32>)
    ensures |vals| == |raised|
    decreases |raised|
  {
    if |raised| == 0 then []
    else
      var c := if raised[0] then 1 else cur;
      [c] + Sticky(c, raised[1..])
  }

  /** Poll `k` reads 1 exactly when the field already held 1 or the
      peripheral raised it at or before that poll. */
  lemma {:induction false} StickyValue(cur: u32, raised: seq<bool>, k: nat)
    requires k < |raised|
    ensures Sticky(cur, raised)[k] == 1 <==> cur == 1 || exists j :: 0 <= j <= k && raised[j]
    decreases k
  {
    var c: u32 := if raised[0] then 1 else cur;
    assert Sticky(cur, raised)[0] == c;
    if k > 0 {
      var rest := raised[1..];
      assert Sticky(cur, raised)[k] == Sticky(c, rest)[k - 1];
      StickyValue(c, rest, k - 1);
      if exists j :: 0 <= j <= k - 1 && rest[j] {
        var j :| 0 <= j <= k - 1 && rest[j];
        assert raised[j + 1];
      }
      if exists j :: 0 <= j <= k && raised[j] {
        var j :| 0 <= j <= k && raised[j];
        if j > 0 {
          assert rest[j - 1];
        }
      }
    }
  }

  /** Some poll of a sticky field reads 1 exactly when the field held 1 or
      the peripheral raised it at some poll. */
  lemma {:induction false} SomePollSeesEvent(cur: u32, raised: seq<bool>)
    ensures (exists k :: 0 <= k < |raised| && Sticky(cur, raised)[k] == 1)
            <==> (|raised| > 0 && cur == 1) || exists j :: 0 <= j < |raised| && raised[j]
  {
    var vals := Sticky(cur, raised);
    if exists k :: 0 <= k < |raised| && vals[k] == 1 {
      var k :| 0 <= k < |raised| && vals[k] == 1;
      StickyValue(cur, raised, k);
    }
    if exists j :: 0 <= j < |raised| && raised[j] {
      var j :| 0 <= j < |raised| && raised[j];
      StickyValue(cur, raised, j);
    }
    if |raised| > 0 && cur == 1 {
      StickyValue(cur, raised, 0);
    }
  }

  /** With the started event cleared, a start returns exactly when the
      peripheral raises the event: it cannot return on a left-over flag. */
  lemma {:induction false} FreshStartWaitsForHardware(r: RegFile, d: Domain, raised: seq<bool>)
    requires Get(r, StartedEvent(d)) == 0
    ensures Start(r, d, Sticky(Get(r, StartedEvent(d)), raised)).Returned?
            <==> exists j :: 0 <= j < |raised| && raised[j]
  {
    SomePollSeesEvent(0, raised);
  }

  /** With the started event left at 1, a start returns after a single poll
      whatever the peripheral does, even if it never starts the clock. */
  lemma StaleFlagReturnsAtOnce(r: RegFile, d: Domain, raised: seq<bool>)
    requires Get(r, StartedEvent(d)) == 1
    requires |raised| > 0
    ensures Start(r, d, Sticky(Get(r, StartedEvent(d)), raised)).Returned?
    ensures |Start(r, d, Sticky(Get(r, StartedEvent(d)), raised)).trace| == 3
  {
  }

  /** Two high-frequency starts in a row: the first one clears the event, so
      the second waits for the peripheral instead of returning at once. */
  lemma {:induction false} SecondEnableWaits(r: RegFile, samples: seq<u32>, raised: seq<bool>)
    requires EnableExtHfosc(r, samples).Returned?
    ensures var r1 := EnableExtHfosc(r, samples).regs;
            EnableExtHfosc(r1, Sticky(r1.eventsHfclkstarted, raised)).Returned?
            <==> exists j :: 0 <= j < |raised| && raised[j]
  {
    var r1 := EnableExtHfosc(r, samples).regs;
    FreshStartWaitsForHardware(r1, Hf, raised);
  }
}
