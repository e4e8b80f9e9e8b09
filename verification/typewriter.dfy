/** The typing effect: after a start delay, the component shows longer and
    longer prefixes of its text, one more character after each wait.

    Time is counted in integer ticks of one millisecond. The component's
    `delay` and `speed` props are seconds that it multiplies by 1000 before
    handing them to `setTimeout`; here they are taken already in ticks, so the
    default `speed` of 0.05 s is 50 ticks and the default `delay` is 0. */
module TypeWriter {

  /** One call of `setDisplayText`: the tick it happens at and the text it
      shows. */
  datatype Emission = Emission(at: nat, shown: string)

  /** The default props, in ticks. */
  const DefaultDelay: nat := 0
  const DefaultSpeed: nat := 50

  /** The reference schedule: emission `i` shows the first `i` characters and
      happens `i` waits after the start delay. */
  function Schedule(text: string, delay: nat, speed: nat): seq<Emission> {
    seq(|text| + 1, i requires 0 <= i <= |text| => Emission(delay + i * speed, text[..i]))
  }

  /** The `typeText` loop: wait `delay`, then for `i` from 0 up to and
      including `|text|`, show `text.slice(0, i)` and wait `speed`. It returns
      the emissions in order and the tick at which its last wait ends; a wait
      follows the final emission too. */
  method TypeText(text: string, delay: nat, speed: nat) returns (emits: seq<Emission>, finish: nat)
    ensures |emits| == |text| + 1
    ensures forall i :: 0 <= i < |emits| ==> emits[i].shown == text[..i]
    ensures forall i :: 0 <= i < |emits| ==> emits[i].at == delay + i * speed
    ensures finish == delay + (|text| + 1) * speed
    ensures emits == Schedule(text, delay, speed)
  {
    var now := delay;
    emits := [];
    var i := 0;
    while i <= |text|
      invariant 0 <= i <= |text| + 1
      invariant |emits| == i
      invariant now == delay + i * speed
      invariant forall j :: 0 <= j < i ==> emits[j] == Emission(delay + j * speed, text[..j])
    {
      emits := emits + [Emission(now, text[..i])];
      now := now + speed;
      i := i + 1;
    }
    finish := now;
  }

  /** The emitted texts start empty, end with the whole text, and each one is
      the previous one with the next character of the text appended: no skips
      and no repeats. For the empty text the only emission is "". */
  lemma ScheduleGrowsByOne(text: string, delay: nat, speed: nat)
    ensures var es := Schedule(text, delay, speed);
      && es[0].shown == ""
      && es[|es| - 1].shown == text
      && (text == "" ==> |es| == 1)
      && forall i :: 0 <= i < |es| - 1 ==> es[i + 1].shown == es[i].shown + [text[i]]
  {
    var es := Schedule(text, delay, speed);
    assert es[|es| - 1].shown == text[..|text|];
    forall i | 0 <= i < |es| - 1
      ensures es[i + 1].shown == es[i].shown + [text[i]]
    {
      assert text[..i + 1] == text[..i] + [text[i]];
    }
  }

  /** Every emitted text is a prefix of the text, as long as its position in
      the sequence, hence never longer than the text; each is a prefix of the
      next. */
  lemma SchedulePrefixes(text: string, delay: nat, speed: nat)
    ensures var es := Schedule(text, delay, speed);
      && (forall i :: 0 <= i < |es| ==> |es[i].shown| == i <= |text| && es[i].shown <= text)
      && (forall i :: 0 <= i < |es| - 1 ==> es[i].shown < es[i + 1].shown)
  {
  }

  /** With the default props (no start delay, 0.05 s per character) the
      emission showing `i` characters comes at `50 * i` ms and the loop ends
      `50` ms after the whole text is shown. */
  lemma DefaultSchedule(text: string)
    ensures var es := Schedule(text, DefaultDelay, DefaultSpeed);
      && |es| == |text| + 1
      && forall i :: 0 <= i < |es| ==> es[i].at == 50 * i && es[i].shown == text[..i]
  {
  }

  /** The first emission comes when the start delay ends, and consecutive
      emissions are `speed` ticks apart; times never go down, and go strictly
      up when `speed` is positive. */
  lemma ScheduleTimes(text: string, delay: nat, speed: nat)
    ensures var es := Schedule(text, delay, speed);
      && es[0].at == delay
      && (forall i :: 0 <= i < |es| - 1 ==> es[i + 1].at == es[i].at + speed)
      && (forall i, j :: 0 <= i <= j < |es| ==> es[i].at <= es[j].at)
      && (speed > 0 ==> forall i, j :: 0 <= i < j < |es| ==> es[i].at < es[j].at)
  {
    var es := Schedule(text, delay, speed);
    forall i, j | 0 <= i <= j < |es|
      ensures es[i].at <= es[j].at
      ensures speed > 0 && i < j ==> es[i].at < es[j].at
    {
      MulMonotone(i, j, speed);
    }
  }

  /** `i * s` grows with `i`, strictly when `s` is positive. */
  lemma MulMonotone(i: nat, j: nat, s: nat)
    requires i <= j
    ensures i * s <= j * s
    ensures s > 0 && i < j ==> i * s < j * s
  {
    assert j * s == i * s + (j - i) * s;
  }

  /** `displayText` at tick `t`: starting from `cur`, each emission at or
      before `t` replaces the shown text, in order. */
  function Replay(es: seq<Emission>, t: nat, cur: string): string
    decreases |es|
  {
    if es == [] then cur
    else Replay(es[1..], t, if es[0].at <= t then es[0].shown else cur)
  }

  /** The text on screen at tick `t`; `useState("")` makes it empty before the
      first emission. */
  function Displayed(text: string, delay: nat, speed: nat, t: nat): string {
    Replay(Schedule(text, delay, speed), t, "")
  }

  /** When exactly the first `k` emissions have happened by tick `t`, the
      replay shows the `k`-th of them, or the starting text if `k` is 0. */
  lemma {:induction false} ReplayUpTo(es: seq<Emission>, t: nat, cur: string, k: nat)
    requires k <= |es|
    requires forall i :: 0 <= i < k ==> es[i].at <= t
    requires forall i :: k <= i < |es| ==> es[i].at > t
    ensures Replay(es, t, cur) == if k == 0 then cur else es[k - 1].shown
    decreases |es|
  {
    if es != [] {
      if k == 0 {
        ReplayUpTo(es[1..], t, cur, 0);
      } else {
        ReplayUpTo(es[1..], t, es[0].shown, k - 1);
      }
    }
  }

  /** Before the start delay ends the component shows "". */
  lemma DisplayedBeforeStart(text: string, delay: nat, speed: nat, t: nat)
    requires t < delay
    ensures Displayed(text, delay, speed, t) == ""
  {
    ReplayUpTo(Schedule(text, delay, speed), t, "", 0);
  }

  /** Between emission `i` and the next one it shows the first `i`
      characters. */
  lemma DisplayedBetween(text: string, delay: nat, speed: nat, t: nat, i: nat)
    requires i <= |text|
    requires delay + i * speed <= t < delay + (i + 1) * speed
    ensures Displayed(text, delay, speed, t) == text[..i]
  {
    var es := Schedule(text, delay, speed);
    forall j | 0 <= j < i + 1
      ensures es[j].at <= t
    {
      MulMonotone(j, i, speed);
    }
    forall j | i + 1 <= j < |es|
      ensures es[j].at > t
    {
      MulMonotone(i + 1, j, speed);
    }
    ReplayUpTo(es, t, "", i + 1);
  }

  /** From the last emission on it shows the whole text. */
  lemma DisplayedAfterEnd(text: string, delay: nat, speed: nat, t: nat)
    requires t >= delay + |text| * speed
    ensures Displayed(text, delay, speed, t) == text
  {
    var es := Schedule(text, delay, speed);
    forall j | 0 <= j < |es|
      ensures es[j].at <= t
    {
      MulMonotone(j, |text|, speed);
    }
    ReplayUpTo(es, t, "", |es|);
  }
}
