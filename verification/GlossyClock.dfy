/** Reference time of a node that is not the sink: skew estimation, dead
    reckoning over missed floods and the wake-up before the next flood
    (contiki/apps/adaptive-mac/glossy_interface.h), set with the long timer of
    contiki/core/sys/rtimer.c. Times are ticks of a 16-bit counter; the lemmas
    compare them with the unbounded time they stand for. */
module GlossyClock {
  import opened Bytes

  type int16 = x: int | -0x8000 <= x < 0x8000

  const WORD: nat := 0x1_0000
  const LONG: nat := 0x1_0000_0000
  const SECOND: nat := 32768
  const PERIOD: nat := SECOND * 60
  const DURATION: nat := SECOND / 150
  const GUARD: nat := SECOND / 1900
  const INIT_GUARD: nat := SECOND / 20
  const INIT_DURATION: nat := DURATION - GUARD + INIT_GUARD
  const INIT_PERIOD: nat := INIT_DURATION + SECOND / 100
  const BOOTSTRAP_PERIODS: nat := 3

  /** A 16-bit word read as a signed int. */
  function Signed(x: u16): int16 {
    if x < 0x8000 then x else x - WORD
  }

  /** What a round's flood did: nothing was received, or the reference time was
      set from it. */
  datatype Flood = Silent | Heard(time: u16)

  datatype Clock = Clock(skewEstimated: byte, syncMissed: byte, ref: u16, refOld: u16, skew: int16)

  const START := Clock(0, 0, 0, 0, 0)

  predicate Bootstrapping(c: Clock) {
    c.skewEstimated < BOOTSTRAP_PERIODS
  }

  /** The clock once the reference time `c.ref` of this round stands. */
  function Estimated(c: Clock): Clock {
    c.(skew := Signed((c.ref - (c.refOld + PERIOD % WORD)) % WORD),
       refOld := c.ref,
       skewEstimated := if Bootstrapping(c) then c.skewEstimated + 1 else c.skewEstimated)
  }

  function Advance(c: Clock, flood: Flood): Clock {
    match flood
    case Heard(time) =>
      Estimated(c.(ref := time, syncMissed := if Bootstrapping(c) then c.syncMissed else 0))
    case Silent =>
      if Bootstrapping(c) then c.(skewEstimated := 0)
      else Estimated(c.(ref := (c.ref + PERIOD + c.skew) % WORD, syncMissed := (c.syncMissed + 1) % 256))
  }

  function Rounds(floods: seq<Flood>): Clock {
    if floods == [] then START
    else Advance(Rounds(floods[.. |floods| - 1]), floods[|floods| - 1])
  }

  function Silence(m: nat): seq<Flood> {
    seq(m, _ => Silent)
  }

  // ----------------------------------------------------------------- bootstrap

  /** Number of rounds heard in a row up to now. */
  function Streak(floods: seq<Flood>): nat {
    if floods == [] || floods[|floods| - 1].Silent? then 0
    else Streak(floods[.. |floods| - 1]) + 1
  }

  predicate HeardInARow(floods: seq<Flood>, i: nat)
    requires i + BOOTSTRAP_PERIODS <= |floods|
  {
    forall k :: i <= k < i + BOOTSTRAP_PERIODS ==> floods[k].Heard?
  }

  predicate RowSeen(floods: seq<Flood>) {
    exists i :: 0 <= i <= |floods| - BOOTSTRAP_PERIODS && HeardInARow(floods, i)
  }

  lemma RowSeenStep(before: seq<Flood>, flood: Flood)
    ensures RowSeen(before + [flood]) <==> RowSeen(before) || Streak(before + [flood]) >= 3
  {
    var floods := before + [flood];
    if RowSeen(before) {
      var i :| 0 <= i <= |before| - BOOTSTRAP_PERIODS && HeardInARow(before, i);
      assert HeardInARow(floods, i);
    }
    StreakHeard(floods);
    if Streak(floods) >= 3 {
      assert HeardInARow(floods, |floods| - 3);
    }
    if RowSeen(floods) && !RowSeen(before) {
      var i :| 0 <= i <= |floods| - BOOTSTRAP_PERIODS && HeardInARow(floods, i);
      if i + 3 <= |before| {
        assert forall k :: i <= k < i + 3 ==> floods[k] == before[k];
        assert HeardInARow(before, i);
        assert false;
      }
      StreakLong(floods, 3);
    }
  }

  lemma {:induction false} StreakHeard(floods: seq<Flood>)
    ensures Streak(floods) <= |floods|
    ensures forall k :: |floods| - Streak(floods) <= k < |floods| ==> floods[k].Heard?
  {
    if floods != [] && floods[|floods| - 1].Heard? {
      StreakHeard(floods[.. |floods| - 1]);
    }
  }

  lemma {:induction false} StreakLong(floods: seq<Flood>, n: nat)
    requires n <= |floods| && forall k :: |floods| - n <= k < |floods| ==> floods[k].Heard?
    ensures Streak(floods) >= n
  {
    if n > 0 {
      StreakLong(floods[.. |floods| - 1], n - 1);
    }
  }

  /** The bootstrap is over exactly when some three rounds in a row were heard;
      until then the counter is the current streak. */
  lemma {:induction false} BootstrapEndsIff(floods: seq<Flood>)
    ensures !Bootstrapping(Rounds(floods)) <==> RowSeen(floods)
    ensures Bootstrapping(Rounds(floods)) ==> Rounds(floods).skewEstimated == Streak(floods)
    ensures Bootstrapping(Rounds(floods)) ==> Rounds(floods).syncMissed == 0
  {
    if floods != [] {
      var before, flood := floods[.. |floods| - 1], floods[|floods| - 1];
      assert floods == before + [flood];
      BootstrapEndsIff(before);
      RowSeenStep(before, flood);
    }
  }

  // ------------------------------------------------------------ dead reckoning

  lemma SignedOfSkew(a: u16, ref: u16, skew: int16)
    requires a == (ref + PERIOD + skew) % WORD
    ensures Signed((a - (ref + PERIOD % WORD)) % WORD) == skew
  {
  }

  lemma AddRounds(ref: u16, step: int, base: int)
    requires ref == base % WORD
    ensures (ref + step) % WORD == (base + step) % WORD
  {
    var k := base / WORD;
    assert base + step == k * WORD + (ref + step);
  }

  lemma SilentRound(c: Clock)
    requires !Bootstrapping(c) && c.refOld == c.ref
    ensures Advance(c, Silent) == c.(ref := (c.ref + PERIOD + c.skew) % WORD,
                                     refOld := (c.ref + PERIOD + c.skew) % WORD,
                                     syncMissed := (c.syncMissed + 1) % 256)
  {
    SignedOfSkew((c.ref + PERIOD + c.skew) % WORD, c.ref, c.skew);
  }

  lemma Wrapped(m: nat)
    requires m > 0
    ensures ((m - 1) % 256 + 1) % 256 == m % 256
  {
  }

  /** When the `m`-th flood after one at `ref` is due, at a period of
      PERIOD + skew. */
  function Due(ref: int, m: nat, skew: int16): int {
    ref + m * (PERIOD + skew)
  }

  lemma DueNext(ref: int, m: nat, skew: int16)
    ensures Due(ref, m + 1, skew) == Due(ref, m, skew) + PERIOD + skew
    ensures Due(ref, 0, skew) == ref
  {
    assert (m + 1) * (PERIOD + skew) == m * (PERIOD + skew) + (PERIOD + skew);
  }

  lemma {:induction false} SilentRounds(c: Clock, heard: seq<Flood>, m: nat, ref: int)
    requires c == Rounds(heard) && !Bootstrapping(c)
    requires c.refOld == c.ref == ref % WORD && c.syncMissed == 0
    ensures var last := Due(ref, m, c.skew) % WORD;
            Rounds(heard + Silence(m)) == c.(ref := last, refOld := last, syncMissed := m % 256)
  {
    hide Advance, Due;
    if m == 0 {
      assert heard + Silence(0) == heard;
      DueNext(ref, 0, c.skew);
    } else {
      var floods := heard + Silence(m);
      assert floods[.. |floods| - 1] == heard + Silence(m - 1);
      SilentRounds(c, heard, m - 1, ref);
      DueNext(ref, m - 1, c.skew);
      AddRounds(Due(ref, m - 1, c.skew) % WORD, PERIOD + c.skew, Due(ref, m - 1, c.skew));
      SilentRound(Rounds(heard + Silence(m - 1)));
      Wrapped(m);
    }
  }

  lemma HeardResets(heard: seq<Flood>)
    requires heard != [] && heard[|heard| - 1].Heard? && !Bootstrapping(Rounds(heard))
    ensures var c := Rounds(heard);
            c.refOld == c.ref == heard[|heard| - 1].time && c.syncMissed == 0
  {
    BootstrapEndsIff(heard[.. |heard| - 1]);
  }

  // ------------------------------------------------------------------- wake-up

  /** The offset from the reference time given to the long timer after the
      bootstrap. */
  function WakeOffset(c: Clock): nat {
    (PERIOD + c.skew - GUARD * (1 + c.syncMissed)) % LONG
  }

  /** How long the radio then waits for the flood. */
  function ListenTime(c: Clock): u16 {
    (GUARD * (1 + c.syncMissed) + DURATION) % WORD
  }

  /** Timer overflows to let pass, as the long timer counts them. */
  function Overflows(offset: nat, now: u16, ref: u16): u16 {
    (offset - (now - ref) % WORD) % LONG / WORD
  }

  /** The next time after `now` at which the counter reads `time`. */
  function NextMatch(now: nat, time: u16): (t: nat)
    ensures now < t <= now + WORD && t % WORD == time
  {
    var gap := (time - now - 1) % WORD;
    assert (now + 1 + gap) % WORD == time by {
      var k := (time - now - 1) / WORD;
      assert now + 1 + gap == time - k * WORD;
    }
    now + 1 + gap
  }

  /** When a long timer set at `now` runs its callback. */
  function Expiry(now: nat, ref: u16, offset: nat): nat {
    NextMatch(now, (ref + offset) % WORD) + WORD * Overflows(offset, now % WORD, ref)
  }

  lemma MatchUnique(now: nat, t: nat, time: u16)
    requires now < t <= now + WORD && t % WORD == time
    ensures NextMatch(now, time) == t
  {
    var u := NextMatch(now, time);
    assert (u - t) == WORD * (u / WORD - t / WORD);
  }

  lemma Elapsed(ref: nat, now: nat)
    requires ref <= now < ref + WORD
    ensures (now % WORD - ref % WORD) % WORD == now - ref
  {
    var k := now / WORD - ref / WORD;
    assert now % WORD - ref % WORD == now - ref - k * WORD;
  }

  lemma OverflowsLeft(ref: nat, now: nat, offset: nat)
    requires ref <= now < ref + WORD && now < ref + offset && offset < LONG
    ensures Overflows(offset, now % WORD, ref % WORD) == (ref + offset - now) / WORD
  {
    Elapsed(ref, now);
  }

  /** A long timer set within 2 seconds of its reference time fires at exactly
      reference plus offset, unless what is left of the offset is a whole number
      of counter revolutions: then it is one revolution late. */
  lemma TimerExactIff(ref: nat, now: nat, offset: nat)
    requires ref <= now < ref + WORD && now < ref + offset && offset < LONG
    ensures Expiry(now, ref % WORD, offset) == ref + offset <==> (ref + offset - now) % WORD != 0
    ensures Expiry(now, ref % WORD, offset) == ref + offset
         || Expiry(now, ref % WORD, offset) == ref + offset + WORD
  {
    hide Overflows, NextMatch;
    var end := ref + offset;
    var k, r := (end - now) / WORD, (end - now) % WORD;
    OverflowsLeft(ref, now, offset);
    AddRounds(ref % WORD, offset, ref);
    var t := if r == 0 then now + WORD else now + r;
    SameResidue(end, t, if r == 0 then k - 1 else k);
    MatchUnique(now, t, end % WORD);
  }

  lemma SameResidue(a: nat, b: nat, k: int)
    requires a == b + k * WORD
    ensures a % WORD == b % WORD
  {
  }

  lemma WakeTimes(c: Clock)
    ensures WakeOffset(c) == PERIOD + c.skew - GUARD * (1 + c.syncMissed)
    ensures ListenTime(c) == GUARD * (1 + c.syncMissed) + DURATION
    ensures WORD < WakeOffset(c) < LONG
  {
  }

  /** Dead reckoning. `ref` is the time of the last flood heard; every one of the
      `m` floods since was missed. */
  lemma DeadReckoning(heard: seq<Flood>, m: nat, ref: nat)
    requires heard != [] && heard[|heard| - 1] == Heard(ref % WORD)
    requires !Bootstrapping(Rounds(heard)) && m < 256
    ensures var c, d := Rounds(heard), Rounds(heard + Silence(m));
            var last, next := Due(ref, m, c.skew), Due(ref, m + 1, c.skew);
            && !Bootstrapping(d) && d.skew == c.skew && d.syncMissed == m
            && d.ref == d.refOld == last % WORD
            && last + WakeOffset(d) == next - GUARD * (1 + m)
            && last + WakeOffset(d) + ListenTime(d) == next + DURATION
  {
    hide Rounds, Due, WakeOffset, ListenTime;
    var c := Rounds(heard);
    HeardResets(heard);
    SilentRounds(c, heard, m, ref);
    DueNext(ref, m, c.skew);
    WakeTimes(Rounds(heard + Silence(m)));
  }

  /** The window grows with every missed flood exactly while the counter of
      misses has not wrapped. */
  lemma GuardGrowsIff(heard: seq<Flood>, m: nat)
    requires heard != [] && heard[|heard| - 1].Heard? && !Bootstrapping(Rounds(heard))
    ensures ListenTime(Rounds(heard + Silence(m))) == GUARD * (1 + m) + DURATION <==> m < 256
  {
    hide Rounds, Due, ListenTime, WakeOffset;
    HeardResets(heard);
    SilentRounds(Rounds(heard), heard, m, heard[|heard| - 1].time);
    WakeTimes(Rounds(heard + Silence(m)));
  }

  /** The node wakes up at the very tick of the dead-reckoned window if the long
      timer is set less than one counter revolution after the last due time. */
  lemma WakesOnTimeIff(heard: seq<Flood>, m: nat, ref: nat, now: nat)
    requires heard != [] && heard[|heard| - 1] == Heard(ref % WORD)
    requires !Bootstrapping(Rounds(heard)) && m < 256
    requires var last := Due(ref, m, Rounds(heard).skew); last <= now < last + WORD
    ensures var c, d := Rounds(heard), Rounds(heard + Silence(m));
            var wake := Due(ref, m + 1, c.skew) - GUARD * (1 + m);
            Expiry(now, d.ref, WakeOffset(d)) == wake <==> (wake - now) % WORD != 0
  {
    hide Rounds, WakeOffset, ListenTime, Expiry, Due;
    DeadReckoning(heard, m, ref);
    var d := Rounds(heard + Silence(m));
    WakeTimes(d);
    DueFrom(ref, m, d.skew);
    TimerExactIff(Due(ref, m, d.skew), now, WakeOffset(d));
  }

  lemma {:induction false} DueFrom(ref: int, m: nat, skew: int16)
    ensures Due(ref, m, skew) >= ref
  {
    hide Due;
    if m == 0 {
      DueNext(ref, 0, skew);
    } else {
      DueFrom(ref, m - 1, skew);
      DueNext(ref, m - 1, skew);
    }
  }

  lemma SkewOfDifference(now: int, last: int)
    ensures -0x8000 <= now - last - PERIOD < 0x8000
      ==> Signed((now % WORD - (last % WORD + PERIOD % WORD)) % WORD) == now - last - PERIOD
  {
    var k := now / WORD - last / WORD - PERIOD / WORD;
    assert now % WORD - (last % WORD + PERIOD % WORD) == now - last - PERIOD - k * WORD;
  }

  lemma HeardRound(c: Clock, time: u16)
    requires !Bootstrapping(c)
    ensures Advance(c, Heard(time)) == c.(ref := time, refOld := time, syncMissed := 0,
                                          skew := Signed((time - (c.refOld + PERIOD % WORD)) % WORD))
  {
  }

  lemma RoundsStep(floods: seq<Flood>, flood: Flood)
    ensures Rounds(floods + [flood]) == Advance(Rounds(floods), flood)
  {
    assert (floods + [flood])[.. |floods|] == floods;
  }

  /** The next flood heard after `m` misses, at time `flood`: the new skew takes
      in the whole error of the prediction at once. */
  lemma Resync(heard: seq<Flood>, m: nat, ref: nat, flood: int)
    requires heard != [] && heard[|heard| - 1] == Heard(ref % WORD) && !Bootstrapping(Rounds(heard))
    ensures var c, e := Rounds(heard), Rounds(heard + Silence(m) + [Heard(flood % WORD)]);
            var error := flood - Due(ref, m + 1, c.skew);
            && e.ref == e.refOld == flood % WORD && e.syncMissed == 0
            && (-0x8000 <= c.skew + error < 0x8000 ==> e.skew == c.skew + error)
  {
    hide Rounds, Due, Advance, Signed;
    var c := Rounds(heard);
    HeardResets(heard);
    SilentRounds(c, heard, m, ref);
    RoundsStep(heard + Silence(m), Heard(flood % WORD));
    HeardRound(Rounds(heard + Silence(m)), flood % WORD);
    DueNext(ref, m, c.skew);
    SkewOfDifference(flood, Due(ref, m, c.skew));
  }

  /** With a sink whose period really is PERIOD + `drift` ticks, the skew after a
      resynchronisation is the drift exactly when no flood was missed or the
      estimate had been right before. */
  lemma ResyncExactIff(heard: seq<Flood>, m: nat, ref: nat, drift: int16)
    requires heard != [] && heard[|heard| - 1] == Heard(ref % WORD) && !Bootstrapping(Rounds(heard))
    requires var s := Rounds(heard).skew; -0x8000 <= s + (m + 1) * (drift - s) < 0x8000
    ensures Rounds(heard + Silence(m) + [Heard(Due(ref, m + 1, drift) % WORD)]).skew == drift
            <==> m == 0 || Rounds(heard).skew == drift
  {
    hide Rounds, Due;
    var s := Rounds(heard).skew;
    DueDifference(ref, m + 1, s, drift);
    Resync(heard, m, ref, Due(ref, m + 1, drift));
    Overshoot(m, drift - s);
  }

  lemma DueDifference(ref: int, m: nat, s: int16, drift: int16)
    ensures Due(ref, m, drift) - Due(ref, m, s) == m * (drift - s)
  {
  }

  lemma Overshoot(m: nat, gap: int)
    ensures (m + 1) * gap == gap <==> m == 0 || gap == 0
  {
    assert (m + 1) * gap == m * gap + gap;
  }

  // ------------------------------------------------------------- the scheduler

  /** How the next round is scheduled: a delay after the timer's own time, or an
      offset from the reference time for the long timer. */
  datatype Alarm = After(delay: u16) | FromReference(offset: nat)

  function NextAlarm(c: Clock): Alarm {
    if !Bootstrapping(c) then FromReference(WakeOffset(c))
    else if c.skewEstimated == 0 then After(INIT_PERIOD - INIT_DURATION)
    else FromReference(PERIOD - INIT_GUARD)
  }

  /** How long a round that begins in state `c` has its radio on. */
  function ListenFor(c: Clock): u16 {
    if Bootstrapping(c) then INIT_DURATION else ListenTime(c)
  }

  /** Dead reckoning by the alarms themselves, in ticks of a 32768 Hz clock: after
      `m` missed floods the alarm is set 17 * (1 + m) ticks before the next flood is
      due, and the round it starts listens until 218 ticks after. */
  lemma AlarmBeforeFlood(heard: seq<Flood>, m: nat, ref: nat)
    requires heard != [] && heard[|heard| - 1] == Heard(ref % WORD)
    requires !Bootstrapping(Rounds(heard)) && m < 256
    ensures var d := Rounds(heard + Silence(m)); var alarm := NextAlarm(d);
            var last, next := Due(ref, m, d.skew), Due(ref, m + 1, d.skew);
            && d.ref == last % WORD && d.skew == Rounds(heard).skew
            && alarm.FromReference?
            && last + alarm.offset == next - 17 * (1 + m)
            && last + alarm.offset + ListenFor(d) == next + 218
  {
    hide Rounds, Due, WakeOffset, ListenTime;
    DeadReckoning(heard, m, ref);
  }

  /** While bootstrapping: after a round without a flood the node tries again 327
      ticks later; after a flood heard at `ref` it wakes up 1638 ticks before the
      next is due at the nominal period, and listens until 201 ticks after. */
  lemma BootstrapAlarms(floods: seq<Flood>)
    requires floods != [] && Bootstrapping(Rounds(floods))
    ensures var c := Rounds(floods); var flood := floods[|floods| - 1];
      && ListenFor(c) == 1839
      && (flood.Silent? ==> NextAlarm(c) == After(327))
      && (flood.Heard? ==> c.ref == flood.time && NextAlarm(c) == FromReference(1966080 - 1638))
      && 1966080 - 1638 + ListenFor(c) == 1966080 + 201
  {
    BootstrapEndsIff(floods);
  }

  /** Of any two floods heard in a row, at times `a` and `b`, in the bootstrap or
      after it, the skew is how much longer than a period they are apart. */
  lemma SkewOfTwoFloods(before: seq<Flood>, a: nat, b: nat)
    requires -0x8000 <= b - a - 1966080 < 0x8000
    ensures Rounds(before + [Heard(a % WORD)] + [Heard(b % WORD)]).skew == b - a - 1966080
  {
    RoundsStep(before, Heard(a % WORD));
    RoundsStep(before + [Heard(a % WORD)], Heard(b % WORD));
    SkewOfDifference(b, a);
  }

  class Scheduler {
    var skewEstimated: byte
    var syncMissed: byte
    var refOld: u16
    var periodSkew: int16
    var ref: u16              // set_t_ref_l, get_t_ref_l
    var updated: bool         // set_t_ref_l_updated, is_t_ref_l_updated

    ghost function State(): Clock
      reads this
    {
      Clock(skewEstimated, syncMissed, ref, refOld, periodSkew)
    }

    constructor ()
      ensures State() == START
    {
      skewEstimated, syncMissed, refOld, periodSkew, ref, updated := 0, 0, 0, 0, 0, false;
    }

    method EstimatePeriodSkew()
      modifies this
      ensures State() == if updated then Estimated(old(State())) else old(State())
      ensures updated == old(updated)
    {
      if updated {
        periodSkew := Signed((ref - (refOld + PERIOD % WORD)) % WORD);
        refOld := ref;
        if skewEstimated < BOOTSTRAP_PERIODS {
          skewEstimated := skewEstimated + 1;
        }
      }
    }

    /** The round begins: how long the radio is to be on. */
    method StartListening() returns (ticks: u16)
      ensures ticks == ListenFor(State())
    {
      if skewEstimated < BOOTSTRAP_PERIODS {
        ticks := INIT_DURATION;
      } else {
        ticks := (GUARD * (1 + syncMissed) + DURATION) % WORD;
      }
    }

    /** One round: the flood, the correction after it, and the next alarm. */
    method Round(flood: Flood) returns (alarm: Alarm)
      modifies this
      ensures State() == Advance(old(State()), flood)
      ensures alarm == NextAlarm(State())
    {
      updated := flood.Heard?;
      if flood.Heard? {
        ref := flood.time;
      }
      if skewEstimated < BOOTSTRAP_PERIODS {
        if !updated {
          skewEstimated := 0;
        }
      } else if !updated {
        ref := (ref + PERIOD + periodSkew) % WORD;
        updated := true;
        syncMissed := (syncMissed + 1) % 256;
      } else {
        syncMissed := 0;
      }
      EstimatePeriodSkew();
      if skewEstimated < BOOTSTRAP_PERIODS {
        if skewEstimated == 0 {
          alarm := After(INIT_PERIOD - INIT_DURATION);
        } else {
          alarm := FromReference(PERIOD - INIT_GUARD);
        }
      } else {
        alarm := FromReference((PERIOD + periodSkew - GUARD * (1 + syncMissed)) % LONG);
      }
    }

    /** A node's whole life: after every round the state is that of the run. */
    method Listen(floods: seq<Flood>) returns (alarms: seq<Alarm>)
      requires State() == START
      modifies this
      ensures State() == Rounds(floods)
      ensures |alarms| == |floods|
      ensures forall i :: 0 <= i < |floods| ==> alarms[i] == NextAlarm(Rounds(floods[.. i + 1]))
    {
      alarms := [];
      for n := 0 to |floods|
        invariant State() == Rounds(floods[.. n])
        invariant |alarms| == n
        invariant forall i :: 0 <= i < n ==> alarms[i] == NextAlarm(Rounds(floods[.. i + 1]))
      {
        assert floods[.. n + 1][.. n] == floods[.. n];
        var alarm := Round(floods[n]);
        alarms := alarms + [alarm];
      }
      assert floods[.. |floods|] == floods;
    }
  }
}
