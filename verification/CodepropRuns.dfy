/** Exactly which receivers can still get the sender's image.  A session ends only
    when its image is complete: the code sets a timer to CONNECTION_TIMEOUT and
    never looks at it, so what a session lacks of an older image must still be in
    flight. */
module CodepropRuns {
  import opened Bytes
  import opened Wrappers
  import opened Codeprop
  import opened CodepropNetwork

  // ------------------------------------------------------------ reachability

  ghost predicate Reaches(s: Net, t: Net) {
    exists steps :: Run(s, steps, t)
  }

  lemma SomeRun(s: Net, t: Net) returns (steps: seq<Step>)
    requires Reaches(s, t)
    ensures Run(s, steps, t)
  {
    steps :| Run(s, steps, t);
  }

  lemma ReachesItself(s: Net)
    ensures Reaches(s, s)
  {
    assert Run(s, [], s);
  }

  lemma {:induction false} RunConcat(s: Net, a: seq<Step>, m: Net, b: seq<Step>, t: Net)
    requires Run(s, a, m) && Run(m, b, t)
    ensures Run(s, a + b, t)
    decreases |a|
  {
    hide Next, Enabled;
    if a == [] {
      assert a + b == b;
    } else {
      assert (a + b)[1..] == a[1..] + b;
      RunConcat(Next(s, a[0]), a[1..], m, b, t);
    }
  }

  lemma ReachesOn(s: Net, m: Net, t: Net)
    requires Reaches(s, m) && Reaches(m, t)
    ensures Reaches(s, t)
  {
    var a :| Run(s, a, m);
    var b :| Run(m, b, t);
    RunConcat(s, a, m, b, t);
  }

  lemma OneStep(s: Net, step: Step) returns (t: Net)
    requires Inv(s) && Enabled(s, step)
    ensures t == Next(s, step) && Reaches(s, t) && Inv(t)
  {
    t := Next(s, step);
    NextKeepsInv(s, step);
    assert Run(t, [], t);
    assert Run(s, [step], t);
  }

  // ------------------------------------------------------- completing sessions

  /** Every packet of `image` from position `a` on is in flight. */
  ghost predicate InFlight(data: set<Data>, id: u16, image: seq<byte>, a: nat)
    requires ValidImage(image)
  {
    forall c: u16 :: a <= c < |image| && c % UDPDATASIZE == 0 ==> Chunk(id, image, c) in data
  }

  /** One packet in flight reaches receiver `i`. */
  lemma Arrive(s: Net, i: nat, d: Data) returns (t: Net)
    requires Inv(s) && i < |s.receivers| && d in s.data && JoinsAtStart(s.receivers[i], d)
    ensures CanReceive(s.receivers[i], d)
    ensures Reaches(s, t) && Inv(t)
    ensures t.receivers == s.receivers[i := ReceiveData(s.receivers[i], d).0]
    ensures t.data == s.data && t.images == s.images && t.sender == s.sender
  {
    assert ReceiverInv(s.images, s.receivers[i]);
    ReceiveKeepsInv(s.images, s.receivers[i], d);
    t := OneStep(s, DeliverData(i, d));
  }

  lemma {:induction false} FinishSession(s: Net, i: nat) returns (t: Net)
    requires Inv(s) && i < |s.receivers| && s.receivers[i].receiving
    requires var r := s.receivers[i];
      r.id in s.images && ValidImage(s.images[r.id]) && InFlight(s.data, r.id, s.images[r.id], r.addr)
    ensures Reaches(s, t) && Inv(t) && i < |t.receivers|
    ensures t.data == s.data && t.images == s.images && t.sender == s.sender
    ensures Completed(t.images, t.receivers[i], s.receivers[i].id)
    decreases s.receivers[i].len - s.receivers[i].addr
  {
    var r := s.receivers[i];
    assert ReceiverInv(s.images, r);
    var c := Chunk(r.id, s.images[r.id], r.addr);
    ChunkBoundary(r.len, r.addr);
    var s1 := Arrive(s, i, c);
    assert ReceiverInv(s1.images, s1.receivers[i]);
    if s1.receivers[i].receiving {
      t := FinishSession(s1, i);
      ReachesOn(s, s1, t);
    } else {
      t := s1;
    }
  }

  /** The sender runs to the end of its image. */
  lemma {:induction false} SenderDrains(s: Net) returns (t: Net)
    requires Inv(s)
    ensures Reaches(s, t) && Inv(t)
    ensures t.receivers == s.receivers && t.images == s.images && t.sender.id == s.sender.id
    ensures InFlight(t.data, t.sender.id, t.images[t.sender.id], 0)
    ensures s.data <= t.data
    decreases s.sender.phase != Asleep, s.sender.phase == Called, |s.sender.image| - s.sender.addr
  {
    if s.sender.phase == Asleep {
      t := s;
      ReachesItself(s);
    } else {
      var s1 := OneStep(s, Wake);
      t := SenderDrains(s1);
      ReachesOn(s, s1, t);
    }
  }

  /** A receiver that waits for the sender's image, or has a session of it open,
      gets it. */
  lemma FinishCurrent(s: Net, i: nat) returns (t: Net)
    requires Inv(s) && i < |s.receivers| && s.sender.image != []
    requires !s.receivers[i].receiving || s.receivers[i].id == s.sender.id
    ensures Reaches(s, t) && i < |t.receivers| && s.sender.id in t.images
    ensures Completed(t.images, t.receivers[i], s.sender.id)
  {
    var r := s.receivers[i];
    assert ReceiverInv(s.images, r);
    var s1 := SenderDrains(s);
    var id := s.sender.id;
    if r.receiving {
      t := FinishSession(s1, i);
      ReachesOn(s, s1, t);
    } else if r.id == id {
      t := s1;
    } else {
      var c := Chunk(id, s1.images[id], 0);
      var s2 := Arrive(s1, i, c);
      ReachesOn(s, s1, s2);
      assert ReceiverInv(s2.images, s2.receivers[i]);
      if s2.receivers[i].receiving {
        t := FinishSession(s2, i);
        ReachesOn(s, s2, t);
      } else {
        t := s2;
      }
    }
  }

  // ------------------------------------------------------------ stuck sessions

  /** A session of an older image lacks the packet at `c`, which is not in flight. */
  ghost predicate Stuck(s: Net, i: nat, id: u16, image: seq<byte>, c: u16) {
    && i < |s.receivers| && id < s.sender.id && id in s.images && s.images[id] == image
    && ValidImage(image) && c < |image| && c % UDPDATASIZE == 0
    && Chunk(id, image, c) !in s.data
    && var r := s.receivers[i]; r.receiving && r.id == id && r.addr <= c
  }

  lemma ChunkBefore(len: nat, a: nat, c: nat)
    requires a < c < len && a % UDPDATASIZE == 0 && c % UDPDATASIZE == 0
    ensures a + ChunkLength(len, a) <= c
  {
  }

  lemma StepKeepsStuck(s: Net, step: Step, i: nat, id: u16, image: seq<byte>, c: u16)
    requires Inv(s) && Enabled(s, step) && Stuck(s, i, id, image, c)
    ensures Stuck(Next(s, step), i, id, image, c)
  {
    match step
    case Broadcast(_) =>
    case Wake =>
    case DeliverNack(_) =>
    case Timeout(_) =>
    case DeliverData(k, d) =>
      if k == i {
        var r := s.receivers[i];
        assert ReceiverInv(s.images, r) && ExactSlice(s.images, d);
        if d.id == id && d.addr == r.addr {
          assert d == Chunk(id, image, d.addr);
          ChunkBefore(|image|, r.addr, c);
        }
      }
  }

  lemma {:induction false} RunKeepsStuck(s: Net, steps: seq<Step>, t: Net, i: nat,
                                         id: u16, image: seq<byte>, c: u16)
    requires Inv(s) && Run(s, steps, t) && Stuck(s, i, id, image, c)
    ensures Stuck(t, i, id, image, c)
    decreases |steps|
  {
    if steps != [] {
      StepKeepsStuck(s, steps[0], i, id, image, c);
      NextKeepsInv(s, steps[0]);
      RunKeepsStuck(Next(s, steps[0]), steps[1..], t, i, id, image, c);
    }
  }

  // -------------------------------------------------------------- main theorem

  /** Receiver `i` has the whole of image `id`. */
  ghost predicate Has(s: Net, i: nat, id: u16) {
    i < |s.receivers| && id in s.images && Completed(s.images, s.receivers[i], id)
  }

  /** Some continuation gives it to it. */
  ghost predicate CanStillGet(t: Net, i: nat, id: u16) {
    exists more, t' :: Run(t, more, t') && Has(t', i, id)
  }

  /** In every reachable state, a receiver can still get the sender's image, along
      some continuation with whatever loss, duplication and reordering, exactly if
      it has no session of an older image open, or all that session lacks is still
      in flight.  Otherwise it is in that session for ever. */
  lemma CanCompleteIff(s: Net, steps: seq<Step>, t: Net, i: nat)
    requires Init(s) && Run(s, steps, t) && i < |t.receivers| && t.sender.image != []
    ensures var r := t.receivers[i];
      && r.id in t.images && ValidImage(t.images[r.id])
      && (CanStillGet(t, i, t.sender.id)
          <==> (r.receiving && r.id != t.sender.id ==>
                  InFlight(t.data, r.id, t.images[r.id], r.addr)))
  {
    RunKeepsInv(s, steps, t);
    var r := t.receivers[i];
    assert ReceiverInv(t.images, r);
    if r.receiving && r.id != t.sender.id && !InFlight(t.data, r.id, t.images[r.id], r.addr) {
      var c: u16 :| r.addr <= c < |t.images[r.id]| && c % UDPDATASIZE == 0
                    && Chunk(r.id, t.images[r.id], c) !in t.data;
      forall more, t' | Run(t, more, t') ensures !Has(t', i, t.sender.id) {
        RunKeepsStuck(t, more, t', i, r.id, t.images[r.id], c);
      }
    } else {
      CanComplete(t, i);
    }
  }

  lemma CanComplete(t: Net, i: nat)
    requires Inv(t) && i < |t.receivers| && t.sender.image != []
    requires var r := t.receivers[i];
      r.receiving && r.id != t.sender.id ==>
        r.id in t.images && ValidImage(t.images[r.id]) && InFlight(t.data, r.id, t.images[r.id], r.addr)
    ensures CanStillGet(t, i, t.sender.id)
  {
    hide Run, Reaches, Inv, InFlight, Completed;
    var r := t.receivers[i];
    var t1 := t;
    ReachesItself(t);
    if r.receiving && r.id != t.sender.id {
      t1 := FinishSession(t, i);
      NotReceiving(t1, i, r.id);
    }
    var t' := FinishCurrent(t1, i);
    ReachesOn(t, t1, t');
    var more := SomeRun(t, t');
    assert Has(t', i, t.sender.id);
  }

  lemma NotReceiving(s: Net, i: nat, id: u16)
    requires i < |s.receivers| && id in s.images && Completed(s.images, s.receivers[i], id)
    ensures !s.receivers[i].receiving
  {
  }

  lemma Overtaken(s: Net, first: seq<byte>, second: seq<byte>) returns (t: Net)
    requires Init(s) && Inv(s) && |s.receivers| == 1
    requires UDPDATASIZE < |first| && ValidImage(first) && ValidImage(second)
    ensures Reaches(s, t) && t.sender.id == 2 && t.sender.image == second
    ensures Stuck(t, 0, 1, first, UDPDATASIZE)
  {
    hide Run, Reaches, Inv;
    var s1 := OneStep(s, Broadcast(first));
    var s2 := OneStep(s1, Wake);
    var c := Chunk(1, first, 0);
    assert s2.data == {c} && s2.receivers == s.receivers;
    var s3 := Arrive(s2, 0, c);
    t := OneStep(s3, Broadcast(second));
    ReachesOn(s, s1, s2);
    ReachesOn(s, s2, s3);
    ReachesOn(s, s3, t);
    assert Chunk(1, first, UDPDATASIZE).addr != c.addr;
  }

  /** The failing run: a second image is broadcast before the first one has been
      sent whole, and the receiver that had begun with the first is lost to it. */
  lemma LeftInOldSession(first: seq<byte>, second: seq<byte>, s: Net)
    requires Init(s) && |s.receivers| == 1
    requires UDPDATASIZE < |first| && ValidImage(first) && ValidImage(second)
    ensures exists steps, t :: Run(s, steps, t) && t.sender.id == 2 && t.sender.image == second
              && !CanStillGet(t, 0, 2)
  {
    InitInv(s);
    hide Init;
    var t := Overtaken(s, first, second);
    var steps := SomeRun(s, t);
    RunKeepsInv(s, steps, t);
    forall more, t' | Run(t, more, t') ensures !Has(t', 0, 2) {
      RunKeepsStuck(t, more, t', 0, 1, first, UDPDATASIZE);
    }
  }

  lemma InitInv(s: Net)
    requires Init(s)
    ensures Inv(s)
  {
  }
}
