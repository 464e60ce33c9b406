/** What a NACK does: it moves the sender back, so that a receiver that lags
    behind is served again. */
module CodepropNacks {
  import opened Bytes
  import opened Wrappers
  import opened Codeprop
  import opened CodepropNetwork
  import opened CodepropNode
  import opened CodepropRuns

  /** A pausing sender that hears a NACK at or below its position sends next the
      packet that the NACK names; one above it changes nothing. */
  lemma NackMovesSender(s: Sender, a: u16)
    requires ValidImage(s.image) && s.addr <= |s.image| && s.phase.Pausing? && a < |s.image|
    ensures a <= s.addr ==> SenderWakes(SenderHears(s, a)).1 == Some(Chunk(s.id, s.image, a))
    ensures a > s.addr ==> SenderHears(s, a) == s
  {
  }

  /** Whatever the sender was doing, a new image is sent next, from its first byte and
      under the next id; a broadcast begins at 0 wherever an earlier one stopped. */
  lemma NewImageIsSent(s: Sender, image: seq<byte>)
    requires ValidImage(image)
    ensures var s' := StartBroadcast(s, image);
      && s'.id as int == (s.id as int + 1) % 0x1_0000
      && (s'.phase.Pausing? <==> s.phase.Pausing?) && !s'.phase.Asleep?
      && SenderWakes(s').1 == (if image == [] then None else Some(Chunk(s'.id, image, 0)))
      && (s'.phase.Called? ==> forall a: u16 | a <= |image| ::
            SenderWakes(s'.(addr := a)) == SenderWakes(s'))
  {
  }

  /** Outside a pause nobody listens to NACKs. */
  lemma NackOutsidePause(s: Sender, a: u16)
    requires !s.phase.Pausing?
    ensures SenderHears(s, a) == s
  {
  }

  predicate IsLowest(low: u16, addr: u16, nacks: seq<u16>) {
    && (low == addr || low in nacks)
    && low <= addr
    && forall k :: 0 <= k < |nacks| ==> low <= nacks[k]
  }

  /** A whole pause takes the sender to the lowest of its position and the NACKs,
      and there the next packet comes from. */
  lemma {:induction false} PauseGoesToLowest(s: Sender, nacks: seq<u16>)
    requires ValidImage(s.image) && s.addr <= |s.image| && s.phase.Pausing?
    ensures var s' := HearsAll(s, nacks);
      && IsLowest(s'.addr, s.addr, nacks)
      && (s'.addr < |s.image| ==> SenderWakes(s').1 == Some(Chunk(s.id, s.image, s'.addr)))
    decreases |nacks|
  {
    if nacks != [] {
      PauseGoesToLowest(s, nacks[.. |nacks| - 1]);
    }
  }

  /** A receiver in a session asks again, by its timer, for exactly the position it
      has got to. */
  lemma TimeoutAsks(r: Receiver)
    ensures r.receiving ==> NackTimeout(r) == Some(r.addr)
    ensures !r.receiving ==> NackTimeout(r) == None
  {
  }

  /** A packet that opens a session in mid-stream draws a NACK for address 0; the
      first packet of an image draws none. */
  lemma OpeningAsks(r: Receiver, d: Data)
    requires CanReceive(r, d) && !r.receiving && d.id > r.id && 0 < |d.bytes| <= d.len
    ensures ReceiveData(r, d).1 == if d.addr == 0 then None else Some(0)
    ensures ReceiveData(r, d).0.id == d.id && ReceiveData(r, d).0.len == d.len
    ensures ReceiveData(r, d).0.addr == |d.bytes|
  {
  }

  /** A packet is stored at its place and nowhere else. */
  lemma WriteExact(store: seq<byte>, at: nat, bytes: seq<byte>, i: nat)
    requires at + |bytes| <= |store| && i < |store|
    ensures Write(store, at, bytes)[i] == if at <= i < at + |bytes| then bytes[i - at] else store[i]
  {
  }

  /** The sender has got to where an undisturbed sweep completes receiver `i`. */
  ghost predicate Serves(s: Net, i: nat) {
    && i < |s.receivers| && s.sender.id in s.images
    && ValidImage(s.sender.image) && s.sender.addr <= |s.sender.image|
    && Completed(s.images, ReceiveAll(s.receivers[i], Undisturbed(s.sender)), s.sender.id)
  }

  lemma ReachedIsServed(t: Net, i: nat)
    requires Inv(t) && i < |t.receivers| && t.receivers[i].receiving
    requires t.receivers[i].id == t.sender.id && t.sender.addr <= t.receivers[i].addr
    ensures Serves(t, i)
  {
    var id, a := t.sender.id, t.sender.addr;
    assert ReceiverInv(t.images, t.receivers[i]);
    UndisturbedIsSweep(t.sender);
    SweepCompletes(t.images, t.receivers[i], id, a);
  }

  /** A lagging receiver recovers: in every reachable state in which the sender
      pauses and is ahead of an open session of its image, that session's own NACK,
      once delivered, takes the sender back so far that, undisturbed, it completes
      the receiver, which it would not have done before. */
  lemma OwnNackRecovers(s: Net, steps: seq<Step>, t: Net, i: nat)
    requires Init(s) && Run(s, steps, t) && i < |t.receivers| && t.sender.phase.Pausing?
    requires var r := t.receivers[i];
      r.receiving && r.id == t.sender.id && r.addr < t.sender.addr && r.addr in t.nacks
    ensures Enabled(t, DeliverNack(t.receivers[i].addr))
    ensures Serves(Next(t, DeliverNack(t.receivers[i].addr)), i) && !Serves(t, i)
  {
    RunKeepsInv(s, steps, t);
    var t1 := OneStep(t, DeliverNack(t.receivers[i].addr));
    ReachedIsServed(t1, i);
    SweepCompletesIff(s, steps, t, i);
  }

  /** And that NACK is always to be had: the receiver's timer sends it. */
  lemma TimerRecovers(s: Net, steps: seq<Step>, t: Net, i: nat)
    requires Init(s) && Run(s, steps, t) && i < |t.receivers| && t.sender.phase.Pausing?
    requires t.receivers[i].receiving && t.receivers[i].id == t.sender.id
    ensures var a := t.receivers[i].addr;
      && Enabled(t, Timeout(i)) && Enabled(Next(t, Timeout(i)), DeliverNack(a))
      && Serves(Next(Next(t, Timeout(i)), DeliverNack(a)), i)
  {
    RunKeepsInv(s, steps, t);
    var t1 := OneStep(t, Timeout(i));
    var t2 := OneStep(t1, DeliverNack(t.receivers[i].addr));
    ReachedIsServed(t2, i);
  }

  /** So does every packet from beyond its position, though it leaves the session
      where it was. */
  lemma PacketAheadRecovers(s: Net, steps: seq<Step>, t: Net, i: nat, d: Data)
    requires Init(s) && Run(s, steps, t) && i < |t.receivers| && t.sender.phase.Pausing?
    requires t.receivers[i].receiving && t.receivers[i].id == t.sender.id
    requires d in t.data && d.id == t.sender.id && d.addr > t.receivers[i].addr
    ensures Enabled(t, DeliverData(i, d))
    ensures var a := t.receivers[i].addr; var t1 := Next(t, DeliverData(i, d));
      && t1.receivers[i] == t.receivers[i]
      && Enabled(t1, DeliverNack(a)) && (a < t.sender.addr ==> Serves(Next(t1, DeliverNack(a)), i))
  {
    RunKeepsInv(s, steps, t);
    assert ReceiverInv(t.images, t.receivers[i]);
    var t1 := OneStep(t, DeliverData(i, d));
    if t.receivers[i].addr < t.sender.addr {
      var t2 := OneStep(t1, DeliverNack(t.receivers[i].addr));
      ReachedIsServed(t2, i);
    }
  }
}
