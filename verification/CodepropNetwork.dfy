/** One sender and any number of receivers.  Datagrams once sent stay in flight
    and may be delivered any number of times, in any order, or never. */
module CodepropNetwork {
  import opened Bytes
  import opened Wrappers
  import opened Codeprop

  /** `images` remembers which image each id has named. */
  datatype Net = Net(
    sender: Sender, receivers: seq<Receiver>, data: set<Data>, nacks: set<u16>,
    images: map<nat, seq<byte>>)

  datatype Step =
    | Broadcast(image: seq<byte>)
    | Wake
    | DeliverNack(addr: u16)
    | DeliverData(i: nat, d: Data)
    | Timeout(i: nat)

  function NoOne(): Sender { Sender(0, 0, [], Asleep) }

  function Blank(store: seq<byte>): Receiver
    requires |store| == MEMORY
  {
    Receiver(0, 0, 0, false, store, [])
  }

  ghost predicate Init(s: Net) {
    && s.sender == NoOne() && s.data == {} && s.nacks == {} && s.images == map[0 := []]
    && forall i :: 0 <= i < |s.receivers| ==>
         |s.receivers[i].store| == MEMORY && s.receivers[i] == Blank(s.receivers[i].store)
  }

  /** A receiver joins a session with the first packet of the image. */
  predicate JoinsAtStart(r: Receiver, d: Data) {
    !r.receiving && d.id > r.id ==> d.addr == 0
  }

  ghost predicate Enabled(s: Net, step: Step) {
    match step
    case Broadcast(image) => s.sender.id + 1 < 0x1_0000 && ValidImage(image)
    case Wake => ValidImage(s.sender.image) && s.sender.addr <= |s.sender.image|
    case DeliverNack(a) => a in s.nacks
    case DeliverData(i, d) =>
      && i < |s.receivers| && d in s.data
      && CanReceive(s.receivers[i], d) && JoinsAtStart(s.receivers[i], d)
    case Timeout(i) => i < |s.receivers|
  }

  function Emitted<T>(o: Option<T>): set<T> {
    if o.Some? then {o.value} else {}
  }

  ghost function Next(s: Net, step: Step): Net
    requires Enabled(s, step)
  {
    match step
    case Broadcast(image) =>
      s.(sender := StartBroadcast(s.sender, image), images := s.images[s.sender.id + 1 := image])
    case Wake =>
      var (sender, out) := SenderWakes(s.sender);
      s.(sender := sender, data := s.data + Emitted(out))
    case DeliverNack(a) => s.(sender := SenderHears(s.sender, a))
    case DeliverData(i, d) =>
      var (r, out) := ReceiveData(s.receivers[i], d);
      s.(receivers := s.receivers[i := r], nacks := s.nacks + Emitted(out))
    case Timeout(i) => s.(nacks := s.nacks + Emitted(NackTimeout(s.receivers[i])))
  }

  ghost predicate Run(s: Net, steps: seq<Step>, t: Net)
    decreases |steps|
  {
    if steps == [] then s == t
    else Enabled(s, steps[0]) && Run(Next(s, steps[0]), steps[1..], t)
  }

  // --------------------------------------------------------------- invariants

  /** A packet boundary of an image of `len` bytes. */
  predicate Boundary(addr: nat, len: nat) {
    addr <= len && (addr % UDPDATASIZE == 0 || addr == len)
  }

  ghost predicate ExactSlice(images: map<nat, seq<byte>>, d: Data) {
    && d.id in images && ValidImage(images[d.id])
    && d.addr < |images[d.id]| && d.addr % UDPDATASIZE == 0
    && d == Chunk(d.id, images[d.id], d.addr)
  }

  ghost predicate SenderInv(s: Net) {
    && s.sender.id in s.images && s.images[s.sender.id] == s.sender.image
    && ValidImage(s.sender.image)
    && Boundary(s.sender.addr, |s.sender.image|)
    && (s.sender.phase == Asleep ==> s.sender.addr == |s.sender.image|)
    && (s.sender.phase == Called ==> s.sender.addr == 0)
    && (forall a: u16 :: a < s.sender.addr && a % UDPDATASIZE == 0 ==>
          Chunk(s.sender.id, s.sender.image, a) in s.data)
  }

  ghost predicate ReceiverInv(images: map<nat, seq<byte>>, r: Receiver) {
    && |r.store| == MEMORY
    && r.id in images
    && ValidImage(images[r.id])
    && r.len == |images[r.id]|
    && Boundary(r.addr, r.len)
    && r.store[.. r.addr] == images[r.id][.. r.addr]
    && (r.receiving <==> r.addr < r.len)
    && (!r.receiving && r.id > 0 ==>
          r.started != [] && r.started[|r.started| - 1] == (r.id, images[r.id]))
    && (forall j :: 0 <= j < |r.started| ==>
          (r.started[j].0 as nat) in images && r.started[j].1 == images[r.started[j].0])
  }

  ghost predicate Inv(s: Net) {
    && SenderInv(s)
    && 0 in s.images && s.images[0] == []
    && (forall id :: id in s.images ==> id <= s.sender.id)
    && (forall d :: d in s.data ==> ExactSlice(s.images, d))
    && (forall a :: a in s.nacks ==> a % UDPDATASIZE == 0)
    && (forall i :: 0 <= i < |s.receivers| ==> ReceiverInv(s.images, s.receivers[i]))
  }

  lemma WakeKeepsInv(s: Net)
    requires Inv(s)
    ensures Inv(Next(s, Wake))
  {
    var s' := Next(s, Wake);
    var sent := if s.sender.phase == Called then s.sender.(addr := 0) else s.sender;
    if s.sender.phase != Asleep && sent.addr < |sent.image| {
      var c := Chunk(sent.id, sent.image, sent.addr);
      assert ExactSlice(s.images, c);
      forall a: u16 | a < s'.sender.addr && a % UDPDATASIZE == 0
        ensures Chunk(s'.sender.id, s'.sender.image, a) in s'.data
      {
        if a != sent.addr {
          assert a < sent.addr;
        }
      }
    }
  }

  /** Storing the packet that continues a prefix gives a longer prefix. */
  lemma WriteExtends(store: seq<byte>, image: seq<byte>, at: nat, n: nat)
    requires at + n <= |image| <= |store|
    requires store[.. at] == image[.. at]
    ensures Write(store, at, image[at .. at + n])[.. at + n] == image[.. at + n]
  {
  }

  lemma ChunkBoundary(len: nat, addr: nat)
    requires addr < len && addr % UDPDATASIZE == 0
    ensures Boundary(addr + ChunkLength(len, addr), len)
    ensures addr < addr + ChunkLength(len, addr)
  {
  }

  lemma SessionRoundKeepsInv(images: map<nat, seq<byte>>, r: Receiver, d: Data)
    requires |r.store| == MEMORY && r.id in images && r.id == d.id
    requires ExactSlice(images, d) && r.len == |images[r.id]|
    requires Boundary(r.addr, r.len) && r.store[.. r.addr] == images[r.id][.. r.addr]
    requires forall j :: 0 <= j < |r.started| ==>
               (r.started[j].0 as nat) in images && r.started[j].1 == images[r.started[j].0]
    ensures Fits(r, d.addr, d.bytes)
    ensures ReceiverInv(images, SessionRound(r, d.addr, d.bytes).0)
    ensures var out := SessionRound(r, d.addr, d.bytes).1;
            && (out.Some? <==> r.addr < d.addr && r.addr < r.len)
            && (out.Some? ==> out.value == r.addr && out.value % UDPDATASIZE == 0)
  {
    ChunkBoundary(|images[d.id]|, d.addr);
    if d.addr == r.addr {
      WriteExtends(r.store, images[r.id], r.addr, |d.bytes|);
    }
    var r' := SessionRound(r, d.addr, d.bytes).0;
    if !r'.receiving {
      assert r'.store[.. r'.len] == images[r.id];
    }
  }

  lemma ReceiveKeepsInv(images: map<nat, seq<byte>>, r: Receiver, d: Data)
    requires ReceiverInv(images, r) && ExactSlice(images, d) && JoinsAtStart(r, d)
    ensures CanReceive(r, d)
    ensures ReceiverInv(images, ReceiveData(r, d).0)
    ensures var out := ReceiveData(r, d).1; out.Some? ==> out.value % UDPDATASIZE == 0
  {
    if r.receiving && d.id == r.id {
      SessionRoundKeepsInv(images, r, d);
    } else if !r.receiving && d.id > r.id {
      SessionRoundKeepsInv(images, r.(addr := 0, id := d.id, len := d.len), d);
    }
  }

  lemma NextKeepsInv(s: Net, step: Step)
    requires Inv(s) && Enabled(s, step)
    ensures Inv(Next(s, step))
  {
    match step
    case Broadcast(image) =>
    case Wake => WakeKeepsInv(s);
    case DeliverNack(a) =>
    case DeliverData(i, d) => ReceiveKeepsInv(s.images, s.receivers[i], d);
    case Timeout(i) =>
  }

  lemma {:induction false} RunKeepsInv(s: Net, steps: seq<Step>, t: Net)
    requires Inv(s) && Run(s, steps, t)
    ensures Inv(t) && |t.receivers| == |s.receivers|
    decreases |steps|
  {
    if steps != [] {
      NextKeepsInv(s, steps[0]);
      RunKeepsInv(Next(s, steps[0]), steps[1..], t);
    }
  }

  // ------------------------------------------------------------- main theorems

  /** What a receiver has stored is a prefix of the image its id names, and a
      program is handed to the loader only when the whole image is stored. */
  lemma ReceiverSafety(s: Net, steps: seq<Step>, t: Net, i: nat)
    requires Init(s) && Run(s, steps, t) && i < |t.receivers|
    ensures var r := t.receivers[i];
      && r.id in t.images
      && r.len == |t.images[r.id]| <= |r.store|
      && r.addr <= r.len
      && r.store[.. r.addr] == t.images[r.id][.. r.addr]
      && (forall j :: 0 <= j < |r.started| ==>
            (r.started[j].0 as nat) in t.images && r.started[j].1 == t.images[r.started[j].0])
  {
    RunKeepsInv(s, steps, t);
    assert ReceiverInv(t.images, t.receivers[i]);
  }

  /** Every position in use anywhere is a packet boundary. */
  lemma PositionsAreBoundaries(s: Net, steps: seq<Step>, t: Net)
    requires Init(s) && Run(s, steps, t)
    ensures t.sender.addr % 32 == 0 || t.sender.addr == |t.sender.image|
    ensures forall a :: a in t.nacks ==> a % 32 == 0
    ensures forall i :: 0 <= i < |t.receivers| ==>
              t.receivers[i].addr % 32 == 0 || t.receivers[i].addr == t.receivers[i].len
  {
    RunKeepsInv(s, steps, t);
    forall i | 0 <= i < |t.receivers|
      ensures t.receivers[i].addr % 32 == 0 || t.receivers[i].addr == t.receivers[i].len
    {
      assert ReceiverInv(t.images, t.receivers[i]);
    }
  }

  /** Whatever NACKs arrive, once the sender rests every byte of its image has
      been in a packet, and every packet is the exact slice at its address. */
  lemma SenderCoverage(s: Net, steps: seq<Step>, t: Net, j: nat)
    requires Init(s) && Run(s, steps, t)
    requires t.sender.phase == Asleep && j < |t.sender.image|
    ensures exists d :: d in t.data && d.id == t.sender.id
              && d.addr <= j < d.addr + |d.bytes| && d.bytes[j - d.addr] == t.sender.image[j]
    ensures forall d :: d in t.data ==> ExactSlice(t.images, d)
  {
    RunKeepsInv(s, steps, t);
    var a: u16 := j - j % UDPDATASIZE;
    assert a % UDPDATASIZE == 0;
    var d := Chunk(t.sender.id, t.sender.image, a);
    assert d in t.data;
    assert d.bytes[j - a] == t.sender.image[j];
  }

  /** Nothing in flight can take a receiver outside its memory. */
  lemma DeliveryIsSafe(s: Net, steps: seq<Step>, t: Net, i: nat, d: Data)
    requires Init(s) && Run(s, steps, t) && i < |t.receivers| && d in t.data
    requires JoinsAtStart(t.receivers[i], d)
    ensures Enabled(t, DeliverData(i, d))
  {
    RunKeepsInv(s, steps, t);
    ReceiveKeepsInv(t.images, t.receivers[i], d);
  }

  // -------------------------------------------------------------------- sweeps

  /** The packets from position `a` to the end of the image. */
  ghost function Sweep(id: u16, image: seq<byte>, a: u16): seq<Data>
    requires ValidImage(image) && a <= |image|
    decreases |image| - a
  {
    if a == |image| then []
    else [Chunk(id, image, a)] + Sweep(id, image, a + ChunkLength(|image|, a))
  }

  /** Everything the sender emits from now on if it hears no NACK. */
  ghost function Undisturbed(s: Sender): seq<Data>
    requires ValidImage(s.image) && s.addr <= |s.image|
    decreases |s.image| - s.addr
  {
    var (s', out) := LoopTest(s);
    if out.None? then [] else [out.value] + Undisturbed(s')
  }

  lemma {:induction false} UndisturbedIsSweep(s: Sender)
    requires ValidImage(s.image) && s.addr <= |s.image|
    ensures Undisturbed(s) == Sweep(s.id, s.image, s.addr)
    decreases |s.image| - s.addr
  {
    if s.addr < |s.image| {
      UndisturbedIsSweep(LoopTest(s).0);
    }
  }

  /** The packets of `trace` arrive one after the other. */
  ghost function ReceiveAll(r: Receiver, trace: seq<Data>): Receiver
    decreases |trace|
  {
    if trace == [] || !CanReceive(r, trace[0]) then r
    else ReceiveAll(ReceiveData(r, trace[0]).0, trace[1..])
  }

  /** The whole image is stored and has been handed to the loader. */
  ghost predicate Completed(images: map<nat, seq<byte>>, r: Receiver, id: u16)
    requires id in images
  {
    && r.id == id && !r.receiving && r.addr == r.len == |images[id]|
    && |r.store| >= r.len && r.store[.. r.len] == images[id]
    && r.started != [] && r.started[|r.started| - 1] == (id, images[id])
  }

  lemma {:induction false} SweepAfterCompletion(images: map<nat, seq<byte>>, r: Receiver, id: u16, a: u16)
    requires ReceiverInv(images, r) && r.id == id && !r.receiving
    requires ValidImage(images[id]) && Boundary(a, |images[id]|)
    ensures ReceiveAll(r, Sweep(id, images[id], a)) == r
    decreases |images[id]| - a
  {
    if a < |images[id]| {
      var a' := a + ChunkLength(|images[id]|, a);
      ChunkBoundary(|images[id]|, a);
      ReceiveKeepsInv(images, r, Chunk(id, images[id], a));
      SweepAfterCompletion(images, r, id, a');
      assert Sweep(id, images[id], a)[1..] == Sweep(id, images[id], a');
    }
  }

  lemma {:induction false} SweepCompletesSession(images: map<nat, seq<byte>>, r: Receiver, a: u16)
    requires ReceiverInv(images, r) && r.receiving && Boundary(a, r.len) && a <= r.addr
    ensures Completed(images, ReceiveAll(r, Sweep(r.id, images[r.id], a)), r.id)
    decreases r.len - a
  {
    var image := images[r.id];
    var a' := a + ChunkLength(|image|, a);
    var c := Chunk(r.id, image, a);
    assert Sweep(r.id, image, a)[1..] == Sweep(r.id, image, a');
    ChunkBoundary(|image|, a);
    ReceiveKeepsInv(images, r, c);
    var r' := ReceiveData(r, c).0;
    if r'.receiving {
      SweepCompletesSession(images, r', a');
    } else {
      SweepAfterCompletion(images, r', r.id, a');
    }
  }

  /** A sweep without loss completes a receiver, whether its session is already
      open at or beyond the sender's position, or it is still waiting and the
      sweep begins at 0. */
  lemma SweepCompletes(images: map<nat, seq<byte>>, r: Receiver, id: u16, a: u16)
    requires ReceiverInv(images, r) && id in images && ValidImage(images[id])
    requires Boundary(a, |images[id]|) && images[id] != []
    requires (r.receiving && r.id == id && a <= r.addr) || (!r.receiving && r.id < id && a == 0)
    ensures Completed(images, ReceiveAll(r, Sweep(id, images[id], a)), id)
  {
    if r.receiving {
      SweepCompletesSession(images, r, a);
    } else {
      var a' := ChunkLength(|images[id]|, 0);
      var c := Chunk(id, images[id], 0);
      ChunkBoundary(|images[id]|, 0);
      ReceiveKeepsInv(images, r, c);
      assert Sweep(id, images[id], 0)[1..] == Sweep(id, images[id], a');
      var r' := ReceiveData(r, c).0;
      if r'.receiving {
        SweepCompletesSession(images, r', a');
      } else {
        SweepAfterCompletion(images, r', id, a');
      }
    }
  }

  // ------------------------------------------- receivers a sweep cannot serve

  /** An open session of another image ignores the sweep; one whose position the
      sweep has already passed only asks for what it is missing. */
  lemma {:induction false} SweepPassesBy(images: map<nat, seq<byte>>, r: Receiver, id: u16, a: u16)
    requires r.receiving && r.addr < r.len <= |r.store| == MEMORY
    requires r.id != id || r.addr < a
    requires id in images && ValidImage(images[id]) && Boundary(a, |images[id]|)
    ensures ReceiveAll(r, Sweep(id, images[id], a)) == r
    decreases |images[id]| - a
  {
    if a < |images[id]| {
      var a' := a + ChunkLength(|images[id]|, a);
      var c := Chunk(id, images[id], a);
      ChunkBoundary(|images[id]|, a);
      assert CanReceive(r, c) && ReceiveData(r, c).0 == r;
      SweepPassesBy(images, r, id, a');
      assert Sweep(id, images[id], a)[1..] == Sweep(id, images[id], a');
    }
  }

  /** A waiting receiver that meets the sweep in mid-stream opens its session too
      late to be completed. */
  lemma SweepMetLate(images: map<nat, seq<byte>>, r: Receiver, id: u16, a: u16)
    requires ReceiverInv(images, r) && !r.receiving && r.id < id
    requires id in images && ValidImage(images[id]) && Boundary(a, |images[id]|) && a > 0
    ensures !Completed(images, ReceiveAll(r, Sweep(id, images[id], a)), id)
  {
    if a < |images[id]| {
      var a' := a + ChunkLength(|images[id]|, a);
      var c := Chunk(id, images[id], a);
      ChunkBoundary(|images[id]|, a);
      var r' := ReceiveData(r, c).0;
      assert r'.receiving && r'.id == id && r'.addr == |c.bytes| < a';
      SweepPassesBy(images, r', id, a');
      assert Sweep(id, images[id], a)[1..] == Sweep(id, images[id], a');
    }
  }

  /** The receivers that a sweep from the sender's position serves: an open
      session of its image that it has not passed, one that waits for the image
      while the sweep is at its beginning, and one that has the image. */
  predicate Reached(s: Sender, r: Receiver) {
    if r.receiving then r.id == s.id && s.addr <= r.addr
    else r.id == s.id || (r.id < s.id && s.addr == 0)
  }

  /** In every reachable state, if from here on the sender hears no NACK and
      nothing is lost, exactly the receivers it can reach end up completed,
      whatever state the others are in. */
  lemma SweepCompletesIff(s: Net, steps: seq<Step>, t: Net, i: nat)
    requires Init(s) && Run(s, steps, t) && t.sender.image != [] && i < |t.receivers|
    ensures ValidImage(t.sender.image) && t.sender.addr <= |t.sender.image|
    ensures t.sender.id in t.images && t.images[t.sender.id] == t.sender.image
    ensures Completed(t.images, ReceiveAll(t.receivers[i], Undisturbed(t.sender)), t.sender.id)
            <==> Reached(t.sender, t.receivers[i])
  {
    RunKeepsInv(s, steps, t);
    var r, id, a := t.receivers[i], t.sender.id, t.sender.addr;
    UndisturbedIsSweep(t.sender);
    assert ReceiverInv(t.images, r);
    if !r.receiving && r.id == id {
      SweepAfterCompletion(t.images, r, id, a);
    } else if Reached(t.sender, r) {
      SweepCompletes(t.images, r, id, a);
    } else if r.receiving {
      SweepPassesBy(t.images, r, id, a);
    } else {
      SweepMetLate(t.images, r, id, a);
    }
  }

  /** Hence all receivers at once, those included that already have the image. */
  lemma SweepCompletesAll(s: Net, steps: seq<Step>, t: Net)
    requires Init(s) && Run(s, steps, t) && t.sender.image != []
    ensures ValidImage(t.sender.image) && t.sender.addr <= |t.sender.image|
    ensures t.sender.id in t.images
    ensures (forall i :: 0 <= i < |t.receivers| ==>
               Completed(t.images, ReceiveAll(t.receivers[i], Undisturbed(t.sender)), t.sender.id))
            <==> (forall i :: 0 <= i < |t.receivers| ==> Reached(t.sender, t.receivers[i]))
  {
    hide Run, Reached, Completed, ReceiveAll, Undisturbed;
    RunKeepsInv(s, steps, t);
    forall i | 0 <= i < |t.receivers|
      ensures Completed(t.images, ReceiveAll(t.receivers[i], Undisturbed(t.sender)), t.sender.id)
              <==> Reached(t.sender, t.receivers[i])
    {
      SweepCompletesIff(s, steps, t, i);
    }
  }
}
