/** The code propagation protocol: one sender, any number of receivers, a
    channel that may lose, duplicate and reorder.

    The functions give the effect of each wake-up of the two protothreads of
    contiki/apps/codeprop/codeprop.c on values; CodepropNode.dfy runs them in
    place, CodepropNetwork.dfy puts them on a channel. */
module Codeprop {
  import opened Bytes
  import opened Wrappers

  const UDPDATASIZE: nat := 32
  const MEMORY: nat := 0x1_0000         // bytes of EEPROM an address can reach

  /** A datagram of TYPE_DATA.  A NACK is just the address it carries. */
  datatype Data = Data(id: u16, addr: u16, len: u16, bytes: seq<byte>)

  /** `Asleep`: STATE_NONE.  `Called`: STATE_SENDING_UDPDATA, thread not yet
      scheduled.  `Pausing`: between two packets. */
  datatype SendPhase = Asleep | Called | Pausing

  datatype Sender = Sender(id: u16, addr: u16, image: seq<byte>, phase: SendPhase)

  /** `started` lists the programs handed to the loader, with their ids. */
  datatype Receiver = Receiver(
    id: u16, addr: u16, len: u16, receiving: bool, store: seq<byte>, started: seq<(u16, seq<byte>)>)

  predicate ValidImage(image: seq<byte>) {
    |image| < MEMORY
  }

  // ------------------------------------------------------------------ sender

  function ChunkLength(len: nat, addr: nat): nat
    requires addr <= len
  {
    if len - addr > UDPDATASIZE then UDPDATASIZE else len - addr
  }

  /** The packet `send_udpdata` builds at position `addr`. */
  function Chunk(id: u16, image: seq<byte>, addr: u16): Data
    requires ValidImage(image) && addr <= |image|
  {
    Data(id, addr, |image|, image[addr .. addr + ChunkLength(|image|, addr)])
  }

  /** A new image has been loaded: `codeprop_start_broadcast`. */
  function StartBroadcast(s: Sender, image: seq<byte>): Sender
    requires ValidImage(image)
  {
    Sender((s.id as int + 1) % 0x1_0000, 0, image, if s.phase == Pausing then Pausing else Called)
  }

  /** The test of the for loop: one more packet, or the end of the broadcast. */
  function LoopTest(s: Sender): (Sender, Option<Data>)
    requires ValidImage(s.image) && s.addr <= |s.image|
  {
    if s.addr < |s.image| then
      (s.(addr := s.addr + ChunkLength(|s.image|, s.addr), phase := Pausing),
       Some(Chunk(s.id, s.image, s.addr)))
    else (s.(phase := Asleep), None)
  }

  /** The thread is scheduled, or the pause after a packet is over. */
  function SenderWakes(s: Sender): (Sender, Option<Data>)
    requires ValidImage(s.image) && s.addr <= |s.image|
  {
    match s.phase
    case Asleep => (s, None)
    case Called => LoopTest(s.(addr := 0))
    case Pausing => LoopTest(s)
  }

  /** A NACK is accepted only if it points to a lower or the same byte. */
  function SenderHears(s: Sender, nack: u16): Sender {
    if s.phase == Pausing && nack <= s.addr then s.(addr := nack) else s
  }

  // ---------------------------------------------------------------- receiver

  function Write(store: seq<byte>, at: nat, bytes: seq<byte>): (r: seq<byte>)
    requires at + |bytes| <= |store|
    ensures |r| == |store|
  {
    store[.. at] + bytes + store[at + |bytes| ..]
  }

  /** The tail of the session loop: wait for more, or hand over the program. */
  function Conclude(r: Receiver): Receiver
    requires r.len <= |r.store|
  {
    if r.addr < r.len then r.(receiving := true)
    else r.(receiving := false, started := r.started + [(r.id, r.store[.. r.len])])
  }

  predicate Fits(r: Receiver, addr: u16, bytes: seq<byte>) {
    addr == r.addr ==> r.addr + |bytes| <= |r.store| && r.addr + |bytes| < MEMORY
  }

  /** One round of the session loop on a packet whose header reads `addr`. */
  function SessionRound(r: Receiver, addr: u16, bytes: seq<byte>): (Receiver, Option<u16>)
    requires r.len <= |r.store| && Fits(r, addr, bytes)
  {
    if r.addr >= r.len then (Conclude(r), None)
    else if addr == r.addr then
      (Conclude(r.(store := Write(r.store, r.addr, bytes), addr := r.addr + |bytes|)), None)
    else if addr > r.addr then (Conclude(r), Some(r.addr))
    else (Conclude(r), None)
  }

  /** What a packet must satisfy for the receiver to stay inside its memory. */
  predicate CanReceive(r: Receiver, d: Data) {
    && |r.store| == MEMORY && r.len <= |r.store|
    && |d.bytes| <= UDPDATASIZE
    && Fits(r, d.addr, d.bytes)
  }

  /** A data packet reaches the receiving thread.  Outside a session a newer id
      opens one; if its first packet is not the first of the image, a NACK is
      written over the header, which the session then reads as address 0. */
  function ReceiveData(r: Receiver, d: Data): (Receiver, Option<u16>)
    requires CanReceive(r, d)
  {
    if r.receiving then
      if d.id == r.id then SessionRound(r, d.addr, d.bytes) else (r, None)
    else if d.id > r.id then
      var joined := r.(addr := 0, id := d.id, len := d.len);
      if d.addr == 0 then SessionRound(joined, 0, d.bytes)
      else (SessionRound(joined, 0, d.bytes).0, Some(0))
    else (r, None)
  }

  /** The NACK timer of a session expires. */
  function NackTimeout(r: Receiver): Option<u16> {
    if r.receiving then Some(r.addr) else None
  }

  // -------------------------------------------------------- joining mid-stream

  /** What the receiver believes to have is what the image starts with. */
  ghost predicate HoldsPrefix(r: Receiver, image: seq<byte>) {
    r.addr <= |r.store| && r.addr <= |image| && r.store[.. r.addr] == image[.. r.addr]
  }

  /** A session opened by a packet from the middle of an image takes its bytes
      for the beginning.  It can be relied on exactly when the packet that opens
      it has address 0. */
  lemma JoinCorrectIff(r: Receiver, id: u16, len: u16, addr: u16)
    requires !r.receiving && r.id < id && |r.store| == MEMORY && r.len <= MEMORY
    requires addr < len && addr % UDPDATASIZE == 0
    ensures (forall image: seq<byte> | |image| == len ::
               HoldsPrefix(ReceiveData(r, Chunk(id, image, addr)).0, image))
            <==> addr == 0
  {
    if addr == 0 {
      forall image: seq<byte> | |image| == len
        ensures HoldsPrefix(ReceiveData(r, Chunk(id, image, addr)).0, image)
      {
        var r' := ReceiveData(r, Chunk(id, image, addr)).0;
        assert r'.store[.. r'.addr] == image[.. r'.addr];
      }
    } else {
      var image: seq<byte> := seq(len, i => if i < addr then 0 else 1);
      assert |image| == len;
      var r' := ReceiveData(r, Chunk(id, image, addr)).0;
      assert r'.addr > 0;
      assert Chunk(id, image, addr).bytes[0] == image[addr] == 1;
      assert r'.store[0] == 1 && image[0] == 0;
      assert r'.store[.. r'.addr][0] == 1 && image[.. r'.addr][0] == 0;
      assert !HoldsPrefix(r', image);
    }
  }
}
