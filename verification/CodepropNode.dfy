/** The two protothreads of a code propagation node, working in place on the
    static record `s` and the EEPROM. */
module CodepropNode {
  import opened Bytes
  import opened Wrappers
  import opened Codeprop

  ghost predicate CoversByte(sent: seq<Data>, j: nat) {
    exists k :: 0 <= k < |sent| && sent[k].addr <= j < sent[k].addr + |sent[k].bytes|
  }

  /** The NACKs of one pause, in order of arrival. */
  ghost function HearsAll(s: Sender, nacks: seq<u16>): (s': Sender)
    ensures s' == s.(addr := s'.addr) && s'.addr <= s.addr
    decreases |nacks|
  {
    if nacks == [] then s
    else
      var rest := HearsAll(s, nacks[.. |nacks| - 1]);
      SenderHears(rest, nacks[|nacks| - 1])
  }

  /** The broadcast loop from its test on; `heard` lists the NACKs of each of
      the pauses to come, and no NACK comes after those. */
  ghost function Broadcast(s: Sender, heard: seq<seq<u16>>): (seq<Data>, Sender)
    requires ValidImage(s.image) && s.addr <= |s.image|
    decreases |heard|, |s.image| - s.addr
  {
    var (s', out) := LoopTest(s);
    if out.None? then ([], s')
    else
      var (more, end) := if heard == [] then Broadcast(HearsAll(s', []), [])
                         else Broadcast(HearsAll(s', heard[0]), heard[1..]);
      ([out.value] + more, end)
  }

  lemma BroadcastEnds(s: Sender, heard: seq<seq<u16>>)
    requires ValidImage(s.image) && s.addr == |s.image|
    ensures Broadcast(s, heard) == ([], s.(phase := Asleep))
  {
  }

  lemma BroadcastGoesOn(s: Sender, heard: seq<seq<u16>>, d: Data, next: Sender)
    requires ValidImage(s.image) && s.addr < |s.image|
    requires LoopTest(s).1 == Some(d)
    requires next == HearsAll(LoopTest(s).0, if heard == [] then [] else heard[0])
    ensures var more := Broadcast(next, if heard == [] then [] else heard[1..]);
            Broadcast(s, heard).0 == [d] + more.0 && Broadcast(s, heard).1 == more.1
  {
  }

  lemma CoversMore(d: Data, more: seq<Data>, end: nat)
    requires forall j :: d.addr + |d.bytes| <= j < end ==> CoversByte(more, j)
    ensures forall j :: d.addr <= j < end ==> CoversByte([d] + more, j)
  {
    var sent := [d] + more;
    forall j | d.addr <= j < end ensures CoversByte(sent, j) {
      if j < d.addr + |d.bytes| {
        assert sent[0] == d;
      } else {
        assert CoversByte(more, j);
        var k :| 0 <= k < |more| && more[k].addr <= j < more[k].addr + |more[k].bytes|;
        assert sent[k + 1] == more[k];
      }
    }
  }

  /** Whatever NACKs arrive, a broadcast comes to rest at the end of the image;
      every packet it sent is the slice of the image at its address, and every
      byte from the starting position on has been in some packet. */
  lemma {:induction false} BroadcastCovers(s: Sender, heard: seq<seq<u16>>)
    requires ValidImage(s.image) && s.addr <= |s.image|
    ensures var (sent, end) := Broadcast(s, heard);
      && end == s.(addr := |s.image|, phase := Asleep)
      && (forall k :: 0 <= k < |sent| ==>
            sent[k].addr < |s.image| && sent[k] == Chunk(s.id, s.image, sent[k].addr))
      && (forall j :: s.addr <= j < |s.image| ==> CoversByte(sent, j))
    decreases |heard|, |s.image| - s.addr
  {
    hide SenderHears, CoversByte;
    var (s', out) := LoopTest(s);
    if out.Some? {
      var next := HearsAll(s', if heard == [] then [] else heard[0]);
      var rest := if heard == [] then [] else heard[1..];
      BroadcastCovers(next, rest);
      var more := Broadcast(next, rest).0;
      assert Broadcast(s, heard).0 == [out.value] + more;
      CoversMore(out.value, more, |s.image|);
    }
  }

  class SenderThread {
    var id: u16
    var addr: u16
    var len: u16
    var phase: SendPhase
    const eeprom: array<byte>

    ghost predicate Valid()
      reads this, eeprom
    {
      eeprom.Length == MEMORY && addr <= len
    }

    ghost function State(): Sender
      reads this, eeprom
      requires Valid()
    {
      Sender(id, addr, eeprom[.. len], phase)
    }

    constructor ()
      ensures Valid() && fresh(eeprom) && State() == Sender(0, 0, [], Asleep)
    {
      eeprom := new byte[MEMORY](_ => 0);
      id, addr, len, phase := 0, 0, 0, Asleep;
    }

    /** `codeprop_start_broadcast`, the image being in the EEPROM already. */
    method Start(length: u16)
      requires Valid()
      modifies this
      ensures Valid() && State() == StartBroadcast(old(State()), eeprom[.. length])
    {
      addr := 0;
      len := length;
      id := (id as int + 1) % 0x1_0000;
      if phase == Asleep {
        phase := Called;
      }
    }

    method SendData() returns (d: Data)
      requires Valid()
      ensures d == Chunk(id, eeprom[.. len], addr)
    {
      var n := if len - addr > UDPDATASIZE then UDPDATASIZE else len - addr;
      d := Data(id, addr, len, eeprom[addr .. addr + n]);
    }

    /** The NACKs that arrive before the send timer expires. */
    method Pause(nacks: seq<u16>)
      requires Valid() && phase == Pausing
      modifies this`addr
      ensures Valid() && State() == HearsAll(old(State()), nacks)
    {
      for i := 0 to |nacks|
        invariant Valid() && State() == HearsAll(old(State()), nacks[.. i])
      {
        assert nacks[.. i + 1][.. i] == nacks[.. i];
        if nacks[i] <= addr {
          addr := nacks[i];
        }
      }
      assert nacks[.. |nacks|] == nacks;
    }

    /** One packet, and the pause after it. */
    method SendAndPause(nacks: seq<u16>) returns (d: Data)
      requires Valid() && addr < len
      modifies this`addr, this`phase
      ensures Valid()
      ensures LoopTest(old(State())).1 == Some(d)
      ensures State() == HearsAll(LoopTest(old(State())).0, nacks)
      ensures nacks == [] ==> addr > old(addr)
    {
      d := SendData();
      addr, phase := addr + |d.bytes|, Pausing;
      assert State() == LoopTest(old(State())).0;
      Pause(nacks);
    }

    /** One whole broadcast.  It ends whatever NACKs arrive in finitely many
        pauses; every byte of the image is then in some packet, and every packet
        is the slice of the image at its address. */
    method Broadcasts(heard: seq<seq<u16>>) returns (sent: seq<Data>)
      requires Valid() && phase == Called
      modifies this`addr, this`phase
      ensures Valid() && phase == Asleep && addr == len
      ensures sent == Broadcast(old(State()).(addr := 0), heard).0
      ensures State() == Broadcast(old(State()).(addr := 0), heard).1
      ensures forall k :: 0 <= k < |sent| ==>
                sent[k].addr < len && sent[k] == Chunk(id, eeprom[.. len], sent[k].addr)
      ensures forall j :: 0 <= j < len ==> CoversByte(sent, j)
    {
      hide Broadcast, LoopTest, HearsAll, CoversByte, Chunk;
      var pause := 0;
      sent := [];
      addr := 0;
      ghost var start, rest := State(), heard;
      while addr < len
        invariant Valid() && pause <= |heard| && rest == heard[pause ..]
        invariant sent + Broadcast(State(), rest).0 == Broadcast(start, heard).0
        invariant Broadcast(State(), rest).1 == Broadcast(start, heard).1
        decreases |rest|, len - addr
      {
        ghost var now, before := State(), sent;
        var d := SendAndPause(if pause < |heard| then heard[pause] else []);
        BroadcastGoesOn(now, rest, d, State());
        sent := sent + [d];
        if pause < |heard| {
          pause, rest := pause + 1, rest[1..];
        }
        ghost var more := Broadcast(State(), rest).0;
        assert before + ([d] + more) == sent + more;
      }
      BroadcastEnds(State(), rest);
      phase := Asleep;
      assert sent + [] == sent;
      BroadcastCovers(start, heard);
    }
  }

  class ReceiverThread {
    var id: u16
    var addr: u16
    var len: u16
    var receiving: bool
    var started: seq<(u16, seq<byte>)>
    const eeprom: array<byte>

    ghost predicate Valid()
      reads this
    {
      eeprom.Length == MEMORY
    }

    ghost function State(): Receiver
      reads this, eeprom
    {
      Receiver(id, addr, len, receiving, eeprom[..], started)
    }

    constructor ()
      ensures Valid() && fresh(eeprom)
      ensures State() == Receiver(0, 0, 0, false, eeprom[..], [])
    {
      eeprom := new byte[MEMORY](_ => 0);
      id, addr, len, receiving, started := 0, 0, 0, false, [];
    }

    method Store(at: nat, bytes: seq<byte>)
      requires at + |bytes| <= eeprom.Length
      modifies eeprom
      ensures eeprom[..] == Write(old(eeprom[..]), at, bytes)
    {
      forall i | 0 <= i < |bytes| {
        eeprom[at + i] := bytes[i];
      }
    }

    /** From the arrival of one packet in a session to the next wait. */
    method Round(header: u16, bytes: seq<byte>) returns (nack: Option<u16>)
      requires Valid() && Fits(State(), header, bytes)
      modifies this, eeprom
      ensures Valid() && (State(), nack) == SessionRound(old(State()), header, bytes)
    {
      nack := None;
      if addr < len {
        if header == addr {
          if |bytes| > 0 {
            Store(addr, bytes);
            addr := addr + |bytes|;
          } else {
            assert Write(eeprom[..], addr, bytes) == eeprom[..];
          }
        } else if header > addr {
          nack := Some(addr);
        }
      }
      if addr < len {
        receiving := true;
      } else {
        receiving := false;
        started := started + [(id, eeprom[.. len])];
        assert eeprom[..][.. len] == eeprom[.. len];
      }
    }

    method OnData(d: Data) returns (nack: Option<u16>)
      requires Valid() && CanReceive(State(), d)
      modifies this, eeprom
      ensures Valid() && (State(), nack) == ReceiveData(old(State()), d)
    {
      nack := None;
      if receiving {
        if d.id == id {
          nack := Round(d.addr, d.bytes);
        }
      } else if d.id > id {
        addr, id, len := 0, d.id, d.len;
        nack := Round(0, d.bytes);
        if d.addr != 0 {
          nack := Some(0);
        }
      }
    }
  }
}
