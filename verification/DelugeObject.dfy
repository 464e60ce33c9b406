/** The static `current_object` and `deluge_state` of a Deluge node, changed in
    place by the handlers.  Every method computes the step that DelugeNode
    describes on values. */
module DelugeObject {
  import opened DelugeNode

  class Object {
    var version: uint8
    var updateVersion: uint8
    var pages: seq<Page>
    var currentRxPage: nat
    var currentTxPage: int
    var txSet: Bits
    var nrequests: uint8
    const currentPage: array<Octet>
    var file: seq<seq<Octet>>
    var mode: Mode
    var rxTimer: bool
    var txTimer: bool

    ghost function State(): Node
      reads this, currentPage
    {
      Node(version, updateVersion, pages, currentRxPage, currentTxPage, txSet, nrequests,
           currentPage[..], file, mode, rxTimer, txTimer)
    }

    ghost predicate Valid()
      reads this
    {
      currentPage.Length == S_PAGE && |file| == |pages|
    }

    constructor (store: seq<seq<Octet>>, version: uint8)
      ensures Valid() && fresh(currentPage)
      ensures State() == InitObject(store, version)
    {
      this.version, updateVersion := version, version;
      pages := seq(|store|, _ => Page(version, ALL_PACKETS, true));
      currentRxPage, currentTxPage, txSet, nrequests := 0, 0, {}, 0;
      currentPage := new Octet[S_PAGE](_ => 0);
      file := store;
      mode, rxTimer, txTimer := Maintain, false, false;
      new;
      assert currentPage[..] == seq(S_PAGE, _ => 0);
    }

    method Become(m: Mode)
      modifies this
      ensures State() == Transition(old(State()), m)
    {
      match mode {
        case Maintain =>
        case Rx => rxTimer := false;
        case Tx => txTimer := false;
      }
      mode := m;
    }

    method HighestAvailablePage() returns (i: nat)
      ensures i == HighestAvailable(pages)
    {
      i := 0;
      while i < |pages| && pages[i].complete
        invariant i <= |pages|
        invariant HighestAvailable(pages) == i + HighestAvailable(pages[i..])
      {
        i := i + 1;
      }
    }

    static method ComputeChecksum(buf: seq<Octet>) returns (sum: bv16)
      ensures sum == Checksum(buf)
    {
      sum := 0;
      for i := 0 to |buf|
        invariant ChecksumFrom(buf[i..], sum) == Checksum(buf)
      {
        sum := Crc16Add(buf[i], sum);
      }
    }

    method RequestTimerFires() returns (request: Msg)
      requires Valid() && currentRxPage < |pages|
      modifies this
      ensures Valid() && request == RequestOf(old(State()))
      ensures State() == SendRequest(old(State()))
    {
      request := Request(pages[currentRxPage].version, currentRxPage,
                         BYTE - pages[currentRxPage].packetSet);
      nrequests, rxTimer := (nrequests + 1) % 256, false;
      if nrequests == CONST_LAMBDA {
        nrequests := 0;
        Become(Maintain);
      } else {
        rxTimer := true;
      }
    }

    method OnSummary(m: Msg, recent: bool)
      requires Valid() && m.Summary?
      modifies this
      ensures Valid() && State() == HandleSummary(old(State()), m, recent)
    {
      var highest := HighestAvailablePage();
      if m.version == updateVersion && m.highestAvailable > highest {
        if m.highestAvailable > |pages| || recent {
          return;
        }
        Become(Rx);
        rxTimer := true;
      }
    }

    method OnRequest(m: Msg)
      requires Valid() && m.Request?
      modifies this
      ensures Valid() && State() == HandleRequest(old(State()), m)
    {
      if m.pagenum >= |pages| {
        return;
      }
      var highest := HighestAvailablePage();
      if m.version == version && m.pagenum <= highest {
        if m.pagenum == currentTxPage {
          txSet := txSet + m.requestSet;
        } else {
          currentTxPage := Int8(m.pagenum);
          txSet := m.requestSet;
        }
        Become(Tx);
        txTimer := true;
      }
    }

    /** Divides a page into packets and emits the selected ones in order. */
    static method CutPage(v: uint8, p: nat, buf: seq<Octet>, sel: Bits) returns (sent: seq<Msg>)
      requires |buf| == S_PAGE
      ensures sent == PagePackets(v, p, buf, sel, N_PKT)
    {
      sent := [];
      var k := 0;
      while k < N_PKT
        invariant k <= N_PKT
        invariant sent == PagePackets(v, p, buf, sel, k)
      {
        if k in sel {
          var crc := ComputeChecksum(Slice(buf, k));
          sent := sent + [Packet(v, p, k, crc, Slice(buf, k))];
        }
        k := k + 1;
      }
    }

    method SendPage(p: nat) returns (sent: seq<Msg>)
      requires Valid() && p < |pages| && |file[p]| == S_PAGE
      modifies this`txSet
      ensures Valid() && txSet == {}
      ensures sent == PagePackets(pages[p].version, p, file[p], old(txSet), N_PKT)
    {
      sent := CutPage(pages[p].version, p, file[p], txSet);
      txSet := {};
    }

    method TransmitTimerFires() returns (sent: seq<Msg>)
      requires Valid() && currentTxPage < |pages|
      requires forall i :: 0 <= i < |file| ==> |file[i]| == S_PAGE
      modifies this
      ensures Valid() && sent == TxPackets(old(State()))
      ensures State() == TxCallback(old(State()))
    {
      txTimer := false;
      sent := [];
      if currentTxPage >= 0 && txSet != {} {
        sent := SendPage(currentTxPage);
        currentTxPage := -1;
        Become(Maintain);
      }
    }

    method CopyPacket(k: nat, payload: seq<Octet>)
      requires currentPage.Length == S_PAGE && k < N_PKT && |payload| == S_PKT
      modifies currentPage
      ensures currentPage[..] == Patch(old(currentPage[..]), k, payload)
    {
      forall i | 0 <= i < S_PKT {
        currentPage[S_PKT * k + i] := payload[i];
      }
    }

    method WriteFinishedPage(p: nat)
      requires Valid() && p < |pages|
      modifies this
      ensures Valid() && State() == FinishPage(old(State()), p)
    {
      file := file[p := currentPage[..]];
      pages := pages[p := pages[p].(complete := true)];
      currentRxPage := currentRxPage + 1;
      if p == |pages| - 1 {
        version := updateVersion;
      } else if currentRxPage < |pages| {
        rxTimer := true;
      }
      Become(Maintain);
    }

    method OnPacket(m: Msg)
      requires Valid() && m.Packet? && m.packetnum < N_PKT && |m.payload| == S_PKT
      requires m.pagenum == currentRxPage ==> m.pagenum < |pages|
      modifies this, currentPage
      ensures Valid() && State() == HandlePacket(old(State()), m)
    {
      if m.pagenum != currentRxPage {
        return;
      }
      var page := pages[m.pagenum];
      if m.version == page.version && !page.complete {
        CopyPacket(m.packetnum, m.payload);
        var crc := ComputeChecksum(m.payload);
        if m.crc != crc {
          return;
        }
        page := page.(packetSet := page.packetSet + {m.packetnum});
        pages := pages[m.pagenum := page];
        if page.packetSet == ALL_PACKETS {
          WriteFinishedPage(m.pagenum);
        }
      }
    }

    method BuildProfile() returns (m: Msg)
      ensures m == SendProfile(State())
    {
      var vector: seq<uint8> := [];
      for i := 0 to |pages|
        invariant |vector| == i
        invariant forall j :: 0 <= j < i ==> vector[j] == pages[j].version
      {
        vector := vector + [pages[i].version];
      }
      m := Profile(version, vector);
      assert vector == SendProfile(State()).vector;
    }

    /** Forgets every page of which the vector names a newer version. */
    method AdoptVersions(vector: seq<uint8>)
      requires |vector| == |pages|
      modifies this`pages
      ensures pages == AdoptPages(old(pages), vector)
    {
      for i := 0 to |vector|
        invariant |pages| == |vector|
        invariant forall j :: 0 <= j < |pages| ==>
          pages[j] == if j < i then AdoptPage(old(pages)[j], vector[j]) else old(pages)[j]
      {
        if vector[i] > pages[i].version {
          pages := pages[i := Page(vector[i], {}, false)];
        }
      }
    }

    method OnProfile(m: Msg)
      requires m.Profile? && Valid() && |m.vector| == |pages|
      modifies this
      ensures Valid() && State() == HandleProfile(old(State()), m)
    {
      if m.version <= updateVersion {
        return;
      }
      txSet := {};
      AdoptVersions(m.vector);
      currentRxPage := HighestAvailablePage();
      updateVersion := m.version;
      assert State() == old(State()).(
        txSet := {}, pages := AdoptPages(old(pages), m.vector),
        currentRxPage := HighestAvailable(AdoptPages(old(pages), m.vector)), updateVersion := m.version);
      Become(Rx);
      rxTimer := true;
    }

    /** Dispatch by command; a profile has to pass the length test first. */
    method OnMessage(m: Msg, recent: bool)
      requires Valid()
      requires m.Packet? ==> m.packetnum < N_PKT && |m.payload| == S_PKT
      requires m.Packet? && m.pagenum == currentRxPage ==> m.pagenum < |pages|
      requires m.Profile? ==> |m.vector| == |pages|
      modifies this, currentPage
      ensures Valid() && State() == Receive(old(State()), m, recent)
    {
      match m
      case Summary(_, _) => OnSummary(m, recent);
      case Request(_, _, _) => OnRequest(m);
      case Packet(_, _, _, _, _) => OnPacket(m);
      case Profile(_, vector) =>
        var len := if 5 + |vector| > PACKETBUF_SIZE then PACKETBUF_SIZE else 5 + |vector|;
        if vector == [] || len >= 5 + |vector| * vector[0] {
          OnProfile(m);
        }
    }
  }
}
