/** What single handlers do for the protocol: who is drawn into a request by whose
    advertisement, what a request gets, what a damaged packet does. */
module DelugeHandlers {
  import opened DelugeNode
  import opened DelugeNetwork
  import opened DelugeProgress
  import opened DelugeChecksum

  // ----------------------------------------------------------- advertisements

  /** The node is ahead of one that has `pages` pages of the new image. */
  ghost predicate Ahead(u: Update, n: Node, pages: nat)
    requires u.Valid() && NodeInv(u, n)
  {
    Done(u, n) || (Updating(u, n) && pages < n.currentRxPage)
  }

  /** An updating node goes to RX, with its request timer armed, on the summary of
      exactly the nodes that have more pages of the new version than it has. */
  lemma SummaryDrawsRequestIff(u: Update, n: Node, n': Node, recent: bool)
    requires u.Valid() && NodeInv(u, n) && NodeInv(u, n') && Updating(u, n')
    ensures var r := HandleSummary(n', AdvertiseSummary(n), recent);
      if !recent && Ahead(u, n, n'.currentRxPage)
      then r.mode.Rx? && r.rxTimer && SameObject(n', r) && RequestOf(r).pagenum == n'.currentRxPage
      else r == n'
  {
    HighestOfPrefix(n'.pages, n'.currentRxPage);
    var m := AdvertiseSummary(n);
    SummaryTellsPages(u, n);
    assert m.highestAvailable <= |n'.pages|;
    hide AdvertiseSummary, HighestAvailable, NodeInv;
  }

  /** A summary names the version a node is updating to, and how many pages of it
      the node has. */
  lemma SummaryTellsPages(u: Update, n: Node)
    requires u.Valid() && NodeInv(u, n)
    ensures AdvertiseSummary(n) ==
      Summary(if Idle(u, n) then u.v0 else u.v1, if Updating(u, n) then n.currentRxPage else |u.image|)
  {
    if Updating(u, n) {
      HighestOfPrefix(n.pages, n.currentRxPage);
    } else {
      HighestOfAll(n.pages);
    }
  }

  /** The request so drawn is served by complete nodes only: a node that is itself
      still updating ignores it, though its summary asked for it. */
  lemma OnlyCompleteNodesServe(u: Update, n: Node, n': Node)
    requires u.Valid() && NodeInv(u, n) && NodeInv(u, n') && Updating(u, n')
    ensures !Done(u, n) ==> HandleRequest(n, RequestOf(n')) == n
    ensures Done(u, n) ==>
      var r := HandleRequest(n, RequestOf(n'));
      r.mode.Tx? && r.txTimer && r.currentTxPage == n'.currentRxPage && CanTransmit(r)
  {
    if Done(u, n) {
      HighestOfAll(n.pages);
      RequestAccepted(n, RequestOf(n'));
      assert 7 in BYTE - n'.pages[n'.currentRxPage].packetSet;
    }
  }

  /** A node that has not heard of the update is started by the profile of exactly
      the complete nodes, if the update can start at all; it then asks for the
      whole of page 0. */
  lemma ProfileStartsIff(u: Update, n: Node, n': Node, recent: bool)
    requires u.Valid() && NodeInv(u, n) && NodeInv(u, n') && Idle(u, n')
    ensures var r := Receive(n', SendProfile(n), recent);
      if Done(u, n) && Startable(u)
      then Updating(u, r) && r.mode.Rx? && r.rxTimer && RequestOf(r) == Request(u.v1, 0, BYTE)
      else r == n'
  {
    var m := SendProfile(n);
    if Done(u, n) {
      assert m.vector == seq(|u.image|, _ => u.v1);
      NewProfilePassesIff(u, m);
    }
    ProfileKeepsInv(u, n', m);
  }

  /** A page whose version the vector does not raise is left alone; any other
      becomes an empty page of the version named. */
  lemma AdoptedPages(pages: seq<Page>, vector: seq<uint8>, i: nat)
    requires |vector| == |pages| && i < |pages|
    ensures var page := AdoptPages(pages, vector)[i];
      && page.version == (if vector[i] > pages[i].version then vector[i] else pages[i].version)
      && (page.version == pages[i].version ==> page == pages[i])
      && (page.version > pages[i].version ==> !page.complete && page.packetSet == {})
  {
  }

  /** A profile of a newer version sends the node back to the first page that it
      lacks or that the vector names newer; what it was sending is dropped, what it
      has stored stays. Any other profile is ignored. */
  lemma ProfileTakenUp(n: Node, m: Msg)
    requires m.Profile? && |m.vector| == |n.pages|
    ensures m.version <= n.updateVersion ==> HandleProfile(n, m) == n
    ensures m.version > n.updateVersion ==>
      var n' := HandleProfile(n, m); var p := n'.currentRxPage;
      && n'.mode.Rx? && n'.rxTimer && n'.txSet == {}
      && n'.updateVersion == m.version && n'.version == n.version
      && n'.store == n.store && n'.currentPage == n.currentPage
      && p <= |n.pages|
      && (forall i :: 0 <= i < p ==> n.pages[i].complete && m.vector[i] <= n.pages[i].version)
      && (p < |n.pages| ==> !n.pages[p].complete || m.vector[p] > n.pages[p].version)
  {
    if m.version > n.updateVersion {
      var pages := AdoptPages(n.pages, m.vector);
      forall i | 0 <= i < HighestAvailable(pages)
        ensures n.pages[i].complete && m.vector[i] <= n.pages[i].version
      {
        assert pages[i].complete && pages[i] == AdoptPage(n.pages[i], m.vector[i]);
      }
    }
  }

  /** An object freshly disseminated is advertised whole; no timer of a request or of
      a transmission runs, and no summary of pages it has draws a request. */
  lemma FreshObject(store: seq<seq<Octet>>, v: uint8, m: Msg, recent: bool)
    requires m.Summary? && WholePages(store) && store != []
    ensures var n := InitObject(store, v);
      && AdvertiseSummary(n) == Summary(v, |store|)
      && !n.rxTimer && !n.txTimer && n.mode.Maintain? && n.nrequests == 0 && n.store == store
      && TxPackets(n) == []
      && (m.version != v || m.highestAvailable <= |store| ==> HandleSummary(n, m, recent) == n)
  {
    HighestOfAll(InitObject(store, v).pages);
  }

  // ------------------------------------------------------- requests and answers

  /** The page number of a request goes through a signed byte: of the pages a node has
      and is asked for, it can send exactly the first 128. */
  lemma PageServedIff(n: Node, m: Msg)
    requires m.Request? && m.version == n.version && m.requestSet != {}
    requires m.pagenum < 256 && m.pagenum < |n.pages| && m.pagenum <= HighestAvailable(n.pages)
    requires m.pagenum != n.currentTxPage
    ensures var n' := HandleRequest(n, m);
      && n'.mode.Tx? && n'.txTimer
      && (CanTransmit(n') <==> m.pagenum < 128)
      && n'.currentTxPage == if m.pagenum < 128 then m.pagenum else m.pagenum - 256
  {
  }

  /** A round has two requests: after the first the timer runs on, after the second
      it does not and the round is over, whatever state the node was in. */
  lemma TwoRequestsARound(n: Node)
    requires n.nrequests == 0
    ensures var a := SendRequest(n); var b := SendRequest(a);
      && a.rxTimer && a.mode == n.mode && SameObject(n, a)
      && !b.rxTimer && b.mode.Maintain? && b.nrequests == 0 && SameObject(n, b)
  {
  }

  /** An updating node asks for its current page under the new version, and for
      exactly the packets it lacks. */
  lemma RequestAsksMissing(u: Update, n: Node, k: nat)
    requires u.Valid() && NodeInv(u, n) && Updating(u, n) && k < 4
    ensures RequestOf(n).version == u.v1 && RequestOf(n).pagenum == n.currentRxPage
    ensures k in RequestOf(n).requestSet <==> k !in n.pages[n.currentRxPage].packetSet
  {
  }

  /** A complete node that was not transmitting answers with exactly those packets. */
  lemma AnswerIsMissing(u: Update, n: Node, src: Node, m: Msg)
    requires u.Valid() && NodeInv(u, n) && Updating(u, n)
    requires NodeInv(u, src) && Done(u, src) && src.txSet == {}
    ensures var p := n.currentRxPage;
      m in Served(u, src, RequestOf(n)) <==>
        && m.Packet? && m.packetnum < 4 && m.packetnum !in n.pages[p].packetSet
        && m == Packet(u.v1, p, m.packetnum, Checksum(Slice(u.image[p], m.packetnum)),
                       Slice(u.image[p], m.packetnum))
  {
    var req := RequestOf(n);
    HighestOfAll(src.pages);
    RequestKeepsInv(u, src, req);
    SameAfterRequest(src, req);
    RequestAccepted(src, req);
    PagePacketsExact(u.v1, req.pagenum, u.image[req.pagenum], HandleRequest(src, req).txSet, N_PKT, m);
  }

  /** Packets below number `k`, in order, each at most once. */
  predicate InOrder(sent: seq<Msg>, k: nat) {
    && (forall i :: 0 <= i < |sent| ==> sent[i].Packet? && sent[i].packetnum < k)
    && forall i, j :: 0 <= i < j < |sent| ==> sent[i].packetnum < sent[j].packetnum
  }

  lemma OneMoreInOrder(sent: seq<Msg>, k: nat, m: Msg)
    requires InOrder(sent, k) && m.Packet? && m.packetnum == k
    ensures InOrder(sent + [m], k + 1)
  {
  }

  /** Packets of a page go out in order, each once. */
  lemma {:induction false} PacketsInOrder(v: uint8, p: nat, buf: seq<Octet>, sel: Bits, k: nat)
    requires |buf| == S_PAGE && k <= N_PKT
    ensures InOrder(PagePackets(v, p, buf, sel, k), k)
  {
    if k > 0 {
      PacketsInOrder(v, p, buf, sel, k - 1);
      var before := PagePackets(v, p, buf, sel, k - 1);
      if k - 1 in sel {
        OneMoreInOrder(before, k - 1, PagePackets(v, p, buf, sel, k)[|before|]);
      } else {
        assert PagePackets(v, p, buf, sel, k) == before + [];
        assert before + [] == before;
      }
    }
  }

  /** A page is its four packets of 32 bytes one behind the other. */
  lemma PageIsItsPackets(page: seq<Octet>)
    requires |page| == 128
    ensures Slice(page, 0) + Slice(page, 1) + Slice(page, 2) + Slice(page, 3) == page
    ensures forall k :: 0 <= k < 4 ==> |Slice(page, k)| == 32
  {
  }

  /** A transmission ends the TX state: nothing of it is sent a second time. */
  lemma TransmissionEnds(n: Node)
    requires CanTransmit(n) && n.currentTxPage < |n.pages| == |n.store| && WholePages(n.store)
    ensures var n' := TxCallback(n);
      && TxPackets(n') == [] && n'.mode.Maintain? && !n'.txTimer && n'.currentTxPage == -1
      && SameObject(n, n') && n'.txSet == {} && (n.mode.Tx? ==> n'.rxTimer == n.rxTimer)
  {
  }

  /** A transmit timer that finds nothing to send runs out and changes nothing else. */
  lemma NothingToSend(n: Node)
    requires !CanTransmit(n)
    ensures var n' := TxCallback(n);
      && !n'.txTimer && n'.rxTimer == n.rxTimer && n'.mode == n.mode && n'.txSet == n.txSet
      && n'.currentTxPage == n.currentTxPage && SameObject(n, n')
  {
  }

  /** Leaving a state disarms that state's timer and no other. */
  lemma LeavingDisarms(n: Node, m: Mode)
    ensures var n' := Transition(n, m);
      && n'.mode == m && SameObject(n, n') && n'.txSet == n.txSet && n'.currentTxPage == n.currentTxPage
      && (n'.rxTimer <==> n.rxTimer && !n.mode.Rx?)
      && (n'.txTimer <==> n.txTimer && !n.mode.Tx?)
  {
  }

  // ------------------------------------------------------------ damaged packets

  /** A packet whose checksum does not fit is never recorded, and completes nothing. */
  lemma WrongChecksumIgnored(n: Node, m: Msg)
    requires m.Packet? && m.packetnum < N_PKT && |m.payload| == S_PKT
    requires |n.currentPage| == S_PAGE && |n.store| == |n.pages|
    requires m.pagenum == n.currentRxPage ==> m.pagenum < |n.pages|
    requires m.crc != Checksum(m.payload)
    ensures var n' := HandlePacket(n, m);
      && n'.pages == n.pages && n'.store == n.store && n'.version == n.version
      && n'.currentRxPage == n.currentRxPage && n'.rxTimer == n.rxTimer && n'.mode == n.mode
  {
  }

  /** Hence a packet with one byte damaged on the way is never recorded. */
  lemma DamagedPacketIgnored(u: Update, n: Node, m: Msg, i: nat, b: Octet)
    requires u.Valid() && NodeInv(u, n) && m.Packet? && MsgInv(u, m)
    requires i < S_PKT && b != m.payload[i]
    ensures var n' := HandlePacket(n, m.(payload := m.payload[i := b]));
      && n'.pages == n.pages && n'.store == n.store && n'.version == n.version
      && n'.currentRxPage == n.currentRxPage
  {
    OneDamagedByteShows(m.payload, i, b);
    WrongChecksumIgnored(n, m.(payload := m.payload[i := b]));
  }

  /** But its bytes are in the page buffer before the checksum is looked at: if the
      packet had been received well before, its bit stays set over wrong bytes, and
      the node is no longer sure to assemble the image. */
  lemma DamagedPacketSpoilsSlot(u: Update, n: Node, m: Msg, i: nat, b: Octet)
    requires u.Valid() && NodeInv(u, n) && Updating(u, n) && m.Packet? && MsgInv(u, m)
    requires m.pagenum == n.currentRxPage && i < S_PKT && b != m.payload[i]
    ensures var p, n' := n.currentRxPage, HandlePacket(n, m.(payload := m.payload[i := b]));
      && Slice(n'.currentPage, m.packetnum) != Slice(u.image[p], m.packetnum)
      && (NodeInv(u, n') <==> m.packetnum !in n.pages[p].packetSet)
  {
    var bad := m.payload[i := b];
    OneDamagedByteShows(m.payload, i, b);
    assert bad[i] != m.payload[i];
    forall k | 0 <= k < N_PKT
      ensures Slice(Patch(n.currentPage, m.packetnum, bad), k)
           == if k == m.packetnum then bad else Slice(n.currentPage, k)
    {
      PatchSlices(n.currentPage, m.packetnum, bad, k);
    }
  }
}
