/** Any number of Deluge nodes carrying one update from version v0 to v1.

    Messages once sent stay in flight for ever and may be delivered to any node
    at any time, so loss, duplication and reordering are all runs of this model. */
module DelugeNetwork {
  import opened DelugeNode

  /** The update: image `image` under version `v1` replaces version `v0`. */
  datatype Update = Update(v0: uint8, v1: uint8, image: seq<seq<Octet>>) {
    ghost predicate Valid() {
      && v0 < v1
      && 1 <= |image| <= 128
      && WholePages(image)
    }
  }

  ghost predicate WholePages(store: seq<seq<Octet>>) {
    forall i :: 0 <= i < |store| ==> |store[i]| == S_PAGE
  }

  datatype Net = Net(nodes: seq<Node>, msgs: set<Msg>)

  datatype Step =
    | Deliver(i: nat, m: Msg, recent: bool)
    | SummaryTimer(i: nat)
    | ProfileTimer(i: nat)
    | RequestTimer(i: nat)
    | TxTimer(i: nat)

  // ------------------------------------------------------------- invariants

  ghost predicate AllPages(n: Node, v: uint8) {
    forall i :: 0 <= i < |n.pages| ==> n.pages[i] == Page(v, ALL_PACKETS, true)
  }

  ghost predicate Shape(u: Update, n: Node) {
    && |n.pages| == |n.store| == |u.image|
    && |n.currentPage| == S_PAGE
    && WholePages(n.store)
    && -1 <= n.currentTxPage < |u.image|
  }

  /** Not yet told of the update. */
  ghost predicate Idle(u: Update, n: Node) {
    && n.version == n.updateVersion == u.v0
    && AllPages(n, u.v0)
    && n.txSet == {}
    && !n.rxTimer
    && n.currentRxPage == 0
  }

  /** The packets recorded in `got` are in their slots of `buffer`. */
  ghost predicate Assembled(got: Bits, buffer: seq<Octet>, page: seq<Octet>)
    requires |buffer| == |page| == S_PAGE
  {
    && got <= ALL_PACKETS
    && got != ALL_PACKETS
    && forall k :: 0 <= k < N_PKT && k in got ==> Slice(buffer, k) == Slice(page, k)
  }

  /** Part-way through the update. */
  ghost predicate Updating(u: Update, n: Node)
    requires u.Valid() && Shape(u, n)
  {
    && n.version == u.v0 && n.updateVersion == u.v1
    && n.txSet == {}
    && n.currentRxPage < |n.pages|
    && (forall i :: 0 <= i < n.currentRxPage ==>
          n.pages[i] == Page(u.v1, ALL_PACKETS, true) && n.store[i] == u.image[i])
    && (forall i :: n.currentRxPage < i < |n.pages| ==> n.pages[i] == Page(u.v1, {}, false))
    && n.pages[n.currentRxPage].version == u.v1
    && !n.pages[n.currentRxPage].complete
    && Assembled(n.pages[n.currentRxPage].packetSet, n.currentPage, u.image[n.currentRxPage])
  }

  /** Running the new version. */
  ghost predicate Done(u: Update, n: Node) {
    && n.version == n.updateVersion == u.v1
    && AllPages(n, u.v1)
    && n.store == u.image
    && (n.currentRxPage == 0 || n.currentRxPage == |u.image|)
  }

  ghost predicate NodeInv(u: Update, n: Node)
    requires u.Valid()
  {
    Shape(u, n) && (Idle(u, n) || Updating(u, n) || Done(u, n))
  }

  ghost predicate MsgInv(u: Update, m: Msg)
    requires u.Valid()
  {
    match m
    case Summary(_, _) => true
    case Request(v, p, _) => v == u.v1 && p < |u.image|
    case Packet(v, p, k, crc, payload) =>
      && v == u.v1 && p < |u.image| && k < N_PKT
      && payload == Slice(u.image[p], k) && crc == Checksum(payload)
    case Profile(v, vector) =>
      v == u.v0 || (v == u.v1 && vector == seq(|u.image|, _ => u.v1))
  }

  ghost predicate Inv(u: Update, s: Net)
    requires u.Valid()
  {
    && (forall i :: 0 <= i < |s.nodes| ==> NodeInv(u, s.nodes[i]))
    && (forall m :: m in s.msgs ==> MsgInv(u, m))
  }

  // -------------------------------------------------------------------- runs

  /** Every node was started by `deluge_disseminate`, with the old object or
      with the new one; nothing has been sent. */
  ghost predicate Init(u: Update, s: Net)
    requires u.Valid()
  {
    && s.msgs == {}
    && forall i :: 0 <= i < |s.nodes| ==> InitialNode(u, s.nodes[i])
  }

  ghost predicate InitialNode(u: Update, n: Node) {
    exists store: seq<seq<Octet>>, v: uint8 ::
      && n == InitObject(store, v)
      && |store| == |u.image| && WholePages(store)
      && (v == u.v0 || (v == u.v1 && store == u.image))
  }

  /** What the handlers take for granted about array bounds. */
  ghost predicate Demands(n: Node, step: Step) {
    match step
    case Deliver(_, m, _) =>
      && |n.currentPage| == S_PAGE && |n.store| == |n.pages|
      && (m.Packet? ==>
            && m.packetnum < N_PKT && |m.payload| == S_PKT
            && (m.pagenum == n.currentRxPage ==> m.pagenum < |n.pages|))
    case SummaryTimer(_) => true
    case ProfileTimer(_) => true
    case RequestTimer(_) => n.currentRxPage < |n.pages|
    case TxTimer(_) => n.currentTxPage < |n.pages| == |n.store| && WholePages(n.store)
  }

  /** When the network can make a step. */
  ghost predicate Enabled(s: Net, step: Step) {
    && step.i < |s.nodes|
    && Demands(s.nodes[step.i], step)
    && (step.Deliver? ==> step.m in s.msgs)
    && (step.RequestTimer? ==> s.nodes[step.i].rxTimer)
    && (step.TxTimer? ==> s.nodes[step.i].txTimer)
  }

  ghost function NodeAfter(n: Node, step: Step): Node
    requires Demands(n, step)
  {
    match step
    case Deliver(_, m, recent) => Receive(n, m, recent)
    case SummaryTimer(_) => n
    case ProfileTimer(_) => n
    case RequestTimer(_) => SendRequest(n)
    case TxTimer(_) => TxCallback(n)
  }

  ghost function Sent(n: Node, step: Step): set<Msg>
    requires Demands(n, step)
  {
    match step
    case Deliver(_, _, _) => {}
    case SummaryTimer(_) => {AdvertiseSummary(n)}
    case ProfileTimer(_) => {SendProfile(n)}
    case RequestTimer(_) => {RequestOf(n)}
    case TxTimer(_) => set m | m in TxPackets(n)
  }

  ghost function Next(s: Net, step: Step): Net
    requires Enabled(s, step)
  {
    Net(s.nodes[step.i := NodeAfter(s.nodes[step.i], step)],
        s.msgs + Sent(s.nodes[step.i], step))
  }

  /** Making `steps` in order leads from `s` to `t`. */
  ghost predicate Run(s: Net, steps: seq<Step>, t: Net)
    decreases |steps|
  {
    if steps == [] then s == t
    else Enabled(s, steps[0]) && Run(Next(s, steps[0]), steps[1..], t)
  }

  // ------------------------------------------------------- node by node cases

  lemma HighestOfAll(pages: seq<Page>)
    requires forall i :: 0 <= i < |pages| ==> pages[i].complete
    ensures HighestAvailable(pages) == |pages|
  {
    var h := HighestAvailable(pages);
  }

  lemma HighestOfPrefix(pages: seq<Page>, k: nat)
    requires k < |pages| && !pages[k].complete
    requires forall i :: 0 <= i < k ==> pages[i].complete
    ensures HighestAvailable(pages) == k
  {
    var h := HighestAvailable(pages);
    assert !(h < k);
  }

  lemma InitialNodeInv(u: Update, n: Node)
    requires u.Valid() && InitialNode(u, n)
    ensures NodeInv(u, n)
  {
  }

  /** Agreement on everything but the timers and the transmission in progress. */
  predicate SameObject(n: Node, n': Node) {
    && n'.version == n.version && n'.updateVersion == n.updateVersion
    && n'.pages == n.pages && n'.currentRxPage == n.currentRxPage
    && n'.currentPage == n.currentPage && n'.store == n.store
  }

  lemma FrameInv(u: Update, n: Node, n': Node)
    requires u.Valid() && NodeInv(u, n) && SameObject(n, n')
    requires -1 <= n'.currentTxPage < |u.image|
    requires n'.txSet == {} || n'.txSet == n.txSet || Done(u, n)
    requires n'.rxTimer ==> !Idle(u, n)
    ensures NodeInv(u, n')
    ensures Idle(u, n) <==> Idle(u, n')
    ensures Updating(u, n) <==> Updating(u, n')
    ensures Done(u, n) <==> Done(u, n')
  {
  }

  lemma SameAfterTimers(n: Node)
    ensures SameObject(n, SendRequest(n))
    ensures SameObject(n, TxCallback(n))
  {
  }

  lemma SameAfterRequest(n: Node, m: Msg)
    requires m.Request?
    ensures var n' := HandleRequest(n, m);
            && SameObject(n, n')
            && (m.version != n.version || m.pagenum >= |n.pages| ==> n' == n)
            && (n'.currentTxPage == n.currentTxPage || n'.currentTxPage == Int8(m.pagenum))
            && (n'.rxTimer ==> n.rxTimer)
  {
  }

  lemma SameAfterSummary(n: Node, m: Msg, recent: bool)
    requires m.Summary?
    ensures SameObject(n, HandleSummary(n, m, recent))
    ensures HandleSummary(n, m, recent).currentTxPage == n.currentTxPage
    ensures HandleSummary(n, m, recent).txSet == n.txSet
    ensures HighestAvailable(n.pages) == |n.pages| ==> HandleSummary(n, m, recent) == n
  {
  }

  /** An accepted request is merged into the transmission under way. */
  lemma RequestAccepted(n: Node, m: Msg)
    requires m.Request? && m.version == n.version
    requires m.pagenum < |n.pages| <= 128 && m.pagenum <= HighestAvailable(n.pages)
    ensures var n' := HandleRequest(n, m);
            && n'.currentTxPage == m.pagenum
            && n'.txSet == (if n.currentTxPage == m.pagenum then n.txSet else {}) + m.requestSet
            && n'.mode == Tx && n'.txTimer
  {
  }

  /** An accepted packet sets its bit; the fourth one completes the page. */
  lemma PacketAccepted(n: Node, m: Msg)
    requires m.Packet? && m.packetnum < N_PKT && |m.payload| == S_PKT
    requires |n.currentPage| == S_PAGE && |n.store| == |n.pages|
    requires m.pagenum == n.currentRxPage < |n.pages|
    requires m.version == n.pages[m.pagenum].version && !n.pages[m.pagenum].complete
    requires m.crc == Checksum(m.payload)
    ensures var got := n.pages[m.pagenum].packetSet + {m.packetnum};
            var n' := HandlePacket(n, m);
            && n'.pages == n.pages[m.pagenum := Page(m.version, got, got == ALL_PACKETS)]
            && n'.currentPage == Patch(n.currentPage, m.packetnum, m.payload)
            && n'.updateVersion == n.updateVersion
            && n'.txSet == n.txSet && n'.currentTxPage == n.currentTxPage
            && n'.store == (if got == ALL_PACKETS then n.store[m.pagenum := n'.currentPage] else n.store)
            && n'.currentRxPage == n.currentRxPage + (if got == ALL_PACKETS then 1 else 0)
            && n'.version == (if n'.currentRxPage == |n.pages| then n.updateVersion else n.version)
  {
  }

  /** A node that is still idle never starts asking for pages of v0. */
  lemma SummaryKeepsInv(u: Update, n: Node, m: Msg, recent: bool)
    requires u.Valid() && NodeInv(u, n) && m.Summary?
    ensures NodeInv(u, HandleSummary(n, m, recent))
    ensures !Updating(u, n) ==> HandleSummary(n, m, recent) == n
    ensures Updating(u, n) <==> Updating(u, HandleSummary(n, m, recent))
  {
    if !Updating(u, n) {
      HighestOfAll(n.pages);
    }
    SameAfterSummary(n, m, recent);
    FrameInv(u, n, HandleSummary(n, m, recent));
  }

  lemma RequestKeepsInv(u: Update, n: Node, m: Msg)
    requires u.Valid() && NodeInv(u, n) && m.Request? && MsgInv(u, m)
    ensures NodeInv(u, HandleRequest(n, m))
    ensures !Done(u, n) ==> HandleRequest(n, m) == n
  {
    SameAfterRequest(n, m);
    FrameInv(u, n, HandleRequest(n, m));
  }

  lemma ProfileKeepsInv(u: Update, n: Node, m: Msg)
    requires u.Valid() && NodeInv(u, n) && m.Profile? && MsgInv(u, m)
    ensures NodeInv(u, HandleProfile(n, m))
    ensures Idle(u, n) && m.version == u.v1 ==>
              Updating(u, HandleProfile(n, m))
              && HandleProfile(n, m).currentRxPage == 0
              && HandleProfile(n, m).pages[0] == Page(u.v1, {}, false)
    ensures !(Idle(u, n) && m.version == u.v1) ==> HandleProfile(n, m) == n
  {
    if Idle(u, n) && m.version == u.v1 {
      var pages' := AdoptPages(n.pages, m.vector);
      assert forall i :: 0 <= i < |pages'| ==> pages'[i] == Page(u.v1, {}, false);
      HighestOfPrefix(pages', 0);
      NothingAssembled(n.currentPage, u.image[0]);
    }
  }

  /** The updates of which a profile can pass the length test: the new version is
      1, and the vector fits a broadcast. */
  predicate Startable(u: Update) {
    u.v1 == 1 && |u.image| <= 123
  }

  lemma NewProfilePassesIff(u: Update, m: Msg)
    requires u.Valid() && m.Profile? && MsgInv(u, m) && m.version == u.v1
    ensures LongEnough(m) <==> Startable(u)
  {
    var k := |u.image|;
    assert m.vector[0] == u.v1 && |m.vector| == k;
    if u.v1 == 1 {
      assert k * u.v1 == k;
    } else {
      assert k * u.v1 == k + k * (u.v1 - 1) > k;
    }
  }

  /** The packets a node would accept. */
  predicate Novel(n: Node, m: Msg) {
    && m.Packet? && m.packetnum < N_PKT
    && m.pagenum == n.currentRxPage < |n.pages|
    && !n.pages[m.pagenum].complete
    && m.version == n.pages[m.pagenum].version
    && m.packetnum !in n.pages[m.pagenum].packetSet
  }

  lemma NothingAssembled(buffer: seq<Octet>, page: seq<Octet>)
    requires |buffer| == |page| == S_PAGE
    ensures Assembled({}, buffer, page)
  {
  }

  lemma PatchAssembled(got: Bits, buffer: seq<Octet>, page: seq<Octet>, j: nat)
    requires |buffer| == |page| == S_PAGE && j < N_PKT
    requires Assembled(got, buffer, page)
    ensures var buffer' := Patch(buffer, j, Slice(page, j));
            && got + {j} <= ALL_PACKETS
            && (forall k :: 0 <= k < N_PKT && k in got + {j} ==>
                  Slice(buffer', k) == Slice(page, k))
            && (got + {j} == ALL_PACKETS ==> buffer' == page)
  {
    var buffer' := Patch(buffer, j, Slice(page, j));
    forall k | 0 <= k < N_PKT && k in got + {j}
      ensures Slice(buffer', k) == Slice(page, k)
    {
      PatchSlices(buffer, j, Slice(page, j), k);
    }
    if got + {j} == ALL_PACKETS {
      SlicesDetermine(buffer', page);
    }
  }

  /** A packet of the page being assembled that does not complete it. */
  lemma PacketKeepsAssembling(u: Update, n: Node, m: Msg)
    requires u.Valid() && Shape(u, n) && Updating(u, n) && m.Packet? && MsgInv(u, m)
    requires m.pagenum == n.currentRxPage
    requires n.pages[m.pagenum].packetSet + {m.packetnum} != ALL_PACKETS
    ensures var n' := HandlePacket(n, m);
            Shape(u, n') && Updating(u, n')
  {
    PatchAssembled(n.pages[m.pagenum].packetSet, n.currentPage, u.image[m.pagenum], m.packetnum);
  }

  lemma PageDone(u: Update, n: Node, n': Node)
    requires u.Valid() && Shape(u, n) && Updating(u, n)
    requires n'.currentRxPage == n.currentRxPage + 1
    requires n'.pages == n.pages[n.currentRxPage := Page(u.v1, ALL_PACKETS, true)]
    requires n'.store == n.store[n.currentRxPage := u.image[n.currentRxPage]]
    requires |n'.currentPage| == S_PAGE && n'.currentTxPage == n.currentTxPage
    requires n'.updateVersion == n.updateVersion && n'.txSet == n.txSet
    requires n'.version == if n'.currentRxPage == |n.pages| then n.updateVersion else n.version
    ensures Shape(u, n')
    ensures if n'.currentRxPage == |n.pages| then Done(u, n')
            else Updating(u, n') && n'.pages[n'.currentRxPage] == Page(u.v1, {}, false)
  {
    var q := n'.currentRxPage;
    if q < |n.pages| {
      NothingAssembled(n'.currentPage, u.image[q]);
      assert n'.pages[q] == n.pages[q];
    } else {
      assert n'.store == u.image;
    }
  }

  /** The packet that completes a page. */
  lemma PacketCompletesPage(u: Update, n: Node, m: Msg)
    requires u.Valid() && Shape(u, n) && Updating(u, n) && m.Packet? && MsgInv(u, m)
    requires m.pagenum == n.currentRxPage
    requires n.pages[m.pagenum].packetSet + {m.packetnum} == ALL_PACKETS
    ensures var n' := HandlePacket(n, m);
            && Shape(u, n')
            && n'.currentRxPage == n.currentRxPage + 1
            && n'.pages[n.currentRxPage] == Page(u.v1, ALL_PACKETS, true)
            && n'.store[n.currentRxPage] == u.image[n.currentRxPage]
            && if n'.currentRxPage == |n.pages| then Done(u, n')
               else Updating(u, n') && n'.pages[n'.currentRxPage] == Page(u.v1, {}, false)
  {
    PatchAssembled(n.pages[m.pagenum].packetSet, n.currentPage, u.image[m.pagenum], m.packetnum);
    PacketAccepted(n, m);
    PageDone(u, n, HandlePacket(n, m));
  }

  lemma PacketKeepsInv(u: Update, n: Node, m: Msg)
    requires u.Valid() && NodeInv(u, n) && m.Packet? && MsgInv(u, m)
    ensures NodeInv(u, HandlePacket(n, m))
    ensures !Updating(u, n) ==> HandlePacket(n, m) == n
  {
    if Updating(u, n) && m.pagenum == n.currentRxPage {
      if n.pages[m.pagenum].packetSet + {m.packetnum} == ALL_PACKETS {
        PacketCompletesPage(u, n, m);
      } else {
        PacketKeepsAssembling(u, n, m);
      }
    }
  }

  lemma ReceiveKeepsInv(u: Update, n: Node, m: Msg, recent: bool)
    requires u.Valid() && NodeInv(u, n) && MsgInv(u, m)
    ensures NodeInv(u, Receive(n, m, recent))
  {
    match m
    case Summary(_, _) => SummaryKeepsInv(u, n, m, recent);
    case Request(_, _, _) => RequestKeepsInv(u, n, m);
    case Packet(_, _, _, _, _) => PacketKeepsInv(u, n, m);
    case Profile(_, _) => ProfileKeepsInv(u, n, m);
  }

  lemma RequestTimerKeepsInv(u: Update, n: Node)
    requires u.Valid() && NodeInv(u, n) && n.rxTimer
    ensures NodeInv(u, SendRequest(n))
    ensures Updating(u, n) <==> Updating(u, SendRequest(n))
  {
    SameAfterTimers(n);
    FrameInv(u, n, SendRequest(n));
  }

  lemma TxTimerKeepsInv(u: Update, n: Node)
    requires u.Valid() && NodeInv(u, n)
    ensures NodeInv(u, TxCallback(n))
    ensures Updating(u, n) <==> Updating(u, TxCallback(n))
  {
    SameAfterTimers(n);
    FrameInv(u, n, TxCallback(n));
  }

  // ----------------------------------------------------------- what is sent

  /** Only packets of the requested page, and all the requested ones. */
  lemma {:induction false} PagePacketsExact(v: uint8, p: nat, buf: seq<Octet>, sel: Bits, k: nat, m: Msg)
    requires |buf| == S_PAGE && k <= N_PKT
    ensures m in PagePackets(v, p, buf, sel, k) <==>
      && m.Packet? && m.packetnum < k && m.packetnum in sel
      && m == Packet(v, p, m.packetnum, Checksum(Slice(buf, m.packetnum)), Slice(buf, m.packetnum))
  {
    if k > 0 {
      PagePacketsExact(v, p, buf, sel, k - 1, m);
    }
  }

  lemma SentInv(u: Update, n: Node, step: Step, m: Msg)
    requires u.Valid() && NodeInv(u, n) && Demands(n, step)
    requires m in Sent(n, step)
    requires step.RequestTimer? ==> n.rxTimer
    ensures MsgInv(u, m)
  {
    if step.TxTimer? && CanTransmit(n) {
      PagePacketsExact(n.pages[n.currentTxPage].version, n.currentTxPage,
                       n.store[n.currentTxPage], n.txSet, N_PKT, m);
    }
  }

  // ------------------------------------------------------------ whole network

  lemma NextKeepsInv(u: Update, s: Net, step: Step)
    requires u.Valid() && Inv(u, s) && Enabled(s, step)
    ensures Inv(u, Next(s, step))
  {
    var n := s.nodes[step.i];
    if step.Deliver? {
      ReceiveKeepsInv(u, n, step.m, step.recent);
    } else if step.RequestTimer? {
      RequestTimerKeepsInv(u, n);
    } else if step.TxTimer? {
      TxTimerKeepsInv(u, n);
    }
    forall m | m in Sent(n, step) ensures MsgInv(u, m) {
      SentInv(u, n, step, m);
    }
  }

  lemma InitInv(u: Update, s: Net)
    requires u.Valid() && Init(u, s)
    ensures Inv(u, s)
  {
    forall i | 0 <= i < |s.nodes| ensures NodeInv(u, s.nodes[i]) {
      InitialNodeInv(u, s.nodes[i]);
    }
  }

  lemma {:induction false} RunKeepsInv(u: Update, s: Net, steps: seq<Step>, t: Net)
    requires u.Valid() && Inv(u, s) && Run(s, steps, t)
    ensures Inv(u, t) && |t.nodes| == |s.nodes| && s.msgs <= t.msgs
    decreases |steps|
  {
    if steps != [] {
      NextKeepsInv(u, s, steps[0]);
      RunKeepsInv(u, Next(s, steps[0]), steps[1..], t);
    }
  }

  lemma InvMeetsDemands(u: Update, n: Node, step: Step)
    requires u.Valid() && NodeInv(u, n) && !step.RequestTimer?
    requires step.Deliver? ==> MsgInv(u, step.m)
    ensures Demands(n, step)
  {
    assert Shape(u, n);
  }

  // ------------------------------------------------------------ main theorems

  /** Network safety, for every run of every number of nodes: a node on the new
      version stores exactly the new image; a node that has been told of the
      update and is not there yet holds the right bytes in every page below
      `current_rx_page` and in every slot of `current_page` whose bit is set. */
  lemma NetworkSafety(u: Update, s: Net, steps: seq<Step>, t: Net, i: nat)
    requires u.Valid() && Init(u, s) && Run(s, steps, t) && i < |t.nodes|
    ensures var n := t.nodes[i];
      && (n.version == u.v0 || n.version == u.v1)
      && (n.version == u.v1 ==> n.store == u.image)
      && (n.version != n.updateVersion ==>
            && n.currentRxPage < |n.pages| == |n.store| == |u.image|
            && (forall p :: 0 <= p < n.currentRxPage ==> n.store[p] == u.image[p])
            && |n.currentPage| == S_PAGE
            && forall k :: 0 <= k < N_PKT && k in n.pages[n.currentRxPage].packetSet ==>
                 Slice(n.currentPage, k) == Slice(u.image[n.currentRxPage], k))
  {
    InitInv(u, s);
    RunKeepsInv(u, s, steps, t);
    assert NodeInv(u, t.nodes[i]);
  }

  /** Nothing wrong is ever in flight: data packets are exact slices of the new
      image under the new version, and nobody asks for pages of the old one. */
  lemma FlightSafety(u: Update, s: Net, steps: seq<Step>, t: Net, m: Msg)
    requires u.Valid() && Init(u, s) && Run(s, steps, t) && m in t.msgs
    ensures m.Request? ==> m.version == u.v1 && m.pagenum < |u.image|
    ensures m.Packet? ==>
      && m.version == u.v1 && m.pagenum < |u.image| && m.packetnum < N_PKT
      && m.payload == Slice(u.image[m.pagenum], m.packetnum) && m.crc == Checksum(m.payload)
  {
    InitInv(u, s);
    RunKeepsInv(u, s, steps, t);
  }

  /** No handler ever reads or writes outside its arrays: whatever is in flight
      can be delivered anywhere, and every armed transmit timer can fire. */
  lemma NoHandlerGetsStuck(u: Update, s: Net, steps: seq<Step>, t: Net, step: Step)
    requires u.Valid() && Init(u, s) && Run(s, steps, t) && step.i < |t.nodes|
    requires step.Deliver? ==> step.m in t.msgs
    requires !step.RequestTimer?
    ensures Demands(t.nodes[step.i], step)
  {
    InitInv(u, s);
    RunKeepsInv(u, s, steps, t);
    InvMeetsDemands(u, t.nodes[step.i], step);
  }

  // ---------------------------------------------------- advertisements are true

  /** The node has the first `h` pages of the new image. */
  ghost predicate Holds(u: Update, n: Node, h: nat)
    requires u.Valid()
  {
    && NodeInv(u, n) && h <= |u.image|
    && (Done(u, n) || (Updating(u, n) && h <= n.currentRxPage))
  }

  lemma DeliveryKeepsPages(u: Update, n: Node, m: Msg, recent: bool, h: nat)
    requires u.Valid() && MsgInv(u, m) && Holds(u, n, h)
    ensures Holds(u, Receive(n, m, recent), h)
  {
    ReceiveKeepsInv(u, n, m, recent);
    match m
    case Summary(_, _) => SameAfterSummary(n, m, recent); SummaryKeepsInv(u, n, m, recent);
    case Request(_, _, _) => SameAfterRequest(n, m);
    case Profile(_, _) => ProfileKeepsInv(u, n, m);
    case Packet(_, _, _, _, _) =>
      PacketKeepsInv(u, n, m);
      if Updating(u, n) && m.pagenum == n.currentRxPage {
        if n.pages[m.pagenum].packetSet + {m.packetnum} == ALL_PACKETS {
          PacketCompletesPage(u, n, m);
        } else {
          PacketKeepsAssembling(u, n, m);
        }
      }
  }

  lemma StepKeepsPages(u: Update, n: Node, step: Step, h: nat)
    requires u.Valid() && Demands(n, step) && Holds(u, n, h)
    requires step.Deliver? ==> MsgInv(u, step.m)
    requires step.RequestTimer? ==> n.rxTimer
    ensures Holds(u, NodeAfter(n, step), h)
  {
    if step.Deliver? {
      DeliveryKeepsPages(u, n, step.m, step.recent, h);
    } else if step.RequestTimer? {
      RequestTimerKeepsInv(u, n);
      SameAfterTimers(n);
    } else if step.TxTimer? {
      TxTimerKeepsInv(u, n);
      SameAfterTimers(n);
    }
  }

  /** Some node has what the summary `m` of the new version announces. */
  ghost predicate Backed(u: Update, s: Net, m: Msg)
    requires u.Valid() && m.Summary?
  {
    exists i :: 0 <= i < |s.nodes| && Holds(u, s.nodes[i], m.highestAvailable)
  }

  ghost predicate Truthful(u: Update, s: Net)
    requires u.Valid()
  {
    forall m :: m in s.msgs && m.Summary? && m.version != u.v0 ==>
      m.version == u.v1 && Backed(u, s, m)
  }

  lemma OwnSummaryBacked(u: Update, n: Node)
    requires u.Valid() && NodeInv(u, n) && AdvertiseSummary(n).version != u.v0
    ensures AdvertiseSummary(n).version == u.v1
    ensures Holds(u, n, AdvertiseSummary(n).highestAvailable)
  {
    if Updating(u, n) {
      HighestOfPrefix(n.pages, n.currentRxPage);
    } else {
      HighestOfAll(n.pages);
    }
  }

  lemma BackedStays(u: Update, s: Net, step: Step, m: Msg)
    requires u.Valid() && Inv(u, s) && Enabled(s, step) && m.Summary? && Backed(u, s, m)
    ensures Backed(u, Next(s, step), m)
  {
    var i :| 0 <= i < |s.nodes| && Holds(u, s.nodes[i], m.highestAvailable);
    if i == step.i {
      StepKeepsPages(u, s.nodes[i], step, m.highestAvailable);
    }
    assert Holds(u, Next(s, step).nodes[i], m.highestAvailable);
  }

  lemma NewSummaryBacked(u: Update, s: Net, step: Step, m: Msg)
    requires u.Valid() && Inv(u, s) && Enabled(s, step)
    requires m.Summary? && m.version != u.v0 && m in Sent(s.nodes[step.i], step)
    ensures m.version == u.v1 && Backed(u, Next(s, step), m)
  {
    var n := s.nodes[step.i];
    if step.TxTimer? {
      if CanTransmit(n) {
        PagePacketsExact(n.pages[n.currentTxPage].version, n.currentTxPage,
                         n.store[n.currentTxPage], n.txSet, N_PKT, m);
      }
      assert false;
    }
    OwnSummaryBacked(u, n);
    assert Holds(u, Next(s, step).nodes[step.i], m.highestAvailable);
  }

  lemma {:induction false} RunKeepsTruth(u: Update, s: Net, steps: seq<Step>, t: Net)
    requires u.Valid() && Inv(u, s) && Truthful(u, s) && Run(s, steps, t)
    ensures Truthful(u, t)
    decreases |steps|
  {
    if steps != [] {
      var s' := Next(s, steps[0]);
      forall m | m in s'.msgs && m.Summary? && m.version != u.v0
        ensures m.version == u.v1 && Backed(u, s', m)
      {
        if m in s.msgs {
          BackedStays(u, s, steps[0], m);
        } else {
          NewSummaryBacked(u, s, steps[0], m);
        }
      }
      NextKeepsInv(u, s, steps[0]);
      RunKeepsTruth(u, s', steps[1..], t);
    }
  }

  /** Advertisements are true for ever: as long as a summary of the new version
      may arrive anywhere, some node stores the pages it announces. */
  lemma SummariesAreTrue(u: Update, s: Net, steps: seq<Step>, t: Net, m: Msg)
    requires u.Valid() && Init(u, s) && Run(s, steps, t)
    requires m in t.msgs && m.Summary? && m.version != u.v0
    ensures m.version == u.v1 && m.highestAvailable <= |u.image|
    ensures exists i :: 0 <= i < |t.nodes| && |t.nodes[i].store| == |u.image|
              && t.nodes[i].store[.. m.highestAvailable] == u.image[.. m.highestAvailable]
  {
    InitInv(u, s);
    assert Truthful(u, s);
    hide Run, Init, Inv;
    RunKeepsTruth(u, s, steps, t);
    assert Backed(u, t, m);
    hide Holds;
    var i :| 0 <= i < |t.nodes| && Holds(u, t.nodes[i], m.highestAvailable);
    HeldPages(u, t.nodes[i], m.highestAvailable);
  }

  lemma HeldPages(u: Update, n: Node, h: nat)
    requires u.Valid() && Holds(u, n, h)
    ensures h <= |n.store| == |u.image| && n.store[.. h] == u.image[.. h]
  {
  }
}
