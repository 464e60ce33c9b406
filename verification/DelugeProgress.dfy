/** How far a node has come: a count of received packets that no loss,
    duplication or reordering can disturb, and one loss-free round. */
module DelugeProgress {
  import opened DelugeNode
  import opened DelugeNetwork

  // --------------------------------------------------------- counting packets

  /** Packets still missing over all pages. */
  ghost function Missing(pages: seq<Page>): int {
    if pages == [] then 0
    else N_PKT - |pages[0].packetSet| + Missing(pages[1..])
  }

  lemma {:induction false} MissingUpdate(pages: seq<Page>, p: nat, q: Page)
    requires p < |pages|
    ensures Missing(pages[p := q]) == Missing(pages) + |pages[p].packetSet| - |q.packetSet|
    decreases |pages|
  {
    if p == 0 {
      assert pages[p := q][1..] == pages[1..];
    } else {
      assert pages[p := q][1..] == pages[1..][p - 1 := q];
      MissingUpdate(pages[1..], p - 1, q);
    }
  }

  lemma {:induction false} MissingConstant(pages: seq<Page>, page: Page)
    requires forall i :: 0 <= i < |pages| ==> pages[i] == page
    ensures Missing(pages) == |pages| * (N_PKT - |page.packetSet|)
  {
    if pages != [] {
      MissingConstant(pages[1..], page);
      assert |pages| * (N_PKT - |page.packetSet|)
          == (N_PKT - |page.packetSet|) + (|pages| - 1) * (N_PKT - |page.packetSet|);
    }
  }

  lemma SubsetSize(got: Bits)
    requires got <= ALL_PACKETS
    ensures |got| + |ALL_PACKETS - got| == N_PKT
    ensures got != ALL_PACKETS ==> |got| < N_PKT
  {
    assert got + (ALL_PACKETS - got) == ALL_PACKETS;
    if |ALL_PACKETS - got| == 0 {
      assert ALL_PACKETS - got == {};
    }
  }

  lemma {:induction false} MissingNonNegative(pages: seq<Page>)
    requires forall i :: 0 <= i < |pages| ==> pages[i].packetSet <= ALL_PACKETS
    ensures Missing(pages) >= 0
    ensures (exists i :: 0 <= i < |pages| && pages[i].packetSet != ALL_PACKETS) ==> Missing(pages) > 0
  {
    if pages != [] {
      SubsetSize(pages[0].packetSet);
      MissingNonNegative(pages[1..]);
      if i :| 0 <= i < |pages| && pages[i].packetSet != ALL_PACKETS {
        assert i > 0 ==> pages[1..][i - 1].packetSet != ALL_PACKETS;
      }
    }
  }

  /** Packets of the new version a node holds. */
  ghost function Held(u: Update, n: Node): int {
    if n.updateVersion == u.v0 then 0 else N_PKT * |u.image| - Missing(n.pages)
  }

  /** The version number moves exactly when the last packet is in. */
  lemma VersionTracksHeld(u: Update, n: Node)
    requires u.Valid() && NodeInv(u, n)
    ensures 0 <= Missing(n.pages) <= N_PKT * |u.image|
    ensures n.version == u.v1 <==> Held(u, n) == N_PKT * |u.image|
    ensures Updating(u, n) ==> Missing(n.pages) > 0
    ensures Done(u, n) ==> Missing(n.pages) == 0
  {
    MissingNonNegative(n.pages);
    if Updating(u, n) {
      assert n.pages[n.currentRxPage].packetSet != ALL_PACKETS;
    } else {
      MissingConstant(n.pages, Page(n.version, ALL_PACKETS, true));
    }
    MissingAtMost(n.pages);
  }

  lemma {:induction false} MissingAtMost(pages: seq<Page>)
    ensures Missing(pages) <= N_PKT * |pages|
  {
    if pages != [] {
      MissingAtMost(pages[1..]);
    }
  }

  // ------------------------------------------------------------- single steps

  lemma AcceptedCounts(u: Update, n: Node, m: Msg)
    requires u.Valid() && Shape(u, n) && Updating(u, n) && m.Packet? && MsgInv(u, m)
    requires m.pagenum == n.currentRxPage
    ensures var n' := HandlePacket(n, m);
            Missing(n'.pages) == Missing(n.pages) - (if Novel(n, m) then 1 else 0)
  {
    var p := m.pagenum;
    var got := n.pages[p].packetSet;
    PacketAccepted(n, m);
    MissingUpdate(n.pages, p, HandlePacket(n, m).pages[p]);
    if m.packetnum in got {
      assert got + {m.packetnum} == got;
    }
  }

  lemma PacketCounts(u: Update, n: Node, m: Msg)
    requires u.Valid() && NodeInv(u, n) && m.Packet? && MsgInv(u, m)
    ensures Held(u, HandlePacket(n, m)) == Held(u, n) + (if Novel(n, m) then 1 else 0)
  {
    if !Updating(u, n) {
      PacketKeepsInv(u, n, m);
      assert !Novel(n, m);
    } else if m.pagenum == n.currentRxPage {
      AcceptedCounts(u, n, m);
      PacketAccepted(n, m);
    } else {
      assert HandlePacket(n, m) == n;
    }
  }

  lemma ProfileCounts(u: Update, n: Node, m: Msg)
    requires u.Valid() && NodeInv(u, n) && m.Profile? && MsgInv(u, m)
    ensures Held(u, HandleProfile(n, m)) == Held(u, n)
  {
    ProfileKeepsInv(u, n, m);
    if Idle(u, n) && m.version == u.v1 {
      var n' := HandleProfile(n, m);
      assert forall i :: 0 <= i < |n'.pages| ==> n'.pages[i] == Page(u.v1, {}, false);
      MissingConstant(n'.pages, Page(u.v1, {}, false));
    }
  }

  /** A delivery adds one packet if it is novel and none otherwise; the profile
      that starts the update adds none either. */
  lemma DeliveryCounts(u: Update, n: Node, m: Msg, recent: bool)
    requires u.Valid() && NodeInv(u, n) && MsgInv(u, m)
    ensures Held(u, Receive(n, m, recent)) == Held(u, n) + (if Novel(n, m) then 1 else 0)
  {
    match m
    case Summary(_, _) => SameAfterSummary(n, m, recent);
    case Request(_, _, _) => SameAfterRequest(n, m);
    case Packet(_, _, _, _, _) => PacketCounts(u, n, m);
    case Profile(_, _) => ProfileCounts(u, n, m);
  }

  predicate IsNovel(s: Net, step: Step, i: nat)
    requires i < |s.nodes|
  {
    step.Deliver? && step.i == i && Novel(s.nodes[i], step.m)
  }

  /** Novel packets accepted by node `i` along a run. */
  ghost function NovelCount(s: Net, steps: seq<Step>, i: nat): nat
    requires i < |s.nodes|
    decreases |steps|
  {
    if steps == [] || !Enabled(s, steps[0]) then 0
    else (if IsNovel(s, steps[0], i) then 1 else 0) + NovelCount(Next(s, steps[0]), steps[1..], i)
  }

  lemma StepCounts(u: Update, s: Net, step: Step, i: nat)
    requires u.Valid() && Inv(u, s) && Enabled(s, step) && i < |s.nodes|
    ensures Held(u, Next(s, step).nodes[i])
         == Held(u, s.nodes[i]) + (if IsNovel(s, step, i) then 1 else 0)
  {
    if step.i == i {
      if step.Deliver? {
        DeliveryCounts(u, s.nodes[i], step.m, step.recent);
      } else {
        SameAfterTimers(s.nodes[i]);
      }
    }
  }

  lemma {:induction false} RunCounts(u: Update, s: Net, steps: seq<Step>, t: Net, i: nat)
    requires u.Valid() && Inv(u, s) && Run(s, steps, t) && i < |s.nodes|
    ensures i < |t.nodes|
    ensures Held(u, t.nodes[i]) == Held(u, s.nodes[i]) + NovelCount(s, steps, i)
    decreases |steps|
  {
    if steps != [] {
      StepCounts(u, s, steps[0], i);
      NextKeepsInv(u, s, steps[0]);
      RunCounts(u, Next(s, steps[0]), steps[1..], t, i);
    }
  }

  /** Progress, for every run: a node that starts on the old version reaches the
      new one after exactly N_PKT novel packets per page, never earlier, and
      nothing it receives can take it back. */
  lemma UpdateTakesExactlyAllPackets(u: Update, s: Net, steps: seq<Step>, t: Net, i: nat)
    requires u.Valid() && Init(u, s) && Run(s, steps, t)
    requires i < |s.nodes| && s.nodes[i].version == u.v0
    ensures i < |t.nodes|
    ensures NovelCount(s, steps, i) <= N_PKT * |u.image|
    ensures t.nodes[i].version == u.v1 <==> NovelCount(s, steps, i) == N_PKT * |u.image|
    ensures t.nodes[i].updateVersion == u.v1 ==>
              Missing(t.nodes[i].pages) == N_PKT * |u.image| - NovelCount(s, steps, i)
  {
    InitInv(u, s);
    assert InitialNode(u, s.nodes[i]);
    RunKeepsInv(u, s, steps, t);
    RunCounts(u, s, steps, t, i);
    VersionTracksHeld(u, t.nodes[i]);
  }

  // ----------------------------------------------------- one loss-free round

  ghost predicate PacketsOfPage(u: Update, p: nat, trace: seq<Msg>)
    requires u.Valid()
  {
    forall j :: 0 <= j < |trace| ==>
      trace[j].Packet? && trace[j].pagenum == p && MsgInv(u, trace[j])
  }

  /** The messages of `trace` arrive one after the other. */
  ghost function ReceiveAll(u: Update, n: Node, trace: seq<Msg>): Node
    requires u.Valid() && NodeInv(u, n)
    requires forall j :: 0 <= j < |trace| ==> MsgInv(u, trace[j])
    decreases |trace|
  {
    if trace == [] then n
    else
      ReceiveKeepsInv(u, n, trace[0], true);
      ReceiveAll(u, Receive(n, trace[0], true), trace[1..])
  }

  /** The page `p` is finished and the node has moved on to the next. */
  ghost predicate Finished(u: Update, n: Node, p: nat) {
    && p < |n.pages| && p < |n.store| && p < |u.image|
    && n.currentRxPage == p + 1
    && n.pages[p] == Page(u.v1, ALL_PACKETS, true)
    && n.store[p] == u.image[p]
  }

  lemma {:induction false} LateDuplicates(u: Update, n: Node, p: nat, trace: seq<Msg>)
    requires u.Valid() && NodeInv(u, n) && Finished(u, n, p) && PacketsOfPage(u, p, trace)
    ensures ReceiveAll(u, n, trace) == n
    decreases |trace|
  {
    if trace != [] {
      assert Receive(n, trace[0], true) == n;
      LateDuplicates(u, n, p, trace[1..]);
    }
  }

  lemma {:induction false} TraceFillsPage(u: Update, n: Node, trace: seq<Msg>)
    requires u.Valid() && Shape(u, n) && Updating(u, n)
    requires PacketsOfPage(u, n.currentRxPage, trace)
    ensures var p := n.currentRxPage; var n' := ReceiveAll(u, n, trace);
      && NodeInv(u, n')
      && (Finished(u, n', p)
          || (Updating(u, n') && n'.currentRxPage == p
              && n.pages[p].packetSet <= n'.pages[p].packetSet
              && forall j :: 0 <= j < |trace| ==> trace[j].packetnum in n'.pages[p].packetSet))
    decreases |trace|
  {
    if trace != [] {
      var p, m := n.currentRxPage, trace[0];
      var n1 := Receive(n, m, true);
      PacketKeepsInv(u, n, m);
      if n.pages[p].packetSet + {m.packetnum} == ALL_PACKETS {
        PacketCompletesPage(u, n, m);
        LateDuplicates(u, n1, p, trace[1..]);
      } else {
        PacketKeepsAssembling(u, n, m);
        TraceFillsPage(u, n1, trace[1..]);
      }
    }
  }

  /** What a complete node broadcasts when it serves a request. */
  ghost function Served(u: Update, src: Node, req: Msg): seq<Msg>
    requires u.Valid() && NodeInv(u, src) && Done(u, src) && req.Request? && MsgInv(u, req)
  {
    RequestKeepsInv(u, src, req);
    TxPackets(HandleRequest(src, req))
  }

  lemma ServedCoversRequest(u: Update, src: Node, req: Msg, k: nat)
    requires u.Valid() && NodeInv(u, src) && Done(u, src) && req.Request? && MsgInv(u, req)
    requires k < N_PKT && k in req.requestSet
    ensures Packet(u.v1, req.pagenum, k, Checksum(Slice(u.image[req.pagenum], k)),
                   Slice(u.image[req.pagenum], k)) in Served(u, src, req)
  {
    HighestOfAll(src.pages);
    RequestKeepsInv(u, src, req);
    SameAfterRequest(src, req);
    RequestAccepted(src, req);
    var src' := HandleRequest(src, req);
    PagePacketsExact(u.v1, req.pagenum, u.image[req.pagenum], src'.txSet, N_PKT,
                     Packet(u.v1, req.pagenum, k, Checksum(Slice(u.image[req.pagenum], k)),
                            Slice(u.image[req.pagenum], k)));
  }

  /** The updating node once its request is out. */
  ghost function Requested(u: Update, n: Node): (n': Node)
    requires u.Valid() && NodeInv(u, n) && Updating(u, n) && n.rxTimer
    ensures NodeInv(u, n') && SameObject(n, n')
  {
    RequestTimerKeepsInv(u, n);
    SameAfterTimers(n);
    SendRequest(n)
  }

  /** All packets that are sent for a request belong to its page and are right. */
  lemma ServedOnlyPage(u: Update, src: Node, req: Msg)
    requires u.Valid() && NodeInv(u, src) && Done(u, src) && req.Request? && MsgInv(u, req)
    ensures PacketsOfPage(u, req.pagenum, Served(u, src, req))
  {
    HighestOfAll(src.pages);
    RequestKeepsInv(u, src, req);
    SameAfterRequest(src, req);
    RequestAccepted(src, req);
    var src' := HandleRequest(src, req);
    forall m | m in TxPackets(src')
      ensures m.Packet? && m.pagenum == req.pagenum && MsgInv(u, m)
    {
      PagePacketsExact(u.v1, req.pagenum, u.image[req.pagenum], src'.txSet, N_PKT, m);
    }
  }

  /** Whatever part of its page a node holds, once every packet served for what it
      lacks has arrived, the page is finished. */
  lemma ServedFinishesPage(u: Update, n: Node, src: Node, trace: seq<Msg>)
    requires u.Valid() && NodeInv(u, n) && Updating(u, n) && NodeInv(u, src) && Done(u, src)
    requires forall m :: m in Served(u, src, RequestOf(n)) ==> m in trace
    requires PacketsOfPage(u, n.currentRxPage, trace)
    ensures var n' := ReceiveAll(u, n, trace);
            NodeInv(u, n') && Finished(u, n', n.currentRxPage)
  {
    var p, req := n.currentRxPage, RequestOf(n);
    TraceFillsPage(u, n, trace);
    var n' := ReceiveAll(u, n, trace);
    if !Finished(u, n', p) {
      forall k | k in ALL_PACKETS ensures k in n'.pages[p].packetSet {
        if k !in n.pages[p].packetSet {
          ServedCoversRequest(u, src, req, k);
        }
      }
      assert false;
    }
  }

  /** One loss-free round finishes a page: whatever part of the page a node
      holds, once every packet served for its request has arrived, in any order
      and with any duplicates, the page is written and the node moves on. */
  lemma RoundFinishesPage(u: Update, n: Node, src: Node, trace: seq<Msg>)
    requires u.Valid() && NodeInv(u, n) && Updating(u, n) && n.rxTimer
    requires NodeInv(u, src) && Done(u, src)
    requires forall m :: m in Served(u, src, RequestOf(n)) ==> m in trace
    requires PacketsOfPage(u, n.currentRxPage, trace)
    ensures var n' := ReceiveAll(u, Requested(u, n), trace);
            && NodeInv(u, n')
            && Finished(u, n', n.currentRxPage)
            && (n.currentRxPage + 1 == |u.image| ==> n'.version == u.v1 && n'.store == u.image)
  {
    var n1 := Requested(u, n);
    FrameInv(u, n, n1);
    assert RequestOf(n1) == RequestOf(n);
    ServedFinishesPage(u, n1, src, trace);
  }

  /** Requests for the same page that arrive before the transmit timer fires are
      merged: what either of them asks for is sent. */
  lemma RequestsMerge(u: Update, src: Node, a: Msg, b: Msg, k: nat)
    requires u.Valid() && NodeInv(u, src) && Done(u, src)
    requires a.Request? && b.Request? && MsgInv(u, a) && MsgInv(u, b) && a.pagenum == b.pagenum
    requires k < N_PKT && k in a.requestSet + b.requestSet
    ensures NodeInv(u, HandleRequest(src, a)) && Done(u, HandleRequest(src, a))
    ensures Packet(u.v1, a.pagenum, k, Checksum(Slice(u.image[a.pagenum], k)),
                   Slice(u.image[a.pagenum], k)) in Served(u, HandleRequest(src, a), b)
  {
    var src1 := HandleRequest(src, a);
    RequestKeepsInv(u, src, a);
    SameAfterRequest(src, a);
    HighestOfAll(src.pages);
    RequestAccepted(src, a);
    SameAfterRequest(src1, b);
    RequestKeepsInv(u, src1, b);
    RequestAccepted(src1, b);
    PagePacketsExact(u.v1, a.pagenum, u.image[a.pagenum], HandleRequest(src1, b).txSet, N_PKT,
                     Packet(u.v1, a.pagenum, k, Checksum(Slice(u.image[a.pagenum], k)),
                            Slice(u.image[a.pagenum], k)));
  }

  // ---------------------------------------------------------- a whole update

  /** A round that loses nothing: the source that advertises and serves, and the
      packets that arrive. */
  datatype Round = Round(src: Node, trace: seq<Msg>)

  /** An updating node that hears a complete node's summary asks for its page. */
  ghost function Asking(u: Update, n: Node, src: Node): (n': Node)
    requires u.Valid() && NodeInv(u, n) && Updating(u, n) && NodeInv(u, src) && Done(u, src)
    ensures NodeInv(u, n') && Updating(u, n') && n'.rxTimer && SameObject(n, n')
  {
    HighestOfAll(src.pages);
    HighestOfPrefix(n.pages, n.currentRxPage);
    SummaryKeepsInv(u, n, AdvertiseSummary(src), false);
    SameAfterSummary(n, AdvertiseSummary(src), false);
    HandleSummary(n, AdvertiseSummary(src), false)
  }

  ghost predicate LossFree(u: Update, n: Node, r: Round)
    requires u.Valid() && NodeInv(u, n) && Updating(u, n)
  {
    && NodeInv(u, r.src) && Done(u, r.src)
    && PacketsOfPage(u, n.currentRxPage, r.trace)
    && forall m :: m in Served(u, r.src, RequestOf(Asking(u, n, r.src))) ==> m in r.trace
  }

  /** What the source sends in answer makes such a round. */
  ghost function FullRound(u: Update, n: Node, src: Node): (r: Round)
    requires u.Valid() && NodeInv(u, n) && Updating(u, n) && NodeInv(u, src) && Done(u, src)
    ensures LossFree(u, n, r) && r.src == src
  {
    var req := RequestOf(Asking(u, n, src));
    ServedOnlyPage(u, src, req);
    Round(src, Served(u, src, req))
  }

  ghost function AfterRound(u: Update, n: Node, r: Round): (n': Node)
    requires u.Valid() && NodeInv(u, n) && Updating(u, n) && LossFree(u, n, r)
    ensures NodeInv(u, n') && Finished(u, n', n.currentRxPage)
  {
    var n1 := Asking(u, n, r.src);
    RoundFinishesPage(u, n1, r.src, r.trace);
    ReceiveAll(u, Requested(u, n1), r.trace)
  }

  /** `rounds`, none of which loses anything, follow each other while the node is
      updating, and leave it as `t`. */
  ghost predicate Rounds(u: Update, n: Node, rounds: seq<Round>, t: Node)
    requires u.Valid() && NodeInv(u, n)
    decreases |rounds|
  {
    if rounds == [] then n == t
    else Updating(u, n) && LossFree(u, n, rounds[0])
         && Rounds(u, AfterRound(u, n, rounds[0]), rounds[1..], t)
  }

  lemma {:induction false} RoundsFinishUpdate(u: Update, n: Node, rounds: seq<Round>, t: Node)
    requires u.Valid() && NodeInv(u, n) && Rounds(u, n, rounds, t)
    requires Done(u, n) || (Updating(u, n) && |rounds| >= |u.image| - n.currentRxPage)
    ensures t.version == u.v1 && t.store == u.image && Done(u, t)
    decreases |rounds|
  {
    if rounds != [] {
      RoundsFinishUpdate(u, AfterRound(u, n, rounds[0]), rounds[1..], t);
    }
  }

  /** A whole update without loss: a node that has never heard of it hears a
      complete node's profile, which starts it exactly if the update can start at
      all; after one round for every page it runs the new version and stores the
      new image. */
  lemma LossFreeUpdate(u: Update, n: Node, src: Node, rounds: seq<Round>, t: Node)
    requires u.Valid() && NodeInv(u, n) && Idle(u, n) && NodeInv(u, src) && Done(u, src)
    ensures var n0 := Receive(n, SendProfile(src), true);
      && NodeInv(u, n0)
      && (if Startable(u) then Updating(u, n0) && n0.currentRxPage == 0 else n0 == n)
      && (Rounds(u, n0, rounds, t) && |rounds| == |u.image| ==>
            t.version == u.v1 && t.store == u.image)
  {
    var m := SendProfile(src);
    assert m.vector == seq(|u.image|, _ => u.v1);
    ProfileKeepsInv(u, n, m);
    NewProfilePassesIff(u, m);
    var n0 := Receive(n, m, true);
    if Rounds(u, n0, rounds, t) && |rounds| == |u.image| {
      RoundsFinishUpdate(u, n0, rounds, t);
    }
  }
}
