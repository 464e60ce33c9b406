/** When the request timer is armed with nothing left to ask for.  Its callback
    looks up the page at `current_rx_page`, which then does not exist. */
module DelugeTimer {
  import opened DelugeNode
  import opened DelugeNetwork
  import opened DelugeProgress

  /** Whether the request timer is armed when a page has been completed.  It
      survives the last page, with nothing left to ask for, exactly when it was
      armed and the node had already left the RX state. */
  lemma TimerAfterPage(u: Update, n: Node, m: Msg)
    requires u.Valid() && Shape(u, n) && Updating(u, n) && m.Packet? && MsgInv(u, m)
    requires m.pagenum == n.currentRxPage
    requires n.pages[m.pagenum].packetSet + {m.packetnum} == ALL_PACKETS
    ensures var n' := HandlePacket(n, m);
            && (n'.rxTimer <==> !n.mode.Rx? && (n.rxTimer || n'.currentRxPage < |n.pages|))
            && (Demands(n', RequestTimer(0)) <==> n'.currentRxPage < |n.pages|)
  {
  }

  /** In MAINTAIN, packets leave the request timer alone until one of them
      finishes the page; that one arms it unless the page is the last. */
  lemma {:induction false} TimerAlongTrace(u: Update, n: Node, trace: seq<Msg>)
    requires u.Valid() && Shape(u, n) && Updating(u, n) && n.mode.Maintain?
    requires PacketsOfPage(u, n.currentRxPage, trace)
    ensures var p, n' := n.currentRxPage, ReceiveAll(u, n, trace);
      && n'.mode.Maintain? && n'.nrequests == n.nrequests
      && (n'.rxTimer <==> n.rxTimer || (Finished(u, n', p) && p + 1 < |n.pages|))
    decreases |trace|
  {
    if trace != [] {
      var p, m := n.currentRxPage, trace[0];
      var n1 := Receive(n, m, true);
      PacketKeepsInv(u, n, m);
      if n.pages[p].packetSet + {m.packetnum} == ALL_PACKETS {
        PacketCompletesPage(u, n, m);
        TimerAfterPage(u, n, m);
        LateDuplicates(u, n1, p, trace[1..]);
      } else {
        PacketKeepsAssembling(u, n, m);
        TimerAlongTrace(u, n1, trace[1..]);
      }
    }
  }

  // ------------------------------------------------------------ over all runs

  /** The callback is armed and would leave the page table. */
  ghost predicate Stranded(n: Node) {
    n.rxTimer && !Demands(n, RequestTimer(0))
  }

  /** The step that brings node `n` the last packet of its last page. */
  ghost predicate LastPacket(n: Node, step: Step, i: nat) {
    && step.Deliver? && step.i == i && Novel(n, step.m)
    && n.currentRxPage == |n.pages| - 1
    && n.pages[n.currentRxPage].packetSet + {step.m.packetnum} == ALL_PACKETS
  }

  /** Along the run the last packet finds the timer armed and the node not in RX. */
  ghost predicate FinishedArmed(s: Net, steps: seq<Step>, i: nat)
    requires i < |s.nodes|
    decreases |steps|
  {
    && steps != [] && Enabled(s, steps[0])
    && ((LastPacket(s.nodes[i], steps[0], i) && s.nodes[i].rxTimer && !s.nodes[i].mode.Rx?)
        || FinishedArmed(Next(s, steps[0]), steps[1..], i))
  }

  /** A node with nothing left to receive is not in RX. */
  ghost predicate Settled(n: Node) {
    n.currentRxPage >= |n.pages| ==> !n.mode.Rx?
  }

  lemma PacketStrands(u: Update, n: Node, m: Msg, i: nat)
    requires u.Valid() && NodeInv(u, n) && Settled(n) && m.Packet? && MsgInv(u, m)
    ensures var n', last := HandlePacket(n, m), LastPacket(n, Deliver(i, m, true), i);
      Settled(n') && (Stranded(n') <==> Stranded(n) || (last && n.rxTimer && !n.mode.Rx?))
  {
    if !Updating(u, n) {
      PacketKeepsInv(u, n, m);
    } else if m.pagenum == n.currentRxPage {
      if n.pages[m.pagenum].packetSet + {m.packetnum} == ALL_PACKETS {
        TimerAfterPage(u, n, m);
        PacketCompletesPage(u, n, m);
      } else {
        PacketKeepsAssembling(u, n, m);
        PacketAccepted(n, m);
      }
    }
  }

  lemma QuietHandlers(u: Update, n: Node, m: Msg, recent: bool)
    requires u.Valid() && NodeInv(u, n) && Settled(n) && !m.Packet? && MsgInv(u, m)
    ensures var n' := Receive(n, m, recent); Settled(n') && (Stranded(n') <==> Stranded(n))
  {
    match m
    case Summary(_, _) => SummaryKeepsInv(u, n, m, recent); SameAfterSummary(n, m, recent);
    case Request(_, _, _) => SameAfterRequest(n, m);
    case Profile(_, _) => ProfileKeepsInv(u, n, m);
  }

  lemma StepStrands(u: Update, n: Node, step: Step)
    requires u.Valid() && NodeInv(u, n) && Settled(n) && Demands(n, step)
    requires step.Deliver? ==> MsgInv(u, step.m)
    ensures var n' := NodeAfter(n, step);
      && Settled(n')
      && (Stranded(n') <==>
            Stranded(n) || (LastPacket(n, step, step.i) && n.rxTimer && !n.mode.Rx?))
  {
    if step.Deliver? {
      if step.m.Packet? {
        PacketStrands(u, n, step.m, step.i);
      } else {
        QuietHandlers(u, n, step.m, step.recent);
      }
    } else {
      SameAfterTimers(n);
    }
  }

  lemma {:induction false} RunStrands(u: Update, s: Net, steps: seq<Step>, t: Net, i: nat)
    requires u.Valid() && Inv(u, s) && Run(s, steps, t) && i < |s.nodes| && Settled(s.nodes[i])
    ensures i < |t.nodes| && Settled(t.nodes[i])
    ensures Stranded(t.nodes[i]) <==> Stranded(s.nodes[i]) || FinishedArmed(s, steps, i)
    decreases |steps|
  {
    if steps != [] {
      NextKeepsInv(u, s, steps[0]);
      if steps[0].i == i {
        StepStrands(u, s.nodes[i], steps[0]);
      }
      RunStrands(u, Next(s, steps[0]), steps[1..], t, i);
    }
  }

  /** In every run of any number of nodes, a node's armed request timer is one that
      must not fire exactly when the packet that finished its update found the
      timer armed and the node no longer in RX; nothing before or after that packet
      can bring this about or undo it. */
  lemma TimerStrandedIff(u: Update, s: Net, steps: seq<Step>, t: Net, i: nat)
    requires u.Valid() && Init(u, s) && Run(s, steps, t) && i < |s.nodes|
    ensures i < |t.nodes|
    ensures t.nodes[i].rxTimer && !Demands(t.nodes[i], RequestTimer(i)) <==> FinishedArmed(s, steps, i)
  {
    InitInv(u, s);
    assert InitialNode(u, s.nodes[i]);
    RunStrands(u, s, steps, t, i);
  }
}
