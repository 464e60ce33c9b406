/** What the network can still do from any reachable state in which one node has
    the new version: exactly when some continuation brings it to every node, and
    exactly when some continuation leaves a request timer armed with nothing left
    to ask for. Both need profiles that pass the length test of
    contiki/apps/deluge/deluge.c. */
module DelugeRuns {
  import opened DelugeNode
  import opened DelugeNetwork
  import opened DelugeProgress
  import opened DelugeTimer

  // ------------------------------------------------------------ reachability

  ghost predicate Reaches(s: Net, t: Net) {
    exists steps :: Run(s, steps, t)
  }

  lemma SomeRun(s: Net, t: Net) returns (steps: seq<Step>)
    requires Reaches(s, t)
    ensures Run(s, steps, t)
  {
    steps :| Run(s, steps, t);
  }

  lemma ReachesItself(s: Net)
    ensures Reaches(s, s)
  {
    assert Run(s, [], s);
  }

  lemma {:induction false} RunConcat(s: Net, a: seq<Step>, m: Net, b: seq<Step>, t: Net)
    requires Run(s, a, m) && Run(m, b, t)
    ensures Run(s, a + b, t)
    decreases |a|
  {
    hide Next, Enabled;
    if a == [] {
      assert a + b == b;
    } else {
      assert (a + b)[1..] == a[1..] + b;
      RunConcat(Next(s, a[0]), a[1..], m, b, t);
    }
  }

  lemma ReachesOn(s: Net, m: Net, t: Net)
    requires Reaches(s, m) && Reaches(m, t)
    ensures Reaches(s, t)
  {
    var a :| Run(s, a, m);
    var b :| Run(m, b, t);
    RunConcat(s, a, m, b, t);
  }

  lemma OneStep(u: Update, s: Net, step: Step) returns (t: Net)
    requires u.Valid() && Inv(u, s) && Enabled(s, step)
    ensures t == Next(s, step) && Reaches(s, t) && Inv(u, t)
  {
    t := Next(s, step);
    NextKeepsInv(u, s, step);
    assert Run(t, [], t);
    assert Run(s, [step], t);
  }

  /** The messages of `trace`, which are all in flight, arrive at node `i`. */
  lemma {:induction false} DeliverAll(u: Update, s: Net, i: nat, trace: seq<Msg>) returns (t: Net)
    requires u.Valid() && Inv(u, s) && i < |s.nodes|
    requires forall m :: m in trace ==> m in s.msgs
    ensures Reaches(s, t) && Inv(u, t) && t.msgs == s.msgs
    ensures forall j :: 0 <= j < |trace| ==> MsgInv(u, trace[j])
    ensures t.nodes == s.nodes[i := ReceiveAll(u, s.nodes[i], trace)]
    decreases |trace|
  {
    if trace == [] {
      t := s;
      ReachesItself(s);
      assert s.nodes[i := s.nodes[i]] == s.nodes;
    } else {
      var m := trace[0];
      InvMeetsDemands(u, s.nodes[i], Deliver(i, m, true));
      var s1 := OneStep(u, s, Deliver(i, m, true));
      assert s1.msgs == s.msgs;
      t := DeliverAll(u, s1, i, trace[1..]);
      ReachesOn(s, s1, t);
      assert forall j :: 0 < j < |trace| ==> trace[j] == trace[1..][j - 1];
      assert s1.nodes[i] == Receive(s.nodes[i], m, true);
      assert s1.nodes[i := ReceiveAll(u, s1.nodes[i], trace[1..])]
          == s.nodes[i := ReceiveAll(u, s1.nodes[i], trace[1..])];
    }
  }

  // ----------------------------------------------------- rounds as runs

  ghost predicate Apart(s: Net, i: nat, j: nat) {
    i < |s.nodes| && j < |s.nodes| && i != j
  }

  /** A complete node `j` serves a request in flight and node `i` gets it all. */
  lemma Serve(u: Update, s: Net, i: nat, j: nat, req: Msg) returns (t: Net)
    requires u.Valid() && Inv(u, s) && Apart(s, i, j) && Done(u, s.nodes[j])
    requires req in s.msgs && req.Request?
    ensures PacketsOfPage(u, req.pagenum, Served(u, s.nodes[j], req))
    ensures Reaches(s, t) && Inv(u, t) && Apart(t, i, j)
    ensures t.nodes[i] == ReceiveAll(u, s.nodes[i], Served(u, s.nodes[j], req))
  {
    var src := s.nodes[j];
    var sent := Served(u, src, req);
    ServedOnlyPage(u, src, req);
    HighestOfAll(src.pages);
    RequestAccepted(src, req);
    InvMeetsDemands(u, src, Deliver(j, req, true));
    var s1 := OneStep(u, s, Deliver(j, req, true));
    InvMeetsDemands(u, s1.nodes[j], TxTimer(j));
    var s2 := OneStep(u, s1, TxTimer(j));
    assert forall m :: m in sent ==> m in s2.msgs;
    t := DeliverAll(u, s2, i, sent);
    ReachesOn(s, s1, s2);
    ReachesOn(s, s2, t);
  }

  lemma SendRequestStep(u: Update, s: Net, i: nat) returns (t: Net)
    requires u.Valid() && Inv(u, s) && i < |s.nodes| && Updating(u, s.nodes[i]) && s.nodes[i].rxTimer
    ensures Reaches(s, t) && Inv(u, t)
    ensures t.nodes == s.nodes[i := SendRequest(s.nodes[i])]
    ensures RequestOf(s.nodes[i]) in t.msgs
    ensures Updating(u, t.nodes[i]) && RequestOf(t.nodes[i]) == RequestOf(s.nodes[i])
  {
    RequestTimerKeepsInv(u, s.nodes[i]);
    SameAfterTimers(s.nodes[i]);
    t := OneStep(u, s, RequestTimer(i));
  }

  /** Node `i` hears the summary of the complete node `j`. */
  lemma HearSummary(u: Update, s: Net, i: nat, j: nat) returns (t: Net)
    requires u.Valid() && Inv(u, s) && Apart(s, i, j)
    requires Updating(u, s.nodes[i]) && Done(u, s.nodes[j])
    ensures Reaches(s, t) && Inv(u, t)
    ensures t.nodes == s.nodes[i := Asking(u, s.nodes[i], s.nodes[j])]
  {
    var m := AdvertiseSummary(s.nodes[j]);
    var s1 := OneStep(u, s, SummaryTimer(j));
    assert s1.nodes == s.nodes;
    InvMeetsDemands(u, s1.nodes[i], Deliver(i, m, false));
    t := OneStep(u, s1, Deliver(i, m, false));
    ReachesOn(s, s1, t);
  }

  /** One loss-free round is a run. */
  lemma RoundRuns(u: Update, s: Net, i: nat, j: nat) returns (t: Net)
    requires u.Valid() && Inv(u, s) && Apart(s, i, j)
    requires Updating(u, s.nodes[i]) && Done(u, s.nodes[j])
    ensures Reaches(s, t) && Inv(u, t) && Apart(t, i, j)
    ensures t.nodes[i] == AfterRound(u, s.nodes[i], FullRound(u, s.nodes[i], s.nodes[j]))
    ensures Finished(u, t.nodes[i], s.nodes[i].currentRxPage)
  {
    var s1 := HearSummary(u, s, i, j);
    var s2 := SendRequestStep(u, s1, i);
    t := Serve(u, s2, i, j, RequestOf(s1.nodes[i]));
    ReachesOn(s, s1, s2);
    ReachesOn(s, s2, t);
  }

  // -------------------------------------------------------- new versions stay

  lemma {:induction false} RunKeepsDone(u: Update, s: Net, steps: seq<Step>, t: Net, k: nat)
    requires u.Valid() && Inv(u, s) && Run(s, steps, t) && k < |s.nodes| && Done(u, s.nodes[k])
    ensures |t.nodes| == |s.nodes| && Done(u, t.nodes[k])
    decreases |steps|
  {
    if steps != [] {
      NextKeepsInv(u, s, steps[0]);
      if steps[0].i == k {
        StepKeepsPages(u, s.nodes[k], steps[0], |u.image|);
      }
      RunKeepsDone(u, Next(s, steps[0]), steps[1..], t, k);
    }
  }

  lemma ReachesKeepsDone(u: Update, s: Net, t: Net, k: nat)
    requires u.Valid() && Inv(u, s) && Reaches(s, t) && k < |s.nodes| && Done(u, s.nodes[k])
    ensures |t.nodes| == |s.nodes| && Done(u, t.nodes[k])
  {
    var steps :| Run(s, steps, t);
    RunKeepsDone(u, s, steps, t, k);
  }

  // ------------------------------------------------ every node can be updated

  /** Rounds take an updating node up to page `p`. */
  lemma {:induction false} UpToPage(u: Update, s: Net, i: nat, j: nat, p: nat) returns (t: Net)
    requires u.Valid() && Inv(u, s) && Apart(s, i, j)
    requires Updating(u, s.nodes[i]) && Done(u, s.nodes[j])
    requires s.nodes[i].currentRxPage <= p <= |u.image|
    ensures Reaches(s, t) && Inv(u, t) && Apart(t, i, j) && Done(u, t.nodes[j])
    ensures t.nodes[i].currentRxPage == p
    ensures if p == |u.image| then Done(u, t.nodes[i]) else Updating(u, t.nodes[i])
    decreases p - s.nodes[i].currentRxPage
  {
    if s.nodes[i].currentRxPage == p {
      t := s;
      ReachesItself(s);
    } else {
      var s1 := RoundRuns(u, s, i, j);
      ReachesKeepsDone(u, s, s1, j);
      if s1.nodes[i].currentRxPage == |u.image| {
        t := s1;
      } else {
        t := UpToPage(u, s1, i, j, p);
        ReachesOn(s, s1, t);
      }
    }
  }

  /** A node that has not heard of the update gets the complete node's profile. */
  lemma HearProfile(u: Update, s: Net, i: nat, j: nat) returns (t: Net)
    requires u.Valid() && Inv(u, s) && Apart(s, i, j) && Startable(u)
    requires Idle(u, s.nodes[i]) && Done(u, s.nodes[j])
    ensures Reaches(s, t) && Inv(u, t) && Apart(t, i, j) && Done(u, t.nodes[j])
    ensures Updating(u, t.nodes[i]) && t.nodes[i].currentRxPage == 0
  {
    var m := SendProfile(s.nodes[j]);
    ProfileStarts(u, s.nodes[i], s.nodes[j]);
    hide SendProfile, Receive, Idle, Updating, Shape, NodeInv, Run, Reaches;
    var s1 := OneStep(u, s, ProfileTimer(j));
    assert s1.nodes == s.nodes;
    InvMeetsDemands(u, s1.nodes[i], Deliver(i, m, true));
    t := OneStep(u, s1, Deliver(i, m, true));
    ReachesOn(s, s1, t);
  }

  lemma ProfileStarts(u: Update, n: Node, src: Node)
    requires u.Valid() && NodeInv(u, n) && NodeInv(u, src) && Done(u, src) && Idle(u, n) && Startable(u)
    ensures var m := SendProfile(src); var n' := Receive(n, m, true);
      MsgInv(u, m) && NodeInv(u, n') && Updating(u, n') && n'.currentRxPage == 0
  {
    var m := SendProfile(src);
    assert m.vector == seq(|u.image|, _ => u.v1);
    NewProfilePassesIff(u, m);
    ProfileKeepsInv(u, n, m);
  }

  lemma NodeFinishes(u: Update, s: Net, i: nat, j: nat) returns (t: Net)
    requires u.Valid() && Inv(u, s) && i < |s.nodes| && j < |s.nodes| && Done(u, s.nodes[j])
    requires Startable(u) || !Idle(u, s.nodes[i])
    ensures Reaches(s, t) && Inv(u, t) && |t.nodes| == |s.nodes| && Done(u, t.nodes[i])
  {
    var s1 := s;
    ReachesItself(s);
    if Idle(u, s.nodes[i]) {
      s1 := HearProfile(u, s, i, j);
    }
    ReachesKeepsDone(u, s, s1, j);
    if Updating(u, s1.nodes[i]) {
      t := UpToPage(u, s1, i, j, |u.image|);
      ReachesOn(s, s1, t);
    } else {
      t := s1;
    }
    ReachesKeepsDone(u, s, t, j);
  }

  ghost predicate AllTold(u: Update, s: Net) {
    forall i :: 0 <= i < |s.nodes| ==> !Idle(u, s.nodes[i])
  }

  lemma {:induction false} NodesFinish(u: Update, s: Net, k: nat, j: nat) returns (t: Net)
    requires u.Valid() && Inv(u, s) && k <= |s.nodes| && j < |s.nodes| && Done(u, s.nodes[j])
    requires Startable(u) || AllTold(u, s)
    ensures Reaches(s, t) && Inv(u, t) && |t.nodes| == |s.nodes|
    ensures Startable(u) || AllTold(u, t)
    ensures forall i :: 0 <= i < k ==> Done(u, t.nodes[i])
  {
    if k == 0 {
      t := s;
      ReachesItself(s);
    } else {
      hide Idle, Done, Updating, NodeInv, Shape, Run, Reaches, Inv, Startable;
      var s1 := NodesFinish(u, s, k - 1, j);
      ReachesKeepsDone(u, s, s1, j);
      t := NodeFinishes(u, s1, k - 1, j);
      ReachesOn(s, s1, t);
      ReachesKeepsTold(u, s, t);
      forall i | 0 <= i < k - 1 ensures Done(u, t.nodes[i]) {
        ReachesKeepsDone(u, s1, t, i);
      }
    }
  }

  // ------------------------------------------------- updates that cannot start

  /** A node never goes back to where it had not heard of the update; and it gets
      away from there only if the update can start. */
  lemma StepKeepsTold(u: Update, n: Node, step: Step)
    requires u.Valid() && NodeInv(u, n) && Demands(n, step)
    requires step.Deliver? ==> MsgInv(u, step.m)
    requires step.RequestTimer? ==> n.rxTimer
    ensures !Idle(u, n) ==> !Idle(u, NodeAfter(n, step))
    ensures Idle(u, n) && !Startable(u) ==> Idle(u, NodeAfter(n, step))
  {
    if step.Deliver? {
      var m := step.m;
      match m
      case Summary(_, _) => SummaryKeepsInv(u, n, m, step.recent); SameAfterSummary(n, m, step.recent);
      case Request(_, _, _) => RequestKeepsInv(u, n, m); SameAfterRequest(n, m);
      case Packet(_, _, _, _, _) => PacketLeavesTold(u, n, m);
      case Profile(_, _) =>
        ProfileKeepsInv(u, n, m);
        if m.version == u.v1 {
          NewProfilePassesIff(u, m);
        }
    } else if step.RequestTimer? {
      RequestTimerKeepsInv(u, n);
      SameAfterTimers(n);
    } else if step.TxTimer? {
      TxTimerKeepsInv(u, n);
      SameAfterTimers(n);
      FrameInv(u, n, TxCallback(n));
    }
  }

  lemma PacketLeavesTold(u: Update, n: Node, m: Msg)
    requires u.Valid() && NodeInv(u, n) && m.Packet? && MsgInv(u, m)
    ensures Idle(u, n) <==> Idle(u, HandlePacket(n, m))
  {
    PacketKeepsInv(u, n, m);
    if Updating(u, n) && m.pagenum == n.currentRxPage {
      PacketAccepted(n, m);
    }
  }

  lemma {:induction false} RunKeepsTold(u: Update, s: Net, steps: seq<Step>, t: Net, k: nat)
    requires u.Valid() && Inv(u, s) && Run(s, steps, t) && k < |s.nodes|
    ensures |t.nodes| == |s.nodes|
    ensures !Idle(u, s.nodes[k]) ==> !Idle(u, t.nodes[k])
    ensures Idle(u, s.nodes[k]) && !Startable(u) ==> Idle(u, t.nodes[k])
    decreases |steps|
  {
    if steps != [] {
      NextKeepsInv(u, s, steps[0]);
      if steps[0].i == k {
        StepKeepsTold(u, s.nodes[k], steps[0]);
      }
      RunKeepsTold(u, Next(s, steps[0]), steps[1..], t, k);
    }
  }

  lemma ReachesKeepsTold(u: Update, s: Net, t: Net)
    requires u.Valid() && Inv(u, s) && Reaches(s, t)
    ensures |t.nodes| == |s.nodes|
    ensures AllTold(u, s) ==> AllTold(u, t)
  {
    hide Idle, Inv, Run;
    var steps := SomeRun(s, t);
    RunLength(u, s, steps, t);
    if AllTold(u, s) {
      forall k | 0 <= k < |t.nodes| ensures !Idle(u, t.nodes[k]) {
        RunKeepsTold(u, s, steps, t, k);
      }
    }
  }

  lemma RunLength(u: Update, s: Net, steps: seq<Step>, t: Net)
    requires u.Valid() && Inv(u, s) && Run(s, steps, t)
    ensures |t.nodes| == |s.nodes|
  {
    RunKeepsInv(u, s, steps, t);
  }

  ghost predicate AllUpdated(u: Update, s: Net) {
    forall i :: 0 <= i < |s.nodes| ==> s.nodes[i].version == u.v1 && s.nodes[i].store == u.image
  }

  /** Exactly when the update can still succeed: from a reachable state with a
      complete node, however many messages were lost, doubled or reordered on the
      way, some continuation gives the new version and image to every node if and
      only if the update can start, or every node has already been told of it. */
  lemma UpdateCanSpreadIff(u: Update, s: Net, steps: seq<Step>, t: Net, j: nat)
    requires u.Valid() && Init(u, s) && Run(s, steps, t)
    requires j < |t.nodes| && t.nodes[j].version == u.v1
    ensures (exists more, t' :: Run(t, more, t') && AllUpdated(u, t'))
            <==> Startable(u) || forall i :: 0 <= i < |t.nodes| ==> t.nodes[i].updateVersion == u.v1
  {
    InitInv(u, s);
    RunKeepsInv(u, s, steps, t);
    if Startable(u) || forall i :: 0 <= i < |t.nodes| ==> t.nodes[i].updateVersion == u.v1 {
      SpreadToAll(u, t, j);
    } else {
      var i :| 0 <= i < |t.nodes| && t.nodes[i].updateVersion != u.v1;
      forall more, t' | Run(t, more, t') ensures !AllUpdated(u, t') {
        NeverTold(u, t, more, t', i);
      }
    }
  }

  lemma SpreadToAll(u: Update, t: Net, j: nat)
    requires u.Valid() && Inv(u, t) && j < |t.nodes| && t.nodes[j].version == u.v1
    requires Startable(u) || forall i :: 0 <= i < |t.nodes| ==> t.nodes[i].updateVersion == u.v1
    ensures exists more, t' :: Run(t, more, t') && AllUpdated(u, t')
  {
    hide Run, Reaches, Inv, Idle, Startable;
    NodeOf(u, t, j);
    forall i | 0 <= i < |t.nodes| && t.nodes[i].updateVersion == u.v1 ensures !Idle(u, t.nodes[i]) {
      NodeOf(u, t, i);
    }
    var t' := NodesFinish(u, t, |t.nodes|, j);
    var more := SomeRun(t, t');
    assert AllUpdated(u, t');
  }

  lemma NeverTold(u: Update, s: Net, steps: seq<Step>, t: Net, i: nat)
    requires u.Valid() && Inv(u, s) && Run(s, steps, t) && !Startable(u)
    requires i < |s.nodes| && s.nodes[i].updateVersion != u.v1
    ensures i < |t.nodes| && t.nodes[i].version == t.nodes[i].updateVersion == u.v0
    ensures !AllUpdated(u, t)
  {
    NodeOf(u, s, i);
    RunKeepsTold(u, s, steps, t, i);
    RunKeepsInv(u, s, steps, t);
    NodeOf(u, t, i);
  }

  /** An update to version 2 never gets under way, for any image, any older version
      and any run: the node that started with the old object keeps it. */
  lemma VersionTwoNeverStarts(u: Update, s: Net, steps: seq<Step>, t: Net)
    requires u.Valid() && u.v1 == 2
    requires s == Net([InitObject(u.image, 2), InitObject(u.image, u.v0)], {}) && Run(s, steps, t)
    ensures |t.nodes| == 2 && t.nodes[1].version == t.nodes[1].updateVersion == u.v0
  {
    assert InitialNode(u, s.nodes[0]) && InitialNode(u, s.nodes[1]);
    InitInv(u, s);
    RunLength(u, s, steps, t);
    NeverTold(u, s, steps, t, 1);
  }

  lemma NodeOf(u: Update, s: Net, i: nat)
    requires u.Valid() && Inv(u, s) && i < |s.nodes|
    ensures NodeInv(u, s.nodes[i])
    ensures s.nodes[i].version == u.v1 <==> Done(u, s.nodes[i])
    ensures s.nodes[i].version == u.v0 && s.nodes[i].updateVersion == u.v1 <==> Updating(u, s.nodes[i])
    ensures s.nodes[i].updateVersion == u.v0 <==> Idle(u, s.nodes[i])
  {
  }

  // --------------------------------------------- the stranded request timer

  ghost predicate Counted(s: Net) {
    forall i :: 0 <= i < |s.nodes| ==> s.nodes[i].nrequests < CONST_LAMBDA
  }

  lemma CountKept(n: Node, step: Step)
    requires n.nrequests < CONST_LAMBDA && Demands(n, step)
    ensures NodeAfter(n, step).nrequests < CONST_LAMBDA
  {
    if step.Deliver? {
      if step.m.Packet? {
        hide HandlePacket;
        PacketCount(n, step.m);
      } else {
        hide HighestAvailable, AdoptPages, LongEnough;
      }
    }
  }

  lemma PacketCount(n: Node, m: Msg)
    requires Demands(n, Deliver(0, m, true)) && m.Packet?
    ensures HandlePacket(n, m).nrequests == n.nrequests
  {
    hide Patch, Checksum;
  }

  lemma {:induction false} RunKeepsCounted(s: Net, steps: seq<Step>, t: Net)
    requires Counted(s) && Run(s, steps, t)
    ensures Counted(t)
    decreases |steps|
  {
    if steps != [] {
      CountKept(s.nodes[steps[0].i], steps[0]);
      hide NodeAfter, Demands;
      RunKeepsCounted(Next(s, steps[0]), steps[1..], t);
    }
  }

  lemma ReachesKeepsCounted(s: Net, t: Net)
    requires Counted(s) && Reaches(s, t)
    ensures Counted(t)
  {
    var steps :| Run(s, steps, t);
    RunKeepsCounted(s, steps, t);
  }

  lemma RequestCount(n: Node)
    requires n.nrequests < CONST_LAMBDA
    ensures var n' := SendRequest(n);
      && n'.currentRxPage == n.currentRxPage
      && (n.nrequests == 0 ==> n'.nrequests == 1 && n'.rxTimer && n'.mode == n.mode)
      && (n.nrequests == 1 ==> n'.nrequests == 0 && n'.mode.Maintain?)
  {
  }

  /** The node has spent its requests for the page and waits in MAINTAIN. */
  lemma SpendRequests(u: Update, s: Net, i: nat) returns (t: Net)
    requires u.Valid() && Inv(u, s) && Counted(s) && i < |s.nodes|
    requires Updating(u, s.nodes[i]) && s.nodes[i].rxTimer
    ensures Reaches(s, t) && Inv(u, t) && |t.nodes| == |s.nodes|
    ensures forall k :: 0 <= k < |s.nodes| && k != i ==> t.nodes[k] == s.nodes[k]
    ensures Updating(u, t.nodes[i]) && t.nodes[i].currentRxPage == s.nodes[i].currentRxPage
    ensures t.nodes[i].mode.Maintain? && t.nodes[i].nrequests == 0
    ensures RequestOf(t.nodes[i]) in t.msgs
  {
    hide SendRequest, Updating, NodeInv, Shape, Inv, Run, Reaches, RequestOf;
    RequestCount(s.nodes[i]);
    t := SendRequestStep(u, s, i);
    if s.nodes[i].nrequests == 0 {
      var s1 := t;
      RequestCount(s1.nodes[i]);
      t := SendRequestStep(u, s1, i);
      ReachesOn(s, s1, t);
    }
  }

  /** A page received in MAINTAIN leaves the request timer armed if it was, and
      arms it if there is another page. */
  lemma PageInMaintain(u: Update, s: Net, i: nat, j: nat) returns (t: Net)
    requires u.Valid() && Inv(u, s) && Apart(s, i, j) && Done(u, s.nodes[j])
    requires Updating(u, s.nodes[i]) && s.nodes[i].mode.Maintain? && RequestOf(s.nodes[i]) in s.msgs
    ensures Reaches(s, t) && Inv(u, t) && Apart(t, i, j) && Done(u, t.nodes[j])
    ensures var p, n, n' := s.nodes[i].currentRxPage, s.nodes[i], t.nodes[i];
      && Finished(u, n', p) && n'.mode.Maintain? && n'.nrequests == n.nrequests
      && (n'.rxTimer <==> n.rxTimer || p + 1 < |u.image|)
  {
    var n, src := s.nodes[i], s.nodes[j];
    t := Serve(u, s, i, j, RequestOf(n));
    ServedFinishesPage(u, n, src, Served(u, src, RequestOf(n)));
    TimerAlongTrace(u, n, Served(u, src, RequestOf(n)));
    ReachesKeepsDone(u, s, t, j);
  }

  lemma FinishedPage(u: Update, n: Node, p: nat)
    requires u.Valid() && NodeInv(u, n) && Finished(u, n, p)
    ensures p + 1 < |u.image| ==> Updating(u, n) && n.currentRxPage == p + 1
    ensures p + 1 == |u.image| ==> Done(u, n) && (n.rxTimer ==> Stranded(n))
  {
  }

  lemma TimerCanStrand(u: Update, s: Net, i: nat, j: nat) returns (t: Net)
    requires u.Valid() && Inv(u, s) && Counted(s) && Apart(s, i, j) && Done(u, s.nodes[j])
    requires Updating(u, s.nodes[i]) && s.nodes[i].currentRxPage <= |u.image| - 2
    ensures Reaches(s, t) && i < |t.nodes| && Done(u, t.nodes[i]) && Stranded(t.nodes[i])
  {
    hide SendRequest, Updating, Done, NodeInv, Shape, Inv, Run, Reaches, RequestOf, Counted;
    var s1 := UpToPage(u, s, i, j, |u.image| - 2);
    var s2 := HearSummary(u, s1, i, j);
    ReachesOn(s, s1, s2);
    ReachesKeepsCounted(s, s2);
    var s3 := SpendRequests(u, s2, i);
    var s4 := PageInMaintain(u, s3, i, j);
    FinishedPage(u, s4.nodes[i], |u.image| - 2);
    RequestCount(s4.nodes[i]);
    var s5 := SendRequestStep(u, s4, i);
    t := PageInMaintain(u, s5, i, j);
    FinishedPage(u, t.nodes[i], |u.image| - 1);
    ReachesOn(s, s2, s3);
    ReachesOn(s, s3, s4);
    ReachesOn(s, s4, s5);
    ReachesOn(s, s5, t);
  }

  lemma StrandFrom(u: Update, t: Net, i: nat, j: nat) returns (t': Net)
    requires u.Valid() && Inv(u, t) && Counted(t) && Apart(t, i, j) && Done(u, t.nodes[j])
    requires |u.image| >= 2
    requires (Idle(u, t.nodes[i]) && Startable(u))
          || (Updating(u, t.nodes[i]) && t.nodes[i].currentRxPage <= |u.image| - 2)
    ensures Reaches(t, t') && i < |t'.nodes| && Done(u, t'.nodes[i]) && Stranded(t'.nodes[i])
  {
    hide Run, Reaches, Inv, Idle, Updating, Done, NodeInv, Shape, Counted, Stranded;
    if Idle(u, t.nodes[i]) && Startable(u) {
      var t1 := HearProfile(u, t, i, j);
      ReachesKeepsCounted(t, t1);
      t' := TimerCanStrand(u, t1, i, j);
      ReachesOn(t, t1, t');
    } else {
      t' := TimerCanStrand(u, t, i, j);
    }
  }

  /** The node has the new image and an armed timer that must not fire. */
  ghost predicate Outlived(u: Update, s: Net, i: nat) {
    && i < |s.nodes| && s.nodes[i].version == u.v1 && s.nodes[i].store == u.image
    && s.nodes[i].rxTimer && !Demands(s.nodes[i], RequestTimer(i))
  }

  /** From a reachable state with a complete node, a node with two pages or more
      still to come can end the update with an armed request timer that must not
      fire, exactly if it can get through the update at all. */
  lemma TimerOutlivesUpdate(u: Update, s: Net, steps: seq<Step>, t: Net, i: nat, j: nat)
    requires u.Valid() && Init(u, s) && Run(s, steps, t) && |u.image| >= 2
    requires i < |t.nodes| && j < |t.nodes| && t.nodes[j].version == u.v1
    requires t.nodes[i].version == u.v0
    requires t.nodes[i].updateVersion == u.v1 ==> t.nodes[i].currentRxPage <= |u.image| - 2
    ensures (exists more, t' :: Run(t, more, t') && Outlived(u, t', i))
            <==> Startable(u) || t.nodes[i].updateVersion == u.v1
  {
    InitInv(u, s);
    assert Counted(s);
    RunKeepsInv(u, s, steps, t);
    RunKeepsCounted(s, steps, t);
    hide Run, Inv, Init, Counted, Outlived, Startable;
    if Startable(u) || t.nodes[i].updateVersion == u.v1 {
      CanOutlive(u, t, i, j);
    } else {
      CannotOutlive(u, t, i);
    }
  }

  lemma CanOutlive(u: Update, t: Net, i: nat, j: nat)
    requires u.Valid() && Inv(u, t) && Counted(t) && |u.image| >= 2
    requires i < |t.nodes| && j < |t.nodes| && t.nodes[j].version == u.v1 && t.nodes[i].version == u.v0
    requires t.nodes[i].updateVersion == u.v1 ==> t.nodes[i].currentRxPage <= |u.image| - 2
    requires Startable(u) || t.nodes[i].updateVersion == u.v1
    ensures exists more, t' :: Run(t, more, t') && Outlived(u, t', i)
  {
    hide Run, Reaches, Inv, Idle, Updating, NodeInv, Shape, Counted, Startable;
    NodeOf(u, t, i);
    NodeOf(u, t, j);
    var t' := StrandFrom(u, t, i, j);
    var more := SomeRun(t, t');
    assert Outlived(u, t', i);
  }

  lemma CannotOutlive(u: Update, t: Net, i: nat)
    requires u.Valid() && Inv(u, t) && !Startable(u)
    requires i < |t.nodes| && t.nodes[i].updateVersion != u.v1
    ensures !exists more, t' :: Run(t, more, t') && Outlived(u, t', i)
  {
    hide Run, Inv, Startable;
    forall more, t' | Run(t, more, t') ensures !Outlived(u, t', i) {
      NeverTold(u, t, more, t', i);
    }
  }

  // ------------------------------------ where the timer can be stranded at all

  /** A node whose timer cannot be stranded: it has nothing to receive, or it waits
      in RX for the only page. */
  ghost predicate Harmless(u: Update, n: Node)
    requires u.Valid()
  {
    && NodeInv(u, n) && Settled(n) && !Stranded(n)
    && (Updating(u, n) ==> |u.image| == 1 && (n.rxTimer ==> n.mode.Rx?))
  }

  lemma StepKeepsHarmless(u: Update, n: Node, step: Step)
    requires u.Valid() && Harmless(u, n) && Demands(n, step) && (!Startable(u) || |u.image| == 1)
    requires step.Deliver? ==> MsgInv(u, step.m)
    requires step.RequestTimer? ==> n.rxTimer
    ensures Harmless(u, NodeAfter(n, step))
  {
    StepStrands(u, n, step);
    StepKeepsTold(u, n, step);
    if step.Deliver? {
      ReceiveKeepsInv(u, n, step.m, step.recent);
      DeliveryKeepsWaiting(u, n, step.m, step.recent);
    } else if step.RequestTimer? {
      RequestTimerKeepsInv(u, n);
    } else if step.TxTimer? {
      TxTimerKeepsInv(u, n);
    }
  }

  lemma DeliveryKeepsWaiting(u: Update, n: Node, m: Msg, recent: bool)
    requires u.Valid() && Harmless(u, n) && MsgInv(u, m) && (!Startable(u) || |u.image| == 1)
    ensures var n' := Receive(n, m, recent);
      NodeInv(u, n') && (Updating(u, n') ==> |u.image| == 1 && (n'.rxTimer ==> n'.mode.Rx?))
  {
    ReceiveKeepsInv(u, n, m, recent);
    match m
    case Summary(_, _) => SummaryKeepsInv(u, n, m, recent);
    case Request(_, _, _) => RequestKeepsInv(u, n, m);
    case Profile(_, _) =>
      ProfileKeepsInv(u, n, m);
      if m.version == u.v1 {
        NewProfilePassesIff(u, m);
      }
    case Packet(_, _, _, _, _) => PacketKeepsWaiting(u, n, m);
  }

  lemma PacketKeepsWaiting(u: Update, n: Node, m: Msg)
    requires u.Valid() && Harmless(u, n) && m.Packet? && MsgInv(u, m)
    ensures var n' := HandlePacket(n, m);
      Updating(u, n') ==> |u.image| == 1 && (n'.rxTimer ==> n'.mode.Rx?)
  {
    hide Patch, Checksum;
    PacketKeepsInv(u, n, m);
    if Updating(u, n) && m.pagenum == n.currentRxPage {
      if n.pages[m.pagenum].packetSet + {m.packetnum} == ALL_PACKETS {
        PacketCompletesPage(u, n, m);
      }
    }
  }

  lemma {:induction false} RunKeepsHarmless(u: Update, s: Net, steps: seq<Step>, t: Net, k: nat)
    requires u.Valid() && Inv(u, s) && Run(s, steps, t) && k < |s.nodes| && Harmless(u, s.nodes[k])
    requires !Startable(u) || |u.image| == 1
    ensures k < |t.nodes| && Harmless(u, t.nodes[k])
    decreases |steps|
  {
    if steps != [] {
      NextKeepsInv(u, s, steps[0]);
      if steps[0].i == k {
        StepKeepsHarmless(u, s.nodes[k], steps[0]);
      }
      RunKeepsHarmless(u, Next(s, steps[0]), steps[1..], t, k);
    }
  }

  ghost predicate SomeStranded(s: Net) {
    exists i :: 0 <= i < |s.nodes| && s.nodes[i].rxTimer && !Demands(s.nodes[i], RequestTimer(i))
  }

  /** The updates under which an armed request timer that must not fire can be
      reached at all: those that can start and have two pages or more. */
  lemma StrandedReachableIff(u: Update)
    requires u.Valid()
    ensures (exists s, steps, t :: Init(u, s) && Run(s, steps, t) && SomeStranded(t))
            <==> Startable(u) && |u.image| >= 2
  {
    if Startable(u) && |u.image| >= 2 {
      StrandedFromStart(u);
    } else {
      forall s, steps, t | Init(u, s) && Run(s, steps, t) ensures !SomeStranded(t) {
        NoneStranded(u, s, steps, t);
      }
    }
  }

  lemma NoneStranded(u: Update, s: Net, steps: seq<Step>, t: Net)
    requires u.Valid() && Init(u, s) && Run(s, steps, t) && (!Startable(u) || |u.image| == 1)
    ensures !SomeStranded(t)
  {
    InitInv(u, s);
    RunLength(u, s, steps, t);
    forall i | 0 <= i < |t.nodes|
      ensures !(t.nodes[i].rxTimer && !Demands(t.nodes[i], RequestTimer(i)))
    {
      assert InitialNode(u, s.nodes[i]);
      RunKeepsHarmless(u, s, steps, t, i);
    }
  }

  /** Two nodes are enough. */
  lemma StrandedFromStart(u: Update)
    requires u.Valid() && |u.image| >= 2 && Startable(u)
    ensures exists s, steps, t :: Init(u, s) && Run(s, steps, t) && SomeStranded(t)
  {
    var s := Net([InitObject(u.image, u.v1), InitObject(u.image, u.v0)], {});
    assert InitialNode(u, s.nodes[0]) && InitialNode(u, s.nodes[1]);
    assert Run(s, [], s);
    TimerOutlivesUpdate(u, s, [], s, 1, 0);
    var more, t' :| Run(s, more, t') && Outlived(u, t', 1);
    assert SomeStranded(t');
  }
}
