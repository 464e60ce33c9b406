/** One node of the Deluge dissemination protocol, as a value.

    Each function below gives the effect of one handler or timer callback of
    contiki/apps/deluge/deluge.c on the static `current_object`.  The class in
    DelugeObject.dfy computes the same effects in place. */
module DelugeNode {

  const S_PKT: nat := 32            // bytes per packet
  const N_PKT: nat := 4             // packets per page
  const S_PAGE: nat := 128          // bytes per page

  /** A bit mask, as the set of the positions of its one bits. */
  type Bits = set<nat>

  const ALL_PACKETS: Bits := {0, 1, 2, 3}           // (1 << N_PKT) - 1
  const BYTE: Bits := {0, 1, 2, 3, 4, 5, 6, 7}      // the bits of a uint8_t

  const PACKETBUF_SIZE: nat := 128  // bytes a broadcast can carry
  const PROFILE_HEADER: nat := 5    // bytes of a profile before its vector

  const CONST_LAMBDA: nat := 2      // requests before falling back to MAINTAIN

  type uint8 = x: int | 0 <= x < 256
  type Octet = bv8

  datatype Mode = Maintain | Rx | Tx

  datatype Page = Page(version: uint8, packetSet: Bits, complete: bool)

  /** `store` is the object's file, page by page; `rxTimer` and `txTimer` say
      whether a callback is armed. */
  datatype Node = Node(
    version: uint8,
    updateVersion: uint8,
    pages: seq<Page>,
    currentRxPage: nat,
    currentTxPage: int,
    txSet: Bits,
    nrequests: uint8,
    currentPage: seq<Octet>,
    store: seq<seq<Octet>>,
    mode: Mode,
    rxTimer: bool,
    txTimer: bool)

  datatype Msg =
    | Summary(version: uint8, highestAvailable: nat)
    | Request(version: uint8, pagenum: nat, requestSet: Bits)
    | Packet(version: uint8, pagenum: nat, packetnum: nat, crc: bv16, payload: seq<Octet>)
    | Profile(version: uint8, vector: seq<uint8>)

  // --------------------------------------------------------------- checksums

  /** One step of the CRC that guards every data packet. */
  function Crc16Add(b: Octet, acc: bv16): bv16 {
    var a0 := acc ^ (b as bv16);
    var a1 := (a0 >> 8) | (a0 << 8);
    var a2 := a1 ^ ((a1 & 0xFF00) << 4);
    var a3 := a2 ^ ((a2 >> 8) >> 4);
    a3 ^ ((a3 & 0xFF00) >> 5)
  }

  function ChecksumFrom(buf: seq<Octet>, sum: bv16): bv16 {
    if buf == [] then sum else ChecksumFrom(buf[1..], Crc16Add(buf[0], sum))
  }

  function Checksum(buf: seq<Octet>): bv16 {
    ChecksumFrom(buf, 0)
  }

  // ------------------------------------------------------------------- pages

  /** Number of leading complete pages. */
  function HighestAvailable(pages: seq<Page>): (h: nat)
    ensures h <= |pages|
    ensures forall i :: 0 <= i < h ==> pages[i].complete
    ensures h < |pages| ==> !pages[h].complete
  {
    if pages == [] || !pages[0].complete then 0 else 1 + HighestAvailable(pages[1..])
  }

  function Slice(page: seq<Octet>, k: nat): seq<Octet>
    requires |page| == S_PAGE && k < N_PKT
  {
    page[S_PKT * k .. S_PKT * (k + 1)]
  }

  /** The buffer after `memcpy(&current_page[S_PKT * k], payload, S_PKT)`. */
  function Patch(page: seq<Octet>, k: nat, payload: seq<Octet>): (r: seq<Octet>)
    requires |page| == S_PAGE && k < N_PKT && |payload| == S_PKT
    ensures |r| == S_PAGE
  {
    page[.. S_PKT * k] + payload + page[S_PKT * (k + 1) ..]
  }

  // ---------------------------------------------------------------- handlers

  function Transition(n: Node, m: Mode): Node {
    match n.mode
    case Maintain => n.(mode := m)
    case Rx => n.(mode := m, rxTimer := false)
    case Tx => n.(mode := m, txTimer := false)
  }

  /** A freshly disseminated object: every page is present. */
  function InitObject(store: seq<seq<Octet>>, version: uint8): Node {
    Node(version, version, seq(|store|, _ => Page(version, ALL_PACKETS, true)), 0, 0, {}, 0,
         seq(S_PAGE, _ => 0), store, Maintain, false, false)
  }

  function AdvertiseSummary(n: Node): Msg {
    Summary(n.updateVersion, HighestAvailable(n.pages))
  }

  function SendProfile(n: Node): Msg {
    Profile(n.version, seq(|n.pages|, i requires 0 <= i < |n.pages| => n.pages[i].version))
  }

  function RequestOf(n: Node): Msg
    requires n.currentRxPage < |n.pages|
  {
    Request(n.pages[n.currentRxPage].version, n.currentRxPage,
            BYTE - n.pages[n.currentRxPage].packetSet)
  }

  /** The request timer fires: `RequestOf` is sent and the timer is re-armed
      unless this was the last request of the round. */
  function SendRequest(n: Node): Node {
    var fired := n.(nrequests := (n.nrequests + 1) % 256, rxTimer := false);
    if fired.nrequests == CONST_LAMBDA then Transition(fired.(nrequests := 0), Maintain)
    else fired.(rxTimer := true)
  }

  /** `recent` is the outcome of the age test on `last_request`/`last_data`. */
  function HandleSummary(n: Node, m: Msg, recent: bool): Node
    requires m.Summary?
  {
    if m.version == n.updateVersion && m.highestAvailable > HighestAvailable(n.pages) then
      if m.highestAvailable > |n.pages| || recent then n
      else Transition(n, Rx).(rxTimer := true)
    else n
  }

  function Int8(x: nat): int {
    if x % 256 < 128 then x % 256 else x % 256 - 256
  }

  function HandleRequest(n: Node, m: Msg): Node
    requires m.Request?
  {
    if m.pagenum >= |n.pages| then n
    else if m.version == n.version && m.pagenum <= HighestAvailable(n.pages) then
      var n' := if m.pagenum == n.currentTxPage then n.(txSet := n.txSet + m.requestSet)
                else n.(currentTxPage := Int8(m.pagenum), txSet := m.requestSet);
      Transition(n', Tx).(txTimer := true)
    else n
  }

  /** Those of the first `k` packets of page `p` that `sel` selects. */
  function PagePackets(v: uint8, p: nat, buf: seq<Octet>, sel: Bits, k: nat): seq<Msg>
    requires |buf| == S_PAGE && k <= N_PKT
  {
    if k == 0 then []
    else
      PagePackets(v, p, buf, sel, k - 1)
      + if k - 1 in sel then
          [Packet(v, p, k - 1, Checksum(Slice(buf, k - 1)), Slice(buf, k - 1))]
        else []
  }

  predicate CanTransmit(n: Node) {
    n.currentTxPage >= 0 && n.txSet != {}
  }

  function TxPackets(n: Node): seq<Msg>
    requires n.currentTxPage < |n.pages| == |n.store|
    requires forall i :: 0 <= i < |n.store| ==> |n.store[i]| == S_PAGE
  {
    if CanTransmit(n) then
      PagePackets(n.pages[n.currentTxPage].version, n.currentTxPage, n.store[n.currentTxPage], n.txSet, N_PKT)
    else []
  }

  function TxCallback(n: Node): Node {
    if CanTransmit(n) then
      Transition(n.(txTimer := false, txSet := {}, currentTxPage := -1), Maintain)
    else n.(txTimer := false)
  }

  /** All packets of page `p` are in: the page is written and the node moves on. */
  function FinishPage(n: Node, p: nat): Node
    requires p < |n.pages| == |n.store|
  {
    var n1 := n.(store := n.store[p := n.currentPage],
                 pages := n.pages[p := n.pages[p].(complete := true)],
                 currentRxPage := n.currentRxPage + 1);
    var n2 := if p == |n.pages| - 1 then n1.(version := n.updateVersion)
              else if n1.currentRxPage < |n.pages| then n1.(rxTimer := true)
              else n1;
    Transition(n2, Maintain)
  }

  function HandlePacket(n: Node, m: Msg): Node
    requires m.Packet? && m.packetnum < N_PKT && |m.payload| == S_PKT
    requires |n.currentPage| == S_PAGE
    requires |n.store| == |n.pages|
    requires m.pagenum == n.currentRxPage ==> m.pagenum < |n.pages|
  {
    if m.pagenum != n.currentRxPage then n
    else
      var page := n.pages[m.pagenum];
      if m.version != page.version || page.complete then n
      else
        var n1 := n.(currentPage := Patch(n.currentPage, m.packetnum, m.payload));
        if m.crc != Checksum(m.payload) then n1
        else
          var page' := page.(packetSet := page.packetSet + {m.packetnum});
          var n2 := n1.(pages := n.pages[m.pagenum := page']);
          if page'.packetSet == ALL_PACKETS then FinishPage(n2, m.pagenum) else n2
  }

  function AdoptPage(page: Page, v: uint8): Page {
    if v > page.version then Page(v, {}, false) else page
  }

  function AdoptPages(pages: seq<Page>, vector: seq<uint8>): seq<Page> {
    seq(|vector|, i requires 0 <= i < |vector| =>
      if i < |pages| then AdoptPage(pages[i], vector[i]) else Page(0, {}, false))
  }

  function HandleProfile(n: Node, m: Msg): Node
    requires m.Profile?
  {
    if m.version <= n.updateVersion then n
    else
      var pages' := AdoptPages(n.pages, m.vector);
      Transition(n.(txSet := {}, pages := pages',
                    currentRxPage := HighestAvailable(pages'), updateVersion := m.version), Rx)
      .(rxTimer := true)
  }

  /** Length of a profile on the air, where a long one is cut off. */
  function WireLength(m: Msg): nat
    requires m.Profile?
  {
    if PROFILE_HEADER + |m.vector| > PACKETBUF_SIZE then PACKETBUF_SIZE else PROFILE_HEADER + |m.vector|
  }

  /** The length test that a profile has to pass. The code multiplies the page
      count by the version of the first page where it means the size of an entry. */
  predicate LongEnough(m: Msg)
    requires m.Profile?
  {
    WireLength(m) >= PROFILE_HEADER + |m.vector| * (if m.vector == [] then 0 else m.vector[0])
  }

  /** Dispatch of an incoming message, by command. */
  function Receive(n: Node, m: Msg, recent: bool): Node
    requires |n.currentPage| == S_PAGE && |n.store| == |n.pages|
    requires m.Packet? ==> m.packetnum < N_PKT && |m.payload| == S_PKT
    requires m.Packet? && m.pagenum == n.currentRxPage ==> m.pagenum < |n.pages|
  {
    match m
    case Summary(_, _) => HandleSummary(n, m, recent)
    case Request(_, _, _) => HandleRequest(n, m)
    case Packet(_, _, _, _, _) => HandlePacket(n, m)
    case Profile(_, _) => if LongEnough(m) then HandleProfile(n, m) else n
  }

  // ----------------------------------------------------- facts about buffers

  /** A copied packet is where it belongs and disturbs no other slot. */
  lemma PatchSlices(page: seq<Octet>, j: nat, payload: seq<Octet>, k: nat)
    requires |page| == S_PAGE && j < N_PKT && k < N_PKT && |payload| == S_PKT
    ensures Slice(Patch(page, j, payload), k) == if j == k then payload else Slice(page, k)
  {
    var r := Patch(page, j, payload);
    forall i | 0 <= i < S_PKT
      ensures Slice(r, k)[i] == if j == k then payload[i] else Slice(page, k)[i]
    {
      assert Slice(r, k)[i] == r[S_PKT * k + i];
    }
    assert j != k ==> Slice(r, k) == Slice(page, k);
  }

  lemma SlicesDetermine(a: seq<Octet>, b: seq<Octet>)
    requires |a| == |b| == S_PAGE
    requires forall k :: 0 <= k < N_PKT ==> Slice(a, k) == Slice(b, k)
    ensures a == b
  {
    assert a == Slice(a, 0) + Slice(a, 1) + Slice(a, 2) + Slice(a, 3);
    assert b == Slice(b, 0) + Slice(b, 1) + Slice(b, 2) + Slice(b, 3);
  }
}
