/** The DHCP relay of contiki/tools/tunslip.c: messages to the server over a
    socket, packets to the client over the serial line. */
module DhcpRelay {
  import opened Bytes
  import opened Wrappers
  import opened Checksum
  import opened IpCheck
  import D = DhcpOptions
  import P = DhcpPads

  const BASE_LEN: nat := 44          // fixed part up to and including chaddr
  const HOLE_LEN: nat := 192         // sname and file, absent on the serial side
  const OPTIONS_LEN: nat := 312
  const COOKIE_LEN: nat := 4
  const BOOTREQUEST: byte := 1
  const BOOTPS: byte := 67
  const BOOTPC: byte := 68

  /** memcpy into a buffer. */
  method Put(a: array<byte>, at: nat, bytes: seq<byte>)
    requires at + |bytes| <= a.Length
    modifies a
    ensures a[..] == old(a[.. at]) + bytes + old(a[at + |bytes| ..])
  {
    forall i | 0 <= i < |bytes| {
      a[at + i] := bytes[i];
    }
  }

  // ---------------------------------------------------------------- to server

  function Zeros(n: nat): (r: seq<byte>)
    ensures |r| == n
  {
    seq(n, _ => 0)
  }

  function Incremented(hops: byte): byte {
    (hops as int + 1) % 256
  }

  /** The fixed part with broadcast flag, hop count and relay address set. */
  function RelayedBase(base: seq<byte>, giaddr: seq<byte>): (r: seq<byte>)
    requires |base| == BASE_LEN && |giaddr| == 4
    ensures |r| == BASE_LEN
  {
    base[.. 3] + [Incremented(base[3])] + base[4 .. 10] + [0x80, 0]
    + base[12 .. 24] + giaddr + base[28 ..]
  }

  /** The message for the server; `dhcp` is the packet without its IP and UDP
      headers. */
  function ToServer(dhcp: seq<byte>, netaddr: seq<byte>, circuit: seq<byte>, giaddr: seq<byte>): seq<byte>
    requires |dhcp| > BASE_LEN && |netaddr| == |circuit| == |giaddr| == 4
  {
    RelayedBase(dhcp[.. BASE_LEN], giaddr) + Zeros(HOLE_LEN)
    + D.Extended(dhcp[BASE_LEN ..], netaddr, circuit, giaddr)
  }

  /** Continues the message after its first `n` bytes, which are `prefix`. */
  method Append(m: array<byte>, n: nat, ghost prefix: seq<byte>, bytes: seq<byte>) returns (n': nat)
    requires n + |bytes| <= m.Length && m[.. n] == prefix
    modifies m
    ensures n' == n + |bytes| && m[.. n'] == prefix + bytes
  {
    Put(m, n, bytes);
    n' := n + |bytes|;
  }

  method PutBase(m: array<byte>, base: seq<byte>, giaddr: seq<byte>)
    requires |base| == BASE_LEN <= m.Length && |giaddr| == 4
    modifies m
    ensures m[.. BASE_LEN] == RelayedBase(base, giaddr)
  {
    Put(m, 0, base);
    m[10], m[11] := 0x80, 0;
    m[3] := Incremented(m[3]);
    Put(m, 24, giaddr);
  }

  lemma ToServerParts(dhcp: seq<byte>, netaddr: seq<byte>, circuit: seq<byte>, giaddr: seq<byte>)
    requires |dhcp| > BASE_LEN && |netaddr| == |circuit| == |giaddr| == 4
    ensures |D.SelectionBytes(netaddr)| == 6 && |D.AgentBytes(netaddr, circuit, giaddr)| == 20
    ensures ToServer(dhcp, netaddr, circuit, giaddr)
         == RelayedBase(dhcp[.. BASE_LEN], giaddr) + Zeros(HOLE_LEN)
            + dhcp[BASE_LEN ..][.. |dhcp| - BASE_LEN - 1]
            + D.SelectionBytes(netaddr) + D.AgentBytes(netaddr, circuit, giaddr) + [D.END]
  {
    hide RelayedBase, Zeros;
  }

  /** Builds the message in `m`; `n` is the length handed to `sendto`, or 0 if
      the packet is not a request. */
  method RelayToServer(dhcp: seq<byte>, netaddr: seq<byte>, circuit: seq<byte>, giaddr: seq<byte>,
                       m: array<byte>)
    returns (n: nat)
    requires |dhcp| > BASE_LEN && |netaddr| == |circuit| == |giaddr| == 4
    requires m.Length == BASE_LEN + HOLE_LEN + OPTIONS_LEN
    requires |dhcp| - BASE_LEN + 26 <= OPTIONS_LEN
    modifies m
    ensures dhcp[0] != 1 ==> n == 0
    ensures dhcp[0] == 1 ==>
      n <= m.Length && m[.. n] == ToServer(dhcp, netaddr, circuit, giaddr)
  {
    if dhcp[0] != BOOTREQUEST {
      return 0;
    }
    hide RelayedBase, ToServer, D.SelectionBytes, D.AgentBytes, Zeros;
    ToServerParts(dhcp, netaddr, circuit, giaddr);
    var options := dhcp[BASE_LEN ..];
    n := |dhcp| + HOLE_LEN;
    PutBase(m, dhcp[.. BASE_LEN], giaddr);
    ghost var written := RelayedBase(dhcp[.. BASE_LEN], giaddr);
    var optptr := Append(m, BASE_LEN, written, Zeros(HOLE_LEN));
    written := written + Zeros(HOLE_LEN);
    optptr := Append(m, optptr, written, options);
    optptr := optptr - 1;
    written := written + options[.. |options| - 1];
    var selection := D.SelectionBytes(netaddr);
    optptr := Append(m, optptr, written, selection);
    n := n + 4 + 2;
    var agent := D.AgentBytes(netaddr, circuit, giaddr);
    optptr := Append(m, optptr, written + selection, agent);
    n := n + 18 + 2;
    optptr := Append(m, optptr, written + selection + agent, [D.END]);
  }

  /** What the relay does to the fixed part of a request, byte by byte: one more hop
      at 3, the broadcast flag at 10, its own address at 24; then a hole of zeros
      and the client's cookie. */
  predicate SentFields(m: seq<byte>, dhcp: seq<byte>, giaddr: seq<byte>) {
    && |m| >= 240 && |dhcp| >= 48 && |giaddr| == 4
    && (forall i :: 0 <= i < 44 ==>
          m[i] == if i == 3 then (dhcp[3] as int + 1) % 256 else if i == 10 then 128 else if i == 11 then 0
                  else if 24 <= i < 28 then giaddr[i - 24] else dhcp[i])
    && (forall i :: 44 <= i < 236 ==> m[i] == 0)
    && m[236 .. 240] == dhcp[44 .. 48]
  }

  lemma RequestFields(dhcp: seq<byte>, netaddr: seq<byte>, circuit: seq<byte>, giaddr: seq<byte>)
    requires |dhcp| > BASE_LEN + COOKIE_LEN && |netaddr| == |circuit| == |giaddr| == 4
    ensures SentFields(ToServer(dhcp, netaddr, circuit, giaddr), dhcp, giaddr)
  {
    ToServerParts(dhcp, netaddr, circuit, giaddr);
    var m := ToServer(dhcp, netaddr, circuit, giaddr);
    var base, options := RelayedBase(dhcp[.. BASE_LEN], giaddr), dhcp[BASE_LEN ..][.. |dhcp| - BASE_LEN - 1];
    var rest := D.SelectionBytes(netaddr) + D.AgentBytes(netaddr, circuit, giaddr) + [D.END];
    assert m == base + Zeros(HOLE_LEN) + options + rest;
    assert m[.. 44] == base;
    assert m[44 .. 236] == Zeros(HOLE_LEN);
    assert m[236 .. 240] == options[.. 4];
    forall i | 0 <= i < 44 ensures m[i] == base[i] {
      assert m[i] == m[.. 44][i];
    }
    forall i | 44 <= i < 236 ensures m[i] == 0 {
      assert m[i] == m[44 .. 236][i - 44];
    }
  }

  /** The options of the relayed request, read by the server: the client's own
      and the relay's two, exactly when the client's END is its last byte. */
  lemma ServerReadsRequest(dhcp: seq<byte>, netaddr: seq<byte>, circuit: seq<byte>, giaddr: seq<byte>)
    requires |dhcp| > BASE_LEN + COOKIE_LEN && |netaddr| == |circuit| == |giaddr| == 4
    requires D.Parse(dhcp[BASE_LEN + COOKIE_LEN ..]).Some?
    ensures var m := ToServer(dhcp, netaddr, circuit, giaddr);
            var client := D.Parse(dhcp[BASE_LEN + COOKIE_LEN ..]).value;
            var area := m[BASE_LEN + HOLE_LEN + COOKIE_LEN ..];
      && |m| == |dhcp| + HOLE_LEN + 26
      && SentFields(m, dhcp, giaddr)
      && D.Parse(area).Some?
      && (client.rest == [] <==>
            D.Parse(area).value.items == client.items + D.RelayItems(netaddr, circuit, giaddr))
      && (client.rest != [] ==> D.Parse(area).value.items == client.items)
  {
    var options, area := dhcp[BASE_LEN ..], dhcp[BASE_LEN + COOKIE_LEN ..];
    var m := ToServer(dhcp, netaddr, circuit, giaddr);
    assert options[COOKIE_LEN ..] == area;
    assert m[BASE_LEN + HOLE_LEN ..] == D.Extended(options, netaddr, circuit, giaddr);
    assert D.Extended(options, netaddr, circuit, giaddr)[COOKIE_LEN ..]
        == D.Extended(area, netaddr, circuit, giaddr);
    assert m[BASE_LEN + HOLE_LEN + COOKIE_LEN ..] == m[BASE_LEN + HOLE_LEN ..][COOKIE_LEN ..];
    D.RequestExtended(area, netaddr, circuit, giaddr);
    RequestFields(dhcp, netaddr, circuit, giaddr);
  }

  // ---------------------------------------------------------------- to client

  /** The copy loop, writing from `start` on into the packet's option area. */
  method CopyOptions(buf: seq<byte>, end: nat, out: array<byte>, start: nat) returns (t: nat)
    requires end <= |buf| && D.CopyFrom(buf, end, 0).Some?
    requires start + |D.CopyFrom(buf, end, 0).value| <= out.Length
    modifies out
    ensures t == start + |D.CopyFrom(buf, end, 0).value|
    ensures out[.. t] == old(out[.. start]) + D.CopyFrom(buf, end, 0).value
  {
    hide D.CopyFrom;
    var p := 0;
    t := start;
    D.CopyUnfold(buf, end, p);
    ghost var all := D.CopyFrom(buf, end, 0).value;
    while p < end && buf[p] != D.END
      invariant start <= t && t <= out.Length
      invariant D.CopyFrom(buf, end, p).Some?
      invariant out[.. t] + D.CopyFrom(buf, end, p).value == old(out[.. start]) + all
      decreases end - p
    {
      D.CopyUnfold(buf, end, p);
      ghost var before := out[.. t];
      ghost var bytes := D.Output(buf, p);
      ghost var more := D.CopyFrom(buf, end, p + D.Size(buf, p)).value;
      assert before + (bytes + more) == (before + bytes) + more;
      assert |before + (bytes + more)| == start + |all|;
      var size := D.Size(buf, p);
      if D.Copied(buf[p]) {
        Put(out, t, buf[p .. p + size]);
        t := t + size;
      } else if buf[p] == D.DNS_SERVER {
        Put(out, t, [D.DNS_SERVER, 4] + buf[p + 2 .. p + 6]);
        t := t + 6;
      }
      p := p + size;
      assert out[.. t] == before + bytes;
    }
    D.CopyUnfold(buf, end, p);
    if p < end {
      assert |out[.. t] + [D.END]| == start + |all|;
      out[t] := D.END;
      t := t + 1;
    }
  }

  function StoreWord(p: seq<byte>, i: nat, x: u16): (r: seq<byte>)
    requires i + 1 < |p|
    ensures |r| == |p|
  {
    p[i := x / 256][i + 1 := x % 256]
  }

  function HeaderNoSum(len: u16, id: u16, src: seq<byte>, dst: seq<byte>): seq<byte> {
    [0x45, 0, len / 256, len % 256, id / 256, id % 256, 0, 0, 64, PROTO_UDP, 0, 0] + src + dst
  }

  function UdpNoSum(message: seq<byte>): seq<byte>
    requires |message| + 8 < 0x1_0000
  {
    [0, BOOTPS, 0, BOOTPC, (|message| + 8) / 256, (|message| + 8) % 256, 0, 0] + message
  }

  function HeaderField(h: seq<byte>): u16 {
    ONES - Sum(0, h)
  }

  /** The UDP checksum field; an all-ones sum is sent as all ones, because zero
      means that there is no checksum. */
  function UdpField(addresses: seq<byte>, udp: seq<byte>): u16
    requires 17 + |udp| < 0x1_0000
  {
    var sum := Sum(Sum(17 + |udp|, addresses), udp);
    if sum != ONES then ONES - sum else ONES
  }

  function Reply(message: seq<byte>, id: u16, src: seq<byte>, dst: seq<byte>): seq<byte>
    requires |message| + 28 < 0x1_0000 && |src| == |dst| == 4
  {
    var h := HeaderNoSum(|message| + 28, id, src, dst);
    var udp := UdpNoSum(message);
    StoreWord(h, 10, HeaderField(h)) + StoreWord(udp, 6, UdpField(src + dst, udp))
  }

  method BuildReply(message: seq<byte>, id: u16, src: seq<byte>, dst: seq<byte>) returns (pkt: seq<byte>)
    requires |message| + 28 < 0x1_0000 && |src| == |dst| == 4
    ensures pkt == Reply(message, id, src, dst)
  {
    var ipLen, udpLen := |message| + 28, |message| + 8;
    var h := HeaderNoSum(ipLen, id, src, dst);
    var udp := UdpNoSum(message);
    var sum := Ip4Sum(0, h);
    h := StoreWord(h, 10, 0xFFFF - sum);
    sum := 17 + udpLen;
    sum := Ip4Sum(sum, src + dst);
    sum := Ip4Sum(sum, udp);
    if sum != 0xFFFF {
      udp := StoreWord(udp, 6, 0xFFFF - sum);
    } else {
      udp := StoreWord(udp, 6, 0xFFFF);
    }
    pkt := h + udp;
  }

  /** Adding the complement of its own checksum completes a sum to all ones. */
  lemma ComplementCompletes(n: nat)
    requires n > 0
    ensures Norm(n + (ONES - Norm(n))) == ONES
    ensures Norm(n) == ONES ==> Norm(n + ONES) == ONES
  {
    NormStep(n);
    var q := (n - 1) / 65535;
    FullMultiple(q);
    if Norm(n) == ONES {
      FullMultiple(q + 1);
    }
  }

  lemma FullMultiple(q: nat)
    ensures Norm(65535 * (q + 1)) == ONES
  {
    assert (65535 * (q + 1) - 1) % 65535 == 65534;
  }

  lemma HeaderCompletes(h: seq<byte>)
    requires |h| == 20 && h[0] > 0 && h[10] == 0 && h[11] == 0
    ensures Sum(0, StoreWord(h, 10, HeaderField(h))) == ONES
  {
    WordSumZero(h);
    WordSumStore(h, 10, HeaderField(h) / 256, HeaderField(h) % 256);
    SplitWord(HeaderField(h));
    ComplementCompletes(WordSum(h));
  }

  lemma UdpCompletes(addresses: seq<byte>, udp: seq<byte>)
    requires 17 + |udp| < 0x1_0000 && |udp| >= 8 && udp[6] == 0 && udp[7] == 0
    ensures UdpField(addresses, udp) != 0
    ensures Sum(Sum(17 + |udp|, addresses), StoreWord(udp, 6, UdpField(addresses, udp))) == ONES
  {
    hide WordSum, Norm;
    var field := UdpField(addresses, udp);
    var first := 17 + |udp| + WordSum(addresses);
    WordSumStore(udp, 6, field / 256, field % 256);
    SplitWord(field);
    NormAdd(first, WordSum(udp));
    NormAdd(first, WordSum(udp) + field);
    ComplementCompletes(first + WordSum(udp));
  }

  lemma ReplyLayout(message: seq<byte>, id: u16, src: seq<byte>, dst: seq<byte>, beyond: seq<byte>)
    requires |message| + 28 < 0x1_0000 && |src| == |dst| == 4 && |beyond| == REACH
    ensures var pkt := Reply(message, id, src, dst); var mem := pkt + beyond;
            var h, udp := HeaderNoSum(|message| + 28, id, src, dst), UdpNoSum(message);
      && |pkt| == |message| + 28
      && mem[0] == 0x45 && mem[9] == PROTO_UDP
      && Word(mem[2], mem[3]) == |pkt|
      && mem[.. 20] == StoreWord(h, 10, HeaderField(h))
      && mem[12 .. 20] == src + dst
      && mem[20 .. |pkt|] == StoreWord(udp, 6, UdpField(src + dst, udp))
      && Word(mem[26], mem[27]) == UdpField(src + dst, udp)
      && pkt[28 ..] == message
  {
    var pkt := Reply(message, id, src, dst);
    var mem := pkt + beyond;
    var h, udp := HeaderNoSum(|message| + 28, id, src, dst), UdpNoSum(message);
    var h' := StoreWord(h, 10, HeaderField(h));
    var udp' := StoreWord(udp, 6, UdpField(src + dst, udp));
    assert pkt == h' + udp';
    assert mem[.. 20] == h';
    assert h'[12 ..] == src + dst;
    assert mem[12 .. 20] == h'[12 ..];
    assert mem[20 .. |pkt|] == udp';
    SplitWord(|message| + 28);
    SplitWord(UdpField(src + dst, udp));
    assert mem[26] == udp'[6] && mem[27] == udp'[7];
    assert udp'[8 ..] == message;
    assert pkt[28 ..] == udp'[8 ..];
  }

  /** A relayed reply always validates, whatever it carries and however long it
      is, and never looks like a packet without a UDP checksum. */
  lemma ReplyValidates(message: seq<byte>, id: u16, src: seq<byte>, dst: seq<byte>, beyond: seq<byte>)
    requires |message| + 28 < 0x1_0000 && |src| == |dst| == 4 && |beyond| == REACH
    ensures var pkt := Reply(message, id, src, dst);
      && |pkt| == |message| + 28 && pkt[28 ..] == message
      && Verdict(pkt + beyond, |pkt|) == 0
      && Word(pkt[26], pkt[27]) != 0
  {
    hide Reply, Sum, StoreWord, HeaderField, UdpField;
    var pkt := Reply(message, id, src, dst);
    var mem := pkt + beyond;
    var h, udp := HeaderNoSum(|message| + 28, id, src, dst), UdpNoSum(message);
    ReplyLayout(message, id, src, dst, beyond);
    HeaderCompletes(h);
    UdpCompletes(src + dst, udp);
    assert HeaderLength(mem) == 20;
    assert PayloadLength(mem, |pkt|) == |udp|;
    assert Payload(mem, |pkt|) == mem[20 .. |pkt|];
    assert TransportSum(mem, |pkt|) == ONES;
    assert HeaderSum(mem) == ONES;
  }

  // ------------------------------------------------------- the whole way back

  const OPTIONS_AT: nat := 240       // options after the cookie in a full message
  const BOOTREPLY: byte := 2

  function ClientBase(base: seq<byte>): (r: seq<byte>)
    requires |base| == BASE_LEN
    ensures |r| == BASE_LEN
  {
    base[.. 3] + [Incremented(base[3])] + base[4 .. 24] + Zeros(4) + base[28 ..]
  }

  function Destination(base: seq<byte>): (r: seq<byte>)
    requires |base| == BASE_LEN
    ensures |r| == 4
  {
    if base[10] >= 0x80 then [255, 255, 255, 255] else base[16 .. 20]
  }

  /** The DHCP message a client gets for `inm`, of which `n` bytes were received. */
  function ClientMessage(inm: seq<byte>, n: nat): seq<byte>
    requires |inm| == BASE_LEN + HOLE_LEN + OPTIONS_LEN && OPTIONS_AT <= n <= |inm|
    requires D.CopyFrom(inm[OPTIONS_AT ..], n - OPTIONS_AT, 0).Some?
  {
    ClientBase(inm[.. BASE_LEN]) + inm[OPTIONS_AT - COOKIE_LEN .. OPTIONS_AT]
    + D.CopyFrom(inm[OPTIONS_AT ..], n - OPTIONS_AT, 0).value
  }

  /** The headers of a packet, byte by byte: an IPv4 header of 20 bytes with a time to
      live of 64, addresses, UDP ports 67 and 68, and both lengths. */
  predicate HeaderFields(pkt: seq<byte>, id: u16, src: seq<byte>, dst: seq<byte>) {
    && 28 <= |pkt| < 0x1_0000
    && pkt[0] == 0x45 && pkt[1] == 0 && 256 * (pkt[2] as int) + pkt[3] == |pkt|
    && 256 * (pkt[4] as int) + pkt[5] == id && pkt[6] == 0 && pkt[7] == 0
    && pkt[8] == 64 && pkt[9] == 17 && pkt[12 .. 16] == src && pkt[16 .. 20] == dst
    && pkt[20 .. 24] == [0, 67, 0, 68] && 256 * (pkt[24] as int) + pkt[25] == |pkt| - 20
  }

  lemma ReplyFields(message: seq<byte>, id: u16, src: seq<byte>, dst: seq<byte>)
    requires |message| + 28 < 0x1_0000 && |src| == |dst| == 4
    ensures HeaderFields(Reply(message, id, src, dst), id, src, dst)
    ensures Reply(message, id, src, dst)[28 ..] == message
  {
    var pkt := Reply(message, id, src, dst);
    var h, udp := HeaderNoSum(|message| + 28, id, src, dst), UdpNoSum(message);
    var h', udp' := StoreWord(h, 10, HeaderField(h)), StoreWord(udp, 6, UdpField(src + dst, udp));
    hide Sum;
    assert pkt == h' + udp';
    assert pkt[12 .. 16] == h'[12 .. 16] == src && pkt[16 .. 20] == h'[16 .. 20] == dst;
    assert pkt[20 .. 24] == udp'[.. 4] == [0, 67, 0, 68];
    assert pkt[24] == udp'[4] && pkt[25] == udp'[5];
    assert pkt[28 ..] == udp'[8 ..] == message;
    SplitWord(|message| + 28);
    SplitWord(|message| + 8);
    SplitWord(id);
  }

  /** What the relay does to the fixed part of a reply, byte by byte: one more hop at
      3 and no relay address at 24; the server's cookie follows at once. */
  predicate ClientFields(message: seq<byte>, inm: seq<byte>) {
    && |message| >= 48 && |inm| >= 240
    && (forall i :: 0 <= i < 44 ==>
          message[i] == if i == 3 then (inm[3] as int + 1) % 256 else if 24 <= i < 28 then 0 else inm[i])
    && message[44 .. 48] == inm[236 .. 240]
  }

  lemma MessageFields(inm: seq<byte>, n: nat)
    requires |inm| == BASE_LEN + HOLE_LEN + OPTIONS_LEN && OPTIONS_AT <= n <= |inm|
    requires D.CopyFrom(inm[OPTIONS_AT ..], n - OPTIONS_AT, 0).Some?
    ensures ClientFields(ClientMessage(inm, n), inm)
  {
    hide D.CopyFrom;
    var message, base := ClientMessage(inm, n), ClientBase(inm[.. BASE_LEN]);
    assert message[.. 44] == base;
    forall i | 0 <= i < 44 ensures message[i] == base[i] {
      assert message[i] == message[.. 44][i];
    }
    assert message[44 .. 48] == inm[236 .. 240];
  }

  /** Builds the packet for the client, or nothing if `inm` is not a reply. */
  method RelayToClient(inm: seq<byte>, n: nat, id: u16, giaddr: seq<byte>)
    returns (sent: bool, pkt: seq<byte>)
    requires |inm| == BASE_LEN + HOLE_LEN + OPTIONS_LEN && OPTIONS_AT <= n <= |inm|
    requires D.CopyFrom(inm[OPTIONS_AT ..], n - OPTIONS_AT, 0).Some?
    requires COOKIE_LEN + |D.CopyFrom(inm[OPTIONS_AT ..], n - OPTIONS_AT, 0).value| <= OPTIONS_LEN
    requires |giaddr| == 4
    ensures sent <==> inm[0] == 2
    ensures sent ==> pkt == Reply(ClientMessage(inm, n), id, giaddr, Destination(inm[.. BASE_LEN]))
    ensures sent ==> HeaderFields(pkt, id, giaddr,
                                  if inm[10] >= 128 then [255, 255, 255, 255] else inm[16 .. 20])
    ensures sent ==> ClientFields(pkt[28 ..], inm)
  {
    if inm[0] != BOOTREPLY {
      return false, [];
    }
    var options := new byte[OPTIONS_LEN](_ => 0);
    Put(options, 0, inm[OPTIONS_AT - COOKIE_LEN .. OPTIONS_AT]);
    assert options[.. COOKIE_LEN] == inm[OPTIONS_AT - COOKIE_LEN .. OPTIONS_AT];
    var t := CopyOptions(inm[OPTIONS_AT ..], n - OPTIONS_AT, options, COOKIE_LEN);
    var message := ClientBase(inm[.. BASE_LEN]) + options[.. t];
    assert message == ClientMessage(inm, n);
    pkt := BuildReply(message, id, giaddr, Destination(inm[.. BASE_LEN]));
    sent := true;
    ReplyFields(message, id, giaddr, Destination(inm[.. BASE_LEN]));
    MessageFields(inm, n);
    assert inm[.. BASE_LEN][16 .. 20] == inm[16 .. 20];
  }

  /** For a reply whose option area is well formed, the client gets a packet that
      validates and whose options are the filtered ones. */
  lemma ClientReadsReply(inm: seq<byte>, n: nat, id: u16, giaddr: seq<byte>, beyond: seq<byte>)
    requires |inm| == BASE_LEN + HOLE_LEN + OPTIONS_LEN && OPTIONS_AT <= n <= |inm|
    requires |giaddr| == 4 && |beyond| == REACH
    requires D.Parse(inm[OPTIONS_AT .. n]).Some?
    requires D.EvenPads(D.Parse(inm[OPTIONS_AT .. n]).value.items)
    requires D.FullServers(D.Parse(inm[OPTIONS_AT .. n]).value.items)
    ensures D.CopyFrom(inm[OPTIONS_AT ..], n - OPTIONS_AT, 0).Some?
    ensures |ClientMessage(inm, n)| <= BASE_LEN + OPTIONS_LEN
    ensures ClientFields(ClientMessage(inm, n), inm)
    ensures HeaderFields(Reply(ClientMessage(inm, n), id, giaddr, Destination(inm[.. BASE_LEN])), id, giaddr,
                         if inm[10] >= 128 then [255, 255, 255, 255] else inm[16 .. 20])
    ensures var pkt := Reply(ClientMessage(inm, n), id, giaddr, Destination(inm[.. BASE_LEN]));
      && Verdict(pkt + beyond, |pkt|) == 0
      && Word(pkt[26], pkt[27]) != 0
      && D.Parse(pkt[28 + BASE_LEN + COOKIE_LEN ..])
         == Some(D.Parsed(D.Keep(D.Parse(inm[OPTIONS_AT .. n]).value.items), []))
  {
    var buf, end := inm[OPTIONS_AT ..], n - OPTIONS_AT;
    assert buf[.. end] == inm[OPTIONS_AT .. n];
    D.ReplyFiltered(buf, end);
    var message := ClientMessage(inm, n);
    var pkt := Reply(message, id, giaddr, Destination(inm[.. BASE_LEN]));
    ReplyValidates(message, id, giaddr, Destination(inm[.. BASE_LEN]), beyond);
    ReplyFields(message, id, giaddr, Destination(inm[.. BASE_LEN]));
    MessageFields(inm, n);
    assert inm[.. BASE_LEN][16 .. 20] == inm[16 .. 20];
    assert pkt[28 + BASE_LEN + COOKIE_LEN ..] == pkt[28 ..][BASE_LEN + COOKIE_LEN ..];
    assert message[BASE_LEN + COOKIE_LEN ..] == D.CopyFrom(buf, end, 0).value;
  }

  // --------------------------------------------------- when the options fit

  /** Exactly when the options copied for a client fit the packet, for every area
      that ends in END and has its PADs in runs of even length: the copy loop does
      not look. With whole name servers they always do. */
  lemma OptionsFitIff(inm: seq<byte>, n: nat, items: seq<D.Item>, rest: seq<byte>)
    requires |inm| == BASE_LEN + HOLE_LEN + OPTIONS_LEN && OPTIONS_AT <= n <= |inm|
    requires D.ValidItems(items) && D.EvenPads(items)
    requires inm[OPTIONS_AT .. n] == D.Encode(items) + ([D.END] + rest)
    ensures n + 3 <= |inm| ==> D.CopyFrom(inm[OPTIONS_AT ..], n - OPTIONS_AT, 0).Some?
    ensures D.CopyFrom(inm[OPTIONS_AT ..], n - OPTIONS_AT, 0).Some? ==>
      (COOKIE_LEN + |D.CopyFrom(inm[OPTIONS_AT ..], n - OPTIONS_AT, 0).value| <= OPTIONS_LEN
       <==> P.CopiedLength(items) < OPTIONS_LEN - COOKIE_LEN)
    ensures D.FullServers(items) ==> P.CopiedLength(items) < OPTIONS_LEN - COOKIE_LEN
  {
    var buf, end := inm[OPTIONS_AT ..], n - OPTIONS_AT;
    assert buf[0 .. end] == inm[OPTIONS_AT .. n];
    hide D.CopyFrom, D.Encode, D.EvenPads, P.CopiedLength;
    P.CopyLength(buf, end, 0, items, [D.END] + rest);
    if D.FullServers(items) {
      P.CopyNoLonger(items);
      assert |buf[0 .. end]| == |D.Encode(items)| + 1 + |rest|;
    }
  }

  /** Name server options without an address: 52 of them, in 105 bytes of input, are
      one too many for the packet. */
  lemma EmptyServersFitIff(inm: seq<byte>, n: nat, k: nat)
    requires |inm| == BASE_LEN + HOLE_LEN + OPTIONS_LEN && OPTIONS_AT <= n && n + 3 <= |inm|
    requires D.ValidItems(P.EmptyServers(k))
    requires inm[OPTIONS_AT .. n] == D.Encode(P.EmptyServers(k)) + [D.END]
    ensures n == OPTIONS_AT + 2 * k + 1
    ensures D.CopyFrom(inm[OPTIONS_AT ..], n - OPTIONS_AT, 0).Some?
    ensures COOKIE_LEN + |D.CopyFrom(inm[OPTIONS_AT ..], n - OPTIONS_AT, 0).value| <= OPTIONS_LEN
            <==> k <= 51
  {
    var none: seq<byte> := [];
    assert [D.END] == [D.END] + none;
    assert |inm[OPTIONS_AT .. n]| == n - OPTIONS_AT;
    P.EmptyServersGrow(k);
    hide D.CopyFrom, D.Encode, D.EvenPads, P.CopiedLength, P.EmptyServers;
    OptionsFitIff(inm, n, P.EmptyServers(k), none);
  }
}
