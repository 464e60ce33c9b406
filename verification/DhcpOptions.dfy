/** The option area of a DHCP message, section 2 of RFC 2132: what an option
    list looks like as bytes, and the two rewritings of
    contiki/tools/tunslip.c on those bytes. */
module DhcpOptions {
  import opened Bytes
  import opened Wrappers

  const PAD: byte := 0
  const SUBNET_MASK: byte := 1
  const ROUTER: byte := 3
  const DNS_SERVER: byte := 6
  const LEASE_TIME: byte := 51
  const MSG_TYPE: byte := 53
  const SERVER_ID: byte := 54
  const AGENT: byte := 82
  const SUBNET_SELECTION: byte := 118
  const END: byte := 255

  const RAI_CIRCUIT_ID: byte := 1
  const RAI_AGENT_ID: byte := 3
  const RAI_SUBNET_SELECTION: byte := 5

  datatype Item = Pad | Opt(code: byte, data: seq<byte>)

  /** `rest` is what follows the END. */
  datatype Parsed = Parsed(items: seq<Item>, rest: seq<byte>)

  predicate ValidItem(item: Item) {
    item.Opt? ==> item.code != PAD && item.code != END && |item.data| <= 255
  }

  predicate ValidItems(items: seq<Item>) {
    forall i :: 0 <= i < |items| ==> ValidItem(items[i])
  }

  function EncodeItem(item: Item): seq<byte>
    requires ValidItem(item)
  {
    match item
    case Pad => [PAD]
    case Opt(code, data) => [code, |data|] + data
  }

  function Encode(items: seq<Item>): seq<byte>
    requires ValidItems(items)
  {
    if items == [] then [] else EncodeItem(items[0]) + Encode(items[1..])
  }

  /** The option an area begins with, unless it begins with END. */
  function Head(area: seq<byte>): (r: Option<Item>)
    ensures r.Some? ==> ValidItem(r.value) && |EncodeItem(r.value)| <= |area|
                        && area[.. |EncodeItem(r.value)|] == EncodeItem(r.value)
  {
    if area == [] || area[0] == END then None
    else if area[0] == PAD then Some(Pad)
    else if |area| < 2 || |area| - 2 < area[1] then None
    else Some(Opt(area[0], area[2..][.. area[1]]))
  }

  /** Reads options up to the first END; None if the area ends before one. */
  function Parse(area: seq<byte>): (r: Option<Parsed>)
    ensures r.Some? ==> ValidItems(r.value.items)
    decreases |area|
  {
    if area != [] && area[0] == END then Some(Parsed([], area[1..]))
    else
      match Head(area)
      case None => None
      case Some(item) => Prepend(item, Parse(area[|EncodeItem(item)| ..]))
  }

  function Prepend(item: Item, r: Option<Parsed>): Option<Parsed> {
    match r
    case None => None
    case Some(Parsed(items, rest)) => Some(Parsed([item] + items, rest))
  }

  // ------------------------------------------------- encoding is unambiguous

  lemma HeadOfEncoded(item: Item, tail: seq<byte>)
    requires ValidItem(item)
    ensures Head(EncodeItem(item) + tail) == Some(item)
    ensures (EncodeItem(item) + tail)[0] != END
    ensures (EncodeItem(item) + tail)[|EncodeItem(item)| ..] == tail
  {
    var area := EncodeItem(item) + tail;
    if item.Opt? {
      assert area[2..] == item.data + tail;
    }
  }

  predicate StartsWithEnd(tail: seq<byte>) {
    tail != [] && tail[0] == END
  }

  lemma {:induction false} ParseEncoded(items: seq<Item>, tail: seq<byte>)
    requires ValidItems(items) && StartsWithEnd(tail)
    ensures Parse(Encode(items) + tail) == Some(Parsed(items, tail[1..]))
  {
    if items == [] {
      assert Encode(items) + tail == tail;
    } else {
      EncodeHead(items);
      hide Encode, EncodeItem, Parse;
      var more := Encode(items[1..]) + tail;
      Assoc(EncodeItem(items[0]), Encode(items[1..]), tail);
      ParseHead(items[0], more);
      ParseEncoded(items[1..], tail);
      assert [items[0]] + items[1..] == items;
    }
  }

  lemma ParseHead(item: Item, more: seq<byte>)
    requires ValidItem(item)
    ensures Parse(EncodeItem(item) + more) == Prepend(item, Parse(more))
  {
    hide EncodeItem, Head;
    HeadOfEncoded(item, more);
  }

  lemma {:induction false} EncodeParsed(area: seq<byte>)
    requires Parse(area).Some?
    ensures area == Encode(Parse(area).value.items) + ([END] + Parse(area).value.rest)
    decreases |area|
  {
    hide Encode, EncodeItem, Parse, Head;
    ParseCases(area);
    if area[0] == END {
      assert area == [] + ([END] + area[1..]);
    } else {
      var item := Head(area).value;
      var more := area[|EncodeItem(item)| ..];
      EncodeParsed(more);
      var Parsed(items, rest) := Parse(more).value;
      EncodeCons(item, items, [END] + rest);
      assert area == EncodeItem(item) + more;
    }
  }

  lemma ParseCases(area: seq<byte>)
    requires Parse(area).Some?
    ensures area != [] && Encode([]) == []
    ensures area[0] == END ==> Parse(area).value == Parsed([], area[1..])
    ensures area[0] != END ==>
      Head(area).Some? && 0 < |EncodeItem(Head(area).value)| <= |area|
      && Parse(area) == Prepend(Head(area).value, Parse(area[|EncodeItem(Head(area).value)| ..]))
  {
  }

  lemma EncodeCons(item: Item, items: seq<Item>, tail: seq<byte>)
    requires ValidItem(item) && ValidItems(items)
    ensures Encode([item] + items) + tail == EncodeItem(item) + (Encode(items) + tail)
  {
    assert ([item] + items)[1..] == items;
  }

  lemma {:induction false} EncodeConcat(a: seq<Item>, b: seq<Item>)
    requires ValidItems(a) && ValidItems(b)
    ensures ValidItems(a + b) && Encode(a + b) == Encode(a) + Encode(b)
  {
    if a == [] {
      assert a + b == b;
    } else {
      assert (a + b)[1..] == a[1..] + b;
      EncodeConcat(a[1..], b);
    }
  }

  // ----------------------------------------------- requests, towards a server

  /** The three suboptions of the relay agent option (RFC 3046, RFC 3527). */
  function AgentSuboptions(netaddr: seq<byte>, circuit: seq<byte>, giaddr: seq<byte>): seq<Item> {
    [Opt(RAI_SUBNET_SELECTION, netaddr), Opt(RAI_CIRCUIT_ID, circuit), Opt(RAI_AGENT_ID, giaddr)]
  }

  /** What the relay adds: subnet selection (RFC 3011) and relay agent. */
  function RelayItems(netaddr: seq<byte>, circuit: seq<byte>, giaddr: seq<byte>): (r: seq<Item>)
    requires |netaddr| == |circuit| == |giaddr| == 4
    ensures ValidItems(r)
  {
    [Opt(SUBNET_SELECTION, netaddr),
     Opt(AGENT, [RAI_SUBNET_SELECTION, 4] + netaddr + [RAI_CIRCUIT_ID, 4] + circuit
                + [RAI_AGENT_ID, 4] + giaddr)]
  }

  function SelectionBytes(netaddr: seq<byte>): seq<byte> {
    [SUBNET_SELECTION, 4] + netaddr
  }

  function AgentBytes(netaddr: seq<byte>, circuit: seq<byte>, giaddr: seq<byte>): seq<byte> {
    [AGENT, 18]
    + [RAI_SUBNET_SELECTION, 4] + netaddr
    + [RAI_CIRCUIT_ID, 4] + circuit
    + [RAI_AGENT_ID, 4] + giaddr
  }

  /** The option area the relay sends: its last byte, taken to be the END, is
      overwritten by the new options, and an END is put back. */
  function Extended(area: seq<byte>, netaddr: seq<byte>, circuit: seq<byte>, giaddr: seq<byte>): seq<byte>
    requires area != []
  {
    area[.. |area| - 1] + SelectionBytes(netaddr) + AgentBytes(netaddr, circuit, giaddr) + [END]
  }

  lemma RelayItemsEncoded(netaddr: seq<byte>, circuit: seq<byte>, giaddr: seq<byte>)
    requires |netaddr| == |circuit| == |giaddr| == 4
    ensures var sub := AgentSuboptions(netaddr, circuit, giaddr);
            && ValidItems(sub)
            && RelayItems(netaddr, circuit, giaddr)[1].data == Encode(sub)
            && |Encode(sub)| == 18
    ensures Encode(RelayItems(netaddr, circuit, giaddr))
         == SelectionBytes(netaddr) + AgentBytes(netaddr, circuit, giaddr)
  {
    var sub := AgentSuboptions(netaddr, circuit, giaddr);
    var items := RelayItems(netaddr, circuit, giaddr);
    assert sub[1..] == [sub[1], sub[2]];
    assert sub[1..][1..] == [sub[2]];
    assert Encode([sub[2]]) == EncodeItem(sub[2]);
    assert Encode([sub[1], sub[2]]) == EncodeItem(sub[1]) + EncodeItem(sub[2]);
    assert Encode(sub) == EncodeItem(sub[0]) + (EncodeItem(sub[1]) + EncodeItem(sub[2]));
    assert items[1..] == [items[1]];
    assert Encode([items[1]]) == EncodeItem(items[1]) == AgentBytes(netaddr, circuit, giaddr);
  }

  /** The same byte by byte: the subnet in option 118, and in option 82 the subnet,
      the circuit and the relay, behind everything but the client's last byte. */
  lemma ExtendedOnWire(area: seq<byte>, netaddr: seq<byte>, circuit: seq<byte>, giaddr: seq<byte>)
    requires area != [] && |netaddr| == |circuit| == |giaddr| == 4
    ensures Extended(area, netaddr, circuit, giaddr)
         == area[.. |area| - 1] + ([118, 4] + netaddr)
            + ([82, 18] + [5, 4] + netaddr + [1, 4] + circuit + [3, 4] + giaddr) + [255]
  {
  }

  lemma ExtendedIs(area: seq<byte>, netaddr: seq<byte>, circuit: seq<byte>, giaddr: seq<byte>)
    requires area != [] && |netaddr| == |circuit| == |giaddr| == 4
    ensures Extended(area, netaddr, circuit, giaddr)
         == area[.. |area| - 1] + Encode(RelayItems(netaddr, circuit, giaddr)) + [END]
  {
    RelayItemsEncoded(netaddr, circuit, giaddr);
  }

  /** END is the last byte of the area: the new options continue the list. */
  lemma ExtendedAtEnd(items: seq<Item>, area: seq<byte>, added: seq<Item>)
    requires ValidItems(items) && ValidItems(added)
    requires area == Encode(items) + [END]
    ensures Parse(area[.. |area| - 1] + Encode(added) + [END]) == Some(Parsed(items + added, []))
  {
    assert area[.. |area| - 1] == Encode(items);
    EncodeConcat(items, added);
    ParseEncoded(items + added, [END]);
    var nothing: seq<byte> := [];
    assert [END][1..] == nothing;
  }

  /** Something follows the END: the list still stops there. */
  lemma ExtendedBeyondEnd(items: seq<Item>, rest: seq<byte>, area: seq<byte>, more: seq<byte>)
    requires ValidItems(items) && rest != []
    requires area == Encode(items) + ([END] + rest)
    ensures Parse(area[.. |area| - 1] + more)
         == Some(Parsed(items, rest[.. |rest| - 1] + more))
  {
    var tail := [END] + (rest[.. |rest| - 1] + more);
    assert area[.. |area| - 1] + more == Encode(items) + tail;
    ParseEncoded(items, tail);
  }

  /** The server finds the client's options followed by the relay's two exactly
      when the END of the client's options is its last byte; otherwise, as with a
      message padded after its END, the server finds none of the relay's. */
  lemma RequestExtended(area: seq<byte>, netaddr: seq<byte>, circuit: seq<byte>, giaddr: seq<byte>)
    requires |netaddr| == |circuit| == |giaddr| == 4
    requires Parse(area).Some?
    ensures var Parsed(items, rest) := Parse(area).value;
            var out := Extended(area, netaddr, circuit, giaddr);
            && Parse(out).Some?
            && out[|out| - 1] == END
            && (rest == [] <==>
                  Parse(out).value.items == items + RelayItems(netaddr, circuit, giaddr))
            && (rest == [] ==> Parse(out).value.rest == [])
            && (rest != [] ==> Parse(out).value.items == items)
  {
    var Parsed(items, rest) := Parse(area).value;
    var added := RelayItems(netaddr, circuit, giaddr);
    EncodeParsed(area);
    ExtendedIs(area, netaddr, circuit, giaddr);
    if rest == [] {
      assert [END] + rest == [END];
      ExtendedAtEnd(items, area, added);
    } else {
      ExtendedBeyondEnd(items, rest, area, Encode(added) + [END]);
      assert area[.. |area| - 1] + (Encode(added) + [END])
          == area[.. |area| - 1] + Encode(added) + [END];
      assert |items + added| != |items|;
    }
  }

  // ------------------------------------------------- replies, towards a client

  predicate Copied(code: byte) {
    code == SUBNET_MASK || code == ROUTER || code == LEASE_TIME || code == MSG_TYPE || code == SERVER_ID
  }

  /** Every run of PADs has even length. */
  predicate EvenPads(items: seq<Item>)
    decreases |items|
  {
    if items == [] then true
    else if items[0].Opt? then EvenPads(items[1..])
    else |items| > 1 && items[1].Pad? && EvenPads(items[2..])
  }

  predicate FullServers(items: seq<Item>) {
    forall i :: 0 <= i < |items| && items[i].Opt? && items[i].code == DNS_SERVER ==> |items[i].data| >= 4
  }

  function KeepItem(item: Item): seq<Item>
    requires item.Opt? && item.code == DNS_SERVER ==> |item.data| >= 4
  {
    if item.Pad? then []
    else if Copied(item.code) then [item]
    else if item.code == DNS_SERVER then [Opt(DNS_SERVER, item.data[.. 4])]
    else []
  }

  /** What a client is told: five options as they are, the first name server. */
  function Keep(items: seq<Item>): seq<Item>
    requires FullServers(items)
  {
    if items == [] then [] else KeepItem(items[0]) + Keep(items[1..])
  }

  /** The codes that are copied whole: subnet mask, routers, lease time, message
      type and server; and of the name servers, which are cut to the first. */
  lemma KeptCodes(item: Item)
    requires item.Opt? && item.code == 6 ==> |item.data| >= 4
    ensures KeepItem(item) ==
      if item.Opt? && item.code in [1, 3, 51, 53, 54] then [item]
      else if item.Opt? && item.code == 6 then [Opt(6, item.data[.. 4])]
      else []
  {
  }

  /** An option on the wire: code, length and data; PAD is 0. */
  lemma ItemOnWire(item: Item)
    requires ValidItem(item)
    ensures item.Pad? ==> EncodeItem(item) == [0]
    ensures item.Opt? ==> EncodeItem(item) == [item.code, |item.data|] + item.data
    ensures item.Opt? ==> item.code != 0 && item.code != 255
  {
  }

  /** A byte of the receive buffer, which is zero beyond the message. */
  function At(buf: seq<byte>, i: nat): byte {
    if i < |buf| then buf[i] else 0
  }

  /** How far the copy loop moves past the option at `p`. */
  function Size(buf: seq<byte>, p: nat): nat {
    At(buf, p + 1) + 2
  }

  /** The bytes that the copy loop reads for the option at `p` are in the buffer. */
  predicate Readable(buf: seq<byte>, p: nat)
    requires p < |buf|
  {
    && (Copied(buf[p]) ==> p + Size(buf, p) <= |buf|)
    && (buf[p] == DNS_SERVER ==> p + 6 <= |buf|)
  }

  /** What the copy loop writes for the option at `p`. */
  function Output(buf: seq<byte>, p: nat): seq<byte>
    requires p < |buf| && Readable(buf, p)
  {
    if Copied(buf[p]) then buf[p .. p + Size(buf, p)]
    else if buf[p] == DNS_SERVER then [DNS_SERVER, 4] + buf[p + 2 .. p + 6]
    else []
  }

  /** The copy loop from `p` on: what is written, END included; None if it would
      read past the buffer. */
  function CopyFrom(buf: seq<byte>, end: nat, p: nat): Option<seq<byte>>
    requires end <= |buf|
    decreases end - p
  {
    if p >= end then Some([])
    else if buf[p] == END then Some([END])
    else if !Readable(buf, p) then None
    else Then(Output(buf, p), CopyFrom(buf, end, p + Size(buf, p)))
  }

  function Then(out: seq<byte>, r: Option<seq<byte>>): Option<seq<byte>> {
    match r
    case None => None
    case Some(more) => Some(out + more)
  }

  lemma CopyUnfold(buf: seq<byte>, end: nat, p: nat)
    requires end <= |buf| && CopyFrom(buf, end, p).Some?
    ensures p >= end ==> CopyFrom(buf, end, p) == Some([])
    ensures p < end && buf[p] == END ==> CopyFrom(buf, end, p) == Some([END])
    ensures p < end && buf[p] != END ==>
      && Readable(buf, p)
      && CopyFrom(buf, end, p + Size(buf, p)).Some?
      && CopyFrom(buf, end, p).value == Output(buf, p) + CopyFrom(buf, end, p + Size(buf, p)).value
  {
  }

  lemma KeepItemFits(item: Item)
    requires ValidItem(item) && (item.Opt? && item.code == DNS_SERVER ==> |item.data| >= 4)
    ensures ValidItems(KeepItem(item))
    ensures |Encode(KeepItem(item))| <= |EncodeItem(item)|
    ensures KeepItem(item) != [] ==> Encode(KeepItem(item)) != []
    ensures Encode(KeepItem(item)) ==
      if item.Pad? then []
      else if Copied(item.code) then EncodeItem(item)
      else if item.code == DNS_SERVER then [DNS_SERVER, 4] + item.data[.. 4]
      else []
  {
    if KeepItem(item) != [] {
      assert KeepItem(item)[1..] == [];
    }
  }

  lemma {:induction false} KeepFits(items: seq<Item>)
    requires ValidItems(items) && FullServers(items)
    ensures ValidItems(Keep(items))
    ensures |Encode(Keep(items))| <= |Encode(items)|
    ensures Keep(items) == [] <==> Encode(Keep(items)) == []
    ensures items != [] ==>
      && ValidItems(KeepItem(items[0])) && ValidItems(Keep(items[1..]))
      && Encode(Keep(items)) == Encode(KeepItem(items[0])) + Encode(Keep(items[1..]))
  {
    if items != [] {
      KeepItemFits(items[0]);
      KeepFits(items[1..]);
      EncodeConcat(KeepItem(items[0]), Keep(items[1..]));
    }
  }

  lemma SliceOfSlice(buf: seq<byte>, p: nat, n: nat, i: nat, j: nat)
    requires i <= j <= n && p + n <= |buf|
    ensures buf[p .. p + n][i .. j] == buf[p + i .. p + j]
  {
    var mid := buf[p .. p + n];
    forall k | 0 <= k < j - i ensures mid[i .. j][k] == buf[p + i .. p + j][k] {
      assert mid[i .. j][k] == mid[i + k] == buf[p + (i + k)];
    }
  }

  lemma Assoc(a: seq<byte>, b: seq<byte>, c: seq<byte>)
    ensures a + (b + c) == (a + b) + c
  {
  }

  lemma CopyOneItem(buf: seq<byte>, p: nat, item: Item)
    requires ValidItem(item) && item.Opt? && (item.code == DNS_SERVER ==> |item.data| >= 4)
    requires p + |EncodeItem(item)| <= |buf|
    requires buf[p .. p + |EncodeItem(item)|] == EncodeItem(item)
    ensures ValidItems(KeepItem(item)) && buf[p] != END
    ensures Readable(buf, p) && Size(buf, p) == |EncodeItem(item)|
    ensures Output(buf, p) == Encode(KeepItem(item))
  {
    var e, n := EncodeItem(item), |EncodeItem(item)|;
    KeepItemFits(item);
    assert buf[p .. p + n][0] == buf[p] == item.code;
    assert buf[p .. p + n][1] == buf[p + 1] == |item.data|;
    if item.code == DNS_SERVER {
      assert e[2 .. 6] == item.data[.. 4];
      SliceOfSlice(buf, p, n, 2, 6);
    }
  }

  lemma SplitArea(buf: seq<byte>, p: nat, end: nat, head: seq<byte>, more: seq<byte>)
    requires p <= end <= |buf| && buf[p .. end] == head + more
    ensures p + |head| <= end
    ensures buf[p .. p + |head|] == head
    ensures buf[p + |head| .. end] == more
  {
    var area := buf[p .. end];
    assert area[.. |head|] == head;
    assert area[|head| ..] == more;
  }

  lemma CopyStops(buf: seq<byte>, end: nat, p: nat, tail: seq<byte>)
    requires p <= end <= |buf| && buf[p .. end] == tail && StartsWithEnd(tail)
    ensures CopyFrom(buf, end, p) == Some([END])
  {
    assert buf[p .. end][0] == buf[p];
  }

  lemma CopyHead(buf: seq<byte>, p: nat, end: nat, items: seq<Item>, tail: seq<byte>)
    requires p <= end <= |buf| && items != [] && items[0].Opt?
    requires ValidItems(items) && FullServers(items)
    requires buf[p .. end] == Encode(items) + tail
    ensures var next := p + |EncodeItem(items[0])|;
      && p < next <= end && buf[next .. end] == Encode(items[1..]) + tail
      && ValidItems(KeepItem(items[0]))
      && CopyFrom(buf, end, p) == Then(Encode(KeepItem(items[0])), CopyFrom(buf, end, next))
  {
    hide CopyFrom, Keep, KeepItem, Output, Readable, Size, Encode;
    HeadArea(buf, p, end, items, tail);
    CopyOneItem(buf, p, items[0]);
    CopyStep(buf, end, p);
  }

  lemma CopyStep(buf: seq<byte>, end: nat, p: nat)
    requires p < end <= |buf| && buf[p] != END && Readable(buf, p)
    ensures CopyFrom(buf, end, p) == Then(Output(buf, p), CopyFrom(buf, end, p + Size(buf, p)))
  {
  }

  /** Two PADs are skipped together: the second is taken for a length of zero. */
  lemma CopyPadPair(buf: seq<byte>, p: nat, end: nat, items: seq<Item>, tail: seq<byte>)
    requires p <= end <= |buf| && |items| > 1 && items[0].Pad? && items[1].Pad? && ValidItems(items)
    requires buf[p .. end] == Encode(items) + tail
    ensures p + 2 <= end && buf[p + 2 .. end] == Encode(items[2..]) + tail
    ensures |Encode(items)| == 2 + |Encode(items[2..])|
    ensures CopyFrom(buf, end, p) == Then([], CopyFrom(buf, end, p + 2))
  {
    assert items[1..][1..] == items[2..];
    assert EncodeItem(items[0]) == EncodeItem(items[1]) == [PAD];
    hide Encode, EncodeItem, CopyFrom;
    HeadArea(buf, p, end, items, tail);
    HeadArea(buf, p + 1, end, items[1..], tail);
    PadsSkipped(buf, p, end);
  }

  lemma PadsSkipped(buf: seq<byte>, p: nat, end: nat)
    requires p + 2 <= end <= |buf| && buf[p .. p + 1] == buf[p + 1 .. p + 2] == [PAD]
    ensures CopyFrom(buf, end, p) == Then([], CopyFrom(buf, end, p + 2))
  {
    hide CopyFrom;
    assert buf[p .. p + 1][0] == buf[p] && buf[p + 1 .. p + 2][0] == buf[p + 1];
    CopyStep(buf, end, p);
  }

  lemma EncodeHead(items: seq<Item>)
    requires items != [] && ValidItems(items)
    ensures Encode(items) == EncodeItem(items[0]) + Encode(items[1..])
    ensures |EncodeItem(items[0])| > 0
  {
  }

  lemma HeadArea(buf: seq<byte>, p: nat, end: nat, items: seq<Item>, tail: seq<byte>)
    requires p <= end <= |buf| && items != [] && ValidItems(items)
    requires buf[p .. end] == Encode(items) + tail
    ensures var n := |EncodeItem(items[0])|;
      && n > 0 && p + n <= end
      && buf[p .. p + n] == EncodeItem(items[0])
      && buf[p + n .. end] == Encode(items[1..]) + tail
      && |Encode(items)| == n + |Encode(items[1..])|
  {
    EncodeHead(items);
    hide Encode;
    Assoc(EncodeItem(items[0]), Encode(items[1..]), tail);
    SplitArea(buf, p, end, EncodeItem(items[0]), Encode(items[1..]) + tail);
  }

  lemma ThenThen(a: seq<byte>, b: seq<byte>, r: Option<seq<byte>>)
    ensures Then(a, Then(b, r)) == Then(a + b, r)
  {
    if r.Some? {
      Assoc(a, b, r.value);
    }
  }

  lemma KeepPadPair(items: seq<Item>)
    requires |items| > 1 && items[0].Pad? && items[1].Pad? && FullServers(items)
    ensures Keep(items) == Keep(items[2..])
  {
    assert items[1..][1..] == items[2..];
    assert Keep(items) == Keep(items[1..]) == Keep(items[2..]);
  }

  /** Across options with PADs in pairs, the copy loop writes what `Keep` keeps and
      comes out at the byte behind them, whatever that is. */
  lemma {:induction false} CopyThrough(buf: seq<byte>, end: nat, p: nat, items: seq<Item>, tail: seq<byte>)
    requires p <= end <= |buf|
    requires ValidItems(items) && EvenPads(items) && FullServers(items)
    requires buf[p .. end] == Encode(items) + tail
    ensures ValidItems(Keep(items))
    ensures CopyFrom(buf, end, p) == Then(Encode(Keep(items)), CopyFrom(buf, end, p + |Encode(items)|))
    ensures p + |Encode(items)| <= end && buf[p + |Encode(items)| .. end] == tail
    decreases |items|
  {
    hide CopyFrom, EncodeItem, KeepItem, Keep, Encode;
    SplitArea(buf, p, end, Encode(items), tail);
    LaterItems(items);
    if items == [] {
      KeepNothing(items);
      ThenNothing(CopyFrom(buf, end, p));
    } else if items[0].Opt? {
      CopyHead(buf, p, end, items, tail);
      CopyThrough(buf, end, p + |EncodeItem(items[0])|, items[1..], tail);
      ThroughHead(buf, p, end, items);
    } else {
      CopyPadPair(buf, p, end, items, tail);
      CopyThrough(buf, end, p + 2, items[2..], tail);
      KeepPadPair(items);
      ThenNothing(Then(Encode(Keep(items)), CopyFrom(buf, end, p + |Encode(items)|)));
    }
  }

  lemma ThroughHead(buf: seq<byte>, p: nat, end: nat, items: seq<Item>)
    requires p <= end <= |buf| && items != [] && ValidItems(items) && FullServers(items)
    requires ValidItems(KeepItem(items[0])) && ValidItems(Keep(items[1..]))
    requires var next := p + |EncodeItem(items[0])|;
      && CopyFrom(buf, end, p) == Then(Encode(KeepItem(items[0])), CopyFrom(buf, end, next))
      && CopyFrom(buf, end, next)
         == Then(Encode(Keep(items[1..])), CopyFrom(buf, end, next + |Encode(items[1..])|))
    ensures ValidItems(Keep(items))
    ensures CopyFrom(buf, end, p) == Then(Encode(Keep(items)), CopyFrom(buf, end, p + |Encode(items)|))
  {
    hide CopyFrom, EncodeItem, KeepItem, Keep, Encode, Then;
    KeepFits(items);
    EncodeHead(items);
    ThenThen(Encode(KeepItem(items[0])), Encode(Keep(items[1..])), CopyFrom(buf, end, p + |Encode(items)|));
  }

  lemma LaterItems(items: seq<Item>)
    requires ValidItems(items) && EvenPads(items) && FullServers(items)
    ensures items != [] ==> ValidItems(items[1..]) && FullServers(items[1..]) && ValidItem(items[0])
    ensures items != [] && items[0].Opt? ==>
      EvenPads(items[1..]) && (items[0].code == DNS_SERVER ==> |items[0].data| >= 4)
    ensures items != [] && items[0].Pad? ==>
      |items| > 1 && items[1].Pad? && EvenPads(items[2..]) && ValidItems(items[2..]) && FullServers(items[2..])
  {
  }

  lemma KeepNothing(items: seq<Item>)
    requires items == []
    ensures Encode(items) == [] && Keep(items) == []
  {
  }

  lemma ThenNothing(r: Option<seq<byte>>)
    ensures Then([], r) == r
  {
    if r.Some? {
      assert [] + r.value == r.value;
    }
  }

  /** From the option at `p` on, the copy loop keeps what `Keep` keeps. */
  lemma CopyKeeps(buf: seq<byte>, end: nat, p: nat, items: seq<Item>, tail: seq<byte>)
    requires p <= end <= |buf|
    requires ValidItems(items) && EvenPads(items) && FullServers(items) && StartsWithEnd(tail)
    requires buf[p .. end] == Encode(items) + tail
    ensures ValidItems(Keep(items))
    ensures CopyFrom(buf, end, p) == Some(Encode(Keep(items)) + [END])
  {
    hide CopyFrom, Encode, Keep, EvenPads, FullServers;
    CopyThrough(buf, end, p, items, tail);
    CopyStops(buf, end, p + |Encode(items)|, tail);
  }

  /** The reply a client gets: on every option area that ends in END, has its PADs
      in runs of even length and names whole name servers, the copied area encodes
      the filtered list, in order, ends in END, and is no longer than the
      original. */
  lemma ReplyFiltered(buf: seq<byte>, end: nat)
    requires end <= |buf| && Parse(buf[.. end]).Some?
    requires EvenPads(Parse(buf[.. end]).value.items) && FullServers(Parse(buf[.. end]).value.items)
    ensures var items := Parse(buf[.. end]).value.items;
      && ValidItems(Keep(items))
      && CopyFrom(buf, end, 0) == Some(Encode(Keep(items)) + [END])
      && Parse(Encode(Keep(items)) + [END]) == Some(Parsed(Keep(items), []))
      && |Encode(Keep(items)) + [END]| <= end
  {
    var Parsed(items, rest) := Parse(buf[.. end]).value;
    EncodeParsed(buf[.. end]);
    assert buf[0 .. end] == buf[.. end];
    CopyKeeps(buf, end, 0, items, [END] + rest);
    KeepFits(items);
    ParseEncoded(Keep(items), [END]);
    var nothing: seq<byte> := [];
    assert [END][1..] == nothing;
  }
}
