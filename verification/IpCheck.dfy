/** Packet validation and the re-stamping of the IP id in
    contiki/tools/tunslip.c.  `mem` is the memory from the start of a packet on;
    the code looks at it through a header length and a 16-bit payload length that
    come from the packet itself, so it may look past the packet's end. */
module IpCheck {
  import opened Bytes
  import opened Checksum

  const REACH: nat := 60 + 0xFFFF       // longest header plus longest payload
  const PROTO_ICMP: byte := 1
  const PROTO_TCP: byte := 6
  const PROTO_UDP: byte := 17

  function HeaderLength(mem: seq<byte>): nat
    requires |mem| >= REACH
  {
    4 * (mem[0] % 16)
  }

  /** Length of what follows the header, in 16 bits. */
  function PayloadLength(mem: seq<byte>, len: nat): u16
    requires |mem| >= REACH
  {
    (len - HeaderLength(mem)) % 0x1_0000
  }

  function Payload(mem: seq<byte>, len: nat): seq<byte>
    requires |mem| >= REACH
  {
    mem[HeaderLength(mem) .. HeaderLength(mem) + PayloadLength(mem, len)]
  }

  function HeaderSum(mem: seq<byte>): u16
    requires |mem| >= REACH
  {
    Sum(0, mem[.. HeaderLength(mem)])
  }

  /** Sum of the pseudo-header and the payload of a TCP or UDP packet. */
  function TransportSum(mem: seq<byte>, len: nat): u16
    requires |mem| >= REACH
  {
    Sum(Sum((mem[9] + PayloadLength(mem, len)) % 0x1_0000, mem[12 .. 20]), Payload(mem, len))
  }

  predicate Good(sum: u16) {
    sum == ONES || sum == 0
  }

  /** The verdict of `check_ip`: 0, or the negative code of the first fault. */
  function Verdict(mem: seq<byte>, len: nat): int
    requires |mem| >= REACH
  {
    if mem[0] / 16 != 4 then -1
    else if Word(mem[2], mem[3]) > len then -2
    else if Word(mem[2], mem[3]) < len then -3
    else if !Good(HeaderSum(mem)) then -4
    else if mem[9] == PROTO_TCP && !Good(TransportSum(mem, len)) then -5
    else if mem[9] == PROTO_UDP && !Good(TransportSum(mem, len)) && Word(mem[26], mem[27]) != 0 then -6
    else if mem[9] == PROTO_ICMP && !Good(Sum(0, Payload(mem, len))) then -7
    else 0
  }

  method CheckIp(mem: seq<byte>, len: nat) returns (ecode: int)
    requires |mem| >= REACH
    ensures ecode == Verdict(mem, len)
  {
    hide Sum, Word;
    if mem[0] / 16 != 4 {
      return -1;
    }
    if Word(mem[2], mem[3]) > len {
      return -2;
    }
    if Word(mem[2], mem[3]) < len {
      return -3;
    }
    var hl := 4 * (mem[0] % 16);
    var sum := Ip4Sum(0, mem[.. hl]);
    if sum != 0xFFFF && sum != 0 {
      return -4;
    }
    if mem[9] == 6 || mem[9] == 17 {
      var tcpLen := (len - hl) % 0x1_0000;
      sum := (mem[9] + tcpLen) % 0x1_0000;
      sum := Ip4Sum(sum, mem[12 .. 20]);
      sum := Ip4Sum(sum, mem[hl .. hl + tcpLen]);
      if sum != 0xFFFF && sum != 0 {
        if mem[9] == 6 {
          return -5;
        } else if Word(mem[26], mem[27]) != 0 {
          return -6;
        }
      }
    } else if mem[9] == 1 {
      var icmpLen := (len - hl) % 0x1_0000;
      sum := Ip4Sum(0, mem[hl .. hl + icmpLen]);
      if sum != 0xFFFF && sum != 0 {
        return -7;
      }
    }
    return 0;
  }

  // ------------------------------------------------------------- re-stamping

  /** A 16-bit field as the host reads it from memory. */
  function Load(first: byte, second: byte, littleEndian: bool): u16 {
    if littleEndian then Word(second, first) else Word(first, second)
  }

  function First(x: u16, littleEndian: bool): byte {
    if littleEndian then x % 256 else x / 256
  }

  function Second(x: u16, littleEndian: bool): byte {
    if littleEndian then x / 256 else x % 256
  }

  /** The checksum field, as the host reads it, after the new id went in. */
  function NewSum(sum: u16, nid: u16): u16 {
    Norm(sum + (ONES - nid))
  }

  /** The packet with id `id` (big-endian) stored over a zero one. */
  function Restamped(mem: seq<byte>, id: u16, littleEndian: bool): (r: seq<byte>)
    requires |mem| >= 12
    ensures |r| == |mem|
  {
    var nid := Load(id / 256, id % 256, littleEndian);
    var sum := NewSum(Load(mem[10], mem[11], littleEndian), nid);
    mem[4 := id / 256][5 := id % 256]
       [10 := First(sum, littleEndian)][11 := Second(sum, littleEndian)]
  }

  method AddInverted(sum: u16, nid: u16) returns (r: u16)
    ensures r == NewSum(sum, nid)
  {
    r := AddWithCarry(sum, 0xFFFF - nid);
  }

  method Restamp(buf: array<byte>, id: u16, littleEndian: bool)
    requires buf.Length >= 12
    modifies buf
    ensures buf[..] == Restamped(old(buf[..]), id, littleEndian)
  {
    buf[4] := id / 256;
    buf[5] := id % 256;
    assert buf[..] == old(buf[..])[4 := id / 256][5 := id % 256];
    var nid := Load(buf[4], buf[5], littleEndian);
    var sum := AddInverted(Load(buf[10], buf[11], littleEndian), nid);
    buf[10] := First(sum, littleEndian);
    buf[11] := Second(sum, littleEndian);
  }

  lemma NewSumNative(s: u16, nid: u16) returns (q: int)
    ensures NewSum(s, nid) + nid == s + 65535 * q
  {
    var total := s + (ONES - nid);
    if total > 0 {
      NormStep(total);
    }
    q := 1 - if total == 0 then 0 else (total - 1) / 65535;
  }

  lemma NormStep(n: nat)
    requires n > 0
    ensures Norm(n) == n - 65535 * ((n - 1) / 65535)
  {
  }

  /** Three words that add up modulo 65535 still do with their bytes swapped, each
      of them 256 times as large up to a multiple of 65535. */
  lemma Swapped(s: int, n: int, t: int, q: int, s': int, n': int, t': int, hs: int, hn: int, ht: int)
    requires t + n == s + 65535 * q
    requires 256 * s == s' + 65535 * hs && 256 * n == n' + 65535 * hn && 256 * t == t' + 65535 * ht
    ensures t' + n' == s' + 65535 * (256 * q + hs - hn - ht)
  {
  }

  lemma SplitWord(x: u16)
    ensures Word(x / 256, x % 256) == x
  {
  }

  /** On either byte order, the new checksum word makes up for the new id word,
      up to a multiple of 65535. */
  lemma NewSumMakesUp(b0: byte, b1: byte, id: u16, littleEndian: bool) returns (k: int)
    ensures var sum := NewSum(Load(b0, b1, littleEndian),
                              Load(id / 256, id % 256, littleEndian));
            Word(First(sum, littleEndian), Second(sum, littleEndian)) + id == Word(b0, b1) + 65535 * k
  {
    var s, nid := Load(b0, b1, littleEndian), Load(id / 256, id % 256, littleEndian);
    var sum := NewSum(s, nid);
    var q := NewSumNative(s, nid);
    SplitWord(id);
    SplitWord(sum);
    if littleEndian {
      Swapped(s, nid, sum, q, Word(b0, b1), id, Word(sum % 256, sum / 256),
              b1, id % 256, sum / 256);
      k := 256 * q + b1 - id % 256 - sum / 256;
    } else {
      k := q;
    }
  }

  lemma FullSum(n: nat, n': nat, k: int)
    requires Norm(n) == ONES && n' == n + 65535 * k && n' > 0
    ensures Norm(n') == ONES
  {
    var q := (n - 1) / 65535;
    assert n == 65535 * (q + 1);
    assert n' == 65535 * (q + 1 + k);
    assert (n' - 1) % 65535 == 65534;
  }

  lemma RestampedHeader(mem: seq<byte>, id: u16, littleEndian: bool, hl: nat) returns (k: int)
    requires |mem| >= hl >= 12 && mem[4] == 0 && mem[5] == 0
    ensures WordSum(Restamped(mem, id, littleEndian)[.. hl]) == WordSum(mem[.. hl]) + 65535 * k
  {
    hide WordSum, NewSum, Load, First, Second;
    var h: seq<byte> := mem[.. hl];
    var nid := Load(id / 256, id % 256, littleEndian);
    var sum := NewSum(Load(mem[10], mem[11], littleEndian), nid);
    var h1 := h[4 := id / 256][5 := id % 256];
    var h2 := h1[10 := First(sum, littleEndian)][11 := Second(sum, littleEndian)];
    assert Restamped(mem, id, littleEndian)[.. hl] == h2;
    WordSumStore(h, 4, id / 256, id % 256);
    WordSumStore(h1, 10, First(sum, littleEndian), Second(sum, littleEndian));
    assert Word(id / 256, id % 256) == id;
    k := NewSumMakesUp(mem[10], mem[11], id, littleEndian);
  }

  lemma SamePayload(mem: seq<byte>, mem': seq<byte>, len: nat)
    requires |mem'| == |mem| >= REACH && HeaderLength(mem) >= 12
    requires mem'[0] == mem[0] && mem'[9] == mem[9]
    requires forall i :: 12 <= i < |mem| ==> mem'[i] == mem[i]
    ensures Payload(mem', len) == Payload(mem, len)
    ensures TransportSum(mem', len) == TransportSum(mem, len)
  {
    assert mem'[12 .. 20] == mem[12 .. 20];
    assert Payload(mem', len) == Payload(mem, len);
  }

  lemma RestampedElsewhere(mem: seq<byte>, id: u16, littleEndian: bool)
    requires |mem| >= 12
    ensures forall i :: 0 <= i < |mem| && i != 4 && i != 5 && i != 10 && i != 11 ==>
              Restamped(mem, id, littleEndian)[i] == mem[i]
  {
  }

  lemma RestampedHeaderGood(mem: seq<byte>, id: u16, littleEndian: bool)
    requires |mem| >= REACH && HeaderLength(mem) >= 12
    requires mem[0] != 0 && mem[4] == 0 && mem[5] == 0
    requires Good(HeaderSum(mem))
    ensures Good(HeaderSum(Restamped(mem, id, littleEndian)))
  {
    hide Restamped;
    var mem' := Restamped(mem, id, littleEndian);
    var h, h' := mem[.. HeaderLength(mem)], mem'[.. HeaderLength(mem)];
    var k := RestampedHeader(mem, id, littleEndian, HeaderLength(mem));
    WordSumZero(h);
    WordSumZero(h');
    RestampedElsewhere(mem, id, littleEndian);
    assert h[0] != 0 && h'[0] != 0;
    FullSum(WordSum(h), WordSum(h'), k);
  }

  /** Re-stamping keeps a packet valid: whatever `check_ip` accepts with a zero
      id it still accepts after a new id has been stored and the checksum
      adjusted, whatever the byte order of the host. */
  lemma RestampKeepsValid(mem: seq<byte>, len: nat, id: u16, littleEndian: bool)
    requires |mem| >= REACH && HeaderLength(mem) >= 12
    requires mem[4] == 0 && mem[5] == 0
    requires Verdict(mem, len) == 0
    ensures Verdict(Restamped(mem, id, littleEndian), len) == 0
  {
    var mem' := Restamped(mem, id, littleEndian);
    RestampedElsewhere(mem, id, littleEndian);
    SamePayload(mem, mem', len);
    RestampedHeaderGood(mem, id, littleEndian);
  }

  /** With a header of 8 bytes the id is summed and the checksum field is not: a
      packet that was accepted is rejected unless the new id counts as zero. */
  lemma RestampShortHeader(mem: seq<byte>, len: nat, id: u16, littleEndian: bool)
    requires |mem| >= REACH && HeaderLength(mem) == 8
    requires mem[4] == 0 && mem[5] == 0 && Verdict(mem, len) == 0
    ensures var mem' := Restamped(mem, id, littleEndian);
      && (Good(HeaderSum(mem')) <==> id == 0 || id == 0xFFFF)
      && (id != 0 && id != 0xFFFF ==> Verdict(mem', len) == -4)
  {
    var mem' := Restamped(mem, id, littleEndian);
    var h, h' := mem[.. 8], mem'[.. 8];
    hide WordSum, Norm, NewSum, Load, First, Second;
    assert h' == h[4 := id / 256][5 := id % 256];
    WordSumStore(h, 4, id / 256, id % 256);
    SplitWord(id);
    WordSumZero(h);
    assert h[0] != 0;
    AddToFull(WordSum(h), id);
  }

  lemma AddToFull(n: nat, id: u16)
    requires n > 0 && Good(Norm(n))
    ensures Good(Norm(n + id)) <==> id == 0 || id == 0xFFFF
  {
    var q := (n - 1) / 65535;
    assert n == 65535 * (q + 1);
  }
}
