/** What `check_ip` of contiki/tools/tunslip.c lets through and what it reports,
    told in residues of plain word sums, and the damage it is sure to find. */
module IpDetect {
  import opened Bytes
  import opened Checksum
  import opened IpCheck

  lemma GoodIff(s: u16, p: seq<byte>)
    ensures Good(Sum(s, p)) <==> (s + WordSum(p)) % 65535 == 0
  {
    hide WordSum;
    NormGoodIff(s + WordSum(p));
  }

  lemma NormGoodIff(n: nat)
    ensures Norm(n) == 0xFFFF || Norm(n) == 0 <==> n % 65535 == 0
  {
    if n > 0 {
      var q := (n - 1) / 65535;
      assert n == 65535 * q + Norm(n);
    }
  }

  /** What the words of header, pseudo-header and payload add up to. */
  function HeaderTotal(mem: seq<byte>): nat
    requires |mem| >= REACH
  {
    WordSum(mem[.. 4 * (mem[0] % 16)])
  }

  function PayloadTotal(mem: seq<byte>, len: nat): nat
    requires |mem| >= REACH
  {
    var hl := 4 * (mem[0] % 16);
    WordSum(mem[hl .. hl + (len - hl) % 0x1_0000])
  }

  function TransportTotal(mem: seq<byte>, len: nat): nat
    requires |mem| >= REACH
  {
    (mem[9] + (len - 4 * (mem[0] % 16)) % 0x1_0000) % 0x1_0000
    + WordSum(mem[12 .. 20]) + PayloadTotal(mem, len)
  }

  /** The code reported is that of the first of seven faults. */
  lemma FirstFault(mem: seq<byte>, len: nat)
    requires |mem| >= REACH
    ensures Verdict(mem, len) ==
      if !(0x40 <= mem[0] < 0x50) then -1
      else if 256 * (mem[2] as int) + mem[3] > len then -2
      else if 256 * (mem[2] as int) + mem[3] < len then -3
      else if HeaderTotal(mem) % 65535 != 0 then -4
      else if mem[9] == 6 && TransportTotal(mem, len) % 65535 != 0 then -5
      else if mem[9] == 17 && TransportTotal(mem, len) % 65535 != 0 && (mem[26] != 0 || mem[27] != 0) then -6
      else if mem[9] == 1 && PayloadTotal(mem, len) % 65535 != 0 then -7
      else 0
  {
    GoodIff(0, mem[.. HeaderLength(mem)]);
    GoodIff(0, Payload(mem, len));
    TransportGoodIff(mem, len);
    hide WordSum, Sum, TransportSum, TransportTotal;
  }

  lemma TransportGoodIff(mem: seq<byte>, len: nat)
    requires |mem| >= REACH
    ensures Good(TransportSum(mem, len)) <==> TransportTotal(mem, len) % 65535 == 0
  {
    var s: u16 := (mem[9] + PayloadLength(mem, len)) % 0x1_0000;
    var addresses, payload := mem[12 .. 20], Payload(mem, len);
    hide WordSum, Norm;
    NormAdd(s + WordSum(addresses), WordSum(payload));
    NormGoodIff(s + WordSum(addresses) + WordSum(payload));
  }

  /** What is accepted as TCP, UDP or ICMP adds up to a multiple of 65535, unless
      the UDP checksum is switched off. */
  lemma AcceptedAddsUp(mem: seq<byte>, len: nat)
    requires |mem| >= REACH && Verdict(mem, len) == 0
    ensures mem[0] / 16 == 4 && len == 256 * (mem[2] as int) + mem[3] && HeaderTotal(mem) % 65535 == 0
    ensures mem[9] == 6 ==> TransportTotal(mem, len) % 65535 == 0
    ensures mem[9] == 17 ==> TransportTotal(mem, len) % 65535 == 0 || (mem[26] == 0 && mem[27] == 0)
    ensures mem[9] == 1 ==> PayloadTotal(mem, len) % 65535 == 0
  {
    FirstFault(mem, len);
  }

  // ------------------------------------------------------------------ damage

  /** The two memories agree but for the payload of the packet. */
  predicate PayloadDiffers(mem: seq<byte>, mem': seq<byte>) {
    && |mem'| == |mem| >= REACH && HeaderLength(mem) >= 20
    && mem'[.. HeaderLength(mem)] == mem[.. HeaderLength(mem)]
  }

  /** Something in the packet guards the payload: TCP, ICMP, or UDP with its checksum
      in use. */
  predicate Guarded(mem: seq<byte>)
    requires |mem| >= REACH
  {
    mem[9] == 6 || mem[9] == 1 || (mem[9] == 17 && (mem[26] != 0 || mem[27] != 0))
  }

  function PayloadFault(proto: byte): int {
    if proto == 6 then -5 else if proto == 17 then -6 else if proto == 1 then -7 else 0
  }

  lemma SameHeader(mem: seq<byte>, mem': seq<byte>, len: nat)
    requires PayloadDiffers(mem, mem')
    ensures forall i :: 0 <= i < 20 ==> mem'[i] == mem[i]
    ensures HeaderTotal(mem') == HeaderTotal(mem)
    ensures TransportTotal(mem', len) - PayloadTotal(mem', len)
         == TransportTotal(mem, len) - PayloadTotal(mem, len)
  {
    var h := mem[.. HeaderLength(mem)];
    forall i | 0 <= i < 20 ensures mem'[i] == mem[i] {
      assert mem'[i] == mem'[.. HeaderLength(mem)][i] == h[i];
    }
    assert mem'[12 .. 20] == mem[12 .. 20];
  }

  /** A header that is in order. */
  predicate HeaderFine(mem: seq<byte>, len: nat)
    requires |mem| >= REACH
  {
    0x40 <= mem[0] < 0x50 && len == 256 * (mem[2] as int) + mem[3] && HeaderTotal(mem) % 65535 == 0
  }

  /** The sum that is to be a multiple of 65535, once the header is in order. */
  function Total(mem: seq<byte>, len: nat): nat
    requires |mem| >= REACH
  {
    if mem[9] == 1 then PayloadTotal(mem, len) else TransportTotal(mem, len)
  }

  lemma BehindHeader(mem: seq<byte>, len: nat)
    requires |mem| >= REACH
    ensures Verdict(mem, len) == 0 ==> HeaderFine(mem, len)
    ensures HeaderFine(mem, len) && Guarded(mem) ==>
              Verdict(mem, len) == if Total(mem, len) % 65535 == 0 then 0 else PayloadFault(mem[9])
  {
    FirstFault(mem, len);
    hide Verdict, HeaderTotal, PayloadTotal, TransportTotal;
  }

  /** Damage to the payload of an accepted TCP, UDP or ICMP packet is reported
      exactly if it changes the sum of the words by no multiple of 65535. */
  lemma PayloadDamageIff(mem: seq<byte>, mem': seq<byte>, len: nat)
    requires PayloadDiffers(mem, mem') && Verdict(mem, len) == 0
    requires Guarded(mem) && Guarded(mem')
    ensures Verdict(mem', len) ==
      if (PayloadTotal(mem', len) - PayloadTotal(mem, len)) % 65535 == 0 then 0 else PayloadFault(mem[9])
  {
    BehindHeader(mem, len);
    BehindHeader(mem', len);
    SameHeader(mem, mem', len);
    var d := PayloadTotal(mem', len) - PayloadTotal(mem, len);
    assert Total(mem', len) == Total(mem, len) + d;
    hide Verdict, Total, PayloadTotal, TransportTotal, HeaderTotal;
    Shifted(Total(mem, len), d);
  }

  lemma Shifted(n: nat, d: int)
    requires n % 65535 == 0
    ensures (n + d) % 65535 == 0 <==> d % 65535 == 0
  {
    var q := n / 65535;
    assert n + d == 65535 * q + d;
  }

  /** One damaged byte in the payload is always reported, wherever it is. */
  lemma DamagedPayloadByte(mem: seq<byte>, len: nat, i: nat, b: byte)
    requires |mem| >= REACH && HeaderLength(mem) >= 20
    requires HeaderLength(mem) <= i < HeaderLength(mem) + PayloadLength(mem, len)
    ensures Verdict(mem, len) == 0 && b != mem[i] && Guarded(mem) && Guarded(mem[i := b]) ==>
              Verdict(mem[i := b], len) == PayloadFault(mem[9]) < 0
  {
    var mem' := mem[i := b];
    PayloadByteTotal(mem, len, i, b);
    hide Verdict, PayloadTotal, PayloadDiffers;
    if Verdict(mem, len) == 0 && b != mem[i] && Guarded(mem) && Guarded(mem') {
      PayloadDamageIff(mem, mem', len);
      NoMultiple(Weight(i - HeaderLength(mem)), b - mem[i]);
    }
  }

  lemma PayloadByteTotal(mem: seq<byte>, len: nat, i: nat, b: byte)
    requires |mem| >= REACH && HeaderLength(mem) >= 20
    requires HeaderLength(mem) <= i < HeaderLength(mem) + PayloadLength(mem, len)
    ensures PayloadDiffers(mem, mem[i := b])
    ensures PayloadTotal(mem[i := b], len)
         == PayloadTotal(mem, len) + Weight(i - HeaderLength(mem)) * (b - mem[i])
  {
    hide WordSum;
    var hl, mem' := HeaderLength(mem), mem[i := b];
    assert mem'[.. hl] == mem[.. hl];
    assert Payload(mem', len) == Payload(mem, len)[i - hl := b];
    SumByWeights(Payload(mem, len), i - hl, b);
  }

  lemma NoMultiple(w: nat, d: int)
    requires (w == 1 || w == 256) && d != 0 && -256 < d < 256
    ensures (w * d) % 65535 != 0
  {
  }

  /** One damaged byte in the header is always reported: by the version, by one of
      the length tests, or by the header sum. */
  lemma DamagedHeaderByte(mem: seq<byte>, len: nat, i: nat, b: byte)
    requires |mem| >= REACH && Verdict(mem, len) == 0
    requires i < HeaderLength(mem) && b != mem[i] && (i == 0 ==> b / 16 != 4)
    ensures var v := Verdict(mem[i := b], len);
      if i == 0 then v == -1
      else if i == 2 || i == 3 then v == if b > mem[i] then -2 else -3
      else v == -4
  {
    FirstFault(mem, len);
    FirstFault(mem[i := b], len);
    if i > 3 || i == 1 {
      HeaderByteTotal(mem, i, b);
      hide Verdict, TransportTotal, PayloadTotal, HeaderTotal;
      Shifted(HeaderTotal(mem), Weight(i) * (b - mem[i]));
      NoMultiple(Weight(i), b - mem[i]);
    }
  }

  lemma HeaderByteTotal(mem: seq<byte>, i: nat, b: byte)
    requires |mem| >= REACH && 0 < i < HeaderLength(mem)
    ensures HeaderTotal(mem[i := b]) == HeaderTotal(mem) + Weight(i) * (b - mem[i])
  {
    hide WordSum;
    var hl := HeaderLength(mem);
    assert mem[i := b][.. hl] == mem[.. hl][i := b];
    SumByWeights(mem[.. hl], i, b);
  }
}
