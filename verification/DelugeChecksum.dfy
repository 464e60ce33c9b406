/** The checksum of a data packet, contiki/core/lib/crc16.c: the byte-wise form in
    use is the bit-serial CRC of the polynomial x^16 + x^12 + x^5 + 1, and it
    catches every packet of which one byte is damaged. */
module DelugeChecksum {
  import opened DelugeNode

  // --------------------------------------------------------- the bit-serial form

  /** One bit of the division, least significant bit first. */
  function BitStep(acc: bv16): bv16 {
    if acc & 1 == 1 then (acc >> 1) ^ 0x8408 else acc >> 1
  }

  function TwoSteps(acc: bv16): bv16 {
    BitStep(BitStep(acc))
  }

  function FourSteps(acc: bv16): bv16 {
    TwoSteps(TwoSteps(acc))
  }

  /** A byte is added to the remainder and divided out bit by bit. */
  function BitSerial(b: Octet, acc: bv16): bv16 {
    FourSteps(FourSteps(acc ^ (b as bv16)))
  }

  lemma OneIs(x: bv16)
    ensures BitStep(x) == (x >> 1) ^ ((x & 1) << 15) ^ ((x & 1) << 10) ^ ((x & 1) << 3)
  {
    LowBit(x);
    StepByLowBit(x);
    hide BitStep;
    Subtracted(x >> 1, x & 1);
  }

  lemma StepByLowBit(x: bv16)
    ensures BitStep(x) == if x & 1 == 1 then (x >> 1) ^ 0x8408 else x >> 1
  {
  }

  lemma LowBit(x: bv16)
    ensures x & 1 == 0 || x & 1 == 1
  {
  }

  lemma Subtracted(y: bv16, b: bv16)
    requires b == 0 || b == 1
    ensures y ^ (b << 15) ^ (b << 10) ^ (b << 3) == if b == 1 then y ^ 0x8408 else y
  {
    if b == 1 {
      assert b << 15 == 0x8000 && b << 10 == 0x400 && b << 3 == 8;
    } else {
      assert b << 15 == 0 && b << 10 == 0 && b << 3 == 0;
    }
  }

  lemma TwoIs(x: bv16)
    ensures TwoSteps(x) == (x >> 2) ^ ((x & 3) << 14) ^ ((x & 3) << 9) ^ ((x & 3) << 2)
  {
    OneIs(x);
    OneIs(BitStep(x));
    hide BitStep;
  }

  lemma FourIs(x: bv16)
    ensures FourSteps(x) == (x >> 4) ^ ((x & 15) << 12) ^ ((x & 15) << 7) ^ (x & 15)
  {
    TwoIs(x);
    TwoIs(TwoSteps(x));
    hide TwoSteps;
  }

  /** The shifts of the code, on the remainder with the byte added. */
  function Mix(x: bv16): bv16 {
    var a1 := (x >> 8) | (x << 8);
    var a2 := a1 ^ ((a1 & 0xFF00) << 4);
    var a3 := a2 ^ ((a2 >> 8) >> 4);
    a3 ^ ((a3 & 0xFF00) >> 5)
  }

  lemma MixIsEightSteps(x: bv16)
    ensures Mix(x) == FourSteps(FourSteps(x))
  {
    FourIs(x);
    FourIs(FourSteps(x));
    hide FourSteps;
  }

  /** The shifts of the code are eight steps of the division. */
  lemma CrcIsBitSerial(b: Octet, acc: bv16)
    ensures Crc16Add(b, acc) == BitSerial(b, acc)
  {
    MixIsEightSteps(acc ^ (b as bv16));
    hide FourSteps;
  }

  // ------------------------------------------------------------- error detection

  lemma BitStepInjective(x: bv16, y: bv16)
    requires BitStep(x) == BitStep(y)
    ensures x == y
  {
  }

  lemma FourInjective(x: bv16, y: bv16)
    requires FourSteps(x) == FourSteps(y)
    ensures x == y
  {
    BitStepInjective(BitStep(BitStep(BitStep(x))), BitStep(BitStep(BitStep(y))));
    BitStepInjective(BitStep(BitStep(x)), BitStep(BitStep(y)));
    BitStepInjective(BitStep(x), BitStep(y));
    BitStepInjective(x, y);
  }

  lemma CrcInjective(b: Octet, c: Octet, x: bv16, y: bv16)
    requires Crc16Add(b, x) == Crc16Add(c, y)
    ensures b == c <==> x == y
  {
    CrcIsBitSerial(b, x);
    CrcIsBitSerial(c, y);
    hide Crc16Add, FourSteps;
    FourInjective(FourSteps(x ^ (b as bv16)), FourSteps(y ^ (c as bv16)));
    FourInjective(x ^ (b as bv16), y ^ (c as bv16));
    XorCancels(b, c, x, y);
  }

  lemma XorCancels(b: Octet, c: Octet, x: bv16, y: bv16)
    requires x ^ (b as bv16) == y ^ (c as bv16)
    ensures b == c <==> x == y
  {
  }

  lemma {:induction false} SumsStayApart(buf: seq<Octet>, x: bv16, y: bv16)
    requires x != y
    ensures ChecksumFrom(buf, x) != ChecksumFrom(buf, y)
  {
    hide Crc16Add;
    if buf != [] {
      if Crc16Add(buf[0], x) == Crc16Add(buf[0], y) {
        CrcInjective(buf[0], buf[0], x, y);
        assert false;
      }
      SumsStayApart(buf[1..], Crc16Add(buf[0], x), Crc16Add(buf[0], y));
    }
  }

  lemma {:induction false} DamageShows(buf: seq<Octet>, i: nat, b: Octet, sum: bv16)
    requires i < |buf| && b != buf[i]
    ensures ChecksumFrom(buf[i := b], sum) != ChecksumFrom(buf, sum)
    decreases i
  {
    hide Crc16Add;
    var bad := buf[i := b];
    if i == 0 {
      assert bad[1..] == buf[1..];
      if Crc16Add(b, sum) == Crc16Add(buf[0], sum) {
        CrcInjective(b, buf[0], sum, sum);
        assert false;
      }
      SumsStayApart(buf[1..], Crc16Add(b, sum), Crc16Add(buf[0], sum));
    } else {
      assert bad[1..] == buf[1..][i - 1 := b];
      DamageShows(buf[1..], i - 1, b, Crc16Add(buf[0], sum));
    }
  }

  /** A buffer with one byte damaged never has the checksum of the whole one. */
  lemma OneDamagedByteShows(buf: seq<Octet>, i: nat, b: Octet)
    requires i < |buf| && b != buf[i]
    ensures Checksum(buf[i := b]) != Checksum(buf)
  {
    DamageShows(buf, i, b, 0);
  }
}
