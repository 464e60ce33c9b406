/** The base64 decoder behind the shell command dec64,
    contiki/apps/shell/shell-text.c, against the encoding of section 4 of
    RFC 4648. */
module Base64 {
  import opened Bytes

  const CAPACITY: nat := 57             // 3 * BASE64_MAX_LINELEN / 4
  const WORD: nat := 0x1_0000_0000      // tmpdata keeps 32 bits

  type sextet = x: int | 0 <= x < 64

  // ------------------------------------------------------ encoding (RFC 4648)

  function Digit(v: sextet): char {
    if v < 26 then 'A' + v as char
    else if v < 52 then 'a' + (v - 26) as char
    else if v < 62 then '0' + (v - 52) as char
    else if v == 62 then '+' else '/'
  }

  function First(a: byte): sextet { a / 4 }
  function Second(a: byte, b: byte): sextet { a % 4 * 16 + b / 16 }
  function Third(b: byte, c: byte): sextet { b % 16 * 4 + c / 64 }
  function Fourth(c: byte): sextet { c % 64 }

  function Quad(a: byte, b: byte, c: byte): string {
    [Digit(First(a)), Digit(Second(a, b)), Digit(Third(b, c)), Digit(Fourth(c))]
  }

  function Encode(bytes: seq<byte>): string {
    if bytes == [] then ""
    else if |bytes| == 1 then [Digit(First(bytes[0])), Digit(Second(bytes[0], 0)), '=', '=']
    else if |bytes| == 2 then
      [Digit(First(bytes[0])), Digit(Second(bytes[0], bytes[1])), Digit(Third(bytes[1], 0)), '=']
    else Quad(bytes[0], bytes[1], bytes[2]) + Encode(bytes[3..])
  }

  // ----------------------------------------------------------------- decoding

  function DecodeChar(c: char): sextet {
    if 'A' <= c <= 'Z' then c as int - 'A' as int
    else if 'a' <= c <= 'z' then c as int - 'a' as int + 26
    else if '0' <= c <= '9' then c as int - '0' as int + 52
    else if c == '+' then 62
    else if c == '/' then 63
    else 0
  }

  predicate IsSpace(c: char) {
    c == ' ' || c == '\t' || c == '\n' || c == '\r' || c as int == 11 || c as int == 12
  }

  datatype State = State(data: seq<byte>, dataptr: nat, tmpdata: nat, sextets: nat, padding: nat)

  predicate Valid(s: State) {
    && |s.data| == CAPACITY && s.dataptr <= CAPACITY && s.dataptr % 3 == 0
    && s.tmpdata < WORD && s.sextets < 4
  }

  /** What the decoder starts from: `data` and `tmpdata` hold anything. */
  predicate Initial(s: State) {
    Valid(s) && s.dataptr == s.sextets == s.padding == 0
  }

  function Shifted(tmp: nat, v: sextet): nat {
    (tmp * 64 + v) % WORD
  }

  function AddChar(s: State, c: char): (s': State)
    requires Valid(s)
    ensures Valid(s')
  {
    if IsSpace(c) || s.dataptr >= CAPACITY then s
    else
      var tmp := Shifted(s.tmpdata, DecodeChar(c));
      var s1 := s.(padding := if c == '=' then s.padding + 1 else s.padding, tmpdata := tmp);
      if s.sextets + 1 == 4 then
        s1.(sextets := 0,
            data := s.data[s.dataptr := tmp / 0x1_0000 % 256]
                          [s.dataptr + 1 := tmp / 256 % 256]
                          [s.dataptr + 2 := tmp % 256],
            dataptr := s.dataptr + 3)
      else s1.(sextets := s.sextets + 1)
  }

  function AddAll(s: State, chars: string): (s': State)
    requires Valid(s)
    ensures Valid(s')
  {
    if chars == [] then s else AddChar(AddAll(s, chars[.. |chars| - 1]), chars[|chars| - 1])
  }

  /** What is handed to the next command in the pipe. */
  function Output(s: State): seq<byte>
    requires Valid(s)
  {
    if s.padding <= s.dataptr then s.data[.. s.dataptr - s.padding] else []
  }

  function Strip(chars: string): string {
    if chars == [] then []
    else Strip(chars[.. |chars| - 1])
         + if IsSpace(chars[|chars| - 1]) then [] else [chars[|chars| - 1]]
  }

  /** The alphabet of RFC 4648, table 1, and the value 0 of everything else, the
      padding character included. */
  lemma AlphabetValues(v: sextet, c: char)
    ensures var table := "ABCDEFGHIJKLMNOPQRSTUVWXYZ" + "abcdefghijklmnopqrstuvwxyz"
                       + "0123456789" + "+/";
      && |table| == 64 && Digit(v) == table[v]
      && DecodeChar(table[v]) == v
      && (c !in table ==> DecodeChar(c) == 0)
  {
    var upper, lower := "ABCDEFGHIJKLMNOPQRSTUVWXYZ", "abcdefghijklmnopqrstuvwxyz";
    var digits, signs := "0123456789", "+/";
    assert |upper| == |lower| == 26 && |digits| == 10 && |signs| == 2;
    TableOfRows(upper, lower, digits, signs, v);
    DigitDecodes(v);
    var x := DecodeChar(c);
    TableOfRows(upper, lower, digits, signs, x);
  }

  lemma TableOfRows(upper: string, lower: string, digits: string, signs: string, v: sextet)
    requires |upper| == |lower| == 26 && |digits| == 10 && signs == "+/"
    requires forall k: nat :: k < 26 ==> upper[k] == 'A' + k as char && lower[k] == 'a' + k as char
    requires forall k: nat :: k < 10 ==> digits[k] == '0' + k as char
    ensures (upper + lower + digits + signs)[v] == Digit(v)
  {
  }

  /** Only white space is skipped: a character outside the alphabet counts as 'A', and
      '=' as 'A' with one byte less at the end. */
  lemma ForeignCharacters(s: State, c: char)
    requires Valid(s) && s.dataptr < 57
    requires c != ' ' && c as int !in [9, 10, 11, 12, 13]
    ensures DecodeChar(c) == 0 && c != '=' ==> AddChar(s, c) == AddChar(s, 'A')
    ensures AddChar(s, '=') == AddChar(s, 'A').(padding := s.padding + 1)
  {
  }

  lemma {:induction false} AddConcat(s: State, a: string, b: string)
    requires Valid(s)
    ensures AddAll(s, a + b) == AddAll(AddAll(s, a), b)
    decreases |b|
  {
    if b == [] {
      assert a + b == a;
    } else {
      assert (a + b)[.. |a + b| - 1] == a + b[.. |b| - 1];
      AddConcat(s, a, b[.. |b| - 1]);
    }
  }

  lemma {:induction false} StripIgnored(s: State, chars: string)
    requires Valid(s)
    ensures AddAll(s, chars) == AddAll(s, Strip(chars))
    decreases |chars|
  {
    if chars != [] {
      var init, c := chars[.. |chars| - 1], chars[|chars| - 1];
      StripIgnored(s, init);
      if !IsSpace(c) {
        assert (Strip(init) + [c])[.. |Strip(init)|] == Strip(init);
      } else {
        assert Strip(chars) == Strip(init);
      }
    }
  }

  // --------------------------------------------------------------- four digits

  lemma DigitDecodes(v: sextet)
    ensures StandsFor(Digit(v), v) && Digit(v) != '='
  {
  }

  /** Four sextets shifted in leave their 24 bits lowest, whatever was there. */
  lemma FourShifts(t: nat, v1: sextet, v2: sextet, v3: sextet, v4: sextet) returns (k: int)
    ensures Shifted(Shifted(Shifted(Shifted(t, v1), v2), v3), v4)
         == 0x100_0000 * k + (v1 * 0x4_0000 + v2 * 0x1000 + v3 * 64 + v4)
  {
    var t1 := Shifted(t, v1);
    var t2 := Shifted(t1, v2);
    var t3 := Shifted(t2, v3);
    var t4 := Shifted(t3, v4);
    var m1, m2, m3, m4 := (t * 64 + v1) / WORD, (t1 * 64 + v2) / WORD,
                          (t2 * 64 + v3) / WORD, (t3 * 64 + v4) / WORD;
    assert t1 == t * 64 + v1 - WORD * m1;
    assert t2 == t1 * 64 + v2 - WORD * m2;
    assert t3 == t2 * 64 + v3 - WORD * m3;
    assert t4 == t3 * 64 + v4 - WORD * m4;
    k := t - 256 * (m1 * 0x4_0000 + m2 * 0x1000 + m3 * 64 + m4);
  }

  lemma SextetsOfBytes(a: byte, b: byte, c: byte)
    ensures First(a) * 0x4_0000 + Second(a, b) * 0x1000 + Third(b, c) * 64 + Fourth(c)
         == a * 0x1_0000 + b * 256 + c
  {
  }

  lemma LowBytes(t: nat, k: int, a: byte, b: byte, c: byte)
    requires t == 0x100_0000 * k + (a * 0x1_0000 + b * 256 + c)
    ensures t / 0x1_0000 % 256 == a && t / 256 % 256 == b && t % 256 == c
  {
    assert t / 0x1_0000 == 256 * k + a;
    assert t / 256 == 0x1_0000 * k + a * 256 + b;
  }

  /** A character that is not skipped and stands for `v`. */
  predicate StandsFor(ch: char, v: sextet) {
    !IsSpace(ch) && DecodeChar(ch) == v
  }

  /** Four characters that stand for three bytes, padding for zero bits. */
  predicate Group(chars: string, a: byte, b: byte, c: byte) {
    && |chars| == 4
    && StandsFor(chars[0], First(a)) && StandsFor(chars[1], Second(a, b))
    && StandsFor(chars[2], Third(b, c)) && StandsFor(chars[3], Fourth(c))
    && chars[0] != '=' && chars[1] != '='
  }

  function Paddings(chars: string): nat
    requires |chars| == 4
  {
    (if chars[2] == '=' then 1 else 0) + (if chars[3] == '=' then 1 else 0)
  }

  lemma MakeGroup(c0: char, c1: char, c2: char, c3: char, a: byte, b: byte, c: byte)
    requires StandsFor(c0, First(a)) && StandsFor(c1, Second(a, b))
    requires StandsFor(c2, Third(b, c)) && StandsFor(c3, Fourth(c))
    requires c0 != '=' && c1 != '='
    ensures Group([c0, c1, c2, c3], a, b, c)
    ensures Paddings([c0, c1, c2, c3]) == (if c2 == '=' then 1 else 0) + (if c3 == '=' then 1 else 0)
  {
  }

  lemma FullGroup(a: byte, b: byte, c: byte)
    ensures Group(Quad(a, b, c), a, b, c) && Paddings(Quad(a, b, c)) == 0
  {
    hide Digit, DecodeChar, First, Second, Third, Fourth;
    DigitDecodes(First(a));
    DigitDecodes(Second(a, b));
    DigitDecodes(Third(b, c));
    DigitDecodes(Fourth(c));
    MakeGroup(Digit(First(a)), Digit(Second(a, b)), Digit(Third(b, c)), Digit(Fourth(c)), a, b, c);
  }

  lemma EqualsDecodes(v: sextet)
    requires v == 0
    ensures StandsFor('=', v)
  {
  }

  lemma ZeroBits()
    ensures Third(0, 0) == 0 && Fourth(0) == 0
  {
  }

  lemma OneByteGroup(a: byte)
    ensures Group(Encode([a]), a, 0, 0) && Paddings(Encode([a])) == 2
  {
    hide Digit, DecodeChar, First, Second, Third, Fourth;
    DigitDecodes(First(a));
    DigitDecodes(Second(a, 0));
    ZeroBits();
    EqualsDecodes(Third(0, 0));
    EqualsDecodes(Fourth(0));
    MakeGroup(Digit(First(a)), Digit(Second(a, 0)), '=', '=', a, 0, 0);
  }

  lemma TwoByteGroup(a: byte, b: byte)
    ensures Group(Encode([a, b]), a, b, 0) && Paddings(Encode([a, b])) == 1
  {
    hide Digit, DecodeChar, First, Second, Third, Fourth;
    DigitDecodes(First(a));
    DigitDecodes(Second(a, b));
    DigitDecodes(Third(b, 0));
    ZeroBits();
    EqualsDecodes(Fourth(0));
    MakeGroup(Digit(First(a)), Digit(Second(a, b)), Digit(Third(b, 0)), '=', a, b, 0);
  }

  lemma QuadAdded(s: State, chars: string, a: byte, b: byte, c: byte)
    requires Valid(s) && s.sextets == 0 && s.dataptr < CAPACITY
    requires Group(chars, a, b, c)
    ensures var s' := AddAll(s, chars);
      && s'.dataptr == s.dataptr + 3 && s'.sextets == 0
      && s'.data[.. s.dataptr] == s.data[.. s.dataptr]
      && s'.data[s.dataptr .. s.dataptr + 3] == [a, b, c]
      && s'.padding == s.padding + Paddings(chars)
  {
    var s1 := AddChar(s, chars[0]);
    var s2 := AddChar(s1, chars[1]);
    var s3 := AddChar(s2, chars[2]);
    var s4 := AddChar(s3, chars[3]);
    AddFour(s, chars);
    var k := FourShifts(s.tmpdata, First(a), Second(a, b), Third(b, c), Fourth(c));
    SextetsOfBytes(a, b, c);
    LowBytes(s4.tmpdata, k, a, b, c);
  }

  lemma AddFour(s: State, chars: string)
    requires Valid(s) && |chars| == 4
    ensures AddAll(s, chars)
         == AddChar(AddChar(AddChar(AddChar(s, chars[0]), chars[1]), chars[2]), chars[3])
  {
    assert chars[.. 3][.. 2] == chars[.. 2] && chars[.. 2][.. 1] == chars[.. 1];
    assert AddAll(s, chars[.. 1][.. 0]) == s;
    assert AddAll(s, chars[.. 1]) == AddChar(s, chars[0]);
    assert AddAll(s, chars[.. 2]) == AddChar(AddAll(s, chars[.. 1]), chars[1]);
    assert AddAll(s, chars[.. 3]) == AddChar(AddAll(s, chars[.. 2]), chars[2]);
  }

  lemma GroupPrefix(data: seq<byte>, p: nat, bytes: seq<byte>, a: byte, b: byte, c: byte)
    requires p + 3 <= |data| && data[p .. p + 3] == [a, b, c]
    requires bytes == [a] || bytes == [a, b]
    ensures data[p .. p + |bytes|] == bytes
  {
    assert data[p .. p + |bytes|] == data[p .. p + 3][.. |bytes|];
  }

  /** Later bytes leave the group before them alone. */
  lemma Joined(old1: seq<byte>, new1: seq<byte>, p: nat, a: byte, b: byte, c: byte, rest: seq<byte>)
    requires |old1| == |new1| && p + 3 + |rest| <= |old1|
    requires old1[p .. p + 3] == [a, b, c]
    requires new1[.. p + 3] == old1[.. p + 3]
    requires new1[p + 3 .. p + 3 + |rest|] == rest
    ensures new1[.. p] == old1[.. p]
    ensures new1[p .. p + 3 + |rest|] == [a, b, c] + rest
  {
    assert new1[.. p] == new1[.. p + 3][.. p];
    assert old1[.. p] == old1[.. p + 3][.. p];
    assert new1[p .. p + 3] == new1[.. p + 3][p ..];
    assert old1[p .. p + 3] == old1[.. p + 3][p ..];
    assert new1[p .. p + 3 + |rest|] == new1[p .. p + 3] + new1[p + 3 .. p + 3 + |rest|];
  }

  lemma {:induction false} EncodedAdded(s: State, bytes: seq<byte>)
    requires Valid(s) && s.sextets == 0 && s.padding == 0 && s.dataptr + |bytes| <= CAPACITY
    ensures var s' := AddAll(s, Encode(bytes));
      && s'.padding <= s'.dataptr
      && s'.dataptr - s'.padding == s.dataptr + |bytes|
      && s'.data[.. s.dataptr] == s.data[.. s.dataptr]
      && s'.data[s.dataptr .. s.dataptr + |bytes|] == bytes
    decreases |bytes|
  {
    hide Digit, DecodeChar, AddChar, Group, Paddings, First, Second, Third, Fourth;
    if |bytes| == 0 {
    } else if |bytes| == 1 {
      OneByteGroup(bytes[0]);
      assert bytes == [bytes[0]];
      QuadAdded(s, Encode(bytes), bytes[0], 0, 0);
      GroupPrefix(AddAll(s, Encode(bytes)).data, s.dataptr, bytes, bytes[0], 0, 0);
    } else if |bytes| == 2 {
      TwoByteGroup(bytes[0], bytes[1]);
      assert bytes == [bytes[0], bytes[1]];
      QuadAdded(s, Encode(bytes), bytes[0], bytes[1], 0);
      GroupPrefix(AddAll(s, Encode(bytes)).data, s.dataptr, bytes, bytes[0], bytes[1], 0);
    } else {
      var a, b, c := bytes[0], bytes[1], bytes[2];
      var quad, rest := Quad(a, b, c), bytes[3..];
      FullGroup(a, b, c);
      QuadAdded(s, quad, a, b, c);
      var s1 := AddAll(s, quad);
      AddConcat(s, quad, Encode(rest));
      EncodedAdded(s1, rest);
      Joined(s1.data, AddAll(s1, Encode(rest)).data, s.dataptr, a, b, c, rest);
      assert bytes == [a, b, c] + rest;
    }
  }

  /** Decoding inverts encoding: the decoder gives back a byte string from its
      encoding, with white space anywhere, split anywhere into the two halves of
      the shell's input, and whatever its memory held before, exactly when the
      string fits its buffer. */
  lemma DecodingInvertsEncoding(s: State, bytes: seq<byte>, data1: string, data2: string)
    requires Initial(s) && Strip(data1 + data2) == Encode(bytes)
    ensures Output(AddAll(AddAll(s, data1), data2)) == bytes <==> |bytes| <= 57
  {
    AddConcat(s, data1, data2);
    StripIgnored(s, data1 + data2);
    if |bytes| <= CAPACITY {
      EncodedAdded(s, bytes);
      var s' := AddAll(s, Encode(bytes));
      assert s'.data[.. |bytes|] == s'.data[0 .. |bytes|];
    }
  }

  // -------------------------------------------------------------- white space

  /** Space, tab, newline, vertical tab, form feed and carriage return. */
  predicate White(gap: string) {
    forall i :: 0 <= i < |gap| ==> gap[i] == ' ' || gap[i] as int in [9, 10, 11, 12, 13]
  }

  /** `chars` with a gap before each character and one at the end. */
  function Woven(chars: string, gaps: seq<string>): string
    requires |gaps| == |chars| + 1
  {
    if chars == [] then gaps[0]
    else
      var n := |chars| - 1;
      Woven(chars[.. n], gaps[.. n + 1]) + [chars[n]] + gaps[n + 1]
  }

  lemma {:induction false} StripConcat(a: string, b: string)
    ensures Strip(a + b) == Strip(a) + Strip(b)
    decreases |b|
  {
    if b == [] {
      assert a + b == a;
    } else {
      assert (a + b)[.. |a + b| - 1] == a + b[.. |b| - 1];
      StripConcat(a, b[.. |b| - 1]);
    }
  }

  lemma {:induction false} StripWhite(gap: string)
    requires White(gap)
    ensures Strip(gap) == ""
  {
    if gap != [] {
      StripWhite(gap[.. |gap| - 1]);
    }
  }

  lemma {:induction false} StripWoven(chars: string, gaps: seq<string>)
    requires |gaps| == |chars| + 1
    requires forall i :: 0 <= i < |gaps| ==> White(gaps[i])
    requires forall i :: 0 <= i < |chars| ==> !IsSpace(chars[i])
    ensures Strip(Woven(chars, gaps)) == chars
    decreases |chars|
  {
    hide IsSpace, White;
    if chars == [] {
      StripWhite(gaps[0]);
    } else {
      var n := |chars| - 1;
      var init := Woven(chars[.. n], gaps[.. n + 1]);
      StripWoven(chars[.. n], gaps[.. n + 1]);
      StripOne(chars[n]);
      StripConcat(init, [chars[n]]);
      StripWhite(gaps[n + 1]);
      StripConcat(init + [chars[n]], gaps[n + 1]);
      assert chars == chars[.. n] + [chars[n]] + "";
    }
  }

  lemma StripOne(c: char)
    requires !IsSpace(c)
    ensures Strip([c]) == [c]
  {
    assert Strip([c][.. 0]) == [];
  }

  lemma {:induction false} EncodingHasNoSpace(bytes: seq<byte>)
    ensures forall i :: 0 <= i < |Encode(bytes)| ==> !IsSpace(Encode(bytes)[i])
    decreases |bytes|
  {
    hide Digit, First, Second, Third, Fourth;
    forall v: sextet ensures !IsSpace(Digit(v)) {
      DigitDecodes(v);
    }
    if |bytes| > 2 {
      EncodingHasNoSpace(bytes[3..]);
    }
  }

  /** The round trip with any white space between the characters, before them and
      behind them. */
  lemma WhiteSpaceAnywhere(s: State, bytes: seq<byte>, gaps: seq<string>, data1: string, data2: string)
    requires Initial(s) && |gaps| == |Encode(bytes)| + 1
    requires forall i :: 0 <= i < |gaps| ==> White(gaps[i])
    requires data1 + data2 == Woven(Encode(bytes), gaps)
    ensures Output(AddAll(AddAll(s, data1), data2)) == bytes <==> |bytes| <= 57
  {
    EncodingHasNoSpace(bytes);
    StripWoven(Encode(bytes), gaps);
    DecodingInvertsEncoding(s, bytes, data1, data2);
  }

  // ----------------------------------------------------------------- in place

  class Decoder {
    const data: array<byte>
    var dataptr: nat
    var tmpdata: nat
    var sextets: nat
    var padding: nat

    ghost function Value(): State
      reads this, data
    {
      State.State(data[..], dataptr, tmpdata, sextets, padding)
    }

    /** Nothing is initialised. */
    constructor (data: array<byte>, dataptr: nat, tmpdata: nat, sextets: nat, padding: nat)
      ensures this.data == data
      ensures Value() == State.State(data[..], dataptr, tmpdata, sextets, padding)
    {
      this.data, this.dataptr, this.tmpdata := data, dataptr, tmpdata;
      this.sextets, this.padding := sextets, padding;
    }

    method Add(c: char) returns (more: bool)
      requires Valid(Value())
      modifies this, data
      ensures Value() == AddChar(old(Value()), c)
      ensures more <==> !IsSpace(c) && old(dataptr) < 57 && dataptr < 57
    {
      if IsSpace(c) {
        return false;
      }
      if dataptr >= CAPACITY {
        return false;
      }
      if c == '=' {
        padding := padding + 1;
      }
      tmpdata := Shifted(tmpdata, DecodeChar(c));
      sextets := sextets + 1;
      if sextets == 4 {
        sextets := 0;
        data[dataptr] := tmpdata / 0x1_0000 % 256;
        data[dataptr + 1] := tmpdata / 256 % 256;
        data[dataptr + 2] := tmpdata % 256;
        dataptr := dataptr + 3;
        return dataptr != CAPACITY;
      }
      return true;
    }

    method AddString(chars: string)
      requires Valid(Value())
      modifies this, data
      ensures Value() == AddAll(old(Value()), chars)
    {
      for i := 0 to |chars|
        invariant Value() == AddAll(old(Value()), chars[.. i])
      {
        assert chars[.. i + 1][.. i] == chars[.. i];
        var _ := Add(chars[i]);
      }
      assert chars[.. |chars|] == chars;
    }

    /** One line of input, in its two parts. */
    method Decode(data1: string, data2: string) returns (out: seq<byte>)
      requires data.Length == CAPACITY && tmpdata < WORD
      modifies this, data
      ensures out == Output(AddAll(AddAll(
        old(Value()).(dataptr := 0, sextets := 0, padding := 0), data1), data2))
    {
      sextets, dataptr, padding := 0, 0, 0;
      AddString(data1);
      AddString(data2);
      out := if padding <= dataptr then data[.. dataptr - padding] else [];
      assert data[..][.. dataptr] == data[.. dataptr];
    }
  }
}
