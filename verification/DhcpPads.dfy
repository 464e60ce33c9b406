/** What the copy loop of contiki/tools/tunslip.c makes of option areas that
    DhcpOptions.ReplyFiltered does not cover: odd runs of PADs, name server options
    too short for an address, and areas whose copy is longer than they are. */
module DhcpPads {
  import opened Bytes
  import opened Wrappers
  import opened DhcpOptions

  // -------------------------------------------------------- odd runs of PADs

  /** The last PAD of an odd run takes the byte behind it, an option code or END,
      for a length: the loop resumes that many bytes and one more behind it. */
  lemma OddPadSkips(buf: seq<byte>, end: nat, items: seq<Item>, more: seq<byte>)
    requires end <= |buf| && ValidItems(items) && EvenPads(items) && FullServers(items)
    requires more != [] && buf[.. end] == Encode(items) + ([PAD] + more)
    ensures ValidItems(Keep(items))
    ensures var code := |Encode(items)| + 1;
      && code < end && buf[code] == more[0]
      && CopyFrom(buf, end, 0) == Then(Encode(Keep(items)), CopyFrom(buf, end, code + more[0] as int + 1))
  {
    hide Keep, CopyFrom, Encode, EvenPads, FullServers;
    assert buf[0 .. end] == buf[.. end];
    var p := |Encode(items)|;
    CopyThrough(buf, end, 0, items, [PAD] + more);
    assert buf[p .. end][0] == buf[p] && buf[p .. end][1] == buf[p + 1];
    CopyStep(buf, end, p);
    ThenNothing(CopyFrom(buf, end, p + more[0] as int + 2));
  }

  /** If fewer bytes are left than that, everything behind the PAD is lost, and
      END with it: the reply is never right. */
  lemma OddPadOvershoots(buf: seq<byte>, end: nat, items: seq<Item>, more: seq<byte>)
    requires end <= |buf| && ValidItems(items) && EvenPads(items) && FullServers(items)
    requires more != [] && buf[.. end] == Encode(items) + ([PAD] + more)
    ensures ValidItems(Keep(items))
    ensures |more| <= more[0] as int + 1 ==> CopyFrom(buf, end, 0) == Some(Encode(Keep(items)))
  {
    hide Keep, CopyFrom, Encode;
    OddPadSkips(buf, end, items, more);
    assert |buf[.. end]| == |Encode(items)| + 1 + |more|;
    PastTheEnd(buf, end, |Encode(items)| + more[0] as int + 2);
    ThenEmpty(Encode(Keep(items)));
  }

  lemma PastTheEnd(buf: seq<byte>, end: nat, p: nat)
    requires end <= |buf|
    ensures p >= end ==> CopyFrom(buf, end, p) == Some([])
  {
  }

  lemma ThenEmpty(out: seq<byte>)
    ensures Then(out, Some([])) == Some(out)
  {
    var none: seq<byte> := [];
    assert out + none == out;
  }

  lemma FullConcat(a: seq<Item>, b: seq<Item>)
    requires FullServers(a) && FullServers(b)
    ensures FullServers(a + b)
  {
  }

  lemma {:induction false} KeepConcat(a: seq<Item>, b: seq<Item>)
    requires FullServers(a) && FullServers(b)
    ensures FullServers(a + b) && Keep(a + b) == Keep(a) + Keep(b)
  {
    hide KeepItem;
    FullConcat(a, b);
    if a == [] {
      assert a + b == b;
    } else {
      assert (a + b)[1..] == a[1..] + b;
      KeepConcat(a[1..], b);
    }
  }

  /** When the loop comes back at the start of an option, having passed over the
      options `b`, the reply is right exactly if none of them was to be kept. */
  lemma OddPadResumesIff(buf: seq<byte>, end: nat, a: seq<Item>, b: seq<Item>, c: seq<Item>, rest: seq<byte>)
    requires end <= |buf| && ValidItems(a) && ValidItems(b) && ValidItems(c)
    requires FullServers(a) && FullServers(b) && FullServers(c) && EvenPads(a) && EvenPads(c)
    requires b != [] && b[0].Opt? && |Encode(b)| == b[0].code as int + 1
    requires buf[.. end] == Encode(a) + ([PAD] + (Encode(b) + (Encode(c) + ([END] + rest))))
    ensures var all := a + [Pad] + b + c;
      && FullServers(all) && ValidItems(Keep(all))
      && (CopyFrom(buf, end, 0) == Some(Encode(Keep(all)) + [END]) <==> Keep(b) == [])
  {
    hide CopyFrom, Keep, Encode, EncodeItem, FullServers, EvenPads;
    var tail := Encode(c) + ([END] + rest);
    var at := |Encode(a)| + 1 + |Encode(b)|;
    StartsWithCode(b, tail);
    OddPadSkips(buf, end, a, Encode(b) + tail);
    AreaBehind(buf, end, Encode(a), Encode(b), tail);
    CopyKeeps(buf, end, at, c, [END] + rest);
    KeepOfAll(a, b, c);
    SameWithout(Encode(Keep(a)), Encode(Keep(b)), Encode(Keep(c)), [END]);
    KeepFits(b);
  }

  lemma StartsWithCode(items: seq<Item>, tail: seq<byte>)
    requires ValidItems(items) && items != [] && items[0].Opt?
    ensures Encode(items) + tail != [] && (Encode(items) + tail)[0] == items[0].code
  {
  }

  lemma AreaBehind(buf: seq<byte>, end: nat, a: seq<byte>, b: seq<byte>, tail: seq<byte>)
    requires end <= |buf| && buf[.. end] == a + ([PAD] + (b + tail))
    ensures |a| + 1 + |b| <= end && buf[|a| + 1 + |b| .. end] == tail
  {
    assert buf[0 .. end] == buf[.. end];
    assert a + ([PAD] + (b + tail)) == (a + [PAD] + b) + tail;
    SplitArea(buf, 0, end, a + [PAD] + b, tail);
  }

  lemma KeepOnePad()
    ensures FullServers([Pad]) && Keep([Pad]) == []
  {
    assert [Pad][1..] == [];
  }

  lemma KeepOfAll(a: seq<Item>, b: seq<Item>, c: seq<Item>)
    requires ValidItems(a) && ValidItems(b) && ValidItems(c)
    requires FullServers(a) && FullServers(b) && FullServers(c)
    ensures var all := a + [Pad] + b + c;
      && FullServers(all) && ValidItems(Keep(a)) && ValidItems(Keep(b)) && ValidItems(Keep(c))
      && ValidItems(Keep(all))
      && Encode(Keep(all)) == Encode(Keep(a)) + Encode(Keep(b)) + Encode(Keep(c))
  {
    hide Keep, KeepItem, Encode, FullServers;
    KeepFits(a);
    KeepFits(b);
    KeepFits(c);
    KeepOnePad();
    KeepConcat(a, [Pad]);
    KeepConcat(a + [Pad], b);
    KeepConcat(a + [Pad] + b, c);
    assert Keep(a) + [] == Keep(a);
    EncodeConcat(Keep(a), Keep(b));
    EncodeConcat(Keep(a) + Keep(b), Keep(c));
  }

  lemma SameWithout(a: seq<byte>, b: seq<byte>, c: seq<byte>, d: seq<byte>)
    ensures a + (c + d) == a + b + c + d <==> b == []
  {
    if b == [] {
      assert a + b == a;
      Assoc(a, c, d);
    } else {
      assert |a + (c + d)| != |a + b + c + d|;
    }
  }

  function Pads(k: nat): seq<Item> {
    seq(k, _ => Pad)
  }

  lemma {:induction false} PadsAppended(items: seq<Item>, k: nat)
    requires ValidItems(items) && EvenPads(items) && FullServers(items)
    ensures var padded := items + Pads(k);
      && ValidItems(padded) && FullServers(padded) && Keep(padded) == Keep(items)
      && Encode(padded) == Encode(items) + seq(k, _ => PAD)
      && (k % 2 == 0 ==> EvenPads(padded))
    decreases k
  {
    KeepConcat(items, Pads(k));
    EncodeConcat(items, Pads(k));
    OnlyPads(k);
    assert Keep(items) + [] == Keep(items);
    if k % 2 == 0 {
      EvenConcat(items, Pads(k));
    }
  }

  lemma {:induction false} EvenConcat(a: seq<Item>, b: seq<Item>)
    requires EvenPads(a) && EvenPads(b)
    ensures EvenPads(a + b)
    decreases |a|
  {
    if a == [] {
      assert a + b == b;
    } else if a[0].Opt? {
      assert (a + b)[1..] == a[1..] + b;
      EvenConcat(a[1..], b);
    } else {
      assert (a + b)[2..] == a[2..] + b;
      EvenConcat(a[2..], b);
    }
  }

  lemma {:induction false} OnlyPads(k: nat)
    ensures Keep(Pads(k)) == [] && Encode(Pads(k)) == seq(k, _ => PAD)
    ensures k % 2 == 0 ==> EvenPads(Pads(k))
  {
    if k > 0 {
      assert Pads(k)[1..] == Pads(k - 1);
      OnlyPads(k - 1);
      if k > 1 {
        assert Pads(k)[2..] == Pads(k - 2);
        OnlyPads(k - 2);
      }
    }
  }

  /** PADs before END: the reply is right exactly if their number is even or the
      loop, sent 256 bytes past END, should find another END there. */
  lemma PadsBeforeEndIff(buf: seq<byte>, end: nat, items: seq<Item>, k: nat, rest: seq<byte>)
    requires end <= |buf| && ValidItems(items) && EvenPads(items) && FullServers(items)
    requires buf[.. end] == Encode(items) + (seq(k, _ => PAD) + ([END] + rest))
    ensures ValidItems(Keep(items))
    ensures CopyFrom(buf, end, 0) == Some(Encode(Keep(items)) + [END])
            <==> k % 2 == 0 || CopyFrom(buf, end, |Encode(items)| + k + 256) == Some([END])
    ensures |rest| < 256 ==>
              (CopyFrom(buf, end, 0) == Some(Encode(Keep(items)) + [END]) <==> k % 2 == 0)
  {
    hide CopyFrom, Keep, Encode, EvenPads, FullServers;
    assert |buf[.. end]| == |Encode(items)| + k + 1 + |rest|;
    if k % 2 == 0 {
      EvenPadsBeforeEnd(buf, end, items, k, rest);
    } else {
      OddPadsBeforeEnd(buf, end, items, k, rest);
      PastTheEnd(buf, end, |Encode(items)| + k + 256);
      ThenSame(Encode(Keep(items)), [END], CopyFrom(buf, end, |Encode(items)| + k + 256));
    }
  }

  lemma EvenPadsBeforeEnd(buf: seq<byte>, end: nat, items: seq<Item>, k: nat, rest: seq<byte>)
    requires end <= |buf| && ValidItems(items) && EvenPads(items) && FullServers(items) && k % 2 == 0
    requires buf[.. end] == Encode(items) + (seq(k, _ => PAD) + ([END] + rest))
    ensures ValidItems(Keep(items)) && CopyFrom(buf, end, 0) == Some(Encode(Keep(items)) + [END])
  {
    hide CopyFrom, Keep, Encode, EvenPads, FullServers;
    PadsAppended(items, k);
    Assoc(Encode(items), seq(k, _ => PAD), [END] + rest);
    assert buf[0 .. end] == buf[.. end];
    CopyKeeps(buf, end, 0, items + Pads(k), [END] + rest);
  }

  lemma OddPadsBeforeEnd(buf: seq<byte>, end: nat, items: seq<Item>, k: nat, rest: seq<byte>)
    requires end <= |buf| && ValidItems(items) && EvenPads(items) && FullServers(items) && k % 2 == 1
    requires buf[.. end] == Encode(items) + (seq(k, _ => PAD) + ([END] + rest))
    ensures ValidItems(Keep(items))
    ensures CopyFrom(buf, end, 0)
         == Then(Encode(Keep(items)), CopyFrom(buf, end, |Encode(items)| + k + 256))
  {
    hide CopyFrom, Keep, Encode, EvenPads, FullServers;
    PadsAppended(items, k - 1);
    LastPadApart(Encode(items), k, [END] + rest);
    OddPadSkips(buf, end, items + Pads(k - 1), [END] + rest);
  }

  lemma LastPadApart(a: seq<byte>, k: nat, more: seq<byte>)
    requires k > 0
    ensures a + (seq(k, _ => PAD) + more) == (a + seq(k - 1, _ => PAD)) + ([PAD] + more)
  {
    assert seq(k, _ => PAD) == seq(k - 1, _ => PAD) + [PAD];
  }

  // -------------------------------------------------------- every option area

  /** The last PAD of the first odd run. */
  function OddPad(items: seq<Item>): (k: nat)
    requires !EvenPads(items)
    ensures k < |items| && items[k].Pad? && EvenPads(items[.. k])
    ensures k + 1 < |items| ==> items[k + 1].Opt?
    decreases |items|
  {
    if items[0].Opt? then
      var k := OddPad(items[1..]);
      assert items[.. k + 1][1..] == items[1..][.. k];
      k + 1
    else if |items| > 1 && items[1].Pad? then
      var k := OddPad(items[2..]);
      assert items[.. k + 2][2..] == items[2..][.. k];
      k + 2
    else 0
  }

  lemma SplitAt(items: seq<Item>, k: nat)
    requires ValidItems(items) && FullServers(items) && k < |items| && items[k].Pad?
    ensures items == items[.. k] + [Pad] + items[k + 1 ..]
    ensures FullServers(items[.. k]) && FullServers(items[k + 1 ..])
  {
  }

  lemma KeepAround(a: seq<Item>, b: seq<Item>)
    requires ValidItems(a) && ValidItems(b) && FullServers(a) && FullServers(b)
    ensures var all := a + [Pad] + b;
      && FullServers(all)
      && ValidItems(Keep(a)) && ValidItems(Keep(b)) && ValidItems(Keep(all))
      && Encode(Keep(all)) == Encode(Keep(a)) + Encode(Keep(b))
  {
    hide Keep, KeepItem, Encode, FullServers;
    KeepFits(a);
    KeepFits(b);
    KeepOnePad();
    KeepConcat(a, [Pad]);
    KeepConcat(a + [Pad], b);
    assert Keep(a) + [] == Keep(a);
    EncodeConcat(Keep(a), Keep(b));
  }

  lemma EncodeAround(a: seq<Item>, b: seq<Item>, tail: seq<byte>)
    requires ValidItems(a) && ValidItems(b)
    ensures Encode(a + [Pad] + b) + tail == Encode(a) + ([PAD] + (Encode(b) + tail))
  {
    hide Encode;
    EncodeConcat(a, [Pad] + b);
    EncodeCons(Pad, b, tail);
    assert a + [Pad] + b == a + ([Pad] + b);
    Assoc(Encode(a), Encode([Pad] + b), tail);
  }

  /** From `p` on, the copy loop writes what is to be kept of `items`, and END. */
  predicate Copies(buf: seq<byte>, end: nat, p: nat, items: seq<Item>)
    requires end <= |buf| && FullServers(items) && ValidItems(Keep(items))
  {
    CopyFrom(buf, end, p) == Some(Encode(Keep(items)) + [END])
  }

  lemma CopiesAfterOddPadIff(buf: seq<byte>, end: nat, a: seq<Item>, b: seq<Item>, rest: seq<byte>)
    requires end <= |buf| && ValidItems(a) && ValidItems(b) && EvenPads(a)
    requires FullServers(a) && FullServers(b)
    requires buf[.. end] == Encode(a) + ([PAD] + (Encode(b) + ([END] + rest)))
    ensures var code := |Encode(a)| + 1;
      && code < end && FullServers(a + [Pad] + b)
      && ValidItems(Keep(a + [Pad] + b)) && ValidItems(Keep(b))
      && (Copies(buf, end, 0, a + [Pad] + b) <==> Copies(buf, end, code + buf[code] as int + 1, b))
  {
    hide Keep, Encode, EvenPads, FullServers, CopyFrom;
    OddPadSkips(buf, end, a, Encode(b) + ([END] + rest));
    KeepAround(a, b);
    var code := |Encode(a)| + 1;
    ThenSame(Encode(Keep(a)), Encode(Keep(b)) + [END], CopyFrom(buf, end, code + buf[code] as int + 1));
    Assoc(Encode(Keep(a)), Encode(Keep(b)), [END]);
  }

  lemma ThenSame(out: seq<byte>, more: seq<byte>, r: Option<seq<byte>>)
    ensures Then(out, r) == Some(out + more) <==> r == Some(more)
  {
    if r.Some? && out + r.value == out + more {
      assert r.value == (out + r.value)[|out| ..] == (out + more)[|out| ..] == more;
    }
  }

  // --------------------------------------- what the loop reads, as an option list

  /** The part of `buf` from `i` up to `j` that is there. */
  function Clip(buf: seq<byte>, i: nat, j: nat): (r: seq<byte>)
    ensures i <= j <= |buf| ==> r == buf[i .. j]
  {
    if i <= j <= |buf| then buf[i .. j] else []
  }

  /** The item the loop takes the bytes at `p` for. A PAD is an item like any other,
      with a length byte; a name server has at least the four bytes that are copied. */
  function ItemRead(buf: seq<byte>, p: nat): (item: Item)
    requires p < |buf| && Readable(buf, p)
    ensures item.Opt? && item.code == buf[p]
    ensures item.code == DNS_SERVER ==> |item.data| >= 4
    ensures |KeepItem(item)| <= 1 && ValidItems(KeepItem(item))
  {
    if buf[p] == DNS_SERVER && At(buf, p + 1) < 4 then Opt(buf[p], buf[p + 2 .. p + 6])
    else if buf[p] == DNS_SERVER then Opt(buf[p], buf[p + 2 .. p + 6] + Clip(buf, p + 6, p + Size(buf, p)))
    else Opt(buf[p], Clip(buf, p + 2, p + Size(buf, p)))
  }

  /** A list of options, and whether END was met behind it. */
  datatype Reading = Reading(items: seq<Item>, ended: bool)

  /** The options the loop reads from `p` on; None if it would read past the buffer. */
  function Read(buf: seq<byte>, end: nat, p: nat): (r: Option<Reading>)
    requires end <= |buf|
    ensures r.Some? ==> FullServers(r.value.items) && ValidItems(Keep(r.value.items))
    decreases end - p
  {
    if p >= end then Some(Reading([], false))
    else if buf[p] == END then Some(Reading([], true))
    else if !Readable(buf, p) then None
    else
      match Read(buf, end, p + Size(buf, p))
      case None => None
      case Some(Reading(items, ended)) => Some(Reading([ItemRead(buf, p)] + items, ended))
  }

  function Written(r: Reading): seq<byte>
    requires FullServers(r.items) && ValidItems(Keep(r.items))
  {
    Encode(Keep(r.items)) + if r.ended then [END] else []
  }

  lemma OutputIsKept(buf: seq<byte>, p: nat)
    requires p < |buf| && Readable(buf, p) && buf[p] != END
    ensures Output(buf, p) == Encode(KeepItem(ItemRead(buf, p)))
  {
    var item := ItemRead(buf, p);
    hide Encode;
    if Copied(buf[p]) {
      EncodeOne(item);
      assert buf[p .. p + Size(buf, p)] == [buf[p], buf[p + 1]] + buf[p + 2 .. p + Size(buf, p)];
    } else if buf[p] == DNS_SERVER {
      assert item.data[.. 4] == buf[p + 2 .. p + 6];
      EncodeOne(Opt(DNS_SERVER, buf[p + 2 .. p + 6]));
    } else {
      KeepNothing(KeepItem(item));
    }
  }

  lemma EncodeOne(item: Item)
    requires ValidItem(item)
    ensures Encode([item]) == EncodeItem(item)
  {
    var none: seq<Item> := [];
    assert [item][1..] == none;
    assert EncodeItem(item) + [] == EncodeItem(item);
  }

  /** The copy loop writes what is to be kept of the options it reads, and END if
      it meets it. */
  lemma {:induction false} CopyIsRead(buf: seq<byte>, end: nat, p: nat)
    requires end <= |buf|
    ensures CopyFrom(buf, end, p).Some? <==> Read(buf, end, p).Some?
    ensures Read(buf, end, p).Some? ==> CopyFrom(buf, end, p) == Some(Written(Read(buf, end, p).value))
    decreases end - p
  {
    hide Output, ItemRead, KeepItem, Encode, Size, Readable, Keep;
    if p >= end || buf[p] == END {
      NothingRead();
    } else if Readable(buf, p) {
      var next := p + Size(buf, p);
      SizePositive(buf, p);
      CopyIsRead(buf, end, next);
      CopyStep(buf, end, p);
      if Read(buf, end, next).Some? {
        var Reading(items, ended) := Read(buf, end, next).value;
        OutputIsKept(buf, p);
        KeepOneMore(ItemRead(buf, p), items);
        Assoc(Output(buf, p), Encode(Keep(items)), if ended then [END] else []);
      }
    }
  }

  lemma NothingRead()
    ensures FullServers([]) && ValidItems(Keep([]))
    ensures Written(Reading([], false)) == [] && Written(Reading([], true)) == [END]
  {
  }

  lemma SizePositive(buf: seq<byte>, p: nat)
    ensures Size(buf, p) >= 2
  {
  }

  lemma KeepOneMore(item: Item, items: seq<Item>)
    requires item.Opt? && (item.code == DNS_SERVER ==> |item.data| >= 4) && FullServers(items)
    requires ValidItems(KeepItem(item)) && ValidItems(Keep(items))
    ensures FullServers([item] + items) && ValidItems(Keep([item] + items))
    ensures Encode(Keep([item] + items)) == Encode(KeepItem(item)) + Encode(Keep(items))
  {
    assert ([item] + items)[1..] == items;
    assert Keep([item] + items) == KeepItem(item) + Keep(items);
    hide Keep, Encode, KeepItem;
    EncodeConcat(KeepItem(item), Keep(items));
  }

  lemma {:induction false} NoEndNoParse(items: seq<Item>)
    requires ValidItems(items)
    ensures Parse(Encode(items)) == None
  {
    if items != [] {
      EncodeHead(items);
      HeadOfEncoded(items[0], Encode(items[1..]));
      NoEndNoParse(items[1..]);
    }
  }

  /** Two lists with the same bytes and END behind them are the same list, and no
      list has the bytes of another one and its END. */
  lemma WrittenIff(r: Reading, items: seq<Item>)
    requires FullServers(r.items) && ValidItems(Keep(r.items)) && ValidItems(items)
    ensures Written(r) == Encode(items) + [END] <==> r.ended && Keep(r.items) == items
  {
    hide Keep, Encode, FullServers, Parse;
    ParseEncoded(items, [END]);
    if r.ended {
      ParseEncoded(Keep(r.items), [END]);
    } else {
      NoEndNoParse(Keep(r.items));
      assert Written(r) == Encode(Keep(r.items));
    }
  }

  /** From `p` on, the loop reads, up to an END, a list of options of which the same
      is to be kept as of `items`. */
  predicate Reads(buf: seq<byte>, end: nat, p: nat, items: seq<Item>)
    requires end <= |buf| && FullServers(items)
  {
    var r := Read(buf, end, p);
    r.Some? && r.value.ended && Keep(r.value.items) == Keep(items)
  }

  lemma CopiesIff(buf: seq<byte>, end: nat, p: nat, items: seq<Item>)
    requires end <= |buf| && FullServers(items) && ValidItems(Keep(items))
    ensures Copies(buf, end, p, items) <==> Reads(buf, end, p, items)
  {
    var r := Read(buf, end, p);
    hide Keep, Encode, FullServers, CopyFrom, Read, Written;
    CopyIsRead(buf, end, p);
    if r.Some? {
      WrittenIff(r.value, Keep(items));
    }
  }

  lemma OddRunIff(buf: seq<byte>, end: nat, a: seq<Item>, b: seq<Item>, rest: seq<byte>)
    requires end <= |buf| && ValidItems(a) && ValidItems(b) && EvenPads(a)
    requires FullServers(a) && FullServers(b)
    requires buf[.. end] == Encode(a) + ([PAD] + (Encode(b) + ([END] + rest)))
    ensures var code := |Encode(a)| + 1;
      && code < end && FullServers(a + [Pad] + b) && ValidItems(Keep(a + [Pad] + b))
      && (Copies(buf, end, 0, a + [Pad] + b) <==> Reads(buf, end, code + buf[code] as int + 1, b))
  {
    hide Keep, Encode, EvenPads, FullServers, Copies, Reads;
    CopiesAfterOddPadIff(buf, end, a, b, rest);
    var code := |Encode(a)| + 1;
    CopiesIff(buf, end, code + buf[code] as int + 1, b);
  }

  /** Exactly when the reply is right, for every option area that ends in END and
      names whole name servers: there is no odd run of PADs, or the loop, where the
      code behind the first one sends it, reads up to an END a list of options of
      which the same is to be kept as of the options that follow the run. */
  lemma ReplyRightIff(buf: seq<byte>, end: nat, items: seq<Item>, rest: seq<byte>)
    requires end <= |buf| && ValidItems(items) && FullServers(items)
    requires buf[.. end] == Encode(items) + ([END] + rest)
    ensures ValidItems(Keep(items))
    ensures EvenPads(items) ==> Copies(buf, end, 0, items)
    ensures !EvenPads(items) ==>
      var a, b := items[.. OddPad(items)], items[OddPad(items) + 1 ..];
      var code := |Encode(a)| + 1;
      && code < end && FullServers(b)
      && (Copies(buf, end, 0, items) <==> Reads(buf, end, code + buf[code] as int + 1, b))
  {
    hide Keep, Encode, EvenPads, FullServers, OddPad, Reads;
    KeepFits(items);
    if EvenPads(items) {
      assert buf[0 .. end] == buf[.. end];
      CopyKeeps(buf, end, 0, items, [END] + rest);
    } else {
      hide Copies;
      var k := OddPad(items);
      SplitAt(items, k);
      EncodeAround(items[.. k], items[k + 1 ..], [END] + rest);
      OddRunIff(buf, end, items[.. k], items[k + 1 ..], rest);
    }
  }

  /** A concrete odd run: the message type behind it is lost, and so is END. */
  lemma PadLosesOptions(area: seq<byte>)
    requires area == [PAD, MSG_TYPE, 1, 5, END]
    ensures Parse(area) == Some(Parsed([Pad, Opt(MSG_TYPE, [5])], []))
    ensures CopyFrom(area, |area|, 0) == Some([])
  {
    PadExampleParsed(area);
    var nothing: seq<Item> := [];
    KeepNothing(nothing);
    hide Encode, Keep, CopyFrom, Parse;
    assert area[.. |area|] == Encode(nothing) + ([PAD] + area[1..]);
    OddPadOvershoots(area, |area|, nothing, area[1..]);
  }

  lemma PadExampleParsed(area: seq<byte>)
    requires area == [PAD, MSG_TYPE, 1, 5, END]
    ensures Parse(area) == Some(Parsed([Pad, Opt(MSG_TYPE, [5])], []))
  {
    var items := [Pad, Opt(MSG_TYPE, [5])];
    var none: seq<byte> := [];
    assert items[1..] == [Opt(MSG_TYPE, [5])];
    assert Encode(items[1..]) == [MSG_TYPE, 1, 5];
    assert area == Encode(items) + [END];
    ParseEncoded(items, [END]);
    assert [END][1..] == none;
  }

  // ------------------------------------------------------ short name servers

  /** The address copied for a name server option is the option's own, whatever
      follows it, exactly if the option has four bytes. */
  lemma ServerIsOwnIff(data: seq<byte>)
    requires |data| <= 255
    ensures (exists address: seq<byte> ::
               forall more: seq<byte> | |more| >= 4 ::
                 Output(EncodeItem(Opt(DNS_SERVER, data)) + more, 0) == [DNS_SERVER, 4] + address)
            <==> |data| >= 4
  {
    if |data| >= 4 {
      forall more: seq<byte> | |more| >= 4
        ensures Output(EncodeItem(Opt(DNS_SERVER, data)) + more, 0) == [DNS_SERVER, 4] + data[.. 4]
      {
        ServerOutput(data, more);
        assert (data + more)[.. 4] == data[.. 4];
      }
    } else {
      var zeros, ones: seq<byte> := [0, 0, 0, 0], [1, 1, 1, 1];
      ServerOutput(data, zeros);
      ServerOutput(data, ones);
      assert (data + zeros)[.. 4][3] != (data + ones)[.. 4][3];
      assert ([DNS_SERVER, 4] + (data + zeros)[.. 4])[5] != ([DNS_SERVER, 4] + (data + ones)[.. 4])[5];
    }
  }

  lemma ServerOutput(data: seq<byte>, more: seq<byte>)
    requires |data| <= 255 && |more| >= 4
    ensures Output(EncodeItem(Opt(DNS_SERVER, data)) + more, 0) == [DNS_SERVER, 4] + (data + more)[.. 4]
  {
    var buf := EncodeItem(Opt(DNS_SERVER, data)) + more;
    assert buf == [DNS_SERVER, |data|] + (data + more);
    assert buf[2 .. 6] == (data + more)[.. 4];
  }

  /** A concrete short option: the client is given an address made up from the
      option behind it, in a reply longer than the original. */
  lemma ShortServerReadsOn(area: seq<byte>)
    requires area == [DNS_SERVER, 1, 9, MSG_TYPE, 1, 5, END]
    ensures CopyFrom(area, |area|, 0)
         == Some([DNS_SERVER, 4, 9, MSG_TYPE, 1, 5] + [MSG_TYPE, 1, 5] + [END])
  {
    CopyStops(area, 7, 6, [END]);
    ShortServerBytes(area);
    hide CopyFrom, Output, Readable, Size;
    CopyStep(area, 7, 3);
    CopyStep(area, 7, 0);
    Assoc([DNS_SERVER, 4, 9, MSG_TYPE, 1, 5], [MSG_TYPE, 1, 5], [END]);
  }

  lemma ShortServerBytes(area: seq<byte>)
    requires area == [DNS_SERVER, 1, 9, MSG_TYPE, 1, 5, END]
    ensures Readable(area, 0) && Size(area, 0) == 3
    ensures Output(area, 0) == [DNS_SERVER, 4, 9, MSG_TYPE, 1, 5]
    ensures Readable(area, 3) && Size(area, 3) == 3 && Output(area, 3) == [MSG_TYPE, 1, 5]
  {
    var address, expected := area[2 .. 6], [9, MSG_TYPE, 1, 5];
    assert address[0] == expected[0];
    assert address[1] == expected[1];
    assert address[2] == expected[2];
    assert address[3] == expected[3];
    assert address == expected;
    assert area[3 .. 6] == [MSG_TYPE, 1, 5];
  }

  // ------------------------------------------------------ how long the copy is

  /** Bytes the copy loop writes for an item. */
  function ItemLength(item: Item): nat {
    if item.Pad? then 0
    else if Copied(item.code) then |item.data| + 2
    else if item.code == DNS_SERVER then 6
    else 0
  }

  function CopiedLength(items: seq<Item>): nat {
    if items == [] then 0 else ItemLength(items[0]) + CopiedLength(items[1..])
  }

  lemma LengthHead(buf: seq<byte>, p: nat, end: nat, items: seq<Item>, tail: seq<byte>)
    requires p <= end <= |buf| && items != [] && items[0].Opt? && ValidItems(items) && tail != []
    requires buf[p .. end] == Encode(items) + tail
    ensures var next := p + |EncodeItem(items[0])|;
      && p < next < end && buf[p] != END && Size(buf, p) == next - p
      && buf[next .. end] == Encode(items[1..]) + tail
      && (end + 3 <= |buf| ==> Readable(buf, p))
      && (Readable(buf, p) ==> |Output(buf, p)| == ItemLength(items[0]))
  {
    var item, n := items[0], |EncodeItem(items[0])|;
    HeadArea(buf, p, end, items, tail);
    hide Encode;
    assert buf[p .. p + n][0] == buf[p] == item.code;
    assert buf[p .. p + n][1] == buf[p + 1] == |item.data|;
  }

  /** On every area with PADs in runs of even length, whole name servers or not,
      the copy is as long as `CopiedLength` says, and an END. */
  lemma {:induction false} CopyLength(buf: seq<byte>, end: nat, p: nat, items: seq<Item>, tail: seq<byte>)
    requires p <= end <= |buf| && ValidItems(items) && EvenPads(items) && StartsWithEnd(tail)
    requires buf[p .. end] == Encode(items) + tail
    ensures end + 3 <= |buf| ==> CopyFrom(buf, end, p).Some?
    ensures CopyFrom(buf, end, p).Some? ==> |CopyFrom(buf, end, p).value| == CopiedLength(items) + 1
    decreases |items|
  {
    hide CopyFrom, EncodeItem, Encode, Readable, Output, Size;
    if items == [] {
      NoItems(items, tail);
      CopyStops(buf, end, p, tail);
    } else if items[0].Opt? {
      LengthHead(buf, p, end, items, tail);
      CopyLength(buf, end, p + |EncodeItem(items[0])|, items[1..], tail);
      if Readable(buf, p) {
        CopyStep(buf, end, p);
      } else if CopyFrom(buf, end, p).Some? {
        CopyUnfold(buf, end, p);
      }
    } else {
      CopyPadPair(buf, p, end, items, tail);
      CopyLength(buf, end, p + 2, items[2..], tail);
      ThenNothing(CopyFrom(buf, end, p + 2));
      assert items[1..][1..] == items[2..];
    }
  }

  lemma NoItems(items: seq<Item>, tail: seq<byte>)
    requires items == []
    ensures Encode(items) + tail == tail
  {
  }

  /** Only short name servers can make the copy longer than the original. */
  lemma {:induction false} CopyNoLonger(items: seq<Item>)
    requires ValidItems(items) && FullServers(items)
    ensures CopiedLength(items) <= |Encode(items)|
  {
    if items != [] {
      EncodeHead(items);
      CopyNoLonger(items[1..]);
    }
  }

  function EmptyServers(k: nat): seq<Item> {
    seq(k, _ => Opt(DNS_SERVER, []))
  }

  lemma {:induction false} EmptyServersGrow(k: nat)
    ensures ValidItems(EmptyServers(k)) && EvenPads(EmptyServers(k))
    ensures |Encode(EmptyServers(k))| == 2 * k && CopiedLength(EmptyServers(k)) == 6 * k
  {
    if k > 0 {
      assert EmptyServers(k)[1..] == EmptyServers(k - 1);
      EmptyServersGrow(k - 1);
    }
  }
}
