/** The Linux `struct epoll_event` as epoll-spy sees it: a 12-byte packed
    image holding a `u32` events mask and the `epoll_data` union, decoded into
    the `EpollEvent`/`EpollData` types and rendered by their `Display` impls. */
module EpollEvent {
  import opened Wrappers
  import opened Bytes
  import opened Decimal
  import opened Text
  import opened Events

  /** The raw `[u8; 12]` image of a packed `struct epoll_event`. */
  type EventImage = s: seq<byte> | |s| == 12 witness [0, 0, 0, 0, 0, 0, 0, 0, 0, 0, 0, 0]

  /** The `epoll_data` union, always written through its `u64` arm. */
  datatype EpollData = EpollData(uint64: U64) {
    /** The `u32` arm of the same storage: the low half of the `u64` on a
        little-endian machine. */
    function Uint32(): U32 {
      uint64 % TWO_32
    }
  }

  datatype EpollEvent = EpollEvent(events: bv32, data: EpollData)

  /** The packed image of an event whose mask is `events` and whose data is `data`. */
  function EncodeEvent(events: U32, data: U64): (img: EventImage)
  {
    U32Bytes(events) + U64Bytes(data)
  }

  /** The decoding both `EpollCtl::new` variants apply to the event bytes: the
      mask is the little-endian `u32` at bytes 0..3 passed through
      `from_bits(..).unwrap_or_default()`, the data the little-endian `u64` at
      bytes 4..11. */
  function DecodeEvent(img: EventImage): (e: EpollEvent)
    ensures e.data.Uint32() == LeValue(img[4..8])
    ensures e.events & !DeclaredMask == 0
  {
    assert img[4..][..4] == img[4..8];
    LowHalf(img[4..]);
    EpollEvent(FromBits(LeU32(img[..4])), EpollData(LeU64(img[4..])))
  }

  /** Decoding the image of a mask and a data value yields that data value and
      the mask as `from_bits` accepts it. */
  lemma DecodeEncodeEvent(events: U32, data: U64)
    ensures DecodeEvent(EncodeEvent(events, data)) == EpollEvent(FromBits(events), EpollData(data))
  {
    var img := EncodeEvent(events, data);
    assert img[..4] == U32Bytes(events);
    assert img[4..] == U64Bytes(data);
  }

  /** Every image is the encoding of the values read from it. */
  lemma EncodeDecodeEvent(img: EventImage)
    ensures EncodeEvent(LeU32(img[..4]), LeU64(img[4..])) == img
  {
    LeValueInjective(U32Bytes(LeU32(img[..4])), img[..4]);
    LeValueInjective(U64Bytes(LeU64(img[4..])), img[4..]);
    assert img == img[..4] + img[4..];
  }

  /** `Display for EpollData`: both arms of the union. */
  function RenderData(d: EpollData): string {
    "{ u32: " + NatToString(d.Uint32()) + ", u64: " + NatToString(d.uint64) + " }"
  }

  /** `Display for EpollEvent`. */
  function RenderEvent(e: EpollEvent): string {
    "{ events={ " + Render(e.events) + " }, data=" + RenderData(e.data) + " }"
  }

  /** What can be read back from a rendered event. */
  datatype EventText = EventText(names: seq<string>, uint32: nat, uint64: nat)

  /** Reads a rendered event back: the flag names and both union views. */
  function ParseEvent(s: string): Option<EventText> {
    var r1 :- Expect(s, "{ events={ ");
    var k := PrefixWhile(r1, NotCloseBrace);
    if k == 0 || r1[k - 1] != ' ' then None
    else
      var names :- SplitBar(r1[..k - 1], IsNameChar);
      var views :- ParseViews(r1[k..]);
      Some(EventText(names, views.0, views.1))
  }

  /** Reads the rendered data views that close an event. */
  function ParseViews(s: string): Option<(nat, nat)> {
    var r1 :- Expect(s, "}, data={ u32: ");
    var t1 :- TakeNat(r1);
    var r2 :- Expect(t1.1, ", u64: ");
    var t2 :- TakeNat(r2);
    var r3 :- Expect(t2.1, " } }");
    if r3 == "" then Some((t1.0, t2.0)) else None
  }

  lemma ParseRenderViews(d: EpollData)
    ensures ParseViews("}, data=" + RenderData(d) + " }") == Some((d.Uint32(), d.uint64))
  {
    var x, y := NatToString(d.Uint32()), NatToString(d.uint64);
    var tail2 := y + " } }";
    var tail1 := x + (", u64: " + tail2);
    assert "}, data=" + RenderData(d) + " }" == "}, data={ u32: " + tail1;
    ExpectConcat("}, data={ u32: ", tail1);
    TakeNatOf(d.Uint32(), ", u64: " + tail2);
    ExpectConcat(", u64: ", tail2);
    TakeNatOf(d.uint64, " } }");
    ExpectConcat(" } }", "");
    assert " } }" + "" == " } }";
  }

  /** Reading a rendered event gives back its flag names and both data views. */
  lemma ParseRenderEvent(e: EpollEvent)
    ensures ParseEvent(RenderEvent(e)) == Some(EventText(FlagNames(e.events), e.data.Uint32(), e.data.uint64))
  {
    RenderLacksBraces(e.events);
    RenderSplits(e.events);
    ParseEventOf(Render(e.events), FlagNames(e.events), e.data);
  }

  /** The reading of an event text, for any flag text without a closing brace. */
  lemma ParseEventOf(flags: string, names: seq<string>, d: EpollData)
    requires AllOf(flags, NotCloseBrace)
    requires SplitBar(flags, IsNameChar) == Some(names)
    ensures ParseEvent("{ events={ " + flags + " }, data=" + RenderData(d) + " }")
      == Some(EventText(names, d.Uint32(), d.uint64))
  {
    var afterBrace := "}, data=" + RenderData(d) + " }";
    var r1 := (flags + " ") + afterBrace;
    EventPieces(flags, RenderData(d));
    ExpectConcat("{ events={ ", r1);
    FlagTextScan(flags, afterBrace);
    ParseRenderViews(d);
  }

  /** The scan for the closing brace stops right after the flag text and its
      trailing space. */
  lemma FlagTextScan(flags: string, after: string)
    requires AllOf(flags, NotCloseBrace)
    requires |after| > 0 && after[0] == '}'
    ensures var r := (flags + " ") + after;
      && PrefixWhile(r, NotCloseBrace) == |flags| + 1
      && r[|flags|] == ' ' && r[..|flags|] == flags && r[|flags| + 1..] == after
  {
    var r := (flags + " ") + after;
    assert AllOf(" ", NotCloseBrace);
    AllOfConcat(flags, " ", NotCloseBrace);
    PrefixWhileConcat(flags + " ", after, NotCloseBrace);
    assert r[..|flags| + 1] == flags + " ";
    assert r[..|flags|] == flags;
  }

  /** Regrouping an event text so that the flag text and the closing part are
      read off in turn. */
  lemma EventPieces(flags: string, data: string)
    ensures "{ events={ " + flags + " }, data=" + data + " }"
      == "{ events={ " + ((flags + " ") + ("}, data=" + data + " }"))
  {
  }

  /** Decoded events render injectively: two events with the same text are the
      same event. */
  lemma RenderEventInjective(e1: EpollEvent, e2: EpollEvent)
    requires e1.events & !DeclaredMask == 0 && e2.events & !DeclaredMask == 0
    requires RenderEvent(e1) == RenderEvent(e2)
    ensures e1 == e2
  {
    ParseRenderEvent(e1);
    ParseRenderEvent(e2);
    FlagNamesRoundTrip(e1.events);
    FlagNamesRoundTrip(e2.events);
    NoUndeclared(e1.events);
    NoUndeclared(e2.events);
  }

  lemma NoUndeclared(m: bv32)
    requires m & !DeclaredMask == 0
    ensures m & DeclaredMask == m
  {
  }

  /** The `u32` view shows the low half of the `u64` view: for data written
      through `uint64`, the two rendered numbers agree modulo 2^32. */
  lemma DataViewsAgree(img: EventImage)
    ensures DecodeEvent(img).data.Uint32() == DecodeEvent(img).data.uint64 % TWO_32
    ensures DecodeEvent(img).data.Uint32() == LeValue(img[4..8])
    ensures DecodeEvent(img).data.uint64 == LeValue(img[4..])
  {
  }
}
