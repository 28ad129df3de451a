/** From BlueZ's device properties to the two advertisement forms: the raw AD stream of
    src/raw_adv.rs and the legacy message of src/ble.rs.

    A dictionary is the sequence of its entries in iteration order; a property or key of the wrong
    type is one the program's downcasts refuse. */
module Advertisement {
  import opened Words
  import opened Uuid
  import opened AdData

  type i16 = x: int | -0x8000 <= x < 0x8000

  datatype Key = TextKey(text: Str) | IdKey(id: u16) | OtherKey

  datatype Entry = Entry(key: Key, data: Option<seq<u8>>)

  datatype Property = Text(s: Str) | Texts(ss: seq<Str>) | Dict(entries: seq<Entry>) | Int16(n: i16) | OtherValue

  type Props = map<string, Property>

  function TextAt(props: Props, k: string): Option<Str> {
    if k in props && props[k].Text? then Some(props[k].s) else None
  }

  function Int16At(props: Props, k: string): Option<i16> {
    if k in props && props[k].Int16? then Some(props[k].n) else None
  }

  /** Absent and ill-typed properties count as empty, in both forms. */
  function TextsAt(props: Props, k: string): seq<Str> {
    if k in props && props[k].Texts? then props[k].ss else []
  }

  function EntriesAt(props: Props, k: string): seq<Entry> {
    if k in props && props[k].Dict? then props[k].entries else []
  }

  // ---- The structures the raw form pushes ----

  const LOCAL_NAME: u8 := 0x09
  const TX_POWER: u8 := 0x0A
  const MANUFACTURER: u8 := 0xFF

  /** Complete list of 16-, 32- and 128-bit service UUIDs, by width in bytes. */
  function ListType(w: nat): u8 {
    if w == 2 then 0x03 else if w == 4 then 0x05 else 0x07
  }

  function ServiceType(w: nat): u8 {
    if w == 2 then 0x16 else if w == 4 then 0x20 else 0x21
  }

  /** The parseable UUIDs, in order. */
  function Parsed(uuids: seq<Str>): seq<Bytes16> {
    if uuids == [] then []
    else Parsed(uuids[..|uuids| - 1]) + match UuidBytes(uuids[|uuids| - 1]) case Some(b) => [b] case None => []
  }

  function OfWidth(bs: seq<Bytes16>, w: nat): seq<Bytes16> {
    if bs == [] then []
    else OfWidth(bs[..|bs| - 1], w) + if Width(Shrink(bs[|bs| - 1])) == w then [bs[|bs| - 1]] else []
  }

  function LeConcat(bs: seq<Bytes16>): seq<u8> {
    if bs == [] then [] else LeConcat(bs[..|bs| - 1]) + LeBytes(Shrink(bs[|bs| - 1]))
  }

  function ListAd(bs: seq<Bytes16>, w: nat): seq<Ad> {
    if OfWidth(bs, w) == [] then [] else [Ad(ListType(w), LeConcat(OfWidth(bs, w)))]
  }

  function ListAds(bs: seq<Bytes16>): seq<Ad> {
    ListAd(bs, 2) + ListAd(bs, 4) + ListAd(bs, 16)
  }

  function ServiceAd(e: Entry): (r: seq<Ad>)
    ensures |r| <= 1
  {
    if e.key.TextKey? && e.data.Some? && ParseUuid(e.key.text).Some? then
      var u := ParseUuid(e.key.text).value;
      [Ad(ServiceType(Width(u)), LeBytes(u) + e.data.value)]
    else []
  }

  function ServiceAds(es: seq<Entry>): seq<Ad> {
    if es == [] then [] else ServiceAds(es[..|es| - 1]) + ServiceAd(es[|es| - 1])
  }

  function ManufacturerAd(e: Entry): (r: seq<Ad>)
    ensures |r| <= 1
  {
    if e.key.IdKey? && e.data.Some? then [Ad(MANUFACTURER, LeBytes(Bit16(e.key.id)) + e.data.value)] else []
  }

  function ManufacturerAds(es: seq<Entry>): seq<Ad> {
    if es == [] then [] else ManufacturerAds(es[..|es| - 1]) + ManufacturerAd(es[|es| - 1])
  }

  function NameAds(props: Props): seq<Ad> {
    match TextAt(props, "Name") case Some(s) => [Ad(LOCAL_NAME, s)] case None => []
  }

  function TxAds(props: Props): seq<Ad> {
    match Int16At(props, "TxPower")
    case Some(n) => if -0x80 <= n < 0x80 then [Ad(TX_POWER, [n % 0x100])] else []
    case None => []
  }

  function AdList(props: Props): seq<Ad> {
    NameAds(props) + ListAds(Parsed(TextsAt(props, "UUIDs"))) + ServiceAds(EntriesAt(props, "ServiceData"))
    + ManufacturerAds(EntriesAt(props, "ManufacturerData")) + TxAds(props)
  }

  // ---- The encoder ----

  /** The payload of the list of width w. */
  function ListLe(uuids: seq<Str>, w: nat): seq<u8> {
    LeConcat(OfWidth(Parsed(uuids), w))
  }

  lemma NoUuids(uuids: seq<Str>)
    ensures forall w :: ListLe(uuids[..0], w) == []
  {
  }

  function ListBytes(bs: seq<Bytes16>, w: nat): seq<u8> {
    var payload := LeConcat(OfWidth(bs, w));
    if payload == [] then [] else AdBytes(Ad(ListType(w), payload))
  }

  lemma AtMostOne(ads: seq<Ad>)
    requires |ads| <= 1
    ensures AdsBytes(ads) == if ads == [] then [] else AdBytes(ads[0])
  {
    if ads != [] { assert ads[1..] == []; }
  }

  lemma LeConcatEmpty(bs: seq<Bytes16>)
    ensures LeConcat(bs) == [] <==> bs == []
  {
    if bs != [] { assert |LeBytes(Shrink(bs[|bs| - 1]))| > 0; }
  }

  lemma ListAdsBytes(bs: seq<Bytes16>)
    ensures AdsBytes(ListAds(bs)) == ListBytes(bs, 2) + ListBytes(bs, 4) + ListBytes(bs, 16)
  {
    hide AdsBytes, OfWidth, LeConcat;
    AdsBytesAppends(ListAd(bs, 2), ListAd(bs, 4));
    AdsBytesAppends(ListAd(bs, 2) + ListAd(bs, 4), ListAd(bs, 16));
    forall w | w in {2, 4, 16} ensures AdsBytes(ListAd(bs, w)) == ListBytes(bs, w) {
      AtMostOne(ListAd(bs, w));
      LeConcatEmpty(OfWidth(bs, w));
    }
  }

  lemma WidthGrows(bs: seq<Bytes16>, b: Bytes16, w: nat)
    ensures LeConcat(OfWidth(bs + [b], w))
         == LeConcat(OfWidth(bs, w)) + if Width(Shrink(b)) == w then LeBytes(Shrink(b)) else []
  {
    hide Shrink, LeBytes;
    assert (bs + [b])[..|bs|] == bs;
    var kept := OfWidth(bs, w);
    assert (kept + [b])[..|kept|] == kept;
    assert kept + [] == kept && LeConcat(kept) + [] == LeConcat(kept);
  }

  lemma ListGrows(uuids: seq<Str>, uuid: Str)
    ensures forall w | w in {2, 4, 16} ::
              LeConcat(OfWidth(Parsed(uuids + [uuid]), w)) == LeConcat(OfWidth(Parsed(uuids), w)) +
              match ParseUuid(uuid) case Some(u) => (if Width(u) == w then LeBytes(u) else []) case None => []
  {
    hide OfWidth, LeConcat, Shrink, UuidBytes, LeBytes;
    assert (uuids + [uuid])[..|uuids|] == uuids;
    var bs := Parsed(uuids);
    match UuidBytes(uuid)
    case None => assert bs + [] == bs;
    case Some(b) => forall w | w in {2, 4, 16} { WidthGrows(bs, b, w); }
  }

  /** One more string of the loop. */
  lemma ListStep(uuids: seq<Str>, i: nat)
    requires i < |uuids|
    ensures ParseOutcome(uuids[i]) == SliceAbort <==> UuidAborts(uuids[i])
    ensures !UuidAborts(uuids[i]) ==>
              var r := ParseOutcome(uuids[i]);
              var next := if r.Form? then LeBytes(r.uuid) else [];
              && ListLe(uuids[..i + 1], 2) == ListLe(uuids[..i], 2) + (if r.Form? && r.uuid.Bit16? then next else [])
              && ListLe(uuids[..i + 1], 4) == ListLe(uuids[..i], 4) + (if r.Form? && r.uuid.Bit32? then next else [])
              && ListLe(uuids[..i + 1], 16) == ListLe(uuids[..i], 16) + (if r.Form? && r.uuid.Bit128? then next else [])
  {
    hide Parsed, OfWidth, LeConcat, ParseUuid, UuidAborts, LeBytes;
    ListGrows(uuids[..i], uuids[i]);
    assert uuids[..i + 1] == uuids[..i] + [uuids[i]];
  }

  lemma ListsPushed(uuids: seq<Str>)
    ensures AdsBytes(ListAds(Parsed(uuids))) ==
            (if ListLe(uuids, 2) == [] then [] else AdBytes(Ad(0x03, ListLe(uuids, 2))))
            + (if ListLe(uuids, 4) == [] then [] else AdBytes(Ad(0x05, ListLe(uuids, 4))))
            + (if ListLe(uuids, 16) == [] then [] else AdBytes(Ad(0x07, ListLe(uuids, 16))))
  {
    hide Parsed, OfWidth, LeConcat, AdsBytes, ListAds, AdBytes;
    ListAdsBytes(Parsed(uuids));
  }

  /** False stands for the abort of a UUID string's slicing, here and below. */
  method PushUuidListAd(out: ByteVec, uuids: seq<Str>) returns (ok: bool)
    modifies out
    ensures ok <==> forall i | 0 <= i < |uuids| :: !UuidAborts(uuids[i])
    ensures ok ==> out.data == old(out.data) + AdsBytes(ListAds(Parsed(uuids)))
  {
    hide ListLe, Parsed, AdsBytes, ListAds, AdBytes, ParseOutcome, UuidAborts, LeBytes;
    var bit16: seq<u8>, bit32: seq<u8>, bit128: seq<u8> := [], [], [];
    NoUuids(uuids);
    for i := 0 to |uuids|
      invariant bit16 == ListLe(uuids[..i], 2) && bit32 == ListLe(uuids[..i], 4) && bit128 == ListLe(uuids[..i], 16)
      invariant out.data == old(out.data)
      invariant forall k | 0 <= k < i :: !UuidAborts(uuids[k])
    {
      var u := ParseUuidString(uuids[i]);
      ListStep(uuids, i);
      match u {
        case Form(Bit16(_)) => bit16 := bit16 + LeBytes(u.uuid);
        case Form(Bit32(_)) => bit32 := bit32 + LeBytes(u.uuid);
        case Form(Bit128(_)) => bit128 := bit128 + LeBytes(u.uuid);
        case Rejected =>
        case SliceAbort => return false;
      }
    }
    assert uuids[..|uuids|] == uuids;
    ListsPushed(uuids);
    if bit16 != [] { out.PushAd(0x03, bit16); }
    if bit32 != [] { out.PushAd(0x05, bit32); }
    if bit128 != [] { out.PushAd(0x07, bit128); }
    return true;
  }

  predicate EntryAborts(e: Entry) {
    e.key.TextKey? && e.data.Some? && UuidAborts(e.key.text)
  }

  lemma ServiceOf(e: Entry)
    ensures !EntryAborts(e) ==>
              var r := if e.key.TextKey? && e.data.Some? then ParseOutcome(e.key.text) else Rejected;
              ServiceAd(e) ==
              match r
              case Form(Bit16(id)) => [Ad(0x16, LeBytes(Bit16(id)) + e.data.value)]
              case Form(Bit32(id)) => [Ad(0x20, LeBytes(Bit32(id)) + e.data.value)]
              case Form(Bit128(b)) => [Ad(0x21, LeBytes(Bit128(b)) + e.data.value)]
              case _ => []
    ensures EntryAborts(e) <==> e.key.TextKey? && e.data.Some? && ParseOutcome(e.key.text) == SliceAbort
  {
    hide ParseUuid, LeBytes, UuidAborts;
  }

  lemma ServicesGrow(base: seq<u8>, es: seq<Entry>, i: nat)
    requires i < |es|
    ensures base + AdsBytes(ServiceAds(es[..i + 1])) ==
            var before := base + AdsBytes(ServiceAds(es[..i]));
            if ServiceAd(es[i]) == [] then before else before + AdBytes(ServiceAd(es[i])[0])
  {
    hide AdsBytes, AdBytes, ServiceAd;
    assert es[..i + 1][..i] == es[..i];
    AdsBytesAppends(ServiceAds(es[..i]), ServiceAd(es[i]));
    AtMostOne(ServiceAd(es[i]));
  }

  method PushServiceDataAd(out: ByteVec, entries: seq<Entry>) returns (ok: bool)
    modifies out
    ensures ok <==> forall e | e in entries :: !EntryAborts(e)
    ensures ok ==> out.data == old(out.data) + AdsBytes(ServiceAds(entries))
  {
    assert AdsBytes(ServiceAds(entries[..0])) == [];
    hide AdsBytes, ServiceAds, AdBytes, Shrink, UuidBytes, UuidAborts, ParseOutcome, LeBytes, ServiceAd, EntryAborts;
    ghost var base := out.data;
    for i := 0 to |entries|
      invariant out.data == base + AdsBytes(ServiceAds(entries[..i]))
      invariant forall e | e in entries[..i] :: !EntryAborts(e)
    {
      var e := entries[i];
      ServicesGrow(base, entries, i);
      ServiceOf(e);
      if e.key.TextKey? && e.data.Some? {
        var u := ParseUuidString(e.key.text);
        match u {
          case Form(Bit16(_)) => out.PushAd(0x16, LeBytes(u.uuid) + e.data.value);
          case Form(Bit32(_)) => out.PushAd(0x20, LeBytes(u.uuid) + e.data.value);
          case Form(Bit128(_)) => out.PushAd(0x21, LeBytes(u.uuid) + e.data.value);
          case Rejected =>
          case SliceAbort => return false;
        }
      }
    }
    assert entries[..|entries|] == entries;
    return true;
  }

  lemma ManufacturersGrow(base: seq<u8>, es: seq<Entry>, i: nat)
    requires i < |es|
    ensures base + AdsBytes(ManufacturerAds(es[..i + 1])) ==
            var before := base + AdsBytes(ManufacturerAds(es[..i]));
            if ManufacturerAd(es[i]) == [] then before else before + AdBytes(ManufacturerAd(es[i])[0])
  {
    hide AdsBytes, AdBytes, ManufacturerAd;
    assert es[..i + 1][..i] == es[..i];
    AdsBytesAppends(ManufacturerAds(es[..i]), ManufacturerAd(es[i]));
    AtMostOne(ManufacturerAd(es[i]));
  }

  method PushManufacturerDataAd(out: ByteVec, entries: seq<Entry>)
    modifies out
    ensures out.data == old(out.data) + AdsBytes(ManufacturerAds(entries))
  {
    assert AdsBytes(ManufacturerAds(entries[..0])) == [];
    hide AdsBytes, ManufacturerAds, AdBytes;
    ghost var base := out.data;
    for i := 0 to |entries|
      invariant out.data == base + AdsBytes(ManufacturerAds(entries[..i]))
    {
      var e := entries[i];
      ManufacturersGrow(base, entries, i);
      if e.key.IdKey? && e.data.Some? {
        out.PushAd(MANUFACTURER, LeBytes(Bit16(e.key.id)) + e.data.value);
      }
    }
    assert entries[..|entries|] == entries;
  }

  predicate RawAborts(props: Props) {
    ("UUIDs" in props && props["UUIDs"].Texts? && exists s :: s in props["UUIDs"].ss && UuidAborts(s)) ||
    ("ServiceData" in props && props["ServiceData"].Dict? &&
     exists e :: e in props["ServiceData"].entries && EntryAborts(e))
  }

  lemma AdsBytesOfNone()
    ensures AdsBytes([]) == []
  {
  }

  lemma AdListBytes(props: Props)
    ensures AdsBytes(AdList(props)) ==
            AdsBytes(NameAds(props)) + AdsBytes(ListAds(Parsed(TextsAt(props, "UUIDs"))))
            + AdsBytes(ServiceAds(EntriesAt(props, "ServiceData")))
            + AdsBytes(ManufacturerAds(EntriesAt(props, "ManufacturerData"))) + AdsBytes(TxAds(props))
  {
    hide AdsBytes, NameAds, ListAds, ServiceAds, ManufacturerAds, TxAds;
    var a, b := NameAds(props), ListAds(Parsed(TextsAt(props, "UUIDs")));
    var c, d := ServiceAds(EntriesAt(props, "ServiceData")), ManufacturerAds(EntriesAt(props, "ManufacturerData"));
    AdsBytesAppends(a, b);
    AdsBytesAppends(a + b, c);
    AdsBytesAppends(a + b + c, d);
    AdsBytesAppends(a + b + c + d, TxAds(props));
  }

  method BuildRawAdvertisementData(props: Props) returns (data: Option<seq<u8>>)
    ensures data == if RawAborts(props) then None else Some(AdsBytes(AdList(props)))
  {
    hide AdsBytes, AdBytes, ListAds, ServiceAds, ManufacturerAds, Parsed, UuidAborts, EntryAborts;
    AdsBytesOfNone();
    var out := new ByteVec();
    var name := TextAt(props, "Name");
    AtMostOne(NameAds(props));
    if name.Some? { out.PushAd(LOCAL_NAME, name.value); }
    assert out.data == AdsBytes(NameAds(props));
    var ok := PushUuidListAd(out, TextsAt(props, "UUIDs"));
    if !ok {
      return None;
    }
    ok := PushServiceDataAd(out, EntriesAt(props, "ServiceData"));
    if !ok {
      return None;
    }
    PushManufacturerDataAd(out, EntriesAt(props, "ManufacturerData"));
    var tx := Int16At(props, "TxPower");
    AtMostOne(TxAds(props));
    ghost var before := out.data;
    if tx.Some? && -0x80 <= tx.value < 0x80 { out.PushAd(TX_POWER, [tx.value % 0x100]); }
    assert out.data == before + AdsBytes(TxAds(props));
    hide NameAds, TxAds;
    AdListBytes(props);
    return Some(out.data);
  }

  // ---- The exact limits ----

  function DataLimit(u: ShortUuid): nat {
    match u case Bit16(_) => 252 case Bit32(_) => 250 case Bit128(_) => 238
  }

  predicate ServiceFits(e: Entry) {
    e.key.TextKey? && e.data.Some? && ParseUuid(e.key.text).Some? ==>
      |e.data.value| <= DataLimit(ParseUuid(e.key.text).value)
  }

  predicate ManufacturerFits(e: Entry) {
    e.key.IdKey? && e.data.Some? ==> |e.data.value| <= 252
  }

  /** How many of the first n strings are UUIDs of width w. */
  function Rank(ss: seq<Str>, n: nat, w: nat): nat
    requires n <= |ss|
  {
    if n == 0 then 0
    else Rank(ss, n - 1, w) +
         match UuidBytes(ss[n - 1])
         case Some(b) => if Width(Shrink(b)) == w then 1 else 0
         case None => 0
  }

  lemma OneMore(ss: seq<Str>, n: nat, w: nat)
    requires n < |ss|
    ensures OfWidth(Parsed(ss[..n + 1]), w) == OfWidth(Parsed(ss[..n]), w) +
            match UuidBytes(ss[n]) case Some(b) => (if Width(Shrink(b)) == w then [b] else []) case None => []
  {
    hide Shrink, UuidBytes, Width;
    assert ss[..n + 1][..n] == ss[..n];
    var bs := Parsed(ss[..n]);
    match UuidBytes(ss[n])
    case Some(b) => assert (bs + [b])[..|bs|] == bs;
    case None => assert bs + [] == bs && OfWidth(bs, w) + [] == OfWidth(bs, w);
  }

  lemma {:induction false} RankCounts(ss: seq<Str>, n: nat, w: nat)
    requires n <= |ss|
    ensures |OfWidth(Parsed(ss[..n]), w)| == Rank(ss, n, w)
  {
    if n > 0 {
      hide OfWidth, Parsed, Shrink, UuidBytes, Width;
      RankCounts(ss, n - 1, w);
      OneMore(ss, n - 1, w);
    } else {
      assert ss[..0] == [];
    }
  }

  lemma {:induction false} EarlierFirst(ss: seq<Str>, m: nat, n: nat, w: nat)
    requires m <= n <= |ss|
    ensures OfWidth(Parsed(ss[..m]), w) <= OfWidth(Parsed(ss[..n]), w)
  {
    if m < n {
      hide OfWidth, Parsed, Shrink, UuidBytes, Width;
      EarlierFirst(ss, m, n - 1, w);
      OneMore(ss, n - 1, w);
    }
  }

  /** The i-th string, if it is a UUID of width w, stands in its list behind those before it. */
  lemma InItsPlace(ss: seq<Str>, i: nat, b: Bytes16, w: nat)
    requires i < |ss| && UuidBytes(ss[i]) == Some(b) && Width(Shrink(b)) == w
    ensures var list := OfWidth(Parsed(ss), w); Rank(ss, i, w) < |list| && list[Rank(ss, i, w)] == b
  {
    hide OfWidth, Parsed, Shrink, UuidBytes, Width, Rank;
    assert ss[..|ss|] == ss;
    OneMore(ss, i, w);
    RankCounts(ss, i, w);
    EarlierFirst(ss, i + 1, |ss|, w);
    var before, list := OfWidth(Parsed(ss[..i]), w), OfWidth(Parsed(ss), w);
    assert before + [b] <= list;
    assert list[|before|] == (before + [b])[|before|];
  }

  lemma RankAll(ss: seq<Str>, w: nat)
    ensures |OfWidth(Parsed(ss), w)| == Rank(ss, |ss|, w)
  {
    assert ss[..|ss|] == ss;
    RankCounts(ss, |ss|, w);
  }

  predicate InLimits(props: Props) {
    && ("Name" in props && props["Name"].Text? ==> |props["Name"].s| <= 254)
    && ("UUIDs" in props && props["UUIDs"].Texts? ==>
          var ss := props["UUIDs"].ss; Rank(ss, |ss|, 2) <= 127 && Rank(ss, |ss|, 4) <= 63 && Rank(ss, |ss|, 16) <= 15)
    && ("ServiceData" in props && props["ServiceData"].Dict? ==>
          forall e | e in props["ServiceData"].entries :: ServiceFits(e))
    && ("ManufacturerData" in props && props["ManufacturerData"].Dict? ==>
          forall e | e in props["ManufacturerData"].entries :: ManufacturerFits(e))
  }

  lemma ShortOne(ads: seq<Ad>)
    requires |ads| <= 1
    ensures Short(ads) <==> ads == [] || |ads[0].payload| <= 254
  {
  }

  lemma NameAndTxShort(props: Props)
    ensures Short(NameAds(props)) <==> (TextAt(props, "Name").Some? ==> |TextAt(props, "Name").value| <= 254)
    ensures Short(TxAds(props))
  {
    ShortOne(NameAds(props));
    ShortOne(TxAds(props));
  }

  lemma ShortAppends(a: seq<Ad>, b: seq<Ad>)
    ensures Short(a + b) <==> Short(a) && Short(b)
  {
    assert forall i | 0 <= i < |a| :: (a + b)[i] == a[i];
    assert forall i | 0 <= i < |b| :: (a + b)[|a| + i] == b[i];
  }

  lemma {:induction false} OfWidthWidth(bs: seq<Bytes16>, w: nat)
    ensures forall i | 0 <= i < |OfWidth(bs, w)| :: Width(Shrink(OfWidth(bs, w)[i])) == w
  {
    if bs != [] { OfWidthWidth(bs[..|bs| - 1], w); }
  }

  lemma {:induction false} LeConcatLength(bs: seq<Bytes16>, w: nat)
    requires forall i | 0 <= i < |bs| :: Width(Shrink(bs[i])) == w
    ensures |LeConcat(bs)| == |bs| * w
  {
    if bs != [] {
      LeConcatLength(bs[..|bs| - 1], w);
      assert |bs| * w == (|bs| - 1) * w + w;
    }
  }

  lemma ListShort(bs: seq<Bytes16>, w: nat)
    requires w in {2, 4, 16}
    ensures Short(ListAd(bs, w)) <==> |OfWidth(bs, w)| * w <= 254
  {
    OfWidthWidth(bs, w);
    LeConcatLength(OfWidth(bs, w), w);
    ShortOne(ListAd(bs, w));
  }

  lemma ListsShort(bs: seq<Bytes16>)
    ensures Short(ListAds(bs)) <==> |OfWidth(bs, 2)| <= 127 && |OfWidth(bs, 4)| <= 63 && |OfWidth(bs, 16)| <= 15
  {
    hide OfWidth, ListAd;
    ListShort(bs, 2);
    ListShort(bs, 4);
    ListShort(bs, 16);
    ShortAppends(ListAd(bs, 2), ListAd(bs, 4));
    ShortAppends(ListAd(bs, 2) + ListAd(bs, 4), ListAd(bs, 16));
  }

  lemma ServiceShort(e: Entry)
    ensures Short(ServiceAd(e)) <==> ServiceFits(e)
  {
    hide Shrink, UuidBytes, LeBytes;
    ShortOne(ServiceAd(e));
  }

  lemma InitLast(es: seq<Entry>)
    requires es != []
    ensures forall e :: e in es <==> e in es[..|es| - 1] || e == es[|es| - 1]
  {
    assert es == es[..|es| - 1] + [es[|es| - 1]];
  }

  lemma {:induction false} ServicesShort(es: seq<Entry>)
    ensures Short(ServiceAds(es)) <==> forall e | e in es :: ServiceFits(e)
  {
    if es != [] {
      var init, last := es[..|es| - 1], es[|es| - 1];
      ServicesShort(init);
      hide ServiceAd, ServiceFits;
      ShortAppends(ServiceAds(init), ServiceAd(last));
      ServiceShort(last);
      InitLast(es);
    }
  }

  lemma ManufacturerShort(e: Entry)
    ensures Short(ManufacturerAd(e)) <==> ManufacturerFits(e)
  {
    ShortOne(ManufacturerAd(e));
  }

  lemma {:induction false} ManufacturersShort(es: seq<Entry>)
    ensures Short(ManufacturerAds(es)) <==> forall e | e in es :: ManufacturerFits(e)
  {
    if es != [] {
      var init, last := es[..|es| - 1], es[|es| - 1];
      ManufacturersShort(init);
      hide ManufacturerAd, ManufacturerFits;
      ShortAppends(ManufacturerAds(init), ManufacturerAd(last));
      ManufacturerShort(last);
      InitLast(es);
    }
  }

  /** What was built parses back to exactly the structures pushed if and only if the properties are
      within the limits. */
  lemma RawRoundTrip(props: Props)
    ensures ParseAds(AdsBytes(AdList(props))) == Some(AdList(props)) <==> InLimits(props)
  {
    hide AdsBytes, ParseAds, ServiceAds, ManufacturerAds, Parsed, OfWidth, NameAds, TxAds, ListAds, Short;
    hide ServiceFits, ManufacturerFits;
    AdRoundTrip(AdList(props));
    var bs := Parsed(TextsAt(props, "UUIDs"));
    var a, b := NameAds(props), ListAds(bs);
    var c, d := ServiceAds(EntriesAt(props, "ServiceData")), ManufacturerAds(EntriesAt(props, "ManufacturerData"));
    ShortAppends(a, b);
    ShortAppends(a + b, c);
    ShortAppends(a + b + c, d);
    ShortAppends(a + b + c + d, TxAds(props));
    NameAndTxShort(props);
    ListsShort(bs);
    forall w | w in {2, 4, 16} ensures |OfWidth(bs, w)| == Rank(TextsAt(props, "UUIDs"), |TextsAt(props, "UUIDs")|, w) {
      RankAll(TextsAt(props, "UUIDs"), w);
    }
    hide Rank;
    ServicesShort(EntriesAt(props, "ServiceData"));
    ManufacturersShort(EntriesAt(props, "ManufacturerData"));
  }

  lemma NothingElse()
    ensures ListAds(Parsed([])) == [] && ServiceAds([]) == [] && ManufacturerAds([]) == []
  {
  }

  lemma NameOnly(name: Str)
    ensures AdList(map["Name" := Text(name)]) == [Ad(0x09, name)]
  {
    hide ListAds, Parsed, ServiceAds, ManufacturerAds;
    NothingElse();
  }

  lemma ZeroLength(ad: Ad)
    requires |ad.payload| == 255
    ensures ParseAds(AdsBytes([ad])) == Some([])
  {
    hide AdsBytes;
    AtMostOne([ad]);
  }

  /** One byte over the limit: the length octet of a 255-byte name wraps to zero, which ends the data. */
  lemma LongNameLost(name: Str)
    requires |name| == 255
    ensures AdList(map["Name" := Text(name)]) == [Ad(0x09, name)]
    ensures ParseAds(AdsBytes(AdList(map["Name" := Text(name)]))) == Some([])
  {
    hide AdList, AdsBytes, ParseAds;
    NameOnly(name);
    ZeroLength(Ad(0x09, name));
  }

  // ---- Some properties, byte for byte ----

  lemma OnlyMakers(e: Entry)
    ensures AdList(map["ManufacturerData" := Dict([e])]) == ManufacturerAd(e)
  {
    hide ListAds, Parsed, ServiceAds, ManufacturerAd;
    NothingElse();
    assert [e][..0] == [] && [] + ManufacturerAd(e) == ManufacturerAd(e);
  }

  lemma OnlyServices(e: Entry)
    ensures AdList(map["ServiceData" := Dict([e])]) == ServiceAd(e)
  {
    hide ListAds, Parsed, ManufacturerAds, ServiceAd;
    NothingElse();
    assert [e][..0] == [] && [] + ServiceAd(e) == ServiceAd(e);
  }

  lemma ListOfOne(b: Bytes16, w: nat)
    ensures ListAd([b], w) == if Width(Shrink(b)) == w then [Ad(ListType(w), LeBytes(Shrink(b)))] else []
  {
    hide Shrink, LeBytes, ListType;
    assert [b][..0] == [] && OfWidth([], w) == [] && LeConcat([]) == [];
    assert OfWidth([b], w) == if Width(Shrink(b)) == w then [b] else [];
    assert [] + LeBytes(Shrink(b)) == LeBytes(Shrink(b));
    assert LeConcat([b]) == LeBytes(Shrink(b));
  }

  lemma WidthCases(b: Bytes16)
    ensures Width(Shrink(b)) in {2, 4, 16}
  {
  }

  lemma OnlyList(s: Str)
    ensures AdList(map["UUIDs" := Texts([s])]) == ListAds(Parsed([s]))
  {
    hide ServiceAds, ManufacturerAds, ListAds, Parsed;
    NothingElse();
  }

  lemma ParsedOne(s: Str, b: Bytes16)
    requires UuidBytes(s) == Some(b)
    ensures Parsed([s]) == [b]
  {
    hide UuidBytes;
    assert [s][..0] == [];
  }

  lemma OnlyUuid(s: Str, b: Bytes16)
    requires UuidBytes(s) == Some(b)
    ensures AdList(map["UUIDs" := Texts([s])]) == [Ad(ListType(Width(Shrink(b))), LeBytes(Shrink(b)))]
  {
    hide AdList, ListAd, Parsed, Shrink, LeBytes, Width, UuidBytes, ListType;
    OnlyList(s);
    ParsedOne(s, b);
    WidthCases(b);
    ListOfOne(b, 2);
    ListOfOne(b, 4);
    ListOfOne(b, 16);
  }

  lemma NarrowAgain(id: u16)
    ensures Shrink(Expand(Bit16(id))) == Bit16(id)
  {
    var b := Expand(Bit16(id));
    assert b[4..] == BASE_UUID_SUFFIX;
  }

  lemma MakerOnAir(id: u16, data: seq<u8>)
    requires |data| <= 252
    ensures AdsBytes(AdList(map["ManufacturerData" := Dict([Entry(IdKey(id), Some(data))])]))
         == [|data| + 3, 0xFF, id % 0x100, id / 0x100] + data
  {
    hide AdList, AdsBytes;
    var e := Entry(IdKey(id), Some(data));
    OnlyMakers(e);
    AtMostOne(ManufacturerAd(e));
  }

  lemma ServiceOnAir(uuid: Str, id: u16, data: seq<u8>)
    requires |data| <= 252 && ParseUuid(uuid) == Some(Bit16(id))
    ensures AdsBytes(AdList(map["ServiceData" := Dict([Entry(TextKey(uuid), Some(data))])]))
         == [|data| + 3, 0x16, id % 0x100, id / 0x100] + data
  {
    hide AdList, AdsBytes, ParseUuid;
    var e := Entry(TextKey(uuid), Some(data));
    OnlyServices(e);
    AtMostOne(ServiceAd(e));
  }

  lemma UuidOnAir(uuid: Str, id: u16)
    requires UuidBytes(uuid) == Some(Expand(Bit16(id)))
    ensures AdsBytes(AdList(map["UUIDs" := Texts([uuid])])) == [3, 0x03, id % 0x100, id / 0x100]
  {
    hide AdList, AdsBytes, UuidBytes, Shrink;
    NarrowAgain(id);
    OnlyUuid(uuid, Expand(Bit16(id)));
    AtMostOne([Ad(0x03, LeBytes(Bit16(id)))]);
  }

  /** A company id with its data, a 16-bit service UUID, and data of such a service. */
  lemma OnAir(id: u16, data: seq<u8>)
    requires |data| <= 252
    ensures var uuid := Dashed(Expand(Bit16(id)));
            && AdsBytes(AdList(map["ManufacturerData" := Dict([Entry(IdKey(id), Some(data))])]))
            == [|data| + 3, 0xFF, id % 0x100, id / 0x100] + data
            && AdsBytes(AdList(map["UUIDs" := Texts([uuid])])) == [3, 0x03, id % 0x100, id / 0x100]
            && AdsBytes(AdList(map["ServiceData" := Dict([Entry(TextKey(uuid), Some(data))])]))
            == [|data| + 3, 0x16, id % 0x100, id / 0x100] + data
  {
    hide AdList, AdsBytes, Dashed, UuidBytes, ParseUuid, Shrink, Expand;
    var uuid := Dashed(Expand(Bit16(id)));
    DashedParses(Expand(Bit16(id)));
    NarrowAgain(id);
    MakerOnAir(id, data);
    ServiceOnAir(uuid, id, data);
    UuidOnAir(uuid, id);
  }

  // ---- What a receiver recovers ----

  /** The UUIDs of width w in a list payload. */
  function DecodeList(payload: seq<u8>, w: nat): seq<Bytes16>
    requires w in {2, 4, 16}
  {
    if |payload| < w then [] else [ReadLe(payload[..w])] + DecodeList(payload[w..], w)
  }

  function ListedUuids(ads: seq<Ad>, w: nat): seq<Bytes16>
    requires w in {2, 4, 16}
  {
    if ads == [] then [] else DecodeList(ads[0].payload, w) + ListedUuids(ads[1..], w)
  }

  lemma {:induction false} DecodeListSnoc(payload: seq<u8>, chunk: seq<u8>, w: nat, n: nat)
    requires w in {2, 4, 16} && |payload| == n * w && |chunk| == w
    ensures DecodeList(payload + chunk, w) == DecodeList(payload, w) + [ReadLe(chunk)]
    decreases n
  {
    hide ReadLe;
    if n == 0 {
      assert payload + chunk == chunk && chunk[..w] == chunk && DecodeList(chunk[w..], w) == [];
    } else {
      assert |payload| == (n - 1) * w + w && (n - 1) * w >= 0;
      assert (payload + chunk)[..w] == payload[..w] && (payload + chunk)[w..] == payload[w..] + chunk;
      DecodeListSnoc(payload[w..], chunk, w, n - 1);
      Assoc([ReadLe(payload[..w])], DecodeList(payload[w..], w), [ReadLe(chunk)]);
    }
  }

  lemma DecodeOneMore(init: seq<Bytes16>, last: Bytes16, w: nat)
    requires w in {2, 4, 16} && Width(Shrink(last)) == w
    requires |LeConcat(init)| == |init| * w && DecodeList(LeConcat(init), w) == init
    ensures DecodeList(LeConcat(init) + LeBytes(Shrink(last)), w) == init + [last]
  {
    hide Shrink, LeBytes, DecodeList, ReadLe, Expand, LeConcat;
    DecodeListSnoc(LeConcat(init), LeBytes(Shrink(last)), w, |init|);
    ReadBack(Shrink(last));
    ShrinkLossless(last);
  }

  lemma NothingListed(w: nat)
    requires w in {2, 4, 16}
    ensures LeConcat([]) == [] && DecodeList([], w) == [] && ListedUuids([], w) == []
  {
  }

  lemma {:induction false} DecodeListRoundTrip(bs: seq<Bytes16>, w: nat)
    requires w in {2, 4, 16} && forall i | 0 <= i < |bs| :: Width(Shrink(bs[i])) == w
    ensures DecodeList(LeConcat(bs), w) == bs
  {
    hide Shrink, LeBytes, DecodeList, ReadLe, Expand, Width;
    NothingListed(w);
    if bs != [] {
      var init, last := bs[..|bs| - 1], bs[|bs| - 1];
      DecodeListRoundTrip(init, w);
      LeConcatLength(init, w);
      DecodeOneMore(init, last, w);
      assert bs == init + [last];
    }
  }

  const SERVICE_TYPES: set<u8> := {0x16, 0x20, 0x21}

  lemma ServiceAdType(e: Entry)
    ensures forall i | 0 <= i < |ServiceAd(e)| :: ServiceAd(e)[i].adType in SERVICE_TYPES
  {
  }

  /** The structures of each group carry only their own types. */
  lemma {:induction false} ServiceTypes(es: seq<Entry>, types: set<u8>)
    ensures SERVICE_TYPES <= types ==> OfType(ServiceAds(es), types) == ServiceAds(es)
    ensures SERVICE_TYPES !! types ==> OfType(ServiceAds(es), types) == []
  {
    if es != [] {
      hide OfType, ServiceAd;
      var init, last := es[..|es| - 1], es[|es| - 1];
      ServiceTypes(init, types);
      OfTypeAppends(ServiceAds(init), ServiceAd(last), types);
      OfTypeAllOrNone(ServiceAd(last), types);
      ServiceAdType(last);
    }
  }

  lemma {:induction false} ManufacturerTypes(es: seq<Entry>, types: set<u8>)
    ensures OfType(ManufacturerAds(es), types) == if MANUFACTURER in types then ManufacturerAds(es) else []
  {
    if es != [] {
      hide OfType;
      var init, last := es[..|es| - 1], es[|es| - 1];
      ManufacturerTypes(init, types);
      OfTypeAppends(ManufacturerAds(init), ManufacturerAd(last), types);
      OfTypeAllOrNone(ManufacturerAd(last), types);
    }
  }

  lemma Sift(props: Props, types: set<u8>)
    ensures OfType(AdList(props), types) ==
            OfType(NameAds(props), types) + OfType(ListAds(Parsed(TextsAt(props, "UUIDs"))), types)
            + OfType(ServiceAds(EntriesAt(props, "ServiceData")), types)
            + OfType(ManufacturerAds(EntriesAt(props, "ManufacturerData")), types) + OfType(TxAds(props), types)
  {
    hide OfType, NameAds, ListAds, ServiceAds, ManufacturerAds, TxAds;
    var a, b := NameAds(props), ListAds(Parsed(TextsAt(props, "UUIDs")));
    var c, d := ServiceAds(EntriesAt(props, "ServiceData")), ManufacturerAds(EntriesAt(props, "ManufacturerData"));
    OfTypeAppends(a, b, types);
    OfTypeAppends(a + b, c, types);
    OfTypeAppends(a + b + c, d, types);
    OfTypeAppends(a + b + c + d, TxAds(props), types);
  }

  lemma ListTypeApart(w: nat)
    ensures SERVICE_TYPES !! {ListType(w)} && ListType(w) !in {LOCAL_NAME, TX_POWER, MANUFACTURER}
  {
  }

  lemma SiftLists(bs: seq<Bytes16>, w: nat)
    requires w in {2, 4, 16}
    ensures OfType(ListAds(bs), {ListType(w)}) == ListAd(bs, w)
  {
    hide OfType, OfWidth, LeConcat;
    var types := {ListType(w)};
    OfTypeAppends(ListAd(bs, 2), ListAd(bs, 4), types);
    OfTypeAppends(ListAd(bs, 2) + ListAd(bs, 4), ListAd(bs, 16), types);
    OfTypeAllOrNone(ListAd(bs, 2), types);
    OfTypeAllOrNone(ListAd(bs, 4), types);
    OfTypeAllOrNone(ListAd(bs, 16), types);
  }

  lemma OtherTypes(props: Props, types: set<u8>)
    requires types !! {LOCAL_NAME, TX_POWER}
    ensures OfType(NameAds(props), types) == OfType(TxAds(props), types) == []
  {
    hide OfType;
    OfTypeAllOrNone(NameAds(props), types);
    OfTypeAllOrNone(TxAds(props), types);
  }

  /** Which group a set of types picks out of the built list. */
  lemma SiftList(props: Props, w: nat)
    requires w in {2, 4, 16}
    ensures OfType(AdList(props), {ListType(w)}) == ListAd(Parsed(TextsAt(props, "UUIDs")), w)
  {
    hide OfType, NameAds, ListAds, TxAds, ServiceAds, ManufacturerAds, AdList, Parsed, TextsAt, EntriesAt;
    var types := {ListType(w)};
    ListTypeApart(w);
    hide ListType;
    ServiceTypes(EntriesAt(props, "ServiceData"), types);
    ManufacturerTypes(EntriesAt(props, "ManufacturerData"), types);
    SiftLists(Parsed(TextsAt(props, "UUIDs")), w);
    OtherTypes(props, types);
    Sift(props, types);
  }

  lemma NoLists(bs: seq<Bytes16>, types: set<u8>)
    requires types !! {0x03, 0x05, 0x07}
    ensures OfType(ListAds(bs), types) == []
  {
    hide OfType, OfWidth, LeConcat;
    OfTypeAllOrNone(ListAds(bs), types);
  }

  lemma SiftService(props: Props)
    ensures OfType(AdList(props), SERVICE_TYPES) == ServiceAds(EntriesAt(props, "ServiceData"))
  {
    hide OfType, NameAds, ListAds, TxAds, ServiceAds, ManufacturerAds, AdList, Parsed, TextsAt, EntriesAt;
    ServiceTypes(EntriesAt(props, "ServiceData"), SERVICE_TYPES);
    ManufacturerTypes(EntriesAt(props, "ManufacturerData"), SERVICE_TYPES);
    NoLists(Parsed(TextsAt(props, "UUIDs")), SERVICE_TYPES);
    OtherTypes(props, SERVICE_TYPES);
    Sift(props, SERVICE_TYPES);
  }

  lemma SiftManufacturer(props: Props)
    ensures OfType(AdList(props), {MANUFACTURER}) == ManufacturerAds(EntriesAt(props, "ManufacturerData"))
  {
    hide OfType, NameAds, ListAds, TxAds, ServiceAds, ManufacturerAds, AdList, Parsed, TextsAt, EntriesAt;
    ServiceTypes(EntriesAt(props, "ServiceData"), {MANUFACTURER});
    ManufacturerTypes(EntriesAt(props, "ManufacturerData"), {MANUFACTURER});
    NoLists(Parsed(TextsAt(props, "UUIDs")), {MANUFACTURER});
    OtherTypes(props, {MANUFACTURER});
    Sift(props, {MANUFACTURER});
  }

  lemma OneList(bs: seq<Bytes16>, w: nat)
    requires w in {2, 4, 16}
    ensures ListedUuids(ListAd(bs, w), w) == DecodeList(LeConcat(OfWidth(bs, w)), w)
  {
    hide LeConcat, OfWidth, ReadLe;
    NothingListed(w);
    if OfWidth(bs, w) != [] {
      assert ListAd(bs, w)[1..] == [];
    }
  }

  lemma Counted(bs: seq<Bytes16>, w: nat)
    requires bs != []
    ensures var init, last := bs[..|bs| - 1], bs[|bs| - 1];
            multiset(OfWidth(bs, w)) ==
            multiset(OfWidth(init, w)) + if Width(Shrink(last)) == w then multiset{last} else multiset{}
  {
    hide Shrink;
  }

  lemma Added(a: multiset<Bytes16>, b: multiset<Bytes16>, c: multiset<Bytes16>, x: multiset<Bytes16>)
    ensures (a + x) + b + c == a + (b + x) + c == a + b + (c + x) == a + b + c + x
    ensures a + multiset{} == a && b + multiset{} == b && c + multiset{} == c
  {
  }

  lemma {:induction false} Partition(bs: seq<Bytes16>)
    ensures multiset(OfWidth(bs, 2)) + multiset(OfWidth(bs, 4)) + multiset(OfWidth(bs, 16)) == multiset(bs)
  {
    hide Shrink, LeBytes, Width;
    if bs != [] {
      var init, last := bs[..|bs| - 1], bs[|bs| - 1];
      var w := Width(Shrink(last));
      Partition(init);
      assert bs == init + [last];
      assert multiset(bs) == multiset(init) + multiset{last};
      Counted(bs, 2);
      Counted(bs, 4);
      Counted(bs, 16);
      hide OfWidth;
      Added(multiset(OfWidth(init, 2)), multiset(OfWidth(init, 4)), multiset(OfWidth(init, 16)), multiset{last});
      WidthCases(last);
    }
  }

  /** Within the limits, the three lists read back from the raw bytes are the stable partition by width
      of the UUID strings among the property's: each is in exactly one list, behind the earlier ones of
      its width, and nothing else is listed. */
  lemma UuidConservation(props: Props, ss: seq<Str>)
    requires InLimits(props) && ss == if "UUIDs" in props && props["UUIDs"].Texts? then props["UUIDs"].ss else []
    ensures ParseAds(AdsBytes(AdList(props))).Some?
    ensures var ads := ParseAds(AdsBytes(AdList(props))).value;
            var two, four := ListedUuids(OfType(ads, {0x03}), 2), ListedUuids(OfType(ads, {0x05}), 4);
            var sixteen := ListedUuids(OfType(ads, {0x07}), 16);
            && two == OfWidth(Parsed(ss), 2) && four == OfWidth(Parsed(ss), 4) && sixteen == OfWidth(Parsed(ss), 16)
            && multiset(two) + multiset(four) + multiset(sixteen) == multiset(Parsed(ss))
            && |two| == Rank(ss, |ss|, 2) && |four| == Rank(ss, |ss|, 4) && |sixteen| == Rank(ss, |ss|, 16)
            && forall i | 0 <= i < |ss| && UuidBytes(ss[i]).Some? ::
                 var b := UuidBytes(ss[i]).value;
                 var w := Width(Shrink(b));
                 var list := if w == 2 then two else if w == 4 then four else sixteen;
                 w in {2, 4, 16} && Rank(ss, i, w) < |list| && list[Rank(ss, i, w)] == b
  {
    RawRoundTrip(props);
    hide AdList, AdsBytes, ParseAds, OfType, InLimits, Rank, Shrink, UuidBytes, Width, OfWidth, Parsed, ListedUuids;
    assert ss == TextsAt(props, "UUIDs");
    forall w | w in {2, 4, 16} ensures ListedUuids(OfType(AdList(props), {ListType(w)}), w) == OfWidth(Parsed(ss), w) {
      SiftList(props, w);
      OfWidthWidth(Parsed(ss), w);
      DecodeListRoundTrip(OfWidth(Parsed(ss), w), w);
      OneList(Parsed(ss), w);
    }
    forall i | 0 <= i < |ss| && UuidBytes(ss[i]).Some?
      ensures var b := UuidBytes(ss[i]).value; var w := Width(Shrink(b));
              var list := OfWidth(Parsed(ss), w);
              w in {2, 4, 16} && Rank(ss, i, w) < |list| && list[Rank(ss, i, w)] == b
    {
      var b := UuidBytes(ss[i]).value;
      WidthCases(b);
      InItsPlace(ss, i, b, Width(Shrink(b)));
    }
    RankAll(ss, 2);
    RankAll(ss, 4);
    RankAll(ss, 16);
    Partition(Parsed(ss));
  }

  /** A two's complement octet. */
  function Signed(b: u8): int {
    if b < 0x80 then b else b - 0x100
  }

  lemma NameOrPower(props: Props)
    ensures OfType(NameAds(props), {LOCAL_NAME}) == NameAds(props) && OfType(TxAds(props), {LOCAL_NAME}) == []
    ensures OfType(NameAds(props), {TX_POWER}) == [] && OfType(TxAds(props), {TX_POWER}) == TxAds(props)
  {
    hide OfType;
    OfTypeAllOrNone(NameAds(props), {LOCAL_NAME});
    OfTypeAllOrNone(TxAds(props), {LOCAL_NAME});
    OfTypeAllOrNone(NameAds(props), {TX_POWER});
    OfTypeAllOrNone(TxAds(props), {TX_POWER});
  }

  lemma SiftName(props: Props)
    ensures OfType(AdList(props), {LOCAL_NAME}) == NameAds(props)
  {
    hide OfType, NameAds, ListAds, TxAds, ServiceAds, ManufacturerAds, AdList, Parsed, TextsAt, EntriesAt;
    ServiceTypes(EntriesAt(props, "ServiceData"), {LOCAL_NAME});
    ManufacturerTypes(EntriesAt(props, "ManufacturerData"), {LOCAL_NAME});
    NoLists(Parsed(TextsAt(props, "UUIDs")), {LOCAL_NAME});
    NameOrPower(props);
    Sift(props, {LOCAL_NAME});
  }

  lemma SiftPower(props: Props)
    ensures OfType(AdList(props), {TX_POWER}) == TxAds(props)
  {
    hide OfType, NameAds, ListAds, TxAds, ServiceAds, ManufacturerAds, AdList, Parsed, TextsAt, EntriesAt;
    ServiceTypes(EntriesAt(props, "ServiceData"), {TX_POWER});
    ManufacturerTypes(EntriesAt(props, "ManufacturerData"), {TX_POWER});
    NoLists(Parsed(TextsAt(props, "UUIDs")), {TX_POWER});
    NameOrPower(props);
    Sift(props, {TX_POWER});
  }

  /** Within the limits, the name reads back as AD type 0x09 and the transmit power, if it fits an
      octet, as AD type 0x0A; out of range it is left out. */
  lemma NameAndPowerRecovered(props: Props)
    requires InLimits(props)
    ensures ParseAds(AdsBytes(AdList(props))).Some?
    ensures var ads := ParseAds(AdsBytes(AdList(props))).value;
            && OfType(ads, {0x09})
            == (if "Name" in props && props["Name"].Text? then [Ad(0x09, props["Name"].s)] else [])
            && var power := OfType(ads, {0x0A});
               if "TxPower" in props && props["TxPower"].Int16? && -128 <= props["TxPower"].n <= 127
               then |power| == 1 && |power[0].payload| == 1 && Signed(power[0].payload[0]) == props["TxPower"].n
               else power == []
  {
    RawRoundTrip(props);
    SiftName(props);
    SiftPower(props);
    hide AdList, AdsBytes, ParseAds, OfType, InLimits;
  }

  lemma ThreeLists(props: Props)
    ensures var bs := Parsed(TextsAt(props, "UUIDs"));
            AdList(props) == NameAds(props) + ListAd(bs, 2) + ListAd(bs, 4) + ListAd(bs, 16)
                             + ServiceAds(EntriesAt(props, "ServiceData"))
                             + ManufacturerAds(EntriesAt(props, "ManufacturerData")) + TxAds(props)
  {
    hide NameAds, TxAds, ListAd, ServiceAds, ManufacturerAds, Parsed;
    var bs := Parsed(TextsAt(props, "UUIDs"));
    Assoc(NameAds(props), ListAd(bs, 2) + ListAd(bs, 4), ListAd(bs, 16));
    Assoc(NameAds(props), ListAd(bs, 2), ListAd(bs, 4));
  }

  /** Within the limits, the bytes hold nothing but these groups, in this order. */
  lemma GroupsInOrder(props: Props)
    requires InLimits(props)
    ensures ParseAds(AdsBytes(AdList(props))).Some?
    ensures var ads := ParseAds(AdsBytes(AdList(props))).value;
            ads == OfType(ads, {0x09}) + OfType(ads, {0x03}) + OfType(ads, {0x05}) + OfType(ads, {0x07})
                   + OfType(ads, {0x16, 0x20, 0x21}) + OfType(ads, {0xFF}) + OfType(ads, {0x0A})
  {
    RawRoundTrip(props);
    SiftName(props);
    SiftList(props, 2);
    SiftList(props, 4);
    SiftList(props, 16);
    SiftService(props);
    SiftManufacturer(props);
    SiftPower(props);
    ThreeLists(props);
    hide AdList, AdsBytes, ParseAds, OfType, InLimits, NameAds, TxAds, ListAd, ServiceAds, ManufacturerAds, Parsed;
  }
}
