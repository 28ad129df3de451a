/** The legacy advertisement message of src/ble.rs, and its agreement with the raw form. */
module Legacy {
  import opened Words
  import opened Uuid
  import opened AdData
  import opened Advertisement
  import opened Mac

  /** BluetoothServiceData: a UUID or company id as text, and its bytes. */
  datatype ServiceData = ServiceData(uuid: Str, data: seq<u8>)

  /** `{id:04x}` */
  function IdHex(id: u16): Str {
    HexOf([id / 0x100, id % 0x100])
  }

  function ExtractOne(e: Entry, isService: bool): (r: seq<ServiceData>)
    ensures |r| <= 1
  {
    if e.data.None? then []
    else if isService then if e.key.TextKey? then [ServiceData(e.key.text, e.data.value)] else []
    else if e.key.IdKey? then [ServiceData(IdHex(e.key.id), e.data.value)] else []
  }

  function Extract(es: seq<Entry>, isService: bool): seq<ServiceData> {
    if es == [] then [] else Extract(es[..|es| - 1], isService) + ExtractOne(es[|es| - 1], isService)
  }

  method ExtractServiceData(es: seq<Entry>, isService: bool) returns (entries: seq<ServiceData>)
    ensures entries == Extract(es, isService)
  {
    entries := [];
    for i := 0 to |es|
      invariant entries == Extract(es[..i], isService)
    {
      assert es[..i + 1][..i] == es[..i];
      var e := es[i];
      var uuid: Option<Str> := None;
      if isService {
        if e.key.TextKey? { uuid := Some(e.key.text); }
      } else {
        if e.key.IdKey? { uuid := Some(IdHex(e.key.id)); }
      }
      if uuid.Some? && e.data.Some? {
        entries := entries + [ServiceData(uuid.value, e.data.value)];
      }
    }
    assert es[..|es|] == es;
  }

  /** The entry has a key of the expected kind, and byte data. */
  predicate Usable(e: Entry, isService: bool) {
    e.data.Some? && if isService then e.key.TextKey? else e.key.IdKey?
  }

  function UsableBefore(es: seq<Entry>, isService: bool, n: nat): nat
    requires n <= |es|
  {
    if n == 0 then 0 else UsableBefore(es, isService, n - 1) + if Usable(es[n - 1], isService) then 1 else 0
  }

  lemma InLower(d: u8)
    requires d < 16
    ensures Lower(d) == LOWER_HEX[d]
  {
  }

  lemma Nibbles(id: u16)
    ensures id / 0x100 / 0x10 == id / 0x1000
    ensures id % 0x100 / 0x10 == id / 0x10 % 0x10 && id % 0x100 % 0x10 == id % 0x10
  {
  }

  lemma TwoBytes(hi: u8, lo: u8)
    ensures HexOf([hi, lo]) == [Lower(hi / 16), Lower(hi % 16), Lower(lo / 16), Lower(lo % 16)]
  {
    hide Lower;
    assert [hi, lo][1..] == [lo] && [lo][1..] == [];
    assert HexOf([lo]) == [Lower(lo / 16), Lower(lo % 16)];
  }

  /** Four lower-case digits. */
  lemma IdHexDigits(id: u16)
    ensures IdHex(id) ==
            [LOWER_HEX[id / 0x1000], LOWER_HEX[id / 0x100 % 0x10], LOWER_HEX[id / 0x10 % 0x10], LOWER_HEX[id % 0x10]]
  {
    hide Lower, HexOf;
    Nibbles(id);
    TwoBytes(id / 0x100, id % 0x100);
    InLower(id / 0x1000);
    InLower(id / 0x100 % 0x10);
    InLower(id / 0x10 % 0x10);
    InLower(id % 0x10);
  }

  lemma ExtractStep(es: seq<Entry>, isService: bool, i: nat)
    requires i < |es|
    ensures Extract(es[..i + 1], isService) == Extract(es[..i], isService) + ExtractOne(es[i], isService)
    ensures |ExtractOne(es[i], isService)| == if Usable(es[i], isService) then 1 else 0
  {
    hide IdHex;
    assert es[..i + 1][..i] == es[..i];
  }

  lemma {:induction false} ExtractSoFar(es: seq<Entry>, isService: bool, m: nat, n: nat)
    requires m <= n <= |es|
    ensures |Extract(es[..n], isService)| == UsableBefore(es, isService, n)
    ensures Extract(es[..m], isService) <= Extract(es[..n], isService)
  {
    if n > 0 {
      hide ExtractOne, Usable, Extract;
      ExtractStep(es, isService, n - 1);
      ExtractSoFar(es, isService, if m < n then m else m - 1, n - 1);
    } else {
      assert es[..0] == [];
    }
  }

  lemma ExtractAt(es: seq<Entry>, isService: bool, i: nat)
    requires i < |es| && Usable(es[i], isService)
    ensures var at, all := UsableBefore(es, isService, i), Extract(es, isService);
            at < |all| && [all[at]] == ExtractOne(es[i], isService)
  {
    hide ExtractOne, Usable, Extract, UsableBefore;
    assert es[..|es|] == es;
    ExtractSoFar(es, isService, 0, i);
    ExtractSoFar(es, isService, i + 1, |es|);
    ExtractStep(es, isService, i);
    var before, one, all := Extract(es[..i], isService), ExtractOne(es[i], isService), Extract(es, isService);
    assert before + one <= all && (before + one)[|before|] == one[0];
  }

  /** Every usable entry is extracted, in its place, with its text as it stands or its id as four hex
      digits, and nothing else is. */
  lemma ExtractExactly(es: seq<Entry>, isService: bool)
    ensures |Extract(es, isService)| == UsableBefore(es, isService, |es|)
    ensures forall i | 0 <= i < |es| && Usable(es[i], isService) ::
              var at, all := UsableBefore(es, isService, i), Extract(es, isService);
              && at < |all| && all[at].data == es[i].data.value
              && all[at].uuid == if isService then es[i].key.text else IdHex(es[i].key.id)
  {
    hide IdHex, Extract, UsableBefore;
    assert es[..|es|] == es;
    ExtractSoFar(es, isService, 0, |es|);
    forall i | 0 <= i < |es| && Usable(es[i], isService)
      ensures var at, all := UsableBefore(es, isService, i), Extract(es, isService);
              at < |all| && [all[at]] == ExtractOne(es[i], isService)
    {
      ExtractAt(es, isService, i);
    }
  }

  // ---- The advertisement ----

  datatype LegacyAdvert = LegacyAdvert(
    address: u64, addressType: u32, rssi: int, name: seq<u8>, uuids: seq<Str>,
    serviceData: seq<ServiceData>, manufacturerData: seq<ServiceData>)

  datatype RawAdvert = RawAdvert(address: u64, addressType: u32, rssi: int, data: seq<u8>)

  datatype Advertised = Advertised(legacy: LegacyAdvert, raw: RawAdvert)

  datatype Outcome = NoAddress | RawAborted | Built(ad: Advertised)

  const RANDOM: Str := ['r' as int, 'a' as int, 'n' as int, 'd' as int, 'o' as int, 'm' as int]

  method BuildAdvertisement(props: Props) returns (r: Outcome)
    ensures r.NoAddress? <==> !("Address" in props && props["Address"].Text?)
    ensures r.RawAborted? <==> !r.NoAddress? && RawAborts(props)
    ensures r.Built? ==>
              var l, w := r.ad.legacy, r.ad.raw;
              && l.address == w.address == ParseBleAddress(props["Address"].s)
              && l.addressType == w.addressType ==
                 (if "AddressType" in props && props["AddressType"] == Text([0x72, 0x61, 0x6E, 0x64, 0x6F, 0x6D])
                  then 1 else 0)
              && l.rssi == w.rssi == (if "RSSI" in props && props["RSSI"].Int16? then props["RSSI"].n else -127)
              && l.name == (if "Name" in props && props["Name"].Text? then props["Name"].s else [])
              && l.uuids == (if "UUIDs" in props && props["UUIDs"].Texts? then props["UUIDs"].ss else [])
              && l.serviceData == (if "ServiceData" in props && props["ServiceData"].Dict?
                                   then Extract(props["ServiceData"].entries, true) else [])
              && l.manufacturerData == (if "ManufacturerData" in props && props["ManufacturerData"].Dict?
                                        then Extract(props["ManufacturerData"].entries, false) else [])
              && w.data == AdsBytes(AdList(props))
  {
    var mac := TextAt(props, "Address");
    var addressType: u32 := if TextAt(props, "AddressType") == Some(RANDOM) then 1 else 0;
    var rssi: int := match Int16At(props, "RSSI") case Some(n) => n case None => -127;
    var name: seq<u8> := match TextAt(props, "Name") case Some(s) => s case None => [];
    var serviceData := ExtractServiceData(EntriesAt(props, "ServiceData"), true);
    var manufacturerData := ExtractServiceData(EntriesAt(props, "ManufacturerData"), false);
    if mac.None? {
      return NoAddress;
    }
    var address := ParseBleAddress(mac.value);
    var data := BuildRawAdvertisementData(props);
    if data.None? {
      return RawAborted;
    }
    return Built(Advertised(
      LegacyAdvert(address, addressType, rssi, name, TextsAt(props, "UUIDs"), serviceData, manufacturerData),
      RawAdvert(address, addressType, rssi, data.value)));
  }

  // ---- The two forms agree ----

  /** What a receiver reads from a service-data structure. */
  function ReadService(ad: Ad): seq<(Bytes16, seq<u8>)> {
    var w := if ad.adType == 0x16 then 2 else if ad.adType == 0x20 then 4 else 16;
    if |ad.payload| < w then [] else [(ReadLe(ad.payload[..w]), ad.payload[w..])]
  }

  function ServicesIn(ads: seq<Ad>): seq<(Bytes16, seq<u8>)> {
    if ads == [] then [] else ServicesIn(ads[..|ads| - 1]) + ReadService(ads[|ads| - 1])
  }

  /** The legacy entries whose UUID can be read, with the UUID as bytes. */
  function Readable(d: ServiceData): seq<(Bytes16, seq<u8>)> {
    match UuidBytes(d.uuid) case Some(b) => [(b, d.data)] case None => []
  }

  function AllReadable(ds: seq<ServiceData>): seq<(Bytes16, seq<u8>)> {
    if ds == [] then [] else AllReadable(ds[..|ds| - 1]) + Readable(ds[|ds| - 1])
  }

  /** Company id (little-endian) and data of a manufacturer structure. */
  function ReadManufacturer(ad: Ad): seq<(nat, seq<u8>)> {
    if |ad.payload| < 2 then [] else [(Be16(ad.payload[1], ad.payload[0]), ad.payload[2..])]
  }

  function ManufacturersIn(ads: seq<Ad>): seq<(nat, seq<u8>)> {
    if ads == [] then [] else ManufacturersIn(ads[..|ads| - 1]) + ReadManufacturer(ads[|ads| - 1])
  }

  /** The legacy entry with the company id parsed back, as the receiving side does. */
  function WithId(d: ServiceData): seq<(nat, seq<u8>)> {
    match HexInt(d.uuid) case Some(id) => [(id, d.data)] case None => []
  }

  function AllWithIds(ds: seq<ServiceData>): seq<(nat, seq<u8>)> {
    if ds == [] then [] else AllWithIds(ds[..|ds| - 1]) + WithId(ds[|ds| - 1])
  }

  lemma IdHexReadsBack(id: u16)
    ensures |IdHex(id)| == 4 && HexInt(IdHex(id)) == Some(id)
  {
    var hi, lo := id / 0x100, id % 0x100;
    var a, b, c, d := Lower(hi / 16), Lower(hi % 16), Lower(lo / 16), Lower(lo % 16);
    assert [hi, lo][1..] == [lo] && [lo][1..] == [];
    assert IdHex(id) == [a, b, c, d] by { assert HexOf([lo]) == [c, d]; }
    HexOne(a);
    assert [a, b][..1] == [a] && [a, b, c][..2] == [a, b] && [a, b, c, d][..3] == [a, b, c];
    assert HexInt([a, b]) == Some(hi);
    assert HexInt([a, b, c]) == Some(16 * hi + lo / 16);
  }

  lemma ServiceAgrees(e: Entry)
    ensures ServicesIn(ServiceAd(e)) == AllReadable(ExtractOne(e, true))
  {
    hide Shrink, UuidBytes, LeBytes, ReadLe, Expand;
    if e.key.TextKey? && e.data.Some? {
      assert AllReadable(ExtractOne(e, true)) == Readable(ExtractOne(e, true)[0]) by {
        assert ExtractOne(e, true)[..0] == [] && AllReadable([]) == [];
      }
      if ParseUuid(e.key.text).Some? {
        var u := ParseUuid(e.key.text).value;
        ReadBack(u);
        ParseLossless(e.key.text);
        assert ServiceAd(e)[..0] == [] && ServicesIn([]) == [];
        var p := LeBytes(u) + e.data.value;
        assert p[..Width(u)] == LeBytes(u) && p[Width(u)..] == e.data.value;
      }
    }
  }

  lemma ManufacturerAgrees(e: Entry)
    ensures ManufacturersIn(ManufacturerAd(e)) == AllWithIds(ExtractOne(e, false))
  {
    hide IdHex, HexInt;
    if e.key.IdKey? && e.data.Some? {
      IdHexReadsBack(e.key.id);
      assert ManufacturerAd(e)[..0] == [] && ManufacturersIn([]) == [];
      assert ExtractOne(e, false)[..0] == [] && AllWithIds([]) == [];
      var p := LeBytes(Bit16(e.key.id)) + e.data.value;
      assert p[2..] == e.data.value;
    }
  }

  lemma AppendOne(ads: seq<Ad>, one: seq<Ad>)
    requires |one| <= 1
    ensures ServicesIn(ads + one) == ServicesIn(ads) + ServicesIn(one)
    ensures ManufacturersIn(ads + one) == ManufacturersIn(ads) + ManufacturersIn(one)
  {
    if one == [] {
      assert ads + one == ads;
    } else {
      assert (ads + one)[..|ads|] == ads && one[..0] == [];
      assert ServicesIn([]) == [] && ManufacturersIn([]) == [];
    }
  }

  lemma AppendOneLegacy(ds: seq<ServiceData>, one: seq<ServiceData>)
    requires |one| <= 1
    ensures AllReadable(ds + one) == AllReadable(ds) + AllReadable(one)
    ensures AllWithIds(ds + one) == AllWithIds(ds) + AllWithIds(one)
  {
    if one == [] {
      assert ds + one == ds;
    } else {
      assert (ds + one)[..|ds|] == ds && one[..0] == [];
      assert AllReadable([]) == [] && AllWithIds([]) == [];
    }
  }

  lemma {:induction false} ServicesAgree(es: seq<Entry>)
    ensures ServicesIn(ServiceAds(es)) == AllReadable(Extract(es, true))
  {
    if es != [] {
      hide ServiceAd, ExtractOne, ServicesIn, AllReadable;
      var init, last := es[..|es| - 1], es[|es| - 1];
      ServicesAgree(init);
      ServiceAgrees(last);
      AppendOne(ServiceAds(init), ServiceAd(last));
      AppendOneLegacy(Extract(init, true), ExtractOne(last, true));
    }
  }

  lemma {:induction false} ManufacturersAgree(es: seq<Entry>)
    ensures ManufacturersIn(ManufacturerAds(es)) == AllWithIds(Extract(es, false))
  {
    if es != [] {
      hide ManufacturerAd, ExtractOne, ManufacturersIn, AllWithIds;
      var init, last := es[..|es| - 1], es[|es| - 1];
      ManufacturersAgree(init);
      ManufacturerAgrees(last);
      AppendOne(ManufacturerAds(init), ManufacturerAd(last));
      AppendOneLegacy(Extract(init, false), ExtractOne(last, false));
    }
  }

  /** Within the limits, what is read back from the raw bytes is what the legacy message carries of the
      two dictionaries: the service entries with a readable UUID and the manufacturer entries, in order. */
  lemma FormsAgree(props: Props, services: seq<Entry>, makers: seq<Entry>)
    requires InLimits(props)
    requires services ==
             if "ServiceData" in props && props["ServiceData"].Dict? then props["ServiceData"].entries else []
    requires makers ==
             if "ManufacturerData" in props && props["ManufacturerData"].Dict?
             then props["ManufacturerData"].entries else []
    ensures ParseAds(AdsBytes(AdList(props))).Some?
    ensures var ads := ParseAds(AdsBytes(AdList(props))).value;
            && ServicesIn(OfType(ads, {0x16, 0x20, 0x21})) == AllReadable(Extract(services, true))
            && ManufacturersIn(OfType(ads, {0xFF})) == AllWithIds(Extract(makers, false))
  {
    assert services == EntriesAt(props, "ServiceData") && makers == EntriesAt(props, "ManufacturerData");
    hide AdList, AdsBytes, ParseAds, OfType, InLimits, ServicesIn, ManufacturersIn, AllReadable, AllWithIds;
    hide Extract, ServiceAds, ManufacturerAds;
    RawRoundTrip(props);
    SiftService(props);
    SiftManufacturer(props);
    ServicesAgree(services);
    ManufacturersAgree(makers);
  }
}
