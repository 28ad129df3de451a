/** AD structures: the encoder of src/raw_adv.rs:40-44, and the parser of the Bluetooth Core
    Specification, Vol 3, Part C, section 11, as the meaning of what it writes. */
module AdData {
  import opened Words

  datatype Ad = Ad(adType: u8, payload: seq<u8>)

  /** The length octet is `(payload.len() + 1) as u8`: it wraps. */
  function AdBytes(ad: Ad): seq<u8> {
    [(|ad.payload| + 1) % 0x100, ad.adType] + ad.payload
  }

  function AdsBytes(ads: seq<Ad>): seq<u8> {
    if ads == [] then [] else AdBytes(ads[0]) + AdsBytes(ads[1..])
  }

  /** Section 11: length octet, type octet, data; a zero length ends the data early; a structure that
      runs past the end is malformed. */
  function ParseAds(data: seq<u8>): Option<seq<Ad>> {
    if data == [] || data[0] == 0 then Some([])
    else if 1 + data[0] > |data| then None
    else match ParseAds(data[1 + data[0]..])
      case Some(ads) => Some([Ad(data[1], data[2..1 + data[0]])] + ads)
      case None => None
  }

  class ByteVec {
    var data: seq<u8>

    constructor ()
      ensures data == []
    {
      data := [];
    }

    method PushAd(adType: u8, payload: seq<u8>)
      modifies this
      ensures data == old(data) + AdBytes(Ad(adType, payload))
    {
      data := data + [(|payload| + 1) % 0x100];
      data := data + [adType];
      data := data + payload;
    }
  }

  predicate Short(ads: seq<Ad>) {
    forall i | 0 <= i < |ads| :: |ads[i].payload| <= 254
  }

  /** The first structure is read back whole exactly when it is short enough; the wrapped length
      octet of a longer one either ends the data or cuts the payload. */
  lemma FirstParsed(ad: Ad, rest: seq<u8>)
    ensures |ad.payload| <= 254 ==>
              (ParseAds(AdBytes(ad) + rest)
            == match ParseAds(rest) case Some(ads) => Some([ad] + ads) case None => None)
    ensures |ad.payload| > 254 ==>
              var r := ParseAds(AdBytes(ad) + rest);
              r.None? || r.value == [] || r.value[0] != ad
  {
    var data := AdBytes(ad) + rest;
    if |ad.payload| <= 254 {
      assert data[1 + data[0]..] == rest && data[2..1 + data[0]] == ad.payload;
    }
  }

  lemma TailDecides(ad: Ad, ads: seq<Ad>)
    requires ads != [] && ads[0] == ad
    ensures forall more: seq<Ad> :: [ad] + more == ads <==> more == ads[1..]
  {
    forall more: seq<Ad> ensures [ad] + more == ads <==> more == ads[1..] {
      if [ad] + more == ads { assert ads[1..] == ([ad] + more)[1..] == more; }
    }
  }

  /** Reading back gives exactly what was pushed if and only if no payload exceeds 254 bytes. */
  lemma {:induction false} AdRoundTrip(ads: seq<Ad>)
    ensures ParseAds(AdsBytes(ads)) == Some(ads) <==> Short(ads)
  {
    if ads != [] {
      AdRoundTrip(ads[1..]);
      assert Short(ads) <==> |ads[0].payload| <= 254 && Short(ads[1..]) by {
        assert forall i | 1 <= i < |ads| :: ads[i] == ads[1..][i - 1];
      }
      FirstParsed(ads[0], AdsBytes(ads[1..]));
      TailDecides(ads[0], ads);
    }
  }

  lemma {:induction false} AdsBytesAppends(a: seq<Ad>, b: seq<Ad>)
    ensures AdsBytes(a + b) == AdsBytes(a) + AdsBytes(b)
  {
    if a == [] {
      assert a + b == b;
    } else {
      assert (a + b)[0] == a[0] && (a + b)[1..] == a[1..] + b;
      AdsBytesAppends(a[1..], b);
      Assoc(AdBytes(a[0]), AdsBytes(a[1..]), AdsBytes(b));
    }
  }

  /** The structures of the given types, in order. */
  function OfType(ads: seq<Ad>, types: set<u8>): seq<Ad> {
    if ads == [] then [] else (if ads[0].adType in types then [ads[0]] else []) + OfType(ads[1..], types)
  }

  lemma {:induction false} OfTypeAppends(a: seq<Ad>, b: seq<Ad>, types: set<u8>)
    ensures OfType(a + b, types) == OfType(a, types) + OfType(b, types)
  {
    if a == [] {
      assert a + b == b;
    } else {
      assert (a + b)[0] == a[0] && (a + b)[1..] == a[1..] + b;
      OfTypeAppends(a[1..], b, types);
      var head := if a[0].adType in types then [a[0]] else [];
      Assoc(head, OfType(a[1..], types), OfType(b, types));
      assert OfType(a + b, types) == head + OfType(a[1..] + b, types);
    }
  }

  lemma {:induction false} OfTypeAllOrNone(ads: seq<Ad>, types: set<u8>)
    ensures (forall i | 0 <= i < |ads| :: ads[i].adType in types) ==> OfType(ads, types) == ads
    ensures (forall i | 0 <= i < |ads| :: ads[i].adType !in types) ==> OfType(ads, types) == []
  {
    if ads != [] {
      assert forall i | 1 <= i < |ads| :: ads[i] == ads[1..][i - 1];
      assert forall i | 0 <= i < |ads[1..]| :: ads[1..][i] == ads[i + 1];
      OfTypeAllOrNone(ads[1..], types);
      assert [ads[0]] + ads[1..] == ads;
    }
  }
}
