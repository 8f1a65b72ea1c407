/** The recursive walk over the Authority Information Access extension
    (section 4.2.2.1 of RFC 5280) that collects the OCSP responder URLs. */
module Aia {
  import opened Bytes
  import opened Asn1

  const SEQUENCE: byte := 0x30
  const OID: byte := 0x06
  const URI: byte := 0x86

  /** id-ad-ocsp, 1.3.6.1.5.5.7.48.1 */
  const OCSP_OID: seq<byte> := [0x2b, 0x06, 0x01, 0x05, 0x05, 0x07, 0x30, 0x01]

  type Url = seq<byte>

  /** `Fine` and `Failed` are the walker's return codes 0 and 1; `Overrun` is a read past the buffer. */
  datatype Status = Fine | Failed | Overrun

  /** The return code together with the URLs appended on the way. */
  datatype Scan = Scan(status: Status, urls: seq<Url>) {
    function After(earlier: seq<Url>): Scan {
      this.(urls := earlier + urls)
    }
  }

  function ScanUrl(buf: seq<byte>, at: nat): Scan {
    if at >= |buf| then Scan(Overrun, [])
    else if buf[at] != URI then Scan(Fine, [])
    else
      match LengthAt(buf, at)
      case BadLength => Scan(Failed, [])
      case PastEnd => Scan(Overrun, [])
      case Length(len, next) =>
        if next + len > |buf| then Scan(Overrun, []) else Scan(Fine, [buf[next..next + len]])
  }

  function ScanOid(buf: seq<byte>, at: nat): Scan {
    match LengthAt(buf, at)
    case BadLength => Scan(Failed, [])
    case PastEnd => Scan(Overrun, [])
    case Length(len, next) =>
      if len != 8 then Scan(Fine, [])
      else if next + 8 > |buf| then Scan(Overrun, [])
      else if buf[next..next + 8] == OCSP_OID then ScanUrl(buf, next + 8)
      else Scan(Fine, [])
  }

  /** The walk from `at` up to the terminating NUL. */
  function ScanFrom(buf: seq<byte>, at: nat): Scan
    decreases |buf| - at
  {
    if at >= |buf| then Scan(Overrun, [])
    else if buf[at] == NUL then Scan(Fine, [])
    else if buf[at] == OID then ScanOid(buf, at)
    else if buf[at] != SEQUENCE then Scan(Failed, [])
    else
      match LengthAt(buf, at)
      case BadLength => Scan(Failed, [])
      case PastEnd => Scan(Overrun, [])
      case Length(len, next) =>
        var inner := ScanFrom(buf, next);
        if inner.status != Fine then inner else ScanFrom(buf, next + len).After(inner.urls)
  }

  /** `*ocsp_urls` and `*nocsp_urls`: the growing array and its count. */
  class UrlTable {
    var urls: seq<Url>
    var count: nat

    ghost predicate Valid()
      reads this
    {
      count == |urls|
    }

    constructor ()
      ensures Valid() && urls == []
    {
      urls, count := [], 0;
    }

    method Append(url: Url)
      requires Valid()
      modifies this
      ensures Valid() && urls == old(urls) + [url]
    {
      urls := urls + [url];
      count := count + 1;
    }
  }

  /** `parse_ocsp_url` */
  method ParseUrl(buf: seq<byte>, asn1: nat, table: UrlTable) returns (status: Status)
    requires table.Valid()
    modifies table
    ensures table.Valid()
    ensures status == ScanUrl(buf, asn1).status && table.urls == old(table.urls) + ScanUrl(buf, asn1).urls
  {
    if asn1 >= |buf| {
      return Overrun;
    }
    if buf[asn1] == URI {
      var r := ParseLength(buf, asn1);
      match r {
        case BadLength => return Failed;
        case PastEnd => return Overrun;
        case Length(len, next) =>
          if next + len > |buf| {
            return Overrun;
          }
          table.Append(buf[next..next + len]);
      }
    }
    return Fine;
  }

  /** `parse_ASN1_OID` */
  method ParseOid(buf: seq<byte>, asn1: nat, table: UrlTable) returns (status: Status)
    requires table.Valid()
    modifies table
    ensures table.Valid()
    ensures status == ScanOid(buf, asn1).status && table.urls == old(table.urls) + ScanOid(buf, asn1).urls
  {
    var r := ParseLength(buf, asn1);
    match r {
      case BadLength => return Failed;
      case PastEnd => return Overrun;
      case Length(len, next) =>
        status := Fine;
        if len == 8 {
          if next + 8 > |buf| {
            return Overrun;
          }
          if buf[next..next + 8] == OCSP_OID {
            status := ParseUrl(buf, next + len, table);
          }
        }
    }
  }

  /** What remains to be appended before and after one nested sequence. */
  lemma StepOver(buf: seq<byte>, at: nat, len: nat, next: nat, earlier: seq<Url>)
    requires at < |buf| && buf[at] == SEQUENCE && LengthAt(buf, at) == Length(len, next)
    ensures var inner, rest := ScanFrom(buf, next), ScanFrom(buf, next + len);
            if inner.status != Fine then ScanFrom(buf, at) == inner
            else ScanFrom(buf, at).status == rest.status &&
                 earlier + ScanFrom(buf, at).urls == earlier + inner.urls + rest.urls
  {
    var inner, rest := ScanFrom(buf, next), ScanFrom(buf, next + len);
    assert earlier + (inner.urls + rest.urls) == earlier + inner.urls + rest.urls;
  }

  /** `parse_ASN1_Sequence`: a loop over siblings that recurses into each sequence. */
  method ParseSequence(buf: seq<byte>, start: nat, table: UrlTable) returns (status: Status)
    requires table.Valid()
    modifies table
    ensures table.Valid()
    ensures status == ScanFrom(buf, start).status && table.urls == old(table.urls) + ScanFrom(buf, start).urls
    decreases |buf| - start
  {
    ghost var whole := ScanFrom(buf, start);
    var asn1 := start;
    status := Fine;
    while status == Fine
      invariant start <= asn1 && table.Valid()
      invariant whole.status == if status == Fine then ScanFrom(buf, asn1).status else status
      invariant old(table.urls) + whole.urls ==
                table.urls + if status == Fine then ScanFrom(buf, asn1).urls else []
      decreases status == Fine, |buf| - asn1
    {
      if asn1 >= |buf| {
        return Overrun;
      }
      if buf[asn1] == NUL {
        return Fine;
      }
      if buf[asn1] == OID {
        status := ParseOid(buf, asn1, table);
        return;
      } else if buf[asn1] == SEQUENCE {
        var r := ParseLength(buf, asn1);
        match r {
          case BadLength => status := Failed;
          case PastEnd => status := Overrun;
          case Length(len, next) =>
            StepOver(buf, asn1, len, next, table.urls);
            status := ParseSequence(buf, next, table);
            asn1 := next + len;
        }
      } else {
        status := Failed;
      }
    }
  }

  /** What `decode_OCSP_url` hands to its caller. `Undefined` is the overrun C does not define. */
  datatype Decoded = Urls(urls: seq<Url>) | NoUrls | Undefined

  function Decode(extension: seq<byte>): Decoded {
    var scan := ScanFrom(extension + [NUL], 0);
    if scan.status == Overrun then Undefined
    else if scan.status == Failed || scan.urls == [] then NoUrls
    else Urls(scan.urls)
  }

  /** `decode_OCSP_url`: copies the extension, terminates it and walks the copy. */
  method DecodeOcspUrls(extension: seq<byte>) returns (r: Decoded)
    ensures r == Decode(extension)
  {
    var table := new UrlTable();
    var status := ParseSequence(extension + [NUL], 0, table);
    if status == Overrun {
      return Undefined;
    }
    if status == Failed || table.count == 0 {
      return NoUrls;
    }
    return Urls(table.urls);
  }

  // ---------------------------------------------------------------------------------------------
  // The encoder of section 4.2.2.1 of RFC 5280
  // ---------------------------------------------------------------------------------------------

  /** An access method (the contents of its OID) and a location (tag and contents of its GeneralName). */
  datatype AccessDescription = AccessDescription(accessMethod: seq<byte>, tag: byte, location: seq<byte>) {
    predicate Encodable() {
      |accessMethod| < 0x1000_0000 && |location| < 0x1000_0000
    }

    function Body(): seq<byte>
      requires Encodable()
    {
      Tlv(OID, accessMethod) + Tlv(tag, location)
    }

    function Encode(): seq<byte>
      requires Encodable()
    {
      Tlv(SEQUENCE, Body())
    }

    predicate NamesOcspUri() {
      accessMethod == OCSP_OID && tag == URI
    }
  }

  function EncodeAll(ads: seq<AccessDescription>): seq<byte>
    requires forall ad <- ads :: ad.Encodable()
  {
    if ads == [] then [] else ads[0].Encode() + EncodeAll(ads[1..])
  }

  function EncodeAia(ads: seq<AccessDescription>): seq<byte>
    requires forall ad <- ads :: ad.Encodable()
    requires |EncodeAll(ads)| < 0x8000_0000
  {
    Tlv(SEQUENCE, EncodeAll(ads))
  }

  /** The URIs whose access method is id-ad-ocsp, in order. */
  function OcspUris(ads: seq<AccessDescription>): seq<Url> {
    if ads == [] then []
    else (if ads[0].NamesOcspUri() then [ads[0].location] else []) + OcspUris(ads[1..])
  }

  lemma WalkName(buf: seq<byte>, at: nat, location: seq<byte>, next: nat)
    requires at < |buf| && LengthAt(buf, at) == Length(|location|, next) && At(buf, next, location)
    ensures ScanUrl(buf, at) == Scan(Fine, if buf[at] == URI then [location] else [])
  {
    hide LengthAt;
  }

  /** The walk at an OID with the contents `oid`, followed at `at2` by a name. */
  lemma WalkOid(buf: seq<byte>, at: nat, oid: seq<byte>, at1: nat, at2: nat, location: seq<byte>, at3: nat)
    requires at < |buf| && buf[at] == OID && LengthAt(buf, at) == Length(|oid|, at1) && At(buf, at1, oid)
    requires at2 == at1 + |oid| < |buf| && LengthAt(buf, at2) == Length(|location|, at3) && At(buf, at3, location)
    ensures ScanFrom(buf, at) == Scan(Fine, if oid == OCSP_OID && buf[at2] == URI then [location] else [])
  {
    hide LengthAt, ScanUrl;
    WalkName(buf, at2, location, at3);
    assert buf[at1..at1 + |oid|] == oid;
    assert |OCSP_OID| == 8;
    assert ScanFrom(buf, at) == ScanOid(buf, at);
  }

  lemma OneDescription(buf: seq<byte>, at: nat, ad: AccessDescription)
    requires ad.Encodable() && |ad.Body()| < 0x100_0000
    requires At(buf, at, ad.Body())
    ensures ScanFrom(buf, at) == Scan(Fine, OcspUris([ad]))
  {
    hide LengthOctets, ScanFrom, LengthAt;
    var oid, name := Tlv(OID, ad.accessMethod), Tlv(ad.tag, ad.location);
    AtSplit(buf, at, oid, name);
    LengthRoundTrip(buf, at, OID, ad.accessMethod);
    LengthRoundTrip(buf, at + |oid|, ad.tag, ad.location);
    WalkOid(buf, at, ad.accessMethod, at + ContentsOffset(ad.accessMethod), at + |oid|,
            ad.location, at + |oid| + ContentsOffset(ad.location));
  }

  lemma WalkEnds(buf: seq<byte>, at: nat)
    requires At(buf, at, [NUL])
    ensures ScanFrom(buf, at) == Scan(Fine, [])
  {
    assert buf[at..at + 1][0] == NUL;
  }

  /** The walk at a sequence whose contents it reads through. */
  lemma WalkSequence(buf: seq<byte>, at: nat, len: nat, next: nat, urls: seq<Url>)
    requires at < |buf| && buf[at] == SEQUENCE && LengthAt(buf, at) == Length(len, next)
    requires ScanFrom(buf, next) == Scan(Fine, urls)
    ensures ScanFrom(buf, at) == ScanFrom(buf, next + len).After(urls)
  {
    hide LengthAt;
  }

  /** The walk over one encoded description and what follows it. */
  lemma NextDescription(buf: seq<byte>, at: nat, ad: AccessDescription)
    requires ad.Encodable() && |ad.Encode()| < 0x100_0000
    requires At(buf, at, ad.Encode())
    ensures ScanFrom(buf, at) == ScanFrom(buf, at + |ad.Encode()|).After(OcspUris([ad]))
  {
    hide LengthOctets, ScanFrom, LengthAt;
    var next := at + ContentsOffset(ad.Body());
    LengthRoundTrip(buf, at, SEQUENCE, ad.Body());
    OneDescription(buf, next, ad);
    WalkSequence(buf, at, |ad.Body()|, next, OcspUris([ad]));
  }

  lemma OcspUrisSplits(ads: seq<AccessDescription>)
    requires ads != []
    ensures OcspUris(ads) == OcspUris([ads[0]]) + OcspUris(ads[1..])
  {
    assert [ads[0]][1..] == [];
  }

  lemma NoUris()
    ensures OcspUris([]) == []
  {
  }

  lemma AfterTwice(scan: Scan, a: seq<Url>, b: seq<Url>)
    ensures scan.After(b).After(a) == scan.After(a + b) && scan.After([]) == scan
  {
  }

  /** The walk over encoded descriptions goes on with what stands behind them. */
  lemma {:induction false} Descriptions(buf: seq<byte>, at: nat, ads: seq<AccessDescription>)
    requires forall ad <- ads :: ad.Encodable()
    requires |EncodeAll(ads)| < 0x100_0000
    requires At(buf, at, EncodeAll(ads))
    ensures ScanFrom(buf, at) == ScanFrom(buf, at + |EncodeAll(ads)|).After(OcspUris(ads))
    decreases |ads|
  {
    hide LengthOctets, ScanFrom, LengthAt, Scan.After, OcspUris;
    if ads == [] {
      assert OcspUris(ads) == [] by {
        NoUris();
      }
      AfterTwice(ScanFrom(buf, at), [], []);
    } else {
      var first, rest := ads[0].Encode(), EncodeAll(ads[1..]);
      AtSplit(buf, at, first, rest);
      NextDescription(buf, at, ads[0]);
      Descriptions(buf, at + |first|, ads[1..]);
      OcspUrisSplits(ads);
      AfterTwice(ScanFrom(buf, at + |EncodeAll(ads)|), OcspUris([ads[0]]), OcspUris(ads[1..]));
    }
  }

  lemma WalkOfAia(buf: seq<byte>, ads: seq<AccessDescription>)
    requires forall ad <- ads :: ad.Encodable()
    requires |EncodeAll(ads)| < 0x100_0000
    requires buf == EncodeAia(ads) + [NUL]
    ensures ScanFrom(buf, 0) == Scan(Fine, OcspUris(ads))
  {
    hide LengthOctets, LengthAt, ScanFrom, EncodeAll;
    var body := EncodeAll(ads);
    var next := ContentsOffset(body);
    assert At(buf, 0, EncodeAia(ads) + [NUL]);
    AtSplit(buf, 0, EncodeAia(ads), [NUL]);
    LengthRoundTrip(buf, 0, SEQUENCE, body);
    Descriptions(buf, next, ads);
    WalkEnds(buf, next + |body|);
    assert ScanFrom(buf, next) == Scan(Fine, OcspUris(ads) + []);
    StepOver(buf, 0, |body|, next, []);
    assert [] + ScanFrom(buf, 0).urls == ScanFrom(buf, 0).urls;
    assert [] + OcspUris(ads) + [] == OcspUris(ads);
  }

  /** Decoding inverts encoding: exactly the OCSP URIs, each once and in order, no read outside the
      buffer; an extension of 2^24 bytes or more yields nothing. */
  lemma DecodeEncode(ads: seq<AccessDescription>)
    requires forall ad <- ads :: ad.Encodable()
    requires |EncodeAll(ads)| < 0x8000_0000
    ensures Decode(EncodeAia(ads)) ==
            if OcspUris(ads) != [] && |EncodeAll(ads)| < 0x100_0000 then Urls(OcspUris(ads)) else NoUrls
  {
    var body := EncodeAll(ads);
    var buf := EncodeAia(ads) + [NUL];
    assert At(buf, 0, EncodeAia(ads));
    LengthRoundTrip(buf, 0, SEQUENCE, body);
    if |body| < 0x100_0000 {
      WalkOfAia(buf, ads);
    }
  }

  lemma WalkFails(buf: seq<byte>, at: nat)
    requires at < |buf| && buf[at] !in {0, 6, 48}
    ensures ScanFrom(buf, at) == Scan(Failed, [])
  {
  }

  /** Behind the extension any element but a SEQUENCE or an OID makes the walk fail, and then no URL is
      kept, not even those collected before. */
  lemma StrayElementGivesNothing(ads: seq<AccessDescription>, tag: byte, junk: seq<byte>)
    requires forall ad <- ads :: ad.Encodable()
    requires |EncodeAll(ads)| < 0x100_0000 && tag !in {0, 6, 48}
    ensures Decode(EncodeAia(ads) + [tag] + junk) == NoUrls
  {
    hide LengthOctets, LengthAt, ScanFrom, EncodeAll;
    var body := EncodeAll(ads);
    var buf := EncodeAia(ads) + [tag] + junk + [NUL];
    var next := ContentsOffset(body);
    assert buf[..|EncodeAia(ads)|] == EncodeAia(ads);
    LengthRoundTrip(buf, 0, SEQUENCE, body);
    Descriptions(buf, next, ads);
    WalkFails(buf, next + |body|);
    StepOver(buf, 0, |body|, next, []);
  }

  // The constants, from the standards

  /** Identifier octet (section 8.1.2 of ITU-T X.690). */
  function Identifier(tagClass: nat, constructed: bool, number: nat): nat {
    64 * tagClass + (if constructed then 32 else 0) + number
  }

  /** The octets of one arc in base 128, all but the last with bit 8 set (section 8.19.2 of ITU-T X.690). */
  function ArcOctets(arc: nat, last: bool): seq<nat> {
    (if arc < 128 then [] else ArcOctets(arc / 128, false)) + [arc % 128 + if last then 0 else 128]
  }

  function ArcsOctets(arcs: seq<nat>): seq<nat> {
    if arcs == [] then [] else ArcOctets(arcs[0], true) + ArcsOctets(arcs[1..])
  }

  /** The contents of an object identifier; the first two arcs share an octet. */
  function OidOctets(arcs: seq<nat>): seq<nat>
    requires |arcs| >= 2
  {
    ArcsOctets([40 * arcs[0] + arcs[1]] + arcs[2..])
  }

  lemma {:induction false} SmallArcs(arcs: seq<nat>)
    requires forall i :: 0 <= i < |arcs| ==> arcs[i] < 128
    ensures ArcsOctets(arcs) == arcs
  {
    if arcs != [] {
      assert ArcOctets(arcs[0], true) == [arcs[0]];
      SmallArcs(arcs[1..]);
      assert arcs == [arcs[0]] + arcs[1..];
    }
  }

  /** The tags of the walk are the universal SEQUENCE (16) and OBJECT IDENTIFIER (6) and the context tag 6
      of a URI; the OID is id-ad-ocsp. */
  lemma TagsAndOid()
    ensures SEQUENCE == Identifier(0, true, 16) && OID == Identifier(0, false, 6) && URI == Identifier(2, false, 6)
    ensures OCSP_OID == OidOctets([1, 3, 6, 1, 5, 5, 7, 48, 1])
  {
    SmallArcs([43, 6, 1, 5, 5, 7, 48, 1]);
  }

  /** The bytes of an extension with one responder, and its URL. */
  lemma ExtensionExample(extension: seq<byte>)
    requires extension == [0x30, 0x0f, 0x30, 0x0d,
                           0x06, 0x08, 0x2b, 0x06, 0x01, 0x05, 0x05, 0x07, 0x30, 0x01, 0x86, 0x01, 0x68]
    ensures Decode(extension) == Urls([[0x68]])
  {
    hide Tlv, Decode;
    var ad := AccessDescription(OCSP_OID, URI, [0x68]);
    var ads: seq<AccessDescription> := [ad];
    assert ads[1..] == [] && OcspUris(ads[1..]) == [];
    ShortTlv(OID, OCSP_OID);
    ShortTlv(URI, [0x68]);
    ShortTlv(SEQUENCE, ad.Body());
    assert EncodeAll(ads) == ad.Encode() + EncodeAll([]) == ad.Encode();
    ShortTlv(SEQUENCE, EncodeAll(ads));
    assert EncodeAia(ads) == extension;
    DecodeEncode(ads);
  }

  lemma ShortTlv(tag: byte, contents: seq<byte>)
    requires |contents| < 128
    ensures Tlv(tag, contents) == [tag, |contents|] + contents
  {
  }

  // ---------------------------------------------------------------------------------------------
  // Soundness on every input, well formed or not
  // ---------------------------------------------------------------------------------------------

  /** `url` is the contents of a URI name that directly follows an id-ad-ocsp OID at `at`. */
  predicate OcspUriAt(buf: seq<byte>, at: nat, url: Url) {
    at < |buf| && buf[at] == OID &&
    var oid := LengthAt(buf, at);
    oid.Length? && oid.len == 8 && At(buf, oid.next, OCSP_OID) &&
    oid.next + 8 < |buf| && buf[oid.next + 8] == URI &&
    var name := LengthAt(buf, oid.next + 8);
    name.Length? && |url| == name.len && At(buf, name.next, url)
  }

  /** Whatever the bytes, every URL collected stands in the buffer behind an OCSP OID. */
  lemma {:induction false} CollectedUrlsAreOcspUris(buf: seq<byte>, at: nat, url: Url)
    requires url in ScanFrom(buf, at).urls
    ensures exists k: nat :: at <= k && OcspUriAt(buf, k, url)
    decreases |buf| - at
  {
    if buf[at] == OID {
      assert OcspUriAt(buf, at, url);
    } else {
      var r := LengthAt(buf, at);
      var inner := ScanFrom(buf, r.next);
      if url in inner.urls {
        CollectedUrlsAreOcspUris(buf, r.next, url);
        var k: nat :| r.next <= k && OcspUriAt(buf, k, url);
      } else {
        CollectedUrlsAreOcspUris(buf, r.next + r.len, url);
        var k: nat :| r.next + r.len <= k && OcspUriAt(buf, k, url);
      }
    }
  }

  // ---------------------------------------------------------------------------------------------
  // Where the walk stays inside its buffer
  // ---------------------------------------------------------------------------------------------

  /** A list of complete elements with lengths of at most three octets, those under a SEQUENCE tag again
      filled with such lists; what the elements mean is left open. */
  predicate WellNested(s: seq<byte>)
    decreases |s|
  {
    s == [] ||
    match LengthAt(s, 0)
    case Length(len, next) =>
      next + len <= |s| && (s[0] == SEQUENCE ==> WellNested(s[next..next + len])) && WellNested(s[next + len..])
    case _ => false
  }

  /** The length of an element does not depend on where the element stands or what follows. */
  lemma LengthMoves(s: seq<byte>, len: nat, next: nat, buf: seq<byte>, at: nat)
    requires s != [] && LengthAt(s, 0) == Length(len, next) && At(buf, at, s)
    ensures LengthAt(buf, at) == Length(len, at + next)
  {
    assert forall i :: 0 <= i < |s| ==> buf[at + i] == buf[at..at + |s|][i] == s[i];
    if s[1] >= 0x80 {
      var n := s[1] - 0x80;
      assert buf[at + 2..at + 2 + n] == buf[at..at + |s|][2..2 + n] == s[2..2 + n];
    }
  }

  lemma NestedParts(s: seq<byte>)
    requires WellNested(s) && s != []
    ensures var r := LengthAt(s, 0);
            && r.Length? && r.next + r.len <= |s|
            && (s[0] == SEQUENCE ==> WellNested(s[r.next..r.next + r.len]))
            && WellNested(s[r.next + r.len..])
  {
  }

  lemma NestedFromParts(s: seq<byte>, len: nat, next: nat)
    requires s != [] && LengthAt(s, 0) == Length(len, next) && next + len <= |s|
    requires s[0] == SEQUENCE ==> WellNested(s[next..next + len])
    requires WellNested(s[next + len..])
    ensures WellNested(s)
  {
    hide LengthAt;
  }

  lemma {:induction false} NestedAppend(a: seq<byte>, b: seq<byte>)
    requires WellNested(a) && WellNested(b)
    ensures WellNested(a + b)
    decreases |a|
  {
    hide WellNested, LengthAt;
    if a == [] {
      assert a + b == b;
    } else {
      NestedParts(a);
      var r := LengthAt(a, 0);
      var end := r.next + r.len;
      assert (a + b)[..|a|] == a;
      LengthMoves(a, r.len, r.next, a + b, 0);
      assert (a + b)[r.next..end] == a[r.next..end] && (a + b)[end..] == a[end..] + b;
      NestedAppend(a[end..], b);
      NestedFromParts(a + b, r.len, r.next);
    }
  }

  /** Behind the header of the first element, and behind the whole of it, stand well-nested lists. */
  lemma {:induction false} NestedStep(s: seq<byte>)
    requires WellNested(s) && s != []
    ensures var r := LengthAt(s, 0);
            && r.Length? && r.next + r.len <= |s|
            && WellNested(s[r.next + r.len..])
            && (s[0] == SEQUENCE ==> WellNested(s[r.next..]))
  {
    hide WellNested, LengthAt;
    NestedParts(s);
    var r := LengthAt(s, 0);
    var end := r.next + r.len;
    if s[0] == SEQUENCE {
      assert s[r.next..] == s[r.next..end] + s[end..];
      NestedAppend(s[r.next..end], s[end..]);
    }
  }

  lemma RestOf(buf: seq<byte>, at: nat, s: seq<byte>, k: nat)
    requires at <= |buf| && buf[at..] == s + [NUL] && k <= |s|
    ensures at + k <= |buf| && buf[at + k..] == s[k..] + [NUL]
    ensures At(buf, at, s) && (s != [] ==> buf[at] == s[0])
  {
    assert buf[at + k..] == buf[at..][k..];
    assert buf[at] == buf[at..][0];
    assert buf[at..at + |s|] == buf[at..][..|s|];
  }

  /** At an element that is no sequence the walk stays inside if a URL behind it does. */
  lemma ElementInside(buf: seq<byte>, at: nat, len: nat, next: nat)
    requires at < |buf| && buf[at] != SEQUENCE && LengthAt(buf, at) == Length(len, next) && next + len <= |buf|
    requires ScanUrl(buf, next + len).status != Overrun
    ensures ScanFrom(buf, at).status != Overrun
  {
    hide LengthAt, ScanUrl;
  }

  /** The walk only ever stands at the start of an element or at the final NUL: a sequence it enters is
      followed, for the inner walk, by the siblings behind it. */
  lemma {:induction false} NestedNeverOverruns(buf: seq<byte>, at: nat, s: seq<byte>)
    requires at <= |buf| && buf[at..] == s + [NUL] && WellNested(s)
    ensures ScanFrom(buf, at).status != Overrun
    decreases |s|
  {
    hide WellNested, LengthAt, ScanFrom, ScanUrl, At;
    RestOf(buf, at, s, 0);
    if s == [] {
      assert At(buf, at, [NUL]) by {
        RestOfNothing(buf, at);
      }
      WalkEnds(buf, at);
    } else {
      NestedStep(s);
      var r := LengthAt(s, 0);
      var end := r.next + r.len;
      LengthMoves(s, r.len, r.next, buf, at);
      RestOf(buf, at, s, end);
      if s[0] == SEQUENCE {
        RestOf(buf, at, s, r.next);
        NestedNeverOverruns(buf, at + r.next, s[r.next..]);
        NestedNeverOverruns(buf, at + end, s[end..]);
        StepOver(buf, at, r.len, at + r.next, []);
      } else {
        NestedUrlInside(buf, at + end, s[end..]);
        ElementInside(buf, at, r.len, at + r.next);
      }
    }
  }

  lemma RestOfNothing(buf: seq<byte>, at: nat)
    requires at <= |buf| && buf[at..] == [NUL]
    ensures At(buf, at, [NUL])
  {
  }

  lemma NestedUrlInside(buf: seq<byte>, at: nat, s: seq<byte>)
    requires at <= |buf| && buf[at..] == s + [NUL] && WellNested(s)
    ensures ScanUrl(buf, at).status != Overrun
  {
    assert buf[at] == buf[at..][0];
    if s != [] {
      var r := LengthAt(s, 0);
      assert At(buf, at, s);
      LengthMoves(s, r.len, r.next, buf, at);
    }
  }

  /** On every well-nested extension, an AIA encoding or not, the walk stays inside its buffer. */
  lemma NestedIsDefined(extension: seq<byte>)
    requires WellNested(extension)
    ensures !Decode(extension).Undefined?
  {
    var buf := extension + [NUL];
    assert buf[0..] == buf;
    NestedNeverOverruns(buf, 0, extension);
  }

  // ---------------------------------------------------------------------------------------------
  // Where it does not: encodings that are cut off
  // ---------------------------------------------------------------------------------------------

  /** `s` is the beginning of `whole` and stands at `at`, with only the final NUL behind it. */
  predicate CutAt(buf: seq<byte>, at: nat, s: seq<byte>, whole: seq<byte>) {
    at <= |buf| && buf[at..] == s + [NUL] && s <= whole
  }

  lemma CutBehind(buf: seq<byte>, at: nat, s: seq<byte>, head: seq<byte>, rest: seq<byte>)
    requires CutAt(buf, at, s, head + rest) && |head| <= |s|
    ensures At(buf, at, head) && CutAt(buf, at + |head|, s[|head|..], rest)
  {
    assert s[..|head|] == (head + rest)[..|head|] == head;
    assert s[|head|..] == (head + rest)[|head|..|s|] == rest[..|s| - |head|];
    assert buf[at + |head|..] == buf[at..][|head|..];
    assert buf[at..at + |head|] == buf[at..][..|head|];
  }

  /** A length that is cut off is either not readable, or takes in the final NUL as its last octet. */
  lemma CutLength(buf: seq<byte>, at: nat, s: seq<byte>, tag: byte, contents: seq<byte>)
    requires |contents| < 0x100_0000
    requires s != [] && CutAt(buf, at, s, Tlv(tag, contents))
    ensures at < |buf| && buf[at] == tag
    ensures if |s| < ContentsOffset(contents)
            then LengthAt(buf, at).PastEnd? || (LengthAt(buf, at).Length? && LengthAt(buf, at).next == |buf|)
            else LengthAt(buf, at) == Length(|contents|, at + ContentsOffset(contents))
  {
    var octets := LengthOctets(|contents|);
    var head := [tag] + octets;
    assert Tlv(tag, contents) == head + contents;
    assert buf[at] == buf[at..][0] == s[0] == tag;
    if |s| < |head| {
      assert |buf| == at + |s| + 1;
      if |s| == 1 {
        assert buf[at + 1] == buf[at..][1] == NUL;
      } else {
        assert buf[at + 1] == buf[at..][1] == s[1] == head[1] == octets[0];
      }
    } else {
      CutBehind(buf, at, s, head, contents);
      AtSplit(buf, at, [tag], octets);
      ReadOctets(buf, at, |contents|);
    }
  }

  lemma WalkBehindEnd(buf: seq<byte>, at: nat)
    requires at >= |buf|
    ensures ScanFrom(buf, at) == Scan(Overrun, [])
  {
  }

  /** A sequence that is cut off makes the walk leave the buffer, unless the walk inside it fails first. */
  lemma CutSequence(buf: seq<byte>, at: nat, s: seq<byte>, body: seq<byte>)
    requires |body| < 0x100_0000
    requires s != [] && |s| < |Tlv(SEQUENCE, body)| && CutAt(buf, at, s, Tlv(SEQUENCE, body))
    requires ContentsOffset(body) <= |s| ==> ScanFrom(buf, at + ContentsOffset(body)).status != Failed
    ensures ScanFrom(buf, at).status == Overrun
  {
    hide LengthOctets, LengthAt, ScanFrom;
    CutLength(buf, at, s, SEQUENCE, body);
    assert |buf| == at + |s| + 1;
    var r := LengthAt(buf, at);
    if r.PastEnd? {
      WalkUnreadable(buf, at);
    } else {
      WalkBehindEnd(buf, r.next + r.len);
      if r.next == |buf| {
        WalkBehindEnd(buf, r.next);
      }
      StepOver(buf, at, r.len, r.next, []);
    }
  }

  lemma WalkUnreadable(buf: seq<byte>, at: nat)
    requires at < |buf| && buf[at] == SEQUENCE && LengthAt(buf, at).PastEnd?
    ensures ScanFrom(buf, at).status == Overrun
  {
  }

  /** A name that is cut off may be unreadable but is no error. */
  lemma CutName(buf: seq<byte>, at: nat, s: seq<byte>, tag: byte, location: seq<byte>)
    requires |location| < 0x100_0000 && CutAt(buf, at, s, Tlv(tag, location))
    ensures ScanUrl(buf, at).status != Failed
  {
    hide LengthOctets, LengthAt;
    assert buf[at] == buf[at..][0];
    if s != [] {
      CutLength(buf, at, s, tag, location);
    }
  }

  /** The contents of a description that are cut off are no error either. */
  lemma CutBody(buf: seq<byte>, at: nat, s: seq<byte>, ad: AccessDescription)
    requires ad.Encodable() && |ad.Body()| < 0x100_0000 && CutAt(buf, at, s, ad.Body())
    ensures ScanFrom(buf, at).status != Failed
  {
    hide LengthOctets, LengthAt, ScanUrl, ScanFrom;
    var oid, name := Tlv(OID, ad.accessMethod), Tlv(ad.tag, ad.location);
    assert ad.Body() == oid + name;
    if s == [] {
      assert At(buf, at, [NUL]);
      WalkEnds(buf, at);
    } else if |s| >= |oid| {
      CutBehind(buf, at, s, oid, name);
      LengthRoundTrip(buf, at, OID, ad.accessMethod);
      CutName(buf, at + |oid|, s[|oid|..], ad.tag, ad.location);
      CutOid(buf, at, |ad.accessMethod|, at + ContentsOffset(ad.accessMethod));
    } else {
      assert s <= oid;
      CutLength(buf, at, s, OID, ad.accessMethod);
      CutOidAlone(buf, at);
    }
  }

  lemma CutOid(buf: seq<byte>, at: nat, len: nat, next: nat)
    requires at < |buf| && buf[at] == OID && LengthAt(buf, at) == Length(len, next)
    requires ScanUrl(buf, next + len).status != Failed
    ensures ScanFrom(buf, at).status != Failed
  {
    hide LengthAt, ScanUrl;
    assert ScanFrom(buf, at) == ScanOid(buf, at);
  }

  /** An OID that ends with the buffer, the final NUL in it: it is not id-ad-ocsp. */
  lemma CutOidAlone(buf: seq<byte>, at: nat)
    requires at < |buf| && buf[at] == OID && buf[|buf| - 1] == NUL && !LengthAt(buf, at).BadLength?
    requires LengthAt(buf, at).Length? ==> LengthAt(buf, at).next + LengthAt(buf, at).len >= |buf|
    ensures ScanFrom(buf, at).status != Failed
  {
    hide LengthAt, ScanUrl;
    assert ScanFrom(buf, at) == ScanOid(buf, at);
    var r := LengthAt(buf, at);
    if r.Length? && r.len == 8 && r.next + 8 == |buf| {
      assert buf[r.next..r.next + 8][7] == NUL != OCSP_OID[7];
    }
  }

  /** Descriptions cut off anywhere make the walk leave the buffer, or end it between two of them. */
  lemma {:induction false} CutDescriptions(buf: seq<byte>, at: nat, s: seq<byte>, ads: seq<AccessDescription>)
    requires (forall ad <- ads :: ad.Encodable()) && |EncodeAll(ads)| < 0x100_0000
    requires CutAt(buf, at, s, EncodeAll(ads))
    ensures ScanFrom(buf, at).status != Failed
    decreases |ads|
  {
    hide LengthOctets, LengthAt, ScanFrom;
    if s == [] {
      assert At(buf, at, [NUL]);
      WalkEnds(buf, at);
    } else {
      var ad, rest := ads[0], EncodeAll(ads[1..]);
      var first, body := ad.Encode(), ad.Body();
      if |s| >= |first| {
        CutBehind(buf, at, s, first, rest);
        NextDescription(buf, at, ad);
        CutDescriptions(buf, at + |first|, s[|first|..], ads[1..]);
      } else {
        assert s <= first;
        if ContentsOffset(body) <= |s| {
          var head := [SEQUENCE] + LengthOctets(|body|);
          assert first == head + body;
          CutBehind(buf, at, s, head, body);
          CutBody(buf, at + |head|, s[|head|..], ad);
        }
        CutSequence(buf, at, s, body);
      }
    }
  }

  /** An AIA extension cut off anywhere makes the walk leave its buffer. */
  lemma CutEncodingIsUndefined(ads: seq<AccessDescription>, n: nat)
    requires (forall ad <- ads :: ad.Encodable()) && |EncodeAll(ads)| < 0x100_0000
    requires 0 < n < |EncodeAia(ads)|
    ensures Decode(EncodeAia(ads)[..n]) == Undefined
  {
    hide LengthOctets, LengthAt, ScanFrom, EncodeAll;
    var body := EncodeAll(ads);
    var s := EncodeAia(ads)[..n];
    var buf := s + [NUL];
    assert buf[0..] == buf;
    if ContentsOffset(body) <= n {
      var head := [SEQUENCE] + LengthOctets(|body|);
      assert EncodeAia(ads) == head + body;
      CutBehind(buf, 0, s, head, body);
      CutDescriptions(buf, |head|, s[|head|..], ads);
    }
    CutSequence(buf, 0, s, body);
  }
}
