/** One OCSP check: the exchange with one responder, the judgement of its response, and the loop over
    the responders of a certificate. */
module OcspClient {
  import opened Bytes
  import opened Contexts
  import opened Aia
  import Transport
  import HttpHead

  const V_OK: int := 0
  const UNABLE_TO_GET_CRL: int := 3
  const CRL_HAS_EXPIRED: int := 12
  const CERT_REVOKED: int := 23
  const APPLICATION_VERIFICATION: int := 50
  const OCSP_RESP_INVALID: int := 96
  const OCSP_SIGNATURE_FAILURE: int := 97
  const OCSP_NOT_YET_VALID: int := 98
  const OCSP_HAS_EXPIRED: int := 99

  /** OCSP_STATUS_OK, OCSP_STATUS_REVOKED, OCSP_STATUS_UNKNOWN; `Lost` is what follows a walk over the
      extension that left its buffer, which C does not define. */
  datatype Answer = Good | Revoked | Unknown | Lost

  /** A decoded response, as the verdicts OpenSSL gives on it: the response status, the nonce, the
      signature, the certificate id, the two validity checks and the status of the certificate. */
  datatype Response = Response(successful: bool, nonceMatches: bool, signatureValid: bool, idBuilt: bool,
                               begun: bool, unexpired: bool, certStatus: int)

  type Decoder = d: seq<byte> -> Option<Response> | d([]).None? witness (s: seq<byte>) => None

  /** The answer of a response and the error it leaves behind, if any. */
  datatype Judgement = Judgement(answer: Answer, complaint: Option<int>)

  predicate AllGates(resp: Response) {
    resp.successful && resp.nonceMatches && resp.signatureValid && resp.idBuilt && resp.begun && resp.unexpired
  }

  /** Definitive only behind every gate; a complaint exactly when a successful response fails one, and
      then it is that of the first gate failed: 96 an invalid response, 97 a bad signature, 98 not yet
      valid, 99 expired. */
  function Judge(resp: Response): (j: Judgement)
    ensures j.answer == Good <==> AllGates(resp) && resp.certStatus == 0
    ensures j.answer == Revoked <==> AllGates(resp) && resp.certStatus == 1
    ensures j.complaint.Some? <==> resp.successful && !AllGates(resp)
    ensures j.complaint == Some(97) <==>
              resp.successful && resp.nonceMatches && !resp.signatureValid
    ensures j.complaint == Some(96) <==>
              resp.successful && (!resp.nonceMatches || (resp.signatureValid && !resp.idBuilt))
    ensures j.complaint == Some(98) <==>
              resp.successful && resp.nonceMatches && resp.signatureValid && resp.idBuilt && !resp.begun
    ensures j.complaint == Some(99) <==>
              resp.successful && resp.nonceMatches && resp.signatureValid && resp.idBuilt
              && resp.begun && !resp.unexpired
    ensures j.answer != Lost
  {
    if !resp.successful then Judgement(Unknown, None)
    else if !resp.nonceMatches then Judgement(Unknown, Some(OCSP_RESP_INVALID))
    else if !resp.signatureValid then Judgement(Unknown, Some(OCSP_SIGNATURE_FAILURE))
    else if !resp.idBuilt then Judgement(Unknown, Some(OCSP_RESP_INVALID))
    else if !resp.begun then Judgement(Unknown, Some(OCSP_NOT_YET_VALID))
    else if !resp.unexpired then Judgement(Unknown, Some(OCSP_HAS_EXPIRED))
    else Judgement(if resp.certStatus == 0 then Good else if resp.certStatus == 1 then Revoked else Unknown, None)
  }

  function Left(complaint: Option<int>, error: int): int {
    if complaint.Some? then complaint.value else error
  }

  /** `process_ocsp_response` */
  method ProcessResponse(resp: Response, ctx: StoreContext) returns (o: Answer)
    modifies ctx
    ensures o == Judge(resp).answer && ctx.error == Left(Judge(resp).complaint, old(ctx.error))
  {
    o := Unknown;
    if !resp.successful {
      return;
    }
    if !resp.nonceMatches {
      ctx.error := OCSP_RESP_INVALID;
      return;
    }
    if !resp.signatureValid {
      ctx.error := OCSP_SIGNATURE_FAILURE;
      return;
    }
    if !resp.idBuilt {
      ctx.error := OCSP_RESP_INVALID;
      return;
    }
    if !resp.begun {
      ctx.error := OCSP_NOT_YET_VALID;
      return;
    }
    if !resp.unexpired {
      ctx.error := OCSP_HAS_EXPIRED;
      return;
    }
    if resp.certStatus == 0 {
      o := Good;
    } else if resp.certStatus == 1 {
      o := Revoked;
    } else if resp.certStatus == 2 {
      o := Unknown;
    }
  }

  // ---------------------------------------------------------------------------------------------
  // One responder
  // ---------------------------------------------------------------------------------------------

  /** How one attempt at a URL goes: whether URL and port parse, the serialised request, whether the
      socket connects, and what its sends and reads then do. */
  datatype Exchange = Exchange(urlParses: bool, portParses: bool, request: Option<seq<byte>>, connects: bool,
                               sends: seq<Transport.SendResult>, feed: Transport.Feed)

  function Fetch(x: Exchange, decoder: Decoder): Option<Response> {
    if !x.urlParses || !x.portParses || x.request.None? || !x.connects then None
    else if !Transport.Transmission(x.sends, |x.request.value|).ok then None
    else
      match Transport.Received(x.feed, 0, [])
      case None => None
      case Some(reply) => HttpHead.Parsed(decoder, reply)
  }

  /** `get_ocsp_response` with the tail of `ocsp_get_resp` */
  method GetResponse(x: Exchange, decoder: Decoder) returns (resp: Option<Response>)
    ensures resp == Fetch(x, decoder)
  {
    if !x.urlParses || !x.portParses || x.request.None? || !x.connects {
      return None;
    }
    var sock := new Transport.Socket(x.sends, x.feed);
    var ok := Transport.SendRequest(sock, x.request.value);
    if !ok {
      return None;
    }
    var reply, _, _ := Transport.ReceiveAll(sock);
    if reply.None? {
      return None;
    }
    resp := HttpHead.ParseResponse(decoder, reply.value);
  }

  /** A responder is heard exactly when every stage before the parser works and the parser hears it: the
      URL with its port, the request, the connection, a script of sends that carries the whole request,
      and reads that end in order within the limit. */
  lemma HeardExactly(x: Exchange, decoder: Decoder)
    ensures Fetch(x, decoder).Some? <==>
            && x.urlParses && x.portParses && x.request.Some? && x.connects
            && (exists parts :: Transport.Carries(parts, x.sends, |x.request.value|))
            && Transport.Received(x.feed, 0, []).Some?
            && HttpHead.Parsed(decoder, Transport.Received(x.feed, 0, []).value).Some?
  {
    if x.request.Some? {
      Transport.SucceedsExactly(x.sends, |x.request.value|);
    }
  }

  /** A responder that takes the request and delivers this HTTP reply, however it is cut into reads,
      is heard through the decoder exactly when the code is accepted and the reply fits. */
  lemma {:induction false} FetchOfReply(x: Exchange, decoder: Decoder, chunks: seq<seq<byte>>, stop: Transport.Recv,
                     s: HttpHead.StatusLine, headers: seq<seq<byte>>, blank: seq<byte>, body: seq<byte>)
    requires x.urlParses && x.portParses && x.request.Some? && x.connects
    requires Transport.Transmission(x.sends, |x.request.value|).ok
    requires Transport.Delivers(x.feed, 0, chunks, stop) && stop.eof
    requires s.Valid() && HttpHead.HeaderLines(headers) && HttpHead.Line(blank) && HttpHead.Blank(blank)
    requires Flatten(chunks) == s.Text() + (Flatten(headers) + (blank + body))
    ensures Fetch(x, decoder) ==
            if |Flatten(chunks)| <= Transport.MAX_RESPONSE && HttpHead.Accepts(s.code) then decoder(body) else None
  {
    Transport.ReceivedIsConcatenation(x.feed, 0, chunks, stop, []);
    assert [] + Flatten(chunks) == Flatten(chunks);
    HttpHead.ReplyHandsOverBody(s, headers, blank, body);
  }

  // ---------------------------------------------------------------------------------------------
  // All responders
  // ---------------------------------------------------------------------------------------------

  /** The attempt made at the `i`-th URL; the URL is read as a C string. */
  type Network = (nat, seq<byte>) -> Exchange

  /** What is heard from the responder of each URL. */
  function Heard(net: Network, decoder: Decoder, urls: seq<Url>): (h: seq<Option<Response>>)
    ensures |h| == |urls|
  {
    seq(|urls|, i requires 0 <= i < |urls| => Fetch(net(i, CString(urls[i])), decoder))
  }

  /** Silence is `Unknown`. */
  function Says(heard: Option<Response>): Answer {
    if heard.None? then Unknown else Judge(heard.value).answer
  }

  /** Answer and error once the loop is done. */
  datatype Asked = Asked(answer: Answer, error: int)

  function Ask(heard: seq<Option<Response>>, error: int): Asked {
    if heard == [] then Asked(Unknown, error)
    else if heard[0].None? then Ask(heard[1..], error)
    else
      var j := Judge(heard[0].value);
      if j.answer != Unknown then Asked(j.answer, Left(j.complaint, error))
      else Ask(heard[1..], Left(j.complaint, error))
  }

  /** `i` is the first responder that is definitive. */
  predicate FirstDefinitive(heard: seq<Option<Response>>, i: nat) {
    i < |heard| && Says(heard[i]) != Unknown && forall j :: 0 <= j < i ==> Says(heard[j]) == Unknown
  }

  predicate Undecided(heard: seq<Option<Response>>) {
    forall j :: 0 <= j < |heard| ==> Says(heard[j]) == Unknown
  }

  /** The loop's answer is that of the first definitive responder, whatever error it entered with. */
  lemma {:induction false} AskFollowsFirst(heard: seq<Option<Response>>, error: int, i: nat)
    requires FirstDefinitive(heard, i)
    ensures Ask(heard, error).answer == Says(heard[i])
    decreases |heard|
  {
    if i > 0 {
      assert Says(heard[0]) == Unknown;
      var left := if heard[0].None? then error else Left(Judge(heard[0].value).complaint, error);
      AskFollowsFirst(heard[1..], left, i - 1);
    }
  }

  lemma {:induction false} AskUndecided(heard: seq<Option<Response>>, error: int)
    requires Undecided(heard)
    ensures Ask(heard, error).answer == Unknown
    decreases |heard|
  {
    if heard != [] {
      assert Says(heard[0]) == Unknown;
      var left := if heard[0].None? then error else Left(Judge(heard[0].value).complaint, error);
      AskUndecided(heard[1..], left);
    }
  }

  /** Definitive in the sense of section 2.2 of RFC 6960: a valid response of good, revoked or unknown. */
  predicate RfcDefinitive(heard: Option<Response>) {
    heard.Some? && AllGates(heard.value) && 0 <= heard.value.certStatus <= 2
  }

  predicate FirstRfcDefinitive(heard: seq<Option<Response>>, i: nat) {
    i < |heard| && RfcDefinitive(heard[i]) && forall j :: 0 <= j < i ==> !RfcDefinitive(heard[j])
  }

  /** The loop keeps the first answer that section 2.2 of RFC 6960 calls definitive exactly when that is
      good or revoked, or it is unknown and no later responder says good or revoked. */
  lemma RfcAnswerKept(heard: seq<Option<Response>>, error: int, i: nat)
    requires FirstRfcDefinitive(heard, i)
    ensures Ask(heard, error).answer == Says(heard[i]) <==>
            heard[i].value.certStatus != 2 || forall j :: i < j < |heard| ==> Says(heard[j]) == Unknown
  {
    assert forall j :: 0 <= j < i ==> Says(heard[j]) == Unknown;
    var k := Search(heard);
    if k < |heard| {
      AskFollowsFirst(heard, error, k);
    } else {
      AskUndecided(heard, error);
    }
  }

  /** A valid answer of unknown, and one of good behind it: the loop answers good. */
  lemma {:induction false} UnknownOverruled(heard: seq<Option<Response>>, error: int)
    requires heard == [Some(Response(true, true, true, true, true, true, 2)),
                       Some(Response(true, true, true, true, true, true, 0))]
    ensures FirstRfcDefinitive(heard, 0) && Says(heard[0]) == Unknown
    ensures Ask(heard, error).answer == Good
  {
    AskFollowsFirst(heard, error, 1);
  }

  /** There is a first definitive responder, or none is. */
  lemma {:induction false} Search(heard: seq<Option<Response>>) returns (i: nat)
    ensures if i < |heard| then FirstDefinitive(heard, i) else Undecided(heard)
  {
    i := 0;
    while i < |heard| && Says(heard[i]) == Unknown
      invariant i <= |heard|
      invariant forall j :: 0 <= j < i ==> Says(heard[j]) == Unknown
    {
      i := i + 1;
    }
  }

  /** What the callbacks learn about the certificate at hand. */
  datatype Cert = Cert(present: bool, selfIssued: bool, hasIssuer: bool, aia: Option<seq<byte>>, requestBuilds: bool) {
    /** The walk over the extension stays inside its buffer; on every well-nested one it does. */
    predicate Readable() {
      aia.Some? ==> !Decode(aia.value).Undefined?
    }

    function Responders(): seq<Url> {
      if aia.None? then []
      else
        match Decode(aia.value)
        case Urls(urls) => urls
        case _ => []
    }
  }

  function Requested(cert: Cert, net: Network, decoder: Decoder, error: int): Asked {
    var urls := cert.Responders();
    if !cert.Readable() then Asked(Lost, error)
    else if urls == [] then Asked(Unknown, error)
    else if !cert.requestBuilds then Asked(Unknown, APPLICATION_VERIFICATION)
    else
      var a := Ask(Heard(net, decoder, urls), error);
      if a.answer == Unknown then Asked(Unknown, UNABLE_TO_GET_CRL) else a
  }

  /** The loop of `ssl_ocsp_request` over all URLs until a definitive answer. */
  method AskAll(urls: seq<Url>, ctx: StoreContext, net: Network, decoder: Decoder) returns (rv: Answer)
    modifies ctx
    ensures Asked(rv, ctx.error) == Ask(Heard(net, decoder, urls), old(ctx.error))
  {
    ghost var heard := Heard(net, decoder, urls);
    rv := Unknown;
    var i := 0;
    while i < |urls|
      invariant i <= |urls| && rv == Unknown
      invariant Ask(heard, old(ctx.error)) == Ask(heard[i..], ctx.error)
    {
      var resp := GetResponse(net(i, CString(urls[i])), decoder);
      assert resp == heard[i..][0] && heard[i..][1..] == heard[i + 1..];
      if resp.Some? {
        rv := ProcessResponse(resp.value, ctx);
        if rv == Good || rv == Revoked {
          return;
        }
      }
      i := i + 1;
    }
  }

  /** `ssl_ocsp_request` */
  method RequestStatus(cert: Cert, ctx: StoreContext, net: Network, decoder: Decoder) returns (rv: Answer)
    modifies ctx
    ensures Asked(rv, ctx.error) == Requested(cert, net, decoder, old(ctx.error))
  {
    rv := Unknown;
    var urls := NoUrls;
    if cert.aia.Some? {
      urls := DecodeOcspUrls(cert.aia.value);
      if urls.Undefined? {
        return Lost;
      }
    }
    if urls.Urls? && |urls.urls| > 0 {
      if !cert.requestBuilds {
        ctx.error := APPLICATION_VERIFICATION;
      } else {
        rv := AskAll(urls.urls, ctx, net, decoder);
        if rv == Unknown {
          ctx.error := UNABLE_TO_GET_CRL;
        }
      }
    }
  }
}
