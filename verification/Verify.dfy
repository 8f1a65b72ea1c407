/** The certificate-verify callback and the policy it enforces over a whole chain. */
module Verify {
  import opened Bytes
  import opened Contexts
  import opened Aia
  import opened OcspClient
  import Transport
  import HttpHead

  const DEPTH_ZERO_SELF_SIGNED_CERT: int := 18
  const SELF_SIGNED_CERT_IN_CHAIN: int := 19
  const UNABLE_TO_GET_ISSUER_CERT_LOCALLY: int := 20
  const UNABLE_TO_VERIFY_LEAF_SIGNATURE: int := 21
  const CERT_UNTRUSTED: int := 27

  /** SSL_VERIFY_ERROR_IS_OPTIONAL */
  predicate IsOptionalError(errnum: int) {
    errnum == DEPTH_ZERO_SELF_SIGNED_CERT || errnum == SELF_SIGNED_CERT_IN_CHAIN
    || errnum == UNABLE_TO_GET_ISSUER_CERT_LOCALLY || errnum == CERT_UNTRUSTED
    || errnum == UNABLE_TO_VERIFY_LEAF_SIGNATURE
  }

  function Checked(cert: Cert, net: Network, decoder: Decoder, error: int): Asked {
    if !cert.present then Asked(Unknown, error)
    else if cert.selfIssued then Asked(Unknown, V_OK)
    else if !cert.hasIssuer then Asked(Unknown, error)
    else
      var a := Requested(cert, net, decoder, error);
      match a.answer
      case Good => Asked(Good, V_OK)
      case Revoked => Asked(Revoked, CERT_REVOKED)
      case _ => a
  }

  /** `ssl_verify_OCSP` */
  method VerifyOcsp(cert: Cert, ctx: StoreContext, net: Network, decoder: Decoder) returns (r: Answer)
    modifies ctx
    ensures Asked(r, ctx.error) == Checked(cert, net, decoder, old(ctx.error))
  {
    r := Unknown;
    if !cert.present {
      return;
    } else if cert.selfIssued {
      ctx.error := V_OK;
      return;
    }
    if cert.hasIssuer {
      r := RequestStatus(cert, ctx, net, decoder);
      match r {
        case Good => ctx.error := V_OK;
        case Revoked => ctx.error := CERT_REVOKED;
        case Unknown =>
        case Lost =>
      }
    }
  }

  /** What a callback returns and leaves behind, unless the walk over the certificate's extension left
      its buffer. */
  datatype Outcome = Outcome(ok: bool, error: int, keepsPeer: bool, resetsResult: bool) | NoOutcome

  /** One call: entered with `ok` and `error` at `depth`. */
  datatype Call = Call(ok: bool, error: int, depth: int, cert: Cert, net: Network)

  /** `ok` and the error after the OCSP stage. */
  datatype Stage = Stage(ok: bool, error: int) | NoStage

  function OcspStage(policy: Policy, call: Call, decoder: Decoder, error: int): Stage {
    if policy.noOcspCheck != 0 || !call.ok then Stage(call.ok, error)
    else if IsOptionalError(call.error) then Stage(false, APPLICATION_VERIFICATION)
    else
      var c := Checked(call.cert, call.net, decoder, error);
      match c.answer
      case Good => Stage(true, c.error)
      case Revoked => Stage(false, c.error)
      case Unknown => Stage(c.error == 0 || (policy.softFail != 0 && c.error == UNABLE_TO_GET_CRL), c.error)
      case Lost => NoStage
  }

  function Callback(policy: Policy, call: Call, decoder: Decoder): Outcome {
    if policy.mode == VERIFY_UNSET || policy.mode == VERIFY_NONE then Outcome(true, call.error, true, false)
    else if (IsOptionalError(call.error) || call.error == V_OK) && policy.mode == VERIFY_OPTIONAL_NO_CA then
      Outcome(true, call.error, true, true)
    else
      var error := if !call.ok && call.error == CRL_HAS_EXPIRED then -1 else call.error;
      match OcspStage(policy, call, decoder, error)
      case Stage(ok, after) => Outcome(ok && call.depth <= policy.depth, after, ok, false)
      case NoStage => NoOutcome
  }

  /** The callback returns, and returns 1. */
  predicate Accepts(policy: Policy, call: Call, decoder: Decoder) {
    Callback(policy, call, decoder).Outcome? && Callback(policy, call, decoder).ok
  }

  /** `SSL_callback_SSL_verify` */
  method VerifyCallback(con: Connection, store: StoreContext, entered: bool, cert: Cert, net: Network, decoder: Decoder)
    returns (defined: bool, ok: bool)
    modifies con, store
    ensures var o := Callback(con.ctx.GetPolicy(), Call(entered, old(store.error), store.depth, cert, net), decoder);
            && defined == o.Outcome?
            && (defined ==>
                  && ok == o.ok && store.error == o.error
                  && con.hasPeer == (old(con.hasPeer) && o.keepsPeer)
                  && con.verifyResult == (if o.resetsResult then V_OK else old(con.verifyResult)))
    ensures con.phaState == PhaComplete && con.renegState == old(con.renegState)
  {
    hide Checked, IsOptionalError;
    defined, ok := true, entered;
    var errnum, errdepth := store.error, store.depth;
    var verify, depth := con.ctx.verifyMode, con.ctx.verifyDepth;
    var ocspCheckType, ocspSoftFail := con.ctx.noOcspCheck, con.ctx.ocspSoftFail;
    con.phaState := PhaComplete;
    if verify == VERIFY_UNSET || verify == VERIFY_NONE {
      return true, true;
    }
    if (IsOptionalError(errnum) || errnum == V_OK) && verify == VERIFY_OPTIONAL_NO_CA {
      con.verifyResult := V_OK;
      return true, true;
    }
    if !ok && errnum == CRL_HAS_EXPIRED {
      store.error := -1;
    }
    if ocspCheckType == 0 {
      if ok {
        if IsOptionalError(errnum) {
          store.error := APPLICATION_VERIFICATION;
          errnum := APPLICATION_VERIFICATION;
          ok := false;
        } else {
          var ocspResponse := VerifyOcsp(cert, store, net, decoder);
          if ocspResponse == Lost {
            return false, false;
          } else if ocspResponse == Revoked {
            ok := false;
            errnum := store.error;
          } else if ocspResponse == Unknown {
            errnum := store.error;
            if errnum != 0 && !(ocspSoftFail != 0 && errnum == UNABLE_TO_GET_CRL) {
              ok := false;
            }
          }
        }
      }
    }
    if !ok {
      if con.hasPeer {
        con.hasPeer := false;
      }
    }
    if errdepth > depth {
      ok := false;
    }
  }

  // ---------------------------------------------------------------------------------------------
  // The verdict, end to end
  // ---------------------------------------------------------------------------------------------

  /** What is heard from the responders of the certificate of a call. */
  function HeardIn(call: Call, decoder: Decoder): seq<Option<Response>> {
    Heard(call.net, decoder, call.cert.Responders())
  }

  ghost predicate DecidedGood(heard: seq<Option<Response>>) {
    exists i: nat :: FirstDefinitive(heard, i) && Says(heard[i]) == Good
  }

  ghost predicate DecidedRevoked(heard: seq<Option<Response>>) {
    exists i: nat :: FirstDefinitive(heard, i) && Says(heard[i]) == Revoked
  }

  /** The loop's answer, in terms of who spoke first. */
  lemma {:induction false} AnswerDecides(heard: seq<Option<Response>>, error: int)
    ensures Ask(heard, error).answer == Good <==> DecidedGood(heard)
    ensures Ask(heard, error).answer == Revoked <==> DecidedRevoked(heard)
    ensures Ask(heard, error).answer == Unknown <==> Undecided(heard)
    ensures Ask(heard, error).answer != Lost
  {
    var k := Search(heard);
    if k < |heard| {
      AskFollowsFirst(heard, error, k);
      forall i: nat | FirstDefinitive(heard, i)
        ensures i == k
      {
        FirstIsUnique(heard, i, k);
      }
    } else {
      AskUndecided(heard, error);
    }
  }

  lemma FirstIsUnique(heard: seq<Option<Response>>, i: nat, k: nat)
    requires FirstDefinitive(heard, i) && FirstDefinitive(heard, k)
    ensures i == k
  {
  }

  /** The certificate can be put to its responders. */
  predicate Askable(cert: Cert) {
    cert.present && !cert.selfIssued && cert.hasIssuer && cert.Readable() && cert.Responders() != []
  }

  /** In a checking mode, a call entered ok and without error on a certificate with responders is
      accepted exactly when the depth fits, the request can be built, and the first definitive answer
      is good or there is none and soft-fail is on. */
  lemma AcceptedExactlyWhen(policy: Policy, call: Call, decoder: Decoder)
    requires policy.mode == VERIFY_OPTIONAL || policy.mode == VERIFY_REQUIRE
    requires policy.noOcspCheck == 0 && call.ok && call.error == V_OK && Askable(call.cert)
    ensures var heard := HeardIn(call, decoder);
            Accepts(policy, call, decoder) <==>
            && call.depth <= policy.depth
            && call.cert.requestBuilds
            && (DecidedGood(heard) || (Undecided(heard) && policy.softFail != 0))
  {
    AnswerDecides(HeardIn(call, decoder), V_OK);
  }

  /** The error such a call leaves: APPLICATION_VERIFICATION, none, CERT_REVOKED or, soft-fail or not,
      UNABLE_TO_GET_CRL. */
  lemma ErrorLeft(policy: Policy, call: Call, decoder: Decoder)
    requires policy.mode == VERIFY_OPTIONAL || policy.mode == VERIFY_REQUIRE
    requires policy.noOcspCheck == 0 && call.ok && call.error == V_OK && Askable(call.cert)
    ensures var heard := HeardIn(call, decoder);
            Callback(policy, call, decoder).Outcome? &&
            Callback(policy, call, decoder).error ==
            if !call.cert.requestBuilds then 50
            else if DecidedGood(heard) then 0
            else if DecidedRevoked(heard) then 23
            else 3
  {
    AnswerDecides(HeardIn(call, decoder), V_OK);
  }

  /** The verdict of a check that stops at the first answer section 2.2 of RFC 6960 calls definitive. */
  predicate StoppingVerdict(policy: Policy, call: Call, first: Response) {
    && call.depth <= policy.depth && call.cert.requestBuilds
    && (first.certStatus == 0 || (first.certStatus == 2 && policy.softFail != 0))
  }

  /** The code's verdict is that of such a check unless the first definitive answer is unknown and a later
      responder overrules it: by revoked where soft-fail is on, by good where it is off. */
  lemma {:induction false} StoppingVerdictKept(policy: Policy, call: Call, decoder: Decoder, i: nat)
    requires policy.mode == VERIFY_OPTIONAL || policy.mode == VERIFY_REQUIRE
    requires policy.noOcspCheck == 0 && call.ok && call.error == V_OK && Askable(call.cert)
    requires FirstRfcDefinitive(HeardIn(call, decoder), i)
    ensures var heard := HeardIn(call, decoder);
            Accepts(policy, call, decoder) == StoppingVerdict(policy, call, heard[i].value) <==>
            || call.depth > policy.depth || !call.cert.requestBuilds
            || heard[i].value.certStatus != 2
            || !(if policy.softFail != 0 then DecidedRevoked(heard) else DecidedGood(heard))
  {
    var heard := HeardIn(call, decoder);
    AcceptedExactlyWhen(policy, call, decoder);
    AnswerDecides(heard, V_OK);
    RfcAnswerKept(heard, V_OK, i);
  }

  // A certificate with two responders: the first answers a valid unknown, the second good.

  const TWO_URIS: seq<AccessDescription> :=
    [AccessDescription(OCSP_OID, URI, [104]), AccessDescription(OCSP_OID, URI, [105])]

  const VALID_UNKNOWN := Response(true, true, true, true, true, true, 2)
  const VALID_GOOD := Response(true, true, true, true, true, true, 0)

  /** "HTTP/1.0 200 OK", an empty line and a body of one byte. */
  function MessageWith(body: byte): seq<byte> {
    [72, 84, 84, 80, 47, 49, 46, 48, 32, 50, 48, 48, 32, 79, 75, 13, 10, 13, 10, body]
  }

  /** The responder asked `i`-th takes a request of one byte and delivers its number in one read. */
  function TwoAnswers(): Network {
    (i: nat, url: seq<byte>) =>
      Exchange(true, true, Some([71]), true, [Transport.SendResult(1, true)],
               (j: nat) => if j == 0 then Transport.Data(MessageWith(if i == 0 then 0 else 1))
                           else Transport.Stop(true, 0))
  }

  function NumberDecoder(): Decoder {
    (s: seq<byte>) => if s == [0] then Some(VALID_UNKNOWN) else if s == [1] then Some(VALID_GOOD) else None
  }

  function OverruledCall(): Call
    requires (forall ad <- TWO_URIS :: ad.Encodable()) && |EncodeAll(TWO_URIS)| < 0x8000_0000
  {
    Call(true, V_OK, 0, Cert(true, false, true, Some(EncodeAia(TWO_URIS)), true), TwoAnswers())
  }

  lemma TwoUris()
    ensures (forall ad <- TWO_URIS :: ad.Encodable()) && |EncodeAll(TWO_URIS)| < 0x100_0000
    ensures OcspUris(TWO_URIS) == [[104], [105]]
  {
    var last: seq<AccessDescription> := [TWO_URIS[1]];
    assert TWO_URIS[1..] == last && |last[1..]| == 0;
    assert EncodeAll(last) == TWO_URIS[1].Encode() + EncodeAll(last[1..]);
    assert OcspUris(last) == [[105]];
  }

  lemma CodeTwoHundred()
    ensures HttpHead.Accepts([50, 48, 48])
  {
    var code: seq<byte> := [50, 48, 48];
    HttpHead.DecimalSnoc([], 50);
    HttpHead.DecimalSnoc([50], 48);
    HttpHead.DecimalSnoc([50, 48], 48);
    assert [] + [50] == [50] && [50] + [48] == [50, 48] && [50, 48] + [48] == code;
    HttpHead.SmallCodeAccepted(code);
  }

  /** The number of the responder is what its reply decodes from. */
  lemma AnswerDelivered(i: nat, url: seq<byte>)
    ensures Fetch(TwoAnswers()(i, url), NumberDecoder()) == Some(if i == 0 then VALID_UNKNOWN else VALID_GOOD)
  {
    var x := TwoAnswers()(i, url);
    var body: seq<byte> := [if i == 0 then 0 else 1];
    var message := MessageWith(body[0]);
    var status := HttpHead.CrLfStatus([72, 84, 84, 80, 47, 49, 46, 48], [50, 48, 48], [79, 75]);
    assert HttpHead.Line([13, 10]);
    CStringOfPlain([13, 10]);
    HttpHead.BlankBytes([13, 10]);
    assert Flatten([message]) == message + Flatten([]) == message;
    assert message == status.Text() + (Flatten([]) + ([13, 10] + body));
    CodeTwoHundred();
    Transport.OneSend(1, 1);
    FetchOfReply(x, NumberDecoder(), [message], Transport.Stop(true, 0), status, [], [13, 10], body);
  }

  lemma OverruledHeard()
    ensures (forall ad <- TWO_URIS :: ad.Encodable()) && |EncodeAll(TWO_URIS)| < 0x8000_0000
    ensures Askable(OverruledCall().cert)
    ensures HeardIn(OverruledCall(), NumberDecoder()) == [Some(VALID_UNKNOWN), Some(VALID_GOOD)]
  {
    hide EncodeAll, EncodeAia, Fetch, Decode, OcspUris;
    TwoUris();
    DecodeEncode(TWO_URIS);
    var call, decoder := OverruledCall(), NumberDecoder();
    var urls := call.cert.Responders();
    assert urls == OcspUris(TWO_URIS);
    AnswerDelivered(0, CString(urls[0]));
    AnswerDelivered(1, CString(urls[1]));
    var heard := HeardIn(call, decoder);
    assert heard[0] == Fetch(call.net(0, CString(urls[0])), decoder);
    assert heard[1] == Fetch(call.net(1, CString(urls[1])), decoder);
  }

  /** Without soft-fail that certificate is accepted, although the first definitive answer is unknown. */
  lemma OverruledUnknownAccepted()
    ensures (forall ad <- TWO_URIS :: ad.Encodable()) && |EncodeAll(TWO_URIS)| < 0x8000_0000
    ensures FirstRfcDefinitive(HeardIn(OverruledCall(), NumberDecoder()), 0)
    ensures HeardIn(OverruledCall(), NumberDecoder())[0] == Some(VALID_UNKNOWN)
    ensures var policy := Policy(VERIFY_REQUIRE, 1, 0, 0);
            && Accepts(policy, OverruledCall(), NumberDecoder())
            && !StoppingVerdict(policy, OverruledCall(), VALID_UNKNOWN)
  {
    hide EncodeAll, Accepts, HeardIn, Askable;
    OverruledHeard();
    AcceptedExactlyWhen(Policy(VERIFY_REQUIRE, 1, 0, 0), OverruledCall(), NumberDecoder());
    assert FirstDefinitive(HeardIn(OverruledCall(), NumberDecoder()), 1);
  }

  /** A certificate with one OCSP URI, whose responder cannot be reached, is accepted under soft-fail, and
      the error UNABLE_TO_GET_CRL stays. */
  lemma SoftFailKeepsErrorExample(policy: Policy, ads: seq<AccessDescription>, call: Call, decoder: Decoder)
    requires policy == Policy(VERIFY_REQUIRE, 1, 0, 1)
    requires ads == [AccessDescription(OCSP_OID, URI, [104])]
    requires call.ok && call.error == V_OK && call.depth == 0
    requires call.cert == Cert(true, false, true, Some(EncodeAia(ads)), true)
    requires forall i, url :: !call.net(i, url).connects
    ensures Callback(policy, call, decoder) == Outcome(true, 3, true, false)
  {
    DecodeEncode(ads);
    var heard := HeardIn(call, decoder);
    assert call.cert.Responders() == OcspUris(ads) == [[104]];
    forall j | 0 <= j < |heard|
      ensures Says(heard[j]) == Unknown
    {
      assert !call.net(j, CString(call.cert.Responders()[j])).connects;
      assert heard[j] == Fetch(call.net(j, CString(call.cert.Responders()[j])), decoder) == None;
    }
    AskUndecided(heard, V_OK);
  }

  /** The same verdict from the bytes of the certificate: the responders asked are the OCSP URIs of
      its encoded access descriptions, in order. */
  lemma EncodedAiaVerdict(policy: Policy, call: Call, decoder: Decoder, ads: seq<AccessDescription>)
    requires policy.mode == VERIFY_OPTIONAL || policy.mode == VERIFY_REQUIRE
    requires policy.noOcspCheck == 0 && call.ok && call.error == V_OK
    requires call.cert.present && !call.cert.selfIssued && call.cert.hasIssuer
    requires (forall ad <- ads :: ad.Encodable()) && |EncodeAll(ads)| < 0x100_0000
    requires call.cert.aia == Some(EncodeAia(ads))
    ensures call.cert.Readable()
    ensures var heard := Heard(call.net, decoder, OcspUris(ads));
            Accepts(policy, call, decoder) <==>
            && call.depth <= policy.depth
            && (OcspUris(ads) == [] ||
                (call.cert.requestBuilds && (DecidedGood(heard) || (Undecided(heard) && policy.softFail != 0))))
  {
    DecodeEncode(ads);
    if OcspUris(ads) != [] {
      AcceptedExactlyWhen(policy, call, decoder);
    }
  }

  /** The HTTP reply a responder delivers, and how it is cut into reads. */
  datatype Reply = Reply(chunks: seq<seq<byte>>, stop: Transport.Recv, status: HttpHead.StatusLine,
                         headers: seq<seq<byte>>, blank: seq<byte>, body: seq<byte>) {
    predicate WellFormed() {
      && status.Valid() && HttpHead.HeaderLines(headers) && HttpHead.Line(blank) && HttpHead.Blank(blank)
      && Flatten(chunks) == status.Text() + (Flatten(headers) + (blank + body))
      && |Flatten(chunks)| <= Transport.MAX_RESPONSE && HttpHead.Accepts(status.code)
    }
  }

  /** The attempt takes the request and delivers the reply up to the end of file. */
  ghost predicate Replies(x: Exchange, reply: Reply) {
    && x.urlParses && x.portParses && x.request.Some? && x.connects
    && Transport.Transmission(x.sends, |x.request.value|).ok
    && Transport.Delivers(x.feed, 0, reply.chunks, reply.stop) && reply.stop.eof
  }

  /** From certificate bytes and reply bytes to the verdict: if the responders before the `k`-th OCSP URI
      say neither good nor revoked, for whatever reason, and the `k`-th delivers a well-formed 200 reply
      whose body decodes to a definitive response, the certificate is accepted exactly when that response
      passes every gate with status good (and depth and request are in order), soft-fail or not and however
      the reply is cut. */
  lemma {:induction false} FirstReplyDecides(policy: Policy, call: Call, decoder: Decoder,
                                             ads: seq<AccessDescription>, k: nat, reply: Reply, resp: Response)
    requires policy.mode == VERIFY_OPTIONAL || policy.mode == VERIFY_REQUIRE
    requires policy.noOcspCheck == 0 && call.ok && call.error == V_OK
    requires call.cert.present && !call.cert.selfIssued && call.cert.hasIssuer
    requires (forall ad <- ads :: ad.Encodable()) && |EncodeAll(ads)| < 0x100_0000
    requires call.cert.aia == Some(EncodeAia(ads))
    requires k < |OcspUris(ads)|
    requires forall j :: 0 <= j < k ==> Says(Fetch(call.net(j, CString(OcspUris(ads)[j])), decoder)) == Unknown
    requires reply.WellFormed() && Replies(call.net(k, CString(OcspUris(ads)[k])), reply)
    requires decoder(reply.body) == Some(resp) && Judge(resp).answer != Unknown
    ensures Accepts(policy, call, decoder) <==>
            call.depth <= policy.depth && call.cert.requestBuilds && AllGates(resp) && resp.certStatus == 0
  {
    var heard := Heard(call.net, decoder, OcspUris(ads));
    FetchOfReply(call.net(k, CString(OcspUris(ads)[k])), decoder, reply.chunks, reply.stop,
                 reply.status, reply.headers, reply.blank, reply.body);
    assert heard[k] == Some(resp);
    forall j | 0 <= j < k
      ensures Says(heard[j]) == Unknown
    {
      assert heard[j] == Fetch(call.net(j, CString(OcspUris(ads)[j])), decoder);
    }
    assert FirstDefinitive(heard, k);
    forall i: nat | FirstDefinitive(heard, i)
      ensures i == k
    {
      FirstIsUnique(heard, i, k);
    }
    EncodedAiaVerdict(policy, call, decoder, ads);
  }

  /** The certificate is put to its responders, but the walk over its extension leaves the buffer. */
  predicate Strays(cert: Cert) {
    cert.present && !cert.selfIssued && cert.hasIssuer && !cert.Readable()
  }

  /** The callback has no defined outcome exactly when it checks such a certificate. */
  lemma UndefinedExactlyWhen(policy: Policy, call: Call, decoder: Decoder)
    ensures Callback(policy, call, decoder).NoOutcome? <==>
            && policy.mode != VERIFY_UNSET && policy.mode != VERIFY_NONE
            && !(policy.mode == VERIFY_OPTIONAL_NO_CA && call.error == V_OK)
            && policy.noOcspCheck == 0 && call.ok && call.error !in {18, 19, 20, 21, 27} && Strays(call.cert)
  {
    AnswerDecides(HeardIn(call, decoder), call.error);
  }

  /** A well-nested extension never leads there. */
  lemma NestedExtensionIsDefined(policy: Policy, call: Call, decoder: Decoder)
    requires call.cert.aia.Some? ==> WellNested(call.cert.aia.value)
    ensures Callback(policy, call, decoder).Outcome?
  {
    UndefinedExactlyWhen(policy, call, decoder);
    if call.cert.aia.Some? {
      NestedIsDefined(call.cert.aia.value);
    }
  }

  /** Every mode and every entry: the callback accepts only if checking is off, or optional trust
      excuses the error, or the call was entered ok within the depth and OCSP is off or satisfied. */
  ghost predicate OcspSatisfied(policy: Policy, call: Call, decoder: Decoder) {
    var heard := HeardIn(call, decoder);
    var excused := call.error == V_OK || (policy.softFail != 0 && call.error == UNABLE_TO_GET_CRL);
    && call.error !in {18, 19, 20, 21, 27}
    && !Strays(call.cert)
    && if call.cert.present && call.cert.selfIssued then true
       else if !Askable(call.cert) then excused
       else call.cert.requestBuilds && (DecidedGood(heard) || (Undecided(heard) && policy.softFail != 0))
  }

  lemma CallbackPolicy(policy: Policy, call: Call, decoder: Decoder)
    ensures Accepts(policy, call, decoder) <==>
            || policy.mode == -1 || policy.mode == 0
            || (policy.mode == 3 && call.error in {0, 18, 19, 20, 21, 27})
            || (call.ok && call.depth <= policy.depth
                && (policy.noOcspCheck != 0 || OcspSatisfied(policy, call, decoder)))
  {
    AnswerDecides(HeardIn(call, decoder), call.error);
  }

  /** What a call leaves when checking is on: the peer certificate stays exactly if the call was entered
      ok and OCSP is off or satisfied, whatever the depth; a call entered with a failure keeps its error,
      except that an expired CRL is reported as an unspecific one. */
  lemma LeftBehind(policy: Policy, call: Call, decoder: Decoder)
    requires policy.mode != VERIFY_UNSET && policy.mode != VERIFY_NONE
    requires policy.mode == 3 ==> call.error !in {0, 18, 19, 20, 21, 27}
    ensures Callback(policy, call, decoder).Outcome? ==>
              (Callback(policy, call, decoder).keepsPeer <==>
               call.ok && (policy.noOcspCheck != 0 || OcspSatisfied(policy, call, decoder)))
    ensures !call.ok ==>
              Callback(policy, call, decoder).Outcome? &&
              Callback(policy, call, decoder).error == if call.error == 12 then -1 else call.error
  {
    AnswerDecides(HeardIn(call, decoder), call.error);
  }

  /** Optional trust without a CA excuses exactly five errors, at any depth and whatever OCSP is set to: a
      self-signed certificate alone (18) or in the chain (19), an issuer not found (20), a leaf that cannot
      be verified (21) and an untrusted certificate (27). */
  lemma UnknownCaExcused(policy: Policy, call: Call, decoder: Decoder)
    requires policy.mode == 3
    ensures call.error in {0, 18, 19, 20, 21, 27} ==>
              Callback(policy, call, decoder) == Outcome(true, call.error, true, true)
    ensures call.error !in {0, 18, 19, 20, 21, 27} && !call.ok ==> !Accepts(policy, call, decoder)
  {
  }

  /** In the other checking modes a call entered ok with one of these errors is refused where OCSP is on,
      without asking a responder, and leaves the error 50. */
  lemma OptionalErrorRefused(policy: Policy, call: Call, decoder: Decoder)
    requires policy.mode == 1 || policy.mode == 2
    requires policy.noOcspCheck == 0 && call.ok && call.error in {18, 19, 20, 21, 27}
    ensures Callback(policy, call, decoder) == Outcome(false, 50, false, false)
  {
  }

  /** The stored verify result is reset exactly there; where nothing is checked all is left as it was. */
  lemma ResultReset(policy: Policy, call: Call, decoder: Decoder)
    ensures var o := Callback(policy, call, decoder);
            o.Outcome? && o.resetsResult <==> policy.mode == 3 && call.error in {0, 18, 19, 20, 21, 27}
    ensures policy.mode == -1 || policy.mode == 0 ==>
              Callback(policy, call, decoder) == Outcome(true, call.error, true, false)
  {
  }

  // ---------------------------------------------------------------------------------------------
  // Whole chains
  // ---------------------------------------------------------------------------------------------

  /** A chain walk calls back certificate by certificate and stops at the first refusal. */
  function ChainAccepted(policy: Policy, calls: seq<Call>, decoder: Decoder): bool {
    calls == [] || (Accepts(policy, calls[0], decoder) && ChainAccepted(policy, calls[1..], decoder))
  }

  lemma {:induction false} EveryCallAccepted(policy: Policy, calls: seq<Call>, decoder: Decoder)
    ensures ChainAccepted(policy, calls, decoder) <==>
            forall i :: 0 <= i < |calls| ==> Accepts(policy, calls[i], decoder)
  {
    if calls != [] {
      var rest := calls[1..];
      EveryCallAccepted(policy, rest, decoder);
      if ChainAccepted(policy, calls, decoder) {
        forall i | 0 <= i < |calls|
          ensures Accepts(policy, calls[i], decoder)
        {
          if i > 0 {
            assert calls[i] == rest[i - 1];
          }
        }
      } else if Accepts(policy, calls[0], decoder) {
        var i :| 0 <= i < |rest| && !Accepts(policy, rest[i], decoder);
        assert calls[i + 1] == rest[i];
      }
    }
  }

  /** An accepted chain in a checking mode has every call entered ok within the depth, and with OCSP on
      no certificate of it that was put to its responders was first answered revoked. */
  lemma AcceptedChainIsSafe(policy: Policy, calls: seq<Call>, decoder: Decoder, i: nat)
    requires policy.mode == VERIFY_OPTIONAL || policy.mode == VERIFY_REQUIRE
    requires ChainAccepted(policy, calls, decoder) && i < |calls|
    ensures calls[i].ok && calls[i].depth <= policy.depth
    ensures policy.noOcspCheck == 0 && Askable(calls[i].cert) ==>
              calls[i].cert.requestBuilds && !DecidedRevoked(HeardIn(calls[i], decoder))
  {
    EveryCallAccepted(policy, calls, decoder);
    CallbackPolicy(policy, calls[i], decoder);
    AnswerDecides(HeardIn(calls[i], decoder), calls[i].error);
  }

  /** `lax` is as strict as `strict`, or less so: same mode and OCSP switch, soft-fail possibly on, a
      depth at least as large. */
  predicate AtMostAsStrict(lax: Policy, strict: Policy) {
    && lax.mode == strict.mode && lax.noOcspCheck == strict.noOcspCheck
    && strict.depth <= lax.depth && (strict.softFail != 0 ==> lax.softFail != 0)
  }

  /** Turning soft-fail on or raising the depth never rejects a chain that was accepted. */
  lemma {:induction false} LaxerPolicyKeepsChains(strict: Policy, lax: Policy, calls: seq<Call>, decoder: Decoder)
    requires AtMostAsStrict(lax, strict) && ChainAccepted(strict, calls, decoder)
    ensures ChainAccepted(lax, calls, decoder)
  {
    EveryCallAccepted(strict, calls, decoder);
    EveryCallAccepted(lax, calls, decoder);
    forall i | 0 <= i < |calls|
      ensures Accepts(lax, calls[i], decoder)
    {
      CallbackPolicy(strict, calls[i], decoder);
      CallbackPolicy(lax, calls[i], decoder);
    }
  }
}
