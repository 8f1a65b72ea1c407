/** The objects the callbacks share: the SSL context, the connection and OpenSSL's store context. */
module Contexts {
  import opened Bytes

  const VERIFY_UNSET: int := -1
  const VERIFY_NONE: int := 0
  const VERIFY_OPTIONAL: int := 1
  const VERIFY_REQUIRE: int := 2
  const VERIFY_OPTIONAL_NO_CA: int := 3

  /** The fields of a context that the verify callback reads. */
  datatype Policy = Policy(mode: int, depth: int, noOcspCheck: int, softFail: int)

  /** The four OCSP settings that travel from a configuration to a context. */
  datatype OcspSettings = OcspSettings(noCheck: int, softFail: int, timeout: int, verifyFlags: int)

  /** OCSP_NO_CHECK_DEFAULT, OCSP_SOFT_FAIL_DEFAULT, OCSP_TIMEOUT_DEFAULT, OCSP_VERIFY_FLAGS_DEFAULT */
  const DEFAULTS := OcspSettings(1, 1, 15_000_000, 0)

  /** `tcn_ssl_ctxt_t` */
  class SslContext {
    var verifyMode: int
    var verifyDepth: int
    var noOcspCheck: int
    var ocspSoftFail: int
    var ocspTimeout: int
    var ocspVerifyFlags: int
    var alpnProtoData: array?<byte>
    var alpnProtoLen: nat

    /** The defaults `SSLContext.make` writes. */
    constructor ()
      ensures Settings() == DEFAULTS && verifyMode == VERIFY_UNSET && verifyDepth == 1
      ensures alpnProtoData == null && alpnProtoLen == 0
    {
      verifyMode, verifyDepth := VERIFY_UNSET, 1;
      noOcspCheck, ocspSoftFail, ocspTimeout, ocspVerifyFlags := 1, 1, 15_000_000, 0;
      alpnProtoData, alpnProtoLen := null, 0;
    }

    function GetPolicy(): Policy
      reads this
    {
      Policy(verifyMode, verifyDepth, noOcspCheck, ocspSoftFail)
    }

    function Settings(): OcspSettings
      reads this
    {
      OcspSettings(noOcspCheck, ocspSoftFail, ocspTimeout, ocspVerifyFlags)
    }
  }

  datatype RenegState = Init | Reject | Allow | Abort

  datatype PhaState = PhaNone | PhaStarted | PhaComplete

  /** `tcn_ssl_conn_t`; `verifyResult` is the result stored in its SSL object. */
  class Connection {
    const ctx: SslContext
    var renegState: RenegState
    var phaState: PhaState
    var hasPeer: bool
    var verifyResult: int

    constructor (ctx: SslContext)
      ensures this.ctx == ctx && renegState == Init && phaState == PhaNone && !hasPeer && verifyResult == 0
    {
      this.ctx := ctx;
      renegState, phaState, hasPeer, verifyResult := Init, PhaNone, false, 0;
    }
  }

  /** `X509_STORE_CTX`: the error a callback finds and leaves, and the depth it is called at. */
  class StoreContext {
    var error: int
    const depth: int

    constructor (error: int, depth: int)
      ensures this.error == error && this.depth == depth
    {
      this.error, this.depth := error, depth;
    }
  }
}
