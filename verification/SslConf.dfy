/** The OCSP settings of an SSL_CONF context, as calls of check, assign and apply leave them. */
module SslConf {
  import opened Bytes
  import opened Contexts
  import Verify
  import OcspClient

  const THROW_RETURN: int := -9

  const NO_OCSP_CHECK := "NO_OCSP_CHECK"
  const OCSP_SOFT_FAIL := "OCSP_SOFT_FAIL"
  const OCSP_TIMEOUT := "OCSP_TIMEOUT"
  const OCSP_VERIFY_FLAGS := "OCSP_VERIFY_FLAGS"

  const CIPHER_STRING := "CipherString"

  type Text = seq<byte>

  /** "!aNULL:!eNULL:!EXP:" */
  const ALWAYS_DISABLED: Text := [33, 97, 78, 85, 76, 76, 58, 33, 101, 78, 85, 76, 76, 58, 33, 69, 88, 80, 58]

  const FALSE_TEXT: Text := [102, 97, 108, 115, 101]

  const LONG_MAX: int := 0x7FFF_FFFF_FFFF_FFFF

  function Lower(b: byte): byte {
    if 65 <= b <= 90 then b + 32 else b
  }

  /** `!strcasecmp(value, "false")` */
  predicate IsFalse(value: Text) {
    |value| == |FALSE_TEXT| && forall i :: 0 <= i < |value| ==> Lower(value[i]) == FALSE_TEXT[i]
  }

  function SpaceRun(s: Text): (n: nat)
    ensures n <= |s|
  {
    if s == [] || !IsSpace(s[0]) then 0 else 1 + SpaceRun(s[1..])
  }

  /** C's strtol in base 10 with a 64-bit long: the value and whether errno is set. */
  datatype Long = Long(value: int, erange: bool)

  function StrToL(s: Text): Long {
    var t := s[SpaceRun(s)..];
    var sign := if t != [] && (t[0] == 43 || t[0] == 45) then 1 else 0;
    var digits := t[sign..][..DigitRun(t[sign..])];
    var magnitude: int := DecimalValue(digits);
    var v := if sign == 1 && t[0] == 45 then -magnitude else magnitude;
    Clamped(v)
  }

  function Clamped(v: int): Long {
    if v > LONG_MAX then Long(LONG_MAX, true)
    else if v < -LONG_MAX - 1 then Long(-LONG_MAX - 1, true)
    else Long(v, false)
  }

  /** The product of two ints as it is stored: truncated, multiplied, wrapped. */
  function Microseconds(v: int): int {
    ToInt32(ToInt32(v) * 1000)
  }

  predicate IsTomcatCommand(cmd: string) {
    cmd == NO_OCSP_CHECK || cmd == OCSP_SOFT_FAIL || cmd == OCSP_TIMEOUT || cmd == OCSP_VERIFY_FLAGS
  }

  /** The settings after one check. */
  function AfterCheck(s: OcspSettings, cmd: string, value: Text): OcspSettings {
    if cmd == NO_OCSP_CHECK then s.(noCheck := if IsFalse(value) then 0 else 1)
    else if cmd == OCSP_SOFT_FAIL then s.(softFail := if IsFalse(value) then 0 else 1)
    else if cmd == OCSP_TIMEOUT then
      (if StrToL(value).erange then s else s.(timeout := Microseconds(StrToL(value).value)))
    else if cmd == OCSP_VERIFY_FLAGS then
      (if StrToL(value).erange then s else s.(verifyFlags := ToInt32(StrToL(value).value)))
    else s
  }

  /** OpenSSL's view of a command: an error, the type of its value, and whether the path is good. */
  datatype ValueType = TypeUnknown | TypeFile | TypeDir | TypeOther
  datatype CommandInfo = CommandInfo(failed: bool, valueType: ValueType, pathOk: bool)

  /** The return code of a call, unless it hands a null value to a C string function, which C leaves
      undefined. */
  datatype Result = Returns(rc: int) | NullValue

  /** `tcn_ssl_conf_ctxt_t` */
  class ConfContext {
    var noOcspCheck: int
    var ocspSoftFail: int
    var ocspTimeout: int
    var ocspVerifyFlags: int

    /** `SSLConf.make` */
    constructor ()
      ensures Settings() == DEFAULTS
    {
      noOcspCheck, ocspSoftFail, ocspTimeout, ocspVerifyFlags := 1, 1, 15_000_000, 0;
    }

    function Settings(): OcspSettings
      reads this
    {
      OcspSettings(noOcspCheck, ocspSoftFail, ocspTimeout, ocspVerifyFlags)
    }

    /** `SSLConf.check`; a null string is `None`. */
    method Check(cmd: Option<string>, value: Option<Text>, info: CommandInfo) returns (r: Result)
      modifies this
      ensures Settings() == if cmd.Some? && IsTomcatCommand(cmd.value) && value.Some?
                            then AfterCheck(old(Settings()), cmd.value, value.value) else old(Settings())
      ensures r == NullValue <==> cmd.Some? && IsTomcatCommand(cmd.value) && value.None?
      ensures r != NullValue ==> r == Returns(1) || r == Returns(THROW_RETURN)
      ensures r == Returns(1) <==>
              (cmd.Some? &&
               if IsTomcatCommand(cmd.value) then value.Some?
               else !info.failed && info.valueType != TypeUnknown
                    && (info.valueType != TypeOther ==> value.Some? && info.pathOk))
    {
      r := Returns(1);
      if cmd.None? {
        return Returns(THROW_RETURN);
      }
      if IsTomcatCommand(cmd.value) && value.None? {
        return NullValue;
      }
      if cmd.value == NO_OCSP_CHECK {
        if IsFalse(value.value) {
          noOcspCheck := 0;
        } else {
          noOcspCheck := 1;
        }
        return;
      }
      if cmd.value == OCSP_SOFT_FAIL {
        if IsFalse(value.value) {
          ocspSoftFail := 0;
        } else {
          ocspSoftFail := 1;
        }
        return;
      }
      if cmd.value == OCSP_TIMEOUT {
        var parsed := StrToL(value.value);
        var i := ToInt32(parsed.value);
        if !parsed.erange {
          ocspTimeout := ToInt32(i * 1000);
        }
        return;
      }
      if cmd.value == OCSP_VERIFY_FLAGS {
        var parsed := StrToL(value.value);
        var i := ToInt32(parsed.value);
        if !parsed.erange {
          ocspVerifyFlags := i;
        }
        return;
      }
      if info.failed || info.valueType == TypeUnknown {
        return Returns(THROW_RETURN);
      }
      if info.valueType == TypeFile || info.valueType == TypeDir {
        if value.None? || !info.pathOk {
          return Returns(THROW_RETURN);
        }
      }
    }

    /** `SSLConf.assign` */
    method Assign(sc: SslContext)
      modifies sc`noOcspCheck, sc`ocspSoftFail, sc`ocspTimeout, sc`ocspVerifyFlags
      ensures sc.Settings() == Settings()
    {
      sc.noOcspCheck := noOcspCheck;
      sc.ocspSoftFail := ocspSoftFail;
      sc.ocspTimeout := ocspTimeout;
      sc.ocspVerifyFlags := ocspVerifyFlags;
    }

    /** `SSLConf.apply`: `accepts` and `openSslRc` are OpenSSL's verdict on the command, `passed` is what
        it is given, if it is asked: the value, behind the ciphers always disabled if it is a cipher
        list. The settings are not touched. */
    method Apply(cmd: Option<string>, value: Option<Text>, accepts: bool, openSslRc: int)
      returns (r: Result, passed: Option<Option<Text>>)
      ensures r == if cmd.None? then Returns(THROW_RETURN)
                   else if cmd.value == CIPHER_STRING && value.None? then NullValue
                   else if IsTomcatCommand(cmd.value) then Returns(1)
                   else if accepts && openSslRc > 0 then Returns(openSslRc) else Returns(THROW_RETURN)
      ensures passed == if cmd.None? || IsTomcatCommand(cmd.value) || r == NullValue then None
                        else if cmd.value == CIPHER_STRING then Some(Some(ALWAYS_DISABLED + value.value))
                        else Some(value)
    {
      if cmd.None? {
        return Returns(THROW_RETURN), None;
      }
      var buf := None;
      if cmd.value == CIPHER_STRING {
        if value.None? {
          return NullValue, None;
        }
        buf := Some(ALWAYS_DISABLED + value.value);
      }
      if cmd.value == NO_OCSP_CHECK || cmd.value == OCSP_SOFT_FAIL {
        return Returns(1), None;
      }
      if cmd.value == OCSP_TIMEOUT || cmd.value == OCSP_VERIFY_FLAGS {
        return Returns(1), None;
      }
      passed := Some(if buf.Some? then buf else value);
      r := Returns(openSslRc);
      if openSslRc <= 0 || !accepts {
        r := Returns(THROW_RETURN);
      }
    }
  }

  // ---------------------------------------------------------------------------------------------
  // Call sequences
  // ---------------------------------------------------------------------------------------------

  datatype Op = Check(cmd: string, value: Text) | Assign | Apply(acmd: string)

  /** The settings of the configuration and of the context. */
  datatype Both = Both(conf: OcspSettings, ctx: OcspSettings)

  function After(b: Both, op: Op): Both {
    match op
    case Check(cmd, value) => b.(conf := AfterCheck(b.conf, cmd, value))
    case Assign => b.(ctx := b.conf)
    case Apply(_) => b
  }

  /** From `make` on both sides. */
  function Run(ops: seq<Op>): Both {
    if ops == [] then Both(DEFAULTS, DEFAULTS) else After(Run(ops[..|ops| - 1]), ops[|ops| - 1])
  }

  /** The check changes the setting `cmd` names: numbers out of range are ignored. */
  predicate Sets(op: Op, cmd: string) {
    op.Check? && op.cmd == cmd && ((cmd == OCSP_TIMEOUT || cmd == OCSP_VERIFY_FLAGS) ==> !StrToL(op.value).erange)
  }

  /** The value of the last check that sets `cmd`. */
  function LastSet(ops: seq<Op>, cmd: string): Option<Text> {
    if ops == [] then None
    else if Sets(ops[|ops| - 1], cmd) then Some(ops[|ops| - 1].value)
    else LastSet(ops[..|ops| - 1], cmd)
  }

  function Flag(v: Option<Text>): int {
    if v.None? then 1 else if IsFalse(v.value) then 0 else 1
  }

  /** Each setting by its own last check, or its default. */
  function ByLastChecks(ops: seq<Op>): OcspSettings {
    var t, f := LastSet(ops, OCSP_TIMEOUT), LastSet(ops, OCSP_VERIFY_FLAGS);
    OcspSettings(
      Flag(LastSet(ops, NO_OCSP_CHECK)),
      Flag(LastSet(ops, OCSP_SOFT_FAIL)),
      if t.None? then 15_000_000 else Microseconds(StrToL(t.value).value),
      if f.None? then 0 else ToInt32(StrToL(f.value).value))
  }

  lemma {:induction false} ConfIsByLastChecks(ops: seq<Op>)
    ensures Run(ops).conf == ByLastChecks(ops)
    decreases |ops|
  {
    hide StrToL, IsFalse, Microseconds, ToInt32;
    if ops != [] {
      ConfIsByLastChecks(ops[..|ops| - 1]);
    }
  }

  /** The number of calls before the last assign; `|ops|` if there is none. */
  function LastAssign(ops: seq<Op>): (k: nat)
    ensures k <= |ops|
    ensures k < |ops| ==> ops[k].Assign? && forall i :: k < i < |ops| ==> !ops[i].Assign?
    ensures k == |ops| ==> Assign !in ops
  {
    if ops == [] then 0
    else if ops[|ops| - 1].Assign? then |ops| - 1
    else
      var k := LastAssign(ops[..|ops| - 1]);
      if k == |ops| - 1 then |ops| else k
  }

  /** After any calls the context holds what the checks before the last assign say, setting by setting;
      later checks and every apply leave it alone. */
  lemma {:induction false} ContextFollowsLastAssign(ops: seq<Op>)
    ensures Run(ops).ctx == if Assign in ops then ByLastChecks(ops[..LastAssign(ops)]) else DEFAULTS
    decreases |ops|
  {
    hide StrToL, IsFalse, Microseconds, ToInt32, ByLastChecks;
    if ops != [] {
      var before := ops[..|ops| - 1];
      var last := ops[|ops| - 1];
      assert ops == before + [last];
      if last.Assign? {
        ConfIsByLastChecks(before);
        assert last in ops;
      } else {
        ContextFollowsLastAssign(before);
        if Assign in before {
          assert before[..LastAssign(before)] == ops[..LastAssign(ops)];
        }
      }
    }
  }

  /** The timeout is stored as 1000 times the number exactly when that number is at most 2147483 in
      absolute value. */
  lemma TimeoutExact(v: int)
    ensures Microseconds(v) == 1000 * v <==> -2147483 <= v <= 2147483
  {
  }

  /** Decimal digits of a number. */
  function DigitsOf(n: nat): (s: Text)
    ensures s != [] && Digits(s)
  {
    if n < 10 then [48 + n] else DigitsOf(n / 10) + [48 + n % 10]
  }

  function TextOf(v: int): Text {
    if v < 0 then [45] + DigitsOf(-v) else DigitsOf(v)
  }

  lemma {:induction false} DigitsValue(n: nat)
    ensures DecimalValue(DigitsOf(n)) == n
  {
    var s := DigitsOf(n);
    if n < 10 {
      assert s[..0] == [] && DecimalValue(s[..0]) == 0;
    } else {
      assert s[..|s| - 1] == DigitsOf(n / 10);
      DigitsValue(n / 10);
    }
  }

  lemma DigitsRead(n: nat)
    ensures var d := DigitsOf(n);
            d[..DigitRun(d)] == d && DecimalValue(d) == n && !IsSpace(d[0]) && d[0] != 43 && d[0] != 45
  {
    var d := DigitsOf(n);
    DigitsValue(n);
    DigitRunOfDigits(d);
    assert IsDigit(d[0]);
  }

  /** Reading the decimal text of a number gives it back, or errno exactly outside the range of a long. */
  lemma ParseOfText(v: int)
    ensures StrToL(TextOf(v)).erange <==> v < -LONG_MAX - 1 || v > LONG_MAX
    ensures !StrToL(TextOf(v)).erange ==> StrToL(TextOf(v)).value == v
  {
    var n := if v < 0 then -v else v;
    var s, d := TextOf(v), DigitsOf(n);
    DigitsRead(n);
    assert SpaceRun(s) == 0 && s[0..] == s;
    if v < 0 {
      assert s[1..] == d;
    }
  }

  lemma {:induction false} SpacesSkipped(white: Text, s: Text)
    requires (forall b <- white :: IsSpace(b)) && (s != [] ==> !IsSpace(s[0]))
    ensures SpaceRun(white + s) == |white|
    decreases |white|
  {
    if white == [] {
      assert white + s == s;
    } else {
      assert white[0] in white;
      assert (white + s)[1..] == white[1..] + s;
      SpacesSkipped(white[1..], s);
    }
  }

  lemma {:induction false} DigitsStop(d: Text, tail: Text)
    requires Digits(d) && (tail != [] ==> !IsDigit(tail[0]))
    ensures DigitRun(d + tail) == |d|
    decreases |d|
  {
    if d == [] {
      assert d + tail == tail;
    } else {
      assert (d + tail)[1..] == d[1..] + tail;
      DigitsStop(d[1..], tail);
    }
  }

  predicate Unsigned(s: Text) {
    s != [] ==> !IsSpace(s[0]) && s[0] != 43 && s[0] != 45
  }

  lemma AfterSpaces(white: Text, s: Text)
    requires (forall b <- white :: IsSpace(b)) && (s != [] ==> !IsSpace(s[0]))
    ensures StrToL(white + s) == StrToL(s)
  {
    hide DigitRun, DecimalValue, SpaceRun, Clamped, Digits;
    SpacesSkipped(white, s);
    SpacesSkipped([], s);
    assert [] + s == s && (white + s)[|white|..] == s && s[0..] == s;
  }

  /** What strtol makes of a sign, digits and a tail. */
  lemma SignAndDigits(sign: Text, d: Text, tail: Text)
    requires Digits(d) && (tail != [] ==> !IsDigit(tail[0]))
    requires sign == [] || sign == [43] || sign == [45]
    requires sign == [] ==> Unsigned(d + tail)
    ensures StrToL(sign + (d + tail)) == Clamped(if sign == [45] then -(DecimalValue(d) as int) else DecimalValue(d))
  {
    hide DigitRun, DecimalValue, SpaceRun, Clamped, Digits;
    var rest := d + tail;
    var s := sign + rest;
    SpacesSkipped([], s);
    assert [] + s == s && s[0..] == s;
    assert s[|sign|..] == rest;
    DigitsStop(d, tail);
    assert rest[..|d|] == d;
  }

  lemma NoDigits()
    ensures Digits([]) && DecimalValue([]) == 0 && Clamped(0) == Long(0, false)
  {
  }

  /** White space in front, a plus sign and whatever follows the digits make no difference; without sign
      or digits the number is 0. */
  lemma ParseIgnoresAround(white: Text, n: nat, tail: Text)
    requires (forall b <- white :: IsSpace(b)) && (tail != [] ==> !IsDigit(tail[0]))
    ensures StrToL(white + (DigitsOf(n) + tail)) == Clamped(n)
    ensures StrToL(white + ([43] + (DigitsOf(n) + tail))) == Clamped(n)
    ensures StrToL(white + ([45] + (DigitsOf(n) + tail))) == Clamped(-(n as int))
    ensures Unsigned(tail) ==> StrToL(white + tail) == Long(0, false)
  {
    hide StrToL, Clamped, DigitsOf;
    var d := DigitsOf(n);
    DigitsRead(n);
    AfterSpaces(white, d + tail);
    AfterSpaces(white, [43] + (d + tail));
    AfterSpaces(white, [45] + (d + tail));
    SignAndDigits([], d, tail);
    SignAndDigits([43], d, tail);
    SignAndDigits([45], d, tail);
    assert [] + (d + tail) == d + tail;
    if Unsigned(tail) {
      assert [] + tail == tail && [] + ([] + tail) == tail;
      AfterSpaces(white, tail);
      NoDigits();
      SignAndDigits([], [], tail);
    }
  }

  /** The texts that switch a flag off: "false" in whatever case. */
  predicate OffText(value: Text) {
    && |value| == 5 && value[0] as char in "Ff" && value[1] as char in "Aa" && value[2] as char in "Ll"
    && value[3] as char in "Ss" && value[4] as char in "Ee"
  }

  lemma LowerIs(b: byte, lower: byte, letters: string)
    requires 97 <= lower <= 122 && letters == [(lower - 32) as char, lower as char]
    ensures Lower(b) == lower <==> b as char in letters
  {
    assert letters[0] in letters && letters[1] in letters;
  }

  /** Exactly those 32 texts; "true", "0" and "no" are not among them. */
  lemma FalseExactly(value: Text)
    ensures IsFalse(value) <==> OffText(value)
    ensures value == [116, 114, 117, 101] || value == [48] || value == [110, 111] ==> !IsFalse(value)
  {
    if |value| == 5 {
      LowerIs(value[0], 102, "Ff");
      LowerIs(value[1], 97, "Aa");
      LowerIs(value[2], 108, "Ll");
      LowerIs(value[3], 115, "Ss");
      LowerIs(value[4], 101, "Ee");
    }
  }

  /** The commands of Tomcat by name: any other leaves all settings alone, and the two flags reach the
      context as they are told, each alone. */
  lemma {:induction false} FlagsReachContext(ops: seq<Op>, cmd: string, value: Text)
    ensures IsTomcatCommand(cmd) <==>
            cmd in {"NO_OCSP_CHECK", "OCSP_SOFT_FAIL", "OCSP_TIMEOUT", "OCSP_VERIFY_FLAGS"}
    ensures var ctx, conf := Run(ops + [Check(cmd, value), Assign]).ctx, Run(ops).conf;
            var flag := if OffText(value) then 0 else 1;
            && (cmd == "NO_OCSP_CHECK" ==> ctx == conf.(noCheck := flag))
            && (cmd == "OCSP_SOFT_FAIL" ==> ctx == conf.(softFail := flag))
            && (!IsTomcatCommand(cmd) ==> ctx == conf)
  {
    hide StrToL, Microseconds, ToInt32, IsFalse, OffText;
    var check := Check(cmd, value);
    var all := ops + [check, Assign];
    assert all[..|all| - 1] == ops + [check];
    assert (ops + [check])[..|ops|] == ops;
    FalseExactly(value);
  }

  /** What is put in front of a cipher list, in letters. */
  lemma AlwaysDisabledText()
    ensures |ALWAYS_DISABLED| == |"!aNULL:!eNULL:!EXP:"|
    ensures forall i :: 0 <= i < |ALWAYS_DISABLED| ==> ALWAYS_DISABLED[i] as char == "!aNULL:!eNULL:!EXP:"[i]
  {
  }

  /** A timeout in milliseconds reaches the context as microseconds, for every number that fits. */
  lemma {:induction false} TimeoutReachesContext(ops: seq<Op>, v: int)
    requires -2147483 <= v <= 2147483
    ensures Run(ops + [Check(OCSP_TIMEOUT, TextOf(v)), Assign]).ctx == Run(ops).conf.(timeout := 1000 * v)
  {
    hide StrToL, IsFalse, Microseconds, ToInt32, TextOf;
    var check := Check(OCSP_TIMEOUT, TextOf(v));
    var all := ops + [check, Assign];
    assert all[..|all| - 1] == ops + [check];
    assert (ops + [check])[..|ops|] == ops;
    ParseOfText(v);
    TimeoutExact(v);
  }

  /** A context whose configuration was never told NO_OCSP_CHECK=false before the last assign accepts and
      refuses certificates without regard to what responders say. */
  lemma NoResponderUnlessSwitchedOn(ops: seq<Op>, policy: Policy, call: Verify.Call, net: OcspClient.Network,
                                    decoder: OcspClient.Decoder)
    requires policy.noOcspCheck == Run(ops).ctx.noCheck
    requires forall v :: LastSet(ops[..LastAssign(ops)], NO_OCSP_CHECK) == Some(v) ==> !IsFalse(v)
    ensures Verify.Callback(policy, call, decoder) == Verify.Callback(policy, call.(net := net), decoder)
  {
    ContextFollowsLastAssign(ops);
  }
}
