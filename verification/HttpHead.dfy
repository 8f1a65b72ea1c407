/** The HTTP head of an OCSP reply: status line, header lines, blank line, contents. */
module HttpHead {
  import opened Bytes
  import opened Memory

  const LINE_ROOM: nat := 511            // BIO_gets with a size of 512 keeps one byte for the NUL
  const ULONG_MAX: nat := 0xFFFF_FFFF_FFFF_FFFF

  /** How many bytes one line read takes: up to and including the first newline, at most `room`. */
  function LineLength(s: seq<byte>, room: nat): (n: nat)
    ensures n <= |s| && n <= room
    ensures s != [] && room > 0 ==> n > 0
    ensures LF !in s[..if n > 0 then n - 1 else 0]
    ensures n < |s| && n < room ==> n > 0 && s[n - 1] == LF
  {
    if s == [] || room == 0 then 0
    else if s[0] == LF then 1
    else
      var n := LineLength(s[1..], room - 1);
      assert s[..n] == [s[0]] + s[1..][..if n > 0 then n - 1 else 0] || n == 0;
      1 + n
  }

  /** The memory BIO the reply is read from. */
  class MemoryBio {
    var data: seq<byte>

    constructor (data: seq<byte>)
      ensures this.data == data
    {
      this.data := data;
    }

    /** `BIO_gets`: a line and its NUL, or a lone NUL and the count 0 when nothing is left. */
    method Gets(buf: array<byte>, size: nat) returns (n: nat)
      requires 0 < size <= buf.Length
      modifies this, buf
      ensures n == LineLength(old(data), size - 1)
      ensures buf[..n] == old(data)[..n] && buf[n] == NUL && data == old(data)[n..]
      ensures forall k :: n < k < buf.Length ==> buf[k] == old(buf[k])
    {
      n := LineEnd(data, size - 1);
      CopyInto(buf, 0, data[..n]);
      buf[n] := NUL;
      data := data[n..];
    }
  }

  /** The scan for the end of a line. */
  method LineEnd(s: seq<byte>, room: nat) returns (n: nat)
    ensures n == LineLength(s, room)
  {
    n := 0;
    while n < room && n < |s|
      invariant n <= room && n <= |s|
      invariant LineLength(s, room) == n + LineLength(s[n..], room - n)
    {
      assert s[n..][0] == s[n] && s[n..][1..] == s[n + 1..];
      n := n + 1;
      if s[n - 1] == LF {
        return;
      }
    }
  }

  // ---------------------------------------------------------------------------------------------
  // Scanning one line; running off the line meets the NUL behind it
  // ---------------------------------------------------------------------------------------------

  predicate EndAt(t: seq<byte>, i: nat) {
    i >= |t| || t[i] == NUL
  }

  function SkipWord(t: seq<byte>, i: nat): (j: nat)
    ensures i <= j
    decreases |t| - i
  {
    if EndAt(t, i) || IsSpace(t[i]) then i else SkipWord(t, i + 1)
  }

  function SkipSpace(t: seq<byte>, i: nat): (j: nat)
    ensures i <= j
    decreases |t| - i
  {
    if i >= |t| || !IsSpace(t[i]) then i else SkipSpace(t, i + 1)
  }

  predicate Blank(t: seq<byte>) {
    EndAt(t, SkipSpace(t, 0))
  }

  /** The status code of a status line: its second word, which must be followed by white space. */
  function StatusToken(t: seq<byte>): Option<seq<byte>> {
    var p0 := SkipWord(t, 0);
    if EndAt(t, p0) then None
    else
      var p := SkipSpace(t, p0);
      if EndAt(t, p) then None
      else
        var q := SkipWord(t, p);
        if EndAt(t, q) then None else Some(t[p..q])
  }

  /** C's strtoul in base 10 with a 64-bit unsigned long: value and bytes used. */
  datatype Number = Number(value: nat, used: nat)

  function StrToUl(s: seq<byte>): Number {
    var sign := if s != [] && (s[0] == 43 || s[0] == 45) then 1 else 0;
    var n := DigitRun(s[sign..]);
    if n == 0 then Number(0, 0)
    else
      var v := DecimalValue(s[sign..][..n]);
      if v > ULONG_MAX then Number(ULONG_MAX, sign + n)
      else if sign == 1 && s[0] == 45 then Number((ULONG_MAX + 1 - v) % (ULONG_MAX + 1), sign + n)
      else Number(v, sign + n)
  }

  /** The code is a number to its last byte and is 200 once it is stored in an `int`. */
  predicate Accepts(code: seq<byte>) {
    StrToUl(code).used == |code| && ToInt32(StrToUl(code).value) == 200
  }

  /** What follows the first blank line. */
  function AfterBlank(s: seq<byte>): Option<seq<byte>>
    decreases |s|
  {
    var n := LineLength(s, LINE_ROOM);
    if n == 0 then None
    else if Blank(s[..n]) then Some(s[n..])
    else AfterBlank(s[n..])
  }

  /** The bytes of a reply that are handed to the OCSP decoder. */
  function Content(reply: seq<byte>): Option<seq<byte>> {
    var n := LineLength(reply, LINE_ROOM);
    var code := StatusToken(reply[..n]);
    if code.Some? && Accepts(code.value) then AfterBlank(reply[n..]) else None
  }

  function Parsed<T>(decoder: seq<byte> -> Option<T>, reply: seq<byte>): Option<T> {
    match Content(reply)
    case None => None
    case Some(body) => decoder(body)
  }

  /** `for (p = ...; *p && !apr_isspace(*p); p++)` */
  method ScanWord(tmp: array<byte>, start: nat, ghost n: nat) returns (p: nat)
    requires start <= n < tmp.Length && tmp[n] == NUL
    ensures p == SkipWord(tmp[..n], start) && p <= n
    ensures (tmp[p] == NUL) == EndAt(tmp[..n], p)
  {
    p := start;
    while tmp[p] != NUL && !IsSpace(tmp[p])
      invariant start <= p <= n
      invariant SkipWord(tmp[..n], start) == SkipWord(tmp[..n], p)
      decreases n - p
    {
      p := p + 1;
    }
  }

  /** `while (apr_isspace(*p)) p++` */
  method ScanSpace(tmp: array<byte>, start: nat, ghost n: nat) returns (p: nat)
    requires start <= n < tmp.Length && tmp[n] == NUL
    ensures p == SkipSpace(tmp[..n], start) && p <= n
    ensures (tmp[p] == NUL) == EndAt(tmp[..n], p)
  {
    p := start;
    while IsSpace(tmp[p])
      invariant start <= p <= n
      invariant SkipSpace(tmp[..n], start) == SkipSpace(tmp[..n], p)
      decreases n - p
    {
      p := p + 1;
    }
  }

  /** The status line part of `parse_ocsp_resp`; `p` is left inside the line on acceptance. */
  method ReadStatus(tmpbuf: array<byte>, n: nat) returns (ok: bool, p: nat)
    requires 0 < n < tmpbuf.Length && tmpbuf[n] == NUL
    ensures ok == (StatusToken(tmpbuf[..n]).Some? && Accepts(StatusToken(tmpbuf[..n]).value))
    ensures ok ==> p < tmpbuf.Length && tmpbuf[p] != NUL
  {
    p := ScanWord(tmpbuf, 0, n);
    if tmpbuf[p] == NUL {
      return false, p;
    }
    p := ScanSpace(tmpbuf, p, n);
    if tmpbuf[p] == NUL {
      return false, p;
    }
    var q := ScanWord(tmpbuf, p, n);
    if tmpbuf[q] == NUL {
      return false, p;
    }
    assert tmpbuf[p..q] == tmpbuf[..n][p..q];
    var number := StrToUl(tmpbuf[p..q]);
    if number.used != q - p {
      return false, p;
    }
    return ToInt32(number.value) == 200, p;
  }

  /** The header loop of `parse_ocsp_resp`: reads lines until a blank one, and reports what `*p` then is.
      With nothing left to read, the lone NUL may be stored at `p` itself. */
  method SkipHeaders(mem: MemoryBio, tmpbuf: array<byte>, start: nat) returns (p: nat)
    requires start < tmpbuf.Length == 1024 && tmpbuf[start] != NUL
    modifies mem, tmpbuf
    ensures p < tmpbuf.Length
    ensures match AfterBlank(old(mem.data))
            case Some(body) => tmpbuf[p] == NUL && mem.data == body
            case None => tmpbuf[p] != NUL || mem.data == []
  {
    p := start;
    while true
      invariant p < tmpbuf.Length && tmpbuf[p] != NUL
      invariant AfterBlank(old(mem.data)) == AfterBlank(mem.data)
      decreases |mem.data|
    {
      ghost var before := mem.data;
      var n := mem.Gets(tmpbuf, 512);
      if n == 0 {
        assert before[0..] == before;
        return;
      }
      assert tmpbuf[..n] == before[..n];
      p := ScanSpace(tmpbuf, 0, n);
      if tmpbuf[p] == NUL {
        return;
      }
    }
  }

  /** `parse_ocsp_resp`. The decoder gives nothing for no bytes: the DER of a response is never empty. */
  method ParseResponse<T>(decoder: seq<byte> -> Option<T>, reply: seq<byte>) returns (resp: Option<T>)
    requires decoder([]).None?
    ensures resp == Parsed(decoder, reply)
  {
    var mem := new MemoryBio(reply);
    var tmpbuf := new byte[1024];
    var n := mem.Gets(tmpbuf, 512);
    if n == 0 {
      return None;
    }
    assert tmpbuf[..n] == reply[..n];
    var ok, p := ReadStatus(tmpbuf, n);
    if !ok {
      return None;
    }
    p := SkipHeaders(mem, tmpbuf, p);
    if tmpbuf[p] != NUL {
      return None;
    }
    resp := decoder(mem.data);
  }

  // ---------------------------------------------------------------------------------------------
  // Which replies are accepted, and what of them
  // ---------------------------------------------------------------------------------------------

  /** A line that one read takes whole. */
  predicate Line(s: seq<byte>) {
    0 < |s| <= LINE_ROOM && s[|s| - 1] == LF && LF !in s[..|s| - 1]
  }

  lemma {:induction false} LineIsReadWhole(line: seq<byte>, rest: seq<byte>, room: nat)
    requires 0 < |line| <= room && line[|line| - 1] == LF && LF !in line[..|line| - 1]
    ensures LineLength(line + rest, room) == |line|
  {
    assert (line + rest)[0] == line[0];
    if |line| > 1 {
      assert line[..|line| - 1][0] == line[0];
      assert line[1..][..|line| - 2] == line[..|line| - 1][1..];
      assert (line + rest)[1..] == line[1..] + rest;
      LineIsReadWhole(line[1..], rest, room - 1);
    }
  }

  lemma {:induction false} SkipWordTo(t: seq<byte>, i: nat, j: nat)
    requires i <= j <= |t|
    requires forall k :: i <= k < j ==> t[k] != NUL && !IsSpace(t[k])
    requires j < |t| ==> IsSpace(t[j])
    ensures SkipWord(t, i) == j
    decreases j - i
  {
    if i < j {
      SkipWordTo(t, i + 1, j);
    }
  }

  lemma {:induction false} SkipSpaceTo(t: seq<byte>, i: nat, j: nat)
    requires i <= j <= |t|
    requires forall k :: i <= k < j ==> IsSpace(t[k])
    requires j < |t| ==> !IsSpace(t[j])
    ensures SkipSpace(t, i) == j
    decreases j - i
  {
    if i < j {
      SkipSpaceTo(t, i + 1, j);
    }
  }

  lemma {:induction false} SkipWordStops(t: seq<byte>, i: nat)
    requires i <= |t|
    ensures var j := SkipWord(t, i);
            && j <= |t| && (forall k :: i <= k < j ==> t[k] != NUL && !IsSpace(t[k]))
            && (EndAt(t, j) || IsSpace(t[j]))
    decreases |t| - i
  {
    if !EndAt(t, i) && !IsSpace(t[i]) {
      SkipWordStops(t, i + 1);
    }
  }

  lemma {:induction false} SkipSpaceStops(t: seq<byte>, i: nat)
    requires i <= |t|
    ensures var j := SkipSpace(t, i);
            && j <= |t| && (forall k :: i <= k < j ==> IsSpace(t[k]))
            && (j < |t| ==> !IsSpace(t[j]))
    decreases |t| - i
  {
    if i < |t| && IsSpace(t[i]) {
      SkipSpaceStops(t, i + 1);
    }
  }

  predicate Word(s: seq<byte>) {
    forall b <- s :: b != NUL && !IsSpace(b)
  }

  /** A status line: protocol, white space, code, and a tail that opens with white space. */
  datatype StatusLine = StatusLine(protocol: seq<byte>, gap: seq<byte>, code: seq<byte>, tail: seq<byte>) {
    function Text(): seq<byte> {
      protocol + gap + code + tail
    }

    predicate Shaped() {
      && Word(protocol) && Word(code) && code != []
      && gap != [] && (forall b <- gap :: IsSpace(b))
      && tail != [] && IsSpace(tail[0])
    }

    predicate Valid() {
      Shaped() && Line(Text())
    }
  }

  lemma StatusTokenIsCode(s: StatusLine)
    requires s.Shaped()
    ensures StatusToken(s.Text()) == Some(s.code)
  {
    var t := s.Text();
    var a, b := |s.protocol|, |s.protocol| + |s.gap|;
    var c := b + |s.code|;
    assert forall k :: 0 <= k < a ==> t[k] == s.protocol[k] && s.protocol[k] in s.protocol;
    assert forall k :: a <= k < b ==> t[k] == s.gap[k - a] && s.gap[k - a] in s.gap;
    assert forall k :: b <= k < c ==> t[k] == s.code[k - b] && s.code[k - b] in s.code;
    assert t[c] == s.tail[0];
    SkipWordTo(t, 0, a);
    SkipSpaceTo(t, a, b);
    SkipWordTo(t, b, c);
    assert t[b..c] == s.code;
  }

  lemma WordSlice(t: seq<byte>, i: nat, j: nat)
    requires i <= j <= |t| && forall k :: i <= k < j ==> t[k] != NUL && !IsSpace(t[k])
    ensures Word(t[i..j])
  {
  }

  lemma SpaceSlice(t: seq<byte>, i: nat, j: nat)
    requires i <= j <= |t| && forall k :: i <= k < j ==> IsSpace(t[k])
    ensures forall b <- t[i..j] :: IsSpace(b)
  {
  }

  lemma FourParts(t: seq<byte>, a: nat, b: nat, c: nat)
    requires a <= b <= c <= |t|
    ensures t[0..a] + t[a..b] + t[b..c] + t[c..] == t
  {
  }

  lemma LineOfToken(t: seq<byte>) returns (s: StatusLine)
    requires StatusToken(t).Some?
    ensures s.Shaped() && s.Text() == t && StatusToken(t) == Some(s.code)
  {
    hide SkipWord, SkipSpace, Word;
    var a := SkipWord(t, 0);
    var b := SkipSpace(t, a);
    var c := SkipWord(t, b);
    SkipWordStops(t, 0);
    SkipSpaceStops(t, a);
    SkipWordStops(t, b);
    WordSlice(t, 0, a);
    SpaceSlice(t, a, b);
    WordSlice(t, b, c);
    FourParts(t, a, b, c);
    s := StatusLine(t[0..a], t[a..b], t[b..c], t[c..]);
    assert s.tail[0] == t[c];
  }

  /** A line has a status code exactly when it has that shape, and then it is the code. */
  lemma StatusTokenExactly(t: seq<byte>, code: seq<byte>)
    ensures StatusToken(t) == Some(code) <==>
            exists s: StatusLine :: s.Shaped() && s.Text() == t && s.code == code
  {
    if StatusToken(t) == Some(code) {
      var s := LineOfToken(t);
    }
    if s: StatusLine :| s.Shaped() && s.Text() == t && s.code == code {
      StatusTokenIsCode(s);
    }
  }

  predicate HeaderLines(headers: seq<seq<byte>>) {
    forall h <- headers :: Line(h) && !Blank(h)
  }

  lemma {:induction false} HeadersAreSkipped(headers: seq<seq<byte>>, rest: seq<byte>)
    requires HeaderLines(headers)
    ensures AfterBlank(Flatten(headers) + rest) == AfterBlank(rest)
    decreases |headers|
  {
    if headers == [] {
      assert Flatten(headers) + rest == rest;
    } else {
      var h, more := headers[0], Flatten(headers[1..]) + rest;
      assert h in headers;
      assert Flatten(headers) + rest == h + more;
      LineIsReadWhole(h, more, LINE_ROOM);
      assert (h + more)[..|h|] == h && (h + more)[|h|..] == more;
      HeadersAreSkipped(headers[1..], rest);
    }
  }

  lemma StatusLineDecides(s: StatusLine, rest: seq<byte>)
    requires s.Valid()
    ensures Content(s.Text() + rest) == if Accepts(s.code) then AfterBlank(rest) else None
  {
    var t := s.Text();
    LineIsReadWhole(t, rest, LINE_ROOM);
    assert (t + rest)[..|t|] == t && (t + rest)[|t|..] == rest;
    StatusTokenIsCode(s);
  }

  /** A whole reply hands over exactly its body, or nothing when the code is not accepted. */
  lemma ReplyHandsOverBody(s: StatusLine, headers: seq<seq<byte>>, blank: seq<byte>, body: seq<byte>)
    requires s.Valid() && HeaderLines(headers) && Line(blank) && Blank(blank)
    ensures Content(s.Text() + (Flatten(headers) + (blank + body))) == if Accepts(s.code) then Some(body) else None
  {
    StatusLineDecides(s, Flatten(headers) + (blank + body));
    HeadersAreSkipped(headers, blank + body);
    LineIsReadWhole(blank, body, LINE_ROOM);
    assert (blank + body)[..|blank|] == blank && (blank + body)[|blank|..] == body;
  }

  lemma CStringUpTo(s: seq<byte>, j: nat)
    requires j <= |s| && NUL !in s[..j] && (j < |s| ==> s[j] == NUL)
    ensures CString(s) == s[..j]
  {
    var t := CString(s);
    assert forall k :: 0 <= k < j ==> s[k] in s[..j];
    assert forall k :: 0 <= k < |t| ==> t[k] in t;
    assert |t| == j;
  }

  /** A line is blank exactly when it holds nothing but tabs, line feeds, form feeds, carriage returns and
      blanks, up to its first NUL. */
  lemma BlankBytes(line: seq<byte>)
    ensures Blank(line) <==> forall b <- CString(line) :: b in {9, 10, 11, 12, 13, 32}
  {
    hide SkipSpace, CString;
    SkipSpaceStops(line, 0);
    var j := SkipSpace(line, 0);
    forall k | 0 <= k < j
      ensures line[k] in {9, 10, 11, 12, 13, 32}
    {
      Classes(line[k]);
    }
    if EndAt(line, j) {
      CStringUpTo(line, j);
    } else {
      Classes(line[j]);
      PrefixOfCString(line, j);
    }
  }

  lemma PrefixOfCString(s: seq<byte>, j: nat)
    requires j < |s| && NUL !in s[..j + 1]
    ensures s[j] in CString(s)
  {
    var t := CString(s);
    assert forall k :: 0 <= k <= j ==> s[k] in s[..j + 1];
    assert |t| > j;
    assert t[j] == s[j];
  }

  const CR_LF: seq<byte> := [13, 10]

  /** What stands on a line before CR LF: no control character but tabs, and something visible first. */
  predicate Field(h: seq<byte>) {
    0 < |h| <= 509 && h[0] > 32 && forall b <- h :: b == 9 || b >= 32
  }

  predicate Visible(s: seq<byte>) {
    forall b <- s :: b > 32
  }

  lemma FieldLine(h: seq<byte>)
    requires Field(h)
    ensures Line(h + CR_LF) && !Blank(h + CR_LF)
  {
    var line := h + CR_LF;
    assert line[..|line| - 1] == h + [13];
    assert line[0] == h[0] && line[0] in line;
    CStringOfPlain(line);
    BlankBytes(line);
  }

  lemma VisibleWord(s: seq<byte>)
    requires Visible(s)
    ensures Word(s)
  {
    forall b | b in s
      ensures b != NUL && !IsSpace(b)
    {
      Classes(b);
    }
  }

  /** The status line "protocol code reason", CR LF. */
  lemma CrLfStatus(protocol: seq<byte>, code: seq<byte>, reason: seq<byte>) returns (s: StatusLine)
    requires Visible(protocol) && Visible(code) && code != []
    requires LF !in reason && |protocol| + |code| + |reason| <= 507
    ensures s.Valid() && s.code == code
    ensures s.Text() == protocol + [32] + code + ([32] + reason + CR_LF)
  {
    VisibleWord(protocol);
    VisibleWord(code);
    s := StatusLine(protocol, [32], code, [32] + reason + CR_LF);
    var t := s.Text();
    assert t[..|t| - 1] == protocol + [32] + code + [32] + reason + [13];
    assert LF !in protocol && LF !in code;
  }

  /** A reply with CR LF line ends, as section 2.1 of RFC 9112 has them, hands over exactly its body. */
  lemma CrLfReply(protocol: seq<byte>, code: seq<byte>, reason: seq<byte>, fields: seq<seq<byte>>, body: seq<byte>)
    requires Visible(protocol) && Visible(code) && code != []
    requires LF !in reason && |protocol| + |code| + |reason| <= 507
    requires forall h <- fields :: Field(h)
    ensures var lines := seq(|fields|, i requires 0 <= i < |fields| => fields[i] + [13, 10]);
            Content(protocol + [32] + code + ([32] + reason + [13, 10]) + (Flatten(lines) + ([13, 10] + body)))
            == if Accepts(code) then Some(body) else None
  {
    var lines := seq(|fields|, i requires 0 <= i < |fields| => fields[i] + CR_LF);
    var s := CrLfStatus(protocol, code, reason);
    forall i | 0 <= i < |lines|
      ensures Line(lines[i]) && !Blank(lines[i])
    {
      FieldLine(fields[i]);
    }
    CStringOfPlain(CR_LF);
    BlankBytes(CR_LF);
    ReplyHandsOverBody(s, lines, CR_LF, body);
  }

  /** Without a blank line only a cut-off last line of white space lets anything through, and then it is
      no bytes at all. */
  lemma NoBlankLineNoContent(s: StatusLine, headers: seq<seq<byte>>, cut: seq<byte>)
    requires s.Valid() && HeaderLines(headers)
    requires LF !in cut && |cut| <= LINE_ROOM
    ensures Content(s.Text() + (Flatten(headers) + cut)) ==
            if Accepts(s.code) && cut != [] && Blank(cut) then Some([]) else None
  {
    StatusLineDecides(s, Flatten(headers) + cut);
    HeadersAreSkipped(headers, cut);
    UnendedLine(cut, LINE_ROOM);
    assert cut[..|cut|] == cut && cut[|cut|..] == [];
  }

  lemma {:induction false} UnendedLine(cut: seq<byte>, room: nat)
    requires LF !in cut && |cut| <= room
    ensures LineLength(cut, room) == |cut|
  {
    if cut != [] {
      UnendedLine(cut[1..], room - 1);
    }
  }

  /** A reply without a blank line, ending in whole header lines or inside one, gives no response. */
  lemma NoBlankLineNoResponse<T>(decoder: seq<byte> -> Option<T>, s: StatusLine, headers: seq<seq<byte>>,
                                 cut: seq<byte>)
    requires decoder([]).None?
    requires s.Valid() && HeaderLines(headers)
    requires LF !in cut && |cut| <= LINE_ROOM
    ensures Parsed(decoder, s.Text() + (Flatten(headers) + cut)).None?
  {
    NoBlankLineNoContent(s, headers, cut);
  }

  lemma SliceOfRest(s: seq<byte>, n: nat, k: nat, m: nat)
    requires n <= |s| && k <= m <= |s| - n
    ensures s[n..][k..m] == s[n + k..n + m] && s[n..][m..] == s[n + m..]
  {
  }

  /** On every reply, whatever is handed over is what follows a blank piece of at most 511 bytes. */
  lemma {:induction false} ContentFollowsBlank(s: seq<byte>) returns (k: nat, m: nat)
    requires AfterBlank(s).Some?
    ensures k < m <= |s| && m - k <= 511 && Blank(s[k..m]) && AfterBlank(s) == Some(s[m..])
    decreases |s|
  {
    hide LineLength, Blank;
    var n := LineLength(s, LINE_ROOM);
    if Blank(s[..n]) {
      k, m := 0, n;
      assert s[0..n] == s[..n];
    } else {
      k, m := ContentFollowsBlank(s[n..]);
      SliceOfRest(s, n, k, m);
      k, m := n + k, n + m;
    }
  }

  lemma IntIs200(v: nat)
    ensures ToInt32(v) == 200 <==> v % 0x1_0000_0000 == 200
    ensures v < 0x1_0000_0000 ==> (ToInt32(v) == 200 <==> v == 200)
  {
  }

  function SignLength(code: seq<byte>): nat {
    if code != [] && (code[0] == 43 || code[0] == 45) then 1 else 0
  }

  /** The number a sign and digits stand for. */
  function SignedValue(code: seq<byte>): int
    requires Digits(code[SignLength(code)..])
  {
    var v := DecimalValue(code[SignLength(code)..]);
    if code != [] && code[0] == 45 then -(v as int) else v
  }

  /** Negating modulo 2^64 and cutting to 32 bits is negating modulo 2^32. */
  lemma NegatedModulo(v: nat)
    requires v <= ULONG_MAX
    ensures (ULONG_MAX + 1 - v) % (ULONG_MAX + 1) % 0x1_0000_0000 == -(v as int) % 0x1_0000_0000
  {
    if v > 0 {
      assert ULONG_MAX + 1 - v == 0x1_0000_0000 * 0x1_0000_0000 - v as int;
    }
  }

  lemma NumberRead(code: seq<byte>)
    requires code != []
    ensures var d := code[SignLength(code)..];
            StrToUl(code).used == |code| <==> d != [] && Digits(d)
    ensures var d := code[SignLength(code)..];
            d != [] && Digits(d) ==>
              StrToUl(code).value ==
              if DecimalValue(d) > ULONG_MAX then ULONG_MAX
              else if code[0] == 45 then (ULONG_MAX + 1 - DecimalValue(d)) % (ULONG_MAX + 1)
              else DecimalValue(d)
  {
    var d := code[SignLength(code)..];
    assert d[..|d|] == d;
    if Digits(d) {
      DigitRunOfDigits(d);
    }
  }

  /** A status code is accepted exactly when it is an optional sign and digits, of a magnitude that fits
      an unsigned long, and the signed number is 200 modulo 2^32. */
  lemma CodeAccepted(code: seq<byte>)
    requires code != []
    ensures var d := code[SignLength(code)..];
            Accepts(code) <==>
            d != [] && Digits(d) && DecimalValue(d) <= ULONG_MAX && SignedValue(code) % 0x1_0000_0000 == 200
  {
    hide StrToUl, ToInt32, DecimalValue;
    var d := code[SignLength(code)..];
    NumberRead(code);
    if d != [] && Digits(d) {
      IntIs200(StrToUl(code).value);
      if DecimalValue(d) <= ULONG_MAX {
        NegatedModulo(DecimalValue(d));
      }
    }
  }

  /** A plain number below 2^32 is accepted exactly when it is 200. */
  lemma SmallCodeAccepted(code: seq<byte>)
    requires code != [] && Digits(code) && DecimalValue(code) < 0x1_0000_0000
    ensures Accepts(code) <==> DecimalValue(code) == 200
  {
    hide StrToUl, ToInt32, DecimalValue, Accepts;
    assert IsDigit(code[0]);
    assert code[0..] == code;
    CodeAccepted(code);
  }

  lemma DecimalSnoc(s: seq<byte>, d: byte)
    requires Digits(s) && IsDigit(d)
    ensures Digits(s + [d]) && DecimalValue(s + [d]) == DecimalValue(s) * 10 + (d as int - 48)
  {
    assert (s + [d])[..|s|] == s;
  }

  lemma WrappedDigits() returns (code: seq<byte>)
    ensures |code| == 10 && Digits(code) && DecimalValue(code) == 4294967496
  {
    var d: seq<byte> := [52, 50, 57, 52, 57, 54, 55, 52, 57, 54];
    code := [];
    for i := 0 to |d|
      invariant Digits(code) && |code| == i
      invariant DecimalValue(code) == [0, 4, 42, 429, 4294, 42949, 429496, 4294967, 42949674, 429496749, 4294967496][i]
    {
      DecimalSnoc(code, d[i]);
      code := code + [d[i]];
    }
  }

  lemma MinusDigits() returns (code: seq<byte>)
    ensures |code| == 10 && Digits(code) && DecimalValue(code) == 4294967096
  {
    var d: seq<byte> := [52, 50, 57, 52, 57, 54, 55, 48, 57, 54];
    code := [];
    for i := 0 to |d|
      invariant Digits(code) && |code| == i
      invariant DecimalValue(code) == [0, 4, 42, 429, 4294, 42949, 429496, 4294967, 42949670, 429496709, 4294967096][i]
    {
      DecimalSnoc(code, d[i]);
      code := code + [d[i]];
    }
  }

  /** The statuses 4294967496 and -4294967096 are not 200, yet they are accepted. */
  lemma {:induction false} WrappedCodeAccepted() returns (code: seq<byte>, minus: seq<byte>)
    ensures code != [] && Digits(code) && DecimalValue(code) == 4294967496 && Accepts(code)
    ensures |minus| > 1 && minus[0] == 45 && Digits(minus[1..]) && SignedValue(minus) == -4294967096 && Accepts(minus)
  {
    hide StrToUl, ToInt32, DecimalValue, Accepts;
    code := WrappedDigits();
    assert IsDigit(code[0]);
    assert code[0..] == code;
    CodeAccepted(code);
    var d := MinusDigits();
    minus := [45] + d;
    assert minus[1..] == d;
    CodeAccepted(minus);
  }
}
