/** The ALPN wire format (section 3.1 of RFC 7301): decoding, and the doubling buffer that encodes. */
module AlpnWire {
  import opened Bytes
  import opened Memory
  import opened Contexts

  type Name = seq<byte>

  const INITIAL_SIZE: nat := 128
  const MAX_ALPN_PROTO_SIZE: nat := 65535

  /** Names as length-prefixed strings. */
  function Encode(names: seq<Name>): seq<byte>
    requires forall n <- names :: |n| < 256
  {
    if names == [] then [] else [|names[0]|] + names[0] + Encode(names[1..])
  }

  /** The pieces of a list of length-prefixed strings from offset `i` on. */
  function Split(buf: seq<byte>, i: nat): (r: Option<seq<Name>>)
    ensures r.Some? ==> forall n <- r.value :: |n| < 256
    decreases |buf| - i
  {
    if i >= |buf| then Some([])
    else
      var plen := buf[i];
      if i + 1 + plen > |buf| then None
      else
        match Split(buf, i + 1 + plen)
        case None => None
        case Some(rest) => Some([buf[i + 1..i + 1 + plen]] + rest)
  }

  /** What `apr_pstrndup` keeps of each piece: the part before a NUL. */
  function CutAll(pieces: seq<Name>): (names: seq<Name>)
    ensures |names| == |pieces|
    ensures forall k :: 0 <= k < |names| ==> names[k] == CString(pieces[k])
  {
    if pieces == [] then [] else [CString(pieces[0])] + CutAll(pieces[1..])
  }

  /** The C strings made of the pieces from offset `i` on. */
  function NamesFrom(buf: seq<byte>, i: nat): Option<seq<Name>>
    decreases |buf| - i
  {
    if i >= |buf| then Some([])
    else
      var next := i + 1 + buf[i];
      if next > |buf| then None
      else
        match NamesFrom(buf, next)
        case None => None
        case Some(rest) => Some([CString(buf[i + 1..next])] + rest)
  }

  function Names(buf: seq<byte>): Option<seq<Name>> {
    NamesFrom(buf, 0)
  }

  lemma NamesStep(buf: seq<byte>, i: nat, earlier: seq<Name>)
    requires i < |buf| && i + 1 + buf[i] <= |buf|
    ensures var next := i + 1 + buf[i];
            var rest := NamesFrom(buf, next);
            if rest.None? then NamesFrom(buf, i).None?
            else NamesFrom(buf, i).Some? &&
                 earlier + NamesFrom(buf, i).value == earlier + [CString(buf[i + 1..next])] + rest.value
  {
    var next := i + 1 + buf[i];
    var rest := NamesFrom(buf, next);
    if rest.Some? {
      assert earlier + ([CString(buf[i + 1..next])] + rest.value) == earlier + [CString(buf[i + 1..next])] + rest.value;
    }
  }

  /** The decode loop of `cb_server_alpn`. */
  method DecodeNames(buf: seq<byte>) returns (r: Option<seq<Name>>)
    ensures r == Names(buf)
  {
    hide CString;
    ghost var whole := NamesFrom(buf, 0);
    var i: nat := 0;
    var names := [];
    assert whole.Some? ==> names + whole.value == whole.value;
    while i < |buf|
      invariant i <= |buf|
      invariant if NamesFrom(buf, i).None? then whole.None? else whole == Some(names + NamesFrom(buf, i).value)
    {
      var plen := buf[i];
      i := i + 1;
      if plen + i > |buf| {
        return None;
      }
      var name := CString(buf[i..i + plen]);
      NamesStep(buf, i - 1, names);
      names := names + [name];
      i := i + plen;
    }
    assert names + [] == names;
    return Some(names);
  }

  // ---------------------------------------------------------------------------------------------
  // Decoding and encoding are inverse
  // ---------------------------------------------------------------------------------------------

  lemma {:induction false} NamesAreCutPieces(buf: seq<byte>, i: nat)
    ensures NamesFrom(buf, i) == if Split(buf, i).None? then None else Some(CutAll(Split(buf, i).value))
    decreases |buf| - i
  {
    if i < |buf| {
      var next := i + 1 + buf[i];
      if next <= |buf| {
        NamesAreCutPieces(buf, next);
        if Split(buf, next).Some? {
          var piece, rest := buf[i + 1..next], Split(buf, next).value;
          assert ([piece] + rest)[1..] == rest;
        }
      }
    }
  }

  lemma {:induction false} SplitOfEncodingAt(buf: seq<byte>, i: nat, names: seq<Name>)
    requires forall n <- names :: |n| < 256
    requires i <= |buf| && buf[i..] == Encode(names)
    ensures Split(buf, i) == Some(names)
    decreases |names|
  {
    if names != [] {
      var n, tail := names[0], Encode(names[1..]);
      var next := i + 1 + |n|;
      assert buf[i..] == [|n|] + (n + tail);
      assert buf[i] == buf[i..][0] == |n|;
      assert buf[i + 1..] == buf[i..][1..] == n + tail;
      assert buf[i + 1..next] == buf[i + 1..][..|n|] == n;
      assert buf[next..] == buf[i + 1..][|n|..] == tail;
      SplitOfEncodingAt(buf, next, names[1..]);
      assert [n] + names[1..] == names;
    }
  }

  lemma {:induction false} EncodingOfSplitAt(buf: seq<byte>, i: nat)
    requires i <= |buf| && Split(buf, i).Some?
    ensures Encode(Split(buf, i).value) == buf[i..]
    decreases |buf| - i
  {
    if i < |buf| {
      var next := i + 1 + buf[i];
      EncodingOfSplitAt(buf, next);
      var rest := Split(buf, next).value;
      assert ([buf[i + 1..next]] + rest)[1..] == rest;
      assert buf[i..] == [buf[i]] + buf[i + 1..next] + buf[next..];
    }
  }

  lemma PlainNamesAreUncut(names: seq<Name>)
    requires forall n <- names :: NUL !in n
    ensures CutAll(names) == names
  {
    forall k | 0 <= k < |names|
      ensures CutAll(names)[k] == names[k]
    {
      assert names[k] in names;
      CStringOfPlain(names[k]);
    }
  }

  /** Decoding gives back exactly the NUL-free names that were encoded. */
  lemma DecodeOfEncode(names: seq<Name>)
    requires forall n <- names :: |n| < 256 && NUL !in n
    ensures Names(Encode(names)) == Some(names)
  {
    var buf := Encode(names);
    assert buf[0..] == buf;
    SplitOfEncodingAt(buf, 0, names);
    NamesAreCutPieces(buf, 0);
    PlainNamesAreUncut(names);
  }

  ghost predicate IsEncoding(buf: seq<byte>, pieces: seq<Name>) {
    (forall n <- pieces :: |n| < 256) && Encode(pieces) == buf
  }

  /** Decoding accepts exactly the concatenations of length-prefixed strings. */
  lemma AcceptsExactlyEncodings(buf: seq<byte>)
    ensures Names(buf).Some? <==> exists pieces :: IsEncoding(buf, pieces)
    ensures forall pieces :: IsEncoding(buf, pieces) ==> Split(buf, 0) == Some(pieces)
  {
    assert buf[0..] == buf;
    NamesAreCutPieces(buf, 0);
    if Split(buf, 0).Some? {
      EncodingOfSplitAt(buf, 0);
      assert IsEncoding(buf, Split(buf, 0).value);
    }
    forall pieces | IsEncoding(buf, pieces)
      ensures Split(buf, 0) == Some(pieces)
    {
      SplitOfEncodingAt(buf, 0, pieces);
    }
  }

  lemma EncodeStep(name: Name, rest: seq<Name>)
    requires |name| < 256 && forall n <- rest :: |n| < 256
    ensures forall n <- [name] + rest :: |n| < 256
    ensures Encode([name] + rest) == [|name|] + name + Encode(rest)
  {
    assert ([name] + rest)[1..] == rest;
  }

  lemma {:induction false} CutShortens(pieces: seq<Name>)
    requires forall n <- pieces :: |n| < 256
    ensures forall n <- CutAll(pieces) :: |n| < 256
    ensures |Encode(CutAll(pieces))| <= |Encode(pieces)|
    ensures |Encode(CutAll(pieces))| == |Encode(pieces)| ==> forall n <- pieces :: NUL !in n
    decreases |pieces|
  {
    if pieces != [] {
      var piece, rest := pieces[0], pieces[1..];
      assert pieces == [piece] + rest;
      CutShortens(rest);
      EncodeStep(piece, rest);
      EncodeStep(CString(piece), CutAll(rest));
      assert |CString(piece)| == |piece| ==> CString(piece) == piece;
    }
  }

  /** Re-encoding what was decoded gives the same bytes exactly when no piece holds a NUL. */
  lemma ReencodeExactly(buf: seq<byte>)
    requires Split(buf, 0).Some?
    ensures Names(buf).Some? && forall n <- Names(buf).value :: |n| < 256
    ensures Encode(Names(buf).value) == buf <==> forall n <- Split(buf, 0).value :: NUL !in n
  {
    NamesAreCutPieces(buf, 0);
    EncodingOfSplitAt(buf, 0);
    assert buf[0..] == buf;
    var pieces := Split(buf, 0).value;
    CutShortens(pieces);
    if forall n <- pieces :: NUL !in n {
      PlainNamesAreUncut(pieces);
    }
  }

  // ---------------------------------------------------------------------------------------------
  // Serialising the configured names
  // ---------------------------------------------------------------------------------------------

  /** Empty names and names over 65535 bytes are passed over. */
  predicate Skipped(name: Name) {
    |name| == 0 || |name| > MAX_ALPN_PROTO_SIZE
  }

  /** The bytes written; the length goes through an unsigned char. */
  function Wire(names: seq<Name>): seq<byte> {
    if names == [] then []
    else if Skipped(names[0]) then Wire(names[1..])
    else [|names[0]| % 256] + names[0] + Wire(names[1..])
  }

  /** The buffer size after making room for `need` bytes: one doubling at most. */
  function Grown(need: nat, size: nat): nat {
    if need > size then 2 * size else size
  }

  /** One doubling per name is enough for all of `names` when `len` of `size` bytes are used. */
  predicate Fits(names: seq<Name>, len: nat, size: nat) {
    if names == [] then true
    else if Skipped(names[0]) then Fits(names[1..], len, size)
    else
      var need := len + 1 + |names[0]|;
      need <= Grown(need, size) && Fits(names[1..], need, Grown(need, size))
  }

  /** How many reallocations serialising `names` asks for. */
  function Reallocs(names: seq<Name>, len: nat, size: nat): nat {
    if names == [] then 0
    else if Skipped(names[0]) then Reallocs(names[1..], len, size)
    else
      var need := len + 1 + |names[0]|;
      (if need > size then 1 else 0) + Reallocs(names[1..], need, Grown(need, size))
  }

  /** How serialising ends: written whole, refused an allocation, or writing behind the buffer, which C
      leaves undefined. */
  datatype Fate = Written | NoMemory | Overrun

  /** The fate of `names` once `len` of `size` bytes are used and `calls` reallocations are made;
      `alloc(k)` tells whether the k-th allocation succeeds. */
  function FateOf(names: seq<Name>, len: nat, size: nat, calls: nat, alloc: nat -> bool): Fate {
    if names == [] then Written
    else if Skipped(names[0]) then FateOf(names[1..], len, size, calls, alloc)
    else
      var need := len + 1 + |names[0]|;
      if need > size && !alloc(calls + 1) then NoMemory
      else if need > Grown(need, size) then Overrun
      else FateOf(names[1..], need, Grown(need, size), if need > size then calls + 1 else calls, alloc)
  }

  /** All is written exactly when the names fit and every allocation asked for succeeds; when none
      fails, the buffer is overrun exactly when the names do not fit. */
  lemma {:induction false} FateExactly(names: seq<Name>, len: nat, size: nat, calls: nat, alloc: nat -> bool)
    ensures FateOf(names, len, size, calls, alloc).Written? <==>
            Fits(names, len, size) && forall k :: calls < k <= calls + Reallocs(names, len, size) ==> alloc(k)
    ensures (forall k :: alloc(k)) ==> (FateOf(names, len, size, calls, alloc).Overrun? <==> !Fits(names, len, size))
    decreases |names|
  {
    if names != [] {
      if Skipped(names[0]) {
        FateExactly(names[1..], len, size, calls, alloc);
      } else {
        var need := len + 1 + |names[0]|;
        FateExactly(names[1..], need, Grown(need, size), if need > size then calls + 1 else calls, alloc);
      }
    }
  }

  /** Writes the length and the name at `at`, into a block of twice the size if there is no room;
      the bytes before `at` are kept. */
  method PutName(data: array<byte>, at: nat, name: Name) returns (newp: array<byte>)
    requires at <= data.Length && at + 1 + |name| <= Grown(at + 1 + |name|, data.Length)
    modifies data
    ensures newp == data || fresh(newp)
    ensures newp.Length == Grown(at + 1 + |name|, data.Length)
    ensures newp[..at + 1 + |name|] == old(data[..at]) + ([|name| % 256] + name)
  {
    newp := data;
    if at + 1 + |name| > data.Length {
      newp := Grow(data, at);
    }
    CopyInto(newp, at, [|name| % 256]);
    CopyInto(newp, at + 1, name);
    assert old(data[..at]) + [|name| % 256] + name == old(data[..at]) + ([|name| % 256] + name);
  }

  /** What the serialiser still owes before and after the `i`-th name. */
  lemma NextName(protos: seq<Name>, i: nat, len: nat, size: nat, calls: nat, alloc: nat -> bool)
    requires i < |protos|
    ensures var name := protos[i];
            var need := len + 1 + |name|;
            var before := FateOf(protos[i..], len, size, calls, alloc);
            if Skipped(name) then
              && before == FateOf(protos[i + 1..], len, size, calls, alloc)
              && Wire(protos[i..]) == Wire(protos[i + 1..])
            else
              && before == (if need > size && !alloc(calls + 1) then NoMemory
                            else if need > Grown(need, size) then Overrun
                            else FateOf(protos[i + 1..], need, Grown(need, size),
                                        if need > size then calls + 1 else calls, alloc))
              && Wire(protos[i..]) == [|name| % 256] + name + Wire(protos[i + 1..])
  {
    assert protos[i..][0] == protos[i] && protos[i..][1..] == protos[i + 1..];
  }

  lemma NothingLeft(protos: seq<Name>, len: nat, size: nat, calls: nat, alloc: nat -> bool)
    ensures Wire(protos[|protos|..]) == [] && FateOf(protos[|protos|..], len, size, calls, alloc) == Written
  {
  }

  /** The loop of `initProtocols`, on any names. What is written stays inside the buffer, whose size is
      128 doubled some times, and the buffer starts with exactly the wire form. */
  method WriteNames(protos: seq<Name>, alloc: nat -> bool) returns (fate: Fate, buf: array?<byte>, len: nat)
    ensures fate == FateOf(protos, 0, INITIAL_SIZE, 0, alloc)
    ensures fate.Written? ==> buf != null && fresh(buf) && len <= buf.Length && Reachable(INITIAL_SIZE, buf.Length)
    ensures fate.Written? ==> buf[..len] == Wire(protos)
  {
    hide Wire, FateOf;
    var data := new byte[INITIAL_SIZE];
    var size: nat, calls: nat := INITIAL_SIZE, 0;
    len := 0;
    var i := 0;
    BaseReachable(INITIAL_SIZE);
    assert protos[0..] == protos;
    while i < |protos|
      invariant i <= |protos| && fresh(data) && data.Length == size && len <= size
      invariant Reachable(INITIAL_SIZE, size)
      invariant FateOf(protos, 0, INITIAL_SIZE, 0, alloc) == FateOf(protos[i..], len, size, calls, alloc)
      invariant data[..len] + Wire(protos[i..]) == Wire(protos)
    {
      var name := protos[i];
      NextName(protos, i, len, size, calls, alloc);
      if !Skipped(name) {
        ghost var written, rest := data[..len], Wire(protos[i + 1..]);
        var at := len;
        len := len + 1 + |name|;
        if len > size {
          calls := calls + 1;
          if !alloc(calls) {
            return NoMemory, null, 0;
          }
          DoubleReachable(INITIAL_SIZE, size);
          size := size * 2;
        }
        if len > size {
          return Overrun, null, 0;
        }
        data := PutName(data, at, name);
        assert written + ([|name| % 256] + name) + rest == written + ([|name| % 256] + name + rest);
      }
      i := i + 1;
    }
    NothingLeft(protos, len, size, calls, alloc);
    assert data[..len] + [] == data[..len];
    return Written, data, len;
  }

  /** `realloc` to twice the size; the bytes in use are kept. */
  method Grow(data: array<byte>, used: nat) returns (newp: array<byte>)
    requires used <= data.Length
    ensures fresh(newp) && newp.Length == 2 * data.Length && newp[..used] == data[..used]
  {
    newp := Realloc(data, data.Length, 2 * data.Length);
    assert newp[..data.Length][..used] == data[..data.Length][..used];
  }

  /** The return code of `initProtocols`, unless the buffer was overrun. */
  datatype InitResult = Code(rc: int) | BufferOverrun

  function InitOutcome(protos: Option<seq<Name>>, alloc: nat -> bool): InitResult {
    if protos.None? || protos.value == [] || !alloc(0) then Code(-1)
    else
      match FateOf(protos.value, 0, INITIAL_SIZE, 0, alloc)
      case Written => Code(0)
      case NoMemory => Code(-1)
      case Overrun => BufferOverrun
  }

  /** `initProtocols`; `protos` is `None` for a null array. */
  method InitProtocols(c: SslContext, protos: Option<seq<Name>>, alloc: nat -> bool) returns (r: InitResult)
    modifies c`alpnProtoData, c`alpnProtoLen
    ensures r == InitOutcome(protos, alloc)
    ensures r == Code(0) ==> c.alpnProtoData != null && fresh(c.alpnProtoData)
    ensures r == Code(0) ==> c.alpnProtoLen <= c.alpnProtoData.Length
    ensures r == Code(0) ==> Reachable(INITIAL_SIZE, c.alpnProtoData.Length)
    ensures r == Code(0) ==> c.alpnProtoData[..c.alpnProtoLen] == Wire(protos.value)
    ensures r == Code(-1) ==> c.alpnProtoData == old(c.alpnProtoData)
    ensures r == Code(-1) ==> c.alpnProtoLen ==
                              if protos.Some? && protos.value != [] && alloc(0) then 0 else old(c.alpnProtoLen)
  {
    if protos.None? {
      return Code(-1);
    }
    if |protos.value| == 0 {
      return Code(-1);
    }
    if !alloc(0) {
      return Code(-1);
    }
    var fate, data, len := WriteNames(protos.value, alloc);
    match fate {
      case NoMemory =>
        c.alpnProtoLen := 0;
        return Code(-1);
      case Overrun =>
        return BufferOverrun;
      case Written =>
        c.alpnProtoData := data;
        c.alpnProtoLen := len;
        return Code(0);
    }
  }

  /** Success is a list that is there and not empty, whose names fit, with every allocation asked for
      granted; with memory enough the one other way a non-empty list can end is the overrun. */
  lemma InitExactly(protos: seq<Name>, alloc: nat -> bool)
    ensures InitOutcome(Some(protos), alloc) == Code(0) <==>
            && protos != [] && Fits(protos, 0, INITIAL_SIZE)
            && forall k :: 0 <= k <= Reallocs(protos, 0, INITIAL_SIZE) ==> alloc(k)
    ensures protos != [] && (forall k :: alloc(k)) ==>
              InitOutcome(Some(protos), alloc) == if Fits(protos, 0, INITIAL_SIZE) then Code(0) else BufferOverrun
  {
    FateExactly(protos, 0, INITIAL_SIZE, 0, alloc);
  }

  /** A list of one name: it is written behind its length up to 255 bytes and fits the buffer; the empty
      name is passed over and so is one of more than 65535 bytes. */
  lemma OneName(name: Name, alloc: nat -> bool)
    requires forall k :: alloc(k)
    ensures |name| == 0 || |name| > 65535 ==> InitOutcome(Some([name]), alloc) == Code(0) && Wire([name]) == []
    ensures 0 < |name| <= 255 ==> InitOutcome(Some([name]), alloc) == Code(0) && Wire([name]) == [|name|] + name
    ensures 255 < |name| <= 65535 ==> InitOutcome(Some([name]), alloc) == BufferOverrun
  {
    var one: seq<Name> := [name];
    var need := 1 + |name|;
    assert one[1..] == [];
    assert Fits(one[1..], 0, INITIAL_SIZE) && Fits(one[1..], need, Grown(need, INITIAL_SIZE));
    assert Wire(one[1..]) == [];
    InitExactly(one, alloc);
  }

  // ---------------------------------------------------------------------------------------------
  // Which names fit
  // ---------------------------------------------------------------------------------------------

  /** The bytes the names need. */
  function Total(names: seq<Name>): nat {
    if names == [] then 0
    else (if Skipped(names[0]) then 0 else 1 + |names[0]|) + Total(names[1..])
  }

  lemma {:induction false} TotalIsWritten(names: seq<Name>)
    ensures |Wire(names)| == Total(names)
  {
    if names != [] {
      TotalIsWritten(names[1..]);
    }
  }

  lemma TotalOfOne(name: Name)
    requires !Skipped(name)
    ensures Total([name]) == 1 + |name|
  {
    var one: seq<Name> := [name];
    assert |one[1..]| == 0;
  }

  function CapFrom(size: nat, t: nat): (c: nat)
    requires 0 < size
    ensures t <= c && size <= c
    decreases t - size
  {
    if t <= size then size else CapFrom(2 * size, t)
  }

  /** The least size of 128 doubled that holds `t` bytes. */
  function Cap(t: nat): nat {
    CapFrom(INITIAL_SIZE, t)
  }

  /** As long as each need is at most twice the last size, the size is the least that will do. */
  lemma {:induction false} CapFollows(size: nat, t: nat, need: nat)
    requires 0 < size && t <= need <= 2 * CapFrom(size, t)
    ensures CapFrom(size, need) == Grown(need, CapFrom(size, t))
    decreases t - size
  {
    if t > size {
      CapFollows(2 * size, t, need);
    } else if need > size {
      assert CapFrom(2 * size, need) == 2 * size;
    }
  }

  lemma {:induction false} CapLeast(size: nat, t: nat, k: nat)
    requires 0 < size && t <= Doublings(size, k)
    ensures CapFrom(size, t) <= Doublings(size, k)
    decreases k
  {
    if t <= size {
      DoublingsGrow(size, k);
    } else if k > 0 {
      DoublingsShift(size, k - 1);
      CapLeast(2 * size, t, k - 1);
    }
  }

  lemma {:induction false} CapReachable(size: nat, t: nat) returns (k: nat)
    requires 0 < size
    ensures CapFrom(size, t) == Doublings(size, k)
    decreases t - size
  {
    if t <= size {
      k := 0;
    } else {
      k := CapReachable(2 * size, t);
      DoublingsShift(size, k);
      k := k + 1;
    }
  }

  /** `Cap(t)` is a size doubling reaches, holds `t`, and no smaller such size does. */
  lemma CapIsLeast(t: nat, size: nat)
    ensures Reachable(INITIAL_SIZE, Cap(t)) && t <= Cap(t)
    ensures Reachable(INITIAL_SIZE, size) && t <= size ==> Cap(t) <= size
  {
    var k := CapReachable(INITIAL_SIZE, t);
    if Reachable(INITIAL_SIZE, size) && t <= size {
      var j: nat :| size == Doublings(INITIAL_SIZE, j);
      CapLeast(INITIAL_SIZE, t, j);
    }
  }

  /** The `k`-th name finds room by one doubling, `len` bytes being in use before the list. */
  ghost predicate RoomAt(names: seq<Name>, len: nat, k: nat)
    requires k < |names|
  {
    len + Total(names[..k + 1]) <= 2 * Cap(len + Total(names[..k]))
  }

  lemma RoomShifts(names: seq<Name>, len: nat, k: nat)
    requires k + 1 < |names|
    ensures RoomAt(names, len, k + 1) == RoomAt(names[1..], len + Total(names[..1]), k)
  {
    var rest := names[1..];
    assert names[..1][1..] == [];
    assert names[..k + 2][0] == names[..k + 1][0] == names[..1][0] == names[0];
    assert names[..k + 2][1..] == rest[..k + 1] && names[..k + 1][1..] == rest[..k];
  }

  lemma {:induction false} FitsFrom(names: seq<Name>, len: nat)
    ensures Fits(names, len, Cap(len)) <==> forall k :: 0 <= k < |names| ==> RoomAt(names, len, k)
    decreases |names|
  {
    if names != [] {
      var rest, next := names[1..], len + Total(names[..1]);
      assert names[..0] == [] && names[..1][1..] == [];
      assert RoomAt(names, len, 0) <==> next <= 2 * Cap(len);
      FitsFrom(rest, next);
      if next <= 2 * Cap(len) {
        CapFollows(INITIAL_SIZE, len, next);
      }
      forall k | 0 <= k < |rest|
        ensures RoomAt(names, len, k + 1) == RoomAt(rest, next, k)
      {
        RoomShifts(names, len, k);
      }
      assert (forall k :: 0 <= k < |names| ==> RoomAt(names, len, k)) ==> RoomAt(names, len, 0);
      if !Fits(rest, next, Cap(next)) {
        var k :| 0 <= k < |rest| && !RoomAt(rest, next, k);
        assert !RoomAt(names, len, k + 1);
      } else {
        forall k | 1 <= k < |names|
          ensures RoomAt(names, len, k)
        {
          assert RoomAt(rest, next, k - 1);
          RoomShifts(names, len, k - 1);
        }
      }
    }
  }

  /** A list fits exactly when at every name the bytes needed so far are at most twice the least size
      that held the bytes before it. */
  lemma {:induction false} FitsExactly(names: seq<Name>)
    ensures Fits(names, 0, INITIAL_SIZE) <==>
            forall k :: 0 <= k < |names| ==> Total(names[..k + 1]) <= 2 * Cap(Total(names[..k]))
  {
    FitsFrom(names, 0);
    assert forall k :: 0 <= k < |names| ==>
             RoomAt(names, 0, k) == (Total(names[..k + 1]) <= 2 * Cap(Total(names[..k])));
  }

  predicate Bounded(names: seq<Name>, n: nat) {
    forall name <- names :: |name| <= n
  }

  lemma {:induction false} ShortNamesFit(names: seq<Name>, len: nat, size: nat)
    requires Bounded(names, 127) && len <= size && INITIAL_SIZE <= size
    ensures Fits(names, len, size)
    decreases |names|
  {
    if names != [] {
      assert names[0] in names;
      if Skipped(names[0]) {
        ShortNamesFit(names[1..], len, size);
      } else {
        var need := len + 1 + |names[0]|;
        ShortNamesFit(names[1..], need, Grown(need, size));
      }
    }
  }

  /** A name of 127 and one of 128 bytes overrun the buffer, with every allocation granted. */
  lemma OverrunExample(names: seq<Name>, alloc: nat -> bool)
    requires names == [seq(127, _ => 97), seq(128, _ => 98)] && forall k :: alloc(k)
    ensures InitOutcome(Some(names), alloc) == BufferOverrun
    ensures Total(names[..1]) == 128 && Total(names) == 257
  {
    var first: seq<Name>, last: seq<Name> := [names[0]], [names[1]];
    assert names[1..] == last && names[..1] == first && |last[1..]| == 0 == |first[1..]|;
    TotalOfOne(names[0]);
    TotalOfOne(names[1]);
    assert FateOf(last, 128, INITIAL_SIZE, 0, alloc) == Overrun;
  }

  /** 127 bytes is exactly the bound on the names up to which one doubling per name always does. */
  lemma SingleDoublingBound(n: nat)
    ensures (forall names :: Bounded(names, n) ==> Fits(names, 0, INITIAL_SIZE)) <==> n <= 127
  {
    if n <= 127 {
      forall names | Bounded(names, n)
        ensures Fits(names, 0, INITIAL_SIZE)
      {
        assert Bounded(names, 127);
        ShortNamesFit(names, 0, INITIAL_SIZE);
      }
    } else {
      var names: seq<Name> := [seq(127, _ => 97), seq(128, _ => 98)];
      OverrunExample(names, _ => true);
      FateExactly(names, 0, INITIAL_SIZE, 0, _ => true);
      assert Bounded(names, n) && !Fits(names, 0, INITIAL_SIZE);
    }
  }

  /** The names that are written. */
  function Kept(names: seq<Name>): (kept: seq<Name>)
    ensures forall n <- kept :: n in names
  {
    if names == [] then []
    else if Skipped(names[0]) then Kept(names[1..])
    else [names[0]] + Kept(names[1..])
  }

  lemma WireStep(names: seq<Name>)
    requires names != []
    ensures Skipped(names[0]) ==> Wire(names) == Wire(names[1..]) && Kept(names) == Kept(names[1..])
    ensures !Skipped(names[0]) ==>
              && Wire(names) == [|names[0]| % 256] + names[0] + Wire(names[1..])
              && Kept(names) == [names[0]] + Kept(names[1..])
  {
  }

  lemma {:induction false} KeptMembers(names: seq<Name>, name: Name)
    ensures name in Kept(names) <==> name in names && !Skipped(name)
  {
    if names != [] {
      KeptMembers(names[1..], name);
      assert names == [names[0]] + names[1..];
    }
  }

  /** Names below 256 bytes, as far as they are written. */
  predicate LengthsFit(names: seq<Name>) {
    forall n <- Kept(names) :: |n| < 256
  }

  lemma LengthsBehind(name: Name, rest: seq<Name>)
    requires forall n <- [name] + rest :: |n| < 256
    ensures |name| < 256 && forall n <- rest :: |n| < 256
  {
    assert name in [name] + rest;
    assert forall n <- rest :: n in [name] + rest;
  }

  /** When the names written are below 256 bytes, the wire form is their encoding. */
  lemma {:induction false} WireIsEncoding(names: seq<Name>)
    requires LengthsFit(names)
    ensures Wire(names) == Encode(Kept(names))
    decreases |names|
  {
    if names != [] {
      hide Encode, Wire, Kept, Skipped;
      var name, rest := names[0], Kept(names[1..]);
      WireStep(names);
      if !Skipped(name) {
        LengthsBehind(name, rest);
        EncodeStep(name, rest);
      }
      WireIsEncoding(names[1..]);
    }
  }

  lemma {:induction false} DecodedNamesAreShort(buf: seq<byte>, i: nat)
    requires NamesFrom(buf, i).Some?
    ensures forall n <- NamesFrom(buf, i).value :: |n| <= 255 && NUL !in n
    ensures i < |buf| ==> NamesFrom(buf, i).value != []
    decreases |buf| - i
  {
    if i < |buf| {
      DecodedNamesAreShort(buf, i + 1 + buf[i]);
    }
  }

  /** Decoding what was serialised gives back the configured names, without those passed over, exactly
      when each of them has less than 256 bytes and no NUL. */
  lemma SerialiseThenDecode(names: seq<Name>)
    ensures Names(Wire(names)) == Some(Kept(names)) <==> forall n <- Kept(names) :: |n| < 256 && NUL !in n
  {
    if Names(Wire(names)) == Some(Kept(names)) {
      DecodedNamesAreShort(Wire(names), 0);
    }
    if forall n <- Kept(names) :: |n| < 256 && NUL !in n {
      WireIsEncoding(names);
      DecodeOfEncode(Kept(names));
    }
  }

  lemma FitsStep(names: seq<Name>, len: nat, size: nat)
    requires names != [] && !Skipped(names[0])
    ensures var need := len + 1 + |names[0]|;
            Fits(names, len, size) <==> need <= Grown(need, size) && Fits(names[1..], need, Grown(need, size))
  {
  }

  lemma FitsNothing(len: nat, size: nat)
    ensures Fits([], len, size)
  {
  }

  /** Names of 100, 98 and 256 bytes fit and are written, but the length of the third is written as 0
      and they are not read back. */
  lemma LongNameExample(names: seq<Name>)
    requires names == [seq(100, _ => 97), seq(98, _ => 98), seq(256, _ => 99)]
    ensures Fits(names, 0, INITIAL_SIZE)
    ensures At(Wire(names), 200, [0] + names[2])
    ensures Names(Wire(names)) != Some(Kept(names))
  {
    hide Wire, Kept, Fits;
    var tail, last := names[1..], names[2..];
    assert tail[1..] == last && last[1..] == [];
    FitsStep(names, 0, INITIAL_SIZE);
    FitsStep(tail, 101, INITIAL_SIZE);
    FitsStep(last, 200, 256);
    FitsNothing(457, 512);
    WireStep(names);
    WireStep(tail);
    WireStep(last);
    assert Wire(names) == [100] + names[0] + [98] + names[1] + ([0] + names[2]) + Wire([]);
    KeptMembers(names, names[2]);
    SerialiseThenDecode(names);
  }
}
