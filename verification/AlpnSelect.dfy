/** The two ALPN selectors (section 3.2 of RFC 7301): by server priority and by client preference. */
module AlpnSelect {
  import opened Bytes
  import opened AlpnWire

  // ---------------------------------------------------------------------------------------------
  // Server priority
  // ---------------------------------------------------------------------------------------------

  /** A match is a slice of the client's bytes. `Exhausted` is the end of the loop without a match and
      `PastEnd` a read behind the server's list. */
  datatype Selection = Match(offset: nat, len: nat) | Exhausted | PastEnd

  /** What the inner loop finds; `Unreadable` is a comparison that reads behind the server's list. */
  datatype Entry = Listed(at: nat) | NotListed | Unreadable

  /** The first entry of the client's bytes, from `p` on, that equals the `len` server bytes at `at`. */
  function ClientEntry(client: seq<byte>, p: nat, server: seq<byte>, at: nat, len: byte): Entry
    decreases |client| - p
  {
    if p >= |client| then NotListed
    else
      var proto, next := p + 1, p + 1 + client[p];
      if next > |client| || client[p] != len then ClientEntry(client, next, server, at, len)
      else if at + len > |server| then Unreadable
      else if client[proto..next] == server[at..at + len] then Listed(proto)
      else ClientEntry(client, next, server, at, len)
  }

  /** The outer loop at `pos` in the server's list; `i` counts the bytes of the names passed so far,
      without their length bytes, as the loop guard does. */
  function SelectFrom(client: seq<byte>, server: seq<byte>, pos: nat, i: nat): Selection
    decreases |server| - pos
  {
    if i >= |server| then Exhausted
    else if pos >= |server| then PastEnd
    else
      var len := server[pos];
      match ClientEntry(client, 0, server, pos + 1, len)
      case Listed(proto) => Match(proto, len)
      case Unreadable => PastEnd
      case NotListed => SelectFrom(client, server, pos + 1 + len, i + len)
  }

  /** The inner loop of `select_next_proto`: `at` is `supported_protos`. */
  method FindEntry(client: seq<byte>, server: seq<byte>, at: nat, len: byte) returns (r: Entry)
    ensures r == ClientEntry(client, 0, server, at, len)
    ensures r.Listed? ==> r.at + len <= |client|
  {
    var p: nat := 0;
    while p < |client|
      invariant ClientEntry(client, 0, server, at, len) == ClientEntry(client, p, server, at, len)
      decreases |client| - p
    {
      var protoLen := client[p];
      p := p + 1;
      if p + protoLen <= |client| && len == protoLen {
        if at + protoLen > |server| {
          return Unreadable;
        }
        if server[at..at + protoLen] == client[p..p + protoLen] {
          return Listed(p);
        }
      }
      p := p + protoLen;
    }
    return NotListed;
  }

  /** `select_next_proto` up to its no-match tail, on any bytes of server and client. */
  method SelectNextProto(client: seq<byte>, server: seq<byte>) returns (r: Selection)
    ensures r == SelectFrom(client, server, 0, 0)
    ensures r.Match? ==> r.offset + r.len <= |client|
  {
    ghost var whole := SelectFrom(client, server, 0, 0);
    var i: nat, supported: nat := 0, 0;
    while i < |server|
      invariant whole == SelectFrom(client, server, supported, i)
      decreases |server| - supported
    {
      if supported >= |server| {
        return PastEnd;
      }
      var targetLen := server[supported];
      supported := supported + 1;
      var entry := FindEntry(client, server, supported, targetLen);
      match entry {
        case Listed(proto) => return Match(proto, targetLen);
        case Unreadable => return PastEnd;
        case NotListed =>
          i := i + targetLen;
          supported := supported + targetLen;
      }
    }
    return Exhausted;
  }

  /** On a well-formed client list, an entry is found exactly for the names listed. */
  lemma {:induction false} ClientEntryFindsListed(client: seq<byte>, p: nat, server: seq<byte>, at: nat, len: byte)
    requires Split(client, p).Some? && at + len <= |server|
    ensures var e, target := ClientEntry(client, p, server, at, len), server[at..at + len];
            && !e.Unreadable?
            && (e.Listed? <==> target in Split(client, p).value)
            && (e.Listed? ==> At(client, e.at, target))
    decreases |client| - p
  {
    if p < |client| {
      ClientEntryFindsListed(client, p + 1 + client[p], server, at, len);
    }
  }

  /** A comparison reads behind the server's list exactly when the piece is cut off and the client lists a
      name of its length. */
  lemma {:induction false} UnreadableExactly(client: seq<byte>, p: nat, server: seq<byte>, at: nat, len: byte)
    requires Split(client, p).Some?
    ensures ClientEntry(client, p, server, at, len).Unreadable? <==>
            at + len > |server| && exists n <- Split(client, p).value :: |n| == len
    decreases |client| - p
  {
    if p < |client| {
      var next := p + 1 + client[p];
      var name, rest := client[p + 1..next], Split(client, next).value;
      UnreadableExactly(client, next, server, at, len);
      assert name in [name] + rest;
      assert forall n :: n in [name] + rest <==> n == name || n in rest;
      if at + len <= |server| {
        ClientEntryFindsListed(client, p, server, at, len);
      }
    }
  }

  /** The first of `names` that `listed` has; `|names|` if there is none. */
  function FirstShared(names: seq<Name>, listed: seq<Name>): (k: nat)
    ensures k <= |names|
    ensures forall j :: 0 <= j < k ==> names[j] !in listed
    ensures k < |names| ==> names[k] in listed
  {
    if names == [] then 0 else if names[0] in listed then 0 else 1 + FirstShared(names[1..], listed)
  }

  /** One round of the outer loop, at a name of the list. */
  lemma SelectHere(client: seq<byte>, server: seq<byte>, pos: nat, i: nat)
    requires i < |server| && pos < |server|
    ensures SelectFrom(client, server, pos, i) ==
            match ClientEntry(client, 0, server, pos + 1, server[pos])
            case Listed(proto) => Match(proto, server[pos])
            case Unreadable => PastEnd
            case NotListed => SelectFrom(client, server, pos + 1 + server[pos], i + server[pos])
  {
  }

  /** The whole length-prefixed pieces met from `pos` on, up to the first that is cut off. */
  function Pieces(server: seq<byte>, pos: nat): seq<Name>
    decreases |server| - pos
  {
    if pos >= |server| || pos + 1 + server[pos] > |server| then []
    else [server[pos + 1..pos + 1 + server[pos]]] + Pieces(server, pos + 1 + server[pos])
  }

  lemma PiecesHere(server: seq<byte>, pos: nat)
    ensures Pieces(server, pos) ==
            if pos >= |server| || pos + 1 + server[pos] > |server| then []
            else [server[pos + 1..pos + 1 + server[pos]]] + Pieces(server, pos + 1 + server[pos])
  {
  }

  lemma FirstSharedStep(name: Name, rest: seq<Name>, listed: seq<Name>)
    ensures FirstShared([name] + rest, listed) == if name in listed then 0 else 1 + FirstShared(rest, listed)
  {
    assert ([name] + rest)[1..] == rest;
  }

  /** Behind the last whole piece nothing is matched any more. */
  lemma NoMatchBehind(client: seq<byte>, server: seq<byte>, pos: nat, i: nat)
    requires pos >= |server| || pos + 1 + server[pos] > |server|
    ensures !SelectFrom(client, server, pos, i).Match?
  {
    if pos < |server| && i < |server| {
      SelectHere(client, server, pos, i);
      CutPieceUnlisted(client, 0, server, pos + 1, server[pos]);
    }
  }

  lemma {:induction false} CutPieceUnlisted(client: seq<byte>, p: nat, server: seq<byte>, at: nat, len: byte)
    requires at + len > |server|
    ensures !ClientEntry(client, p, server, at, len).Listed?
    decreases |client| - p
  {
    if p < |client| {
      CutPieceUnlisted(client, p + 1 + client[p], server, at, len);
    }
  }

  /** On any bytes of the server, the first whole piece that the client lists is selected, and nothing else
      ever is. */
  lemma {:induction false} FirstSharedPiece(client: seq<byte>, server: seq<byte>, pos: nat, i: nat)
    requires Split(client, 0).Some? && i <= pos
    ensures var pieces, listed := Pieces(server, pos), Split(client, 0).value;
            var k := FirstShared(pieces, listed);
            var r := SelectFrom(client, server, pos, i);
            && (r.Match? <==> k < |pieces|)
            && (r.Match? ==> r.len == |pieces[k]| && At(client, r.offset, pieces[k]))
    decreases |server| - pos
  {
    hide SelectFrom, ClientEntry, Split, Pieces, FirstShared, At;
    PiecesHere(server, pos);
    if pos >= |server| || pos + 1 + server[pos] > |server| {
      NoMatchBehind(client, server, pos, i);
    } else {
      var len := server[pos];
      var piece, rest := server[pos + 1..pos + 1 + len], Pieces(server, pos + 1 + len);
      FirstSharedStep(piece, rest, Split(client, 0).value);
      SelectHere(client, server, pos, i);
      ClientEntryFindsListed(client, 0, server, pos + 1, len);
      if piece !in Split(client, 0).value {
        FirstSharedPiece(client, server, pos + 1 + len, i + len);
      }
    }
  }

  lemma {:induction false} PiecesOfSplit(server: seq<byte>, pos: nat)
    requires Split(server, pos).Some?
    ensures Pieces(server, pos) == Split(server, pos).value
    decreases |server| - pos
  {
    if pos < |server| {
      PiecesOfSplit(server, pos + 1 + server[pos]);
    }
  }

  lemma PieceAt(server: seq<byte>, pos: nat, name: Name, rest: seq<byte>)
    requires |name| < 256 && At(server, pos, [|name|] + name + rest)
    ensures pos + 1 + |name| <= |server| && server[pos] == |name|
    ensures server[pos + 1..pos + 1 + |name|] == name && At(server, pos + 1 + |name|, rest)
  {
    assert [|name|] + name + rest == [|name|] + (name + rest);
    AtSplit(server, pos, [|name|], name + rest);
    AtSplit(server, pos + 1, name, rest);
    assert server[pos] == server[pos..pos + 1][0];
  }

  lemma {:induction false} PiecesOfPrefix(server: seq<byte>, pos: nat, names: seq<Name>)
    requires (forall n <- names :: |n| < 256) && At(server, pos, Encode(names))
    ensures names <= Pieces(server, pos)
    decreases |names|
  {
    if names != [] {
      hide Encode, At, Pieces;
      var name, rest := names[0], names[1..];
      assert names == [name] + rest;
      LengthsBehind(name, rest);
      EncodeStep(name, rest);
      PieceAt(server, pos, name, Encode(rest));
      PiecesHere(server, pos);
      PiecesOfPrefix(server, pos + 1 + |name|, rest);
      PrefixWithHead(name, rest, Pieces(server, pos + 1 + |name|));
    }
  }

  lemma PrefixWithHead(name: Name, a: seq<Name>, b: seq<Name>)
    requires a <= b
    ensures [name] + a <= [name] + b
  {
  }

  /** Without a shared name the guard lags behind by a byte a name, and the list is left. */
  lemma {:induction false} NothingSharedRunsOut(client: seq<byte>, server: seq<byte>, pos: nat, i: nat)
    requires Split(server, pos).Some? && Split(client, 0).Some?
    requires pos <= |server| && i <= pos && (pos == |server| ==> i < pos)
    requires FirstShared(Split(server, pos).value, Split(client, 0).value) == |Split(server, pos).value|
    ensures SelectFrom(client, server, pos, i) == PastEnd
    decreases |server| - pos
  {
    if pos < |server| {
      var next := pos + 1 + server[pos];
      var target, rest := server[pos + 1..next], Split(server, next).value;
      assert ([target] + rest)[1..] == rest;
      ClientEntryFindsListed(client, 0, server, pos + 1, server[pos]);
      NothingSharedRunsOut(client, server, next, i + |target|);
    }
  }

  /** On well-formed lists the first configured name the client lists is selected, as a slice of the
      client's bytes; the walk stays inside a non-empty server list exactly when there is such a name. */
  lemma ServerPriority(client: seq<byte>, server: seq<byte>)
    requires Split(server, 0).Some? && server != [] && Split(client, 0).Some?
    ensures var names, listed := Split(server, 0).value, Split(client, 0).value;
            var k := FirstShared(names, listed);
            var r := SelectFrom(client, server, 0, 0);
            && (k < |names| ==> r.Match? && r.len == |names[k]| && At(client, r.offset, names[k]))
            && (r != PastEnd <==> k < |names|)
  {
    var names, listed := Split(server, 0).value, Split(client, 0).value;
    if FirstShared(names, listed) < |names| {
      PiecesOfSplit(server, 0);
      FirstSharedPiece(client, server, 0, 0);
    } else {
      NothingSharedRunsOut(client, server, 0, 0);
    }
  }

  /** The server list "a" and the client list "b": the loop reads behind the server's list. */
  lemma PastEndExample(client: seq<byte>, server: seq<byte>)
    requires server == [1, 97] && client == [1, 98]
    ensures SelectFrom(client, server, 0, 0) == PastEnd
  {
    assert client[1..2] == [98] && server[1..2] == [97];
    assert ClientEntry(client, 2, server, 1, 1) == NotListed;
    assert SelectFrom(client, server, 2, 1) == PastEnd;
  }

  lemma AtBehind(head: seq<byte>, buf: seq<byte>, s: seq<byte>)
    requires At(buf, 0, s)
    ensures At(head + buf, 0, head + s)
  {
    assert (head + buf)[..|head| + |s|] == head + buf[..|s|];
  }

  /** The wire form starts with the encoding of the names written, up to the first of 256 bytes or more. */
  lemma {:induction false} WireStartsWith(names: seq<Name>, k: nat)
    requires k < |Kept(names)| && forall j :: 0 <= j <= k ==> |Kept(names)[j]| < 256
    ensures forall n <- Kept(names)[..k + 1] :: |n| < 256
    ensures At(Wire(names), 0, Encode(Kept(names)[..k + 1]))
    decreases |names|
  {
    hide Encode, At, Wire, Kept, Skipped;
    assert names != [] by {
      NothingWritten();
    }
    var name, rest := names[0], names[1..];
    WireStep(names);
    if Skipped(name) {
      WireStartsWith(rest, k);
    } else {
      assert Kept(names)[0] == name;
      var kept := Kept(rest)[..k];
      assert Kept(names)[..k + 1] == [name] + kept;
      forall j | 0 <= j < k
        ensures |Kept(rest)[j]| < 256
      {
        assert Kept(rest)[j] == Kept(names)[j + 1];
      }
      if k == 0 {
        AtNothing(Wire(rest));
      } else {
        WireStartsWith(rest, k - 1);
      }
      EncodeStep(name, kept);
      AtBehind([|name|] + name, Wire(rest), Encode(kept));
    }
  }

  lemma AtNothing(buf: seq<byte>)
    ensures At(buf, 0, Encode([]))
  {
  }

  /** `name` is selected: the match is a slice of the client's bytes that holds it. */
  predicate Selects(client: seq<byte>, server: seq<byte>, name: Name) {
    var r := SelectFrom(client, server, 0, 0);
    r.Match? && r.len == |name| && At(client, r.offset, name)
  }

  /** End to end, for any names given to `initProtocols` and any well-formed client list: the first name
      written that the client lists is selected exactly when the first whole piece of the bytes written
      that the client lists is that name. */
  lemma ConfiguredPriorityExactly(names: seq<Name>, client: seq<byte>, listed: seq<Name>)
    requires IsEncoding(client, listed) && FirstShared(Kept(names), listed) < |Kept(names)|
    ensures var name := Kept(names)[FirstShared(Kept(names), listed)];
            var pieces := Pieces(Wire(names), 0);
            var k := FirstShared(pieces, listed);
            Selects(client, Wire(names), name) <==> k < |pieces| && pieces[k] == name
  {
    hide Encode, SelectFrom, Wire, Split, Kept, Pieces;
    AcceptsExactlyEncodings(client);
    FirstSharedPiece(client, Wire(names), 0, 0);
  }

  /** In particular it is when no name of 256 bytes or more is written before it. */
  lemma ConfiguredPriority(names: seq<Name>, client: seq<byte>, listed: seq<Name>)
    requires IsEncoding(client, listed)
    requires FirstShared(Kept(names), listed) < |Kept(names)|
    requires forall j :: 0 <= j < FirstShared(Kept(names), listed) ==> |Kept(names)[j]| < 256
    ensures Selects(client, Wire(names), Kept(names)[FirstShared(Kept(names), listed)])
  {
    hide Encode, SelectFrom, Wire, At, Split, Kept, Pieces;
    var kept, pieces := Kept(names), Pieces(Wire(names), 0);
    var k := FirstShared(kept, listed);
    assert |kept[k]| < 256 by {
      assert kept[k] in listed;
    }
    WireStartsWith(names, k);
    PiecesOfPrefix(Wire(names), 0, kept[..k + 1]);
    SameFirstShared(kept, pieces, listed);
    ConfiguredPriorityExactly(names, client, listed);
  }

  lemma {:induction false} SameFirstShared(a: seq<Name>, b: seq<Name>, listed: seq<Name>)
    requires FirstShared(a, listed) < |a| && a[..FirstShared(a, listed) + 1] <= b
    ensures FirstShared(b, listed) == FirstShared(a, listed) && b[FirstShared(b, listed)] == a[FirstShared(a, listed)]
  {
    var k := FirstShared(a, listed);
    var prefix := a[..k + 1];
    assert forall j :: 0 <= j <= k ==> b[j] == prefix[j] == a[j];
    var l := FirstShared(b, listed);
    assert b[k] in listed;
    assert l < |b| ==> b[l] in listed;
  }

  lemma WireOfTwo(names: seq<Name>)
    requires |names| == 2 && |names[0]| == 256 && |names[1]| == 1
    ensures Kept(names) == names && Wire(names) == [0] + names[0] + [1] + names[1]
  {
    hide Kept, Wire;
    var last := names[1..];
    WireStep(names);
    WireStep(last);
    assert last[1..] == [] && names == [names[0]] + [names[1]];
    NothingWritten();
  }

  lemma NothingWritten()
    ensures Kept([]) == [] && Wire([]) == []
  {
  }

  /** A name of 256 bytes in front hides the shared name "b" behind it. */
  lemma LongNameHidesShared(names: seq<Name>, client: seq<byte>)
    requires names == [seq(256, _ => 97), [98]] && client == [1, 98]
    ensures [98] in Kept(names) && Split(client, 0) == Some([[98]])
    ensures SelectFrom(client, Wire(names), 0, 0) == Exhausted
  {
    var server := Wire(names);
    WireOfTwo(names);
    assert |server| == 259 && server[0] == 0 && server[1] == server[99] == server[197] == 97;
    assert Split(client, 2) == Some([]) && client[1..2] == [98];
    assert [client[1..2]] + [] == [[98]];
    forall at: nat, len: byte | len != 1
      ensures ClientEntry(client, 0, server, at, len) == NotListed
    {
      assert ClientEntry(client, 2, server, at, len) == NotListed;
    }
    assert SelectFrom(client, server, 295, 291) == Exhausted;
    assert SelectFrom(client, server, 197, 194) == Exhausted;
    assert SelectFrom(client, server, 99, 97) == Exhausted;
    assert SelectFrom(client, server, 1, 0) == Exhausted;
  }

  /** A name of 256 bytes that begins with 255 does not hide it: it is read as two whole pieces. */
  lemma LongNameSparesShared(names: seq<Name>, client: seq<byte>)
    requires names == [[255] + seq(255, _ => 97), [98]] && client == [1, 98]
    ensures |names[0]| == 256 && Kept(names) == names
    ensures Selects(client, Wire(names), [98])
  {
    var server := Wire(names);
    WireOfTwo(names);
    assert |server| == 259 && server[0] == 0 && server[1] == 255 && server[257] == 1;
    assert server[258..259] == [98] && client[1..2] == [98];
    forall at: nat, len: byte | len != 1
      ensures ClientEntry(client, 0, server, at, len) == NotListed
    {
      assert ClientEntry(client, 2, server, at, len) == NotListed;
    }
    assert ClientEntry(client, 0, server, 258, 1) == Listed(1);
    SelectHere(client, server, 257, 255);
    SelectHere(client, server, 1, 0);
    SelectHere(client, server, 0, 0);
  }

  // ---------------------------------------------------------------------------------------------
  // Client preference
  // ---------------------------------------------------------------------------------------------

  /** The sign of C's strcmp. */
  function StrCmp(a: Name, b: Name): int {
    if a == [] && b == [] then 0
    else if a == [] then -1
    else if b == [] then 1
    else if a[0] < b[0] then -1
    else if b[0] < a[0] then 1
    else StrCmp(a[1..], b[1..])
  }

  /** The first index of `s`, or -1. */
  function IndexOf(list: seq<Name>, s: Name): (i: int)
    ensures -1 <= i < |list|
    ensures i >= 0 ==> list[i] == s && s !in list[..i]
    ensures i == -1 <==> s !in list
  {
    if list == [] then -1
    else if list[0] == s then 0
    else
      var i := IndexOf(list[1..], s);
      if i < 0 then -1
      else
        assert list[..i + 1] == [list[0]] + list[1..][..i];
        i + 1
  }

  /** `ssl_array_index` */
  method ArrayIndex(list: seq<Name>, s: Name) returns (i: int)
    ensures i == IndexOf(list, s)
  {
    i := 0;
    while i < |list|
      invariant 0 <= i <= |list|
      invariant IndexOf(list, s) == if IndexOf(list[i..], s) < 0 then -1 else i + IndexOf(list[i..], s)
    {
      assert list[i..][0] == list[i] && list[i..][1..] == list[i + 1..];
      if list[i] == s {
        return;
      }
      i := i + 1;
    }
    return -1;
  }

  function Cmp(client: seq<Name>, a: Name, b: Name): int {
    var i, j := IndexOf(client, a), IndexOf(client, b);
    if j > i then (if i >= 0 then 1 else -1)
    else if i > j then (if j >= 0 then -1 else 1)
    else StrCmp(a, b)
  }

  /** `ssl_cmp_alpn_protos` */
  method CmpAlpnProtos(client: seq<Name>, proto1: Name, proto2: Name) returns (r: int)
    ensures r == Cmp(client, proto1, proto2)
  {
    var index1 := ArrayIndex(client, proto1);
    var index2 := ArrayIndex(client, proto2);
    if index2 > index1 {
      return if index1 >= 0 then 1 else -1;
    } else if index1 > index2 {
      return if index2 >= 0 then -1 else 1;
    }
    return StrCmp(proto1, proto2);
  }

  lemma {:induction false} StrCmpOrder(a: Name, b: Name, c: Name)
    ensures StrCmp(a, b) == 0 <==> a == b
    ensures StrCmp(b, a) == -StrCmp(a, b)
    ensures StrCmp(a, b) >= 0 && StrCmp(b, c) >= 0 ==> StrCmp(a, c) >= 0
    decreases |a| + |b| + |c|
  {
    if a != [] && b != [] {
      assert a == [a[0]] + a[1..] && b == [b[0]] + b[1..];
      StrCmpOrder(a[1..], b[1..], if c == [] then [] else c[1..]);
    }
  }

  /** `a` comes before `b` where words are ordered by unsigned bytes: it is a proper prefix of `b`, or is
      smaller at the first byte where they differ. */
  ghost predicate Before(a: Name, b: Name) {
    a < b || exists k :: 0 <= k < |a| && k < |b| && a[..k] == b[..k] && a[k] < b[k]
  }

  lemma BeforeWithHead(x: byte, a: Name, b: Name)
    requires Before(a, b)
    ensures Before([x] + a, [x] + b)
  {
    var xa, xb := [x] + a, [x] + b;
    if a < b {
      assert xa < xb;
    } else {
      var k :| 0 <= k < |a| && k < |b| && a[..k] == b[..k] && a[k] < b[k];
      assert xa[..k + 1] == [x] + a[..k] && xb[..k + 1] == [x] + b[..k];
      assert xa[k + 1] < xb[k + 1];
    }
  }

  lemma BeforeBehindHead(x: byte, a: Name, b: Name)
    requires Before([x] + a, [x] + b)
    ensures Before(a, b)
  {
    var xa, xb := [x] + a, [x] + b;
    if xa < xb {
      assert a == xa[1..] && b == xb[1..] && b[..|a|] == xb[..|xa|][1..];
    } else {
      var k :| 0 <= k < |xa| && k < |xb| && xa[..k] == xb[..k] && xa[k] < xb[k];
      assert k > 0;
      assert a[..k - 1] == xa[..k][1..] && b[..k - 1] == xb[..k][1..];
      assert a[k - 1] < b[k - 1];
    }
  }

  /** The comparison is negative exactly for a name before the other. */
  lemma {:induction false} StrCmpIsLexicographic(a: Name, b: Name)
    ensures StrCmp(a, b) < 0 <==> Before(a, b)
    decreases |a|
  {
    if a == [] || b == [] || a[0] != b[0] {
      if a != [] && b != [] && a[0] < b[0] {
        assert a[..0] == b[..0];
      }
    } else {
      assert a == [a[0]] + a[1..] && b == [b[0]] + b[1..];
      StrCmpIsLexicographic(a[1..], b[1..]);
      if Before(a[1..], b[1..]) {
        BeforeWithHead(a[0], a[1..], b[1..]);
      }
      if Before(a, b) {
        BeforeBehindHead(a[0], a[1..], b[1..]);
      }
    }
  }

  /** The comparison is a total order on names for every client list, repeated entries included. */
  lemma CmpIsTotalOrder(client: seq<Name>, a: Name, b: Name, c: Name)
    ensures Cmp(client, a, b) == 0 <==> a == b
    ensures Cmp(client, b, a) == -Cmp(client, a, b)
    ensures Cmp(client, a, b) >= 0 && Cmp(client, b, c) >= 0 ==> Cmp(client, a, c) >= 0
  {
    StrCmpOrder(a, b, c);
  }

  /** `best` is one of the names and none is preferred over it. */
  ghost predicate IsGreatest(client: seq<Name>, names: seq<Name>, best: Name) {
    best in names && forall n <- names :: Cmp(client, best, n) >= 0
  }

  /** The selection loop of `cb_server_alpn`. */
  method MostPreferred(client: seq<Name>, proposed: seq<Name>) returns (out: Name)
    requires proposed != []
    ensures IsGreatest(client, proposed, out)
  {
    out := proposed[0];
    CmpIsTotalOrder(client, out, out, out);
    var i := 1;
    while i < |proposed|
      invariant 1 <= i <= |proposed|
      invariant out in proposed
      invariant forall k :: 0 <= k < i ==> Cmp(client, out, proposed[k]) >= 0
    {
      var proto := proposed[i];
      var c := CmpAlpnProtos(client, out, proto);
      if c < 0 {
        forall k | 0 <= k <= i
          ensures Cmp(client, proto, proposed[k]) >= 0
        {
          CmpIsTotalOrder(client, proto, out, proposed[k]);
          CmpIsTotalOrder(client, proto, proto, proto);
        }
        out := proto;
      }
      i := i + 1;
    }
  }

  // ---------------------------------------------------------------------------------------------
  // Reading the configured list, whose bytes are C's plain `char`
  // ---------------------------------------------------------------------------------------------

  const UINT_RANGE: nat := 0x1_0000_0000
  const INT_LIMIT: nat := 0x8000_0000

  /** `Astray` is a copy of some 4 GB from the list with the cursor moving backwards. */
  datatype Reading = Read(names: seq<Name>) | Refused | Astray

  /** A length byte as an `unsigned int`: sign-extended where `char` is signed. */
  function Widened(b: byte, charSigned: bool): nat {
    if charSigned && b >= 128 then UINT_RANGE - 256 + b else b
  }

  /** The second decode loop of `cb_server_alpn`, from offset `i` on. */
  function ReadFrom(buf: seq<byte>, i: nat, charSigned: bool): Reading
    decreases |buf| - i
  {
    if i >= |buf| then Read([])
    else
      var plen, at := Widened(buf[i], charSigned), i + 1;
      if (plen + at) % UINT_RANGE > |buf| then Refused
      else if plen >= 256 then Astray
      else if at + plen > |buf| then Refused
      else
        match ReadFrom(buf, at + plen, charSigned)
        case Read(rest) => Read([CString(buf[at..at + plen])] + rest)
        case other => other
  }

  /** The reading at one length byte. */
  lemma ReadHere(buf: seq<byte>, i: nat, charSigned: bool)
    requires i < |buf|
    ensures var plen, at := Widened(buf[i], charSigned), i + 1;
            ReadFrom(buf, i, charSigned) ==
            if (plen + at) % UINT_RANGE > |buf| then Refused
            else if plen >= 256 then Astray
            else if at + plen > |buf| then Refused
            else
              match ReadFrom(buf, at + plen, charSigned)
              case Read(rest) => Read([CString(buf[at..at + plen])] + rest)
              case other => other
  {
  }

  /** A short length is tested without wrapping. */
  lemma NoWrap(plen: nat, at: nat)
    requires plen < 256 && at < INT_LIMIT
    ensures (plen + at) % UINT_RANGE == plen + at
  {
  }

  lemma Prepended(earlier: seq<Name>, name: Name, rest: seq<Name>)
    ensures earlier + ([name] + rest) == earlier + [name] + rest
  {
  }

  /** The second decode loop of `cb_server_alpn`. */
  method DecodeConfigured(buf: seq<byte>, charSigned: bool) returns (r: Reading)
    requires |buf| < INT_LIMIT
    ensures r == ReadFrom(buf, 0, charSigned)
  {
    hide ReadFrom, CString;
    ghost var whole := ReadFrom(buf, 0, charSigned);
    var i: nat := 0;
    var names: seq<Name> := [];
    assert whole.Read? ==> names + whole.names == whole.names;
    while i < |buf|
      invariant i <= |buf|
      invariant var rest := ReadFrom(buf, i, charSigned);
                whole == if rest.Read? then Read(names + rest.names) else rest
    {
      ReadHere(buf, i, charSigned);
      var plen := Widened(buf[i], charSigned);
      i := i + 1;
      if (plen + i) % UINT_RANGE > |buf| {
        return Refused;
      }
      if plen >= 256 {
        return Astray;
      }
      NoWrap(plen, i);
      var name := CString(buf[i..i + plen]);
      ghost var rest := ReadFrom(buf, i + plen, charSigned);
      if rest.Read? {
        Prepended(names, name, rest.names);
      }
      names := names + [name];
      i := i + plen;
    }
    ReadEnds(buf, charSigned);
    assert names + [] == names;
    return Read(names);
  }

  lemma ReadEnds(buf: seq<byte>, charSigned: bool)
    ensures ReadFrom(buf, |buf|, charSigned) == Read([])
  {
  }

  /** Where `char` is unsigned, the loop reads as that over the client's list does. */
  lemma {:induction false} UnsignedReading(buf: seq<byte>, i: nat)
    requires |buf| < INT_LIMIT
    ensures ReadFrom(buf, i, false) == if NamesFrom(buf, i).None? then Refused else Read(NamesFrom(buf, i).value)
    decreases |buf| - i
  {
    hide CString;
    if i < |buf| {
      UnsignedReading(buf, i + 1 + buf[i]);
    }
  }

  /** The offset of the first length byte of 128 or more that is met from `i` on; `|buf|` if there is none. */
  function FirstWide(buf: seq<byte>, i: nat): (k: nat)
    ensures k < |buf| ==> i <= k && buf[k] >= 128
    ensures k <= |buf|
    decreases |buf| - i
  {
    if i >= |buf| then |buf|
    else if buf[i] >= 128 then i
    else if i + 1 + buf[i] > |buf| then |buf|
    else FirstWide(buf, i + 1 + buf[i])
  }

  /** What signed `char` makes of a list: the same as long as no length byte of 128 or more is met, and
      from there on a refusal, or, that far into the list, a stray copy. */
  lemma {:induction false} SignedReading(buf: seq<byte>, i: nat)
    requires |buf| < INT_LIMIT
    ensures var k := FirstWide(buf, i);
            ReadFrom(buf, i, true) ==
            if k == |buf| then ReadFrom(buf, i, false)
            else if k + 1 + buf[k] >= 256 then Astray
            else Refused
    decreases |buf| - i
  {
    hide ReadFrom;
    if i >= |buf| {
      ReadBehind(buf, i);
    } else {
      ReadHere(buf, i, true);
      ReadHere(buf, i, false);
      if buf[i] < 128 {
        SignedReading(buf, i + 1 + buf[i]);
      } else {
        StrayLength(buf[i], i + 1, |buf|);
      }
    }
  }

  lemma ReadBehind(buf: seq<byte>, i: nat)
    requires i >= |buf|
    ensures ReadFrom(buf, i, true) == ReadFrom(buf, i, false)
  {
  }

  /** The sum in the loop's test wraps to a small number exactly from offset 256 minus the byte on. */
  lemma StrayLength(b: byte, at: nat, size: nat)
    requires b >= 128 && 0 < at <= size < INT_LIMIT
    ensures (Widened(b, true) + at) % UINT_RANGE <= size <==> at + b >= 256
  {
    if at + b >= 256 {
      assert Widened(b, true) + at == UINT_RANGE + (at + b - 256);
    }
  }

  /** The two readings of a list agree exactly when no length byte of 128 or more is met, or the first
      one met is refused under both. */
  lemma {:induction false} ReadingsAgree(buf: seq<byte>)
    requires |buf| < INT_LIMIT
    ensures var k := FirstWide(buf, 0);
            ReadFrom(buf, 0, true) == ReadFrom(buf, 0, false) <==>
            k == |buf| || (k + 1 + buf[k] < 256 && ReadFrom(buf, 0, false) == Refused)
  {
    SignedReading(buf, 0);
    UnsignedReading(buf, 0);
  }

  /** A server list of one name of 128 bytes: refused with a signed `char`, read with an unsigned one. */
  lemma WideLengthExample(buf: seq<byte>)
    requires buf == [128] + seq(128, _ => 97)
    ensures ReadFrom(buf, 0, true) == Refused
    ensures ReadFrom(buf, 0, false) == Read([seq(128, _ => 97)])
  {
    SignedReading(buf, 0);
    var name: seq<byte> := seq(128, _ => 97);
    assert buf[1..129] == name;
    CStringOfPlain(name);
    assert ReadFrom(buf, 129, false) == Read([]);
  }

  /** A name that was read is one the unsigned reading gives, so it is short. */
  lemma ReadNames(buf: seq<byte>, charSigned: bool)
    requires |buf| < INT_LIMIT && ReadFrom(buf, 0, charSigned).Read?
    ensures Names(buf) == Some(ReadFrom(buf, 0, charSigned).names)
    ensures forall n <- ReadFrom(buf, 0, charSigned).names :: |n| <= 255
    ensures buf != [] ==> ReadFrom(buf, 0, charSigned).names != []
  {
    SignedReading(buf, 0);
    UnsignedReading(buf, 0);
    DecodedNamesAreShort(buf, 0);
  }

  /** `Undefined` stands for the stray copy. */
  datatype Negotiated = Fatal | Selected(name: Name, outlen: nat) | Undefined

  /** The client's list and the presence of a server's list are in order. */
  predicate Answerable(input: seq<byte>, server: Option<seq<byte>>) {
    input != [] && Names(input).Some? && server.Some? && server.value != []
  }

  /** `cb_server_alpn`; `server` is `None` while the supported names are not set, and its length is an
      `int`. `charSigned` tells how the platform reads plain `char`. */
  method ServerAlpn(input: seq<byte>, server: Option<seq<byte>>, charSigned: bool) returns (r: Negotiated)
    requires server.Some? ==> |server.value| < INT_LIMIT
    ensures r.Fatal? <==> !Answerable(input, server) || ReadFrom(server.value, 0, charSigned).Refused?
    ensures r.Undefined? <==> Answerable(input, server) && ReadFrom(server.value, 0, charSigned).Astray?
    ensures r.Selected? ==> IsGreatest(Names(input).value, ReadFrom(server.value, 0, charSigned).names, r.name)
    ensures r.Selected? ==> r.outlen == |r.name| <= 255
  {
    if |input| == 0 {
      return Fatal;
    }
    var clientProtos := DecodeNames(input);
    if clientProtos.None? {
      return Fatal;
    }
    if server.None? {
      return Fatal;
    }
    if |server.value| == 0 {
      return Fatal;
    }
    var proposed := DecodeConfigured(server.value, charSigned);
    match proposed {
      case Refused => return Fatal;
      case Astray => return Undefined;
      case Read(names) =>
        ReadNames(server.value, charSigned);
        var out := MostPreferred(clientProtos.value, names);
        return Selected(out, |out|);
    }
  }

  /** There is one greatest name, so the server's order and repetitions do not matter. */
  lemma GreatestIgnoresServerOrder(client: seq<Name>, xs: seq<Name>, ys: seq<Name>, a: Name, b: Name)
    requires forall n :: n in xs <==> n in ys
    requires IsGreatest(client, xs, a) && IsGreatest(client, ys, b)
    ensures a == b
  {
    CmpIsTotalOrder(client, a, b, a);
  }

  /** The greatest name is the server's name that comes earliest in the client's list; if the client
      lists none of them, the one that all others come before by their bytes. */
  lemma {:induction false} GreatestMeansPreferred(client: seq<Name>, names: seq<Name>, best: Name)
    ensures IsGreatest(client, names, best) <==>
            && best in names
            && (if exists n <- names :: n in client then
                  best in client && forall n <- names :: n in client ==> IndexOf(client, best) <= IndexOf(client, n)
                else forall n <- names :: n == best || Before(n, best))
  {
    hide StrCmp, Before;
    forall n | n in names
      ensures best in client && n in client && IndexOf(client, best) == IndexOf(client, n) ==> best == n
      ensures StrCmp(best, n) >= 0 <==> n == best || Before(n, best)
    {
      StrCmpOrder(best, n, n);
      StrCmpIsLexicographic(n, best);
    }
    StrCmpOrder(best, best, best);
  }

  /** A client that lists only "h2", and a server with "spdy2" and "spdy3": the greatest is "spdy3". */
  lemma UnlistedExample(names: seq<Name>, best: Name)
    requires names == [[115, 112, 100, 121, 50], [115, 112, 100, 121, 51]]
    ensures IsGreatest([[104, 50]], names, best) <==> best == [115, 112, 100, 121, 51]
  {
    hide StrCmp, Cmp;
    GreatestMeansPreferred([[104, 50]], names, best);
    assert names[0][..4] == names[1][..4];
    assert Before(names[0], names[1]);
    StrCmpIsLexicographic(names[0], names[1]);
    StrCmpIsLexicographic(names[1], names[0]);
    StrCmpOrder(names[0], names[1], names[1]);
    assert forall n :: n in names <==> n == names[0] || n == names[1];
  }

  /** Non-empty names as they can be listed, without a NUL. */
  predicate Plain(names: seq<Name>) {
    forall n <- names :: 0 < |n| < 256 && NUL !in n
  }

  predicate OnlyShared(names: seq<Name>, listed: seq<Name>, common: Name) {
    common in names && common in listed && forall n <- names :: n in listed ==> n == common
  }

  lemma KeptPlain(names: seq<Name>)
    requires Plain(names)
    ensures forall n :: n in Kept(names) <==> n in names
    ensures LengthsFit(names) && Names(Wire(names)) == Some(Kept(names))
  {
    forall n
      ensures n in Kept(names) <==> n in names
    {
      KeptMembers(names, n);
    }
    SerialiseThenDecode(names);
  }

  /** With exactly one protocol in common, the server-priority selector chooses it, and so does the
      client-preference selector wherever the same bytes read as a list. */
  lemma {:induction false} SelectorsAgree(names: seq<Name>, listed: seq<Name>, common: Name, charSigned: bool)
    requires Plain(names) && Plain(listed) && OnlyShared(names, listed, common)
    ensures Names(Encode(listed)) == Some(listed)
    ensures Selects(Encode(listed), Wire(names), common)
    ensures var configured := ReadFrom(Wire(names), 0, charSigned);
            |Wire(names)| < INT_LIMIT && configured.Read? ==>
              forall best :: IsGreatest(listed, configured.names, best) ==> best == common
  {
    hide Wire, Encode, ReadFrom, SelectFrom, Split, At, Kept;
    DecodeOfEncode(listed);
    KeptPlain(names);
    var kept := Kept(names);
    var k := FirstShared(kept, listed);
    assert k < |kept| && kept[k] == common;
    assert IsEncoding(Encode(listed), listed);
    ConfiguredPriority(names, Encode(listed), listed);
    if |Wire(names)| < INT_LIMIT && ReadFrom(Wire(names), 0, charSigned).Read? {
      ReadNames(Wire(names), charSigned);
      forall best | IsGreatest(listed, kept, best)
        ensures best == common
      {
        GreatestMeansPreferred(listed, kept, best);
      }
    }
  }
}
