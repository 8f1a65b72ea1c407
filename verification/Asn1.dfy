/** DER lengths: the reader of the AIA walker and the encoder it is checked against
    (section 8.1.3 of ITU-T X.690). */
module Asn1 {
  import opened Bytes

  /** What reading a length can give. `PastEnd` stands for a read outside the buffer,
      which C leaves undefined. */
  datatype LengthResult = Length(len: nat, next: nat) | BadLength | PastEnd

  function BigEndian(s: seq<byte>): nat {
    if s == [] then 0 else BigEndian(s[..|s| - 1]) * 256 + s[|s| - 1]
  }

  /** The length field after the tag at `at`: its value and the offset of the contents. */
  function LengthAt(buf: seq<byte>, at: nat): (r: LengthResult)
    ensures r.Length? ==> at + 2 <= r.next <= |buf|
  {
    if at + 1 >= |buf| then PastEnd
    else if buf[at + 1] < 0x80 then Length(buf[at + 1], at + 2)
    else
      var n := buf[at + 1] - 0x80;
      if n == 0 || n > 3 then BadLength
      else if at + 2 + n > |buf| then PastEnd
      else Length(BigEndian(buf[at + 2..at + 2 + n]), at + 2 + n)
  }

  /** `parse_asn1_length`: `asn1` enters at the tag and leaves at the contents. */
  method ParseLength(buf: seq<byte>, at: nat) returns (r: LengthResult)
    ensures r == LengthAt(buf, at)
  {
    var asn1 := at + 1;
    if asn1 >= |buf| {
      return PastEnd;
    }
    var len: nat;
    if buf[asn1] >= 0x80 {
      var i := buf[asn1] % 0x80;
      if i == 0 || i > 3 {
        return BadLength;
      }
      ghost var n := i;
      var l: nat := 0;
      while i > 0
        invariant 0 <= i <= n && asn1 == at + 1 + n - i
        invariant asn1 < |buf|
        invariant l == BigEndian(buf[at + 2..asn1 + 1])
      {
        asn1 := asn1 + 1;
        if asn1 >= |buf| {
          return PastEnd;
        }
        assert buf[at + 2..asn1 + 1][..asn1 - at - 2] == buf[at + 2..asn1];
        l := l * 256 + buf[asn1];
        i := i - 1;
      }
      len := l;
    } else {
      len := buf[asn1];
    }
    return Length(len, asn1 + 1);
  }

  /** The minimal length octets of DER, for every length an `int` can hold. */
  function LengthOctets(n: nat): (s: seq<byte>)
    requires n < 0x8000_0000
    ensures 1 <= |s| <= 5
  {
    if n < 0x80 then [n]
    else if n < 0x100 then [0x81, n]
    else if n < 0x1_0000 then [0x82, n / 0x100, n % 0x100]
    else if n < 0x100_0000 then [0x83, n / 0x1_0000, n / 0x100 % 0x100, n % 0x100]
    else [0x84, n / 0x100_0000, n / 0x1_0000 % 0x100, n / 0x100 % 0x100, n % 0x100]
  }

  /** Tag, length, contents. */
  function Tlv(tag: byte, contents: seq<byte>): seq<byte>
    requires |contents| < 0x8000_0000
  {
    [tag] + LengthOctets(|contents|) + contents
  }

  function ContentsOffset(contents: seq<byte>): nat
    requires |contents| < 0x8000_0000
  {
    1 + |LengthOctets(|contents|)|
  }

  lemma BigEndianTwo(a: byte, b: byte)
    ensures BigEndian([a, b]) == a * 0x100 + b
  {
    assert [a, b][..1] == [a] && [a][..0] == [];
    assert BigEndian([a]) == a;
  }

  lemma BigEndianThree(a: byte, b: byte, c: byte)
    ensures BigEndian([a, b, c]) == a * 0x1_0000 + b * 0x100 + c
  {
    BigEndianTwo(a, b);
    assert [a, b, c][..2] == [a, b];
  }

  lemma ReadOneOctet(buf: seq<byte>, at: nat, n: byte)
    requires At(buf, at + 1, [0x81, n])
    ensures LengthAt(buf, at) == Length(n, at + 3)
  {
    assert buf[at + 1] == buf[at + 1..at + 3][0] && buf[at + 2] == buf[at + 1..at + 3][1];
    assert buf[at + 2..at + 3] == [n] && [n][..0] == [];
    assert BigEndian([n]) == n;
  }

  lemma ReadTwoOctets(buf: seq<byte>, at: nat, a: byte, b: byte)
    requires At(buf, at + 1, [0x82, a, b])
    ensures LengthAt(buf, at) == Length(a * 0x100 + b, at + 4)
  {
    assert buf[at + 1] == buf[at + 1..at + 4][0];
    assert buf[at + 2..at + 4] == buf[at + 1..at + 4][1..] == [a, b];
    BigEndianTwo(a, b);
  }

  lemma ReadThreeOctets(buf: seq<byte>, at: nat, a: byte, b: byte, c: byte)
    requires At(buf, at + 1, [0x83, a, b, c])
    ensures LengthAt(buf, at) == Length(a * 0x1_0000 + b * 0x100 + c, at + 5)
  {
    assert buf[at + 1] == buf[at + 1..at + 5][0];
    assert buf[at + 2..at + 5] == buf[at + 1..at + 5][1..] == [a, b, c];
    BigEndianThree(a, b, c);
  }

  lemma ReadOctets(buf: seq<byte>, at: nat, n: nat)
    requires n < 0x8000_0000 && At(buf, at + 1, LengthOctets(n))
    ensures LengthAt(buf, at) ==
            if n < 0x100_0000 then Length(n, at + 1 + |LengthOctets(n)|) else BadLength
  {
    var octets := LengthOctets(n);
    if 0x80 <= n < 0x100 {
      ReadOneOctet(buf, at, n);
    } else if 0x100 <= n < 0x1_0000 {
      ReadTwoOctets(buf, at, n / 0x100, n % 0x100);
    } else if 0x1_0000 <= n < 0x100_0000 {
      ReadThreeOctets(buf, at, n / 0x1_0000, n / 0x100 % 0x100, n % 0x100);
    } else {
      assert buf[at + 1] == buf[at + 1..at + 1 + |octets|][0] == octets[0];
    }
  }

  /** Reading a length inverts writing it exactly for lengths below 2^24; longer ones are refused. */
  lemma LengthRoundTrip(buf: seq<byte>, at: nat, tag: byte, contents: seq<byte>)
    requires |contents| < 0x8000_0000
    requires At(buf, at, Tlv(tag, contents))
    ensures at < |buf| && buf[at] == tag
    ensures LengthAt(buf, at) ==
            if |contents| < 0x100_0000 then Length(|contents|, at + ContentsOffset(contents)) else BadLength
    ensures At(buf, at + ContentsOffset(contents), contents)
  {
    var octets := LengthOctets(|contents|);
    AtSplit(buf, at, [tag] + octets, contents);
    AtSplit(buf, at, [tag], octets);
    assert buf[at..at + 1][0] == tag;
    ReadOctets(buf, at, |contents|);
  }
}
