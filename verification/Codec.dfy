/**
 The binary codec: big-endian integers, length-prefixed strings, and the node record made of
 them.
 */
module Codec {
  import opened Arithmetic
  import opened JsonGrammar

  /** Reading stops at DecodeError; otherwise it gives a value and the position after it. */
  datatype Decoded<T> = Read(value: T, position: nat) | Failed

  function Pow256(n: nat): (p: nat)
    ensures p > 0
  {
    if n == 0 then 1 else 256 * Pow256(n - 1)
  }

  /** The low n bytes of a value, the most significant first. */
  function BigEndian(value: nat, n: nat): (bytes: Text)
    ensures |bytes| == n
    decreases n
  {
    if n == 0 then [] else BigEndian(value / 256, n - 1) + [value % 256]
  }

  function ValueOf(bytes: Text): nat
  {
    if bytes == [] then 0 else ValueOf(bytes[..|bytes| - 1]) * 256 + bytes[|bytes| - 1]
  }

  lemma {:induction false} ValueOfBigEndian(value: nat, n: nat)
    requires value < Pow256(n)
    ensures ValueOf(BigEndian(value, n)) == value
    decreases n
  {
    if n > 0 {
      ValueOfBigEndian(value / 256, n - 1);
      assert BigEndian(value, n)[..n - 1] == BigEndian(value / 256, n - 1);
    }
  }

  lemma {:induction false} BigEndianOfValue(bytes: Text)
    ensures ValueOf(bytes) < Pow256(|bytes|) && BigEndian(ValueOf(bytes), |bytes|) == bytes
  {
    if bytes != [] {
      var rest, last := bytes[..|bytes| - 1], bytes[|bytes| - 1];
      BigEndianOfValue(rest);
      assert ValueOf(bytes) / 256 == ValueOf(rest) && ValueOf(bytes) % 256 == last;
      assert bytes == rest + [last];
    }
  }

  /** Each byte is its digit in base 256, the first the most significant. */
  lemma {:induction false} BigEndianAt(value: nat, n: nat, i: nat)
    requires i < n
    ensures BigEndian(value, n)[i] == value / Pow256(n - 1 - i) % 256
    decreases n
  {
    if i < n - 1 {
      BigEndianAt(value / 256, n - 1, i);
      DivideTwice(value, Pow256(n - 2 - i));
    } else {
      assert Pow256(0) == 1;
    }
  }

  lemma DivideTwice(value: nat, d: nat)
    requires d > 0
    ensures value / 256 / d == value / (256 * d)
  {
    var q := value / 256 / d;
    Quotient(value / 256, q, d);
    var r := value / 256;
    assert 256 * r <= value < 256 * r + 256;
    assert q * (256 * d) == 256 * (q * d);
    Quotient(value, q, 256 * d);
  }

  // Fields

  const STRING_MAX: nat := 4096
  const BLOB_MAX: nat := 0xFFFF_FFFF

  function Field(value: Text): Text { BigEndian(|value|, 4) + value }

  function ReadInteger(data: Text, position: nat, n: nat): Decoded<nat>
  {
    if position + n > |data| then Failed else Read(ValueOf(data[position..position + n]), position + n)
  }

  function ReadRaw(data: Text, position: nat, n: nat): Decoded<Text>
  {
    if position + n > |data| then Failed else Read(data[position..position + n], position + n)
  }

  function ReadString(data: Text, position: nat, maximum: nat): Decoded<Text>
  {
    var size := ReadInteger(data, position, 4);
    if size.Failed? || size.value > maximum then Failed else ReadRaw(data, size.position, size.value)
  }

  // The node record

  datatype NodeInfo = NodeInfo(
    id: Text,
    host: Text,
    failureDomain: Text,
    port: nat,
    capacity: nat,
    used: nat,
    seen: nat,
    generation: nat,
    replicas: nat,
    flags: nat)

  /** The widths of the integers after the strings, and their values in that order. */
  const WIDTHS: seq<nat> := [2, 8, 8, 8, 8, 4, 1]

  function Numbers(n: NodeInfo): (v: seq<nat>)
    ensures |v| == 7
  {
    [n.port, n.capacity, n.used, n.seen, n.generation, n.replicas, n.flags]
  }

  predicate Fit(values: seq<nat>, widths: seq<nat>)
  {
    |values| == |widths| && forall i | 0 <= i < |values| :: values[i] < Pow256(widths[i])
  }

  /** A record the source's types can hold. */
  predicate Representable(n: NodeInfo) { |n.id| == 16 && Fit(Numbers(n), WIDTHS) }

  function Integers(values: seq<nat>, widths: seq<nat>): Text
    requires |values| == |widths|
  {
    if values == [] then [] else BigEndian(values[0], widths[0]) + Integers(values[1..], widths[1..])
  }

  function ReadIntegers(data: Text, position: nat, widths: seq<nat>): (r: Decoded<seq<nat>>)
    ensures r.Read? ==> |r.value| == |widths|
    decreases |widths|
  {
    if widths == [] then Read([], position) else
    var first := ReadInteger(data, position, widths[0]);
    if first.Failed? then Failed else
    var rest := ReadIntegers(data, first.position, widths[1..]);
    if rest.Failed? then Failed else Read([first.value] + rest.value, rest.position)
  }

  function Encoded(n: NodeInfo): Text { n.id + (Field(n.host) + (Field(n.failureDomain) + Integers(Numbers(n), WIDTHS))) }

  function NodeOf(id: Text, host: Text, domain: Text, v: seq<nat>): NodeInfo
    requires |v| == 7
  {
    NodeInfo(id, host, domain, v[0], v[1], v[2], v[3], v[4], v[5], v[6])
  }

  function DecodeNode(data: Text, position: nat): Decoded<NodeInfo>
  {
    var id := ReadRaw(data, position, 16);
    if id.Failed? then Failed else
    var host := ReadString(data, id.position, STRING_MAX);
    if host.Failed? then Failed else
    var domain := ReadString(data, host.position, STRING_MAX);
    if domain.Failed? then Failed else
    var numbers := ReadIntegers(data, domain.position, WIDTHS);
    if numbers.Failed? then Failed else
    Read(NodeOf(id.value, host.value, domain.value, numbers.value), numbers.position)
  }

  // Reading back what was written

  /** The data has these bytes at the position. */
  predicate Has(data: Text, position: nat, bytes: Text)
  {
    position + |bytes| <= |data| && data[position..position + |bytes|] == bytes
  }

  lemma HasParts(data: Text, position: nat, a: Text, b: Text)
    ensures Has(data, position, a + b) <==> Has(data, position, a) && Has(data, position + |a|, b)
  {
    if position + |a| + |b| <= |data| {
      var whole := data[position..position + |a| + |b|];
      assert whole[..|a|] == data[position..position + |a|];
      assert whole[|a|..] == data[position + |a|..position + |a| + |b|];
      assert (a + b)[..|a|] == a && (a + b)[|a|..] == b;
    }
  }

  /** An integer is read as v exactly when its n bytes are there. */
  lemma IntegerExact(data: Text, position: nat, n: nat, v: nat)
    ensures ReadInteger(data, position, n) == Read(v, position + n) <==> v < Pow256(n) && Has(data, position, BigEndian(v, n))
  {
    hide BigEndian, ValueOf, Pow256;
    if position + n <= |data| {
      BytesExact(data[position..position + n], v);
    }
  }

  /** A value and its bytes determine each other. */
  lemma BytesExact(bytes: Text, v: nat)
    ensures ValueOf(bytes) == v <==> v < Pow256(|bytes|) && bytes == BigEndian(v, |bytes|)
  {
    BigEndianOfValue(bytes);
    if v < Pow256(|bytes|) {
      ValueOfBigEndian(v, |bytes|);
    }
  }

  lemma StringExact(data: Text, position: nat, maximum: nat, s: Text)
    requires maximum <= BLOB_MAX
    ensures ReadString(data, position, maximum) == Read(s, position + |Field(s)|) <==>
            |s| <= maximum && Has(data, position, Field(s))
  {
    IntegerExact(data, position, 4, |s|);
    HasParts(data, position, BigEndian(|s|, 4), s);
    assert Pow256(4) == 0x1_0000_0000;
    hide BigEndian, ValueOf, Pow256;
    if ReadString(data, position, maximum) == Read(s, position + |Field(s)|) {
      assert |s| == ReadInteger(data, position, 4).value;
    }
  }

  /** Integers in a row are read as these values exactly when they fit and their bytes are there. */
  lemma {:induction false} IntegersExact(data: Text, p: nat, widths: seq<nat>, values: seq<nat>)
    requires |values| == |widths| && p <= |data|
    ensures ReadIntegers(data, p, widths) == Read(values, p + |Integers(values, widths)|) <==>
            Fit(values, widths) && Has(data, p, Integers(values, widths))
    decreases |widths|
  {
    hide BigEndian, Pow256;
    if widths == [] {
      assert data[p..p] == [];
    } else {
      var v, n := values[0], widths[0];
      var first := ReadInteger(data, p, n);
      IntegerExact(data, p, n, v);
      HasParts(data, p, BigEndian(v, n), Integers(values[1..], widths[1..]));
      FitParts(values, widths);
      hide Has, ReadInteger, Fit;
      IntegerMoves(data, p, n);
      if first.Read? {
        IntegersExact(data, p + n, widths[1..], values[1..]);
        assert values == [v] + values[1..];
      }
    }
  }

  lemma FitParts(values: seq<nat>, widths: seq<nat>)
    requires |values| == |widths| && values != []
    ensures Fit(values, widths) <==> values[0] < Pow256(widths[0]) && Fit(values[1..], widths[1..])
  {
    hide Pow256;
    if values[0] < Pow256(widths[0]) && Fit(values[1..], widths[1..]) {
      forall i | 0 < i < |values|
        ensures values[i] < Pow256(widths[i])
      {
        assert values[1..][i - 1] == values[i] && widths[1..][i - 1] == widths[i];
      }
    }
  }

  lemma IntegerMoves(data: Text, p: nat, n: nat)
    ensures var r := ReadInteger(data, p, n); r.Read? ==> r.position == p + n <= |data|
  {
  }

  lemma StringMoves(data: Text, p: nat, maximum: nat)
    ensures var r := ReadString(data, p, maximum); r.Read? ==> r.position == p + |Field(r.value)| <= |data|
  {
    hide ValueOf, BigEndian;
  }

  lemma {:induction false} IntegersMove(data: Text, p: nat, widths: seq<nat>)
    ensures var r := ReadIntegers(data, p, widths); r.Read? ==> r.position == p + |Integers(r.value, widths)|
    decreases |widths|
  {
    if widths != [] {
      var first := ReadInteger(data, p, widths[0]);
      if first.Read? {
        IntegersMove(data, first.position, widths[1..]);
        var rest := ReadIntegers(data, first.position, widths[1..]);
        if rest.Read? {
          assert ([first.value] + rest.value)[1..] == rest.value;
        }
      }
    }
  }

  lemma EncodedParts(data: Text, p: nat, n: NodeInfo)
    requires |n.id| == 16
    ensures var domain := p + 16 + |Field(n.host)|;
            var numbers := domain + |Field(n.failureDomain)|;
            && p + |Encoded(n)| == numbers + |Integers(Numbers(n), WIDTHS)|
            && (Has(data, p, Encoded(n)) <==>
                  && Has(data, p, n.id) && Has(data, p + 16, Field(n.host))
                  && Has(data, domain, Field(n.failureDomain)) && Has(data, numbers, Integers(Numbers(n), WIDTHS)))
  {
    hide Has, Field, Integers, Numbers;
    var a, b, c := Field(n.host), Field(n.failureDomain), Integers(Numbers(n), WIDTHS);
    HasParts(data, p, n.id, a + (b + c));
    HasParts(data, p + 16, a, b + c);
    HasParts(data, p + 16 + |a|, b, c);
  }

  /** A record whose strings are short enough to be read back. */
  predicate Readable(n: NodeInfo) { Representable(n) && |n.host| <= 4096 && |n.failureDomain| <= 4096 }

  lemma NodeOfNumbers(n: NodeInfo, v: seq<nat>)
    requires |v| == 7
    ensures NodeOf(n.id, n.host, n.failureDomain, v) == n <==> v == Numbers(n)
  {
  }

  /** A record is read as its parts are, one after the other. */
  lemma DecodeParts(data: Text, p: nat, n: NodeInfo, q: nat)
    requires |n.id| == 16
    ensures var domain := p + 16 + |Field(n.host)|;
            var numbers := domain + |Field(n.failureDomain)|;
            DecodeNode(data, p) == Read(n, q) <==>
            && Has(data, p, n.id)
            && ReadString(data, p + 16, STRING_MAX) == Read(n.host, domain)
            && ReadString(data, domain, STRING_MAX) == Read(n.failureDomain, numbers)
            && ReadIntegers(data, numbers, WIDTHS) == Read(Numbers(n), q)
  {
    hide ReadString, ReadIntegers, Field, Numbers;
    StringMoves(data, p + 16, STRING_MAX);
    var host := ReadString(data, p + 16, STRING_MAX);
    if host.Read? {
      StringMoves(data, host.position, STRING_MAX);
      var domain := ReadString(data, host.position, STRING_MAX);
      if domain.Read? {
        var numbers := ReadIntegers(data, domain.position, WIDTHS);
        if numbers.Read? {
          NodeOfNumbers(n, numbers.value);
        }
      }
    }
  }

  /** A record is read exactly when it is a readable one and the data has its encoding, which is then what is consumed. */
  lemma NodeExact(data: Text, p: nat, n: NodeInfo)
    ensures DecodeNode(data, p) == Read(n, p + |Encoded(n)|) <==> Readable(n) && Has(data, p, Encoded(n))
  {
    hide ReadString, ReadIntegers, DecodeNode, Encoded, Field, Integers, Numbers, Fit;
    if |n.id| == 16 {
      EncodedParts(data, p, n);
      DecodeParts(data, p, n, p + |Encoded(n)|);
      var domain := p + 16 + |Field(n.host)|;
      var numbers := domain + |Field(n.failureDomain)|;
      StringExact(data, p + 16, STRING_MAX, n.host);
      StringExact(data, domain, STRING_MAX, n.failureDomain);
      if numbers <= |data| {
        IntegersExact(data, numbers, WIDTHS, Numbers(n));
      }
    } else {
      DecodedId(data, p);
    }
  }

  lemma DecodedId(data: Text, p: nat)
    ensures DecodeNode(data, p).Read? ==> |DecodeNode(data, p).value.id| == 16
  {
    hide ReadIntegers, ReadString;
  }

  /** Decoding an encoding, whatever follows it, gives the record and stops right after it. */
  lemma EncodeThenDecode(n: NodeInfo, rest: Text)
    requires Readable(n)
    ensures DecodeNode(Encoded(n) + rest, 0) == Read(n, |Encoded(n)|)
    ensures (Encoded(n) + rest)[|Encoded(n)|..] == rest
  {
    hide DecodeNode, Encoded;
    NodeExact(Encoded(n) + rest, 0, n);
  }

  /** Encoding whatever was decoded gives back exactly the bytes consumed. */
  lemma DecodeThenEncode(data: Text, p: nat)
    requires DecodeNode(data, p).Read?
    ensures var r := DecodeNode(data, p);
            && Readable(r.value) && p <= r.position <= |data| && Encoded(r.value) == data[p..r.position]
  {
    hide DecodeNode, Encoded;
    DecodedEnd(data, p);
    NodeExact(data, p, DecodeNode(data, p).value);
  }

  lemma DecodedEnd(data: Text, p: nat)
    requires DecodeNode(data, p).Read?
    ensures var r := DecodeNode(data, p); r.position == p + |Encoded(r.value)|
  {
    hide DecodeNode, Encoded, Field, Integers, Numbers, ReadIntegers, ReadString, Has;
    var n, q := DecodeNode(data, p).value, DecodeNode(data, p).position;
    DecodedId(data, p);
    DecodeParts(data, p, n, q);
    EncodedParts(data, p, n);
    IntegersMove(data, p + 16 + |Field(n.host)| + |Field(n.failureDomain)|, WIDTHS);
  }

  // The layout

  /** Where the i-th integer of a row starts. */
  function OffsetOf(widths: seq<nat>, i: nat): nat
    requires i <= |widths|
  {
    if i == 0 then 0 else widths[0] + OffsetOf(widths[1..], i - 1)
  }

  lemma {:induction false} RowAt(values: seq<nat>, widths: seq<nat>, i: nat)
    requires |values| == |widths| && i < |widths|
    ensures Has(Integers(values, widths), OffsetOf(widths, i), BigEndian(values[i], widths[i]))
    decreases |values|
  {
    hide BigEndian;
    var first, rest := BigEndian(values[0], widths[0]), Integers(values[1..], widths[1..]);
    if i == 0 {
      assert (first + rest)[..|first|] == first;
    } else {
      RowAt(values[1..], widths[1..], i - 1);
      var at, bytes := OffsetOf(widths[1..], i - 1), BigEndian(values[i], widths[i]);
      assert (first + rest)[|first| + at..|first| + at + |bytes|] == rest[at..at + |bytes|];
    }
  }

  lemma {:induction false} RowLength(values: seq<nat>, widths: seq<nat>)
    requires |values| == |widths|
    ensures |Integers(values, widths)| == OffsetOf(widths, |widths|)
    decreases |values|
  {
    if values != [] {
      RowLength(values[1..], widths[1..]);
    }
  }

  lemma Offsets()
    ensures OffsetOf(WIDTHS, 0) == 0 && OffsetOf(WIDTHS, 1) == 2 && OffsetOf(WIDTHS, 2) == 10 && OffsetOf(WIDTHS, 3) == 18
    ensures OffsetOf(WIDTHS, 4) == 26 && OffsetOf(WIDTHS, 5) == 34 && OffsetOf(WIDTHS, 6) == 38 && OffsetOf(WIDTHS, 7) == 39
  {
    var w1, w2, w3 := WIDTHS[1..], WIDTHS[2..], WIDTHS[3..];
    var w4, w5, w6 := WIDTHS[4..], WIDTHS[5..], WIDTHS[6..];
    assert w1[1..] == w2 && w2[1..] == w3 && w3[1..] == w4 && w4[1..] == w5 && w5[1..] == w6;
    hide OffsetOf;
    forall i: nat | 0 < i <= 7 ensures OffsetOf(WIDTHS, i) == 2 + OffsetOf(w1, i - 1) { OffsetStep(WIDTHS, i); }
    forall i: nat | 0 < i <= 6 ensures OffsetOf(w1, i) == 8 + OffsetOf(w2, i - 1) { OffsetStep(w1, i); }
    forall i: nat | 0 < i <= 5 ensures OffsetOf(w2, i) == 8 + OffsetOf(w3, i - 1) { OffsetStep(w2, i); }
    forall i: nat | 0 < i <= 4 ensures OffsetOf(w3, i) == 8 + OffsetOf(w4, i - 1) { OffsetStep(w3, i); }
    forall i: nat | 0 < i <= 3 ensures OffsetOf(w4, i) == 8 + OffsetOf(w5, i - 1) { OffsetStep(w4, i); }
    forall i: nat | 0 < i <= 2 ensures OffsetOf(w5, i) == 4 + OffsetOf(w6, i - 1) { OffsetStep(w5, i); }
    OffsetStep(w6, 1);
    forall w ensures OffsetOf(w, 0) == 0 { OffsetStart(w); }
  }

  lemma OffsetStep(widths: seq<nat>, i: nat)
    requires 0 < i <= |widths|
    ensures OffsetOf(widths, i) == widths[0] + OffsetOf(widths[1..], i - 1)
  {
  }

  lemma OffsetStart(widths: seq<nat>)
    ensures OffsetOf(widths, 0) == 0
  {
  }

  /** The place of every field in the encoding, and its width. */
  lemma NodeLayout(n: NodeInfo)
    requires |n.id| == 16
    ensures var data, domain := Encoded(n), 20 + |n.host|;
            var numbers := domain + 4 + |n.failureDomain|;
            && |data| == numbers + 39
            && Has(data, 0, n.id)
            && Has(data, 16, BigEndian(|n.host|, 4)) && Has(data, 20, n.host)
            && Has(data, domain, BigEndian(|n.failureDomain|, 4)) && Has(data, domain + 4, n.failureDomain)
            && Has(data, numbers, BigEndian(n.port, 2))
            && Has(data, numbers + 2, BigEndian(n.capacity, 8))
            && Has(data, numbers + 10, BigEndian(n.used, 8))
            && Has(data, numbers + 18, BigEndian(n.seen, 8))
            && Has(data, numbers + 26, BigEndian(n.generation, 8))
            && Has(data, numbers + 34, BigEndian(n.replicas, 4))
            && Has(data, numbers + 38, BigEndian(n.flags, 1))
  {
    hide BigEndian, Integers, Has;
    var data, domain := Encoded(n), 20 + |n.host|;
    var numbers := domain + 4 + |n.failureDomain|;
    WholeHas(data);
    EncodedParts(data, 0, n);
    HasParts(data, 16, BigEndian(|n.host|, 4), n.host);
    HasParts(data, domain, BigEndian(|n.failureDomain|, 4), n.failureDomain);
    RowLength(Numbers(n), WIDTHS);
    Offsets();
    forall i: nat | 0 <= i < 7
      ensures Has(data, numbers + OffsetOf(WIDTHS, i), BigEndian(Numbers(n)[i], WIDTHS[i]))
    {
      RowAt(Numbers(n), WIDTHS, i);
      HasWithin(data, numbers, Integers(Numbers(n), WIDTHS), OffsetOf(WIDTHS, i), BigEndian(Numbers(n)[i], WIDTHS[i]));
    }
    hide OffsetOf;
    assert Has(data, numbers + OffsetOf(WIDTHS, 0), BigEndian(Numbers(n)[0], WIDTHS[0]));
    assert Has(data, numbers + OffsetOf(WIDTHS, 1), BigEndian(Numbers(n)[1], WIDTHS[1]));
    assert Has(data, numbers + OffsetOf(WIDTHS, 2), BigEndian(Numbers(n)[2], WIDTHS[2]));
    assert Has(data, numbers + OffsetOf(WIDTHS, 3), BigEndian(Numbers(n)[3], WIDTHS[3]));
    assert Has(data, numbers + OffsetOf(WIDTHS, 4), BigEndian(Numbers(n)[4], WIDTHS[4]));
    assert Has(data, numbers + OffsetOf(WIDTHS, 5), BigEndian(Numbers(n)[5], WIDTHS[5]));
    assert Has(data, numbers + OffsetOf(WIDTHS, 6), BigEndian(Numbers(n)[6], WIDTHS[6]));
  }

  lemma WholeHas(data: Text)
    ensures Has(data, 0, data)
  {
    assert data[0..|data|] == data;
  }

  lemma HasWithin(data: Text, p: nat, row: Text, at: nat, bytes: Text)
    requires Has(data, p, row) && Has(row, at, bytes)
    ensures Has(data, p + at, bytes)
  {
    assert data[p..p + |row|][at..at + |bytes|] == bytes;
    forall i | 0 <= i < |bytes|
      ensures data[p + at + i] == bytes[i]
    {
      assert data[p..p + |row|][at + i] == bytes[i];
    }
  }
}
