/**
 The writer that appends to a buffer and the reader that advances over one, byte by byte, each
 against the functions of `Codec`.
 */
module CodecStreams {
  import opened Options
  import opened JsonGrammar
  import opened Codec

  /** value >> 8k. */
  function Shifted(value: nat, k: nat): nat
    decreases k
  {
    if k == 0 then value else Shifted(value / 256, k - 1)
  }

  lemma {:induction false} ShiftAgain(value: nat, k: nat)
    ensures Shifted(value, k + 1) == Shifted(value, k) / 256
    decreases k
  {
    if k > 0 {
      ShiftAgain(value / 256, k - 1);
    }
  }

  /** One more byte of a value, from the left. */
  lemma NextByte(value: nat, n: nat, k: nat)
    requires k < n
    ensures BigEndian(Shifted(value, k), n - k) ==
            BigEndian(Shifted(value, k + 1), n - k - 1) + [Shifted(value, k) % 256]
  {
    ShiftAgain(value, k);
  }

  lemma NoBytes(value: nat)
    ensures BigEndian(value, 0) == []
  {
  }

  lemma Unshifted(value: nat)
    ensures Shifted(value, 0) == value
  {
  }

  class Writer {
    var data: Text

    constructor ()
      ensures data == []
    {
      data := [];
    }

    /** The bytes of an integer, from the most significant down. */
    method Integer(value: nat, n: nat)
      modifies this
      ensures data == old(data) + BigEndian(value, n)
    {
      hide BigEndian, Shifted;
      NoBytes(Shifted(value, n));
      Unshifted(value);
      for k := n downto 0
        invariant data == old(data) + BigEndian(Shifted(value, k), n - k)
      {
        NextByte(value, n, k);
        ghost var high := BigEndian(Shifted(value, k + 1), n - k - 1);
        data := data + [Shifted(value, k) % 256];
        assert data == old(data) + (high + [Shifted(value, k) % 256]);
      }
    }

    method Row(values: seq<nat>, widths: seq<nat>)
      requires |values| == |widths|
      modifies this
      ensures data == old(data) + Integers(values, widths)
    {
      hide Integers, BigEndian;
      NoIntegers();
      for i := 0 to |values|
        invariant data == old(data) + Integers(values[..i], widths[..i])
      {
        assert values[..i + 1] == values[..i] + [values[i]] && widths[..i + 1] == widths[..i] + [widths[i]];
        IntegersAppend(values[..i], widths[..i], values[i], widths[i]);
        Integer(values[i], widths[i]);
        assert data == old(data) + (Integers(values[..i], widths[..i]) + BigEndian(values[i], widths[i]));
      }
      assert values[..|values|] == values && widths[..|widths|] == widths;
    }

    /** Refused, with nothing written, when the length does not fit its prefix. */
    method Bytes(bytes: Text) returns (ok: bool)
      modifies this
      ensures ok == (|bytes| <= 0xFFFF_FFFF)
      ensures data == if ok then old(data) + Field(bytes) else old(data)
    {
      if |bytes| > BLOB_MAX {
        return false;
      }
      Integer(|bytes|, 4);
      data := data + bytes;
      assert data == old(data) + (BigEndian(|bytes|, 4) + bytes);
      return true;
    }

    method EncodeNodeInfo(n: NodeInfo) returns (ok: bool)
      requires Representable(n)
      modifies this
      ensures ok == (|n.host| <= 0xFFFF_FFFF && |n.failureDomain| <= 0xFFFF_FFFF)
      ensures ok ==> data == old(data) + Encoded(n)
    {
      hide Integers, Field, Numbers;
      data := data + n.id;
      ok := Bytes(n.host);
      if !ok {
        return;
      }
      ok := Bytes(n.failureDomain);
      if !ok {
        return;
      }
      Row(Numbers(n), WIDTHS);
      assert data == old(data) + (n.id + (Field(n.host) + (Field(n.failureDomain) + Integers(Numbers(n), WIDTHS))));
    }
  }

  lemma {:induction false} IntegersAppend(values: seq<nat>, widths: seq<nat>, v: nat, n: nat)
    requires |values| == |widths|
    ensures Integers(values + [v], widths + [n]) == Integers(values, widths) + BigEndian(v, n)
    decreases |values|
  {
    hide BigEndian;
    if values == [] {
      assert (values + [v])[1..] == [] && (widths + [n])[1..] == [];
    } else {
      assert (values + [v])[1..] == values[1..] + [v] && (widths + [n])[1..] == widths[1..] + [n];
      IntegersAppend(values[1..], widths[1..], v, n);
    }
  }

  lemma NoIntegers()
    ensures Integers([], []) == []
  {
  }

  class Reader {
    const data: Text
    var position: nat

    constructor (data: Text)
      ensures this.data == data && position == 0
    {
      this.data, position := data, 0;
    }

    /** The outcome of a read; on failure the source throws and the position no longer matters. */
    ghost predicate Agrees<T(!new)>(o: Option<T>, r: Decoded<T>)
      reads this
    {
      match r
      case Read(v, p) => o == Some(v) && position == p
      case Failed => o.None?
    }

    method Integer(n: nat) returns (o: Option<nat>)
      requires position <= |data|
      modifies this
      ensures Agrees(o, ReadInteger(data, old(position), n)) && position <= |data|
    {
      if position + n > |data| {
        return None;
      }
      var value: nat := 0;
      for i := 0 to n
        invariant position == old(position) + i && value == ValueOf(data[old(position)..position])
      {
        ghost var before := data[old(position)..position];
        value := value * 256 + data[position];
        position := position + 1;
        assert data[old(position)..position][..i] == before;
      }
      return Some(value);
    }

    method Raw(n: nat) returns (o: Option<Text>)
      requires position <= |data|
      modifies this
      ensures Agrees(o, ReadRaw(data, old(position), n)) && position <= |data|
    {
      if position + n > |data| {
        return None;
      }
      var out := data[position..position + n];
      position := position + n;
      return Some(out);
    }

    method String(maximum: nat) returns (o: Option<Text>)
      requires position <= |data|
      modifies this
      ensures Agrees(o, ReadString(data, old(position), maximum)) && position <= |data|
    {
      var size := Integer(4);
      if size.None? || size.value > maximum {
        return None;
      }
      o := Raw(size.value);
    }

    /** The integers of a record, in order. */
    method Integers(widths: seq<nat>) returns (o: Option<seq<nat>>)
      requires position <= |data|
      modifies this
      ensures Agrees(o, ReadIntegers(data, old(position), widths)) && position <= |data|
    {
      hide ReadInteger;
      var values: seq<nat> := [];
      assert widths[0..] == widths;
      BehindNone(ReadIntegers(data, position, widths));
      for i := 0 to |widths|
        invariant position <= |data|
        invariant ReadIntegers(data, old(position), widths) == Behind(values, ReadIntegers(data, position, widths[i..]))
      {
        assert widths[i..][0] == widths[i] && widths[i..][1..] == widths[i + 1..];
        var v := Integer(widths[i]);
        if v.None? {
          return None;
        }
        BehindOne(values, v.value, ReadIntegers(data, position, widths[i + 1..]));
        values := values + [v.value];
      }
      assert widths[|widths|..] == [] && values + [] == values;
      return Some(values);
    }

    method DecodeNodeInfo() returns (o: Option<NodeInfo>)
      requires position <= |data|
      modifies this
      ensures Agrees(o, DecodeNode(data, old(position)))
    {
      hide ReadString, ReadIntegers;
      var id := Raw(16);
      if id.None? {
        return None;
      }
      var host := String(STRING_MAX);
      if host.None? {
        return None;
      }
      var domain := String(STRING_MAX);
      if domain.None? {
        return None;
      }
      var numbers := Integers(WIDTHS);
      if numbers.None? {
        return None;
      }
      return Some(NodeOf(id.value, host.value, domain.value, numbers.value));
    }
  }

  /** A read with values already read before it. */
  function Behind(values: seq<nat>, rest: Decoded<seq<nat>>): Decoded<seq<nat>>
  {
    if rest.Failed? then Failed else Read(values + rest.value, rest.position)
  }

  lemma BehindNone(rest: Decoded<seq<nat>>)
    ensures Behind([], rest) == rest
  {
    if rest.Read? {
      assert [] + rest.value == rest.value;
    }
  }

  lemma BehindOne(values: seq<nat>, v: nat, rest: Decoded<seq<nat>>)
    ensures Behind(values, Behind([v], rest)) == Behind(values + [v], rest)
  {
    if rest.Read? {
      assert values + ([v] + rest.value) == values + [v] + rest.value;
    }
  }
}
