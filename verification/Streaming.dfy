/** One Decoder over a stream of encodings, as bt and dht use it. */
module Streaming {
  import opened Bytes
  import opened Syntax
  import opened Values
  import opened Decode
  import opened DecoderObject
  import opened Encode
  import opened RoundTrip
  import opened Canonical

  predicate Sendable(ts: seq<Type>, vs: seq<Value>) {
    |ts| == |vs| && forall i | 0 <= i < |vs| :: HasType(ts[i], vs[i]) && Encodable(vs[i]) && !vs[i].VNil?
  }

  function EncAll(vs: seq<Value>): bytes {
    if vs == [] then [] else Enc(vs[0]) + EncAll(vs[1..])
  }

  lemma {:induction false} EncAllLast(vs: seq<Value>, v: Value)
    ensures EncAll(vs + [v]) == EncAll(vs) + Enc(v)
  {
    hide Enc;
    if vs == [] {
      assert vs + [v] == [v];
      assert [v][1..] == [];
    } else {
      EncAllLast(vs[1..], v);
      assert (vs + [v])[1..] == vs[1..] + [v];
    }
  }

  lemma EncAllAt(vs: seq<Value>, i: nat, tail: bytes)
    requires i < |vs|
    ensures EncAll([]) == []
    ensures EncAll(vs[i..]) + tail == Enc(vs[i]) + (EncAll(vs[i + 1..]) + tail)
    ensures |EncAll(vs[..i + 1])| == |EncAll(vs[..i])| + |Enc(vs[i])|
  {
    hide Enc;
    assert vs[i..][1..] == vs[i + 1..];
    EncAllLast(vs[..i], vs[i]);
    assert vs[..i] + [vs[i]] == vs[..i + 1];
  }

  /**
   * Successive calls of Decode give back the values that were sent, one by one, whether or not the
   * strictness flags are on; after each call BytesParsed is the sum of the lengths so far, and in the end
   * exactly what follows the values is left.
   */
  method ReceiveAll(dec: Decoder, ts: seq<Type>, ghost vs: seq<Value>, ghost tail: bytes)
      returns (rs: seq<Value>, marks: seq<int>)
    requires dec.Valid() && !dec.unknownFieldsErr && !dec.unorderedKeysErr
    requires Sendable(ts, vs) && dec.rest == EncAll(vs) + tail
    modifies dec
    ensures dec.Valid() && dec.rest == tail
    ensures |rs| == |marks| == |vs|
    ensures forall i | 0 <= i < |vs| :: rs[i] == Norm(ts[i], vs[i])
    ensures forall i | 0 <= i < |vs| :: marks[i] == old(dec.offset) + |EncAll(vs[..i + 1])|
  {
    hide Norm, Enc, EncAll, HasType, Encodable, DecodeValue;
    rs, marks := [], [];
    assert vs[0..] == vs && vs[..0] == [];
    EncAllAt([VNil], 0, tail);
    for i := 0 to |ts|
      invariant dec.Valid() && !dec.unknownFieldsErr && !dec.unorderedKeysErr
      invariant dec.rest == EncAll(vs[i..]) + tail && dec.offset == old(dec.offset) + |EncAll(vs[..i])|
      invariant |rs| == |marks| == i
      invariant forall j | 0 <= j < i :: rs[j] == Norm(ts[j], vs[j])
      invariant forall j | 0 <= j < i :: marks[j] == old(dec.offset) + |EncAll(vs[..j + 1])|
    {
      ghost var behind := EncAll(vs[i + 1..]) + tail;
      EncAllAt(vs, i, tail);
      DecodeEnc(ts[i], vs[i], behind);
      ghost var before := dec.rest;
      label Before:
      var r := dec.Decode(ts[i], Zero(ts[i]));
      assert dec.rest == before[|Enc(vs[i])|..] == behind by {
        assert dec.offset == old@Before(dec.offset) + |Enc(vs[i])|;
      }
      var n := dec.BytesParsed();
      rs, marks := rs + [r.value], marks + [n];
    }
    assert vs[|vs|..] == [];
  }

  /**
   * A fresh decoder with DisallowUnorderedKeys and a generic target succeeds exactly when decoding without
   * the flag does and no dictionary at any depth steps down; the value and the bytes taken are the same.
   */
  method DecodeStrictly(data: bytes) returns (r: Option<Value>, n: int)
    ensures r.Some? <==>
              && DecodeValue(TAny, VNil, data).Done? && Scan(data, true).Done?
              && AscendingEverywhere(Scan(data, true).value)
    ensures DecodeValue(TAny, VNil, data).Done? ==> n == DecodeValue(TAny, VNil, data).n
    ensures r.Some? ==> r.value == DecodeValue(TAny, VNil, data).value.val
  {
    hide DecodeValue, Scan, AscendingEverywhere;
    var dec := new Decoder(data);
    dec.DisallowUnorderedKeys();
    r := dec.Decode(TAny, VNil);
    n := dec.BytesParsed();
    if DecodeValue(TAny, VNil, data).Done? {
      StrictExactly(data);
    }
  }
}
