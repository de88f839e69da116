/**
 * The Encoder object of bencode/encode.go: whatever order maps are enumerated in and sorting leaves, it
 * writes one of the texts of the value.
 */
module EncoderObject {
  import opened Bytes
  import opened Numerals
  import opened Values
  import opened Sorting
  import opened Encode
  import opened Texts

  // ---------- sort.Sort and MapKeys: any result they may give ----------

  /** sort.Sort promises a sorted permutation and nothing about equal keys. */
  method SortByKey<T(==)>(xs: seq<Keyed<T>>) returns (ys: seq<Keyed<T>>)
    ensures multiset(ys) == multiset(xs) && NonDecreasing(ys)
  {
    SortMultiset(xs);
    SortNonDecreasing(xs);
    ys :| multiset(ys) == multiset(xs) && NonDecreasing(ys);
  }

  /** The keys of a map, as MapKeys may list them when it happens to follow the key order. */
  function Keys(es: seq<Entry>): seq<Keyed<()>> {
    if es == [] then [] else [Keyed(es[0].key, ())] + Keys(es[1..])
  }

  lemma {:induction false} KeysAt(es: seq<Entry>)
    ensures |Keys(es)| == |es| && forall i | 0 <= i < |es| :: Keys(es)[i].key == es[i].key
  {
    if es == [] {
    } else {
      KeysAt(es[1..]);
    }
  }

  lemma {:induction false} KeysIncreasing(es: seq<Entry>)
    requires Ordered(es)
    ensures Increasing(Keys(es))
  {
    if es == [] {
    } else {
      KeysIncreasing(es[1..]);
      assert Keys(es)[1..] == Keys(es[1..]);
    }
  }

  /** MapKeys lists the keys in any order. */
  method MapKeys(es: seq<Entry>) returns (keys: seq<Keyed<()>>)
    ensures multiset(keys) == multiset(Keys(es))
  {
    keys :| multiset(keys) == multiset(Keys(es));
  }

  lemma KeysDetermined(es: seq<Entry>, keys: seq<Keyed<()>>)
    requires Ordered(es) && multiset(keys) == multiset(Keys(es)) && NonDecreasing(keys)
    ensures keys == Keys(es)
  {
    KeysIncreasing(es);
    IncreasingDistinct(Keys(es));
    SortDetermined(Keys(es), keys);
    SortFixed(Keys(es));
  }

  lemma {:induction false} LookupAt(es: seq<Entry>, i: nat)
    requires Ordered(es) && i < |es|
    ensures Lookup(es, es[i].key) == Some(es[i].val)
  {
    if i == 0 {
    } else {
      KeysIncreasing(es);
      KeysAt(es);
      IncreasingAbove(Keys(es), i);
      LessIrreflexive(es[0].key);
      LookupAt(es[1..], i - 1);
    }
  }

  // ---------- the object ----------

  class Encoder {
    var w: bytes

    constructor ()
      ensures w == []
    {
      w := [];
    }

    method Write(b: bytes)
      modifies this
      ensures w == old(w) + b
    {
      w := w + b;
    }

    /** encode */
    method Encode(v: Value) returns (ghost b: bytes)
      requires Mapped(v)
      modifies this
      ensures w == old(w) + b && Writes(v, b)
      decreases v
    {
      match v
      case VNil => b := [];
      case VInt(i) =>
        b := Enc(v);
        Write([CH_I] + FormatInt(i) + [CH_E]);
      case VBool(t) =>
        b := Enc(v);
        var i := 0;
        if t {
          i := 1;
        }
        Write([CH_I] + FormatInt(i) + [CH_E]);
      case VStr(s) =>
        b := Enc(v);
        WriteString(s);
      case VRaw(raw) =>
        b := raw;
        Write(raw);
      case VList(vs) => b := EncodeArrayOrSlice(vs);
      case VDict(es) => b := EncodeMap(es);
      case VStruct(fs) => b := EncodeStruct(fs);
    }

    method WriteString(s: bytes)
      modifies this
      ensures w == old(w) + EncStr(s)
    {
      Write(FormatInt(|s|) + [COLON] + s);
    }

    method EncodeArrayOrSlice(vs: seq<Value>) returns (ghost b: bytes)
      requires Mapped(VList(vs))
      modifies this
      ensures w == old(w) + b && Writes(VList(vs), b)
      decreases vs
    {
      hide Enc, Joined;
      Write([CH_L]);
      ghost var parts := [];
      JoinedNothing([CH_L]);
      for i := 0 to |vs|
        invariant |parts| == i && forall j | 0 <= j < i :: Writes(vs[j], parts[j])
        invariant w == old(w) + ([CH_L] + Joined(parts))
      {
        ghost var part := Encode(vs[i]);
        JoinedStep(old(w), [CH_L], parts, part);
        parts := parts + [part];
      }
      assert WritesItems(vs, parts);
      b := [CH_L] + Joined(parts) + [CH_E];
      JoinedEnd(old(w), [CH_L], parts);
      Write([CH_E]);
    }

    method EncodeMap(es: seq<Entry>) returns (ghost b: bytes)
      requires Mapped(VDict(es))
      modifies this
      ensures w == old(w) + b && Writes(VDict(es), b)
      decreases es
    {
      hide Enc, Joined, Ordered, Keys, NonDecreasing, Lookup, EncStr;
      Write([CH_D]);
      var keys := MapKeys(es);
      keys := SortByKey(keys);
      KeysDetermined(es, keys);
      KeysAt(es);
      ghost var parts := [];
      JoinedNothing([CH_D]);
      for i := 0 to |keys|
        invariant |parts| == i && forall j | 0 <= j < i :: WritesEntry(es[j], parts[j])
        invariant w == old(w) + ([CH_D] + Joined(parts))
      {
        LookupAt(es, i);
        assert MappedEntry(es[i]);
        var mval := Lookup(es, keys[i].key).value;
        ghost var part := [];
        if !mval.VNil? {
          ghost var before := w;
          WriteString(keys[i].key);
          ghost var b := Encode(mval);
          part := EncStr(keys[i].key) + b;
          Associative(before, EncStr(keys[i].key), b);
        }
        assert WritesEntry(es[i], part);
        JoinedStep(old(w), [CH_D], parts, part);
        parts := parts + [part];
      }
      assert WritesEntries(es, parts);
      b := [CH_D] + Joined(parts) + [CH_E];
      JoinedEnd(old(w), [CH_D], parts);
      Write([CH_E]);
    }

    method EncodeStruct(fs: seq<FieldVal>) returns (ghost b: bytes)
      requires Mapped(VStruct(fs))
      modifies this
      ensures w == old(w) + b && Writes(VStruct(fs), b)
      decreases fs
    {
      hide Enc, Joined, KeptFields, NonDecreasing, Kept, EncStr;
      Write([CH_D]);
      var dict := ReadStruct([], fs);
      assert [] + KeptFields(fs) == KeptFields(fs);
      dict := SortByKey(dict);
      ghost var parts := [];
      JoinedNothing([CH_D]);
      for i := 0 to |dict|
        invariant |parts| == i && forall j | 0 <= j < i :: WritesOne(fs, dict[j], parts[j])
        invariant w == old(w) + ([CH_D] + Joined(parts))
      {
        InMultiset(dict, KeptFields(fs), dict[i]);
        ghost var k := KeptFrom(fs, dict[i]);
        assert MappedField(fs[k]);
        ghost var before := w;
        WriteString(dict[i].key);
        assert dict[i].item == fs[k].val && (fs decreases to fs[k]) && (fs[k] decreases to fs[k].val);
        ghost var b := Encode(dict[i].item);
        ghost var part := EncStr(dict[i].key) + b;
        Associative(before, EncStr(dict[i].key), b);
        assert WritesField(fs[k], part);
        JoinedStep(old(w), [CH_D], parts, part);
        parts := parts + [part];
      }
      assert WritesFields(fs, dict, parts);
      b := [CH_D] + Joined(parts) + [CH_E];
      JoinedEnd(old(w), [CH_D], parts);
      Write([CH_E]);
    }
  }

  /** Marshal */
  method Marshal(v: Value) returns (b: bytes)
    requires Mapped(v)
    ensures Writes(v, b) && (Regular(v) ==> b == Enc(v))
  {
    var e := new Encoder();
    ghost var text := e.Encode(v);
    assert [] + text == text;
    b := e.w;
    if Regular(v) {
      WritesExactly(v, b);
    }
  }

  /** readStruct on a flat struct: the kept fields are appended in field order. */
  method ReadStruct(dict: seq<Keyed<Value>>, fs: seq<FieldVal>) returns (r: seq<Keyed<Value>>)
    ensures r == dict + KeptFields(fs)
  {
    r := dict;
    assert fs[0..] == fs;
    for i := 0 to |fs|
      invariant r + KeptFields(fs[i..]) == dict + KeptFields(fs)
    {
      var f := fs[i];
      assert fs[i..][0] == f && fs[i..][1..] == fs[i + 1..];
      if f.val.VNil? {
        continue;
      }
      if f.field.omit && IsEmpty(f.field.typ, f.val) {
        continue;
      }
      var x := Keyed(f.field.name, f.val);
      assert r + ([x] + KeptFields(fs[i + 1..])) == r + [x] + KeptFields(fs[i + 1..]);
      r := r + [x];
    }
    assert fs[|fs|..] == [];
    assert r + [] == r;
  }

  // ---------- the loops, one part at a time ----------

  lemma JoinedNothing(head: bytes)
    ensures head + Joined([]) == head
  {
  }

  lemma JoinedStep(w: bytes, head: bytes, parts: seq<bytes>, part: bytes)
    ensures w + (head + Joined(parts)) + part == w + (head + Joined(parts + [part]))
    ensures w + (head + Joined(parts)) + [] == w + (head + Joined(parts))
  {
    hide Joined;
    JoinedLast(parts, part);
  }

  lemma JoinedEnd(w: bytes, head: bytes, parts: seq<bytes>)
    ensures w + (head + Joined(parts)) + [CH_E] == w + (head + Joined(parts) + [CH_E])
  {
    hide Joined;
  }
}
