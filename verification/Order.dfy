/** Encodings do not depend on the order in which Go enumerates a map or declares the fields of a struct. */
module Order {
  import opened Bytes
  import opened Values
  import opened Sorting
  import opened Encode

  lemma {:induction false} FieldChunksAppend(a: seq<FieldVal>, b: seq<FieldVal>)
    ensures FieldChunks(a + b) == FieldChunks(a) + FieldChunks(b)
  {
    if a == [] {
      assert a + b == b;
    } else {
      assert (a + b)[1..] == a[1..] + b;
      FieldChunksAppend(a[1..], b);
    }
  }

  lemma {:induction false} FieldChunksPermuted(fs: seq<FieldVal>, gs: seq<FieldVal>)
    requires multiset(fs) == multiset(gs)
    ensures multiset(FieldChunks(fs)) == multiset(FieldChunks(gs))
  {
    hide FieldChunk;
    if fs == [] {
      assert |multiset(gs)| == |gs|;
    } else {
      InMultiset(fs, gs, fs[0]);
      var j :| 0 <= j < |gs| && gs[j] == fs[0];
      var a, b := gs[..j], gs[j + 1..];
      TakeOut(fs, 0);
      TakeOut(gs, j);
      assert fs[..0] + fs[1..] == fs[1..];
      FieldChunksPermuted(fs[1..], a + b);
      FieldChunksAppend(a, b);
      FieldChunksAppend(a, [gs[j]] + b);
      assert ([gs[j]] + b)[1..] == b;
    }
  }

  lemma {:induction false} FieldChunksNames(fs: seq<FieldVal>, c: Keyed<bytes>) returns (i: nat)
    requires c in FieldChunks(fs)
    ensures i < |fs| && fs[i].field.name == c.key
  {
    if c in FieldChunk(fs[0]) {
      i := 0;
    } else {
      var j := FieldChunksNames(fs[1..], c);
      i := j + 1;
    }
  }

  lemma {:induction false} FieldChunksDistinct(fs: seq<FieldVal>)
    requires NamesDistinct(fs)
    ensures Distinct(FieldChunks(fs))
  {
    if fs == [] {
    } else {
      var rest := FieldChunks(fs[1..]);
      FieldChunksDistinct(fs[1..]);
      if Kept(fs[0]) {
        var c := Keyed(fs[0].field.name, Enc(fs[0].val));
        var cs := [c] + rest;
        assert FieldChunk(fs[0]) == [c];
        forall j | 0 < j < |cs| ensures cs[0].key != cs[j].key {
          assert cs[j] == rest[j - 1];
          var k := FieldChunksNames(fs[1..], cs[j]);
          assert fs[1..][k] == fs[k + 1];
        }
        assert forall i, j | 0 < i < j < |cs| :: cs[i] == rest[i - 1] && cs[j] == rest[j - 1];
      } else {
        assert FieldChunks(fs) == rest;
      }
    }
  }

  /** Reordering the fields of a struct does not change its encoding. */
  lemma FieldOrderIrrelevant(fs: seq<FieldVal>, gs: seq<FieldVal>)
    requires multiset(fs) == multiset(gs) && NamesDistinct(fs) && NamesDistinct(gs)
    ensures Enc(VStruct(fs)) == Enc(VStruct(gs))
  {
    FieldChunksPermuted(fs, gs);
    FieldChunksDistinct(gs);
    SortNonDecreasing(FieldChunks(fs));
    SortMultiset(FieldChunks(fs));
    SortDetermined(FieldChunks(gs), Sort(FieldChunks(fs)));
  }

  /** The entries of the map that holds the kept fields of a record. */
  function AsEntries(fs: seq<FieldVal>): seq<Entry> {
    if fs == [] then []
    else if Kept(fs[0]) then Put(AsEntries(fs[1..]), fs[0].field.name, fs[0].val)
    else AsEntries(fs[1..])
  }

  lemma {:induction false} AsEntriesOrdered(fs: seq<FieldVal>)
    ensures Ordered(AsEntries(fs))
  {
    if fs == [] {
    } else {
      AsEntriesOrdered(fs[1..]);
    }
  }

  lemma {:induction false} AsEntriesFrom(fs: seq<FieldVal>, e: Entry) returns (i: nat)
    requires e in AsEntries(fs)
    ensures i < |fs| && Kept(fs[i]) && e == Entry(fs[i].field.name, fs[i].val)
  {
    if Kept(fs[0]) {
      PutMembers(AsEntries(fs[1..]), fs[0].field.name, fs[0].val, e);
      if e == Entry(fs[0].field.name, fs[0].val) {
        return 0;
      }
    }
    var j := AsEntriesFrom(fs[1..], e);
    i := j + 1;
  }

  lemma {:induction false} PutMembers(es: seq<Entry>, k: bytes, v: Value, e: Entry)
    requires e in Put(es, k, v)
    ensures e == Entry(k, v) || e in es
  {
    if es != [] && es[0].key != k && !Less(k, es[0].key) {
      if e != es[0] {
        PutMembers(es[1..], k, v, e);
      }
    }
  }

  /** Inserting a new key into the entries inserts its chunk into the sorted chunks. */
  lemma {:induction false} PutIsInsert(es: seq<Entry>, k: bytes, v: Value)
    requires !v.VNil? && (forall e | e in es :: e.key != k && !e.val.VNil?)
    ensures EntryChunks(Put(es, k, v)) == Insert(Keyed(k, Enc(v)), EntryChunks(es))
  {
    var c := Keyed(k, Enc(v));
    assert EntryChunk(Entry(k, v)) == [c];
    if es == [] {
      assert [Entry(k, v)][1..] == [];
    } else {
      assert es[0] in es;
      assert EntryChunks(es) == [Keyed(es[0].key, Enc(es[0].val))] + EntryChunks(es[1..]);
      LessTotal(k, es[0].key);
      if Less(k, es[0].key) {
        LessAsymmetric(k, es[0].key);
        assert ([Entry(k, v)] + es)[1..] == es;
      } else {
        PutIsInsert(es[1..], k, v);
        assert ([es[0]] + Put(es[1..], k, v))[1..] == Put(es[1..], k, v);
        assert EntryChunks(es)[1..] == EntryChunks(es[1..]);
      }
    }
  }

  lemma {:induction false} StructChunks(fs: seq<FieldVal>)
    requires NamesDistinct(fs)
    ensures Sort(FieldChunks(fs)) == EntryChunks(AsEntries(fs))
  {
    if fs == [] {
    } else {
      StructChunks(fs[1..]);
      if Kept(fs[0]) {
        forall e | e in AsEntries(fs[1..]) ensures e.key != fs[0].field.name && !e.val.VNil? {
          var i := AsEntriesFrom(fs[1..], e);
          assert fs[1..][i] == fs[i + 1];
        }
        PutIsInsert(AsEntries(fs[1..]), fs[0].field.name, fs[0].val);
        assert FieldChunks(fs) == [Keyed(fs[0].field.name, Enc(fs[0].val))] + FieldChunks(fs[1..]);
        assert FieldChunks(fs)[1..] == FieldChunks(fs[1..]);
      } else {
        assert FieldChunks(fs) == FieldChunks(fs[1..]);
      }
    }
  }

  /** A struct is encoded as the map of its kept fields. */
  lemma StructAsMap(fs: seq<FieldVal>)
    requires NamesDistinct(fs)
    ensures Enc(VStruct(fs)) == Enc(VDict(AsEntries(fs))) && Ordered(AsEntries(fs))
  {
    StructChunks(fs);
    AsEntriesOrdered(fs);
  }
}
