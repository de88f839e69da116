/**
 * Structs with embedded structs: readStruct (bencode/encode.go) and wrapStruct2Map (bencode/docode.go)
 * both see one flat record, the fields of embedded structs in front of a struct's own.
 */
module Schema {
  import opened Bytes
  import opened Syntax
  import opened Values
  import opened Sorting
  import opened Decode
  import opened Encode
  import opened RoundTrip
  import opened DecoderObject
  import opened Texts

  /**
   * What a struct declares: a field of its own; one that is unexported or tagged away; an untagged embedded
   * struct, by value or behind a pointer; or such a pointer that is nil, with what a new struct would hold.
   */
  datatype Member = Own(f: FieldVal) | Hidden | Embedded(inner: seq<Member>) | NilEmbedded(empty: seq<Member>)

  function Flatten(ms: seq<Member>): seq<FieldVal>
    decreases ms, 1
  {
    FlattenInner(ms) + OwnFields(ms)
  }

  function FlattenInner(ms: seq<Member>): seq<FieldVal>
    decreases ms, 0
  {
    if ms == [] then [] else FlattenMember(ms[0]) + FlattenInner(ms[1..])
  }

  function FlattenMember(m: Member): seq<FieldVal>
    decreases m
  {
    if m.Embedded? then Flatten(m.inner) else []
  }

  function OwnFields(ms: seq<Member>): seq<FieldVal> {
    if ms == [] then [] else (if ms[0].Own? then [ms[0].f] else []) + OwnFields(ms[1..])
  }

  /** Decoding puts a new struct behind every nil pointer to an embedded struct. */
  function Allocated(ms: seq<Member>): (r: seq<Member>)
    ensures |r| == |ms|
    decreases ms
  {
    if ms == [] then [] else [AllocatedMember(ms[0])] + Allocated(ms[1..])
  }

  function AllocatedMember(m: Member): Member
    decreases m
  {
    match m
    case Embedded(inner) => Embedded(Allocated(inner))
    case NilEmbedded(empty) => Embedded(Allocated(empty))
    case _ => m
  }

  // ---------- one member at a time ----------

  lemma {:induction false} FlattenInnerUpTo(ms: seq<Member>, i: nat)
    requires i < |ms|
    ensures FlattenInner(ms[..i + 1]) == FlattenInner(ms[..i]) + FlattenMember(ms[i])
  {
    if i == 0 {
      assert ms[..1] == [ms[0]] && ms[..1][1..] == [] && ms[..0] == [];
    } else {
      FlattenInnerUpTo(ms[1..], i - 1);
      assert ms[..i + 1][1..] == ms[1..][..i] && ms[..i][1..] == ms[1..][..i - 1];
    }
  }

  lemma {:induction false} OwnFieldsUpTo(ms: seq<Member>, i: nat)
    requires i < |ms|
    ensures OwnFields(ms[..i + 1]) == if ms[i].Own? then OwnFields(ms[..i]) + [ms[i].f] else OwnFields(ms[..i])
  {
    if i == 0 {
      assert ms[..1] == [ms[0]] && ms[..1][1..] == [] && ms[..0] == [];
    } else {
      OwnFieldsUpTo(ms[1..], i - 1);
      assert ms[..i + 1][1..] == ms[1..][..i] && ms[..i][1..] == ms[1..][..i - 1];
    }
  }

  lemma {:induction false} AllocatedAt(ms: seq<Member>, i: nat)
    requires i < |ms|
    ensures Allocated(ms)[i] == AllocatedMember(ms[i])
  {
    if i == 0 {
    } else {
      AllocatedAt(ms[1..], i - 1);
    }
  }

  lemma {:induction false} OwnAllocated(ms: seq<Member>)
    ensures OwnFields(Allocated(ms)) == OwnFields(ms)
  {
    if ms == [] {
    } else {
      OwnAllocated(ms[1..]);
      assert Allocated(ms)[1..] == Allocated(ms[1..]);
    }
  }

  lemma {:induction false} KeptFieldsAppend(a: seq<FieldVal>, b: seq<FieldVal>)
    ensures KeptFields(a + b) == KeptFields(a) + KeptFields(b)
  {
    hide Kept;
    if a == [] {
      assert a + b == b;
    } else {
      assert (a + b)[0] == a[0] && (a + b)[1..] == a[1..] + b;
      KeptFieldsAppend(a[1..], b);
      var first := if Kept(a[0]) then [Keyed(a[0].field.name, a[0].val)] else [];
      Associative(first, KeptFields(a[1..]), KeptFields(b));
    }
  }

  // ---------- flat structs ----------

  /** A struct with nothing but fields of its own. */
  function Flat(fs: seq<FieldVal>): (ms: seq<Member>)
    ensures |ms| == |fs|
  {
    if fs == [] then [] else [Own(fs[0])] + Flat(fs[1..])
  }

  /**
   * It is its own flat record. So the methods below do on it what the flat loops of the two objects,
   * EncoderObject.ReadStruct and DecoderObject.WrapStruct, promise.
   */
  lemma {:induction false} FlatIsFlat(fs: seq<FieldVal>)
    ensures Flatten(Flat(fs)) == fs && Allocated(Flat(fs)) == Flat(fs)
  {
    FlatParts(fs);
  }

  lemma {:induction false} FlatParts(fs: seq<FieldVal>)
    ensures FlattenInner(Flat(fs)) == [] && OwnFields(Flat(fs)) == fs && Allocated(Flat(fs)) == Flat(fs)
  {
    if fs == [] {
    } else {
      FlatParts(fs[1..]);
      assert Flat(fs)[0] == Own(fs[0]) && Flat(fs)[1..] == Flat(fs[1..]);
    }
  }

  // ---------- encoding ----------

  /** readStruct: embedded structs first, then the own fields; of all these, the ones it keeps. */
  method ReadStruct(dict: seq<Keyed<Value>>, ms: seq<Member>) returns (r: seq<Keyed<Value>>)
    ensures r == dict + KeptFields(Flatten(ms))
    decreases ms
  {
    hide KeptFields, Kept, FlattenInner, OwnFields;
    r := dict;
    Nothing();
    assert ms[..0] == [] && dict + [] == dict;
    for i := 0 to |ms|
      invariant r == dict + KeptFields(FlattenInner(ms[..i]))
    {
      FlattenInnerUpTo(ms, i);
      KeptFieldsAppend(FlattenInner(ms[..i]), FlattenMember(ms[i]));
      if ms[i].Embedded? {
        assert (ms decreases to ms[i]) && (ms[i] decreases to ms[i].inner);
        r := ReadStruct(r, ms[i].inner);
      } else {
        assert FlattenInner(ms[..i]) + [] == FlattenInner(ms[..i]);
      }
    }
    assert ms[..|ms|] == ms;
    ghost var inner := KeptFields(FlattenInner(ms));
    for i := 0 to |ms|
      invariant r == dict + inner + KeptFields(OwnFields(ms[..i]))
    {
      OwnFieldsUpTo(ms, i);
      if ms[i].Own? {
        var f := ms[i].f;
        KeptLast(OwnFields(ms[..i]), f);
        if !f.val.VNil? && !(f.field.omit && IsEmpty(f.field.typ, f.val)) {
          r := r + [Keyed(f.field.name, f.val)];
        }
      }
    }
    KeptFieldsAppend(FlattenInner(ms), OwnFields(ms));
  }

  lemma Nothing()
    ensures KeptFields([]) == [] && FlattenInner([]) == [] && OwnFields([]) == []
  {
  }

  lemma KeptLast(fs: seq<FieldVal>, f: FieldVal)
    ensures KeptFields(fs + [f]) ==
            if !f.val.VNil? && !(f.field.omit && IsEmpty(f.field.typ, f.val))
            then KeptFields(fs) + [Keyed(f.field.name, f.val)] else KeptFields(fs)
  {
    KeptFieldsAppend(fs, [f]);
    assert [f][1..] == [];
  }

  // ---------- decoding ----------

  /** The embedded struct behind a member, if there is one. */
  function Inside(m: Member): seq<Member>
    requires m.Embedded? || m.NilEmbedded?
  {
    if m.Embedded? then m.inner else m.empty
  }

  /** What an embedded struct adds to the flat record. */
  function Adds(m: Member): seq<FieldVal> {
    if m.Embedded? || m.NilEmbedded? then Flatten(Allocated(Inside(m))) else []
  }

  lemma AllocatedAdds(m: Member)
    ensures FlattenMember(AllocatedMember(m)) == Adds(m)
  {
    hide Flatten, Allocated;
  }

  lemma FlattenAllocated(ms: seq<Member>, i: nat, front: seq<FieldVal>)
    requires i < |ms|
    ensures var all := Allocated(ms);
            front + FlattenInner(all[..i + 1]) == front + FlattenInner(all[..i]) + Adds(ms[i])
    ensures Allocated(ms)[i] == AllocatedMember(ms[i])
  {
    hide FlattenInner, Allocated, Adds, FlattenMember, AllocatedMember;
    FlattenInnerUpTo(Allocated(ms), i);
    AllocatedAt(ms, i);
    AllocatedAdds(ms[i]);
    var a := FlattenInner(Allocated(ms)[..i]);
    assert front + (a + Adds(ms[i])) == front + a + Adds(ms[i]);
  }

  /**
   * wrapStruct2Map: the map leads from each name to its place in the flat record, behind the `base` places
   * that are in it already; nil pointers to embedded structs are filled in.
   */
  method WrapStruct2Map(ms: seq<Member>, m: map<bytes, nat>, base: nat, ghost front: seq<FieldVal>)
      returns (m': map<bytes, nat>, ms': seq<Member>, next: nat)
    requires |front| == base && Indexes(m, front)
    ensures ms' == Allocated(ms) && next == base + |Flatten(Allocated(ms))|
    ensures Indexes(m', front + Flatten(Allocated(ms)))
    decreases ms, 1
  {
    hide Indexes, FieldIndex, OwnFields, FlattenInner, Allocated;
    m', ms', next := WrapEmbedded(ms, m, base, front);
    ghost var inner := FlattenInner(Allocated(ms));
    m', next := WrapOwn(ms, m', next, front + inner);
    OwnAllocated(ms);
    assert front + inner + OwnFields(ms) == front + (inner + OwnFields(ms));
  }

  /** Its first loop. */
  method WrapEmbedded(ms: seq<Member>, m: map<bytes, nat>, base: nat, ghost front: seq<FieldVal>)
      returns (m': map<bytes, nat>, ms': seq<Member>, next: nat)
    requires |front| == base && Indexes(m, front)
    ensures ms' == Allocated(ms) && next == base + |FlattenInner(Allocated(ms))|
    ensures Indexes(m', front + FlattenInner(Allocated(ms)))
    decreases ms, 0
  {
    hide *;
    m', ms', next := m, [], base;
    ghost var all := Allocated(ms);
    NothingAdded(all, front);
    for i := 0 to |ms|
      invariant ms' == all[..i]
      invariant next == |front + FlattenInner(all[..i])| && Indexes(m', front + FlattenInner(all[..i]))
    {
      FlattenAllocated(ms, i, front);
      assert ms decreases to ms[i];
      var filled;
      m', filled, next := WrapMember(ms[i], m', next, front + FlattenInner(all[..i]));
      assert all[..i] + [all[i]] == all[..i + 1];
      ms' := ms' + [filled];
    }
    assert all[..|ms|] == all;
  }

  lemma NothingAdded(ms: seq<Member>, front: seq<FieldVal>)
    ensures front + FlattenInner(ms[..0]) == front
  {
  }

  /** One round of it. */
  method WrapMember(member: Member, m: map<bytes, nat>, base: nat, ghost front: seq<FieldVal>)
      returns (m': map<bytes, nat>, filled: Member, next: nat)
    requires |front| == base && Indexes(m, front)
    ensures filled == AllocatedMember(member)
    ensures next == |front + Adds(member)| && Indexes(m', front + Adds(member))
    decreases member
  {
    hide Indexes, FieldIndex, Flatten, Allocated;
    m', filled, next := m, member, base;
    if member.Embedded? || member.NilEmbedded? {
      var inner;
      m', inner, next := WrapStruct2Map(Inside(member), m', next, front);
      filled := Embedded(inner);
    } else {
      assert front + [] == front;
    }
  }

  /** Its second loop. */
  method WrapOwn(ms: seq<Member>, m: map<bytes, nat>, base: nat, ghost front: seq<FieldVal>)
      returns (m': map<bytes, nat>, next: nat)
    requires |front| == base && Indexes(m, front)
    ensures Indexes(m', front + OwnFields(ms)) && next == base + |OwnFields(ms)|
  {
    hide Indexes, FieldIndex;
    m', next := m, base;
    assert front + OwnFields(ms[..0]) == front;
    for i := 0 to |ms|
      invariant next == |front + OwnFields(ms[..i])| && Indexes(m', front + OwnFields(ms[..i]))
    {
      OwnFieldsUpTo(ms, i);
      if ms[i].Own? {
        IndexNext(m', front + OwnFields(ms[..i]), ms[i].f);
        m' := m'[ms[i].f.field.name := next];
        next := next + 1;
        assert front + OwnFields(ms[..i]) + [ms[i].f] == front + OwnFields(ms[..i + 1]);
      }
    }
    assert ms[..|ms|] == ms;
  }

  lemma IndexNext(m: map<bytes, nat>, fs: seq<FieldVal>, f: FieldVal)
    requires Indexes(m, fs)
    ensures Indexes(m[f.field.name := |fs|], fs + [f])
  {
    assert (fs + [f])[..|fs|] == fs;
  }

  // ---------- both directions ----------

  /** What decoding puts behind the nil pointers of `ms` is zero, as in a new struct. */
  predicate NilsZero(ms: seq<Member>)
    decreases ms
  {
    ms == [] || (NilZero(ms[0]) && NilsZero(ms[1..]))
  }

  predicate NilZero(m: Member)
    decreases m
  {
    match m
    case Embedded(inner) => NilsZero(inner)
    case NilEmbedded(empty) => AllZero(Flatten(Allocated(empty)))
    case _ => true
  }

  predicate AllZero(fs: seq<FieldVal>) {
    forall f | f in fs :: f.val == Zero(f.field.typ)
  }

  /** `ws` is a part of `fs`, and what it leaves out is zero. */
  predicate Part(ws: seq<FieldVal>, fs: seq<FieldVal>) {
    multiset(ws) <= multiset(fs) && forall f | f in fs :: f in ws || f.val == Zero(f.field.typ)
  }

  lemma PartAppend(a: seq<FieldVal>, fs: seq<FieldVal>, b: seq<FieldVal>, gs: seq<FieldVal>)
    requires Part(a, fs) && Part(b, gs)
    ensures Part(a + b, fs + gs)
  {
    assert multiset(a + b) == multiset(a) + multiset(b);
    assert multiset(fs + gs) == multiset(fs) + multiset(gs);
  }

  lemma PartWhole(fs: seq<FieldVal>)
    ensures Part(fs, fs)
    ensures AllZero(fs) ==> Part([], fs)
  {
  }

  /** What is written of a struct is a part of what is read. */
  lemma {:induction false} WrittenPart(ms: seq<Member>)
    requires NilsZero(ms)
    ensures Part(Flatten(ms), Flatten(Allocated(ms)))
    decreases ms, 1
  {
    hide Part;
    WrittenInner(ms);
    OwnAllocated(ms);
    PartWhole(OwnFields(ms));
    PartAppend(FlattenInner(ms), FlattenInner(Allocated(ms)), OwnFields(ms), OwnFields(ms));
  }

  lemma {:induction false} WrittenInner(ms: seq<Member>)
    requires NilsZero(ms)
    ensures Part(FlattenInner(ms), FlattenInner(Allocated(ms)))
    decreases ms, 0
  {
    hide Part, FlattenMember, AllocatedMember, NilZero;
    if ms == [] {
      PartWhole([]);
    } else {
      WrittenMember(ms[0]);
      WrittenInner(ms[1..]);
      assert Allocated(ms)[1..] == Allocated(ms[1..]);
      PartAppend(FlattenMember(ms[0]), FlattenMember(AllocatedMember(ms[0])),
                 FlattenInner(ms[1..]), FlattenInner(Allocated(ms[1..])));
    }
  }

  lemma {:induction false} WrittenMember(m: Member)
    requires NilZero(m)
    ensures Part(FlattenMember(m), FlattenMember(AllocatedMember(m)))
    decreases m
  {
    hide Part, Flatten, Allocated;
    match m
    case Embedded(inner) => WrittenPart(inner);
    case NilEmbedded(empty) => PartWhole(Flatten(Allocated(empty)));
    case _ => PartWhole([]);
  }

  lemma TwiceIn(ws: seq<FieldVal>, i: nat, j: nat)
    requires i < j < |ws| && ws[i] == ws[j]
    ensures multiset(ws)[ws[i]] >= 2
  {
    assert ws == ws[..j] + ws[j..];
    assert ws[..j][i] == ws[i] && ws[j..][0] == ws[i];
  }

  lemma OnceIn(fs: seq<FieldVal>, k: nat)
    requires NamesDistinct(fs) && k < |fs|
    ensures multiset(fs)[fs[k]] == 1
  {
    assert fs == fs[..k] + [fs[k]] + fs[k + 1..];
    assert fs[k] !in fs[..k] && fs[k] !in fs[k + 1..];
  }

  lemma PartNames(ws: seq<FieldVal>, fs: seq<FieldVal>)
    requires Part(ws, fs) && NamesDistinct(fs)
    ensures NamesDistinct(ws)
  {
    forall i, j | 0 <= i < j < |ws| ensures ws[i].field.name != ws[j].field.name {
      var k := PlaceOf(ws, fs, i);
      var l := PlaceOf(ws, fs, j);
      OnceIn(fs, k);
      if k == l {
        TwiceIn(ws, i, j);
      }
    }
  }

  lemma PlaceOf(ws: seq<FieldVal>, fs: seq<FieldVal>, i: nat) returns (k: nat)
    requires Part(ws, fs) && i < |ws|
    ensures k < |fs| && fs[k] == ws[i]
  {
    assert ws[i] in multiset(ws);
    assert ws[i] in multiset(fs);
    k :| 0 <= k < |fs| && fs[k] == ws[i];
  }

  /** The pairs that are written for a part carry the whole. */
  lemma PartCarries(fields: seq<Field>, fs: seq<FieldVal>, ws: seq<FieldVal>)
    requires HasTypeFields(fields, fs) && Part(ws, fs) && NamesDistinct(fs) && EncodableFields(ws)
    ensures var ps := ToPairs(Sort(FieldTrees(ws)));
            Carries(fs, ps) && Ascending([], ps) && forall p | p in ps :: FieldIndex(fs, p.key).Some?
  {
    hide Sort, FieldTrees, EncodableFields, ToPairs, Part, FieldCarried, LenValid, HasTypeFields;
    var ps := ToPairs(Sort(FieldTrees(ws)));
    PartNames(ws, fs);
    SortedShape(ws);
    forall p | p in ps ensures FieldIndex(fs, p.key).Some? && LenValid(p.len) {
      SortedKnown(ws, p);
      var k := PlaceOf(ws, fs, FieldIndex(ws, p.key).value);
    }
    forall i | 0 <= i < |fs| ensures FieldCarried(fs[i], ps) {
      PartCarried(fields, fs, ws, i);
    }
  }

  lemma PartCarried(fields: seq<Field>, fs: seq<FieldVal>, ws: seq<FieldVal>, i: nat)
    requires HasTypeFields(fields, fs) && Part(ws, fs) && NamesDistinct(fs) && EncodableFields(ws) && NamesDistinct(ws)
    requires i < |fs|
    ensures FieldCarried(fs[i], ToPairs(Sort(FieldTrees(ws))))
  {
    hide Sort, FieldTrees, EncodableFields, ToPairs, PairAt, TreeOf, Kept, HasTypeFields;
    var ps := ToPairs(Sort(FieldTrees(ws)));
    NormFieldAt(fields, fs, i);
    if fs[i] in ws {
      var j :| 0 <= j < |ws| && ws[j] == fs[i];
      EncodableAt(ws, j);
      SortedPairAt(ws, j);
      if !Kept(fs[i]) {
        LeftOutIsZero(fields[i], fs[i]);
      }
    } else {
      forall p | p in ps ensures p.key != fs[i].field.name {
        var k := SortedFrom(ws, p);
        var l := PlaceOf(ws, fs, k);
        assert l != i;
      }
      PairAtAbsent(ps, fs[i].field.name);
    }
  }

  /** The text of a sorted struct. */
  lemma StructText(ws: seq<FieldVal>, dict: seq<Keyed<Value>>)
    requires EncodableFields(ws) && NamesDistinct(ws)
    requires multiset(dict) == multiset(KeptFields(ws)) && NonDecreasing(dict)
    ensures var ps := ToPairs(Sort(FieldTrees(ws)));
            [CH_D] + EncChunks(Chunks(dict)) == Show(DictLit(ps)) && LexicalPairs(ps, true)
  {
    hide Sort, FieldTrees, EncodableFields, ToPairs, Chunks, KeptFields, NonDecreasing, EncChunks, Show, LexicalPairs,
      NamesDistinct;
    StructDetermined(ws, dict);
    StructTree(ws);
    EncodableWritable(VStruct(ws));
    EncIsShow(VStruct(ws));
    LexicalDict(ToPairs(Sort(FieldTrees(ws))));
  }

  lemma StructTree(ws: seq<FieldVal>)
    requires EncodableFields(ws) && NamesDistinct(ws)
    ensures Encodable(VStruct(ws)) && TreeOf(VStruct(ws)) == DictLit(ToPairs(Sort(FieldTrees(ws))))
    ensures Enc(VStruct(ws)) == [CH_D] + EncChunks(Sort(FieldChunks(ws)))
  {
  }

  lemma LexicalDict(ps: seq<Pair>)
    ensures Lexical(DictLit(ps), true) <==> LexicalPairs(ps, true)
  {
  }

  /**
   * A struct with embedded ones, written from whatever order sorting leaves its fields in and read into a
   * zero struct of the same shape, comes back. Where the struct that was written had a nil pointer to an
   * embedded struct, the one that is read has a zero struct behind it.
   */
  lemma EmbeddedRoundTrip(ms: seq<Member>, zs: seq<Member>, fields: seq<Field>, dict: seq<Keyed<Value>>, rest: bytes)
    requires Flatten(Allocated(zs)) == ZeroFields(fields) && NilsZero(ms)
    requires HasTypeFields(fields, Flatten(Allocated(ms))) && NamesDistinct(Flatten(Allocated(ms)))
    requires EncodableFields(Flatten(ms))
    requires multiset(dict) == multiset(KeptFields(Flatten(ms))) && NonDecreasing(dict)
    ensures DecodeValue(TStruct(fields), VStruct(Flatten(Allocated(zs))), [CH_D] + EncChunks(Chunks(dict)) + rest) ==
            Done(Out(VStruct(NormFields(fields, Flatten(Allocated(ms)))), true, true), 1 + |EncChunks(Chunks(dict))|)
  {
    hide Flatten, Allocated, Chunks, KeptFields, NonDecreasing, DecodeValue, Part, Carries, Ascending, Sort,
      FieldTrees, ToPairs, HasTypeFields, NormFields, NilsZero, LexicalPairs, Show, EncodableFields, FieldIndex,
      NamesDistinct;
    var fs, ws := Flatten(Allocated(ms)), Flatten(ms);
    WrittenPart(ms);
    PartNames(ws, fs);
    PartCarries(fields, fs, ws);
    StructText(ws, dict);
    DecodeRecordAmongOthers(fields, fs, ToPairs(Sort(FieldTrees(ws))), rest);
  }
}
