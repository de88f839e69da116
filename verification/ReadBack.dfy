/** Which of the texts that are written can be read back: the 32 bits of a length, and fields that share a name. */
module ReadBack {
  import opened Bytes
  import opened Numerals
  import opened Syntax
  import opened Values
  import opened Sorting
  import opened Decode
  import opened Interp
  import opened OnePass
  import opened Encode
  import opened RoundTrip

  // ---------- long strings ----------

  lemma LenFits(n: nat)
    requires n < HALF64
    ensures LenValid(FormatInt(n)) <==> n < MAX_LEN
  {
    if n < MAX_LEN {
      LenOfString(n);
    } else if LenValid(FormatInt(n)) {
      ParseIntWider(FormatInt(n), HALF32, HALF64);
      ParseIntFormatInt(n, HALF64);
    }
  }

  /** Fields of one name have one type, in every struct. */
  predicate Agreeing(t: Type)
    decreases t
  {
    match t
    case TPtr(e) => Agreeing(e)
    case TList(e) => Agreeing(e)
    case TArray(_, e) => Agreeing(e)
    case TMap(e) => Agreeing(e)
    case TStruct(fields) =>
      && (forall i, j | 0 <= i < j < |fields| :: fields[i].name == fields[j].name ==> fields[i].typ == fields[j].typ)
      && forall i | 0 <= i < |fields| :: AgreeingField(fields[i])
    case _ => true
  }

  predicate AgreeingField(field: Field)
    decreases field
  {
    Agreeing(field.typ)
  }

  /** A written value decodes, whatever the target holds, exactly when it has no string of 2^31 bytes or more. */
  lemma {:induction false} MeaningFits(t: Type, cur: Value, v: Value)
    requires HasType(t, cur) && HasType(t, v) && Agreeing(t) && Writable(v) && !v.VNil?
    ensures Meaning(t, cur, TreeOf(v)).Some? <==> Readable(v)
    decreases v, t, 1
  {
    match t
    case TRaw =>
    case TPtr(e) => MeaningFits(e, Pointee(t, cur), v);
    case TAny => GenericFits(cur, v);
    case TInt(_) => NumberBack(t, v);
    case TUint(_) => NumberBack(t, v);
    case TBool => NumberBack(t, v);
    case TStr => LenFits(|v.s|);
    case TBytes => LenFits(|v.s|);
    case TList(e) => ItemsFit(e, v.vs);
    case TArray(n, e) => ArrayFits(e, cur.vs, v.vs);
    case TMap(e) => EntriesFit(e, cur.es, [], v.es);
    case TStruct(fields) => StructFits(fields, cur.fs, v.fs);
  }

  lemma {:induction false} GenericFits(cur: Value, v: Value)
    requires HasType(TAny, cur) && HasType(TAny, v) && Writable(v) && !v.VNil?
    ensures Meaning(TAny, cur, TreeOf(v)).Some? <==> Readable(v)
    decreases v, TAny, 0
  {
    match v
    case VInt(i) => ParseIntFormatInt(i, HALF64);
    case VStr(s) => LenFits(|s|);
    case VList(vs) => ItemsFit(TAny, vs);
    case VDict(es) => EntriesFit(TAny, [], [], es);
  }

  lemma {:induction false} ItemsFit(t: Type, vs: seq<Value>)
    requires HasTypeItems(t, vs) && Agreeing(t) && FitsItems(vs, HALF64, false)
    ensures ItemsMeaning(t, ItemTrees(vs)).Some? <==> FitsItems(vs, MAX_LEN, false)
    decreases vs, t
  {
    hide Meaning, TreeOf, HasType, Fits, Zero, Agreeing;
    if vs == [] {
    } else if vs[0].VNil? {
      NilFits(vs[0]);
      ItemsFit(t, vs[1..]);
    } else {
      ItemsMeaningUnfold(t, TreeOf(vs[0]), ItemTrees(vs[1..]));
      MeaningFits(t, Zero(t), vs[0]);
      ItemsFit(t, vs[1..]);
    }
  }

  lemma NilFits(v: Value)
    requires v.VNil?
    ensures Readable(v)
  {
  }

  lemma {:induction false} ArrayFits(t: Type, cur: seq<Value>, vs: seq<Value>)
    requires HasTypeItems(t, cur) && HasTypeItems(t, vs) && Agreeing(t) && |vs| <= |cur| && FitsItems(vs, HALF64, false)
    ensures ArrayMeaning(t, cur, ItemTrees(vs)).Some? <==> FitsItems(vs, MAX_LEN, false)
    decreases vs, t
  {
    hide Meaning, TreeOf, HasType, Fits, Agreeing;
    if vs == [] {
    } else if vs[0].VNil? {
      NilFits(vs[0]);
      ArrayFits(t, cur, vs[1..]);
    } else {
      ArrayMeaningUnfold(t, cur, TreeOf(vs[0]), ItemTrees(vs[1..]));
      MeaningFits(t, cur[0], vs[0]);
      ArrayFits(t, cur[1..], vs[1..]);
    }
  }

  lemma {:induction false} EntriesFit(t: Type, acc: seq<Entry>, last: bytes, es: seq<Entry>)
    requires HasTypeEntries(t, acc) && Ordered(acc) && HasTypeEntries(t, es) && Agreeing(t)
    requires FitsEntries(es, HALF64, false)
    ensures PairsMeaning(t, acc, last, ToPairs(EntryTrees(es))).Some? <==> FitsEntries(es, MAX_LEN, false)
    decreases es, t
  {
    hide PairMeaning, PairsMeaning, TreeOf, HasType, FitsEntry, Ordered, ToPair, Agreeing;
    if es == [] {
      PairsMeaningUnfold(t, acc, last, Pair([], [], IntLit([])), []);
    } else if es[0].val.VNil? {
      assert EntryTrees(es) == EntryTrees(es[1..]);
      EntryFits(t, acc, es[0]);
      EntriesFit(t, acc, last, es[1..]);
    } else {
      var p := ToPair(Keyed(es[0].key, TreeOf(es[0].val)));
      EntryTreesFirst(es);
      PairsMeaningUnfold(t, acc, last, p, ToPairs(EntryTrees(es[1..])));
      EntryFits(t, acc, es[0]);
      if PairMeaning(t, acc, p).Some? {
        EntriesFit(t, PairMeaning(t, acc, p).value.val.es, p.key, es[1..]);
      }
    }
  }

  lemma {:induction false} EntryFits(t: Type, acc: seq<Entry>, e: Entry)
    requires HasTypeEntries(t, acc) && Ordered(acc) && HasType(t, e.val) && Agreeing(t) && FitsEntry(e, HALF64, false)
    ensures (e.val.VNil? || PairMeaning(t, acc, ToPair(Keyed(e.key, TreeOf(e.val)))).Some?) <==>
            FitsEntry(e, MAX_LEN, false)
    decreases e, t
  {
    hide Meaning, TreeOf, LenValid, Agreeing;
    if !e.val.VNil? {
      LenFits(|e.key|);
      MeaningFits(t, Zero(t), e.val);
    }
  }

  lemma {:induction false} StructFits(fields: seq<Field>, cur: seq<FieldVal>, fs: seq<FieldVal>)
    requires HasTypeFields(fields, cur) && HasTypeFields(fields, fs) && Agreeing(TStruct(fields))
    requires FitsFields(fs, HALF64, false)
    ensures FieldsMeaning(fields, cur, [], ToPairs(Sort(FieldTrees(fs)))).Some? <==> FitsFields(fs, MAX_LEN, false)
    decreases fs, 1
  {
    hide FieldsMeaning, MemberMeaning, TreeOf, HasTypeFields, FitsField, FitsFields, Sort, FieldTrees, ToPairs,
      FieldIndex, Kept, Agreeing, ToPair;
    var ps := ToPairs(Sort(FieldTrees(fs)));
    if FieldsMeaning(fields, cur, [], ps).Some? {
      forall i | 0 <= i < |fs| ensures FitsField(fs[i], MAX_LEN, false) {
        if Kept(fs[i]) {
          var p := SortedHas(fs, i);
          var gs := MemberRead(fields, cur, [], ps, p);
          FieldOf(fields, fs, i);
          FieldFits(fields, gs, i, fs[i], p);
        } else {
          LeftOutFits(fs[i]);
        }
      }
      FieldsFitAll(fs);
    } else if FitsFields(fs, MAX_LEN, false) {
      forall p, gs | p in ps && HasTypeFields(fields, gs) ensures MemberMeaning(fields, gs, p).Some? {
        var i := SortedFrom(fs, p);
        FieldOf(fields, fs, i);
        FieldsFitAll(fs);
        FieldFits(fields, gs, i, fs[i], p);
      }
      MembersRead(fields, cur, [], ps);
    }
  }

  lemma LeftOutFits(f: FieldVal)
    requires !Kept(f)
    ensures FitsField(f, MAX_LEN, false)
  {
  }

  lemma {:induction false} FieldOf(fields: seq<Field>, fs: seq<FieldVal>, i: nat)
    requires HasTypeFields(fields, fs) && FitsFields(fs, HALF64, false) && i < |fs|
    ensures |fs| == |fields| && HasTypeField(fields[i], fs[i]) && FitsField(fs[i], HALF64, false)
  {
    if i == 0 {
    } else {
      FieldOf(fields[1..], fs[1..], i - 1);
    }
    SameLength(fields, fs);
  }

  lemma {:induction false} FieldsFitAll(fs: seq<FieldVal>)
    ensures FitsFields(fs, MAX_LEN, false) <==> forall i | 0 <= i < |fs| :: FitsField(fs[i], MAX_LEN, false)
  {
    hide FitsField;
    if fs == [] {
    } else {
      FieldsFitAll(fs[1..]);
      assert forall i | 0 < i < |fs| :: fs[i] == fs[1..][i - 1];
      assert forall i | 0 <= i < |fs| - 1 :: fs[i + 1] == fs[1..][i];
    }
  }

  /** Each pair of a record that decodes has been read into some record of the same type. */
  lemma {:induction false} MemberRead(fields: seq<Field>, fs: seq<FieldVal>, last: bytes, ps: seq<Pair>, p: Pair)
      returns (gs: seq<FieldVal>)
    requires HasTypeFields(fields, fs) && FieldsMeaning(fields, fs, last, ps).Some? && p in ps
    ensures HasTypeFields(fields, gs) && MemberMeaning(fields, gs, p).Some?
    decreases |ps|
  {
    hide MemberMeaning, HasTypeFields;
    if ps[0] == p {
      gs := fs;
    } else {
      gs := MemberRead(fields, MemberMeaning(fields, fs, ps[0]).value.val.fs, ps[0].key, ps[1..], p);
    }
  }

  /** Pairs that can each be read into any record of the type decode. */
  lemma {:induction false} MembersRead(fields: seq<Field>, fs: seq<FieldVal>, last: bytes, ps: seq<Pair>)
    requires HasTypeFields(fields, fs)
    requires forall p, gs | p in ps && HasTypeFields(fields, gs) :: MemberMeaning(fields, gs, p).Some?
    ensures FieldsMeaning(fields, fs, last, ps).Some?
    decreases |ps|
  {
    hide MemberMeaning, HasTypeFields;
    if ps == [] {
    } else {
      assert ps[0] in ps;
      MembersRead(fields, MemberMeaning(fields, fs, ps[0]).value.val.fs, ps[0].key, ps[1..]);
    }
  }

  /** A pair is read into the last field of its name, which has the type of the one that was written. */
  lemma {:induction false} FieldFits(fields: seq<Field>, gs: seq<FieldVal>, i: nat, f: FieldVal, p: Pair)
    requires HasTypeFields(fields, gs) && i < |fields| && HasTypeField(fields[i], f) && FitsField(f, HALF64, false)
    requires Agreeing(TStruct(fields)) && Kept(f)
    requires p.key == f.field.name && p.len == FormatInt(|p.key|) && p.val == TreeOf(f.val)
    ensures MemberMeaning(fields, gs, p).Some? <==> FitsField(f, MAX_LEN, false)
    decreases f
  {
    hide Meaning, TreeOf, LenValid;
    SameLength(fields, gs);
    FieldTyped(fields, gs, i);
    LenFits(|p.key|);
    var j := FieldIndex(gs, p.key).value;
    FieldTyped(fields, gs, j);
    assert AgreeingField(fields[i]) && fields[j].typ == fields[i].typ;
    MeaningFits(fields[j].typ, gs[j].val, f.val);
  }

  /**
   * Strings of 2^31 bytes and more are written but not read: what was written decodes exactly when it has
   * none, in keys and at any depth. Names may repeat in a struct, if the fields of one name have one type.
   */
  lemma DecodesExactly(t: Type, v: Value, rest: bytes)
    requires HasType(t, v) && Agreeing(t) && Writable(v) && !v.VNil?
    ensures DecodeValue(t, Zero(t), Enc(v) + rest).Done? <==> Readable(v)
  {
    hide Fits, TreeOf, Meaning, Agreeing, HasType;
    ScanEnc(v, rest);
    DecodeViaTree(t, Zero(t), Enc(v) + rest);
    MeaningFits(t, Zero(t), v);
  }

  // ---------- fields that share a name ----------

  /** Whether a text has a meaning does not depend on what the target holds. */
  lemma {:induction false} AnyTarget(t: Type, a: Value, b: Value, tree: Tree)
    requires HasType(t, a) && HasType(t, b)
    ensures Meaning(t, a, tree).Some? <==> Meaning(t, b, tree).Some?
    decreases tree, 0, t
  {
    hide IntTo, StrTo, LenValid, ItemsMeaning, ArrayMeaning, PairsMeaning, FieldsMeaning, HasTypeItems, HasTypeEntries,
      HasTypeFields, Ordered;
    if t.TPtr? {
      AnyTarget(t.elem, Pointee(t, a), Pointee(t, b), tree);
    } else if t.TArray? && tree.ListLit? {
      AnyArray(t.elem, a.vs, b.vs, tree.items);
    } else if t.TMap? && tree.DictLit? {
      AnyMap(t.elem, a.es, b.es, [], [], tree.pairs);
    } else if t.TStruct? && tree.DictLit? {
      AnyRecord(t.fields, a.fs, b.fs, [], [], tree.pairs);
    }
  }

  lemma {:induction false} AnyArray(t: Type, a: seq<Value>, b: seq<Value>, trees: seq<Tree>)
    requires HasTypeItems(t, a) && HasTypeItems(t, b) && |a| == |b|
    ensures ArrayMeaning(t, a, trees).Some? <==> ArrayMeaning(t, b, trees).Some?
    decreases trees, 1
  {
    hide Meaning, ArrayMeaning, HasType, NonNegative;
    if trees == [] {
      ArrayNothing(t, a);
      ArrayNothing(t, b);
    } else if a != [] {
      assert trees == [trees[0]] + trees[1..];
      ArrayMeaningUnfold(t, a, trees[0], trees[1..]);
      ArrayMeaningUnfold(t, b, trees[0], trees[1..]);
      AnyTarget(t, a[0], b[0], trees[0]);
      AnyArray(t, a[1..], b[1..], trees[1..]);
    }
  }

  lemma ArrayNothing(t: Type, a: seq<Value>)
    requires HasTypeItems(t, a)
    ensures ArrayMeaning(t, a, []).Some?
  {
  }

  lemma {:induction false} AnyMap(t: Type, a: seq<Entry>, b: seq<Entry>, last: bytes, last': bytes, ps: seq<Pair>)
    requires HasTypeEntries(t, a) && Ordered(a) && HasTypeEntries(t, b) && Ordered(b)
    ensures PairsMeaning(t, a, last, ps).Some? <==> PairsMeaning(t, b, last', ps).Some?
    decreases ps, 1
  {
    hide Meaning, Put, LenValid, HasTypeEntries, Ordered, Less;
    if ps == [] {
    } else if PairMeaning(t, a, ps[0]).Some? {
      AnyMap(t, PairMeaning(t, a, ps[0]).value.val.es, PairMeaning(t, b, ps[0]).value.val.es, ps[0].key, ps[0].key,
             ps[1..]);
    }
  }

  lemma {:induction false} AnyRecord(fields: seq<Field>, a: seq<FieldVal>, b: seq<FieldVal>, last: bytes, last': bytes,
                                     ps: seq<Pair>)
    requires HasTypeFields(fields, a) && HasTypeFields(fields, b)
    ensures FieldsMeaning(fields, a, last, ps).Some? <==> FieldsMeaning(fields, b, last', ps).Some?
    decreases ps, 1
  {
    hide MemberMeaning, HasTypeFields, Less;
    if ps == [] {
    } else {
      AnyMember(fields, a, b, ps[0]);
      if MemberMeaning(fields, a, ps[0]).Some? {
        AnyRecord(fields, MemberMeaning(fields, a, ps[0]).value.val.fs, MemberMeaning(fields, b, ps[0]).value.val.fs,
                  ps[0].key, ps[0].key, ps[1..]);
      }
    }
  }

  lemma {:induction false} AnyMember(fields: seq<Field>, a: seq<FieldVal>, b: seq<FieldVal>, p: Pair)
    requires HasTypeFields(fields, a) && HasTypeFields(fields, b)
    ensures MemberMeaning(fields, a, p).Some? <==> MemberMeaning(fields, b, p).Some?
    decreases p
  {
    hide Meaning, LenValid, HasTypeFields, FieldIndex;
    SameIndexes(fields, a, b, p.key);
    if FieldIndex(a, p.key).Some? {
      var i := FieldIndex(a, p.key).value;
      SameLength(fields, a);
      SameLength(fields, b);
      FieldTyped(fields, a, i);
      FieldTyped(fields, b, i);
      AnyTarget(fields[i].typ, a[i].val, b[i].val, p.val);
    }
  }

  lemma SameIndexes(fields: seq<Field>, a: seq<FieldVal>, b: seq<FieldVal>, key: bytes)
    requires HasTypeFields(fields, a) && HasTypeFields(fields, b)
    ensures FieldIndex(a, key) == FieldIndex(b, key)
  {
    SameLength(fields, a);
    SameLength(fields, b);
    forall i | 0 <= i < |a| ensures a[i].field == b[i].field {
      FieldTyped(fields, a, i);
      FieldTyped(fields, b, i);
    }
    FieldIndexSame(a, b, key);
  }

  /** The type a key is read under: that of the last field of the name. */
  function TypeFor(fields: seq<Field>, key: bytes): Option<Type> {
    SameLength(fields, ZeroFields(fields));
    match FieldIndex(ZeroFields(fields), key)
    case None => None
    case Some(i) => Some(fields[i].typ)
  }

  /** A written field can be read back: its key is short enough, and its text decodes under the type for its key. */
  predicate ReadsBack(fields: seq<Field>, f: FieldVal) {
    && |f.field.name| < MAX_LEN && TypeFor(fields, f.field.name).Some?
    && var t := TypeFor(fields, f.field.name).value;
       DecodeValue(t, Zero(t), Enc(f.val)).Done?
  }

  /**
   * What is written for a record, whatever names and types its fields have, decodes exactly when each field
   * that is written reads back on its own, under the type of the last field of its name.
   */
  lemma RecordReadsBack(fields: seq<Field>, fs: seq<FieldVal>, rest: bytes)
    requires HasTypeFields(fields, fs) && Writable(VStruct(fs))
    ensures DecodeValue(TStruct(fields), Zero(TStruct(fields)), Enc(VStruct(fs)) + rest).Done? <==>
            forall i | 0 <= i < |fs| && Kept(fs[i]) :: ReadsBack(fields, fs[i])
  {
    hide Scan, FieldsMeaning, MemberMeaning, Sort, FieldTrees, ToPairs, FitsField, FitsFields, HasTypeFields, Kept,
      ReadsBack, Enc, DecodeValue, TreeOf, FieldIndex;
    var zs, ps := ZeroFields(fields), ToPairs(Sort(FieldTrees(fs)));
    RecordMeaning(fields, fs, rest);
    if FieldsMeaning(fields, zs, [], ps).Some? {
      forall i | 0 <= i < |fs| && Kept(fs[i]) ensures ReadsBack(fields, fs[i]) {
        var p := SortedHas(fs, i);
        var gs := MemberRead(fields, zs, [], ps, p);
        FieldOf(fields, fs, i);
        PairReadsBack(fields, gs, fs[i], p);
      }
    } else if forall i | 0 <= i < |fs| && Kept(fs[i]) :: ReadsBack(fields, fs[i]) {
      forall p, gs | p in ps && HasTypeFields(fields, gs) ensures MemberMeaning(fields, gs, p).Some? {
        var i := SortedFrom(fs, p);
        FieldOf(fields, fs, i);
        PairReadsBack(fields, gs, fs[i], p);
      }
      MembersRead(fields, zs, [], ps);
    }
  }

  lemma RecordMeaning(fields: seq<Field>, fs: seq<FieldVal>, rest: bytes)
    requires HasTypeFields(fields, fs) && Writable(VStruct(fs))
    ensures FitsFields(fs, HALF64, false)
    ensures DecodeValue(TStruct(fields), Zero(TStruct(fields)), Enc(VStruct(fs)) + rest).Done? <==>
            FieldsMeaning(fields, ZeroFields(fields), [], ToPairs(Sort(FieldTrees(fs)))).Some?
  {
    hide FieldsMeaning, Sort, FieldTrees, ToPairs, FitsFields, HasTypeFields;
    var t := TStruct(fields);
    ScanEnc(VStruct(fs), rest);
    DecodeViaTree(t, Zero(t), Enc(VStruct(fs)) + rest);
  }

  lemma PairReadsBack(fields: seq<Field>, gs: seq<FieldVal>, f: FieldVal, p: Pair)
    requires HasTypeFields(fields, gs) && Kept(f) && FitsField(f, HALF64, false) && f.field in fields
    requires p.key == f.field.name && p.len == FormatInt(|p.key|) && p.val == TreeOf(f.val)
    ensures MemberMeaning(fields, gs, p).Some? <==> ReadsBack(fields, f)
  {
    hide Meaning, TreeOf, Enc, LenValid, DecodeValue, FieldIndex, HasTypeFields, Fits;
    var zs := ZeroFields(fields);
    LenFits(|p.key|);
    SameIndexes(fields, gs, zs, p.key);
    SameLength(fields, zs);
    SameLength(fields, gs);
    var i :| 0 <= i < |fields| && fields[i] == f.field;
    FieldTyped(fields, zs, i);
    var j := FieldIndex(zs, p.key).value;
    FieldTyped(fields, gs, j);
    var t := fields[j].typ;
    AnyTarget(t, gs[j].val, Zero(t), p.val);
    ScanEnc(f.val, []);
    assert Enc(f.val) + [] == Enc(f.val);
    DecodeViaTree(t, Zero(t), Enc(f.val));
  }

  // ---------- examples ----------

  /** Two fields named `n`, a string and a number: the string is read as a number. */
  lemma TwoTypesExample(rest: bytes)
    ensures var fields := [Field([110], false, TStr), Field([110], false, TInt(W64))];
            var fs := [FieldVal(fields[0], VStr([97])), FieldVal(fields[1], VInt(1))];
            && HasType(TStruct(fields), VStruct(fs)) && Readable(VStruct(fs)) && Writable(VStruct(fs))
            && DecodeValue(TStruct(fields), Zero(TStruct(fields)), Enc(VStruct(fs)) + rest).Fail?
  {
    var fields := [Field([110], false, TStr), Field([110], false, TInt(W64))];
    var fs := [FieldVal(fields[0], VStr([97])), FieldVal(fields[1], VInt(1))];
    TwoTypesTyped(fields, fs);
    OtherTypeFails(fields, fs, rest);
  }

  lemma {:induction false} TwoTypesTyped(fields: seq<Field>, fs: seq<FieldVal>)
    requires |fields| == |fs| == 2 && fs[0].field == fields[0] && fs[1].field == fields[1]
    requires HasType(fields[0].typ, fs[0].val) && HasType(fields[1].typ, fs[1].val)
    requires FitsField(fs[0], MAX_LEN, false) && FitsField(fs[1], MAX_LEN, false)
    ensures HasType(TStruct(fields), VStruct(fs)) && Readable(VStruct(fs)) && Writable(VStruct(fs))
  {
    hide FitsField;
    assert fields[1..] == [fields[1]] && fields[1..][1..] == [] && fs[1..] == [fs[1]] && fs[1..][1..] == [];
    assert HasTypeField(fields[0], fs[0]) && HasTypeField(fields[1], fs[1]);
    assert HasTypeFields(fields[1..][1..], fs[1..][1..]);
    assert HasTypeFields(fields[1..], fs[1..]);
    assert FitsFields(fs[1..], MAX_LEN, false);
    FitsMore(VStruct(fs), MAX_LEN, HALF64, false);
  }

  lemma OtherTypeFails(fields: seq<Field>, fs: seq<FieldVal>, rest: bytes)
    requires |fields| == |fs| == 2 && HasType(TStruct(fields), VStruct(fs)) && Writable(VStruct(fs))
    requires Kept(fs[0]) && fs[0].val.VStr? && fs[0].field.name == fields[1].name && fields[1].typ.TInt?
    ensures DecodeValue(TStruct(fields), Zero(TStruct(fields)), Enc(VStruct(fs)) + rest).Fail?
  {
    hide Scan, FieldsMeaning, Sort, FieldTrees, ToPairs, Fits, HasTypeFields, Kept;
    var t, ps := TStruct(fields), ToPairs(Sort(FieldTrees(fs)));
    ScanEnc(VStruct(fs), rest);
    DecodeViaTree(t, Zero(t), Enc(VStruct(fs)) + rest);
    if FieldsMeaning(fields, ZeroFields(fields), [], ps).Some? {
      var p := SortedHas(fs, 0);
      var gs := MemberRead(fields, ZeroFields(fields), [], ps, p);
      SameLength(fields, gs);
      FieldTyped(fields, gs, 1);
    }
  }

  lemma LongStringExample(s: bytes, rest: bytes)
    requires |s| == MAX_LEN
    ensures Writable(VStr(s)) && DecodeValue(TStr, VStr([]), Enc(VStr(s)) + rest).Fail?
  {
    hide DecodeValue, Enc;
    DecodesExactly(TStr, VStr(s), rest);
  }
}
