/** Decoding what was encoded: every type, every encodable value, whatever bytes follow. */
module RoundTrip {
  import opened Bytes
  import opened Numerals
  import opened Syntax
  import opened Values
  import opened Sorting
  import opened Decode
  import opened Interp
  import opened OnePass
  import opened Encode

  // ---------- what comes back ----------

  /**
   * Nil list elements and map entries are not written, array elements behind them move up, left-out fields
   * are zero.
   */
  function Norm(t: Type, v: Value): (r: Value)
    requires HasType(t, v)
    decreases v, t
  {
    match t
    case TAny =>
      (match v
       case VList(vs) => VList(NormItems(TAny, vs))
       case VDict(es) => VDict(NormEntries(TAny, es))
       case _ => v)
    case TPtr(e) => if v.VNil? then VNil else Norm(e, v)
    case TList(e) => VList(NormItems(e, v.vs))
    case TArray(n, e) => VList(NormArray(e, v.vs, n))
    case TMap(e) => VDict(NormEntries(e, v.es))
    case TStruct(fields) => VStruct(NormFields(fields, v.fs))
    case _ => v
  }

  function NormItems(t: Type, vs: seq<Value>): seq<Value>
    requires HasTypeItems(t, vs)
    decreases vs, t
  {
    if vs == [] then []
    else if vs[0].VNil? then NormItems(t, vs[1..])
    else [Norm(t, vs[0])] + NormItems(t, vs[1..])
  }

  function NormArray(t: Type, vs: seq<Value>, n: nat): seq<Value>
    requires HasTypeItems(t, vs) && |vs| <= n
    decreases vs, t
  {
    if vs == [] then Repeat(t, Zero(t), n)
    else if vs[0].VNil? then NormArray(t, vs[1..], n)
    else [Norm(t, vs[0])] + NormArray(t, vs[1..], n - 1)
  }

  function NormEntries(t: Type, es: seq<Entry>): seq<Entry>
    requires HasTypeEntries(t, es)
    decreases es, t
  {
    if es == [] then []
    else if es[0].val.VNil? then NormEntries(t, es[1..])
    else [Entry(es[0].key, Norm(t, es[0].val))] + NormEntries(t, es[1..])
  }

  function NormFields(fields: seq<Field>, fs: seq<FieldVal>): (r: seq<FieldVal>)
    requires HasTypeFields(fields, fs)
    ensures |r| == |fs| == |fields|
    decreases fs
  {
    if fields == [] then [] else [NormField(fields[0], fs[0])] + NormFields(fields[1..], fs[1..])
  }

  function NormField(field: Field, f: FieldVal): FieldVal
    requires HasTypeField(field, f)
    decreases f
  {
    FieldVal(field, if Kept(f) then Norm(field.typ, f.val) else Zero(field.typ))
  }

  /** No nil among list elements and map entries; fields may be nil. */
  predicate NilFree(v: Value)
    decreases v
  {
    match v
    case VList(vs) => NilFreeItems(vs)
    case VDict(es) => NilFreeEntries(es)
    case VStruct(fs) => NilFreeFields(fs)
    case _ => true
  }

  predicate NilFreeItems(vs: seq<Value>)
    decreases vs
  {
    vs == [] || (!vs[0].VNil? && NilFree(vs[0]) && NilFreeItems(vs[1..]))
  }

  predicate NilFreeEntry(e: Entry)
    decreases e
  {
    !e.val.VNil? && NilFree(e.val)
  }

  predicate NilFreeEntries(es: seq<Entry>)
    decreases es
  {
    es == [] || (NilFreeEntry(es[0]) && NilFreeEntries(es[1..]))
  }

  predicate NilFreeField(f: FieldVal)
    decreases f
  {
    NilFree(f.val)
  }

  predicate NilFreeFields(fs: seq<FieldVal>)
    decreases fs
  {
    fs == [] || (NilFreeField(fs[0]) && NilFreeFields(fs[1..]))
  }

  /** A field that is left out holds the zero value of its type. */
  lemma LeftOutIsZero(field: Field, f: FieldVal)
    requires HasTypeField(field, f) && !Kept(f)
    ensures f.val == Zero(field.typ)
  {
  }

  lemma {:induction false} NormNilFree(t: Type, v: Value)
    requires HasType(t, v) && NilFree(v)
    ensures Norm(t, v) == v
    decreases v, t
  {
    match t
    case TAny =>
      if v.VList? {
        NormItemsNilFree(TAny, v.vs);
      } else if v.VDict? {
        NormEntriesNilFree(TAny, v.es);
      }
    case TPtr(e) =>
      if !v.VNil? {
        NormNilFree(e, v);
      }
    case TList(e) => NormItemsNilFree(e, v.vs);
    case TArray(n, e) => NormArrayNilFree(e, v.vs);
    case TMap(e) => NormEntriesNilFree(e, v.es);
    case TStruct(fields) => NormFieldsNilFree(fields, v.fs);
    case _ =>
  }

  /** A zero value is its own normal form, nil elements in arrays included. */
  lemma {:induction false} NormZero(t: Type)
    ensures Norm(t, Zero(t)) == Zero(t)
    decreases t
  {
    match t
    case TArray(n, e) =>
      NormZero(e);
      NormRepeat(e, n, n);
    case TStruct(fields) => NormZeroFields(fields);
    case _ =>
  }

  lemma {:induction false} NormRepeat(t: Type, k: nat, n: nat)
    requires Norm(t, Zero(t)) == Zero(t) && k <= n
    ensures NormArray(t, Repeat(t, Zero(t), k), n) == Repeat(t, Zero(t), n)
  {
    if k == 0 {
    } else {
      RepeatFirst(t, Zero(t), k);
      if Zero(t).VNil? {
        NormRepeat(t, k - 1, n);
      } else {
        NormRepeat(t, k - 1, n - 1);
      }
    }
  }

  lemma {:induction false} NormZeroFields(fields: seq<Field>)
    ensures NormFields(fields, ZeroFields(fields)) == ZeroFields(fields)
    decreases fields
  {
    if fields == [] {
    } else {
      NormZero(fields[0].typ);
      NormZeroFields(fields[1..]);
      assert ZeroFields(fields)[1..] == ZeroFields(fields[1..]);
    }
  }

  lemma {:induction false} NormItemsNilFree(t: Type, vs: seq<Value>)
    requires HasTypeItems(t, vs) && NilFreeItems(vs)
    ensures NormItems(t, vs) == vs
    decreases vs, t
  {
    if vs == [] {
    } else {
      NormNilFree(t, vs[0]);
      NormItemsNilFree(t, vs[1..]);
    }
  }

  lemma {:induction false} NormArrayNilFree(t: Type, vs: seq<Value>)
    requires HasTypeItems(t, vs) && NilFreeItems(vs)
    ensures NormArray(t, vs, |vs|) == vs
    decreases vs, t
  {
    if vs == [] {
    } else {
      NormNilFree(t, vs[0]);
      NormArrayNilFree(t, vs[1..]);
    }
  }

  lemma {:induction false} NormEntriesNilFree(t: Type, es: seq<Entry>)
    requires HasTypeEntries(t, es) && NilFreeEntries(es)
    ensures NormEntries(t, es) == es
    decreases es, t
  {
    if es == [] {
    } else {
      assert NilFreeEntry(es[0]);
      NormNilFree(t, es[0].val);
      NormEntriesNilFree(t, es[1..]);
    }
  }

  lemma {:induction false} NormFieldsNilFree(fields: seq<Field>, fs: seq<FieldVal>)
    requires HasTypeFields(fields, fs) && NilFreeFields(fs)
    ensures NormFields(fields, fs) == fs
    decreases fs
  {
    if fields == [] {
    } else {
      NormFieldNilFree(fields[0], fs[0]);
      NormFieldsNilFree(fields[1..], fs[1..]);
    }
  }

  lemma {:induction false} NormFieldNilFree(field: Field, f: FieldVal)
    requires HasTypeField(field, f) && NilFreeField(f)
    ensures NormField(field, f) == f
    decreases f
  {
    if Kept(f) {
      NormNilFree(field.typ, f.val);
    } else {
      LeftOutIsZero(field, f);
    }
  }

  // ---------- the meaning of the tree behind an encoding ----------

  lemma {:induction false} MeaningOfTree(t: Type, v: Value)
    requires HasType(t, v) && Encodable(v) && !v.VNil?
    ensures Meaning(t, Zero(t), TreeOf(v)) == Some(Out(Norm(t, v), true, true))
    decreases v, t, 1
  {
    match t
    case TRaw =>
      EncodableWritable(v);
      EncIsShow(v);
    case TPtr(e) => MeaningOfTree(e, v);
    case TAny =>
      MeaningOfGeneric(v);
    case TInt(_) => MeaningOfLeaf(t, v);
    case TUint(_) => MeaningOfLeaf(t, v);
    case TBool => MeaningOfLeaf(t, v);
    case TStr => MeaningOfLeaf(t, v);
    case TBytes => MeaningOfLeaf(t, v);
    case TList(e) => MeaningOfItems(e, v.vs);
    case TArray(n, e) => MeaningOfArray(e, n, v.vs);
    case TMap(e) => MeaningOfMap(e, v.es);
    case TStruct(fields) =>
      MeaningOfFields(fields, v.fs);
      MeaningOfStruct(fields, v.fs);
  }

  /** A number of any width is printed and read back. */
  lemma NumberBack(t: Type, v: Value)
    requires (t.TInt? || t.TUint? || t.TBool?) && HasType(t, v)
    ensures IntTo(t, FormatInt(if v.VBool? then (if v.b then 1 else 0) else v.i)) == Some(v)
  {
    hide ParseInt, ParseUint, Digits, WrapSigned, WrapUnsigned, SameLowBits;
    match t
    case TInt(w) => ParseIntFormatInt(v.i, HALF64);
    case TUint(w) => ParseUintDigits(v.i, 2 * HALF64 - 1);
    case TBool => ParseUintDigits(if v.b then 1 else 0, 2 * HALF64 - 1);
  }

  lemma MeaningOfLeaf(t: Type, v: Value)
    requires t.TInt? || t.TUint? || t.TBool? || t.TStr? || t.TBytes?
    requires HasType(t, v) && Encodable(v)
    ensures Meaning(t, Zero(t), TreeOf(v)) == Some(Out(v, true, true))
  {
    hide IntTo, LenValid, FormatInt;
    if t.TStr? || t.TBytes? {
      LenOfString(|v.s|);
    } else {
      NumberBack(t, v);
    }
  }

  lemma {:induction false} MeaningOfGeneric(v: Value)
    requires HasType(TAny, v) && Encodable(v) && !v.VNil?
    ensures Meaning(TAny, VNil, TreeOf(v)) == Some(Out(Norm(TAny, v), true, true))
    decreases v, TAny, 0
  {
    match v
    case VInt(i) => ParseIntFormatInt(i, HALF64);
    case VStr(s) => LenOfString(|s|);
    case VList(vs) => MeaningOfItems(TAny, vs);
    case VDict(es) => MeaningOfMap(TAny, es);
  }

  lemma {:induction false} MeaningOfMap(t: Type, es: seq<Entry>)
    requires HasTypeEntries(t, es) && EncodableEntries(es) && Ordered(es)
    ensures PairsMeaning(t, [], [], ToPairs(EntryTrees(es))) == Some(Out(NormEntries(t, es), true, true))
    decreases es, t, 1
  {
    MeaningOfEntries(t, [], [], es);
    assert [] + NormEntries(t, es) == NormEntries(t, es);
  }

  lemma {:induction false} MeaningOfItems(t: Type, vs: seq<Value>)
    requires HasTypeItems(t, vs) && EncodableItems(vs)
    ensures ItemsMeaning(t, ItemTrees(vs)) == Some(Out(NormItems(t, vs), true, true))
    decreases vs, t
  {
    if vs == [] {
    } else {
      MeaningOfItems(t, vs[1..]);
      if !vs[0].VNil? {
        MeaningOfTree(t, vs[0]);
        assert ItemTrees(vs)[1..] == ItemTrees(vs[1..]);
      }
    }
  }

  lemma {:induction false} MeaningOfArray(t: Type, n: nat, vs: seq<Value>)
    requires HasTypeItems(t, vs) && EncodableItems(vs) && |vs| <= n
    ensures ArrayMeaning(t, Repeat(t, Zero(t), n), ItemTrees(vs)) == Some(Out(NormArray(t, vs, n), true, true))
    decreases vs, t
  {
    hide Meaning, TreeOf, Norm, HasType, Encodable, Zero, Repeat;
    if vs == [] {
    } else {
      if vs[0].VNil? {
        MeaningOfArray(t, n, vs[1..]);
      } else {
        MeaningOfTree(t, vs[0]);
        MeaningOfArray(t, n - 1, vs[1..]);
        RepeatFirst(t, Zero(t), n);
        ArrayMeaningUnfold(t, Repeat(t, Zero(t), n), TreeOf(vs[0]), ItemTrees(vs[1..]));
      }
    }
  }

  lemma RepeatFirst(t: Type, v: Value, n: nat)
    requires n > 0 && HasType(t, v)
    ensures Repeat(t, v, n) != [] && Repeat(t, v, n)[0] == v && Repeat(t, v, n)[1..] == Repeat(t, v, n - 1)
  {
  }

  lemma {:induction false} PutLast(es: seq<Entry>, k: bytes, v: Value)
    requires Ordered(es) && (es == [] || Less(es[|es| - 1].key, k))
    ensures Put(es, k, v) == es + [Entry(k, v)] && Ordered(es + [Entry(k, v)])
  {
    if es == [] {
    } else {
      PutLast(es[1..], k, v);
      FirstBelow(es, k);
      LessAsymmetric(es[0].key, k);
      LessIrreflexive(k);
      assert es == [es[0]] + es[1..];
    }
  }

  lemma {:induction false} FirstBelow(es: seq<Entry>, k: bytes)
    requires es != [] && Ordered(es) && Less(es[|es| - 1].key, k)
    ensures Less(es[0].key, k)
  {
    if |es| > 1 {
      FirstBelow(es[1..], k);
      LessTransitive(es[0].key, es[1].key, k);
    }
  }

  /** The entries `es` belong behind `acc`, and the first key does not step below `last`. */
  predicate Follow(acc: seq<Entry>, last: bytes, es: seq<Entry>) {
    es != [] ==> !Less(es[0].key, last) && (acc == [] || Less(acc[|acc| - 1].key, es[0].key))
  }

  lemma FollowNext(acc: seq<Entry>, last: bytes, es: seq<Entry>, v: Value)
    requires es != [] && Ordered(es) && Follow(acc, last, es)
    ensures Follow(acc, last, es[1..]) && Follow(acc + [Entry(es[0].key, v)], es[0].key, es[1..])
  {
    if |es| > 1 {
      if Less(es[1].key, last) {
        LessTransitive(es[0].key, es[1].key, last);
      }
      LessAsymmetric(es[0].key, es[1].key);
      if acc != [] {
        LessTransitive(acc[|acc| - 1].key, es[0].key, es[1].key);
      }
    }
  }

  lemma {:induction false} MeaningOfEntries(t: Type, acc: seq<Entry>, last: bytes, es: seq<Entry>)
    requires HasTypeEntries(t, es) && EncodableEntries(es) && Ordered(es)
    requires HasTypeEntries(t, acc) && Ordered(acc) && Follow(acc, last, es)
    ensures PairsMeaning(t, acc, last, ToPairs(EntryTrees(es))) == Some(Out(acc + NormEntries(t, es), true, true))
    decreases es, t, 0
  {
    hide Meaning, PairMeaning, PairsMeaning, TreeOf, Norm, HasType, Encodable, Put, Less, ToPair;
    if es == [] {
      assert acc + [] == acc;
      PairsMeaningUnfold(t, acc, last, Pair([], [], IntLit([])), []);
    } else if es[0].val.VNil? {
      assert EntryTrees(es) == EntryTrees(es[1..]);
      FollowNext(acc, last, es, VNil);
      MeaningOfEntries(t, acc, last, es[1..]);
    } else {
      var e := es[0];
      var v := Norm(t, e.val);
      FollowNext(acc, last, es, v);
      MeaningOfEntry(t, acc, e);
      PutLast(acc, e.key, v);
      MeaningOfEntries(t, acc + [Entry(e.key, v)], e.key, es[1..]);
      EntryTreesFirst(es);
      PairsMeaningUnfold(t, acc, last, ToPair(Keyed(e.key, TreeOf(e.val))), ToPairs(EntryTrees(es[1..])));
      Associative(acc, [Entry(e.key, v)], NormEntries(t, es[1..]));
    }
  }

  lemma {:induction false} EntryTreesFirst(es: seq<Entry>)
    requires es != [] && !es[0].val.VNil?
    ensures ToPairs(EntryTrees(es)) ==
            [ToPair(Keyed(es[0].key, TreeOf(es[0].val)))] + ToPairs(EntryTrees(es[1..]))
  {
    assert EntryTree(es[0]) == [Keyed(es[0].key, TreeOf(es[0].val))];
    assert EntryTrees(es) == EntryTree(es[0]) + EntryTrees(es[1..]);
    assert EntryTrees(es)[1..] == EntryTrees(es[1..]);
  }

  lemma {:induction false} MeaningOfEntry(t: Type, acc: seq<Entry>, e: Entry)
    requires HasTypeEntries(t, acc) && Ordered(acc)
    requires HasType(t, e.val) && EncodableEntry(e) && !e.val.VNil?
    ensures PairMeaning(t, acc, ToPair(Keyed(e.key, TreeOf(e.val)))) ==
            Some(Out(MapRound(e.key, Put(acc, e.key, Norm(t, e.val))), true, true))
    ensures HasTypeEntries(t, Put(acc, e.key, Norm(t, e.val)))
    decreases e, t
  {
    MeaningOfTree(t, e.val);
    PutTyped(t, acc, e.key, Norm(t, e.val));
    LenOfString(|e.key|);
  }

  // ---------- structs: any order of keys, any unknown keys in between ----------

  function PairAt(ps: seq<Pair>, key: bytes): Option<Tree> {
    if ps == [] then None
    else if ps[0].key == key then Some(ps[0].val)
    else PairAt(ps[1..], key)
  }

  /** No field is given twice; other keys may repeat. */
  predicate FieldsOnce(fs: seq<FieldVal>, ps: seq<Pair>) {
    forall i, j | 0 <= i < j < |ps| && FieldIndex(fs, ps[i].key).Some? :: ps[i].key != ps[j].key
  }

  lemma FieldsOnceSame(fs: seq<FieldVal>, gs: seq<FieldVal>, ps: seq<Pair>)
    requires SameNames(fs, gs) && FieldsOnce(fs, ps)
    ensures FieldsOnce(gs, ps)
  {
    hide FieldIndex;
    forall p | p in ps ensures FieldIndex(gs, p.key) == FieldIndex(fs, p.key) {
      FieldIndexSame(fs, gs, p.key);
    }
  }

  lemma FieldsOnceNext(fs: seq<FieldVal>, gs: seq<FieldVal>, ps: seq<Pair>)
    requires ps != [] && SameNames(fs, gs) && FieldsOnce(fs, ps)
    ensures FieldsOnce(gs, ps[1..])
    ensures forall q | q in ps[1..] && FieldIndex(fs, ps[0].key).Some? :: q.key != ps[0].key
  {
    hide FieldIndex;
    var rest := ps[1..];
    forall q | q in rest && FieldIndex(fs, ps[0].key).Some? ensures q.key != ps[0].key {
      var j :| 0 <= j < |rest| && rest[j] == q;
      assert ps[j + 1] == q;
    }
    forall i, j | 0 <= i < j < |rest| && FieldIndex(gs, rest[i].key).Some? ensures rest[i].key != rest[j].key {
      FieldIndexSame(fs, gs, rest[i].key);
      assert ps[i + 1] == rest[i] && ps[j + 1] == rest[j];
    }
  }

  /** Keys from `last` on never step down. */
  predicate Ascending(last: bytes, ps: seq<Pair>)
    decreases ps
  {
    ps == [] || (!Less(ps[0].key, last) && Ascending(ps[0].key, ps[1..]))
  }

  /**
   * A pair the struct loop gets past on its own: an unknown key in front of a skippable value, or a decodable
   * field.
   */
  predicate Passes(fields: seq<Field>, fs: seq<FieldVal>, p: Pair)
    requires HasTypeFields(fields, fs)
  {
    LenValid(p.len) &&
    match FieldIndex(fs, p.key)
    case None => NonNegative(p.val)
    case Some(i) =>
      SameLength(fields, fs);
      FieldTyped(fields, fs, i);
      var m := Meaning(fields[i].typ, fs[i].val, p.val);
      m.Some? && m.value.ordered && m.value.known
  }

  /** What field `i` holds in the end. */
  function FieldAfter(fields: seq<Field>, fs: seq<FieldVal>, i: nat, ps: seq<Pair>): Value
    requires HasTypeFields(fields, fs) && i < |fs|
  {
    SameLength(fields, fs);
    FieldTyped(fields, fs, i);
    match PairAt(ps, fs[i].field.name)
    case None => fs[i].val
    case Some(tree) =>
      match Meaning(fields[i].typ, fs[i].val, tree)
      case None => fs[i].val
      case Some(o) => o.val
  }

  lemma {:induction false} PairAtAbsent(ps: seq<Pair>, key: bytes)
    requires forall p | p in ps :: p.key != key
    ensures PairAt(ps, key) == None
  {
    if ps == [] {
    } else {
      assert ps[0] in ps;
      PairAtAbsent(ps[1..], key);
    }
  }

  /** One round leaves the other fields, and so what later pairs do, alone. */
  lemma RoundKeeps(fields: seq<Field>, fs: seq<FieldVal>, p: Pair, q: Pair)
    requires HasTypeFields(fields, fs) && NamesDistinct(fs)
    requires Passes(fields, fs, p) && Passes(fields, fs, q)
    requires p.key != q.key || FieldIndex(fs, p.key).None?
    ensures var gs := MemberMeaning(fields, fs, p).value.val.fs;
            Passes(fields, gs, q) && SameNames(fs, gs) && NamesDistinct(gs)
  {
    SameLength(fields, fs);
    var gs := MemberMeaning(fields, fs, p).value.val.fs;
    MemberSameNames(fields, fs, p);
    FieldIndexSame(fs, gs, q.key);
    if FieldIndex(fs, q.key).Some? {
      var j := FieldIndex(fs, q.key).value;
      FieldTyped(fields, fs, j);
      FieldTyped(fields, gs, j);
      assert gs[j] == fs[j];
    }
  }

  lemma MemberSameNames(fields: seq<Field>, fs: seq<FieldVal>, p: Pair)
    requires HasTypeFields(fields, fs) && MemberMeaning(fields, fs, p).Some?
    ensures var gs := MemberMeaning(fields, fs, p).value.val.fs;
            SameNames(fs, gs) &&
            forall i | 0 <= i < |fs| && FieldIndex(fs, p.key) != Some(i) :: gs[i] == fs[i]
  {
    SameLength(fields, fs);
    if FieldIndex(fs, p.key).Some? {
      FieldTyped(fields, fs, FieldIndex(fs, p.key).value);
    }
  }

  /** The struct loop on pairs that give no field twice: it succeeds, and each field depends on its own pair only. */
  lemma {:induction false} FieldsPointwise(fields: seq<Field>, fs: seq<FieldVal>, last: bytes, ps: seq<Pair>)
    requires HasTypeFields(fields, fs) && NamesDistinct(fs) && FieldsOnce(fs, ps)
    requires forall p | p in ps :: Passes(fields, fs, p)
    ensures var r := FieldsMeaning(fields, fs, last, ps);
            r.Some? && SameNames(fs, r.value.val)
            && (forall i | 0 <= i < |fs| :: r.value.val[i].val == FieldAfter(fields, fs, i, ps))
            && (r.value.ordered <==> Ascending(last, ps))
            && (r.value.known <==> forall p | p in ps :: FieldIndex(fs, p.key).Some?)
    decreases ps
  {
    if ps == [] {
    } else {
      var p, rest := ps[0], ps[1..];
      assert p in ps;
      var gs := MemberMeaning(fields, fs, p).value.val.fs;
      MemberSameNames(fields, fs, p);
      FieldsOnceNext(fs, gs, ps);
      forall q | q in rest ensures Passes(fields, gs, q) {
        assert q in ps;
        RoundKeeps(fields, fs, p, q);
      }
      FieldsPointwise(fields, gs, p.key, rest);
      forall q | q in rest ensures FieldIndex(gs, q.key) == FieldIndex(fs, q.key) {
        FieldIndexSame(fs, gs, q.key);
      }
      forall i | 0 <= i < |fs| ensures FieldAfter(fields, gs, i, rest) == FieldAfter(fields, fs, i, ps) {
        FieldAfterStep(fields, fs, i, ps);
      }
      KnownStep(fs, gs, ps);
    }
  }

  lemma KnownStep(fs: seq<FieldVal>, gs: seq<FieldVal>, ps: seq<Pair>)
    requires ps != [] && SameNames(fs, gs)
    ensures (forall p | p in ps :: FieldIndex(fs, p.key).Some?) <==>
            FieldIndex(fs, ps[0].key).Some? && forall p | p in ps[1..] :: FieldIndex(gs, p.key).Some?
  {
    forall p | p in ps[1..] ensures FieldIndex(gs, p.key) == FieldIndex(fs, p.key) {
      FieldIndexSame(fs, gs, p.key);
    }
    forall p | p in ps ensures p == ps[0] || p in ps[1..] {
      assert ps == [ps[0]] + ps[1..];
    }
  }

  lemma FieldAfterStep(fields: seq<Field>, fs: seq<FieldVal>, i: nat, ps: seq<Pair>)
    requires HasTypeFields(fields, fs) && NamesDistinct(fs) && FieldsOnce(fs, ps)
    requires ps != [] && Passes(fields, fs, ps[0]) && i < |fs|
    ensures var gs := MemberMeaning(fields, fs, ps[0]).value.val.fs;
            |gs| == |fs| && FieldAfter(fields, gs, i, ps[1..]) == FieldAfter(fields, fs, i, ps)
  {
    var p, rest := ps[0], ps[1..];
    var gs := MemberMeaning(fields, fs, p).value.val.fs;
    SameLength(fields, fs);
    MemberSameNames(fields, fs, p);
    assert FieldIndex(fs, fs[i].field.name) == Some(i);
    if p.key == fs[i].field.name {
      FieldsOnceNext(fs, gs, ps);
      PairAtAbsent(rest, p.key);
    }
  }

  /** The pairs bring the value of a field, or leave the field out where it is zero. */
  predicate FieldCarried(f: FieldVal, ps: seq<Pair>) {
    match PairAt(ps, f.field.name)
    case None => f.val == Zero(f.field.typ)
    case Some(tree) => Kept(f) && EncodableField(f) && tree == TreeOf(f.val)
  }

  /**
   * The pairs carry each field of `fs`, none of them twice, and otherwise only unknown keys, once or
   * repeatedly, in front of skippable values.
   */
  predicate Carries(fs: seq<FieldVal>, ps: seq<Pair>) {
    && FieldsOnce(fs, ps)
    && (forall p | p in ps :: LenValid(p.len) && (FieldIndex(fs, p.key).None? ==> NonNegative(p.val)))
    && forall i | 0 <= i < |fs| :: FieldCarried(fs[i], ps)
  }

  lemma {:induction false} EncodableAt(fs: seq<FieldVal>, i: nat)
    requires EncodableFields(fs) && i < |fs|
    ensures EncodableField(fs[i])
  {
    if i == 0 {
    } else {
      EncodableAt(fs[1..], i - 1);
    }
  }

  /** Every field that can be written decodes on its own, from zero, to its normal form. */
  predicate FieldsDecode(fields: seq<Field>, fs: seq<FieldVal>)
    requires HasTypeFields(fields, fs)
  {
    SameLength(fields, fs);
    forall i | 0 <= i < |fs| && Kept(fs[i]) && EncodableField(fs[i]) ::
      FieldTyped(fields, fs, i);
      Meaning(fields[i].typ, Zero(fields[i].typ), TreeOf(fs[i].val)) ==
      Some(Out(Norm(fields[i].typ, fs[i].val), true, true))
  }

  lemma {:induction false} MeaningOfFields(fields: seq<Field>, fs: seq<FieldVal>)
    requires HasTypeFields(fields, fs)
    ensures FieldsDecode(fields, fs)
    decreases fs
  {
    if fs == [] {
    } else {
      if Kept(fs[0]) && EncodableField(fs[0]) {
        MeaningOfField(fields[0], fs[0]);
      }
      MeaningOfFields(fields[1..], fs[1..]);
      SameLength(fields, fs);
      forall i | 0 <= i < |fs| && Kept(fs[i]) && EncodableField(fs[i])
        ensures HasType(fields[i].typ, fs[i].val)
        ensures Meaning(fields[i].typ, Zero(fields[i].typ), TreeOf(fs[i].val)) ==
                Some(Out(Norm(fields[i].typ, fs[i].val), true, true))
      {
        FieldTyped(fields, fs, i);
        if i > 0 {
          assert fs[i] == fs[1..][i - 1] && fields[i] == fields[1..][i - 1];
        }
      }
    }
  }

  lemma {:induction false} MeaningOfField(field: Field, f: FieldVal)
    requires HasTypeField(field, f) && EncodableField(f) && Kept(f)
    ensures Meaning(field.typ, Zero(field.typ), TreeOf(f.val)) == Some(Out(Norm(field.typ, f.val), true, true))
    decreases f
  {
    MeaningOfTree(field.typ, f.val);
  }

  lemma {:induction false} ZeroFieldAt(fields: seq<Field>, i: nat)
    requires i < |fields|
    ensures |ZeroFields(fields)| == |fields| && ZeroFields(fields)[i] == FieldVal(fields[i], Zero(fields[i].typ))
  {
    if i > 0 {
      ZeroFieldAt(fields[1..], i - 1);
    } else {
      SameLength(fields, ZeroFields(fields));
    }
  }

  lemma {:induction false} NormFieldAt(fields: seq<Field>, fs: seq<FieldVal>, i: nat)
    requires HasTypeFields(fields, fs) && i < |fs|
    ensures i < |fields| && HasTypeField(fields[i], fs[i])
    ensures NormFields(fields, fs)[i] == NormField(fields[i], fs[i])
  {
    if i == 0 {
    } else {
      NormFieldAt(fields[1..], fs[1..], i - 1);
    }
  }

  /** Pairs that carry a record, decoded into a zero record, give the record back. */
  lemma StructDecodes(fields: seq<Field>, fs: seq<FieldVal>, ps: seq<Pair>)
    requires HasTypeFields(fields, fs) && NamesDistinct(fs)
    requires FieldsDecode(fields, fs) && Carries(fs, ps)
    ensures var r := FieldsMeaning(fields, ZeroFields(fields), [], ps);
            r.Some? && r.value.val == NormFields(fields, fs)
            && (r.value.ordered <==> Ascending([], ps))
            && (r.value.known <==> forall p | p in ps :: FieldIndex(fs, p.key).Some?)
  {
    hide Ascending, FieldsMeaning, FieldIndex, Passes, FieldsOnce, Meaning, TreeOf, Norm, HasTypeFields;
    var zs := ZeroFields(fields);
    SameLength(fields, fs);
    SameLength(fields, zs);
    forall i | 0 <= i < |fs| ensures fs[i].field == zs[i].field == fields[i] && zs[i].val == Zero(fields[i].typ) {
      ZeroFieldAt(fields, i);
      FieldTyped(fields, fs, i);
    }
    forall p | p in ps ensures FieldIndex(fs, p.key) == FieldIndex(zs, p.key) && Passes(fields, zs, p) {
      FieldIndexSame(fs, zs, p.key);
      CarriedPasses(fields, fs, zs, ps, p);
    }
    FieldsOnceSame(fs, zs, ps);
    FieldsPointwise(fields, zs, [], ps);
    var r := FieldsMeaning(fields, zs, [], ps).value.val;
    forall i | 0 <= i < |fs| ensures r[i] == NormFields(fields, fs)[i] {
      NormFieldAt(fields, fs, i);
      assert FieldCarried(fs[i], ps);
      NormZero(fields[i].typ);
    }
  }

  lemma CarriedPasses(fields: seq<Field>, fs: seq<FieldVal>, zs: seq<FieldVal>, ps: seq<Pair>, p: Pair)
    requires HasTypeFields(fields, fs) && NamesDistinct(fs)
    requires FieldsDecode(fields, fs) && Carries(fs, ps) && p in ps
    requires HasTypeFields(fields, zs) && |fs| == |zs| == |fields|
    requires forall i | 0 <= i < |fs| :: fs[i].field == zs[i].field == fields[i] && zs[i].val == Zero(fields[i].typ)
    ensures Passes(fields, zs, p)
  {
    FieldIndexSame(fs, zs, p.key);
    if FieldIndex(fs, p.key).Some? {
      var i := FieldIndex(fs, p.key).value;
      PairAtPresent(fs, ps, p);
      FieldTyped(fields, fs, i);
      assert FieldCarried(fs[i], ps);
    }
  }

  lemma {:induction false} PairAtPresent(fs: seq<FieldVal>, ps: seq<Pair>, p: Pair)
    requires FieldsOnce(fs, ps) && p in ps && FieldIndex(fs, p.key).Some?
    ensures PairAt(ps, p.key) == Some(p.val)
  {
    hide FieldIndex;
    if ps[0] != p {
      var j :| 0 < j < |ps| && ps[j] == p;
      assert ps[1..][j - 1] == p;
      FieldsOnceNext(fs, fs, ps);
      PairAtPresent(fs, ps[1..], p);
    }
  }

  lemma {:induction false} FieldTreesHas(fs: seq<FieldVal>, i: nat)
    requires i < |fs| && Kept(fs[i])
    ensures Keyed(fs[i].field.name, TreeOf(fs[i].val)) in FieldTrees(fs)
  {
    if i == 0 {
    } else {
      FieldTreesHas(fs[1..], i - 1);
    }
  }

  lemma {:induction false} FieldTreesFrom(fs: seq<FieldVal>, x: Keyed<Tree>) returns (i: nat)
    requires x in FieldTrees(fs)
    ensures i < |fs| && Kept(fs[i]) && x == Keyed(fs[i].field.name, TreeOf(fs[i].val))
  {
    if x in FieldTree(fs[0]) {
      i := 0;
    } else {
      var j := FieldTreesFrom(fs[1..], x);
      i := j + 1;
    }
  }

  lemma {:induction false} FieldTreesDistinct(fs: seq<FieldVal>)
    requires EncodableFields(fs) && NamesDistinct(fs)
    ensures Distinct(FieldTrees(fs))
  {
    if fs == [] {
    } else {
      var rest := FieldTrees(fs[1..]);
      FieldTreesDistinct(fs[1..]);
      if Kept(fs[0]) {
        assert EncodableField(fs[0]);
        var xs := [FieldTree(fs[0])[0]] + rest;
        assert xs == FieldTrees(fs);
        forall j | 0 < j < |xs| ensures xs[0].key != xs[j].key {
          var k := FieldTreesFrom(fs[1..], xs[j]);
          assert fs[1..][k] == fs[k + 1];
        }
        assert forall i, j | 0 < i < j < |xs| :: xs[i] == rest[i - 1] && xs[j] == rest[j - 1];
      } else {
        assert FieldTrees(fs) == rest;
      }
    }
  }

  lemma {:induction false} ToPairsAt(xs: seq<Keyed<Tree>>)
    ensures |ToPairs(xs)| == |xs|
    ensures forall i | 0 <= i < |xs| :: ToPairs(xs)[i] == ToPair(xs[i])
  {
    if xs == [] {
    } else {
      ToPairsAt(xs[1..]);
    }
  }

  lemma {:induction false} ToPairsAscending(xs: seq<Keyed<Tree>>, last: bytes)
    requires Increasing(xs) && (xs != [] ==> !Less(xs[0].key, last))
    ensures Ascending(last, ToPairs(xs))
  {
    if xs == [] {
    } else {
      if |xs| > 1 {
        LessAsymmetric(xs[0].key, xs[1].key);
      }
      ToPairsAscending(xs[1..], xs[0].key);
      assert ToPairs(xs)[1..] == ToPairs(xs[1..]);
    }
  }

  lemma SortedShape(fs: seq<FieldVal>)
    requires EncodableFields(fs) && NamesDistinct(fs)
    ensures var ps := ToPairs(Sort(FieldTrees(fs)));
            FieldsOnce(fs, ps) && Ascending([], ps) && forall i, j | 0 <= i < j < |ps| :: ps[i].key != ps[j].key
  {
    var ys := Sort(FieldTrees(fs));
    FieldTreesDistinct(fs);
    SortIncreasing(FieldTrees(fs));
    IncreasingDistinct(ys);
    ToPairsAt(ys);
    ToPairsAscending(ys, []);
  }

  /** A kept field is written. */
  lemma SortedHas(fs: seq<FieldVal>, i: nat) returns (p: Pair)
    requires i < |fs| && Kept(fs[i])
    ensures p in ToPairs(Sort(FieldTrees(fs)))
    ensures p.key == fs[i].field.name && p.len == FormatInt(|p.key|) && p.val == TreeOf(fs[i].val)
  {
    hide Sort, FieldTrees, EncodableFields, EncodableField, TreeOf, ToPairs;
    var xs := FieldTrees(fs);
    var ys := Sort(xs);
    FieldTreesHas(fs, i);
    var x := Keyed(fs[i].field.name, TreeOf(fs[i].val));
    SortMultiset(xs);
    InMultiset(ys, xs, x);
    ToPairsAt(ys);
    var j :| 0 <= j < |ys| && ys[j] == x;
    p := ToPairs(ys)[j];
  }

  /** What is written is a kept field. */
  lemma SortedFrom(fs: seq<FieldVal>, p: Pair) returns (k: nat)
    requires p in ToPairs(Sort(FieldTrees(fs)))
    ensures k < |fs| && Kept(fs[k])
    ensures p.key == fs[k].field.name && p.len == FormatInt(|p.key|) && p.val == TreeOf(fs[k].val)
  {
    hide Sort, FieldTrees, TreeOf, ToPairs;
    var xs := FieldTrees(fs);
    var ys := Sort(xs);
    ToPairsAt(ys);
    var j :| 0 <= j < |ys| && ToPairs(ys)[j] == p;
    SortMultiset(xs);
    InMultiset(ys, xs, ys[j]);
    k := FieldTreesFrom(fs, ys[j]);
  }

  lemma SortedKnown(fs: seq<FieldVal>, p: Pair)
    requires EncodableFields(fs) && p in ToPairs(Sort(FieldTrees(fs)))
    ensures FieldIndex(fs, p.key).Some? && LenValid(p.len)
  {
    hide EncodableFields, FieldTrees, Sort, ToPairs, TreeOf, LenValid;
    var k := SortedFrom(fs, p);
    EncodableAt(fs, k);
    LenOfString(|p.key|);
  }

  /** The pairs the encoder writes for a record carry it, in order, and no others. */
  lemma SortedCarries(fields: seq<Field>, fs: seq<FieldVal>)
    requires HasTypeFields(fields, fs) && EncodableFields(fs) && NamesDistinct(fs)
    ensures var ps := ToPairs(Sort(FieldTrees(fs)));
            Carries(fs, ps) && Ascending([], ps) && forall p | p in ps :: FieldIndex(fs, p.key).Some?
  {
    var ps := ToPairs(Sort(FieldTrees(fs)));
    SortedShape(fs);
    forall p | p in ps ensures FieldIndex(fs, p.key).Some? && LenValid(p.len) {
      SortedKnown(fs, p);
    }
    forall i | 0 <= i < |fs| ensures FieldCarried(fs[i], ps) {
      EncodableAt(fs, i);
      SortedPairAt(fs, i);
      NormFieldAt(fields, fs, i);
      if !Kept(fs[i]) {
        LeftOutIsZero(fields[i], fs[i]);
      }
    }
  }

  lemma SortedPairAt(fs: seq<FieldVal>, i: nat)
    requires EncodableFields(fs) && NamesDistinct(fs) && i < |fs| && EncodableField(fs[i])
    ensures PairAt(ToPairs(Sort(FieldTrees(fs))), fs[i].field.name) ==
            if Kept(fs[i]) then Some(TreeOf(fs[i].val)) else None
  {
    hide Sort, FieldTrees, EncodableFields, EncodableField, TreeOf, PairAt, ToPairs, FieldsOnce;
    var ps := ToPairs(Sort(FieldTrees(fs)));
    SortedShape(fs);
    if Kept(fs[i]) {
      var p := SortedHas(fs, i);
      SortedKnown(fs, p);
      PairAtPresent(fs, ps, p);
    } else {
      forall p | p in ps ensures p.key != fs[i].field.name {
        var k := SortedFrom(fs, p);
      }
      PairAtAbsent(ps, fs[i].field.name);
    }
  }

  lemma MeaningOfStruct(fields: seq<Field>, fs: seq<FieldVal>)
    requires HasTypeFields(fields, fs) && EncodableFields(fs) && NamesDistinct(fs) && FieldsDecode(fields, fs)
    ensures Meaning(TStruct(fields), Zero(TStruct(fields)), DictLit(ToPairs(Sort(FieldTrees(fs))))) ==
            Some(Out(VStruct(NormFields(fields, fs)), true, true))
  {
    hide FieldsMeaning, Sort, FieldTrees, ToPairs, Carries, Ascending, FieldsDecode, NormFields, HasTypeFields;
    SortedCarries(fields, fs);
    StructDecodes(fields, fs, ToPairs(Sort(FieldTrees(fs))));
  }

  // ---------- the round trips ----------

  /**
   * Decoding an encoded value of any type into a zero target takes exactly its bytes, whatever follows,
   * and gives its normal form; neither strictness flag has anything to complain about.
   */
  lemma DecodeEnc(t: Type, v: Value, rest: bytes)
    requires HasType(t, v) && Encodable(v) && !v.VNil?
    ensures DecodeValue(t, Zero(t), Enc(v) + rest) == Done(Out(Norm(t, v), true, true), |Enc(v)|)
  {
    EncodableWritable(v);
    ScanEnc(v, rest);
    MeaningOfTree(t, v);
    DecodeViaTree(t, Zero(t), Enc(v) + rest);
  }

  /** Nil-free values come back unchanged. */
  lemma DecodeEncNilFree(t: Type, v: Value, rest: bytes)
    requires HasType(t, v) && Encodable(v) && !v.VNil? && NilFree(v)
    ensures DecodeValue(t, Zero(t), Enc(v) + rest) == Done(Out(v, true, true), |Enc(v)|)
  {
    DecodeEnc(t, v, rest);
    NormNilFree(t, v);
  }

  /** No encoding of a nil-free value is a prefix of the encoding of another one of the same type. */
  lemma EncPrefixFree(t: Type, v: Value, w: Value, rest: bytes)
    requires HasType(t, v) && Encodable(v) && !v.VNil? && NilFree(v)
    requires HasType(t, w) && Encodable(w) && !w.VNil? && NilFree(w)
    requires Enc(v) == Enc(w) + rest
    ensures v == w && rest == []
  {
    DecodeEncNilFree(t, v, []);
    DecodeEncNilFree(t, w, rest);
    assert Enc(v) + [] == Enc(v);
  }

  /**
   * A record, written in any key order, with or without its zero fields and with further entries between its
   * own, decodes into a zero record as if they were not there. DisallowUnknownFields objects exactly when
   * there are some.
   */
  lemma DecodeRecordAmongOthers(fields: seq<Field>, fs: seq<FieldVal>, ps: seq<Pair>, rest: bytes)
    requires HasType(TStruct(fields), VStruct(fs)) && NamesDistinct(fs)
    requires LexicalPairs(ps, true) && Carries(fs, ps)
    ensures var s := Show(DictLit(ps)) + rest;
            var r := DecodeValue(TStruct(fields), Zero(TStruct(fields)), s);
            r.Done? && r.n == |Show(DictLit(ps))|
            && r.value.val == VStruct(NormFields(fields, fs))
            && (r.value.ordered <==> Ascending([], ps))
            && (r.value.known <==> forall p | p in ps :: FieldIndex(fs, p.key).Some?)
  {
    hide Carries, Ascending, NormFields, FieldsDecode, FieldIndex, FieldsMeaning, LexicalPairs, HasTypeFields;
    var t := TStruct(fields);
    MeaningOfFields(fields, fs);
    StructDecodes(fields, fs, ps);
    ScanComplete(DictLit(ps), rest, true);
    DecodeViaTree(t, Zero(t), Show(DictLit(ps)) + rest);
  }
}
