/** The texts the encoder may write for a value, and when there is only one (bencode/encode.go). */
module Texts {
  import opened Bytes
  import opened Numerals
  import opened Values
  import opened Sorting
  import opened Encode

  // ---------- structs ----------

  /** What readStruct collects: the fields it keeps, under their names. */
  function KeptFields(fs: seq<FieldVal>): seq<Keyed<Value>> {
    if fs == [] then [] else (if Kept(fs[0]) then [Keyed(fs[0].field.name, fs[0].val)] else []) + KeptFields(fs[1..])
  }

  function Chunks(xs: seq<Keyed<Value>>): seq<Keyed<bytes>> {
    if xs == [] then [] else [Keyed(xs[0].key, Enc(xs[0].item))] + Chunks(xs[1..])
  }

  lemma {:induction false} ChunksOfKept(fs: seq<FieldVal>)
    ensures Chunks(KeptFields(fs)) == FieldChunks(fs)
  {
    hide Enc;
    if fs == [] {
    } else {
      ChunksOfKept(fs[1..]);
      if Kept(fs[0]) {
        var x := Keyed(fs[0].field.name, fs[0].val);
        assert KeptFields(fs) == [x] + KeptFields(fs[1..]);
        assert ([x] + KeptFields(fs[1..]))[1..] == KeptFields(fs[1..]);
      } else {
        assert KeptFields(fs) == KeptFields(fs[1..]);
        assert FieldChunks(fs) == FieldChunks(fs[1..]);
      }
    }
  }

  lemma {:induction false} ChunksInsert(x: Keyed<Value>, xs: seq<Keyed<Value>>)
    ensures Chunks(Insert(x, xs)) == Insert(Keyed(x.key, Enc(x.item)), Chunks(xs))
  {
    hide Enc;
    if xs == [] || !Less(xs[0].key, x.key) {
      assert ([x] + xs)[1..] == xs;
    } else {
      ChunksInsert(x, xs[1..]);
      assert Insert(x, xs)[1..] == Insert(x, xs[1..]);
      assert Chunks(xs)[1..] == Chunks(xs[1..]);
    }
  }

  lemma {:induction false} ChunksSort(xs: seq<Keyed<Value>>)
    ensures Chunks(Sort(xs)) == Sort(Chunks(xs))
  {
    hide Enc;
    if xs == [] {
    } else {
      ChunksSort(xs[1..]);
      ChunksInsert(xs[0], Sort(xs[1..]));
      assert Chunks(xs)[1..] == Chunks(xs[1..]);
    }
  }

  lemma {:induction false} KeptFrom(fs: seq<FieldVal>, x: Keyed<Value>) returns (i: nat)
    requires x in KeptFields(fs)
    ensures i < |fs| && Kept(fs[i]) && x == Keyed(fs[i].field.name, fs[i].val)
  {
    if Kept(fs[0]) && x == Keyed(fs[0].field.name, fs[0].val) {
      return 0;
    }
    var j := KeptFrom(fs[1..], x);
    i := j + 1;
  }

  lemma {:induction false} KeptDistinct(fs: seq<FieldVal>)
    requires NamesDistinct(fs)
    ensures Distinct(KeptFields(fs))
  {
    if fs == [] {
    } else {
      KeptDistinct(fs[1..]);
      var rest := KeptFields(fs[1..]);
      if Kept(fs[0]) {
        var xs := [Keyed(fs[0].field.name, fs[0].val)] + rest;
        assert KeptFields(fs) == xs;
        forall j | 0 < j < |xs| ensures xs[0].key != xs[j].key {
          assert xs[j] == rest[j - 1];
          var k := KeptFrom(fs[1..], xs[j]);
          assert fs[1..][k] == fs[k + 1];
        }
        assert forall i, j | 0 < i < j < |xs| :: xs[i] == rest[i - 1] && xs[j] == rest[j - 1];
      } else {
        assert KeptFields(fs) == rest;
      }
    }
  }

  /** However sorting arranges the fields, the same chunks come out. */
  lemma StructDetermined(fs: seq<FieldVal>, dict: seq<Keyed<Value>>)
    requires NamesDistinct(fs) && multiset(dict) == multiset(KeptFields(fs)) && NonDecreasing(dict)
    ensures Chunks(dict) == Sort(FieldChunks(fs))
    ensures forall x | x in dict :: x in KeptFields(fs)
  {
    hide Enc, KeptFields, Chunks, FieldChunks, NamesDistinct, NonDecreasing, Sort;
    KeptDistinct(fs);
    SortDetermined(KeptFields(fs), dict);
    ChunksSort(KeptFields(fs));
    ChunksOfKept(fs);
    forall x | x in dict ensures x in KeptFields(fs) {
      InMultiset(dict, KeptFields(fs), x);
    }
  }

  // ---------- values the encoder is given ----------

  /** Maps are in their canonical form, as the maps of Go always are. */
  predicate Mapped(v: Value)
    decreases v
  {
    match v
    case VList(vs) => forall i | 0 <= i < |vs| :: Mapped(vs[i])
    case VDict(es) => Ordered(es) && forall i | 0 <= i < |es| :: MappedEntry(es[i])
    case VStruct(fs) => forall i | 0 <= i < |fs| :: MappedField(fs[i])
    case _ => true
  }

  predicate MappedEntry(e: Entry)
    decreases e
  {
    Mapped(e.val)
  }

  predicate MappedField(f: FieldVal)
    decreases f
  {
    Mapped(f.val)
  }

  /** Maps are in their canonical form, and structs have distinct field names. */
  predicate Regular(v: Value)
    decreases v
  {
    match v
    case VList(vs) => forall i | 0 <= i < |vs| :: Regular(vs[i])
    case VDict(es) => Ordered(es) && forall i | 0 <= i < |es| :: RegularEntry(es[i])
    case VStruct(fs) => NamesDistinct(fs) && forall i | 0 <= i < |fs| :: RegularField(fs[i])
    case _ => true
  }

  predicate RegularEntry(e: Entry)
    decreases e
  {
    Regular(e.val)
  }

  predicate RegularField(f: FieldVal)
    decreases f
  {
    Regular(f.val)
  }

  lemma {:induction false} RegularMapped(v: Value)
    requires Regular(v)
    ensures Mapped(v)
    decreases v
  {
    match v
    case VList(vs) =>
      forall i | 0 <= i < |vs| ensures Mapped(vs[i]) {
        RegularMapped(vs[i]);
      }
    case VDict(es) =>
      forall i | 0 <= i < |es| ensures MappedEntry(es[i]) {
        assert RegularEntry(es[i]) && (es decreases to es[i]) && (es[i] decreases to es[i].val);
        RegularMapped(es[i].val);
      }
    case VStruct(fs) =>
      forall i | 0 <= i < |fs| ensures MappedField(fs[i]) {
        assert RegularField(fs[i]) && (fs decreases to fs[i]) && (fs[i] decreases to fs[i].val);
        RegularMapped(fs[i].val);
      }
    case _ =>
  }

  // ---------- what may be written ----------

  function Joined(parts: seq<bytes>): bytes {
    if parts == [] then [] else parts[0] + Joined(parts[1..])
  }

  lemma {:induction false} JoinedLast(parts: seq<bytes>, b: bytes)
    ensures Joined(parts + [b]) == Joined(parts) + b
  {
    if parts == [] {
      assert [b][1..] == [] && parts + [b] == [b];
    } else {
      assert (parts + [b])[1..] == parts[1..] + [b];
      JoinedLast(parts[1..], b);
      Associative(parts[0], Joined(parts[1..]), b);
    }
  }

  /**
   * The texts the encoder may write for a value. There is more than one where a struct has two fields of one
   * name, whose order sort.Sort leaves open.
   */
  ghost predicate Writes(v: Value, b: bytes)
    decreases v
  {
    match v
    case VList(vs) => exists parts: seq<bytes> :: WritesItems(vs, parts) && b == [CH_L] + Joined(parts) + [CH_E]
    case VDict(es) => exists parts: seq<bytes> :: WritesEntries(es, parts) && b == [CH_D] + Joined(parts) + [CH_E]
    case VStruct(fs) =>
      exists dict: seq<Keyed<Value>>, parts: seq<bytes> ::
        WritesFields(fs, dict, parts) && b == [CH_D] + Joined(parts) + [CH_E]
    case _ => b == Enc(v)
  }

  ghost predicate WritesItems(vs: seq<Value>, parts: seq<bytes>)
    decreases vs
  {
    |parts| == |vs| && forall i | 0 <= i < |vs| :: Writes(vs[i], parts[i])
  }

  /** One part for each entry, in key order; nothing for nil. */
  ghost predicate WritesEntries(es: seq<Entry>, parts: seq<bytes>)
    decreases es
  {
    |parts| == |es| && forall i | 0 <= i < |es| :: WritesEntry(es[i], parts[i])
  }

  ghost predicate WritesEntry(e: Entry, part: bytes)
    decreases e
  {
    if e.val.VNil? then part == []
    else exists b: bytes :: Writes(e.val, b) && part == EncStr(e.key) + b
  }

  /** One part for each kept field, in some sorted order. */
  ghost predicate WritesFields(fs: seq<FieldVal>, dict: seq<Keyed<Value>>, parts: seq<bytes>)
    decreases fs, 1
  {
    && multiset(dict) == multiset(KeptFields(fs)) && NonDecreasing(dict) && |parts| == |dict|
    && forall j | 0 <= j < |dict| :: WritesOne(fs, dict[j], parts[j])
  }

  ghost predicate WritesOne(fs: seq<FieldVal>, x: Keyed<Value>, part: bytes)
    decreases fs, 0
  {
    exists k :: 0 <= k < |fs| && x == Keyed(fs[k].field.name, fs[k].val) && WritesField(fs[k], part)
  }

  ghost predicate WritesField(f: FieldVal, part: bytes)
    decreases f
  {
    exists b: bytes :: Writes(f.val, b) && part == EncStr(f.field.name) + b
  }

  // ---------- one of the texts ----------

  lemma {:induction false} JoinedItems(vs: seq<Value>, parts: seq<bytes>)
    requires |parts| == |vs| && forall i | 0 <= i < |vs| :: parts[i] == Enc(vs[i])
    ensures Joined(parts) + [CH_E] == EncItems(vs)
  {
    hide Enc;
    if vs == [] {
    } else {
      JoinedItems(vs[1..], parts[1..]);
      Associative(parts[0], Joined(parts[1..]), [CH_E]);
    }
  }

  /** The part of an entry whose value is written as `Enc` says. */
  function EntryPart(e: Entry): bytes {
    if e.val.VNil? then [] else EncStr(e.key) + Enc(e.val)
  }

  lemma {:induction false} JoinedEntries(es: seq<Entry>, parts: seq<bytes>)
    requires |parts| == |es| && forall i | 0 <= i < |es| :: parts[i] == EntryPart(es[i])
    ensures Joined(parts) + [CH_E] == EncChunks(EntryChunks(es))
  {
    hide Enc, EncStr;
    if es == [] {
    } else {
      JoinedEntries(es[1..], parts[1..]);
      Associative(parts[0], Joined(parts[1..]), [CH_E]);
      assert EntryChunks(es) == EntryChunk(es[0]) + EntryChunks(es[1..]);
      if es[0].val.VNil? {
        assert EntryChunks(es) == EntryChunks(es[1..]);
      } else {
        assert EntryChunks(es)[1..] == EntryChunks(es[1..]);
      }
    }
  }

  lemma {:induction false} JoinedChunks(dict: seq<Keyed<Value>>, parts: seq<bytes>)
    requires |parts| == |dict| && forall i | 0 <= i < |dict| :: parts[i] == EncStr(dict[i].key) + Enc(dict[i].item)
    ensures Joined(parts) + [CH_E] == EncChunks(Chunks(dict))
  {
    hide Enc, EncStr;
    if dict == [] {
    } else {
      JoinedChunks(dict[1..], parts[1..]);
      Associative(parts[0], Joined(parts[1..]), [CH_E]);
      assert Chunks(dict)[1..] == Chunks(dict[1..]);
    }
  }

  /** `Enc` is one of the texts. */
  lemma {:induction false} WritesEnc(v: Value)
    ensures Writes(v, Enc(v))
    decreases v
  {
    match v
    case VList(vs) => ItemsEnc(vs);
    case VDict(es) => EntriesEnc(es);
    case VStruct(fs) => FieldsEnc(fs);
    case _ =>
  }

  lemma {:induction false} ItemsEnc(vs: seq<Value>)
    ensures Writes(VList(vs), Enc(VList(vs)))
    decreases vs
  {
    hide EncItems;
    var parts := seq(|vs|, i requires 0 <= i < |vs| => Enc(vs[i]));
    forall i | 0 <= i < |vs| ensures Writes(vs[i], parts[i]) {
      WritesEnc(vs[i]);
    }
    JoinedItems(vs, parts);
    Associative([CH_L], Joined(parts), [CH_E]);
    assert WritesItems(vs, parts);
  }

  lemma {:induction false} EntriesEnc(es: seq<Entry>)
    ensures Writes(VDict(es), Enc(VDict(es)))
    decreases es
  {
    hide EncChunks, EntryChunks, EncStr;
    var parts := seq(|es|, i requires 0 <= i < |es| => EntryPart(es[i]));
    forall i | 0 <= i < |es| ensures WritesEntry(es[i], parts[i]) {
      EntryEnc(es[i]);
    }
    JoinedEntries(es, parts);
    Associative([CH_D], Joined(parts), [CH_E]);
    assert WritesEntries(es, parts);
  }

  lemma {:induction false} EntryEnc(e: Entry)
    ensures WritesEntry(e, EntryPart(e))
    decreases e
  {
    if !e.val.VNil? {
      WritesEnc(e.val);
    }
  }

  /** The part of a kept field whose value is written as `Enc` says. */
  function Word(x: Keyed<Value>): bytes {
    EncStr(x.key) + Enc(x.item)
  }

  function Words(dict: seq<Keyed<Value>>): (parts: seq<bytes>)
    ensures |parts| == |dict| && forall j | 0 <= j < |dict| :: parts[j] == Word(dict[j])
  {
    seq(|dict|, j requires 0 <= j < |dict| => Word(dict[j]))
  }

  /** Any sorted arrangement of the kept fields may be written. */
  lemma {:induction false} Arranged(fs: seq<FieldVal>, dict: seq<Keyed<Value>>)
    requires multiset(dict) == multiset(KeptFields(fs)) && NonDecreasing(dict)
    ensures WritesFields(fs, dict, Words(dict))
    ensures Writes(VStruct(fs), [CH_D] + Joined(Words(dict)) + [CH_E])
    decreases fs, 0
  {
    hide KeptFields, NonDecreasing, Word, Kept;
    forall j | 0 <= j < |dict| ensures WritesOne(fs, dict[j], Words(dict)[j]) {
      InMultiset(dict, KeptFields(fs), dict[j]);
      var k := KeptFrom(fs, dict[j]);
      FieldEnc(fs[k]);
    }
  }

  lemma {:induction false} FieldsEnc(fs: seq<FieldVal>)
    ensures Writes(VStruct(fs), Enc(VStruct(fs)))
    ensures Enc(VStruct(fs)) == [CH_D] + Joined(Words(Sort(KeptFields(fs)))) + [CH_E]
    decreases fs, 1
  {
    hide EncChunks, FieldChunks, KeptFields, Chunks, Sort, NonDecreasing, EncStr, Kept;
    var dict := Sort(KeptFields(fs));
    SortMultiset(KeptFields(fs));
    SortNonDecreasing(KeptFields(fs));
    Arranged(fs, dict);
    ChunksSort(KeptFields(fs));
    ChunksOfKept(fs);
    JoinedChunks(dict, Words(dict));
    Associative([CH_D], Joined(Words(dict)), [CH_E]);
  }

  lemma {:induction false} FieldEnc(f: FieldVal)
    ensures WritesField(f, Word(Keyed(f.field.name, f.val)))
    decreases f
  {
    WritesEnc(f.val);
  }

  // ---------- when it is the only one ----------

  /** Written one behind the other, the order of the two does not show. */
  predicate Commute(x: Keyed<Value>, y: Keyed<Value>) {
    Word(x) + Word(y) == Word(y) + Word(x)
  }

  /**
   * Values with a single text: where two fields of a struct that are both written have one name, their order
   * does not show.
   */
  predicate OneText(v: Value)
    decreases v
  {
    match v
    case VList(vs) => forall i | 0 <= i < |vs| :: OneText(vs[i])
    case VDict(es) => forall i | 0 <= i < |es| :: OneTextEntry(es[i])
    case VStruct(fs) => (forall i | 0 <= i < |fs| && Kept(fs[i]) :: OneTextField(fs[i])) && Harmonious(fs)
    case _ => true
  }

  predicate OneTextEntry(e: Entry)
    decreases e
  {
    OneText(e.val)
  }

  predicate OneTextField(f: FieldVal)
    decreases f
  {
    OneText(f.val)
  }

  predicate Harmonious(fs: seq<FieldVal>) {
    forall i, j | 0 <= i < j < |fs| && Kept(fs[i]) && Kept(fs[j]) && fs[i].field.name == fs[j].field.name ::
      Commute(Keyed(fs[i].field.name, fs[i].val), Keyed(fs[j].field.name, fs[j].val))
  }

  predicate Peaceful(xs: seq<Keyed<Value>>) {
    forall x, y | x in xs && y in xs && x.key == y.key :: Commute(x, y)
  }

  lemma PeacefulPart(xs: seq<Keyed<Value>>, ys: seq<Keyed<Value>>)
    requires Peaceful(xs) && forall y | y in ys :: y in xs
    ensures Peaceful(ys)
  {
    hide Commute;
  }

  /** The same, without looking at places. */
  lemma HarmoniousKept(fs: seq<FieldVal>)
    ensures Harmonious(fs) <==> Peaceful(KeptFields(fs))
  {
    hide KeptFields, Kept, Word;
    if Harmonious(fs) {
      forall x, y | x in KeptFields(fs) && y in KeptFields(fs) && x.key == y.key ensures Commute(x, y) {
        var i := KeptFrom(fs, x);
        var j := KeptFrom(fs, y);
      }
    } else {
      var i, j :| 0 <= i < j < |fs| && Kept(fs[i]) && Kept(fs[j]) && fs[i].field.name == fs[j].field.name
                  && !Commute(Keyed(fs[i].field.name, fs[i].val), Keyed(fs[j].field.name, fs[j].val));
      KeptHas(fs, i);
      KeptHas(fs, j);
    }
  }

  lemma {:induction false} KeptHas(fs: seq<FieldVal>, i: nat)
    requires i < |fs| && Kept(fs[i])
    ensures Keyed(fs[i].field.name, fs[i].val) in KeptFields(fs)
  {
    if i == 0 {
    } else {
      KeptHas(fs[1..], i - 1);
    }
  }

  // ---------- sorted arrangements with one text ----------

  lemma {:induction false} JoinedAppend(a: seq<bytes>, b: seq<bytes>)
    ensures Joined(a + b) == Joined(a) + Joined(b)
  {
    if a == [] {
      assert a + b == b;
    } else {
      assert (a + b)[0] == a[0] && (a + b)[1..] == a[1..] + b;
      JoinedAppend(a[1..], b);
      Associative(a[0], Joined(a[1..]), Joined(b));
    }
  }

  lemma WordsAppend(a: seq<Keyed<Value>>, b: seq<Keyed<Value>>)
    ensures Words(a + b) == Words(a) + Words(b)
    ensures Joined(Words(a + b)) == Joined(Words(a)) + Joined(Words(b))
  {
    hide Word;
    JoinedAppend(Words(a), Words(b));
  }

  lemma JoinedWord(x: Keyed<Value>)
    ensures Joined(Words([x])) == Word(x)
  {
    assert Words([x])[1..] == [];
  }

  /** An item that commutes with all in front of it can be written first. */
  lemma {:induction false} MoveFront(a: seq<Keyed<Value>>, x: Keyed<Value>)
    requires forall y | y in a :: Commute(y, x)
    ensures Joined(Words(a)) + Word(x) == Word(x) + Joined(Words(a))
  {
    hide Word;
    if a == [] {
      assert Words(a) == [] && [] + Word(x) == Word(x) + [];
    } else {
      MoveFront(a[1..], x);
      assert a == [a[0]] + a[1..];
      WordsAppend([a[0]], a[1..]);
      JoinedWord(a[0]);
      assert Commute(a[0], x);
      var w := Joined(Words(a[1..]));
      Associative(Word(a[0]), w, Word(x));
      Associative(Word(a[0]), Word(x), w);
      Associative(Word(x), Word(a[0]), w);
    }
  }

  /** What stands in front of `x` in a sorted list has its key, if `x` comes first in another one. */
  lemma SameKeys(xs: seq<Keyed<Value>>, ys: seq<Keyed<Value>>, p: nat, q: nat)
    requires NonDecreasing(xs) && NonDecreasing(ys) && multiset(xs) == multiset(ys)
    requires xs != [] && q < p < |ys| && ys[p] == xs[0]
    ensures ys[q].key == xs[0].key && ys[q] in xs
  {
    InMultiset(ys, xs, ys[q]);
    var i :| 0 <= i < |xs| && xs[i] == ys[q];
    LessIrreflexive(xs[0].key);
    LessTotal(xs[0].key, ys[q].key);
  }

  lemma SortedWithout(ys: seq<Keyed<Value>>, p: nat)
    requires NonDecreasing(ys) && p < |ys|
    ensures NonDecreasing(ys[..p] + ys[p + 1..])
  {
    hide Less;
  }

  /** All sorted arrangements are written alike when items of one key commute. */
  lemma {:induction false} SameText(xs: seq<Keyed<Value>>, ys: seq<Keyed<Value>>)
    requires multiset(xs) == multiset(ys) && NonDecreasing(xs) && NonDecreasing(ys) && Peaceful(xs)
    ensures Joined(Words(xs)) == Joined(Words(ys))
    decreases |xs|
  {
    hide NonDecreasing, Joined, Word, Words, Peaceful;
    if xs == [] {
      assert |multiset(ys)| == |ys|;
      assert ys == [];
    } else {
      InMultiset(xs, ys, xs[0]);
      var p :| 0 <= p < |ys| && ys[p] == xs[0];
      var rest := FirstOut(xs, ys, p);
      FirstToFront(xs, ys, p, rest);
      SameText(xs[1..], rest);
      FirstWord(xs);
    }
  }

  lemma FirstWord(xs: seq<Keyed<Value>>)
    requires xs != []
    ensures Joined(Words(xs)) == Word(xs[0]) + Joined(Words(xs[1..]))
  {
    hide Joined, Words, Word;
    assert xs == [xs[0]] + xs[1..];
    WordsAppend([xs[0]], xs[1..]);
    JoinedWord(xs[0]);
  }

  lemma SameRest(xs: seq<Keyed<Value>>, ys: seq<Keyed<Value>>, p: nat)
    requires multiset(xs) == multiset(ys) && xs != [] && p < |ys| && ys[p] == xs[0]
    ensures multiset(xs[1..]) == multiset(ys[..p] + ys[p + 1..])
  {
    TakeOut(ys, p);
    Behead(xs);
  }

  lemma FirstOut(xs: seq<Keyed<Value>>, ys: seq<Keyed<Value>>, p: nat) returns (rest: seq<Keyed<Value>>)
    requires multiset(xs) == multiset(ys) && NonDecreasing(xs) && NonDecreasing(ys) && Peaceful(xs)
    requires xs != [] && p < |ys| && ys[p] == xs[0]
    ensures rest == ys[..p] + ys[p + 1..] && multiset(xs[1..]) == multiset(rest)
    ensures NonDecreasing(xs[1..]) && NonDecreasing(rest) && Peaceful(xs[1..])
  {
    hide *;
    rest := ys[..p] + ys[p + 1..];
    SameRest(xs, ys, p);
    SortedWithout(ys, p);
    SortedWithout(xs, 0);
    assert xs[..0] + xs[1..] == xs[1..];
    PeacefulPart(xs, xs[1..]);
  }

  lemma FirstToFront(xs: seq<Keyed<Value>>, ys: seq<Keyed<Value>>, p: nat, rest: seq<Keyed<Value>>)
    requires multiset(xs) == multiset(ys) && NonDecreasing(xs) && NonDecreasing(ys)
    requires Peaceful(xs) && xs != [] && p < |ys| && ys[p] == xs[0]
    requires rest == ys[..p] + ys[p + 1..]
    ensures Joined(Words(ys)) == Word(xs[0]) + Joined(Words(rest))
  {
    hide NonDecreasing, Joined, Word, Words, Commute;
    forall y | y in ys[..p] ensures Commute(y, xs[0]) {
      var q :| 0 <= q < p && ys[q] == y;
      SameKeys(xs, ys, p, q);
    }
    MoveFront(ys[..p], xs[0]);
    FrontFirst(ys[..p], xs[0], ys[p + 1..]);
    TakeOut(ys, p);
  }

  lemma FrontFirst(a: seq<Keyed<Value>>, x: Keyed<Value>, b: seq<Keyed<Value>>)
    requires Joined(Words(a)) + Word(x) == Word(x) + Joined(Words(a))
    ensures Joined(Words(a + ([x] + b))) == Word(x) + Joined(Words(a + b))
  {
    hide Word, Words, Joined;
    WordsAppend(a, [x] + b);
    WordsAppend([x], b);
    WordsAppend(a, b);
    JoinedWord(x);
    var s, t := Joined(Words(a)), Joined(Words(b));
    assert s + (Word(x) + t) == s + Word(x) + t;
    assert Word(x) + s + t == Word(x) + (s + t);
  }

  // ---------- one text suffices ----------

  /** A value that has one text is written as `Enc` says. */
  lemma {:induction false} OneTextOnly(v: Value, b: bytes)
    requires OneText(v) && Writes(v, b)
    ensures b == Enc(v)
    decreases v
  {
    match v
    case VList(vs) => ItemsOnly(vs, b);
    case VDict(es) => EntriesOnly(es, b);
    case VStruct(fs) => FieldsOnly(fs, b);
    case _ =>
  }

  lemma {:induction false} ItemsOnly(vs: seq<Value>, b: bytes)
    requires OneText(VList(vs)) && Writes(VList(vs), b)
    ensures b == Enc(VList(vs))
    decreases vs
  {
    hide EncItems, Joined;
    var parts: seq<bytes> :| WritesItems(vs, parts) && b == [CH_L] + Joined(parts) + [CH_E];
    forall i | 0 <= i < |vs| ensures parts[i] == Enc(vs[i]) {
      OneTextOnly(vs[i], parts[i]);
    }
    JoinedItems(vs, parts);
    Associative([CH_L], Joined(parts), [CH_E]);
  }

  lemma {:induction false} EntriesOnly(es: seq<Entry>, b: bytes)
    requires OneText(VDict(es)) && Writes(VDict(es), b)
    ensures b == Enc(VDict(es))
    decreases es
  {
    hide EncChunks, EntryChunks, EncStr, Joined;
    var parts: seq<bytes> :| WritesEntries(es, parts) && b == [CH_D] + Joined(parts) + [CH_E];
    forall i | 0 <= i < |es| ensures parts[i] == EntryPart(es[i]) {
      EntryOnly(es[i], parts[i]);
    }
    JoinedEntries(es, parts);
    Associative([CH_D], Joined(parts), [CH_E]);
  }

  lemma {:induction false} EntryOnly(e: Entry, part: bytes)
    requires OneTextEntry(e) && WritesEntry(e, part)
    ensures part == EntryPart(e)
    decreases e
  {
    hide Enc, EncStr;
    if !e.val.VNil? {
      var b: bytes :| Writes(e.val, b) && part == EncStr(e.key) + b;
      OneTextOnly(e.val, b);
    }
  }

  lemma {:induction false} FieldsOnly(fs: seq<FieldVal>, b: bytes)
    requires OneText(VStruct(fs)) && Writes(VStruct(fs), b)
    ensures b == Enc(VStruct(fs))
    decreases fs
  {
    hide Enc, KeptFields, Sort, NonDecreasing, Word, Kept, Joined, Harmonious, Peaceful;
    var dict: seq<Keyed<Value>>, parts: seq<bytes> :|
      WritesFields(fs, dict, parts) && b == [CH_D] + Joined(parts) + [CH_E];
    forall j | 0 <= j < |dict| ensures parts[j] == Word(dict[j]) {
      assert WritesOne(fs, dict[j], parts[j]);
      var k :| 0 <= k < |fs| && dict[j] == Keyed(fs[k].field.name, fs[k].val) && WritesField(fs[k], parts[j]);
      InMultiset(dict, KeptFields(fs), dict[j]);
      var l := KeptFrom(fs, dict[j]);
      assert OneTextField(fs[l]);
      FieldOnly(fs[k], parts[j]);
    }
    assert parts == Words(dict);
    HarmoniousKept(fs);
    SortMultiset(KeptFields(fs));
    SortNonDecreasing(KeptFields(fs));
    forall x | x in dict ensures x in KeptFields(fs) {
      InMultiset(dict, KeptFields(fs), x);
    }
    PeacefulPart(KeptFields(fs), dict);
    SameText(dict, Sort(KeptFields(fs)));
    FieldsEnc(fs);
  }

  lemma {:induction false} FieldOnly(f: FieldVal, part: bytes)
    requires OneTextField(f) && WritesField(f, part)
    ensures part == Word(Keyed(f.field.name, f.val))
    decreases f
  {
    hide Enc, EncStr;
    var b: bytes :| Writes(f.val, b) && part == EncStr(f.field.name) + b;
    OneTextOnly(f.val, b);
  }

  // ---------- and is needed ----------

  /** `Enc` is the only text. */
  ghost predicate Determined(v: Value) {
    forall b: bytes | Writes(v, b) :: b == Enc(v)
  }

  /** Of two texts that differ in one part, the parts are equal if the texts are. */
  lemma JoinedCancel(head: bytes, parts: seq<bytes>, i: nat, part: bytes)
    requires i < |parts|
    requires head + Joined(parts[i := part]) + [CH_E] == head + Joined(parts) + [CH_E]
    ensures part == parts[i]
  {
    hide Joined;
    JoinedSplit(parts, i);
    JoinedSplit(parts[i := part], i);
    assert parts[i := part][..i] == parts[..i] && parts[i := part][i + 1..] == parts[i + 1..];
    var a, c := Joined(parts[..i]), Joined(parts[i + 1..]);
    Cancel(head, Joined(parts[i := part]), Joined(parts), [CH_E]);
    Cancel(a, part, parts[i], c);
  }

  lemma JoinedCons(part: bytes, parts: seq<bytes>)
    ensures Joined([part] + parts) == part + Joined(parts)
  {
    assert ([part] + parts)[1..] == parts;
  }

  lemma JoinedSplit(parts: seq<bytes>, i: nat)
    requires i < |parts|
    ensures Joined(parts) == Joined(parts[..i]) + parts[i] + Joined(parts[i + 1..])
  {
    hide Joined;
    TakeOut(parts, i);
    JoinedAppend(parts[..i], [parts[i]] + parts[i + 1..]);
    JoinedCons(parts[i], parts[i + 1..]);
    Associative(Joined(parts[..i]), parts[i], Joined(parts[i + 1..]));
  }

  lemma Cancel(front: bytes, a: bytes, b: bytes, back: bytes)
    requires front + a + back == front + b + back
    ensures a == b
  {
    assert |a| == |b|;
    assert a == (front + a + back)[|front|..|front| + |a|];
    assert b == (front + b + back)[|front|..|front| + |b|];
  }

  lemma {:induction false} OneTextNeeded(v: Value)
    requires Determined(v)
    ensures OneText(v)
    decreases v
  {
    match v
    case VList(vs) =>
      forall i | 0 <= i < |vs| ensures OneText(vs[i]) {
        ItemNeeded(vs, i);
        OneTextNeeded(vs[i]);
      }
    case VDict(es) =>
      forall i | 0 <= i < |es| ensures OneTextEntry(es[i]) {
        EntryNeeded(es, i);
        assert (es decreases to es[i]) && (es[i] decreases to es[i].val);
        OneTextNeeded(es[i].val);
      }
    case VStruct(fs) =>
      forall i | 0 <= i < |fs| && Kept(fs[i]) ensures OneTextField(fs[i]) {
        FieldNeeded(fs, i);
        assert (fs decreases to fs[i]) && (fs[i] decreases to fs[i].val);
        OneTextNeeded(fs[i].val);
      }
      HarmonyNeeded(fs);
    case _ =>
  }

  lemma ItemNeeded(vs: seq<Value>, i: nat)
    requires Determined(VList(vs)) && i < |vs|
    ensures Determined(vs[i])
  {
    hide Enc, Joined;
    var parts := seq(|vs|, k requires 0 <= k < |vs| => Enc(vs[k]));
    forall k | 0 <= k < |vs| ensures Writes(vs[k], parts[k]) {
      WritesEnc(vs[k]);
    }
    assert WritesItems(vs, parts);
    assert Writes(VList(vs), [CH_L] + Joined(parts) + [CH_E]);
    forall b: bytes | Writes(vs[i], b) ensures b == Enc(vs[i]) {
      assert WritesItems(vs, parts[i := b]);
      assert Writes(VList(vs), [CH_L] + Joined(parts[i := b]) + [CH_E]);
      JoinedCancel([CH_L], parts, i, b);
    }
  }

  lemma EntryNeeded(es: seq<Entry>, i: nat)
    requires Determined(VDict(es)) && i < |es|
    ensures Determined(es[i].val)
  {
    hide Enc, Joined, EncStr;
    var parts := seq(|es|, k requires 0 <= k < |es| => EntryPart(es[k]));
    forall k | 0 <= k < |es| ensures WritesEntry(es[k], parts[k]) {
      EntryEnc(es[k]);
    }
    assert WritesEntries(es, parts);
    assert Writes(VDict(es), [CH_D] + Joined(parts) + [CH_E]);
    forall b: bytes | Writes(es[i].val, b) ensures b == Enc(es[i].val) {
      if es[i].val.VNil? {
        NilText(es[i].val, b);
      } else {
        var part := EncStr(es[i].key) + b;
        assert WritesEntry(es[i], part);
        assert WritesEntries(es, parts[i := part]);
        assert Writes(VDict(es), [CH_D] + Joined(parts[i := part]) + [CH_E]);
        JoinedCancel([CH_D], parts, i, part);
        Cancel(EncStr(es[i].key), b, Enc(es[i].val), []);
      }
    }
  }

  lemma NilText(v: Value, b: bytes)
    requires v.VNil? && Writes(v, b)
    ensures b == Enc(v)
  {
  }

  lemma FieldNeeded(fs: seq<FieldVal>, i: nat)
    requires Determined(VStruct(fs)) && i < |fs| && Kept(fs[i])
    ensures Determined(fs[i].val)
  {
    hide Enc, Joined, EncStr, Sort, KeptFields, NonDecreasing, Kept, WritesField;
    var x, dict := Keyed(fs[i].field.name, fs[i].val), Sort(KeptFields(fs));
    SortMultiset(KeptFields(fs));
    SortNonDecreasing(KeptFields(fs));
    KeptHas(fs, i);
    InMultiset(dict, KeptFields(fs), x);
    var j :| 0 <= j < |dict| && dict[j] == x;
    var parts := Words(dict);
    Arranged(fs, dict);
    forall b: bytes | Writes(fs[i].val, b) ensures b == Enc(fs[i].val) {
      var part := EncStr(x.key) + b;
      FieldText(fs[i], b);
      assert WritesOne(fs, dict[j], part);
      assert WritesFields(fs, dict, parts[j := part]);
      StructText(fs, dict, parts[j := part]);
      JoinedCancel([CH_D], parts, j, part);
      assert EncStr(x.key) + b + [] == EncStr(x.key) + Enc(x.item) + [];
      Cancel(EncStr(x.key), b, Enc(x.item), []);
    }
  }

  lemma FieldText(f: FieldVal, b: bytes)
    requires Writes(f.val, b)
    ensures WritesField(f, EncStr(f.field.name) + b)
  {
  }

  lemma StructText(fs: seq<FieldVal>, dict: seq<Keyed<Value>>, parts: seq<bytes>)
    requires WritesFields(fs, dict, parts)
    ensures Writes(VStruct(fs), [CH_D] + Joined(parts) + [CH_E])
  {
    hide Joined, WritesFields;
  }

  /** Two items of one key are inserted side by side, in either order. */
  lemma {:induction false} InsertTwo(x: Keyed<Value>, y: Keyed<Value>, xs: seq<Keyed<Value>>)
      returns (a: seq<Keyed<Value>>, b: seq<Keyed<Value>>)
    requires x.key == y.key
    ensures Insert(x, Insert(y, xs)) == a + [x, y] + b && Insert(y, Insert(x, xs)) == a + [y, x] + b
  {
    LessIrreflexive(x.key);
    if xs == [] || !Less(xs[0].key, x.key) {
      a, b := [], xs;
    } else {
      a, b := InsertTwo(x, y, xs[1..]);
      a := [xs[0]] + a;
      assert Insert(y, xs)[1..] == Insert(y, xs[1..]) && Insert(x, xs)[1..] == Insert(x, xs[1..]);
    }
  }

  lemma HarmonyNeeded(fs: seq<FieldVal>)
    requires Determined(VStruct(fs))
    ensures Harmonious(fs)
  {
    hide KeptFields, Harmonious, Commute, Determined;
    HarmoniousKept(fs);
    var xs := KeptFields(fs);
    forall x, y | x in xs && y in xs && x.key == y.key ensures Commute(x, y) {
      if x == y {
        Itself(x);
      } else {
        PairNeeded(fs, x, y);
      }
    }
  }

  lemma Itself(x: Keyed<Value>)
    ensures Commute(x, x)
  {
  }

  /** Two kept fields of one name can be written side by side in either order. */
  lemma PairNeeded(fs: seq<FieldVal>, x: Keyed<Value>, y: Keyed<Value>)
    requires Determined(VStruct(fs)) && x in KeptFields(fs) && y in KeptFields(fs) && x != y && x.key == y.key
    ensures Commute(x, y)
  {
    hide KeptFields, NonDecreasing, Writes, Joined, Word, Words, Enc, WritesFields;
    var a, b := TwoArrangements(KeptFields(fs), x, y);
    Arranged(fs, a + [x, y] + b);
    Arranged(fs, a + [y, x] + b);
    Swapped(a, x, y, b);
  }

  lemma Swapped(a: seq<Keyed<Value>>, x: Keyed<Value>, y: Keyed<Value>, b: seq<Keyed<Value>>)
    requires [CH_D] + Joined(Words(a + [x, y] + b)) + [CH_E] == [CH_D] + Joined(Words(a + [y, x] + b)) + [CH_E]
    ensures Commute(x, y)
  {
    hide Joined, Word, Words;
    SideBySide(a, x, y, b);
    SideBySide(a, y, x, b);
    Cancel([CH_D], Joined(Words(a + [x, y] + b)), Joined(Words(a + [y, x] + b)), [CH_E]);
    Cancel(Joined(Words(a)), Word(x) + Word(y), Word(y) + Word(x), Joined(Words(b)));
  }

  function Without(xs: seq<Keyed<Value>>, x: Keyed<Value>): (ys: seq<Keyed<Value>>)
    requires x in xs
    ensures multiset(xs) == multiset(ys) + multiset{x}
  {
    assert xs == [xs[0]] + xs[1..];
    if xs[0] == x then xs[1..] else [xs[0]] + Without(xs[1..], x)
  }

  /** A sorted arrangement with the two side by side, and the same one with the two exchanged. */
  lemma TwoArrangements(xs: seq<Keyed<Value>>, x: Keyed<Value>, y: Keyed<Value>)
      returns (a: seq<Keyed<Value>>, b: seq<Keyed<Value>>)
    requires x in xs && y in xs && x != y && x.key == y.key
    ensures NonDecreasing(a + [x, y] + b) && multiset(a + [x, y] + b) == multiset(xs)
    ensures NonDecreasing(a + [y, x] + b) && multiset(a + [y, x] + b) == multiset(xs)
  {
    hide Insert, NonDecreasing;
    var zs := SortedRest(xs, x, y);
    InsertBoth(x, y, zs);
    InsertBoth(y, x, zs);
    a, b := InsertTwo(x, y, zs);
  }

  lemma SortedRest(xs: seq<Keyed<Value>>, x: Keyed<Value>, y: Keyed<Value>) returns (zs: seq<Keyed<Value>>)
    requires x in xs && y in xs && x != y
    ensures NonDecreasing(zs)
    ensures multiset(xs) == multiset(zs) + multiset{x} + multiset{y}
  {
    hide Sort, NonDecreasing, Without;
    var one := Without(xs, x);
    assert y in multiset(xs);
    var rest := Without(one, y);
    zs := Sort(rest);
    SortNonDecreasing(rest);
    SortMultiset(rest);
  }

  lemma InsertBoth(x: Keyed<Value>, y: Keyed<Value>, zs: seq<Keyed<Value>>)
    requires NonDecreasing(zs)
    ensures var dict := Insert(x, Insert(y, zs));
            NonDecreasing(dict) && multiset(dict) == multiset(zs) + multiset{x} + multiset{y}
  {
    hide Insert, NonDecreasing;
    NonDecreasingInsert(y, zs);
    NonDecreasingInsert(x, Insert(y, zs));
    InsertMultiset(y, zs);
    InsertMultiset(x, Insert(y, zs));
  }

  lemma SideBySide(a: seq<Keyed<Value>>, x: Keyed<Value>, y: Keyed<Value>, b: seq<Keyed<Value>>)
    ensures Joined(Words(a + [x, y] + b)) == Joined(Words(a)) + (Word(x) + Word(y)) + Joined(Words(b))
  {
    hide Joined, Words, Word;
    WordsAppend(a + [x, y], b);
    WordsAppend(a, [x, y]);
    JoinedTwo(x, y);
  }

  /**
   * Exactly when the text of a value is determined, for every value: where two fields that are written have
   * one name, in any struct at any depth that is written, their order does not show.
   */
  lemma DeterminedExactly(v: Value)
    ensures Determined(v) <==> OneText(v)
  {
    hide OneText, Writes, Enc;
    if OneText(v) {
      forall b: bytes | Writes(v, b) ensures b == Enc(v) {
        OneTextOnly(v, b);
      }
    } else if Determined(v) {
      OneTextNeeded(v);
    }
  }

  /** For writable values the order does not show exactly when the two texts are equal. */
  lemma CommuteExactly(x: Keyed<Value>, y: Keyed<Value>)
    requires x.key == y.key && Writable(x.item) && Writable(y.item) && !x.item.VNil? && !y.item.VNil?
    ensures Commute(x, y) <==> Enc(x.item) == Enc(y.item)
  {
    hide EncStr, Enc, Fits;
    var k, a, b := EncStr(x.key), Enc(x.item), Enc(y.item);
    if Commute(x, y) {
      assert k + (a + (k + b)) == k + (b + (k + a)) by {
        assert k + a + (k + b) == k + (a + (k + b));
        assert k + b + (k + a) == k + (b + (k + a));
      }
      DropFirst(k, a + (k + b));
      DropFirst(k, b + (k + a));
      ScanEnc(x.item, k + b);
      ScanEnc(y.item, k + a);
      DropFirst(a, k + b);
      DropFirst(b, k + a);
      assert a + (k + b) == b + (k + a);
      assert |a| == |b|;
      assert a == b;
    }
  }

  /** Distinct names are enough. */
  lemma {:induction false} RegularOneText(v: Value)
    requires Regular(v)
    ensures OneText(v)
    decreases v
  {
    match v
    case VList(vs) =>
      forall i | 0 <= i < |vs| ensures OneText(vs[i]) {
        RegularOneText(vs[i]);
      }
    case VDict(es) =>
      forall i | 0 <= i < |es| ensures OneTextEntry(es[i]) {
        assert RegularEntry(es[i]) && (es decreases to es[i]) && (es[i] decreases to es[i].val);
        RegularOneText(es[i].val);
      }
    case VStruct(fs) =>
      forall i | 0 <= i < |fs| && Kept(fs[i]) ensures OneTextField(fs[i]) {
        assert RegularField(fs[i]) && (fs decreases to fs[i]) && (fs[i] decreases to fs[i].val);
        RegularOneText(fs[i].val);
      }
    case _ =>
  }

  /** Where the names in every struct are distinct, `Enc` is the only text. */
  lemma WritesExactly(v: Value, b: bytes)
    requires Regular(v)
    ensures Writes(v, b) <==> b == Enc(v)
  {
    hide Writes, Regular, OneText, Enc;
    WritesEnc(v);
    RegularOneText(v);
    if Writes(v, b) {
      OneTextOnly(v, b);
    }
  }

  /** Two fields named `a`, holding 1 and 2, in both orders. */
  lemma TwoTextsExample()
    ensures var f := Field([97], false, TInt(W64));
            var v := VStruct([FieldVal(f, VInt(1)), FieldVal(f, VInt(2))]);
            var one, two := [49, COLON, 97, CH_I, 49, CH_E], [49, COLON, 97, CH_I, 50, CH_E];
            && Writes(v, [CH_D] + (one + two) + [CH_E])
            && Writes(v, [CH_D] + (two + one) + [CH_E])
            && [CH_D] + (one + two) + [CH_E] != [CH_D] + (two + one) + [CH_E]
  {
    var f := Field([97], false, TInt(W64));
    var fs := [FieldVal(f, VInt(1)), FieldVal(f, VInt(2))];
    var a, b := Keyed([97], VInt(1)), Keyed([97], VInt(2));
    var one, two := [49, COLON, 97, CH_I, 49, CH_E], [49, COLON, 97, CH_I, 50, CH_E];
    assert Word(a) == one && Word(b) == two by {
      assert Digits(1) == [49] && Digits(2) == [50];
    }
    TwoFields(fs, a, b);
    var left, right := [CH_D] + (one + two) + [CH_E], [CH_D] + (two + one) + [CH_E];
    assert left[5] == 49 && right[5] == 50;
  }

  lemma TwoFields(fs: seq<FieldVal>, a: Keyed<Value>, b: Keyed<Value>)
    requires |fs| == 2 && fs[0].val.VInt? && fs[1].val.VInt? && !fs[0].field.omit && !fs[1].field.omit
    requires a == Keyed(fs[0].field.name, fs[0].val) && b == Keyed(fs[1].field.name, fs[1].val) && a.key == b.key
    ensures Writes(VStruct(fs), [CH_D] + (Word(a) + Word(b)) + [CH_E])
    ensures Writes(VStruct(fs), [CH_D] + (Word(b) + Word(a)) + [CH_E])
  {
    hide Word, Words, Joined, Less, Writes, NonDecreasing, WritesFields;
    KeptTwo(fs, a, b);
    Twins(a, b);
    Twins(b, a);
    Arranged(fs, [a, b]);
    Arranged(fs, [b, a]);
    JoinedTwo(a, b);
    JoinedTwo(b, a);
  }

  lemma {:induction false} KeptTwo(fs: seq<FieldVal>, a: Keyed<Value>, b: Keyed<Value>)
    requires |fs| == 2 && fs[0].val.VInt? && fs[1].val.VInt? && !fs[0].field.omit && !fs[1].field.omit
    requires a == Keyed(fs[0].field.name, fs[0].val) && b == Keyed(fs[1].field.name, fs[1].val)
    ensures KeptFields(fs) == [a, b] && multiset([b, a]) == multiset([a, b])
  {
    assert fs[1..][0] == fs[1] && fs[1..][1..] == [];
    assert KeptFields(fs[1..]) == [b];
  }

  lemma Twins(a: Keyed<Value>, b: Keyed<Value>)
    requires a.key == b.key
    ensures NonDecreasing([a, b])
  {
    LessIrreflexive(a.key);
  }

  lemma JoinedTwo(a: Keyed<Value>, b: Keyed<Value>)
    ensures Joined(Words([a, b])) == Word(a) + Word(b)
  {
    hide Joined, Words, Word;
    assert [a, b] == [a] + [b];
    WordsAppend([a], [b]);
    JoinedWord(a);
    JoinedWord(b);
  }
}
