/** Encoding (bencode/encode.go) as a function, and the syntax tree an encodable value is printed as. */
module Encode {
  import opened Bytes
  import opened Numerals
  import opened Syntax
  import opened Values
  import opened Sorting
  import opened Decode

  // ---------- the encoder ----------

  function EncStr(s: bytes): bytes {
    FormatInt(|s|) + [COLON] + s
  }

  function EncInt(i: int): bytes {
    [CH_I] + FormatInt(i) + [CH_E]
  }

  /** isEmptyValue. A field behind a pointer or interface is empty only when nil. */
  predicate IsEmpty(t: Type, v: Value) {
    match t
    case TAny => v.VNil?
    case TPtr(_) => v.VNil?
    case TStruct(_) => false
    case _ =>
      match v
      case VInt(i) => i == 0
      case VBool(b) => !b
      case VStr(s) => s == []
      case VRaw(raw) => raw == []
      case VList(vs) => vs == []
      case VDict(es) => es == []
      case _ => false
  }

  /** Whether readStruct keeps a field. */
  predicate Kept(f: FieldVal) {
    !f.val.VNil? && !(f.field.omit && IsEmpty(f.field.typ, f.val))
  }

  /** encode: nil writes nothing, a raw message is copied. */
  function Enc(v: Value): bytes
    decreases v
  {
    match v
    case VNil => []
    case VInt(i) => EncInt(i)
    case VBool(b) => EncInt(if b then 1 else 0)
    case VStr(s) => EncStr(s)
    case VRaw(raw) => raw
    case VList(vs) => [CH_L] + EncItems(vs)
    case VDict(es) => [CH_D] + EncChunks(EntryChunks(es))
    case VStruct(fs) => [CH_D] + EncChunks(Sort(FieldChunks(fs)))
  }

  function EncItems(vs: seq<Value>): bytes
    decreases vs
  {
    if vs == [] then [CH_E] else Enc(vs[0]) + EncItems(vs[1..])
  }

  /** The entries of a map that are not nil, values encoded. */
  function EntryChunks(es: seq<Entry>): seq<Keyed<bytes>>
    decreases es
  {
    if es == [] then []
    else EntryChunk(es[0]) + EntryChunks(es[1..])
  }

  function EntryChunk(e: Entry): seq<Keyed<bytes>>
    decreases e
  {
    if e.val.VNil? then [] else [Keyed(e.key, Enc(e.val))]
  }

  /** The fields readStruct keeps, in field order, values encoded. */
  function FieldChunks(fs: seq<FieldVal>): seq<Keyed<bytes>>
    decreases fs
  {
    if fs == [] then []
    else FieldChunk(fs[0]) + FieldChunks(fs[1..])
  }

  function FieldChunk(f: FieldVal): seq<Keyed<bytes>>
    decreases f
  {
    if Kept(f) then [Keyed(f.field.name, Enc(f.val))] else []
  }

  function EncChunks(cs: seq<Keyed<bytes>>): bytes {
    if cs == [] then [CH_E] else EncStr(cs[0].key) + cs[0].item + EncChunks(cs[1..])
  }

  // ---------- encodable values ----------

  const MAX_LEN: int := 0x8000_0000

  predicate NamesDistinct(fs: seq<FieldVal>) {
    forall i, j | 0 <= i < j < |fs| :: fs[i].field.name != fs[j].field.name
  }

  /**
   * Values whose text is that of a tree: strings and keys are shorter than `max`, and raw messages are one
   * whole value. What is not written does not matter. With `distinct`, field names are distinct as well.
   */
  predicate Fits(v: Value, max: int, distinct: bool)
    decreases v
  {
    match v
    case VNil => true
    case VInt(_) => true
    case VBool(_) => true
    case VStr(s) => |s| < max
    case VRaw(raw) => Scan(raw, true).Done? && Scan(raw, true).n == |raw|
    case VList(vs) => FitsItems(vs, max, distinct)
    case VDict(es) => FitsEntries(es, max, distinct)
    case VStruct(fs) => (distinct ==> NamesDistinct(fs)) && FitsFields(fs, max, distinct)
  }

  predicate FitsItems(vs: seq<Value>, max: int, distinct: bool)
    decreases vs
  {
    vs == [] || (Fits(vs[0], max, distinct) && FitsItems(vs[1..], max, distinct))
  }

  predicate FitsEntry(e: Entry, max: int, distinct: bool)
    decreases e
  {
    !e.val.VNil? ==> |e.key| < max && Fits(e.val, max, distinct)
  }

  predicate FitsEntries(es: seq<Entry>, max: int, distinct: bool)
    decreases es
  {
    es == [] || (FitsEntry(es[0], max, distinct) && FitsEntries(es[1..], max, distinct))
  }

  predicate FitsField(f: FieldVal, max: int, distinct: bool)
    decreases f
  {
    Kept(f) ==> |f.field.name| < max && Fits(f.val, max, distinct)
  }

  predicate FitsFields(fs: seq<FieldVal>, max: int, distinct: bool)
    decreases fs
  {
    fs == [] || (FitsField(fs[0], max, distinct) && FitsFields(fs[1..], max, distinct))
  }

  /** Values the scanner reads back: no string in Go is longer. */
  predicate Writable(v: Value) {
    Fits(v, HALF64, false)
  }

  /** Values whose strings the decoder reads, which parses their lengths in 32 bits. */
  predicate Readable(v: Value) {
    Fits(v, MAX_LEN, false)
  }

  /** Values the decoder gives back: every field has a key of its own. */
  predicate Encodable(v: Value) {
    Fits(v, MAX_LEN, true)
  }

  predicate EncodableItems(vs: seq<Value>) {
    FitsItems(vs, MAX_LEN, true)
  }

  predicate EncodableEntry(e: Entry) {
    FitsEntry(e, MAX_LEN, true)
  }

  predicate EncodableEntries(es: seq<Entry>) {
    FitsEntries(es, MAX_LEN, true)
  }

  predicate EncodableField(f: FieldVal) {
    FitsField(f, MAX_LEN, true)
  }

  predicate EncodableFields(fs: seq<FieldVal>) {
    FitsFields(fs, MAX_LEN, true)
  }

  lemma {:induction false} FitsMore(v: Value, max: int, max': int, distinct: bool)
    requires Fits(v, max, distinct) && max <= max'
    ensures Fits(v, max', false)
    decreases v
  {
    match v
    case VList(vs) => FitsMoreItems(vs, max, max', distinct);
    case VDict(es) => FitsMoreEntries(es, max, max', distinct);
    case VStruct(fs) => FitsMoreFields(fs, max, max', distinct);
    case _ =>
  }

  lemma {:induction false} FitsMoreItems(vs: seq<Value>, max: int, max': int, distinct: bool)
    requires FitsItems(vs, max, distinct) && max <= max'
    ensures FitsItems(vs, max', false)
    decreases vs
  {
    if vs == [] {
    } else {
      FitsMore(vs[0], max, max', distinct);
      FitsMoreItems(vs[1..], max, max', distinct);
    }
  }

  lemma {:induction false} FitsMoreEntry(e: Entry, max: int, max': int, distinct: bool)
    requires FitsEntry(e, max, distinct) && max <= max'
    ensures FitsEntry(e, max', false)
    decreases e
  {
    if !e.val.VNil? {
      FitsMore(e.val, max, max', distinct);
    }
  }

  lemma {:induction false} FitsMoreEntries(es: seq<Entry>, max: int, max': int, distinct: bool)
    requires FitsEntries(es, max, distinct) && max <= max'
    ensures FitsEntries(es, max', false)
    decreases es
  {
    if es == [] {
    } else {
      FitsMoreEntry(es[0], max, max', distinct);
      FitsMoreEntries(es[1..], max, max', distinct);
    }
  }

  lemma {:induction false} FitsMoreField(f: FieldVal, max: int, max': int, distinct: bool)
    requires FitsField(f, max, distinct) && max <= max'
    ensures FitsField(f, max', false)
    decreases f
  {
    if Kept(f) {
      FitsMore(f.val, max, max', distinct);
    }
  }

  lemma {:induction false} FitsMoreFields(fs: seq<FieldVal>, max: int, max': int, distinct: bool)
    requires FitsFields(fs, max, distinct) && max <= max'
    ensures FitsFields(fs, max', false)
    decreases fs
  {
    if fs == [] {
    } else {
      FitsMoreField(fs[0], max, max', distinct);
      FitsMoreFields(fs[1..], max, max', distinct);
    }
  }

  lemma EncodableWritable(v: Value)
    requires Encodable(v)
    ensures Writable(v)
  {
    FitsMore(v, MAX_LEN, HALF64, true);
  }

  // ---------- the tree behind the text ----------

  function TreeOf(v: Value): Tree
    decreases v
  {
    match v
    case VNil => IntLit([])
    case VInt(i) => IntLit(FormatInt(i))
    case VBool(b) => IntLit(FormatInt(if b then 1 else 0))
    case VStr(s) => StrLit(FormatInt(|s|), s)
    case VRaw(raw) =>
      (match Scan(raw, true)
       case Fail => IntLit([])
       case Done(tree, _) => tree)
    case VList(vs) => ListLit(ItemTrees(vs))
    case VDict(es) => DictLit(ToPairs(EntryTrees(es)))
    case VStruct(fs) => DictLit(ToPairs(Sort(FieldTrees(fs))))
  }

  function ItemTrees(vs: seq<Value>): seq<Tree>
    decreases vs
  {
    if vs == [] then []
    else if vs[0].VNil? then ItemTrees(vs[1..])
    else [TreeOf(vs[0])] + ItemTrees(vs[1..])
  }

  function EntryTrees(es: seq<Entry>): seq<Keyed<Tree>>
    decreases es
  {
    if es == [] then [] else EntryTree(es[0]) + EntryTrees(es[1..])
  }

  function EntryTree(e: Entry): seq<Keyed<Tree>>
    decreases e
  {
    if e.val.VNil? then [] else [Keyed(e.key, TreeOf(e.val))]
  }

  function FieldTrees(fs: seq<FieldVal>): seq<Keyed<Tree>>
    decreases fs
  {
    if fs == [] then [] else FieldTree(fs[0]) + FieldTrees(fs[1..])
  }

  function FieldTree(f: FieldVal): seq<Keyed<Tree>>
    decreases f
  {
    if Kept(f) then [Keyed(f.field.name, TreeOf(f.val))] else []
  }

  function ToPair(x: Keyed<Tree>): Pair {
    Pair(FormatInt(|x.key|), x.key, x.item)
  }

  function ToPairs(xs: seq<Keyed<Tree>>): seq<Pair> {
    if xs == [] then [] else [ToPair(xs[0])] + ToPairs(xs[1..])
  }

  // ---------- the text is the text of that tree ----------

  function Texts(xs: seq<Keyed<Tree>>): seq<Keyed<bytes>> {
    if xs == [] then [] else [Keyed(xs[0].key, Show(xs[0].item))] + Texts(xs[1..])
  }

  lemma {:induction false} TextsAppend(xs: seq<Keyed<Tree>>, ys: seq<Keyed<Tree>>)
    ensures Texts(xs + ys) == Texts(xs) + Texts(ys)
  {
    if xs == [] {
      assert xs + ys == ys;
    } else {
      assert (xs + ys)[1..] == xs[1..] + ys;
      TextsAppend(xs[1..], ys);
    }
  }

  lemma {:induction false} TextsInsert(x: Keyed<Tree>, xs: seq<Keyed<Tree>>)
    ensures Texts(Insert(x, xs)) == Insert(Keyed(x.key, Show(x.item)), Texts(xs))
  {
    if xs == [] || !Less(xs[0].key, x.key) {
      assert ([x] + xs)[1..] == xs;
    } else {
      TextsInsert(x, xs[1..]);
      assert Insert(x, xs)[1..] == Insert(x, xs[1..]);
      assert Texts(xs)[1..] == Texts(xs[1..]);
    }
  }

  lemma {:induction false} TextsSort(xs: seq<Keyed<Tree>>)
    ensures Texts(Sort(xs)) == Sort(Texts(xs))
  {
    if xs == [] {
    } else {
      TextsSort(xs[1..]);
      TextsInsert(xs[0], Sort(xs[1..]));
      assert Texts(xs)[1..] == Texts(xs[1..]);
    }
  }

  lemma {:induction false} ShowToPairs(xs: seq<Keyed<Tree>>)
    ensures ShowPairs(ToPairs(xs)) == EncChunks(Texts(xs))
  {
    if xs == [] {
    } else {
      ShowToPairs(xs[1..]);
      assert ToPairs(xs)[1..] == ToPairs(xs[1..]);
      assert Texts(xs)[1..] == Texts(xs[1..]);
    }
  }

  /** A keyed tree whose pair the scanner reads. */
  predicate PairReady(x: Keyed<Tree>) {
    |x.key| < HALF64 && Lexical(x.item, true)
  }

  predicate PairsReady(xs: seq<Keyed<Tree>>) {
    forall x | x in xs :: PairReady(x)
  }

  lemma FormatIntLexical(i: int)
    ensures CH_E !in FormatInt(i) && COLON !in FormatInt(i) && FormatInt(i)[0] != CH_E
    ensures i >= 0 ==> IsDigit(FormatInt(i)[0])
  {
    assert !IsDigit(CH_E) && !IsDigit(COLON);
  }

  lemma LenOfString(n: nat)
    requires n < MAX_LEN
    ensures LenValid(FormatInt(n)) && ParseInt(FormatInt(n), HALF64).value == n
  {
    ParseIntFormatInt(n, HALF32);
    ParseIntFormatInt(n, HALF64);
  }

  lemma ToPairLexical(x: Keyed<Tree>)
    requires PairReady(x)
    ensures LexicalPair(ToPair(x), true)
  {
    FormatIntLexical(|x.key|);
    ParseIntFormatInt(|x.key|, HALF64);
  }

  lemma {:induction false} ToPairsLexical(xs: seq<Keyed<Tree>>)
    requires PairsReady(xs)
    ensures LexicalPairs(ToPairs(xs), true)
  {
    if xs == [] {
    } else {
      ToPairLexical(xs[0]);
      ToPairsLexical(xs[1..]);
      assert ToPairs(xs)[1..] == ToPairs(xs[1..]);
    }
  }

  /** What the encoder writes is the text of a lexical tree. */
  lemma {:induction false} EncIsShow(v: Value)
    requires Writable(v) && !v.VNil?
    ensures Enc(v) == Show(TreeOf(v)) && Lexical(TreeOf(v), true)
    decreases v
  {
    match v
    case VInt(i) => FormatIntLexical(i);
    case VBool(b) => FormatIntLexical(if b then 1 else 0);
    case VStr(s) =>
      FormatIntLexical(|s|);
      ParseIntFormatInt(|s|, HALF64);
    case VRaw(raw) =>
      ScanSound(raw, true);
      assert raw[..|raw|] == raw;
    case VList(vs) => EncItemsIsShow(vs);
    case VDict(es) =>
      EntriesAreTexts(es);
      ShowToPairs(EntryTrees(es));
      ToPairsLexical(EntryTrees(es));
    case VStruct(fs) =>
      FieldsAreTexts(fs);
      StructIsShow(FieldTrees(fs));
  }

  lemma StructIsShow(xs: seq<Keyed<Tree>>)
    requires PairsReady(xs)
    ensures EncChunks(Sort(Texts(xs))) == ShowPairs(ToPairs(Sort(xs)))
    ensures LexicalPairs(ToPairs(Sort(xs)), true)
  {
    TextsSort(xs);
    ShowToPairs(Sort(xs));
    SortMultiset(xs);
    forall x | x in Sort(xs) ensures PairReady(x) {
      InMultiset(Sort(xs), xs, x);
    }
    ToPairsLexical(Sort(xs));
  }

  lemma {:induction false} EncItemsIsShow(vs: seq<Value>)
    requires FitsItems(vs, HALF64, false)
    ensures EncItems(vs) == ShowItems(ItemTrees(vs)) && LexicalItems(ItemTrees(vs), true)
    decreases vs
  {
    if vs == [] {
    } else {
      EncItemsIsShow(vs[1..]);
      if vs[0].VNil? {
        assert EncItems(vs) == EncItems(vs[1..]);
      } else {
        EncIsShow(vs[0]);
        ItemsCons(TreeOf(vs[0]), ItemTrees(vs[1..]), true);
      }
    }
  }

  lemma {:induction false} EntriesAreTexts(es: seq<Entry>)
    requires FitsEntries(es, HALF64, false)
    ensures EntryChunks(es) == Texts(EntryTrees(es)) && PairsReady(EntryTrees(es))
    decreases es
  {
    if es == [] {
    } else {
      EntryIsText(es[0]);
      EntriesAreTexts(es[1..]);
      TextsAppend(EntryTree(es[0]), EntryTrees(es[1..]));
    }
  }

  lemma {:induction false} EntryIsText(e: Entry)
    requires FitsEntry(e, HALF64, false)
    ensures EntryChunk(e) == Texts(EntryTree(e)) && PairsReady(EntryTree(e))
    decreases e
  {
    if !e.val.VNil? {
      EncIsShow(e.val);
    }
  }

  lemma {:induction false} FieldsAreTexts(fs: seq<FieldVal>)
    requires FitsFields(fs, HALF64, false)
    ensures FieldChunks(fs) == Texts(FieldTrees(fs)) && PairsReady(FieldTrees(fs))
    decreases fs
  {
    if fs == [] {
    } else {
      FieldIsText(fs[0]);
      FieldsAreTexts(fs[1..]);
      TextsAppend(FieldTree(fs[0]), FieldTrees(fs[1..]));
    }
  }

  lemma {:induction false} FieldIsText(f: FieldVal)
    requires FitsField(f, HALF64, false)
    ensures FieldChunk(f) == Texts(FieldTree(f)) && PairsReady(FieldTree(f))
    decreases f
  {
    if Kept(f) {
      EncIsShow(f.val);
    }
  }

  /** The scanner stops exactly behind an encoded value. */
  lemma ScanEnc(v: Value, rest: bytes)
    requires Writable(v) && !v.VNil?
    ensures Scan(Enc(v) + rest, true) == Done(TreeOf(v), |Enc(v)|)
  {
    EncIsShow(v);
    ScanComplete(TreeOf(v), rest, true);
  }
}
