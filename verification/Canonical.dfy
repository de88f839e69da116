/** What one generic decode says about its input: locality, strict key order, canonical form. */
module Canonical {
  import opened Bytes
  import opened Numerals
  import opened Syntax
  import opened Values
  import opened Sorting
  import opened Decode
  import opened Interp
  import opened OnePass
  import opened Encode
  import opened RoundTrip

  // ---------- every typed decode is simulated by the scanner ----------

  /** Whatever the type, a decode that succeeds takes exactly the bytes that capturing takes. */
  lemma DecodeSimulated(t: Type, cur: Value, s: bytes)
    requires HasType(t, cur) && DecodeValue(t, cur, s).Done?
    ensures Scan(s, true).Done? && Scan(s, true).n == DecodeValue(t, cur, s).n
    ensures s[..DecodeValue(t, cur, s).n] == Show(Scan(s, true).value)
  {
    DecodeViaTree(t, cur, s);
    ScanSound(s, true);
  }

  /** The outcome of a decode depends on the bytes it takes and on nothing behind them. */
  lemma DecodeLocal(t: Type, cur: Value, s: bytes, s': bytes)
    requires HasType(t, cur) && DecodeValue(t, cur, s).Done?
    requires var n := DecodeValue(t, cur, s).n; n <= |s'| && s'[..n] == s[..n]
    ensures DecodeValue(t, cur, s') == DecodeValue(t, cur, s)
  {
    DecodeViaTree(t, cur, s);
    DecodeViaTree(t, cur, s');
    ScanLocal(s, s', true);
  }

  /** No proper prefix of what a decode takes can be decoded, under any type. */
  lemma DecodePrefixRejected(t: Type, cur: Value, u: Type, cur': Value, s: bytes, k: nat)
    requires HasType(t, cur) && HasType(u, cur')
    requires DecodeValue(t, cur, s).Done? && k < DecodeValue(t, cur, s).n
    ensures DecodeValue(u, cur', s[..k]).Fail?
  {
    DecodeViaTree(t, cur, s);
    DecodeViaTree(u, cur', s[..k]);
    ScanPrefixRejected(s, true, k);
  }

  // ---------- strict key order ----------

  /** No dictionary at any depth has a key below the one in front of it. */
  predicate AscendingEverywhere(t: Tree)
    decreases t
  {
    match t
    case ListLit(items) => AscendingItems(items)
    case DictLit(pairs) => Ascending([], pairs) && AscendingPairs(pairs)
    case _ => true
  }

  predicate AscendingItems(ts: seq<Tree>)
    decreases ts
  {
    ts == [] || (AscendingEverywhere(ts[0]) && AscendingItems(ts[1..]))
  }

  predicate AscendingPair(p: Pair)
    decreases p
  {
    AscendingEverywhere(p.val)
  }

  predicate AscendingPairs(ps: seq<Pair>)
    decreases ps
  {
    ps == [] || (AscendingPair(ps[0]) && AscendingPairs(ps[1..]))
  }

  lemma {:induction false} OrderedMeaning(t: Tree)
    requires Meaning(TAny, VNil, t).Some?
    ensures Meaning(TAny, VNil, t).value.ordered <==> AscendingEverywhere(t)
    ensures Meaning(TAny, VNil, t).value.known
    decreases t
  {
    match t
    case IntLit(_) =>
    case StrLit(_, _) =>
    case ListLit(items) => OrderedItemsMeaning(items);
    case DictLit(pairs) => OrderedPairsMeaning([], [], pairs);
  }

  lemma {:induction false} OrderedItemsMeaning(ts: seq<Tree>)
    requires ItemsMeaning(TAny, ts).Some?
    ensures ItemsMeaning(TAny, ts).value.ordered <==> AscendingItems(ts)
    ensures ItemsMeaning(TAny, ts).value.known
    decreases ts
  {
    if ts == [] {
    } else {
      OrderedMeaning(ts[0]);
      OrderedItemsMeaning(ts[1..]);
    }
  }

  lemma {:induction false} OrderedPairMeaning(es: seq<Entry>, p: Pair)
    requires HasTypeEntries(TAny, es) && Ordered(es) && PairMeaning(TAny, es, p).Some?
    ensures PairMeaning(TAny, es, p).value.ordered <==> AscendingPair(p)
    ensures PairMeaning(TAny, es, p).value.known
    decreases p
  {
    OrderedMeaning(p.val);
  }

  lemma {:induction false} OrderedPairsMeaning(es: seq<Entry>, last: bytes, ps: seq<Pair>)
    requires HasTypeEntries(TAny, es) && Ordered(es) && PairsMeaning(TAny, es, last, ps).Some?
    ensures PairsMeaning(TAny, es, last, ps).value.ordered <==> Ascending(last, ps) && AscendingPairs(ps)
    ensures PairsMeaning(TAny, es, last, ps).value.known
    decreases ps
  {
    if ps == [] {
    } else {
      OrderedPairMeaning(es, ps[0]);
      OrderedPairsMeaning(PairMeaning(TAny, es, ps[0]).value.val.es, ps[0].key, ps[1..]);
    }
  }

  /** The order complaint of a generic decode is about the input alone: some dictionary in it steps down. */
  lemma StrictExactly(s: bytes)
    requires DecodeValue(TAny, VNil, s).Done?
    ensures Scan(s, true).Done?
    ensures DecodeValue(TAny, VNil, s).value.ordered <==> AscendingEverywhere(Scan(s, true).value)
    ensures DecodeValue(TAny, VNil, s).value.known
  {
    DecodeViaTree(TAny, VNil, s);
    OrderedMeaning(Scan(s, true).value);
  }

  // ---------- canonical inputs ----------

  predicate KeysIncrease(ps: seq<Pair>) {
    |ps| <= 1 || (Less(ps[0].key, ps[1].key) && KeysIncrease(ps[1..]))
  }

  /** Every numeral is canonical and every dictionary has strictly increasing keys. */
  predicate CanonicalTree(t: Tree)
    decreases t
  {
    match t
    case IntLit(num) => CanonicalInt(num)
    case StrLit(len, _) => CanonicalInt(len)
    case ListLit(items) => CanonicalItems(items)
    case DictLit(pairs) => KeysIncrease(pairs) && CanonicalPairs(pairs)
  }

  predicate CanonicalItems(ts: seq<Tree>)
    decreases ts
  {
    ts == [] || (CanonicalTree(ts[0]) && CanonicalItems(ts[1..]))
  }

  predicate CanonicalPair(p: Pair)
    decreases p
  {
    CanonicalInt(p.len) && CanonicalTree(p.val)
  }

  predicate CanonicalPairs(ps: seq<Pair>)
    decreases ps
  {
    ps == [] || (CanonicalPair(ps[0]) && CanonicalPairs(ps[1..]))
  }

  /** A string the decoder accepts: its numeral denotes the length of the body. */
  lemma LenOfBody(len: bytes, body: bytes)
    requires LenValid(len) && BodyFits(len, body, true)
    ensures |body| < MAX_LEN && ParseInt(len, HALF32).value == |body|
    ensures FormatInt(|body|) == len <==> CanonicalInt(len)
    ensures |FormatInt(|body|)| <= |len|
  {
    ParseIntWider(len, HALF32, HALF64);
    FormatIntParseInt(len, HALF32);
  }

  /** What generic decoding produces can be encoded again, without loss. */
  predicate Clean(v: Value) {
    !v.VNil? && HasType(TAny, v) && Encodable(v) && NilFree(v)
  }

  predicate CleanItems(vs: seq<Value>) {
    HasTypeItems(TAny, vs) && EncodableItems(vs) && NilFreeItems(vs)
  }

  predicate CleanEntries(es: seq<Entry>) {
    HasTypeEntries(TAny, es) && Ordered(es) && EncodableEntries(es) && NilFreeEntries(es)
  }

  /** The bytes of the entries of a map, without the closing `e`. */
  function EntriesSize(es: seq<Entry>): nat {
    if es == [] then 0 else |EncStr(es[0].key)| + |Enc(es[0].val)| + EntriesSize(es[1..])
  }

  lemma {:induction false} EntriesSizeIs(es: seq<Entry>)
    requires NilFreeEntries(es)
    ensures |EncChunks(EntryChunks(es))| == EntriesSize(es) + 1
  {
    if es == [] {
    } else {
      assert NilFreeEntry(es[0]);
      assert EntryChunk(es[0]) == [Keyed(es[0].key, Enc(es[0].val))];
      assert EntryChunks(es)[1..] == EntryChunks(es[1..]);
      EntriesSizeIs(es[1..]);
    }
  }

  lemma {:induction false} PutSize(es: seq<Entry>, k: bytes, v: Value)
    ensures EntriesSize(Put(es, k, v)) <= EntriesSize(es) + |EncStr(k)| + |Enc(v)|
  {
    if es != [] {
      if es[0].key == k {
        assert ([Entry(k, v)] + es[1..])[1..] == es[1..];
      } else if Less(k, es[0].key) {
        assert ([Entry(k, v)] + es)[1..] == es;
      } else {
        PutSize(es[1..], k, v);
        assert ([es[0]] + Put(es[1..], k, v))[1..] == Put(es[1..], k, v);
      }
    } else {
      assert [Entry(k, v)][1..] == [];
    }
  }

  lemma {:induction false} PutClean(es: seq<Entry>, k: bytes, v: Value)
    requires CleanEntries(es) && Clean(v) && |k| < MAX_LEN
    ensures CleanEntries(Put(es, k, v))
  {
    PutTyped(TAny, es, k, v);
    PutEncodable(es, k, v);
  }

  lemma {:induction false} PutEncodable(es: seq<Entry>, k: bytes, v: Value)
    requires EncodableEntries(es) && NilFreeEntries(es) && Encodable(v) && NilFree(v) && !v.VNil? && |k| < MAX_LEN
    ensures EncodableEntries(Put(es, k, v)) && NilFreeEntries(Put(es, k, v))
  {
    var e := Entry(k, v);
    assert EncodableEntry(e) && NilFreeEntry(e);
    if es == [] {
      assert [e][1..] == [];
    } else if es[0].key == k {
      assert ([e] + es[1..])[1..] == es[1..];
    } else if Less(k, es[0].key) {
      assert ([e] + es)[1..] == es;
    } else {
      PutEncodable(es[1..], k, v);
      assert ([es[0]] + Put(es[1..], k, v))[1..] == Put(es[1..], k, v);
    }
  }

  /** The generic meaning of a lexical tree is a clean value, whose encoding is not longer. */
  lemma {:induction false} MeaningClean(t: Tree)
    requires Lexical(t, true) && Meaning(TAny, VNil, t).Some?
    ensures var v := Meaning(TAny, VNil, t).value.val; Clean(v) && |Enc(v)| <= |Show(t)|
    decreases t
  {
    match t
    case IntLit(num) => FormatIntParseInt(num, HALF64);
    case StrLit(len, body) => LenOfBody(len, body);
    case ListLit(items) => ItemsMeaningClean(items);
    case DictLit(pairs) =>
      PairsMeaningClean([], [], pairs);
      EntriesSizeIs(PairsMeaning(TAny, [], [], pairs).value.val);
  }

  lemma {:induction false} ItemsMeaningClean(ts: seq<Tree>)
    requires LexicalItems(ts, true) && ItemsMeaning(TAny, ts).Some?
    ensures var vs := ItemsMeaning(TAny, ts).value.val; CleanItems(vs) && |EncItems(vs)| <= |ShowItems(ts)|
    decreases ts
  {
    if ts == [] {
    } else {
      MeaningClean(ts[0]);
      ItemsMeaningClean(ts[1..]);
      var v, vs := Meaning(TAny, VNil, ts[0]).value.val, ItemsMeaning(TAny, ts[1..]).value.val;
      assert ([v] + vs)[1..] == vs;
    }
  }

  lemma {:induction false} PairMeaningClean(es: seq<Entry>, p: Pair)
    requires CleanEntries(es) && LexicalPair(p, true) && PairMeaning(TAny, es, p).Some?
    ensures var fs := PairMeaning(TAny, es, p).value.val.es;
            CleanEntries(fs) && EntriesSize(fs) <= EntriesSize(es) + |ShowPair(p)|
    decreases p
  {
    MeaningClean(p.val);
    LenOfBody(p.len, p.key);
    var v := Meaning(TAny, VNil, p.val).value.val;
    PutClean(es, p.key, v);
    PutSize(es, p.key, v);
  }

  lemma {:induction false} PairsMeaningClean(es: seq<Entry>, last: bytes, ps: seq<Pair>)
    requires CleanEntries(es) && LexicalPairs(ps, true) && PairsMeaning(TAny, es, last, ps).Some?
    ensures var fs := PairsMeaning(TAny, es, last, ps).value.val;
            CleanEntries(fs) && EntriesSize(fs) + 1 <= EntriesSize(es) + |ShowPairs(ps)|
    decreases ps
  {
    if ps == [] {
    } else {
      PairMeaningClean(es, ps[0]);
      PairsMeaningClean(PairMeaning(TAny, es, ps[0]).value.val.es, ps[0].key, ps[1..]);
    }
  }

  // ---------- the tree behind an encoding is canonical ----------

  lemma {:induction false} TreeOfCanonical(v: Value)
    requires HasType(TAny, v) && Encodable(v) && !v.VNil?
    ensures CanonicalTree(TreeOf(v))
    decreases v
  {
    match v
    case VInt(i) => FormatIntCanonical(i);
    case VStr(s) => FormatIntCanonical(|s|);
    case VList(vs) => ItemTreesCanonical(vs);
    case VDict(es) => EntryTreesCanonical(es);
  }

  lemma {:induction false} ItemTreesCanonical(vs: seq<Value>)
    requires HasTypeItems(TAny, vs) && EncodableItems(vs)
    ensures CanonicalItems(ItemTrees(vs))
    decreases vs
  {
    if vs == [] {
    } else {
      ItemTreesCanonical(vs[1..]);
      if !vs[0].VNil? {
        TreeOfCanonical(vs[0]);
        assert ItemTrees(vs)[1..] == ItemTrees(vs[1..]);
      }
    }
  }

  lemma {:induction false} EntryTreesCanonical(es: seq<Entry>)
    requires HasTypeEntries(TAny, es) && EncodableEntries(es) && Ordered(es)
    ensures var ps := ToPairs(EntryTrees(es));
            KeysIncrease(ps) && CanonicalPairs(ps)
            && (ps != [] ==> es[0].key == ps[0].key || Less(es[0].key, ps[0].key))
    decreases es
  {
    if es == [] {
    } else {
      EntryTreesCanonical(es[1..]);
      var tail := ToPairs(EntryTrees(es[1..]));
      if tail != [] && es[1].key != tail[0].key {
        LessTransitive(es[0].key, es[1].key, tail[0].key);
      }
      if es[0].val.VNil? {
        assert EntryTrees(es) == EntryTrees(es[1..]);
      } else {
        EntryCanonical(es[0]);
        EntryTreesFirst(es);
        assert ToPairs(EntryTrees(es))[1..] == tail;
      }
    }
  }

  lemma {:induction false} EntryCanonical(e: Entry)
    requires HasType(TAny, e.val) && EncodableEntry(e) && !e.val.VNil?
    ensures CanonicalPair(ToPair(Keyed(e.key, TreeOf(e.val))))
    decreases e
  {
    FormatIntCanonical(|e.key|);
    TreeOfCanonical(e.val);
  }

  // ---------- a canonical tree is the tree behind the encoding of its meaning ----------

  lemma {:induction false} CanonicalFixed(t: Tree)
    requires Lexical(t, true) && CanonicalTree(t) && Meaning(TAny, VNil, t).Some?
    ensures var v := Meaning(TAny, VNil, t).value.val; Clean(v) && TreeOf(v) == t
    decreases t
  {
    hide Clean, ParseInt, FormatInt, CanonicalInt, LenValid;
    MeaningClean(t);
    match t
    case IntLit(num) => FormatIntParseInt(num, HALF64);
    case StrLit(len, body) => LenOfBody(len, body);
    case ListLit(items) => CanonicalItemsFixed(items);
    case DictLit(pairs) => CanonicalPairsFixed([], [], pairs);
  }

  lemma {:induction false} CanonicalItemsFixed(ts: seq<Tree>)
    requires LexicalItems(ts, true) && CanonicalItems(ts) && ItemsMeaning(TAny, ts).Some?
    ensures var vs := ItemsMeaning(TAny, ts).value.val; EncodableItems(vs) && ItemTrees(vs) == ts
    decreases ts
  {
    if ts == [] {
    } else {
      CanonicalFixed(ts[0]);
      CanonicalItemsFixed(ts[1..]);
      var v, vs := Meaning(TAny, VNil, ts[0]).value.val, ItemsMeaning(TAny, ts[1..]).value.val;
      assert ([v] + vs)[1..] == vs;
    }
  }

  lemma {:induction false} CanonicalPairFixed(p: Pair)
    requires LexicalPair(p, true) && CanonicalPair(p) && LenValid(p.len) && Meaning(TAny, VNil, p.val).Some?
    ensures var v := Meaning(TAny, VNil, p.val).value.val;
            Clean(v) && EncodableEntry(Entry(p.key, v)) && ToPair(Keyed(p.key, TreeOf(v))) == p
    decreases p
  {
    CanonicalFixed(p.val);
    LenOfBody(p.len, p.key);
  }

  /** Increasing pairs behind smaller entries are appended to them one by one. */
  lemma {:induction false} CanonicalPairsFixed(acc: seq<Entry>, last: bytes, ps: seq<Pair>)
    requires HasTypeEntries(TAny, acc) && Ordered(acc) && EncodableEntries(acc)
    requires LexicalPairs(ps, true) && KeysIncrease(ps) && CanonicalPairs(ps)
    requires acc != [] && ps != [] ==> Less(acc[|acc| - 1].key, ps[0].key)
    requires PairsMeaning(TAny, acc, last, ps).Some?
    ensures var es := PairsMeaning(TAny, acc, last, ps).value.val;
            EncodableEntries(es) && ToPairs(EntryTrees(es)) == ToPairs(EntryTrees(acc)) + ps
    decreases ps
  {
    hide Meaning, Put, Less, TreeOf, ToPairs, EntryTrees, CanonicalPair, LexicalPair, Clean, CanonicalInt;
    if ps == [] {
      assert ToPairs(EntryTrees(acc)) + [] == ToPairs(EntryTrees(acc));
    } else {
      var p := ps[0];
      CanonicalPairFixed(p);
      var e := Entry(p.key, Meaning(TAny, VNil, p.val).value.val);
      PutLast(acc, e.key, e.val);
      AppendEntry(acc, e);
      assert ps == [p] + ps[1..];
      PairsMeaningUnfold(TAny, acc, last, p, ps[1..]);
      CanonicalPairsFixed(acc + [e], p.key, ps[1..]);
      Associative(ToPairs(EntryTrees(acc)), [p], ps[1..]);
    }
  }

  lemma {:induction false} AppendEntry(acc: seq<Entry>, e: Entry)
    requires EncodableEntries(acc) && EncodableEntry(e) && !e.val.VNil?
    ensures EncodableEntries(acc + [e])
    ensures ToPairs(EntryTrees(acc + [e])) == ToPairs(EntryTrees(acc)) + [ToPair(Keyed(e.key, TreeOf(e.val)))]
    decreases acc
  {
    hide TreeOf, ToPair, Encodable, ToPairs;
    if acc == [] {
      AppendToNothing(e);
      assert acc + [e] == [e];
    } else {
      AppendEntry(acc[1..], e);
      assert (acc + [e])[1..] == acc[1..] + [e] && (acc + [e])[0] == acc[0];
      assert EncodableEntry(acc[0]);
      if acc[0].val.VNil? {
        assert EntryTrees(acc) == EntryTrees(acc[1..]);
        assert EntryTrees(acc + [e]) == EntryTrees(acc[1..] + [e]);
      } else {
        EntryTreesFirst(acc);
        EntryTreesFirst(acc + [e]);
        Associative([ToPair(Keyed(acc[0].key, TreeOf(acc[0].val)))], ToPairs(EntryTrees(acc[1..])),
                         [ToPair(Keyed(e.key, TreeOf(e.val)))]);
      }
    }
  }

  lemma AppendToNothing(e: Entry)
    requires EncodableEntry(e) && !e.val.VNil?
    ensures EncodableEntries([e]) && ToPairs(EntryTrees([])) == []
    ensures ToPairs(EntryTrees([e])) == [ToPair(Keyed(e.key, TreeOf(e.val)))]
  {
    assert [e][1..] == [];
    EntryTreesFirst([e]);
  }

  /**
   * Re-encoding what a generic decode found: it gives the bytes taken exactly when they are canonical, it
   * always decodes to the same value, and it is never longer.
   */
  lemma ReEncode(s: bytes)
    requires DecodeValue(TAny, VNil, s).Done?
    ensures Scan(s, true).Done?
    ensures var Done(o, n) := DecodeValue(TAny, VNil, s);
            && (Enc(o.val) == s[..n] <==> CanonicalTree(Scan(s, true).value))
            && DecodeValue(TAny, VNil, Enc(o.val)) == Done(Out(o.val, true, true), |Enc(o.val)|)
            && |Enc(o.val)| <= n
  {
    DecodeSimulated(TAny, VNil, s);
    DecodeViaTree(TAny, VNil, s);
    var Done(t, n) := Scan(s, true);
    ScanSound(s, true);
    MeaningClean(t);
    var v := Meaning(TAny, VNil, t).value.val;
    EncodableWritable(v);
    EncIsShow(v);
    TreeOfCanonical(v);
    if CanonicalTree(t) {
      CanonicalFixed(t);
    } else if Enc(v) == s[..n] {
      ShowInjective(TreeOf(v), t, true);
    }
    DecodeEncNilFree(TAny, v, []);
    assert Enc(v) + [] == Enc(v);
  }

  /** `i-0e` is accepted, and written again as `i0e`. */
  lemma NegativeZeroExample()
    ensures var s := [CH_I, 45, 48, CH_E];
            DecodeValue(TAny, VNil, s) == Done(Out(VInt(0), true, true), 4)
            && Enc(VInt(0)) == [CH_I, 48, CH_E] && Enc(VInt(0)) != s
  {
    var s, num := [CH_I, 45, 48, CH_E], [45, 48];
    assert Show(IntLit(num)) + [] == s;
    ScanComplete(IntLit(num), [], true);
    DecodeViaTree(TAny, VNil, s);
    assert num[1..] == [48] && num[1..][1..] == [];
    assert ParseDigits(num[1..][1..], 0, 2 * HALF64 - 1) == Num(0, Ok);
    assert ParseInt(num, HALF64) == Num(0, Ok);
    assert Meaning(TAny, VNil, IntLit(num)) == Some(Out(VInt(0), true, true));
    assert Digits(0) == [48];
  }
}
