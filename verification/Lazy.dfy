/** Delayed decoding through raw messages (bencode/raw.go): keep the parts raw now, decode them later. */
module Lazy {
  import opened Bytes
  import opened Numerals
  import opened Syntax
  import opened Values
  import opened Sorting
  import opened Decode
  import opened Interp
  import opened OnePass
  import opened Encode
  import opened RoundTrip
  import opened Canonical

  /** `raw` is one whole value, and decodes to `v`. */
  predicate StandsFor(t: Type, raw: Value, v: Value) {
    raw.VRaw? &&
    var r := DecodeValue(t, Zero(t), raw.raw);
    r.Done? && r.n == |raw.raw| && r.value.val == v
  }

  /** The same keys, with raw parts for values. */
  predicate RawMap(t: Type, raws: seq<Entry>, es: seq<Entry>) {
    |raws| == |es| &&
    (es == [] ||
     (raws[0].key == es[0].key && StandsFor(t, raws[0].val, es[0].val) && RawMap(t, raws[1..], es[1..])))
  }

  lemma {:induction false} RawMapPut(t: Type, raws: seq<Entry>, es: seq<Entry>, k: bytes, raw: Value, v: Value)
    requires RawMap(t, raws, es) && StandsFor(t, raw, v)
    ensures RawMap(t, Put(raws, k, raw), Put(es, k, v))
  {
    if es == [] {
      RawMapCons(t, Entry(k, raw), [], Entry(k, v), []);
    } else if es[0].key == k {
      RawMapCons(t, Entry(k, raw), raws[1..], Entry(k, v), es[1..]);
    } else if Less(k, es[0].key) {
      RawMapCons(t, Entry(k, raw), raws, Entry(k, v), es);
    } else {
      RawMapPut(t, raws[1..], es[1..], k, raw, v);
      RawMapCons(t, raws[0], Put(raws[1..], k, raw), es[0], Put(es[1..], k, v));
    }
  }

  lemma RawMapCons(t: Type, x: Entry, xs: seq<Entry>, y: Entry, ys: seq<Entry>)
    requires RawMap(t, xs, ys) && x.key == y.key && StandsFor(t, x.val, y.val)
    ensures RawMap(t, [x] + xs, [y] + ys)
  {
    assert ([x] + xs)[1..] == xs && ([y] + ys)[1..] == ys;
  }

  /** The text of a tree stands for the meaning of the tree. */
  lemma ShowStandsFor(t: Type, tree: Tree)
    requires Lexical(tree, true) && Meaning(t, Zero(t), tree).Some?
    ensures StandsFor(t, VRaw(Show(tree)), Meaning(t, Zero(t), tree).value.val)
  {
    ScanComplete(tree, [], true);
    assert Show(tree) + [] == Show(tree);
    DecodeViaTree(t, Zero(t), Show(tree));
  }

  lemma {:induction false} LazyPairs(t: Type, raws: seq<Entry>, es: seq<Entry>, last: bytes, ps: seq<Pair>)
    requires HasTypeEntries(t, es) && Ordered(es) && HasTypeEntries(TRaw, raws) && Ordered(raws)
    requires RawMap(t, raws, es) && LexicalPairs(ps, true)
    requires PairsMeaning(t, es, last, ps).Some?
    ensures PairsMeaning(TRaw, raws, last, ps).Some?
    ensures RawMap(t, PairsMeaning(TRaw, raws, last, ps).value.val, PairsMeaning(t, es, last, ps).value.val)
    decreases ps
  {
    hide Meaning, Put, RawMap, StandsFor, Ordered, HasTypeEntries, LenValid, Zero, Show;
    if ps == [] {
    } else {
      var p := ps[0];
      ShowStandsFor(t, p.val);
      RawMeaning(raws, p);
      RawMapPut(t, raws, es, p.key, VRaw(Show(p.val)), Meaning(t, Zero(t), p.val).value.val);
      LazyPairs(t, PairMeaning(TRaw, raws, p).value.val.es, PairMeaning(t, es, p).value.val.es, p.key, ps[1..]);
    }
  }

  /**
   * A dictionary that decodes to a map of values also decodes to a map of raw messages, with the same
   * keys; decoding a raw part takes all of it and gives the value.
   */
  lemma LazyEqualsEager(t: Type, s: bytes)
    requires DecodeValue(TMap(t), VDict([]), s).Done?
    ensures var Done(eager, n) := DecodeValue(TMap(t), VDict([]), s);
            var r := DecodeValue(TMap(TRaw), VDict([]), s);
            r.Done? && r.n == n && RawMap(t, r.value.val.es, eager.val.es)
  {
    DecodeViaTree(TMap(t), VDict([]), s);
    DecodeViaTree(TMap(TRaw), VDict([]), s);
    ScanSound(s, true);
    var tree := Scan(s, true).value;
    if tree.DictLit? {
      LazyPairs(t, [], [], [], tree.pairs);
    }
  }

  /** Raw parts that are the encodings of the values of a map. */
  predicate EncodedMap(raws: seq<Entry>, es: seq<Entry>) {
    |raws| == |es| &&
    (es == [] ||
     (raws[0].key == es[0].key && !es[0].val.VNil? && raws[0].val == VRaw(Enc(es[0].val))
      && EncodedMap(raws[1..], es[1..])))
  }

  lemma {:induction false} SpliceChunks(raws: seq<Entry>, es: seq<Entry>)
    requires EncodedMap(raws, es)
    ensures EntryChunks(raws) == EntryChunks(es)
  {
    if es == [] {
    } else {
      SpliceChunks(raws[1..], es[1..]);
      assert EntryChunk(raws[0]) == EntryChunk(es[0]);
    }
  }

  /** Encoding a map of raw parts equals encoding the map they were taken from. */
  lemma SpliceEqualsWhole(raws: seq<Entry>, es: seq<Entry>)
    requires EncodedMap(raws, es)
    ensures Enc(VDict(raws)) == Enc(VDict(es))
  {
    SpliceChunks(raws, es);
  }

  /** The entries of a map, each value replaced by its encoding. */
  function RawEntries(es: seq<Entry>): seq<Entry> {
    if es == [] then [] else [Entry(es[0].key, VRaw(Enc(es[0].val)))] + RawEntries(es[1..])
  }

  lemma {:induction false} RawEntriesEncoded(es: seq<Entry>)
    requires Ordered(es) && EncodableEntries(es) && NilFreeEntries(es)
    ensures var raws := RawEntries(es);
            EncodedMap(raws, es) && HasTypeEntries(TRaw, raws) && Ordered(raws)
            && EncodableEntries(raws) && NilFreeEntries(raws)
  {
    if es == [] {
    } else {
      RawEntriesEncoded(es[1..]);
      assert EncodableEntry(es[0]) && NilFreeEntry(es[0]);
      RawEntryEncoded(es[0]);
      assert RawEntries(es)[1..] == RawEntries(es[1..]);
    }
  }

  lemma RawEntryEncoded(e: Entry)
    requires EncodableEntry(e) && !e.val.VNil?
    ensures var raw := Entry(e.key, VRaw(Enc(e.val))); EncodableEntry(raw) && NilFreeEntry(raw)
  {
    EncodableWritable(e.val);
    ScanEnc(e.val, []);
    assert Enc(e.val) + [] == Enc(e.val);
  }

  /** A map survives the detour: written, read back as raw parts, written again. */
  lemma SplitAndSplice(es: seq<Entry>, rest: bytes)
    requires Ordered(es) && EncodableEntries(es) && NilFreeEntries(es)
    ensures var r := DecodeValue(TMap(TRaw), VDict([]), Enc(VDict(es)) + rest);
            r.Done? && r.n == |Enc(VDict(es))| && r.value.val == VDict(RawEntries(es))
            && Enc(r.value.val) == Enc(VDict(es))
  {
    RawEntriesEncoded(es);
    SpliceEqualsWhole(RawEntries(es), es);
    DecodeEncNilFree(TMap(TRaw), VDict(RawEntries(es)), rest);
  }

  // ---------- raw parts of any accepted text ----------

  /** Raw entries that can be written: each part is one whole value. */
  predicate RawsFit(es: seq<Entry>) {
    HasTypeEntries(TRaw, es) && Ordered(es) && EncodableEntries(es) && NilFreeEntries(es)
  }

  /** The value of the last pair with this key. */
  function LastAt(ps: seq<Pair>, k: bytes): Option<Tree> {
    if ps == [] then None
    else if LastAt(ps[1..], k).Some? then LastAt(ps[1..], k)
    else if ps[0].key == k then Some(ps[0].val)
    else None
  }

  lemma RawOfTree(tree: Tree)
    requires Lexical(tree, true)
    ensures var v := VRaw(Show(tree)); Encodable(v) && TreeOf(v) == tree && Enc(v) == Show(tree)
  {
    ScanComplete(tree, [], true);
    assert Show(tree) + [] == Show(tree);
  }

  /** One round of decoding into a map of raw messages keeps the text of the value as it is. */
  lemma RawRound(es: seq<Entry>, p: Pair)
    requires RawsFit(es) && LexicalPair(p, true) && LenValid(p.len)
    ensures var v := VRaw(Show(p.val));
            && PairMeaning(TRaw, es, p) == Some(Out(MapRound(p.key, Put(es, p.key, v)), true, true))
            && RawsFit(Put(es, p.key, v)) && EncodableEntry(Entry(p.key, v)) && TreeOf(v) == p.val
            && EntriesSize(Put(es, p.key, v)) <= EntriesSize(es) + |ShowPair(p)|
  {
    hide Scan, Encodable, NilFree, HasType, HasTypeEntries, Ordered, Put, EntriesSize, EncodableEntries,
      NilFreeEntries, Enc, TreeOf;
    var v := VRaw(Show(p.val));
    RawOfTree(p.val);
    LenOfBody(p.len, p.key);
    RawMeaning(es, p);
    RawIsRaw(v);
    PutTyped(TRaw, es, p.key, v);
    PutEncodable(es, p.key, v);
    PutSize(es, p.key, v);
  }

  lemma RawIsRaw(v: Value)
    requires v.VRaw?
    ensures HasType(TRaw, v) && NilFree(v)
  {
  }

  lemma RawMeaning(es: seq<Entry>, p: Pair)
    requires HasTypeEntries(TRaw, es) && Ordered(es) && LenValid(p.len)
    ensures PairMeaning(TRaw, es, p) ==
            Some(Out(MapRound(p.key, Put(es, p.key, VRaw(Show(p.val)))), true, true))
  {
    assert Meaning(TRaw, Zero(TRaw), p.val) == Some(Out(VRaw(Show(p.val)), true, true));
  }

  /** The raw map: under every key the text of the last value the dictionary gives it, and nothing else. */
  lemma {:induction false} RawPairs(es: seq<Entry>, last: bytes, ps: seq<Pair>, k: bytes)
    requires RawsFit(es) && LexicalPairs(ps, true) && forall p | p in ps :: LenValid(p.len)
    ensures var r := PairsMeaning(TRaw, es, last, ps);
            && r.Some? && RawsFit(r.value.val)
            && EntriesSize(r.value.val) + 1 <= EntriesSize(es) + |ShowPairs(ps)|
            && Lookup(r.value.val, k) ==
               if LastAt(ps, k).Some? then Some(VRaw(Show(LastAt(ps, k).value))) else Lookup(es, k)
    decreases ps
  {
    hide PairMeaning, RawsFit, EntriesSize, Put, Show, Lookup;
    if ps != [] {
      var p := ps[0];
      var fs := Put(es, p.key, VRaw(Show(p.val)));
      RawRound(es, p);
      RawPairs(fs, p.key, ps[1..], k);
      RawsTyped(es);
      RawsTyped(fs);
      assert ps == [p] + ps[1..];
      PairsMeaningUnfold(TRaw, es, last, p, ps[1..]);
      LookupPut(es, p.key, VRaw(Show(p.val)), k);
    } else {
      RawsTyped(es);
    }
  }

  lemma RawsTyped(es: seq<Entry>)
    requires RawsFit(es)
    ensures HasTypeEntries(TRaw, es) && Ordered(es) && EncodableEntries(es)
  {
  }

  predicate LensCanonical(ps: seq<Pair>) {
    forall p | p in ps :: CanonicalInt(p.len)
  }

  lemma {:induction false} RawLens(es: seq<Entry>, last: bytes, ps: seq<Pair>)
    requires HasTypeEntries(TRaw, es) && Ordered(es) && PairsMeaning(TRaw, es, last, ps).Some?
    ensures forall p | p in ps :: LenValid(p.len)
    decreases |ps|
  {
    hide LenValid, Put, Meaning, Ordered, HasTypeEntries;
    if ps == [] {
    } else {
      RawLens(PairMeaning(TRaw, es, ps[0]).value.val.es, ps[0].key, ps[1..]);
    }
  }

  /** Increasing pairs behind smaller entries are appended to them one by one. */
  lemma {:induction false} RawPairsFixed(acc: seq<Entry>, last: bytes, ps: seq<Pair>)
    requires RawsFit(acc) && LexicalPairs(ps, true) && forall p | p in ps :: LenValid(p.len)
    requires KeysIncrease(ps) && LensCanonical(ps)
    requires acc != [] && ps != [] ==> Less(acc[|acc| - 1].key, ps[0].key)
    ensures HasTypeEntries(TRaw, acc) && Ordered(acc) && EncodableEntries(acc)
    ensures var r := PairsMeaning(TRaw, acc, last, ps);
            r.Some? && EncodableEntries(r.value.val)
            && ToPairs(EntryTrees(r.value.val)) == ToPairs(EntryTrees(acc)) + ps
    decreases |ps|
  {
    hide PairMeaning, RawsFit, Put, Show, Less, TreeOf, ToPairs, EntryTrees, EncodableEntries, CanonicalInt, LenValid;
    RawsTyped(acc);
    if ps == [] {
      assert ToPairs(EntryTrees(acc)) + [] == ToPairs(EntryTrees(acc));
    } else {
      var p := ps[0];
      var e := Entry(p.key, VRaw(Show(p.val)));
      assert p in ps && ps == [p] + ps[1..];
      RawRound(acc, p);
      PutLast(acc, e.key, e.val);
      AppendEntry(acc, e);
      RawPairBack(p);
      PairsMeaningUnfold(TRaw, acc, last, p, ps[1..]);
      RawPairsFixed(acc + [e], p.key, ps[1..]);
      Associative(ToPairs(EntryTrees(acc)), [p], ps[1..]);
    }
  }

  lemma RawPairBack(p: Pair)
    requires LexicalPair(p, true) && LenValid(p.len) && CanonicalInt(p.len)
    ensures var v := VRaw(Show(p.val)); Encodable(v) && ToPair(Keyed(p.key, TreeOf(v))) == p
  {
    hide LenValid, CanonicalInt, FormatInt;
    RawOfTree(p.val);
    LenOfBody(p.len, p.key);
  }

  /** What is written is in order and has canonical lengths. */
  lemma {:induction false} RawsPlain(es: seq<Entry>)
    requires Ordered(es) && EncodableEntries(es) && NilFreeEntries(es)
    ensures var ps := ToPairs(EntryTrees(es));
            KeysIncrease(ps) && LensCanonical(ps) && |ps| == |es| && (ps != [] ==> es[0].key == ps[0].key)
  {
    hide Encodable, NilFree, CanonicalInt, FormatInt, Less, TreeOf;
    if es == [] {
    } else {
      RawsPlain(es[1..]);
      assert EncodableEntry(es[0]) && NilFreeEntry(es[0]);
      EntryTreesFirst(es);
      FormatIntCanonical(|es[0].key|);
      var ps, tail := ToPairs(EntryTrees(es)), ToPairs(EntryTrees(es[1..]));
      assert ps[1..] == tail;
      assert forall p | p in ps :: p == ps[0] || p in tail;
    }
  }

  lemma RawNothing()
    ensures RawsFit([]) && HasType(TMap(TRaw), VDict([])) && EntriesSize([]) == 0
    ensures Zero(TMap(TRaw)) == VDict([]) && ToPairs(EntryTrees([])) == []
    ensures forall k: bytes :: Lookup([], k) == None
  {
  }

  lemma RawMapMeaning(tree: Tree)
    requires HasType(TMap(TRaw), VDict([])) && Lexical(tree, true) && Meaning(TMap(TRaw), VDict([]), tree).Some?
    ensures tree.DictLit? && LexicalPairs(tree.pairs, true) && |Show(tree)| == 1 + |ShowPairs(tree.pairs)|
    ensures var m := PairsMeaning(TRaw, [], [], tree.pairs);
            m.Some? && Meaning(TMap(TRaw), VDict([]), tree).value.val == VDict(m.value.val)
  {
  }

  lemma RawsText(es: seq<Entry>)
    requires RawsFit(es)
    ensures HasType(TMap(TRaw), VDict(es)) && Encodable(VDict(es)) && NilFree(VDict(es))
    ensures Ordered(es) && EncodableEntries(es) && NilFreeEntries(es)
    ensures TreeOf(VDict(es)) == DictLit(ToPairs(EntryTrees(es))) && |Enc(VDict(es))| == EntriesSize(es) + 2
    ensures Norm(TMap(TRaw), VDict(es)) == VDict(es)
  {
    EntriesSizeIs(es);
    NormNilFree(TMap(TRaw), VDict(es));
  }

  lemma RawTextKept(ps: seq<Pair>, es: seq<Entry>)
    requires LexicalPairs(ps, true) && (forall p | p in ps :: LenValid(p.len)) && RawsFit(es) && RawsFit([])
    requires var m := PairsMeaning(TRaw, [], [], ps); m.Some? && m.value.val == es
    ensures Enc(VDict(es)) == Show(DictLit(ps)) <==> KeysIncrease(ps) && LensCanonical(ps)
  {
    hide PairsMeaning, RawsFit, KeysIncrease, LensCanonical, LenValid, Enc, Show, TreeOf;
    RawNothing();
    RawsText(es);
    RawsPlain(es);
    EncodableWritable(VDict(es));
    EncIsShow(VDict(es));
    if KeysIncrease(ps) && LensCanonical(ps) {
      RawPairsFixed([], [], ps);
      assert [] + ps == ps;
    } else if Enc(VDict(es)) == Show(DictLit(ps)) {
      ShowInjective(TreeOf(VDict(es)), DictLit(ps), true);
    }
  }

  /**
   * A dictionary in any accepted text, split into raw parts and written again: under every key stands the
   * text of its last value, byte for byte. It is the same text exactly when the lengths of the keys are
   * canonical and the keys increase, whatever the parts look like; it is never longer and reads the same.
   */
  lemma RawReEncode(s: bytes)
    requires DecodeValue(TMap(TRaw), VDict([]), s).Done?
    ensures Scan(s, true).Done? && Scan(s, true).value.DictLit?
    ensures var Done(o, n) := DecodeValue(TMap(TRaw), VDict([]), s);
            var ps := Scan(s, true).value.pairs;
            && (Enc(o.val) == s[..n] <==> KeysIncrease(ps) && LensCanonical(ps))
            && (forall k: bytes :: Lookup(o.val.es, k) ==
                  if LastAt(ps, k).Some? then Some(VRaw(Show(LastAt(ps, k).value))) else None)
            && DecodeValue(TMap(TRaw), VDict([]), Enc(o.val)) == Done(Out(o.val, true, true), |Enc(o.val)|)
            && |Enc(o.val)| <= n
  {
    hide PairsMeaning, RawsFit, KeysIncrease, LensCanonical, LenValid, Ordered, HasTypeEntries, EncodableEntries,
      NilFreeEntries, DecodeValue, Scan, Lookup, LastAt;
    var t := TMap(TRaw);
    RawNothing();
    DecodeViaTree(t, VDict([]), s);
    ScanSound(s, true);
    var tree := Scan(s, true).value;
    RawMapMeaning(tree);
    var ps := tree.pairs;
    RawLens([], [], ps);
    var es := PairsMeaning(TRaw, [], [], ps).value.val;
    forall k: bytes
      ensures Lookup(es, k) == if LastAt(ps, k).Some? then Some(VRaw(Show(LastAt(ps, k).value))) else None
    {
      RawPairs([], [], ps, k);
    }
    RawPairs([], [], ps, []);
    RawsText(es);
    DecodeEncNilFree(t, VDict(es), []);
    assert Enc(VDict(es)) + [] == Enc(VDict(es));
    RawTextKept(ps, es);
  }
}
