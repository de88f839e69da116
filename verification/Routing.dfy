/** Two endpoints of the extension protocol: what handshakes teach, and where messages end up. */
module Routing {
  import opened Bytes
  import opened Numerals
  import opened Syntax
  import opened Values
  import opened Sorting
  import opened Decode
  import opened Interp
  import opened OnePass
  import opened Encode
  import opened RoundTrip
  import opened Lazy
  import opened Targets
  import opened Order
  import opened Texts
  import opened PeerWire
  import opened Extension

  // ---------- entries that survive the wire ----------

  predicate GoodEntry(e: Entry) {
    EncodableEntry(e) && NilFreeEntry(e) && RegularEntry(e)
  }

  predicate GoodEntries(es: seq<Entry>) {
    es == [] || (GoodEntry(es[0]) && GoodEntries(es[1..]))
  }

  lemma {:induction false} GoodAll(es: seq<Entry>)
    requires GoodEntries(es)
    ensures EncodableEntries(es) && NilFreeEntries(es) && forall i | 0 <= i < |es| :: RegularEntry(es[i])
  {
    hide Encodable, NilFree, Regular;
    if es == [] {
    } else {
      assert GoodEntry(es[0]);
      GoodAll(es[1..]);
    }
  }

  lemma GoodCons(e: Entry, es: seq<Entry>)
    ensures GoodEntries([e] + es) <==> GoodEntry(e) && GoodEntries(es)
  {
    assert ([e] + es)[1..] == es;
  }

  lemma {:induction false} GoodPut(es: seq<Entry>, k: bytes, v: Value)
    requires GoodEntries(es) && GoodEntry(Entry(k, v))
    ensures GoodEntries(Put(es, k, v))
  {
    hide GoodEntry, GoodEntries;
    GoodCons(Entry(k, v), []);
    GoodNothing();
    assert [Entry(k, v)] + [] == [Entry(k, v)];
    if es == [] {
    } else {
      GoodCons(es[0], es[1..]);
      assert [es[0]] + es[1..] == es;
      GoodCons(Entry(k, v), es[1..]);
      GoodCons(Entry(k, v), es);
      if es[0].key != k && !Less(k, es[0].key) {
        GoodPut(es[1..], k, v);
        GoodCons(es[0], Put(es[1..], k, v));
      }
    }
  }

  lemma GoodNothing()
    ensures GoodEntries([])
  {
  }

  lemma {:induction false} GoodPutAll(es: seq<Entry>, puts: seq<Entry>)
    requires GoodEntries(es) && GoodEntries(puts)
    ensures GoodEntries(PutAll(es, puts))
    decreases |puts|
  {
    hide GoodEntry;
    if puts == [] {
    } else {
      GoodPut(es, puts[0].key, puts[0].val);
      GoodPutAll(Put(es, puts[0].key, puts[0].val), puts[1..]);
    }
  }

  /**
   * Extensions whose handshake can be written and read: distinct keys shorter than 2^31, entries that are
   * encodable, and a count that fits an int.
   */
  predicate Fit(exts: seq<Ext>) {
    && |exts| < HALF64
    && (forall e | e in exts :: |e.key| < MAX_LEN && GoodEntries(e.puts))
    && (forall i, j | 0 <= i < j < |exts| :: exts[i].key != exts[j].key)
  }

  lemma {:induction false} AllPutsGood(exts: seq<Ext>)
    requires forall e | e in exts :: GoodEntries(e.puts)
    ensures GoodEntries(AllPuts(exts))
  {
    hide GoodEntries;
    GoodNothing();
    if exts == [] {
    } else {
      var front := exts[..|exts| - 1];
      AllPutsGood(front);
      GoodPutAll(AllPuts(front), exts[|exts| - 1].puts);
    }
  }

  predicate Numbers(es: seq<Entry>) {
    forall e | e in es :: |e.key| < MAX_LEN && e.val.VInt? && 0 <= e.val.i < HALF64
  }

  lemma {:induction false} NumberingNumbers(exts: seq<Ext>)
    requires |exts| < HALF64 && forall e | e in exts :: |e.key| < MAX_LEN
    ensures Numbers(Numbering(exts))
  {
    if exts == [] {
    } else {
      var front := exts[..|exts| - 1];
      NumberingNumbers(front);
      forall e | e in Numbering(exts) ensures |e.key| < MAX_LEN && e.val.VInt? && 0 <= e.val.i < HALF64 {
        PutMembers(Numbering(front), exts[|exts| - 1].key, VInt(|exts|), e);
      }
    }
  }

  lemma {:induction false} NumbersGood(es: seq<Entry>)
    requires Numbers(es)
    ensures GoodEntries(es)
  {
    if es == [] {
    } else {
      NumberGood(es[0]);
      NumbersGood(es[1..]);
    }
  }

  lemma NumberGood(e: Entry)
    requires |e.key| < MAX_LEN && e.val.VInt?
    ensures GoodEntry(e)
  {
    assert Encodable(e.val);
  }

  lemma HandshakeGood(exts: seq<Ext>)
    requires Fit(exts)
    ensures var v := VDict(Handshake(exts));
            Encodable(v) && NilFree(v) && Regular(v) && HasTypeEntries(TRaw, RawEntries(Handshake(exts)))
    ensures EncodableEntries(Handshake(exts)) && NilFreeEntries(Handshake(exts))
    ensures Encodable(VDict(Numbering(exts)))
  {
    hide Handshake, GoodEntries, Fit;
    HandshakeParts(exts);
    GoodAll(Handshake(exts));
    RawEntriesEncoded(Handshake(exts));
  }

  lemma HandshakeParts(exts: seq<Ext>)
    requires Fit(exts)
    ensures GoodEntries(Handshake(exts)) && Encodable(VDict(Numbering(exts)))
  {
    hide GoodEntries;
    AllPutsGood(exts);
    NumberingNumbers(exts);
    NumbersGood(Numbering(exts));
    GoodAll(Numbering(exts));
    assert GoodEntry(Entry(KEY_M, VDict(Numbering(exts)))) by {
      assert |KEY_M| == 1;
      assert Encodable(VDict(Numbering(exts))) && NilFree(VDict(Numbering(exts))) && Regular(VDict(Numbering(exts)));
    }
    GoodPut(AllPuts(exts), KEY_M, VDict(Numbering(exts)));
  }

  // ---------- lookups ----------

  lemma {:induction false} RawLookup(es: seq<Entry>, k: bytes)
    ensures Lookup(RawEntries(es), k) ==
            match Lookup(es, k)
            case None => None
            case Some(v) => Some(VRaw(Enc(v)))
  {
    hide Enc;
    if es == [] {
    } else {
      RawLookup(es[1..], k);
      assert RawEntries(es)[1..] == RawEntries(es[1..]);
    }
  }

  /** Where a key is registered, if it is. */
  predicate Registered(exts: seq<Ext>, k: bytes) {
    exists i | 0 <= i < |exts| :: exts[i].key == k
  }

  lemma {:induction false} NumberOf(exts: seq<Ext>, i: nat)
    requires (forall i, j | 0 <= i < j < |exts| :: exts[i].key != exts[j].key) && i < |exts|
    ensures Lookup(Numbering(exts), exts[i].key) == Some(VInt(i + 1))
  {
    var front := exts[..|exts| - 1];
    LookupPut(Numbering(front), exts[|exts| - 1].key, VInt(|exts|), exts[i].key);
    if i < |front| {
      NumberOf(front, i);
    }
  }

  lemma {:induction false} NumberOfOther(exts: seq<Ext>, k: bytes)
    requires !Registered(exts, k)
    ensures Lookup(Numbering(exts), k) == None
  {
    if exts == [] {
    } else {
      var front := exts[..|exts| - 1];
      LookupPut(Numbering(front), exts[|exts| - 1].key, VInt(|exts|), k);
      NumberOfOther(front, k);
    }
  }

  // ---------- numbers become bytes ----------

  /** What a byte keeps of a number. */
  function Narrow(es: seq<Entry>): seq<Entry> {
    if es == [] then []
    else [Entry(es[0].key, VInt(if es[0].val.VInt? then es[0].val.i % 256 else 0))] + Narrow(es[1..])
  }

  lemma NumberMeaning(m: seq<Entry>, e: Entry)
    requires Ids(m) && |e.key| < MAX_LEN && e.val.VInt? && 0 <= e.val.i < HALF64
    ensures EncodableEntry(e)
    ensures PairMeaning(TUint(W8), m, ToPair(Keyed(e.key, TreeOf(e.val)))) ==
            Some(Out(MapRound(e.key, Put(m, e.key, VInt(e.val.i % 256))), true, true))
    ensures Ids(Put(m, e.key, VInt(e.val.i % 256)))
  {
    ParseUintDigits(e.val.i, 2 * HALF64 - 1);
    LenOfString(|e.key|);
    PutTyped(TUint(W8), m, e.key, VInt(e.val.i % 256));
  }

  /** Reading numbers into a map of bytes puts each, cut to a byte, in its place; what else was there stays. */
  lemma {:induction false} NumbersMeaning(m: seq<Entry>, last: bytes, es: seq<Entry>)
    requires Ids(m) && Numbers(es) && EncodableEntries(es)
    ensures var r := PairsMeaning(TUint(W8), m, last, ToPairs(EntryTrees(es)));
            r.Some? && r.value.val == PutAll(m, Narrow(es))
    decreases |es|
  {
    hide PairMeaning, TreeOf, ToPair, Put, HasType, HasTypeEntries, Ordered, Encodable;
    if es == [] {
    } else {
      var e := es[0];
      assert e in es;
      NumberMeaning(m, e);
      EntryTreesFirst(es);
      PairsMeaningUnfold(TUint(W8), m, last, ToPair(Keyed(e.key, TreeOf(e.val))), ToPairs(EntryTrees(es[1..])));
      NumbersMeaning(Put(m, e.key, VInt(e.val.i % 256)), e.key, es[1..]);
      assert Narrow(es)[1..] == Narrow(es[1..]);
    }
  }

  lemma {:induction false} LookupNarrow(es: seq<Entry>, k: bytes)
    requires Numbers(es)
    ensures Lookup(es, k).Some? ==> Lookup(es, k).value.VInt?
    ensures Lookup(Narrow(es), k) ==
            match Lookup(es, k)
            case None => None
            case Some(v) => if v.VInt? then Some(VInt(v.i % 256)) else None
  {
    if es == [] {
    } else {
      assert es[0] in es;
      LookupNarrow(es[1..], k);
      assert Narrow(es)[1..] == Narrow(es[1..]);
    }
  }

  lemma {:induction false} NarrowOrdered(es: seq<Entry>)
    requires Ordered(es)
    ensures Ordered(Narrow(es)) && HasTypeEntries(TUint(W8), Narrow(es))
  {
    if es == [] {
    } else {
      NarrowOrdered(es[1..]);
      assert Narrow(es)[1..] == Narrow(es[1..]);
    }
  }

  lemma {:induction false} PutAllIds(m: seq<Entry>, puts: seq<Entry>)
    requires Ids(m) && HasTypeEntries(TUint(W8), puts)
    ensures Ids(PutAll(m, puts))
    decreases |puts|
  {
    if puts == [] {
    } else {
      PutTyped(TUint(W8), m, puts[0].key, puts[0].val);
      PutAllIds(Put(m, puts[0].key, puts[0].val), puts[1..]);
    }
  }

  /** The ids known after a handshake of a peer with these extensions. */
  function NewIds(m: seq<Entry>, exts: seq<Ext>): (r: seq<Entry>)
    requires Ids(m)
    ensures Ids(r)
  {
    NarrowOrdered(Numbering(exts));
    PutAllIds(m, Narrow(Numbering(exts)));
    PutAll(m, Narrow(Numbering(exts)))
  }

  /** After putting a map into another, the new entries are there, and the old ones where there is no new one. */
  lemma {:induction false} LookupPutAll(es: seq<Entry>, puts: seq<Entry>, k: bytes)
    requires Ordered(puts)
    ensures Lookup(PutAll(es, puts), k) == if Lookup(puts, k).Some? then Lookup(puts, k) else Lookup(es, k)
    decreases |puts|
  {
    if puts == [] {
    } else {
      LookupPut(es, puts[0].key, puts[0].val, k);
      LookupPutAll(Put(es, puts[0].key, puts[0].val), puts[1..], k);
      if k == puts[0].key {
        LookupBelow(puts[1..], k);
      }
    }
  }

  function LastPut(puts: seq<Entry>, k: bytes): Option<Value> {
    if puts == [] then None
    else if LastPut(puts[1..], k).Some? then LastPut(puts[1..], k)
    else if puts[0].key == k then Some(puts[0].val)
    else None
  }

  /** Of several entries put under one key the last stays; under other keys nothing changes. */
  lemma {:induction false} PutAllLast(es: seq<Entry>, puts: seq<Entry>, k: bytes)
    ensures Lookup(PutAll(es, puts), k) == if LastPut(puts, k).Some? then LastPut(puts, k) else Lookup(es, k)
    decreases |puts|
  {
    if puts == [] {
    } else {
      LookupPut(es, puts[0].key, puts[0].val, k);
      PutAllLast(Put(es, puts[0].key, puts[0].val), puts[1..], k);
    }
  }

  // ---------- what a handshake teaches ----------

  /** The map of ids decoded into a map that already holds some. */
  lemma IdsLearned(m: seq<Entry>, es: seq<Entry>)
    requires Ids(m) && Numbers(es) && Encodable(VDict(es))
    ensures Unmarshal(TMap(TUint(W8)), VDict(m), Enc(VDict(es))) == Some(VDict(PutAll(m, Narrow(es))))
  {
    hide Enc, PairsMeaning, ToPairs, EntryTrees, Encodable, Narrow, PutAll;
    var t := TMap(TUint(W8));
    var b := Enc(VDict(es));
    IdsTree(es);
    assert b + [] == b;
    EncodableWritable(VDict(es));
    ScanEnc(VDict(es), []);
    NumbersMeaning(m, [], es);
    DecodeViaTree(t, VDict(m), b);
    DictOfIds(m, ToPairs(EntryTrees(es)));
  }

  lemma IdsTree(es: seq<Entry>)
    requires Encodable(VDict(es))
    ensures EncodableEntries(es) && TreeOf(VDict(es)) == DictLit(ToPairs(EntryTrees(es)))
  {
  }

  lemma DictOfIds(m: seq<Entry>, ps: seq<Pair>)
    requires Ids(m) && PairsMeaning(TUint(W8), m, [], ps).Some?
    ensures var r := Meaning(TMap(TUint(W8)), VDict(m), DictLit(ps));
            r.Some? && r.value.val == VDict(PairsMeaning(TUint(W8), m, [], ps).value.val)
  {
  }

  /**
   * A handshake adds up with what was known before: every registered key gets its number, cut to a byte,
   * every other key keeps its id. The raw entries are those of the handshake.
   */
  lemma HandshakeTeaches(m: seq<Entry>, exts: seq<Ext>, tail: bytes)
    requires Ids(m) && Fit(exts)
    ensures var l := Learn(m, Enc(VDict(Handshake(exts))) + tail);
            && l.Some? && l.value.0 == RawEntries(Handshake(exts))
            && l.value.1 == NewIds(m, exts)
  {
    hide Fit, Enc, Handshake, Numbering, Ids, DecodeValue, RawEntries, HasTypeEntries, HasType;
    HandshakeGood(exts);
    NumbersOfFit(exts);
    SplitAndSplice(Handshake(exts), tail);
    RawLookup(Handshake(exts), KEY_M);
    IdsLearned(m, Numbering(exts));
  }

  lemma NumbersOfFit(exts: seq<Ext>)
    requires Fit(exts)
    ensures Numbers(Numbering(exts)) && Lookup(Handshake(exts), KEY_M) == Some(VDict(Numbering(exts)))
  {
    NumberingNumbers(exts);
    LookupPut(AllPuts(exts), KEY_M, VDict(Numbering(exts)), KEY_M);
  }

  /** What the ids are afterwards. */
  lemma IdLearned(m: seq<Entry>, exts: seq<Ext>, k: bytes)
    requires Ids(m) && Fit(exts)
    ensures var m' := NewIds(m, exts);
            && (forall i | 0 <= i < |exts| && exts[i].key == k :: IdOf(m', k) == (i + 1) % 256)
            && (!Registered(exts, k) ==> IdOf(m', k) == IdOf(m, k))
  {
    hide PutAll, Narrow, Numbering, GoodEntries, HasTypeEntries;
    NumberingNumbers(exts);
    var es := Numbering(exts);
    NarrowOrdered(es);
    LookupPutAll(m, Narrow(es), k);
    LookupNarrow(es, k);
    if Registered(exts, k) {
      var i :| 0 <= i < |exts| && exts[i].key == k;
      NumberOf(exts, i);
      assert forall j | 0 <= j < |exts| && exts[j].key == k :: j == i;
    } else {
      NumberOfOther(exts, k);
    }
  }

  /**
   * After a handshake, a slot up to the first extension that answers with an error is nil exactly when the
   * peer gave its key a number a byte holds as 0, which takes more than 255 extensions, or did not register
   * the key and no id was known for it before. Behind that extension every slot is as it was.
   */
  lemma SlotsAfterHandshake(m: seq<Entry>, mine: seq<Ext>, theirs: seq<Ext>, refuses: set<bytes>, j: nat)
    requires Ids(m) && Fit(theirs) && j < |mine|
    ensures var s := Settle(mine, RawEntries(Handshake(theirs)), NewIds(m, theirs), refuses);
            var k := FirstRefusal(mine, NewIds(m, theirs), refuses);
            && (s.ok <==> k == |mine|)
            && (s.exts[j].None? <==>
                j <= k && ((exists i | 0 <= i < |theirs| :: theirs[i].key == mine[j].key && (i + 1) % 256 == 0)
                           || (!Registered(theirs, mine[j].key) && IdOf(m, mine[j].key) == 0)))
            && (s.exts[j].Some? ==> s.exts[j] == Some(mine[j]))
  {
    hide NewIds, Fit, Settle, IdOf, RawEntries, Handshake, Ids, FirstRefusal;
    var key := mine[j].key;
    SettleSlots(mine, RawEntries(Handshake(theirs)), NewIds(m, theirs), refuses, j);
    IdLearned(m, theirs, key);
    if Registered(theirs, key) {
      var i :| 0 <= i < |theirs| && theirs[i].key == key;
    }
  }

  /** Behind an extension that answers with an error, one the peer does not know keeps its slot. */
  lemma RefusalExample()
    ensures var a, b := Ext([97], []), Ext([98], []);
            && Fit([a]) && !Registered([a], b.key) && Ids([])
            && Settle([a, b], RawEntries(Handshake([a])), NewIds([], [a]), {a.key}).exts == [Some(a), Some(b)]
  {
    hide Settle, RawEntries, Handshake, NewIds, IdOf, Ids, GoodEntries;
    var a, b := Ext([97], []), Ext([98], []);
    GoodNothing();
    assert Fit([a]);
    NoId(b.key);
    NoId(a.key);
    IdLearned([], [a], a.key);
    assert [a][0].key == a.key;
    SlotsAfterHandshake([], [a, b], [a], {a.key}, 0);
    SlotsAfterHandshake([], [a, b], [a], {a.key}, 1);
  }

  /** Extensions with the keys 0 to 255, one byte each. */
  function Many(): (r: seq<Ext>)
    ensures |r| == 256 && forall i | 0 <= i < 256 :: r[i] == Ext([i], [])
  {
    seq(256, i requires 0 <= i < 256 => Ext([i], []))
  }

  /** The last of 256 registered extensions is taken for one the peer does not know. */
  lemma ManyExtensionsExample()
    ensures Fit(Many()) && Registered(Many(), [255]) && Ids([])
    ensures Settle([Ext([255], [])], RawEntries(Handshake(Many())), NewIds([], Many()), {}).exts == [None]
  {
    hide Settle, RawEntries, Handshake, NewIds, Many, GoodEntries;
    GoodNothing();
    var theirs := Many();
    assert theirs[255].key == [255];
    NoId([255]);
    SlotsAfterHandshake([], [Ext([255], [])], theirs, {}, 0);
  }

  lemma NoId(k: bytes)
    ensures Ids([]) && IdOf([], k) == 0
  {
  }

  // ---------- ExtHSGetter ----------

  /** Get: an entry of the peer's handshake, decoded into a variable that holds `cur`. */
  function Get(hs: seq<Entry>, k: bytes, t: Type, cur: Value): Option<Value>
    requires HasTypeEntries(TRaw, hs) && HasType(t, cur)
  {
    match Lookup(hs, k)
    case None => None
    case Some(raw) =>
      LookupTyped(TRaw, hs, k);
      Unmarshal(t, cur, raw.raw)
  }

  /** What the peer's extensions put under a key of their own is what Get finds there. */
  lemma GetAfterPut(exts: seq<Ext>, k: bytes, t: Type, v: Value)
    requires Fit(exts) && k != KEY_M && Lookup(AllPuts(exts), k) == Some(v)
    requires HasType(t, v) && Encodable(v) && !v.VNil?
    requires HasTypeEntries(TRaw, RawEntries(Handshake(exts)))
    ensures Get(RawEntries(Handshake(exts)), k, t, Zero(t)) == Some(Norm(t, v))
  {
    LookupPut(AllPuts(exts), KEY_M, VDict(Numbering(exts)), k);
    RawLookup(Handshake(exts), k);
    DecodeEnc(t, v, []);
    assert Enc(v) + [] == Enc(v);
  }

  /** The entry is read into the variable: a map keeps the keys that the entry does not have. */
  lemma GetIntoMap(hs: seq<Entry>, k: bytes, e: Type, es: seq<Entry>, key: bytes)
    requires HasTypeEntries(TRaw, hs) && HasType(TMap(e), VDict(es)) && Get(hs, k, TMap(e), VDict(es)).Some?
    ensures Lookup(hs, k).Some? && Lookup(hs, k).value.VRaw?
    ensures var d := Scan(Lookup(hs, k).value.raw, true);
            var r := Get(hs, k, TMap(e), VDict(es)).value;
            && d.Done? && d.value.DictLit? && r.VDict?
            && (LastAt(d.value.pairs, key).None? ==> Lookup(r.es, key) == Lookup(es, key))
  {
    hide Scan, DecodeValue, Lookup, LastAt, StandsFor;
    LookupTyped(TRaw, hs, k);
    MapRead(e, es, Lookup(hs, k).value.raw, key);
  }

  // ---------- routing ----------

  /** An extension message is read off the stream as its id and content, whatever follows. */
  lemma ExtFrameRead(id: byte, content: bytes, rest: bytes)
    requires |content| + 2 < TWO32
    ensures ReadFrame(ExtFrame(id, content) + rest) == Done([EXT_ID] + ([id] + content), |ExtFrame(id, content)|)
  {
    FrameRoundTrip(EXT_ID, [id] + content, rest);
  }

  /** The stream one side writes for its handshake. */
  method Announce(from: ExtProtocol, ghost exts: seq<Ext>) returns (stream: bytes)
    requires from.Valid() && from.exts == All(exts) && Fit(exts)
    ensures stream == ExtFrame(0, Enc(VDict(Handshake(exts))))
  {
    hide Enc, Handshake, All, Present, Fit, Ids;
    HandshakeGood(exts);
    PresentAll(exts);
    var w := new Writer();
    from.WriteHandshake(w);
    stream := w.out;
  }

  /** The other side reads and handles it. */
  method Hear(to: ExtProtocol, stream: bytes, ghost theirs: seq<Ext>, ghost mine: seq<Ext>)
    requires to.Valid() && to.exts == All(mine) && to.m == []
    requires Fit(theirs) && |Enc(VDict(Handshake(theirs)))| + 2 < TWO32
    requires stream == ExtFrame(0, Enc(VDict(Handshake(theirs))))
    modifies to
    ensures to.Valid() && to.m == NewIds([], theirs)
    ensures var s := Settle(mine, RawEntries(Handshake(theirs)), to.m, {});
            to.exts == s.exts && to.calls == old(to.calls) + s.calls
  {
    hide Enc, Handshake, Settle, All, Present, NewIds, Fit, Ids, RawEntries, Learn;
    PresentAll(mine);
    ghost var body := Enc(VDict(Handshake(theirs)));
    assert stream == ExtFrame(0, body) + [];
    ExtFrameRead(0, body, []);
    var r := new Reader(stream);
    var buf, ok := ReadMessage(r);
    assert buf[1..] == [0] + body;
    assert buf[1..][1..] == body + [];
    HandshakeTeaches([], theirs, []);
    ok := to.HandlePayload(buf[1..], {});
  }

  /** What both sides are like when they have heard each other. */
  ghost predicate Heard(p: ExtProtocol, mine: seq<Ext>, theirs: seq<Ext>)
    reads p
  {
    && p.m == NewIds([], theirs)
    && |p.exts| == |mine|
    && forall i | 0 <= i < |mine| :: p.exts[i] == if Registered(theirs, mine[i].key) then Some(mine[i]) else None
  }

  lemma HeardSlots(mine: seq<Ext>, theirs: seq<Ext>, j: nat)
    requires Fit(theirs) && |theirs| <= 255 && j < |mine|
    ensures Settle(mine, RawEntries(Handshake(theirs)), NewIds([], theirs), {}).exts[j] ==
            if Registered(theirs, mine[j].key) then Some(mine[j]) else None
  {
    hide NewIds, Fit, Settle, RawEntries, Handshake;
    NoId(mine[j].key);
    SlotsAfterHandshake([], mine, theirs, {}, j);
  }

  /**
   * Both sides announce themselves and hear each other: a slot is nil exactly when the peer did not
   * register its key.
   */
  method Meet(a: ExtProtocol, b: ExtProtocol, ghost as': seq<Ext>, ghost bs: seq<Ext>)
    requires a != b && a.Valid() && b.Valid() && a.m == [] && b.m == []
    requires a.exts == All(as') && b.exts == All(bs) && Fit(as') && Fit(bs) && |as'| <= 255 && |bs| <= 255
    requires |Enc(VDict(Handshake(as')))| + 2 < TWO32 && |Enc(VDict(Handshake(bs)))| + 2 < TWO32
    modifies a, b
    ensures a.Valid() && b.Valid() && Heard(a, as', bs) && Heard(b, bs, as')
  {
    hide Enc, Handshake, Settle, All, NewIds, Fit, Ids, RawEntries, Registered;
    var fromA := Announce(a, as');
    var fromB := Announce(b, bs);
    Hear(a, fromB, bs, as');
    Hear(b, fromA, as', bs);
    forall i | 0 <= i < |as'| ensures a.exts[i] == if Registered(bs, as'[i].key) then Some(as'[i]) else None {
      HeardSlots(as', bs, i);
    }
    forall i | 0 <= i < |bs| ensures b.exts[i] == if Registered(as', bs[i].key) then Some(bs[i]) else None {
      HeardSlots(bs, as', i);
    }
  }

  /** The id that a side has learned for a key is the position the peer gave it. */
  lemma SenderId(theirs: seq<Ext>, i: nat)
    requires Fit(theirs) && |theirs| <= 255 && i < |theirs|
    ensures IdOf(NewIds([], theirs), theirs[i].key) == i + 1
  {
    hide NewIds, IdOf;
    NoId(theirs[i].key);
    IdLearned([], theirs, theirs[i].key);
  }

  /**
   * End to end: after they have met, the side `b` sends `content` through the sender that its extension `j`
   * was given. If the peer knows the extension, the other side dispatches exactly this content to its
   * extension with the same key, together with a sender that leads back to `b`'s.
   */
  method Deliver(a: ExtProtocol, b: ExtProtocol, ghost as': seq<Ext>, ghost bs: seq<Ext>, j: nat, content: bytes)
    requires a != b && a.Valid() && b.Valid() && Heard(a, as', bs) && Heard(b, bs, as')
    requires Fit(as') && Fit(bs) && |as'| <= 255 && |bs| <= 255
    requires j < |b.exts| && b.exts[j].Some? && |content| + 2 < TWO32
    modifies a
    ensures a.calls == old(a.calls) + [HandleMessage(bs[j].key, content, j + 1)]
    ensures a.Valid() && Heard(a, as', bs)
  {
    hide NewIds, Fit, Ids, IdOf;
    var key := b.exts[j].value.key;
    ghost var i :| 0 <= i < |as'| && as'[i].key == key;
    SenderId(as', i);
    SenderId(bs, j);
    var id := IdOf(b.m, key);
    var w := new Writer();
    WriteExtensionMessage(w, id, content);
    assert w.out == ExtFrame(id, content) + [];
    ExtFrameRead(id, content, []);
    var r := new Reader(w.out);
    var buf, ok := ReadMessage(r);
    assert buf[1..] == [id] + content;
    assert buf[1..][1..] == content;
    NoId(key);
    ok := a.HandlePayload(buf[1..], {});
  }
}
