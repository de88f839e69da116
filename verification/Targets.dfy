/** What each kind of target makes of what it is given, and what it keeps of what it held (bencode/docode.go). */
module Targets {
  import opened Bytes
  import opened Numerals
  import opened Syntax
  import opened Values
  import opened Decode
  import opened Interp
  import opened OnePass
  import opened Encode
  import opened RoundTrip
  import opened Lazy

  // ---------- numbers ----------

  /** A target that is neither a pointer nor reads itself. */
  predicate Plain(t: Type) {
    !t.TPtr? && !t.TRaw?
  }

  function NumberText(i: int): bytes {
    Ascii("i") + FormatInt(i) + Ascii("e")
  }

  lemma NumeralRead(t: Type, cur: Value, num: bytes, rest: bytes)
    requires HasType(t, cur) && Plain(t) && CH_E !in num
    ensures DecodeValue(t, cur, [CH_I] + num + [CH_E] + rest) ==
            var v := IntTo(t, num); if v.None? then Fail else Done(Out(v.value, true, true), |num| + 2)
  {
    hide IntTo, Line, HasType;
    var s := [CH_I] + num + [CH_E] + rest;
    assert s == ([CH_I] + num) + [CH_E] + rest;
    LineIs([CH_I] + num, CH_E, rest);
    assert ([CH_I] + num)[1..] == num;
  }

  lemma IntegerRead(t: Type, cur: Value, i: int, rest: bytes)
    requires HasType(t, cur) && Plain(t)
    ensures DecodeValue(t, cur, NumberText(i) + rest) ==
            var v := IntTo(t, FormatInt(i)); if v.None? then Fail else Done(Out(v.value, true, true), |NumberText(i)|)
  {
    hide IntTo, DecodeValue, HasType, FormatInt;
    FormatIntLexical(i);
    assert Ascii("i") == [CH_I] && Ascii("e") == [CH_E];
    NumeralRead(t, cur, FormatInt(i), rest);
  }

  lemma UnsignedParsed(i: int)
    ensures var u := ParseUint(FormatInt(i), 0xFFFF_FFFF_FFFF_FFFF);
            if 0 <= i < 0x1_0000_0000_0000_0000 then u == Num(i, Ok) else !u.status.Ok?
  {
    hide ParseUint, Digits, ValueFrom;
    ParseUintExactly(FormatInt(i), 0xFFFF_FFFF_FFFF_FFFF);
    if i < 0 {
      assert FormatInt(i)[0] == 45;
    } else {
      DigitsAre(i);
      ValueOfDigits(i);
    }
  }

  lemma SignedParsed(i: int)
    ensures var u := ParseInt(FormatInt(i), 0x8000_0000_0000_0000);
            if -0x8000_0000_0000_0000 <= i < 0x8000_0000_0000_0000 then u == Num(i, Ok) else !u.status.Ok?
  {
    hide ParseInt, Digits, ValueFrom, Unsigned;
    var n: int := if i < 0 then -i else i;
    ParseIntExactly(FormatInt(i), 0x8000_0000_0000_0000);
    DigitsAre(n);
    ValueOfDigits(n);
    DigitsUnsigned(Digits(n));
  }

  /** A number is true for a bool exactly when it is not 0; it must not be negative, and fit 64 bits. */
  lemma BoolRead(cur: Value, i: int, rest: bytes)
    requires HasType(TBool, cur)
    ensures DecodeValue(TBool, cur, NumberText(i) + rest) ==
            if 0 <= i < 0x1_0000_0000_0000_0000 then Done(Out(VBool(i != 0), true, true), |FormatInt(i)| + 2) else Fail
  {
    hide DecodeValue, FormatInt, ParseUint;
    IntegerRead(TBool, cur, i, rest);
    UnsignedParsed(i);
  }

  /** An unsigned target takes what fits 64 bits and keeps the low bits. */
  lemma UintRead(w: Width, cur: Value, i: int, rest: bytes)
    requires HasType(TUint(w), cur)
    ensures var d := DecodeValue(TUint(w), cur, NumberText(i) + rest);
            && (d.Done? <==> 0 <= i < 0x1_0000_0000_0000_0000)
            && (d.Done? ==>
                  && d.n == |FormatInt(i)| + 2 && d.value.ordered && d.value.known && d.value.val.VInt?
                  && 0 <= d.value.val.i < 2 * Half(w) && SameLowBits(d.value.val.i, i, w))
  {
    hide DecodeValue, FormatInt, ParseUint, SameLowBits, HasType;
    IntegerRead(TUint(w), cur, i, rest);
    UnsignedParsed(i);
  }

  /** A signed target takes what fits 64 bits and keeps the low bits. */
  lemma IntRead(w: Width, cur: Value, i: int, rest: bytes)
    requires HasType(TInt(w), cur)
    ensures var d := DecodeValue(TInt(w), cur, NumberText(i) + rest);
            && (d.Done? <==> -0x8000_0000_0000_0000 <= i < 0x8000_0000_0000_0000)
            && (d.Done? ==>
                  && d.n == |FormatInt(i)| + 2 && d.value.ordered && d.value.known && d.value.val.VInt?
                  && -Half(w) <= d.value.val.i < Half(w) && SameLowBits(d.value.val.i, i, w))
  {
    hide DecodeValue, FormatInt, ParseInt, SameLowBits, HasType;
    IntegerRead(TInt(w), cur, i, rest);
    SignedParsed(i);
  }

  /** An interface takes a number that fits an int64 as it is, and any other target refuses numbers. */
  lemma NumberElsewhere(t: Type, cur: Value, i: int, rest: bytes)
    requires HasType(t, cur) && Plain(t) && !t.TInt? && !t.TUint? && !t.TBool?
    ensures DecodeValue(t, cur, NumberText(i) + rest) ==
            if t.TAny? && -0x8000_0000_0000_0000 <= i < 0x8000_0000_0000_0000
            then Done(Out(VInt(i), true, true), |FormatInt(i)| + 2) else Fail
  {
    hide DecodeValue, FormatInt, ParseInt, HasType;
    IntegerRead(t, cur, i, rest);
    SignedParsed(i);
  }

  // ---------- strings ----------

  /** A string is taken by an interface, a string and a []byte, and refused by every other target. */
  lemma StringRead(t: Type, cur: Value, body: bytes, rest: bytes)
    requires HasType(t, cur) && Plain(t) && |body| < 0x8000_0000
    ensures var text := FormatInt(|body|) + Ascii(":") + body;
            DecodeValue(t, cur, text + rest) ==
            if t.TAny? || t.TStr? || t.TBytes? then Done(Out(VStr(body), true, true), |text|) else Fail
  {
    hide DecodeValue, FormatInt, HasType, Scan, LenValid;
    assert Ascii(":") == [COLON];
    assert Enc(VStr(body)) == FormatInt(|body|) + [COLON] + body;
    LenOfString(|body|);
    ScanEnc(VStr(body), rest);
    DecodeViaTree(t, cur, Enc(VStr(body)) + rest);
  }

  // ---------- which targets take what ----------

  /** What starts the text of a value decides which targets take it, and what an interface then holds. */
  lemma KindsMatch(t: Type, cur: Value, s: bytes)
    requires HasType(t, cur) && Plain(t) && DecodeValue(t, cur, s).Done?
    ensures s != [] && (s[0] == 105 || 48 <= s[0] <= 57 || s[0] == 108 || s[0] == 100)
    ensures s[0] == 105 ==> t.TAny? || t.TInt? || t.TUint? || t.TBool?
    ensures 48 <= s[0] <= 57 ==> t.TAny? || t.TStr? || t.TBytes?
    ensures s[0] == 108 ==> t.TAny? || t.TList? || t.TBytes? || t.TArray?
    ensures s[0] == 100 ==> t.TAny? || t.TMap? || t.TStruct?
    ensures var v := DecodeValue(t, cur, s).value.val;
            t.TAny? ==>
              && (s[0] == 105 ==> v.VInt?) && (48 <= s[0] <= 57 ==> v.VStr?)
              && (s[0] == 108 ==> v.VList?) && (s[0] == 100 ==> v.VDict?)
  {
    hide HasType, Line, DecodeString, ParseInt, ParseUint, DecodeItems, DecodeArray, DecodePairs, DecodeFields;
  }

  // ---------- pointers ----------

  /** Through a pointer: into what it points to, or into a new zero value where it is nil. */
  lemma PointerRead(e: Type, cur: Value, s: bytes)
    requires HasType(TPtr(e), cur)
    ensures cur != VNil ==> HasType(e, cur)
    ensures DecodeValue(TPtr(e), cur, s) == DecodeValue(e, if cur == VNil then Zero(e) else cur, s)
  {
  }

  // ---------- lists ----------

  /** A list replaces what a slice held, except that an empty list leaves it. */
  lemma SliceRead(e: Type, cur: Value, s: bytes)
    requires HasType(TList(e), cur)
    ensures var d := DecodeValue(TList(e), VList([]), s);
            DecodeValue(TList(e), cur, s) ==
            if d.Fail? then Fail
            else Done(Out(if d.value.val == VList([]) then cur else d.value.val, d.value.ordered, d.value.known), d.n)
  {
    hide DecodeItems, DecodeInt, DecodeStr, DecodeDict;
    if s == [] {
    } else if s[0] == CH_I {
      NumberIntoList(e, s);
    } else if IsDigit(s[0]) {
      StringIntoList(e, s);
    } else if s[0] == CH_D {
      DictIntoList(e, cur, s);
      DictIntoList(e, VList([]), s);
    }
  }

  lemma NumberIntoList(e: Type, s: bytes)
    requires s != [] && s[0] == CH_I
    ensures DecodeInt(TList(e), s).Fail?
  {
  }

  lemma StringIntoList(e: Type, s: bytes)
    requires s != [] && IsDigit(s[0])
    ensures DecodeStr(TList(e), s).Fail?
  {
  }

  lemma DictIntoList(e: Type, cur: Value, s: bytes)
    requires HasType(TList(e), cur) && s != [] && s[0] == CH_D
    ensures DecodeDict(TList(e), cur, s).Fail?
  {
  }

  lemma {:induction false} BytesOfAt(vs: seq<Value>, k: nat)
    requires HasTypeItems(TUint(W8), vs) && k < |vs|
    ensures |BytesOf(vs)| == |vs| && vs[k].VInt? && BytesOf(vs)[k] == vs[k].i
  {
    assert HasType(TUint(W8), vs[0]);
    if k == 0 {
      LengthOfBytes(vs);
    } else {
      BytesOfAt(vs[1..], k - 1);
    }
  }

  lemma {:induction false} LengthOfBytes(vs: seq<Value>)
    requires HasTypeItems(TUint(W8), vs)
    ensures |BytesOf(vs)| == |vs|
  {
    if vs == [] {
    } else {
      LengthOfBytes(vs[1..]);
    }
  }

  /** A list of numbers fills a []byte with these numbers, in order. */
  lemma ByteSliceRead(cur: Value, s: bytes)
    requires HasType(TBytes, cur) && s != [] && s[0] == 108
    ensures var d := DecodeValue(TBytes, cur, s);
            var list := DecodeValue(TList(TUint(W8)), VList([]), s);
            && (d.Done? <==> list.Done?)
            && (d.Done? ==>
                  var vs := list.value.val.vs;
                  && d.n == list.n && d.value.val.VStr?
                  && (vs == [] ==> d.value.val == cur)
                  && (vs != [] ==> |d.value.val.s| == |vs| &&
                                   forall k | 0 <= k < |vs| :: vs[k] == VInt(d.value.val.s[k])))
  {
    hide DecodeItems, BytesOf, HasTypeItems;
    var list := DecodeItems(TUint(W8), s[1..]);
    if list.Done? {
      var vs := list.value.val;
      LengthOfBytes(vs);
      forall k | 0 <= k < |vs| ensures vs[k] == VInt(BytesOf(vs)[k]) {
        BytesOfAt(vs, k);
      }
    }
  }

  // ---------- maps ----------

  lemma {:induction false} MapMeaning(t: Type, es: seq<Entry>, last: bytes, ps: seq<Pair>, k: bytes)
    requires HasTypeEntries(t, es) && Ordered(es) && PairsMeaning(t, es, last, ps).Some?
    ensures var r := PairsMeaning(t, es, last, ps).value.val;
            match LastAt(ps, k)
            case None => Lookup(r, k) == Lookup(es, k)
            case Some(tree) =>
              var m := Meaning(t, Zero(t), tree); m.Some? && Lookup(r, k) == Some(m.value.val)
    decreases |ps|
  {
    hide Meaning, Put, Lookup, HasTypeEntries, Ordered, LenValid, Zero, Less;
    if ps == [] {
    } else {
      var p := ps[0];
      var v := Meaning(t, Zero(t), p.val).value.val;
      MapMeaning(t, PairMeaning(t, es, p).value.val.es, p.key, ps[1..], k);
      LookupPut(es, p.key, v, k);
    }
  }

  /**
   * A dictionary is merged into what a map held: a key it has leads to what its last text reads as, from
   * zero, and every other key to what it led to before.
   */
  lemma MapRead(t: Type, es: seq<Entry>, s: bytes, k: bytes)
    requires HasType(TMap(t), VDict(es)) && DecodeValue(TMap(t), VDict(es), s).Done?
    ensures Scan(s, true).Done? && Scan(s, true).value.DictLit?
    ensures var r := DecodeValue(TMap(t), VDict(es), s).value.val;
            && r.VDict?
            && match LastAt(Scan(s, true).value.pairs, k)
               case None => Lookup(r.es, k) == Lookup(es, k)
               case Some(tree) =>
                 exists v :: StandsFor(t, VRaw(Show(tree)), v) && Lookup(r.es, k) == Some(v)
  {
    hide Scan, DecodeValue, PairsMeaning, StandsFor, Lookup, LastAt, Show, Lexical, LexicalPairs;
    DecodeViaTree(TMap(t), VDict(es), s);
    ScanSound(s, true);
    var tree := Scan(s, true).value;
    MapTree(t, es, tree);
    MapMeaning(t, es, [], tree.pairs, k);
    if LastAt(tree.pairs, k).Some? {
      LastLexical(tree.pairs, k);
      ShowStandsFor(t, LastAt(tree.pairs, k).value);
    }
  }

  lemma MapTree(t: Type, es: seq<Entry>, tree: Tree)
    requires HasType(TMap(t), VDict(es)) && Lexical(tree, true) && Meaning(TMap(t), VDict(es), tree).Some?
    ensures tree.DictLit? && LexicalPairs(tree.pairs, true) && HasTypeEntries(t, es) && Ordered(es)
    ensures var m := PairsMeaning(t, es, [], tree.pairs);
            m.Some? && Meaning(TMap(t), VDict(es), tree).value.val == VDict(m.value.val)
  {
  }

  lemma {:induction false} LastLexical(ps: seq<Pair>, k: bytes)
    requires LexicalPairs(ps, true) && LastAt(ps, k).Some?
    ensures Lexical(LastAt(ps, k).value, true)
  {
    if LastAt(ps[1..], k).Some? {
      LastLexical(ps[1..], k);
    } else {
      assert LexicalPair(ps[0], true);
    }
  }

  // ---------- arrays ----------

  lemma {:induction false} ArrayMeaningAt(t: Type, cur: seq<Value>, trees: seq<Tree>, k: nat)
    requires HasTypeItems(t, cur) && ArrayMeaning(t, cur, trees).Some? && k < |cur|
    ensures HasType(t, cur[k]) && |ArrayMeaning(t, cur, trees).value.val| == |cur|
    ensures var r := ArrayMeaning(t, cur, trees).value.val;
            if k < |trees| then var m := Meaning(t, cur[k], trees[k]); m.Some? && r[k] == m.value.val
            else r[k] == cur[k]
    decreases |cur|
  {
    hide Meaning, HasType, NonNegative;
    if trees == [] {
      ItemTyped(t, cur, k);
      ArrayMeaningUnfold(t, cur, IntLit([]), []);
    } else {
      assert trees == [trees[0]] + trees[1..];
      ArrayMeaningUnfold(t, cur, trees[0], trees[1..]);
      if k > 0 {
        ArrayMeaningAt(t, cur[1..], trees[1..], k - 1);
      }
    }
  }

  lemma {:induction false} ItemTyped(t: Type, vs: seq<Value>, k: nat)
    requires HasTypeItems(t, vs) && k < |vs|
    ensures HasType(t, vs[k])
  {
    if k == 0 {
    } else {
      ItemTyped(t, vs[1..], k - 1);
    }
  }

  /**
   * A list is read into an array from the front: an element with a text takes what it reads as, from what it
   * held, and the elements behind the list stay.
   */
  lemma ArrayRead(n: nat, e: Type, cur: Value, s: bytes, k: nat)
    requires HasType(TArray(n, e), cur) && DecodeValue(TArray(n, e), cur, s).Done? && k < n
    ensures Scan(s, true).Done? && Scan(s, true).value.ListLit? && HasType(e, cur.vs[k])
    ensures var items := Scan(s, true).value.items;
            var r := DecodeValue(TArray(n, e), cur, s).value.val;
            && r.VList? && |r.vs| == n
            && if k < |items|
               then DecodeValue(e, cur.vs[k], Show(items[k])).Done?
                    && DecodeValue(e, cur.vs[k], Show(items[k])).value.val == r.vs[k]
               else r.vs[k] == cur.vs[k]
  {
    hide Scan, DecodeValue, ArrayMeaning, Show, Lexical, LexicalItems, HasTypeItems;
    DecodeViaTree(TArray(n, e), cur, s);
    ScanSound(s, true);
    var tree := Scan(s, true).value;
    ArrayTree(n, e, cur, tree);
    ArrayMeaningAt(e, cur.vs, tree.items, k);
    if k < |tree.items| {
      ItemLexical(tree.items, k);
      TextRead(e, cur.vs[k], tree.items[k]);
    }
  }

  lemma ArrayTree(n: nat, e: Type, cur: Value, tree: Tree)
    requires HasType(TArray(n, e), cur) && Lexical(tree, true) && Meaning(TArray(n, e), cur, tree).Some?
    ensures tree.ListLit? && LexicalItems(tree.items, true) && HasTypeItems(e, cur.vs) && |cur.vs| == n
    ensures var m := ArrayMeaning(e, cur.vs, tree.items);
            m.Some? && Meaning(TArray(n, e), cur, tree).value.val == VList(m.value.val)
  {
  }

  lemma {:induction false} ItemLexical(trees: seq<Tree>, k: nat)
    requires LexicalItems(trees, true) && k < |trees|
    ensures Lexical(trees[k], true)
  {
    if k == 0 {
    } else {
      ItemLexical(trees[1..], k - 1);
    }
  }

  /** The text of a tree reads as the tree means. */
  lemma TextRead(t: Type, cur: Value, tree: Tree)
    requires HasType(t, cur) && Lexical(tree, true) && Meaning(t, cur, tree).Some?
    ensures DecodeValue(t, cur, Show(tree)) == Done(Meaning(t, cur, tree).value, |Show(tree)|)
  {
    hide Scan, DecodeValue, Meaning, Lexical, HasType;
    ScanComplete(tree, [], true);
    assert Show(tree) + [] == Show(tree);
    DecodeViaTree(t, cur, Show(tree));
  }

  // ---------- structs ----------

  lemma {:induction false} RecordMeaningAt(fields: seq<Field>, fs: seq<FieldVal>, last: bytes, ps: seq<Pair>, i: nat)
    requires HasTypeFields(fields, fs) && FieldsMeaning(fields, fs, last, ps).Some? && i < |fs|
    ensures var r := FieldsMeaning(fields, fs, last, ps).value.val;
            && |r| == |fs| && r[i].field == fs[i].field
            && ((forall p | p in ps :: FieldIndex(fs, p.key) != Some(i)) ==> r[i] == fs[i])
    decreases |ps|
  {
    hide MemberMeaning, HasTypeFields, FieldIndex, Less;
    if ps == [] {
    } else {
      var gs := MemberMeaning(fields, fs, ps[0]).value.val.fs;
      MemberSameNames(fields, fs, ps[0]);
      RecordMeaningAt(fields, gs, ps[0].key, ps[1..], i);
      if forall p | p in ps :: FieldIndex(fs, p.key) != Some(i) {
        forall p | p in ps[1..] ensures FieldIndex(gs, p.key) != Some(i) {
          assert p in ps;
          FieldIndexSame(fs, gs, p.key);
        }
        assert ps[0] in ps;
      }
    }
  }

  /** A field that no key leads to keeps what it held. */
  lemma RecordRead(fields: seq<Field>, fs: seq<FieldVal>, s: bytes, i: nat)
    requires HasType(TStruct(fields), VStruct(fs)) && DecodeValue(TStruct(fields), VStruct(fs), s).Done? && i < |fs|
    ensures Scan(s, true).Done? && Scan(s, true).value.DictLit?
    ensures var r := DecodeValue(TStruct(fields), VStruct(fs), s).value.val;
            && r.VStruct? && |r.fs| == |fs| && r.fs[i].field == fs[i].field
            && ((forall p | p in Scan(s, true).value.pairs :: FieldIndex(fs, p.key) != Some(i)) ==> r.fs[i] == fs[i])
  {
    hide Scan, DecodeValue, FieldsMeaning, FieldIndex, HasTypeFields;
    DecodeViaTree(TStruct(fields), VStruct(fs), s);
    var tree := Scan(s, true).value;
    if tree.DictLit? {
      RecordMeaningAt(fields, fs, [], tree.pairs, i);
    }
  }
}
