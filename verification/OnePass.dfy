/**
 * One pass equals two: the type-directed decoder computes exactly what scanning the input and then
 * interpreting the tree gives, so every decode is simulated by the scanner.
 */
module OnePass {
  import opened Bytes
  import opened Numerals
  import opened Syntax
  import opened Values
  import opened Decode
  import opened Interp

  /** An interpretation of what was found in the first `n` bytes. */
  function Via<T>(meaning: Option<Out<T>>, n: nat): Parsed<Out<T>> {
    match meaning
    case None => Fail
    case Some(o) => Done(o, n)
  }

  lemma StringViaTree(s: bytes)
    ensures DecodeString(s).Done? <==>
            ScanString(s, true).Done? && LenValid(ScanString(s, true).value.len)
    ensures DecodeString(s).Done? ==> DecodeString(s) == ScanString(s, true)
  {
    if Line(s, COLON).Done? && LenValid(Line(s, COLON).value) {
      ParseIntWider(Line(s, COLON).value, HALF32, HALF64);
    }
  }

  lemma RawViaTree(cur: Value, s: bytes)
    requires HasType(TRaw, cur)
    ensures DecodeValue(TRaw, cur, s) ==
            var d := Scan(s, true); if d.Fail? then Fail else Via(Meaning(TRaw, cur, d.value), d.n)
  {
    hide Scan, Show, Lexical;
    if Scan(s, true).Done? {
      ScanSound(s, true);
    }
  }

  lemma IntViaTree(t: Type, cur: Value, s: bytes)
    requires HasType(t, cur) && !t.TRaw? && !t.TPtr? && s != [] && s[0] == CH_I
    ensures DecodeValue(t, cur, s) ==
            var d := Scan(s, true); if d.Fail? then Fail else Via(Meaning(t, cur, d.value), d.n)
  {
    hide HasType, IntTo, Line, ScanItems, ScanPairs, ScanString;
  }

  lemma StrViaTree(t: Type, cur: Value, s: bytes)
    requires HasType(t, cur) && !t.TRaw? && !t.TPtr? && s != [] && IsDigit(s[0])
    ensures DecodeValue(t, cur, s) ==
            var d := Scan(s, true); if d.Fail? then Fail else Via(Meaning(t, cur, d.value), d.n)
  {
    hide HasType, StrTo, DecodeString, ScanString, ScanInt, ScanItems, ScanPairs, LenValid;
    StringViaTree(s);
  }

  /** Bytes no value starts with. */
  lemma NothingViaTree(t: Type, cur: Value, s: bytes)
    requires HasType(t, cur) && !t.TRaw? && !t.TPtr?
    requires s == [] || (s[0] != CH_I && !IsDigit(s[0]) && s[0] != CH_L && s[0] != CH_D)
    ensures DecodeValue(t, cur, s) == Fail && Scan(s, true) == Fail
  {
    hide HasType, IsDigit;
  }

  lemma PointerUnfold(t: Type, cur: Value, s: bytes, tree: Tree)
    requires t.TPtr? && HasType(t, cur)
    ensures HasType(t.elem, Pointee(t, cur))
    ensures DecodeValue(t, cur, s) == DecodeValue(t.elem, Pointee(t, cur), s)
    ensures Meaning(t, cur, tree) == Meaning(t.elem, Pointee(t, cur), tree)
  {
  }

  lemma ListLift(t: Type, cur: Value, s: bytes)
    requires HasType(t, cur) && !t.TRaw? && !t.TPtr? && s != [] && s[0] == CH_L
    requires DecodeList(t, cur, s) ==
             var d := ScanItems(s[1..], true); if d.Fail? then Fail else Via(ListMeaning(t, cur, d.value), 1 + d.n)
    ensures DecodeValue(t, cur, s) ==
            var d := Scan(s, true); if d.Fail? then Fail else Via(Meaning(t, cur, d.value), d.n)
  {
    hide DecodeList, DecodeDict, ListMeaning, DictMeaning, HasType, ScanItems, ScanPairs, ScanInt, ScanString;
  }

  lemma DictLift(t: Type, cur: Value, s: bytes)
    requires HasType(t, cur) && !t.TRaw? && !t.TPtr? && s != [] && s[0] == CH_D
    requires DecodeDict(t, cur, s) ==
             var d := ScanPairs(s[1..], true); if d.Fail? then Fail else Via(DictMeaning(t, cur, d.value), 1 + d.n)
    ensures DecodeValue(t, cur, s) ==
            var d := Scan(s, true); if d.Fail? then Fail else Via(Meaning(t, cur, d.value), d.n)
  {
    hide DecodeList, DecodeDict, ListMeaning, DictMeaning, HasType, ScanItems, ScanPairs, ScanInt, ScanString;
  }

  /** Decoding under any type is scanning followed by interpretation: same value, same end, same failures. */
  lemma {:induction false} DecodeViaTree(t: Type, cur: Value, s: bytes)
    requires HasType(t, cur)
    ensures DecodeValue(t, cur, s) ==
            var d := Scan(s, true); if d.Fail? then Fail else Via(Meaning(t, cur, d.value), d.n)
    decreases |s|, 0, t
  {
    hide Scan, DecodeValue, DecodeList, DecodeDict, Meaning, ListMeaning, DictMeaning, ScanItems, ScanPairs, HasType;
    if t.TRaw? {
      RawViaTree(cur, s);
    } else if t.TPtr? {
      var d := Scan(s, true);
      PointerUnfold(t, cur, s, if d.Fail? then IntLit([]) else d.value);
      DecodeViaTree(t.elem, Pointee(t, cur), s);
    } else if s != [] && s[0] == CH_I {
      IntViaTree(t, cur, s);
    } else if s != [] && IsDigit(s[0]) {
      StrViaTree(t, cur, s);
    } else if s != [] && s[0] == CH_L {
      ListViaTree(t, cur, s);
      ListLift(t, cur, s);
    } else if s != [] && s[0] == CH_D {
      DictViaTree(t, cur, s);
      DictLift(t, cur, s);
    } else {
      NothingViaTree(t, cur, s);
    }
  }

  lemma {:induction false} ListViaTree(t: Type, cur: Value, s: bytes)
    requires HasType(t, cur) && s != [] && s[0] == CH_L
    ensures DecodeList(t, cur, s) ==
            var d := ScanItems(s[1..], true); if d.Fail? then Fail else Via(ListMeaning(t, cur, d.value), 1 + d.n)
    decreases |s| - 1, 4
  {
    hide DecodeItems, DecodeArray, ItemsMeaning, ArrayMeaning, ScanItems, HasTypeItems, HasTypeEntries, HasTypeFields;
    match t
    case TAny => ItemsViaTree(TAny, s[1..]);
    case TList(e) => ItemsViaTree(e, s[1..]);
    case TBytes => ItemsViaTree(TUint(W8), s[1..]);
    case TArray(_, e) => ArrayViaTree(e, cur.vs, s[1..]);
    case _ =>
  }

  lemma {:induction false} DictViaTree(t: Type, cur: Value, s: bytes)
    requires HasType(t, cur) && s != [] && s[0] == CH_D
    ensures DecodeDict(t, cur, s) ==
            var d := ScanPairs(s[1..], true); if d.Fail? then Fail else Via(DictMeaning(t, cur, d.value), 1 + d.n)
    decreases |s| - 1, 4
  {
    hide DecodePairs, DecodeFields, PairsMeaning, FieldsMeaning, ScanPairs, HasTypeItems, HasTypeFields;
    match t
    case TAny => PairsViaTree(TAny, [], [], s[1..]);
    case TMap(e) => PairsViaTree(e, cur.es, [], s[1..]);
    case TStruct(fields) => FieldsViaTree(fields, cur.fs, [], s[1..]);
    case _ =>
  }

  lemma ItemsMeaningUnfold(t: Type, tree: Tree, tail: seq<Tree>)
    ensures ItemsMeaning(t, []) == Some(Out([], true, true))
    ensures ItemsMeaning(t, [tree] + tail) ==
            var a := Meaning(t, Zero(t), tree);
            if a.None? then None else
              var b := ItemsMeaning(t, tail);
              if b.None? then None else
                Some(Out([a.value.val] + b.value.val, a.value.ordered && b.value.ordered,
                         a.value.known && b.value.known))
  {
    assert ([tree] + tail)[1..] == tail;
  }

  lemma {:induction false} ItemsViaTree(t: Type, s: bytes)
    ensures DecodeItems(t, s) ==
            var d := ScanItems(s, true); if d.Fail? then Fail else Via(ItemsMeaning(t, d.value), d.n)
    decreases |s|, 2
  {
    hide DecodeItems, ScanItems, ItemsMeaning, Meaning, Scan, DecodeValue, HasType, HasTypeItems, Zero;
    DecodeItemsUnfold(t, s);
    ScanItemsUnfold(s, true);
    ItemsMeaningUnfold(t, IntLit([]), []);
    if s != [] && s[0] != CH_E {
      DecodeViaTree(t, Zero(t), s);
      if Scan(s, true).Done? {
        var Done(tree, n) := Scan(s, true);
        ItemsViaTree(t, s[n..]);
        if ScanItems(s[n..], true).Done? {
          ItemsMeaningUnfold(t, tree, ScanItems(s[n..], true).value);
        }
      }
    }
  }

  lemma BeyondMeaningUnfold(t: Type, tree: Tree, tail: seq<Tree>)
    ensures HasTypeItems(t, [])
    ensures ArrayMeaning(t, [], []) == Some(Out([], true, true))
    ensures ArrayMeaning(t, [], [tree] + tail) == if NonNegative(tree) then ArrayMeaning(t, [], tail) else None
  {
    assert ([tree] + tail)[1..] == tail;
  }

  lemma ArrayMeaningUnfold(t: Type, cur: seq<Value>, tree: Tree, tail: seq<Tree>)
    requires HasTypeItems(t, cur) && cur != []
    ensures ArrayMeaning(t, cur, []) == Some(Out(cur, true, true))
    ensures HasType(t, cur[0]) && HasTypeItems(t, cur[1..])
    ensures ArrayMeaning(t, cur, [tree] + tail) ==
            var a := Meaning(t, cur[0], tree);
            if a.None? then None else
              var b := ArrayMeaning(t, cur[1..], tail);
              if b.None? then None else
                Some(Out([a.value.val] + b.value.val, a.value.ordered && b.value.ordered,
                         a.value.known && b.value.known))
  {
    assert ([tree] + tail)[1..] == tail;
  }

  /** One element of an array that has a place for it. */
  lemma ArrayRound(t: Type, cur: seq<Value>, s: bytes, tree: Tree, n: nat)
    requires HasTypeItems(t, cur) && cur != [] && HasType(t, cur[0]) && HasTypeItems(t, cur[1..])
    requires s != [] && s[0] != CH_E && Scan(s, true) == Done(tree, n) && n <= |s|
    requires DecodeValue(t, cur[0], s) == Via(Meaning(t, cur[0], tree), n)
    requires DecodeArray(t, cur[1..], s[n..]) ==
             var d := ScanItems(s[n..], true);
             if d.Fail? then Fail else Via(ArrayMeaning(t, cur[1..], d.value), d.n)
    ensures DecodeArray(t, cur, s) ==
            var d := ScanItems(s, true); if d.Fail? then Fail else Via(ArrayMeaning(t, cur, d.value), d.n)
  {
    hide DecodeArray, ScanItems, ArrayMeaning, Meaning, Scan, DecodeValue, HasType, HasTypeItems;
    DecodeArrayUnfold(t, cur, s);
    ScanItemsUnfold(s, true);
    var d := ScanItems(s[n..], true);
    if d.Done? {
      ArrayMeaningUnfold(t, cur, tree, d.value);
    }
  }

  lemma {:induction false} ArrayViaTree(t: Type, cur: seq<Value>, s: bytes)
    requires HasTypeItems(t, cur)
    ensures DecodeArray(t, cur, s) ==
            var d := ScanItems(s, true); if d.Fail? then Fail else Via(ArrayMeaning(t, cur, d.value), d.n)
    decreases |s|, 3
  {
    hide DecodeArray, ScanItems, ArrayMeaning, Meaning, Scan, DecodeValue, HasType, HasTypeItems;
    if cur == [] {
      BeyondViaTree(t, s);
    } else {
      DecodeArrayUnfold(t, cur, s);
      ScanItemsUnfold(s, true);
      ArrayMeaningUnfold(t, cur, IntLit([]), []);
      if s != [] && s[0] != CH_E {
        DecodeViaTree(t, cur[0], s);
        if Scan(s, true).Done? {
          var Done(tree, n) := Scan(s, true);
          ArrayViaTree(t, cur[1..], s[n..]);
          ArrayRound(t, cur, s, tree, n);
        }
      }
    }
  }

  /** Elements beyond the end of an array. */
  lemma {:induction false} BeyondViaTree(t: Type, s: bytes)
    ensures HasTypeItems(t, [])
    ensures DecodeArray(t, [], s) ==
            var d := ScanItems(s, true); if d.Fail? then Fail else Via(ArrayMeaning(t, [], d.value), d.n)
    decreases |s|, 2
  {
    hide DecodeArray, ScanItems, ArrayMeaning, Scan, NonNegative;
    DecodeBeyondUnfold(t, s);
    ScanItemsUnfold(s, true);
    BeyondMeaningUnfold(t, IntLit([]), []);
    if s != [] && s[0] != CH_E {
      SkipAgreesWithCapture(s);
      if Scan(s, true).Done? {
        var Done(tree, n) := Scan(s, true);
        BeyondViaTree(t, s[n..]);
        if ScanItems(s[n..], true).Done? {
          BeyondMeaningUnfold(t, tree, ScanItems(s[n..], true).value);
        }
      }
    }
  }

  lemma PairsMeaningUnfold(t: Type, es: seq<Entry>, last: bytes, p: Pair, tail: seq<Pair>)
    requires HasTypeEntries(t, es) && Ordered(es)
    ensures PairsMeaning(t, es, last, []) == Some(Out(es, true, true))
    ensures PairsMeaning(t, es, last, [p] + tail) ==
            var a := PairMeaning(t, es, p);
            if a.None? then None else
              var b := PairsMeaning(t, a.value.val.es, p.key, tail);
              if b.None? then None else Some(After(a.value, p.key, last, b.value))
  {
    assert ([p] + tail)[1..] == tail;
  }

  lemma {:induction false} PairsViaTree(t: Type, es: seq<Entry>, last: bytes, s: bytes)
    requires HasTypeEntries(t, es) && Ordered(es)
    ensures DecodePairs(t, es, last, s) ==
            var d := ScanPairs(s, true); if d.Fail? then Fail else Via(PairsMeaning(t, es, last, d.value), d.n)
    decreases |s|, 3
  {
    hide DecodePairs, DecodePair, ScanPairs, ScanPair, PairsMeaning, PairMeaning, HasTypeEntries, Ordered, After;
    DecodePairsUnfold(t, es, last, s);
    ScanPairsUnfold(s, true);
    if s == [] || s[0] == CH_E {
      PairsMeaningUnfold(t, es, last, Pair([], [], IntLit([])), []);
    } else {
      PairViaTree(t, es, s);
      if ScanPair(s, true).Done? {
        var Done(p, n) := ScanPair(s, true);
        if DecodePair(t, es, s).Done? {
          var a := DecodePair(t, es, s).value;
          PairsViaTree(t, a.val.es, a.val.key, s[n..]);
        }
        if ScanPairs(s[n..], true).Done? {
          PairsMeaningUnfold(t, es, last, p, ScanPairs(s[n..], true).value);
        }
      }
    }
  }

  lemma {:induction false} PairViaTree(t: Type, es: seq<Entry>, s: bytes)
    requires HasTypeEntries(t, es) && Ordered(es)
    ensures DecodePair(t, es, s) ==
            var d := ScanPair(s, true); if d.Fail? then Fail else Via(PairMeaning(t, es, d.value), d.n)
    decreases |s|, 1
  {
    hide DecodeString, ScanString, DecodeValue, Meaning, Scan, LenValid, HasType, HasTypeEntries, Ordered, Put, Zero;
    StringViaTree(s);
    if ScanString(s, true).Done? {
      DecodeViaTree(t, Zero(t), s[ScanString(s, true).n..]);
    }
  }

  lemma FieldsMeaningUnfold(fields: seq<Field>, fs: seq<FieldVal>, last: bytes, p: Pair, tail: seq<Pair>)
    requires HasTypeFields(fields, fs)
    ensures FieldsMeaning(fields, fs, last, []) == Some(Out(fs, true, true))
    ensures FieldsMeaning(fields, fs, last, [p] + tail) ==
            var a := MemberMeaning(fields, fs, p);
            if a.None? then None else
              var b := FieldsMeaning(fields, a.value.val.fs, p.key, tail);
              if b.None? then None else Some(After(a.value, p.key, last, b.value))
  {
    assert ([p] + tail)[1..] == tail;
  }

  lemma {:induction false} FieldsViaTree(fields: seq<Field>, fs: seq<FieldVal>, last: bytes, s: bytes)
    requires HasTypeFields(fields, fs)
    ensures DecodeFields(fields, fs, last, s) ==
            var d := ScanPairs(s, true); if d.Fail? then Fail else Via(FieldsMeaning(fields, fs, last, d.value), d.n)
    decreases |s|, 3
  {
    hide DecodeFields, DecodeMember, ScanPairs, ScanPair, FieldsMeaning, MemberMeaning, HasTypeFields, After;
    DecodeFieldsUnfold(fields, fs, last, s);
    ScanPairsUnfold(s, true);
    if s == [] || s[0] == CH_E {
      FieldsMeaningUnfold(fields, fs, last, Pair([], [], IntLit([])), []);
    } else {
      MemberViaTree(fields, fs, s);
      if ScanPair(s, true).Done? {
        var Done(p, n) := ScanPair(s, true);
        if DecodeMember(fields, fs, s).Done? {
          var a := DecodeMember(fields, fs, s).value;
          FieldsViaTree(fields, a.val.fs, a.val.key, s[n..]);
        }
        if ScanPairs(s[n..], true).Done? {
          FieldsMeaningUnfold(fields, fs, last, p, ScanPairs(s[n..], true).value);
        }
      }
    }
  }

  lemma {:induction false} MemberViaTree(fields: seq<Field>, fs: seq<FieldVal>, s: bytes)
    requires HasTypeFields(fields, fs)
    ensures DecodeMember(fields, fs, s) ==
            var d := ScanPair(s, true); if d.Fail? then Fail else Via(MemberMeaning(fields, fs, d.value), d.n)
    decreases |s|, 1
  {
    hide DecodeString, ScanString, DecodeValue, Meaning, Scan, LenValid, HasType, HasTypeFields, NonNegative,
      FieldIndex;
    StringViaTree(s);
    if DecodeString(s).Done? {
      var Done(k, n) := DecodeString(s);
      match FieldIndex(fs, k.body)
      case None => SkipAgreesWithCapture(s[n..]);
      case Some(i) =>
        SameLength(fields, fs);
        FieldTyped(fields, fs, i);
        DecodeViaTree(fields[i].typ, fs[i].val, s[n..]);
    }
  }
}
