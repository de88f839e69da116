/**
 * The concrete syntax of bencoding and the scanner of bencode/docode.go:453-590, which passes over
 * one encoded value without looking at the type it is meant for.
 */
module Syntax {
  import opened Bytes
  import opened Numerals

  /** A parsed input, with every numeral kept as it was written. */
  datatype Tree =
    | IntLit(num: bytes)
    | StrLit(len: bytes, body: bytes)
    | ListLit(items: seq<Tree>)
    | DictLit(pairs: seq<Pair>)

  datatype Pair = Pair(len: bytes, key: bytes, val: Tree)

  datatype Str = Str(len: bytes, body: bytes)

  // ---------- trees as text ----------

  function Show(t: Tree): (s: bytes)
    ensures |s| >= 1
    decreases t
  {
    match t
    case IntLit(num) => [CH_I] + num + [CH_E]
    case StrLit(len, body) => ShowStr(len, body)
    case ListLit(items) => [CH_L] + ShowItems(items)
    case DictLit(pairs) => [CH_D] + ShowPairs(pairs)
  }

  function ShowStr(len: bytes, body: bytes): bytes {
    len + [COLON] + body
  }

  /** The items and the closing `e`. */
  function ShowItems(ts: seq<Tree>): (s: bytes)
    ensures |s| >= 1
    decreases ts
  {
    if ts == [] then [CH_E] else Show(ts[0]) + ShowItems(ts[1..])
  }

  function ShowPair(p: Pair): bytes
    decreases p
  {
    ShowStr(p.len, p.key) + Show(p.val)
  }

  function ShowPairs(ps: seq<Pair>): (s: bytes)
    ensures |s| >= 1
    decreases ps
  {
    if ps == [] then [CH_E] else ShowPair(ps[0]) + ShowPairs(ps[1..])
  }

  /**
   * Whether a body has the length the scanner derives from its numeral. The error of the 64-bit parse
   * is dropped, so any numeral stands for some length; a negative one copies nothing
   * into a buffer but cannot be discarded.
   */
  predicate BodyFits(len: bytes, body: bytes, capture: bool) {
    var l := ParseInt(len, HALF64).value;
    if l < 0 then capture && body == [] else |body| == l
  }

  predicate StrLexical(len: bytes, body: bytes, capture: bool) {
    COLON !in len && BodyFits(len, body, capture)
  }

  /** The trees the scanner can read: `capture` says whether it copies to a buffer. */
  predicate Lexical(t: Tree, capture: bool)
    decreases t
  {
    match t
    case IntLit(num) => CH_E !in num
    case StrLit(len, body) => len != [] && IsDigit(len[0]) && StrLexical(len, body, capture)
    case ListLit(items) => LexicalItems(items, capture)
    case DictLit(pairs) => LexicalPairs(pairs, capture)
  }

  predicate LexicalItems(ts: seq<Tree>, capture: bool)
    decreases ts
  {
    ts == [] || (Lexical(ts[0], capture) && LexicalItems(ts[1..], capture))
  }

  /** A key has no first-byte check, but `e` in front of it would close the dictionary. */
  predicate LexicalPair(p: Pair, capture: bool)
    decreases p
  {
    (p.len == [] || p.len[0] != CH_E) && StrLexical(p.len, p.key, capture) && Lexical(p.val, capture)
  }

  predicate LexicalPairs(ps: seq<Pair>, capture: bool)
    decreases ps
  {
    ps == [] || (LexicalPair(ps[0], capture) && LexicalPairs(ps[1..], capture))
  }

  // ---------- the scanner ----------

  /** readIntInto: everything up to `e`, unparsed. */
  function ScanInt(s: bytes): (r: Parsed<Tree>)
    requires s != [] && s[0] == CH_I
    ensures r.Done? ==> 2 <= r.n <= |s|
  {
    match Line(s, CH_E)
    case Fail => Fail
    case Done(line, n) => Done(IntLit(line[1..]), n)
  }

  /** readStringInto. */
  function ScanString(s: bytes, capture: bool): (r: Parsed<Str>)
    ensures r.Done? ==> 1 <= r.n <= |s|
    ensures r.Done? && s[0] != COLON ==> 2 <= r.n
  {
    match Line(s, COLON)
    case Fail => Fail
    case Done(len, n) =>
      var l := ParseInt(len, HALF64).value;
      if l < 0 then (if capture then Done(Str(len, []), n) else Fail)
      else if n + l <= |s| then Done(Str(len, s[n..n + l]), n + l)
      else Fail
  }

  /** readValueInto: `capture` tells a buffer from nil. */
  function Scan(s: bytes, capture: bool): (r: Parsed<Tree>)
    ensures r.Done? ==> 2 <= r.n <= |s|
    decreases |s|, 0
  {
    if s == [] then Fail
    else if s[0] == CH_I then ScanInt(s)
    else if IsDigit(s[0]) then
      match ScanString(s, capture)
      case Fail => Fail
      case Done(str, n) => Done(StrLit(str.len, str.body), n)
    else if s[0] == CH_L then
      match ScanItems(s[1..], capture)
      case Fail => Fail
      case Done(items, n) => Done(ListLit(items), 1 + n)
    else if s[0] == CH_D then
      match ScanPairs(s[1..], capture)
      case Fail => Fail
      case Done(pairs, n) => Done(DictLit(pairs), 1 + n)
    else Fail
  }

  /** The loop of readListInto. */
  function ScanItems(s: bytes, capture: bool): (r: Parsed<seq<Tree>>)
    ensures r.Done? ==> 1 <= r.n <= |s|
    decreases |s|, 1
  {
    if s == [] then Fail
    else if s[0] == CH_E then Done([], 1)
    else
      match Scan(s, capture)
      case Fail => Fail
      case Done(t, n) =>
        match ScanItems(s[n..], capture)
        case Fail => Fail
        case Done(ts, m) => Done([t] + ts, n + m)
  }

  function ScanPair(s: bytes, capture: bool): (r: Parsed<Pair>)
    ensures r.Done? ==> 3 <= r.n <= |s|
    decreases |s|, 1
  {
    match ScanString(s, capture)
    case Fail => Fail
    case Done(k, n) =>
      match Scan(s[n..], capture)
      case Fail => Fail
      case Done(t, m) => Done(Pair(k.len, k.body, t), n + m)
  }

  /** The loop of readDictInto. */
  function ScanPairs(s: bytes, capture: bool): (r: Parsed<seq<Pair>>)
    ensures r.Done? ==> 1 <= r.n <= |s|
    decreases |s|, 2
  {
    if s == [] then Fail
    else if s[0] == CH_E then Done([], 1)
    else
      match ScanPair(s, capture)
      case Fail => Fail
      case Done(p, n) =>
        match ScanPairs(s[n..], capture)
        case Fail => Fail
        case Done(ps, m) => Done([p] + ps, n + m)
  }

  // ---------- the loops, one round at a time ----------

  lemma ScanItemsUnfold(s: bytes, capture: bool)
    ensures ScanItems(s, capture) ==
            if s == [] then Fail
            else if s[0] == CH_E then Done([], 1)
            else
              var d := Scan(s, capture);
              if d.Fail? then Fail else
                var e := ScanItems(s[d.n..], capture);
                if e.Fail? then Fail else Done([d.value] + e.value, d.n + e.n)
  {
  }

  lemma ScanPairsUnfold(s: bytes, capture: bool)
    ensures ScanPairs(s, capture) ==
            if s == [] then Fail
            else if s[0] == CH_E then Done([], 1)
            else
              var d := ScanPair(s, capture);
              if d.Fail? then Fail else
                var e := ScanPairs(s[d.n..], capture);
                if e.Fail? then Fail else Done([d.value] + e.value, d.n + e.n)
  {
  }

  // ---------- the recursion on sequences, from the front ----------

  lemma ItemsCons(t: Tree, ts: seq<Tree>, capture: bool)
    ensures ShowItems([t] + ts) == Show(t) + ShowItems(ts)
    ensures LexicalItems([t] + ts, capture) <==> Lexical(t, capture) && LexicalItems(ts, capture)
  {
    assert ([t] + ts)[1..] == ts;
  }

  lemma PairsCons(p: Pair, ps: seq<Pair>, capture: bool)
    ensures ShowPairs([p] + ps) == ShowPair(p) + ShowPairs(ps)
    ensures LexicalPairs([p] + ps, capture) <==> LexicalPair(p, capture) && LexicalPairs(ps, capture)
  {
    assert ([p] + ps)[1..] == ps;
  }

  // ---------- what is scanned is the text of a lexical tree ----------

  lemma ScanStringSound(s: bytes, capture: bool)
    requires ScanString(s, capture).Done?
    ensures var Done(str, n) := ScanString(s, capture);
            StrLexical(str.len, str.body, capture) && s[..n] == ShowStr(str.len, str.body)
    ensures var len := ScanString(s, capture).value.len; if len == [] then s[0] == COLON else s[0] == len[0]
  {
    var Done(len, n) := Line(s, COLON);
    var l := ParseInt(len, HALF64).value;
    assert s[..n][0] == s[0];
    if l >= 0 {
      assert s[..n + l] == s[..n] + s[n..n + l];
    } else {
      assert len + [COLON] + [] == s[..n];
    }
  }

  lemma ScanIntSound(s: bytes)
    requires s != [] && s[0] == CH_I && ScanInt(s).Done?
    ensures var Done(t, n) := ScanInt(s); t.IntLit? && Lexical(t, true) && s[..n] == Show(t)
  {
    var Done(line, n) := Line(s, CH_E);
    assert line == s[..n][..|line|];
    assert line == [CH_I] + line[1..];
  }

  lemma {:induction false} ScanSound(s: bytes, capture: bool)
    requires Scan(s, capture).Done?
    ensures var Done(t, n) := Scan(s, capture); Lexical(t, capture) && s[..n] == Show(t)
    decreases |s|, 0
  {
    var Done(t, n) := Scan(s, capture);
    if s[0] == CH_I {
      ScanIntSound(s);
    } else if IsDigit(s[0]) {
      ScanStringSound(s, capture);
    } else if s[0] == CH_L {
      ScanItemsSound(s[1..], capture);
      TakeTwice(s, 1, n - 1);
    } else {
      ScanPairsSound(s[1..], capture);
      TakeTwice(s, 1, n - 1);
    }
  }

  lemma {:induction false} ScanItemsSound(s: bytes, capture: bool)
    requires ScanItems(s, capture).Done?
    ensures var Done(ts, n) := ScanItems(s, capture); LexicalItems(ts, capture) && s[..n] == ShowItems(ts)
    decreases |s|, 1
  {
    if s[0] != CH_E {
      ScanSound(s, capture);
      var Done(t, n) := Scan(s, capture);
      ScanItemsSound(s[n..], capture);
      var Done(ts, m) := ScanItems(s[n..], capture);
      TakeTwice(s, n, m);
      ItemsCons(t, ts, capture);
    }
  }

  lemma {:induction false} ScanPairSound(s: bytes, capture: bool)
    requires s != [] && s[0] != CH_E && ScanPair(s, capture).Done?
    ensures var Done(p, n) := ScanPair(s, capture); LexicalPair(p, capture) && s[..n] == ShowPair(p)
    decreases |s|, 1
  {
    ScanStringSound(s, capture);
    var Done(k, n) := ScanString(s, capture);
    ScanSound(s[n..], capture);
    var Done(t, m) := Scan(s[n..], capture);
    TakeTwice(s, n, m);
  }

  lemma {:induction false} ScanPairsSound(s: bytes, capture: bool)
    requires ScanPairs(s, capture).Done?
    ensures var Done(ps, n) := ScanPairs(s, capture); LexicalPairs(ps, capture) && s[..n] == ShowPairs(ps)
    decreases |s|, 2
  {
    if s[0] != CH_E {
      ScanPairSound(s, capture);
      var Done(p, n) := ScanPair(s, capture);
      ScanPairsSound(s[n..], capture);
      var Done(ps, m) := ScanPairs(s[n..], capture);
      TakeTwice(s, n, m);
      PairsCons(p, ps, capture);
    }
  }

  // ---------- every lexical tree is scanned back, whatever follows ----------

  lemma ScanStringComplete(len: bytes, body: bytes, rest: bytes, capture: bool)
    requires StrLexical(len, body, capture)
    ensures ScanString(ShowStr(len, body) + rest, capture) == Done(Str(len, body), |ShowStr(len, body)|)
  {
    var s := ShowStr(len, body) + rest;
    assert s == len + [COLON] + (body + rest);
    LineIs(len, COLON, body + rest);
    assert s[|len| + 1..] == body + rest;
    assert s[|len| + 1..|len| + 1 + |body|] == body;
  }

  lemma ScanIntComplete(num: bytes, rest: bytes)
    requires CH_E !in num
    ensures ScanInt([CH_I] + num + [CH_E] + rest) == Done(IntLit(num), |num| + 2)
  {
    LineIs([CH_I] + num, CH_E, rest);
    assert ([CH_I] + num)[1..] == num;
  }

  lemma {:induction false} ScanComplete(t: Tree, rest: bytes, capture: bool)
    requires Lexical(t, capture)
    ensures Scan(Show(t) + rest, capture) == Done(t, |Show(t)|)
    ensures Show(t)[0] != CH_E && |Show(t)| >= 2
    decreases t
  {
    hide ScanItems, ScanPairs, ScanInt, ScanString, ShowItems, ShowPairs, LexicalItems, LexicalPairs;
    match t
    case IntLit(num) =>
      ScanIntComplete(num, rest);
    case StrLit(len, body) =>
      ScanStringComplete(len, body, rest, capture);
      assert (Show(t) + rest)[0] == len[0];
    case ListLit(items) =>
      ScanItemsComplete(items, rest, capture);
      assert (Show(t) + rest)[1..] == ShowItems(items) + rest;
    case DictLit(pairs) =>
      ScanPairsComplete(pairs, rest, capture);
      assert (Show(t) + rest)[1..] == ShowPairs(pairs) + rest;
  }

  lemma {:induction false} ScanItemsComplete(ts: seq<Tree>, rest: bytes, capture: bool)
    requires LexicalItems(ts, capture)
    ensures ScanItems(ShowItems(ts) + rest, capture) == Done(ts, |ShowItems(ts)|)
    decreases ts
  {
    hide Scan, Show, Lexical;
    if ts == [] {
    } else {
      var tail := ShowItems(ts[1..]) + rest;
      assert ShowItems(ts) + rest == Show(ts[0]) + tail;
      ScanComplete(ts[0], tail, capture);
      ScanItemsComplete(ts[1..], rest, capture);
      DropFirst(Show(ts[0]), tail);
      ScanItemsUnfold(Show(ts[0]) + tail, capture);
      assert ts == [ts[0]] + ts[1..];
    }
  }

  lemma {:induction false} ScanPairComplete(p: Pair, rest: bytes, capture: bool)
    requires LexicalPair(p, capture)
    ensures ScanPair(ShowPair(p) + rest, capture) == Done(p, |ShowPair(p)|)
    ensures ShowPair(p) != [] && ShowPair(p)[0] != CH_E
    decreases p
  {
    var tail := Show(p.val) + rest;
    assert ShowPair(p) + rest == ShowStr(p.len, p.key) + tail;
    ScanStringComplete(p.len, p.key, tail, capture);
    ScanComplete(p.val, rest, capture);
    DropFirst(ShowStr(p.len, p.key), tail);
  }

  lemma {:induction false} ScanPairsComplete(ps: seq<Pair>, rest: bytes, capture: bool)
    requires LexicalPairs(ps, capture)
    ensures ScanPairs(ShowPairs(ps) + rest, capture) == Done(ps, |ShowPairs(ps)|)
    decreases ps
  {
    hide ScanPair, ShowPair, LexicalPair;
    if ps == [] {
    } else {
      var tail := ShowPairs(ps[1..]) + rest;
      assert ShowPairs(ps) + rest == ShowPair(ps[0]) + tail;
      ScanPairComplete(ps[0], tail, capture);
      ScanPairsComplete(ps[1..], rest, capture);
      DropFirst(ShowPair(ps[0]), tail);
      ScanPairsUnfold(ShowPair(ps[0]) + tail, capture);
      assert ps == [ps[0]] + ps[1..];
    }
  }

  // ---------- consequences ----------

  /** The scanner accepts exactly the inputs that start with the text of a lexical tree, and finds that tree. */
  lemma ScanCharacterised(s: bytes, capture: bool, t: Tree, n: nat)
    ensures Scan(s, capture) == Done(t, n) <==>
            Lexical(t, capture) && n <= |s| && s[..n] == Show(t)
  {
    if Scan(s, capture) == Done(t, n) {
      ScanSound(s, capture);
    }
    if Lexical(t, capture) && n <= |s| && s[..n] == Show(t) {
      assert s == Show(t) + s[n..];
      ScanComplete(t, s[n..], capture);
    }
  }

  /** Two trees with the same text are the same tree. */
  lemma ShowInjective(t: Tree, u: Tree, capture: bool)
    requires Lexical(t, capture) && Lexical(u, capture) && Show(t) == Show(u)
    ensures t == u
  {
    ScanComplete(t, [], capture);
    ScanComplete(u, [], capture);
  }

  /** The outcome depends on the bytes taken and on nothing behind them. */
  lemma ScanLocal(s: bytes, s': bytes, capture: bool)
    requires Scan(s, capture).Done?
    requires Scan(s, capture).n <= |s'| && s'[..Scan(s, capture).n] == s[..Scan(s, capture).n]
    ensures Scan(s', capture) == Scan(s, capture)
  {
    var Done(t, n) := Scan(s, capture);
    ScanCharacterised(s, capture, t, n);
    ScanCharacterised(s', capture, t, n);
  }

  /** No proper prefix of an accepted value is accepted. */
  lemma ScanPrefixRejected(s: bytes, capture: bool, k: nat)
    requires Scan(s, capture).Done? && k < Scan(s, capture).n
    ensures Scan(s[..k], capture).Fail?
  {
    if Scan(s[..k], capture).Done? {
      var m := Scan(s[..k], capture).n;
      assert s[..k][..m] == s[..m];
      ScanLocal(s[..k], s, capture);
    }
  }

  function Depth(t: Tree): nat
    decreases t
  {
    match t
    case ListLit(items) => 1 + ItemsDepth(items)
    case DictLit(pairs) => 1 + PairsDepth(pairs)
    case _ => 1
  }

  function Max(a: nat, b: nat): nat {
    if a < b then b else a
  }

  function ItemsDepth(ts: seq<Tree>): nat
    decreases ts
  {
    if ts == [] then 0 else Max(Depth(ts[0]), ItemsDepth(ts[1..]))
  }

  function PairsDepth(ps: seq<Pair>): nat
    decreases ps
  {
    if ps == [] then 0 else Max(Depth(ps[0].val), PairsDepth(ps[1..]))
  }

  lemma {:induction false} DepthBound(t: Tree)
    requires Lexical(t, true)
    ensures 2 * Depth(t) <= |Show(t)|
    decreases t
  {
    match t
    case IntLit(_) =>
    case StrLit(_, _) =>
    case ListLit(items) => ItemsDepthBound(items);
    case DictLit(pairs) => PairsDepthBound(pairs);
  }

  lemma {:induction false} ItemsDepthBound(ts: seq<Tree>)
    requires LexicalItems(ts, true)
    ensures 2 * ItemsDepth(ts) + 1 <= |ShowItems(ts)|
    decreases ts
  {
    if ts == [] {
    } else {
      DepthBound(ts[0]);
      ItemsDepthBound(ts[1..]);
    }
  }

  lemma {:induction false} PairsDepthBound(ps: seq<Pair>)
    requires LexicalPairs(ps, true)
    ensures 2 * PairsDepth(ps) + 1 <= |ShowPairs(ps)|
    decreases ps
  {
    if ps == [] {
    } else {
      DepthBound(ps[0].val);
      PairsDepthBound(ps[1..]);
    }
  }

  /** A scanned value nests at most half as deep as it is long. */
  lemma ScanDepth(s: bytes)
    requires Scan(s, true).Done?
    ensures 2 * Depth(Scan(s, true).value) <= Scan(s, true).n
  {
    ScanSound(s, true);
    DepthBound(Scan(s, true).value);
  }

  // ---------- capturing and skipping ----------

  /** No string length in the tree, keys included, is negative. */
  predicate NonNegative(t: Tree)
    decreases t
  {
    match t
    case IntLit(_) => true
    case StrLit(len, _) => ParseInt(len, HALF64).value >= 0
    case ListLit(items) => NonNegativeItems(items)
    case DictLit(pairs) => NonNegativePairs(pairs)
  }

  predicate NonNegativeItems(ts: seq<Tree>)
    decreases ts
  {
    ts == [] || (NonNegative(ts[0]) && NonNegativeItems(ts[1..]))
  }

  predicate NonNegativePairs(ps: seq<Pair>)
    decreases ps
  {
    ps == [] ||
    (ParseInt(ps[0].len, HALF64).value >= 0 && NonNegative(ps[0].val) && NonNegativePairs(ps[1..]))
  }

  lemma {:induction false} LexicalModes(t: Tree)
    ensures Lexical(t, false) <==> Lexical(t, true) && NonNegative(t)
    decreases t
  {
    match t
    case IntLit(_) =>
    case StrLit(_, _) =>
    case ListLit(items) => LexicalItemsModes(items);
    case DictLit(pairs) => LexicalPairsModes(pairs);
  }

  lemma {:induction false} LexicalItemsModes(ts: seq<Tree>)
    ensures LexicalItems(ts, false) <==> LexicalItems(ts, true) && NonNegativeItems(ts)
    decreases ts
  {
    if ts == [] {
    } else {
      LexicalModes(ts[0]);
      LexicalItemsModes(ts[1..]);
    }
  }

  lemma {:induction false} LexicalPairsModes(ps: seq<Pair>)
    ensures LexicalPairs(ps, false) <==> LexicalPairs(ps, true) && NonNegativePairs(ps)
    decreases ps
  {
    if ps == [] {
    } else {
      LexicalModes(ps[0].val);
      LexicalPairsModes(ps[1..]);
    }
  }

  /** Skipping succeeds exactly when capturing does and no length is negative, with the same tree and end. */
  lemma SkipAgreesWithCapture(s: bytes)
    ensures Scan(s, false).Done? <==> Scan(s, true).Done? && NonNegative(Scan(s, true).value)
    ensures Scan(s, false).Done? ==> Scan(s, false) == Scan(s, true)
  {
    if Scan(s, false).Done? {
      var Done(t, n) := Scan(s, false);
      ScanCharacterised(s, false, t, n);
      LexicalModes(t);
      ScanCharacterised(s, true, t, n);
    }
    if Scan(s, true).Done? {
      var Done(t, n) := Scan(s, true);
      ScanCharacterised(s, true, t, n);
      LexicalModes(t);
      ScanCharacterised(s, false, t, n);
    }
  }

  /** A negative length separates the two: the captured form is accepted, the skipped one is not. */
  lemma NegativeKeyLengthExample()
    ensures var s := [CH_D, MINUS, 49, COLON, CH_I, CH_E, CH_E];
            Scan(s, true) == Done(DictLit([Pair([MINUS, 49], [], IntLit([]))]), 7) && Scan(s, false).Fail?
  {
    var num: bytes := [MINUS, 49];
    var p := Pair(num, [], IntLit([]));
    var t := DictLit([p]);
    var s := [CH_D, MINUS, 49, COLON, CH_I, CH_E, CH_E];
    ParseIntFormatInt(-1, HALF64);
    assert num == [MINUS] + Digits(1);
    PairsCons(p, [], true);
    assert [p] + [] == [p];
    assert ShowPair(p) == [MINUS, 49, COLON, CH_I, CH_E];
    assert s == Show(t);
    ScanComplete(t, [], true);
    assert s + [] == s;
    SkipAgreesWithCapture(s);
  }
}
