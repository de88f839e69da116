/**
 * Type-directed decoding (bencode/docode.go:86-407) as a function of the input: one pass that reads
 * and interprets at the same time. Nothing here builds a syntax tree.
 */
module Decode {
  import opened Bytes
  import opened Numerals
  import opened Syntax
  import opened Values

  /**
   * A decoded value, and what the two strictness flags would complain about: `ordered` when no key of a
   * decoded dictionary is below the key in front of it, `known` when every key met a struct had a field.
   */
  datatype Out<+T> = Out(val: T, ordered: bool, known: bool)

  /** The outcome of a dictionary loop: the rest of it, behind a round with key `key`, behind the key `last`. */
  function After<T, U>(round: Out<T>, key: bytes, last: bytes, rest: Out<U>): Out<U> {
    Out(rest.val, !Less(key, last) && round.ordered && rest.ordered, round.known && rest.known)
  }

  // ---------- leaves ----------

  /** Equal up to the bits that a width drops. */
  predicate SameLowBits(m: int, n: int, w: Width) {
    match w
    case W8 => m % 0x100 == n % 0x100
    case W16 => m % 0x1_0000 == n % 0x1_0000
    case W32 => m % 0x1_0000_0000 == n % 0x1_0000_0000
    case W64 => m % 0x1_0000_0000_0000_0000 == n % 0x1_0000_0000_0000_0000
  }

  /** SetUint on a narrow integer keeps the low bits. */
  function WrapUnsigned(n: int, w: Width): (r: int)
    ensures 0 <= r < 2 * Half(w) && SameLowBits(r, n, w)
    ensures 0 <= n < 2 * Half(w) ==> r == n
  {
    match w
    case W8 => n % 0x100
    case W16 => n % 0x1_0000
    case W32 => n % 0x1_0000_0000
    case W64 => n % 0x1_0000_0000_0000_0000
  }

  /** SetInt on a narrow integer keeps the low bits. */
  function WrapSigned(n: int, w: Width): (r: int)
    ensures -Half(w) <= r < Half(w) && SameLowBits(r, n, w)
    ensures -Half(w) <= n < Half(w) ==> r == n
  {
    var m := WrapUnsigned(n, w);
    match w
    case W8 => if m >= 0x80 then m - 0x100 else m
    case W16 => if m >= 0x8000 then m - 0x1_0000 else m
    case W32 => if m >= 0x8000_0000 then m - 0x1_0000_0000 else m
    case W64 => if m >= 0x8000_0000_0000_0000 then m - 0x1_0000_0000_0000_0000 else m
  }

  function IntTo(t: Type, num: bytes): (r: Option<Value>)
    ensures r.Some? ==> HasType(t, r.value)
  {
    match t
    case TAny =>
      var n := ParseInt(num, HALF64);
      if n.status.Ok? then
        Some(VInt(n.value))
      else None
    case TInt(w) =>
      var n := ParseInt(num, HALF64);
      if n.status.Ok? then Some(VInt(WrapSigned(n.value, w))) else None
    case TUint(w) =>
      var n := ParseUint(num, 2 * HALF64 - 1);
      if n.status.Ok? then Some(VInt(WrapUnsigned(n.value, w))) else None
    case TBool =>
      var n := ParseUint(num, 2 * HALF64 - 1);
      if n.status.Ok? then Some(VBool(n.value != 0)) else None
    case _ => None
  }

  function StrTo(t: Type, body: bytes): (r: Option<Value>)
    ensures r.Some? ==> HasType(t, r.value)
  {
    if t.TAny? || t.TStr? || t.TBytes? then Some(VStr(body)) else None
  }

  /** The bytes behind a list of numbers. */
  function BytesOf(vs: seq<Value>): bytes
    requires HasTypeItems(TUint(W8), vs)
  {
    if vs == [] then []
    else
      assert HasType(TUint(W8), vs[0]);
      [vs[0].i] + BytesOf(vs[1..])
  }

  /** Lengths are parsed in 32 bits here, and errors are not dropped. */
  predicate LenValid(len: bytes) {
    var l := ParseInt(len, HALF32);
    l.status.Ok? && l.value >= 0
  }

  /** decodeString up to the assignment. */
  function DecodeString(s: bytes): (r: Parsed<Str>)
    ensures r.Done? ==> 1 <= r.n <= |s|
    ensures r.Done? && s[0] != COLON ==> 2 <= r.n
  {
    match Line(s, COLON)
    case Fail => Fail
    case Done(len, n) =>
      if !LenValid(len) then Fail
      else
        var l := ParseInt(len, HALF32).value;
        if n + l <= |s| then Done(Str(len, s[n..n + l]), n + l) else Fail
  }

  // ---------- values ----------

  /** What a pointer target decodes into: a fresh value when it was nil. */
  function Pointee(t: Type, cur: Value): (v: Value)
    requires t.TPtr? && HasType(t, cur)
    ensures HasType(t.elem, v)
  {
    if cur.VNil? then Zero(t.elem) else cur
  }

  /** The field a key is stored in; of two fields with one name, the later. */
  function FieldIndex(fs: seq<FieldVal>, key: bytes): (r: Option<nat>)
    ensures r.Some? ==> r.value < |fs| && fs[r.value].field.name == key
    ensures r.Some? ==> forall j | r.value < j < |fs| :: fs[j].field.name != key
    ensures r.None? ==> forall j | 0 <= j < |fs| :: fs[j].field.name != key
  {
    if fs == [] then None
    else if fs[|fs| - 1].field.name == key then Some(|fs| - 1)
    else FieldIndex(fs[..|fs| - 1], key)
  }

  /** decode: `cur` is what the target holds before. */
  function DecodeValue(t: Type, cur: Value, s: bytes): (r: Parsed<Out<Value>>)
    requires HasType(t, cur)
    ensures r.Done? ==> 2 <= r.n <= |s| && HasType(t, r.value.val)
    decreases |s|, 0, t
  {
    if t.TRaw? then
      match Scan(s, true)
      case Fail => Fail
      case Done(_, n) => Done(Out(VRaw(s[..n]), true, true), n)
    else if t.TPtr? then DecodeValue(t.elem, Pointee(t, cur), s)
    else if s == [] then Fail
    else if s[0] == CH_I then DecodeInt(t, s)
    else if IsDigit(s[0]) then DecodeStr(t, s)
    else if s[0] == CH_L then DecodeList(t, cur, s)
    else if s[0] == CH_D then DecodeDict(t, cur, s)
    else Fail
  }

  function DecodeInt(t: Type, s: bytes): (r: Parsed<Out<Value>>)
    requires s != [] && s[0] == CH_I
    ensures r.Done? ==> 2 <= r.n <= |s| && HasType(t, r.value.val)
  {
    match Line(s, CH_E)
    case Fail => Fail
    case Done(line, n) =>
      match IntTo(t, line[1..])
      case None => Fail
      case Some(v) => Done(Out(v, true, true), n)
  }

  function DecodeStr(t: Type, s: bytes): (r: Parsed<Out<Value>>)
    requires s != [] && IsDigit(s[0])
    ensures r.Done? ==> 2 <= r.n <= |s| && HasType(t, r.value.val)
  {
    match DecodeString(s)
    case Fail => Fail
    case Done(str, n) =>
      match StrTo(t, str.body)
      case None => Fail
      case Some(v) => Done(Out(v, true, true), n)
  }

  function DecodeList(t: Type, cur: Value, s: bytes): (r: Parsed<Out<Value>>)
    requires HasType(t, cur) && s != [] && s[0] == CH_L
    ensures r.Done? ==> 2 <= r.n <= |s| && HasType(t, r.value.val)
    decreases |s| - 1, 4
  {
    match t
    case TAny =>
      (match DecodeItems(TAny, s[1..])
       case Fail => Fail
       case Done(o, n) => Done(Out(VList(o.val), o.ordered, o.known), 1 + n))
    case TList(e) =>
      (match DecodeItems(e, s[1..])
       case Fail => Fail
       case Done(o, n) =>
         Done(Out(if o.val == [] then cur else VList(o.val), o.ordered, o.known), 1 + n))
    case TBytes =>
      (match DecodeItems(TUint(W8), s[1..])
       case Fail => Fail
       case Done(o, n) => Done(Out(if o.val == [] then cur else VStr(BytesOf(o.val)), o.ordered, o.known), 1 + n))
    case TArray(_, e) =>
      (match DecodeArray(e, cur.vs, s[1..])
       case Fail => Fail
       case Done(o, n) => Done(Out(VList(o.val), o.ordered, o.known), 1 + n))
    case _ => Fail
  }

  function DecodeDict(t: Type, cur: Value, s: bytes): (r: Parsed<Out<Value>>)
    requires HasType(t, cur) && s != [] && s[0] == CH_D
    ensures r.Done? ==> 2 <= r.n <= |s| && HasType(t, r.value.val)
    decreases |s| - 1, 4
  {
    match t
    case TAny =>
      (match DecodePairs(TAny, [], [], s[1..])
       case Fail => Fail
       case Done(o, n) => Done(Out(VDict(o.val), o.ordered, o.known), 1 + n))
    case TMap(e) =>
      (match DecodePairs(e, cur.es, [], s[1..])
       case Fail => Fail
       case Done(o, n) => Done(Out(VDict(o.val), o.ordered, o.known), 1 + n))
    case TStruct(fields) =>
      (match DecodeFields(fields, cur.fs, [], s[1..])
       case Fail => Fail
       case Done(o, n) => Done(Out(VStruct(o.val), o.ordered, o.known), 1 + n))
    case _ => Fail
  }

  /** The loop of decodeList on a slice: every element starts from a zero value. */
  function DecodeItems(t: Type, s: bytes): (r: Parsed<Out<seq<Value>>>)
    ensures r.Done? ==> 1 <= r.n <= |s| && HasTypeItems(t, r.value.val)
    decreases |s|, 2
  {
    if s == [] then Fail
    else if s[0] == CH_E then Done(Out([], true, true), 1)
    else
      match DecodeValue(t, Zero(t), s)
      case Fail => Fail
      case Done(a, n) =>
        match DecodeItems(t, s[n..])
        case Fail => Fail
        case Done(b, m) =>
          ItemsTypedCons(t, a.val, b.val);
          Done(Out([a.val] + b.val, a.ordered && b.ordered, a.known && b.known), n + m)
  }

  /** The loop on an array: elements are decoded in place, those beyond the end are passed over. */
  function DecodeArray(t: Type, cur: seq<Value>, s: bytes): (r: Parsed<Out<seq<Value>>>)
    requires HasTypeItems(t, cur)
    ensures r.Done? ==> 1 <= r.n <= |s| && HasTypeItems(t, r.value.val) && |r.value.val| == |cur|
    decreases |s|, 2
  {
    if s == [] then Fail
    else if s[0] == CH_E then Done(Out(cur, true, true), 1)
    else if cur == [] then
      match Scan(s, false)
      case Fail => Fail
      case Done(_, n) =>
        match DecodeArray(t, [], s[n..])
        case Fail => Fail
        case Done(b, m) => Done(b, n + m)
    else
      match DecodeValue(t, cur[0], s)
      case Fail => Fail
      case Done(a, n) =>
        match DecodeArray(t, cur[1..], s[n..])
        case Fail => Fail
        case Done(b, m) =>
          ItemsTypedCons(t, a.val, b.val);
          Done(Out([a.val] + b.val, a.ordered && b.ordered, a.known && b.known), n + m)
  }

  /** A map after one round, and the key of that round. */
  datatype MapRound = MapRound(key: bytes, es: seq<Entry>)

  /**
   * One round of the loop of decodeDict on a map: a key, and a value decoded from zero; the last of equal
   * keys wins.
   */
  function DecodePair(t: Type, es: seq<Entry>, s: bytes): (r: Parsed<Out<MapRound>>)
    requires HasTypeEntries(t, es) && Ordered(es)
    ensures r.Done? ==> 3 <= r.n <= |s| && HasTypeEntries(t, r.value.val.es) && Ordered(r.value.val.es)
    decreases |s|, 1
  {
    match DecodeString(s)
    case Fail => Fail
    case Done(k, n) =>
      match DecodeValue(t, Zero(t), s[n..])
      case Fail => Fail
      case Done(a, m) =>
        PutTyped(t, es, k.body, a.val);
        Done(Out(MapRound(k.body, Put(es, k.body, a.val)), a.ordered, a.known), n + m)
  }

  /** The loop of decodeDict on a map; `last` is the key in front. */
  function DecodePairs(t: Type, es: seq<Entry>, last: bytes, s: bytes): (r: Parsed<Out<seq<Entry>>>)
    requires HasTypeEntries(t, es) && Ordered(es)
    ensures r.Done? ==> 1 <= r.n <= |s| && HasTypeEntries(t, r.value.val) && Ordered(r.value.val)
    decreases |s|, 3
  {
    if s == [] then Fail
    else if s[0] == CH_E then Done(Out(es, true, true), 1)
    else
      match DecodePair(t, es, s)
      case Fail => Fail
      case Done(a, n) =>
        var MapRound(key, fs) := a.val;
        match DecodePairs(t, fs, key, s[n..])
        case Fail => Fail
        case Done(b, m) => Done(After(a, key, last, b), n + m)
  }

  /** A struct after one round, and the key of that round. */
  datatype Round = Round(key: bytes, fs: seq<FieldVal>)

  /** One round of the loop on a struct: a key without a field has its value passed over. */
  function DecodeMember(fields: seq<Field>, fs: seq<FieldVal>, s: bytes): (r: Parsed<Out<Round>>)
    requires HasTypeFields(fields, fs)
    ensures r.Done? ==> 3 <= r.n <= |s| && HasTypeFields(fields, r.value.val.fs)
    decreases |s|, 1
  {
    match DecodeString(s)
    case Fail => Fail
    case Done(k, n) =>
      match FieldIndex(fs, k.body)
      case None =>
        (match Scan(s[n..], false)
         case Fail => Fail
         case Done(_, m) => Done(Out(Round(k.body, fs), true, false), n + m))
      case Some(i) =>
        SameLength(fields, fs);
        FieldTyped(fields, fs, i);
        match DecodeValue(fields[i].typ, fs[i].val, s[n..])
        case Fail => Fail
        case Done(a, m) =>
          FieldSetTyped(fields, fs, i, a.val);
          Done(Out(Round(k.body, fs[i := FieldVal(fields[i], a.val)]), a.ordered, a.known), n + m)
  }

  /** The loop of decodeDict on a struct. */
  function DecodeFields(fields: seq<Field>, fs: seq<FieldVal>, last: bytes, s: bytes):
      (r: Parsed<Out<seq<FieldVal>>>)
    requires HasTypeFields(fields, fs)
    ensures r.Done? ==> 1 <= r.n <= |s| && HasTypeFields(fields, r.value.val)
    decreases |s|, 3
  {
    if s == [] then Fail
    else if s[0] == CH_E then Done(Out(fs, true, true), 1)
    else
      match DecodeMember(fields, fs, s)
      case Fail => Fail
      case Done(a, n) =>
        var Round(key, gs) := a.val;
        match DecodeFields(fields, gs, key, s[n..])
        case Fail => Fail
        case Done(b, m) => Done(After(a, key, last, b), n + m)
  }

  /** Unmarshal: what follows the value is not looked at. */
  function Unmarshal(t: Type, cur: Value, data: bytes): (r: Option<Value>)
    requires HasType(t, cur)
    ensures r.Some? ==> HasType(t, r.value)
  {
    match DecodeValue(t, cur, data)
    case Fail => None
    case Done(o, _) => Some(o.val)
  }

  // ---------- the loops, one round at a time ----------

  lemma DecodeItemsUnfold(t: Type, s: bytes)
    ensures DecodeItems(t, s) ==
            if s == [] then Fail
            else if s[0] == CH_E then Done(Out([], true, true), 1)
            else
              var d := DecodeValue(t, Zero(t), s);
              if d.Fail? then Fail else
                var e := DecodeItems(t, s[d.n..]);
                if e.Fail? then Fail else
                  Done(Out([d.value.val] + e.value.val, d.value.ordered && e.value.ordered,
                           d.value.known && e.value.known), d.n + e.n)
  {
  }

  lemma DecodeBeyondUnfold(t: Type, s: bytes)
    ensures HasTypeItems(t, [])
    ensures DecodeArray(t, [], s) ==
            if s == [] then Fail
            else if s[0] == CH_E then Done(Out([], true, true), 1)
            else
              var d := Scan(s, false);
              if d.Fail? then Fail else
                var e := DecodeArray(t, [], s[d.n..]);
                if e.Fail? then Fail else Done(e.value, d.n + e.n)
  {
  }

  lemma DecodeArrayUnfold(t: Type, cur: seq<Value>, s: bytes)
    requires HasTypeItems(t, cur) && cur != []
    ensures HasType(t, cur[0]) && HasTypeItems(t, cur[1..])
    ensures DecodeArray(t, cur, s) ==
            if s == [] then Fail
            else if s[0] == CH_E then Done(Out(cur, true, true), 1)
            else
              var d := DecodeValue(t, cur[0], s);
              if d.Fail? then Fail else
                var e := DecodeArray(t, cur[1..], s[d.n..]);
                if e.Fail? then Fail else
                  Done(Out([d.value.val] + e.value.val, d.value.ordered && e.value.ordered,
                           d.value.known && e.value.known), d.n + e.n)
  {
  }

  lemma DecodePairsUnfold(t: Type, es: seq<Entry>, last: bytes, s: bytes)
    requires HasTypeEntries(t, es) && Ordered(es)
    ensures DecodePairs(t, es, last, s) ==
            if s == [] then Fail
            else if s[0] == CH_E then Done(Out(es, true, true), 1)
            else
              var d := DecodePair(t, es, s);
              if d.Fail? then Fail else
                var e := DecodePairs(t, d.value.val.es, d.value.val.key, s[d.n..]);
                if e.Fail? then Fail else Done(After(d.value, d.value.val.key, last, e.value), d.n + e.n)
  {
  }

  lemma DecodeFieldsUnfold(fields: seq<Field>, fs: seq<FieldVal>, last: bytes, s: bytes)
    requires HasTypeFields(fields, fs)
    ensures DecodeFields(fields, fs, last, s) ==
            if s == [] then Fail
            else if s[0] == CH_E then Done(Out(fs, true, true), 1)
            else
              var d := DecodeMember(fields, fs, s);
              if d.Fail? then Fail else
                var e := DecodeFields(fields, d.value.val.fs, d.value.val.key, s[d.n..]);
                if e.Fail? then Fail else Done(After(d.value, d.value.val.key, last, e.value), d.n + e.n)
  {
  }

  lemma {:induction false} SameLength(fields: seq<Field>, fs: seq<FieldVal>)
    requires HasTypeFields(fields, fs)
    ensures |fs| == |fields|
  {
    if fields == [] {
    } else {
      SameLength(fields[1..], fs[1..]);
    }
  }

  /** Two states of one record. */
  predicate SameNames(fs: seq<FieldVal>, gs: seq<FieldVal>) {
    |fs| == |gs| && forall i | 0 <= i < |fs| :: fs[i].field == gs[i].field
  }

  lemma {:induction false} FieldIndexSame(fs: seq<FieldVal>, gs: seq<FieldVal>, key: bytes)
    requires SameNames(fs, gs)
    ensures FieldIndex(fs, key) == FieldIndex(gs, key)
    decreases |fs|
  {
    if fs == [] {
    } else {
      var n := |fs| - 1;
      assert fs[n].field == gs[n].field;
      FieldIndexSame(fs[..n], gs[..n], key);
    }
  }
}
