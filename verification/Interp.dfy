/** The reference reading of a typed decode: scan, then interpret the tree under the type. */
module Interp {
  import opened Bytes
  import opened Syntax
  import opened Values
  import opened Decode

  function Meaning(t: Type, cur: Value, tree: Tree): (r: Option<Out<Value>>)
    requires HasType(t, cur)
    ensures r.Some? ==> HasType(t, r.value.val)
    decreases tree, 0, t
  {
    if t.TRaw? then Some(Out(VRaw(Show(tree)), true, true))
    else if t.TPtr? then Meaning(t.elem, Pointee(t, cur), tree)
    else
      match tree
      case IntLit(num) =>
        (match IntTo(t, num)
         case None => None
         case Some(v) => Some(Out(v, true, true)))
      case StrLit(len, body) =>
        if !LenValid(len) then None
        else
          (match StrTo(t, body)
           case None => None
           case Some(v) => Some(Out(v, true, true)))
      case ListLit(items) => ListMeaning(t, cur, items)
      case DictLit(pairs) => DictMeaning(t, cur, pairs)
  }

  function ListMeaning(t: Type, cur: Value, items: seq<Tree>): (r: Option<Out<Value>>)
    requires HasType(t, cur)
    ensures r.Some? ==> HasType(t, r.value.val)
    decreases items, 2
  {
    match t
    case TAny =>
      (match ItemsMeaning(TAny, items)
       case None => None
       case Some(o) => Some(Out(VList(o.val), o.ordered, o.known)))
    case TList(e) =>
      (match ItemsMeaning(e, items)
       case None => None
       case Some(o) => Some(Out(if o.val == [] then cur else VList(o.val), o.ordered, o.known)))
    case TBytes =>
      (match ItemsMeaning(TUint(W8), items)
       case None => None
       case Some(o) => Some(Out(if o.val == [] then cur else VStr(BytesOf(o.val)), o.ordered, o.known)))
    case TArray(_, e) =>
      (match ArrayMeaning(e, cur.vs, items)
       case None => None
       case Some(o) => Some(Out(VList(o.val), o.ordered, o.known)))
    case _ => None
  }

  function DictMeaning(t: Type, cur: Value, pairs: seq<Pair>): (r: Option<Out<Value>>)
    requires HasType(t, cur)
    ensures r.Some? ==> HasType(t, r.value.val)
    decreases pairs, 2
  {
    match t
    case TAny =>
      (match PairsMeaning(TAny, [], [], pairs)
       case None => None
       case Some(o) => Some(Out(VDict(o.val), o.ordered, o.known)))
    case TMap(e) =>
      (match PairsMeaning(e, cur.es, [], pairs)
       case None => None
       case Some(o) => Some(Out(VDict(o.val), o.ordered, o.known)))
    case TStruct(fields) =>
      (match FieldsMeaning(fields, cur.fs, [], pairs)
       case None => None
       case Some(o) => Some(Out(VStruct(o.val), o.ordered, o.known)))
    case _ => None
  }

  function ItemsMeaning(t: Type, items: seq<Tree>): (r: Option<Out<seq<Value>>>)
    ensures r.Some? ==> HasTypeItems(t, r.value.val)
    decreases items, 1
  {
    if items == [] then Some(Out([], true, true))
    else
      match Meaning(t, Zero(t), items[0])
      case None => None
      case Some(a) =>
        match ItemsMeaning(t, items[1..])
        case None => None
        case Some(b) =>
          ItemsTypedCons(t, a.val, b.val);
          Some(Out([a.val] + b.val, a.ordered && b.ordered, a.known && b.known))
  }

  function ArrayMeaning(t: Type, cur: seq<Value>, items: seq<Tree>): (r: Option<Out<seq<Value>>>)
    requires HasTypeItems(t, cur)
    ensures r.Some? ==> HasTypeItems(t, r.value.val) && |r.value.val| == |cur|
    decreases items, 1
  {
    if items == [] then Some(Out(cur, true, true))
    else if cur == [] then
      if NonNegative(items[0]) then ArrayMeaning(t, [], items[1..]) else None
    else
      match Meaning(t, cur[0], items[0])
      case None => None
      case Some(a) =>
        match ArrayMeaning(t, cur[1..], items[1..])
        case None => None
        case Some(b) =>
          ItemsTypedCons(t, a.val, b.val);
          Some(Out([a.val] + b.val, a.ordered && b.ordered, a.known && b.known))
  }

  function PairsMeaning(t: Type, es: seq<Entry>, last: bytes, pairs: seq<Pair>): (r: Option<Out<seq<Entry>>>)
    requires HasTypeEntries(t, es) && Ordered(es)
    ensures r.Some? ==> HasTypeEntries(t, r.value.val) && Ordered(r.value.val)
    decreases pairs, 1
  {
    if pairs == [] then Some(Out(es, true, true))
    else
      match PairMeaning(t, es, pairs[0])
      case None => None
      case Some(a) =>
        var MapRound(key, fs) := a.val;
        match PairsMeaning(t, fs, key, pairs[1..])
        case None => None
        case Some(b) => Some(After(a, key, last, b))
  }

  function PairMeaning(t: Type, es: seq<Entry>, p: Pair): (r: Option<Out<MapRound>>)
    requires HasTypeEntries(t, es) && Ordered(es)
    ensures r.Some? ==> r.value.val.key == p.key && HasTypeEntries(t, r.value.val.es) && Ordered(r.value.val.es)
    decreases p, 1
  {
    if !LenValid(p.len) then None
    else
      match Meaning(t, Zero(t), p.val)
      case None => None
      case Some(a) =>
        PutTyped(t, es, p.key, a.val);
        Some(Out(MapRound(p.key, Put(es, p.key, a.val)), a.ordered, a.known))
  }

  function FieldsMeaning(fields: seq<Field>, fs: seq<FieldVal>, last: bytes, pairs: seq<Pair>):
      (r: Option<Out<seq<FieldVal>>>)
    requires HasTypeFields(fields, fs)
    ensures r.Some? ==> HasTypeFields(fields, r.value.val)
    decreases pairs, 1
  {
    if pairs == [] then Some(Out(fs, true, true))
    else
      match MemberMeaning(fields, fs, pairs[0])
      case None => None
      case Some(a) =>
        var Round(key, gs) := a.val;
        match FieldsMeaning(fields, gs, key, pairs[1..])
        case None => None
        case Some(b) => Some(After(a, key, last, b))
  }

  function MemberMeaning(fields: seq<Field>, fs: seq<FieldVal>, p: Pair): (r: Option<Out<Round>>)
    requires HasTypeFields(fields, fs)
    ensures r.Some? ==> r.value.val.key == p.key && HasTypeFields(fields, r.value.val.fs)
    decreases p, 1
  {
    if !LenValid(p.len) then None
    else
      match FieldIndex(fs, p.key)
      case None => if NonNegative(p.val) then Some(Out(Round(p.key, fs), true, false)) else None
      case Some(i) =>
        SameLength(fields, fs);
        FieldTyped(fields, fs, i);
        match Meaning(fields[i].typ, fs[i].val, p.val)
        case None => None
        case Some(a) =>
          FieldSetTyped(fields, fs, i, a.val);
          Some(Out(Round(p.key, fs[i := FieldVal(fields[i], a.val)]), a.ordered, a.known))
  }
}
