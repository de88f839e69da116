/**
 * Go values as the codec sees them, and the types that direct decoding. Reflection is replaced by
 * these two datatypes; a pointer or interface is represented by what it leads to, or by VNil.
 */
module Values {
  import opened Bytes

  datatype Width = W8 | W16 | W32 | W64

  function Half(w: Width): int {
    match w
    case W8 => 0x80
    case W16 => 0x8000
    case W32 => 0x8000_0000
    case W64 => 0x8000_0000_0000_0000
  }

  /**
   * Targets of decoding. TRaw is RawMessage, TAny the empty interface, TBytes the type []byte, which holds a
   * string but can also be given as a list of numbers. A named type of byte slices is a list.
   */
  datatype Type =
    | TAny
    | TInt(width: Width)
    | TUint(width: Width)
    | TBool
    | TStr
    | TBytes
    | TRaw
    | TPtr(elem: Type)
    | TList(elem: Type)
    | TArray(size: nat, elem: Type)
    | TMap(elem: Type)
    | TStruct(fields: seq<Field>)

  /** A struct field: the name from its tag, and whether the tag says omitempty. */
  datatype Field = Field(name: bytes, omit: bool, typ: Type)

  /** A map is the list of its entries in strictly increasing key order, so equal maps are equal values. */
  datatype Value =
    | VNil
    | VInt(i: int)
    | VBool(b: bool)
    | VStr(s: bytes)
    | VRaw(raw: bytes)
    | VList(vs: seq<Value>)
    | VDict(es: seq<Entry>)
    | VStruct(fs: seq<FieldVal>)

  datatype Entry = Entry(key: bytes, val: Value)

  datatype FieldVal = FieldVal(field: Field, val: Value)

  // ---------- maps ----------

  predicate Ordered(es: seq<Entry>) {
    |es| <= 1 || (Less(es[0].key, es[1].key) && Ordered(es[1..]))
  }

  function Lookup(es: seq<Entry>, k: bytes): Option<Value> {
    if es == [] then None
    else if es[0].key == k then Some(es[0].val)
    else Lookup(es[1..], k)
  }

  function Put(es: seq<Entry>, k: bytes, v: Value): (r: seq<Entry>)
    ensures r != [] && (r[0].key == k || (es != [] && r[0].key == es[0].key))
    ensures Ordered(es) ==> Ordered(r)
  {
    if es == [] then [Entry(k, v)]
    else if es[0].key == k then
      assert |es| > 1 ==> ([Entry(k, v)] + es[1..])[1..] == es[1..];
      [Entry(k, v)] + es[1..]
    else if Less(k, es[0].key) then
      assert ([Entry(k, v)] + es)[1..] == es;
      [Entry(k, v)] + es
    else
      LessTotal(k, es[0].key);
      var r := Put(es[1..], k, v);
      assert ([es[0]] + r)[1..] == r;
      [es[0]] + r
  }

  lemma {:induction false} LookupPut(es: seq<Entry>, k: bytes, v: Value, j: bytes)
    ensures Lookup(Put(es, k, v), j) == if j == k then Some(v) else Lookup(es, j)
  {
    if es == [] {
    } else {
      if es[0].key == k {
        assert ([Entry(k, v)] + es[1..])[1..] == es[1..];
      } else if Less(k, es[0].key) {
        assert ([Entry(k, v)] + es)[1..] == es;
      } else {
        LookupPut(es[1..], k, v, j);
        assert ([es[0]] + Put(es[1..], k, v))[1..] == Put(es[1..], k, v);
      }
    }
  }

  lemma {:induction false} LookupBelow(es: seq<Entry>, k: bytes)
    requires Ordered(es) && (es == [] || Less(k, es[0].key))
    ensures Lookup(es, k) == None
  {
    if es == [] {
    } else {
      LessIrreflexive(k);
      if |es| > 1 {
        LessTransitive(k, es[0].key, es[1].key);
      }
      LookupBelow(es[1..], k);
    }
  }

  /** Ordered entry lists are a canonical form of maps: same lookups, same list. */
  lemma {:induction false} OrderedExtensional(a: seq<Entry>, b: seq<Entry>)
    requires Ordered(a) && Ordered(b)
    requires forall k :: Lookup(a, k) == Lookup(b, k)
    ensures a == b
  {
    var k := if a != [] then a[0].key else if b != [] then b[0].key else [];
    assert Lookup(a, k) == Lookup(b, k);
    if a != [] && b != [] {
      SameFirst(a, b);
      forall k ensures Lookup(a[1..], k) == Lookup(b[1..], k) {
        if k == a[0].key {
          LookupBelow(a[1..], k);
          LookupBelow(b[1..], k);
        } else {
          assert Lookup(a, k) == Lookup(b, k);
        }
      }
      OrderedExtensional(a[1..], b[1..]);
      assert a == [a[0]] + a[1..] && b == [b[0]] + b[1..];
    }
  }

  lemma SameFirst(a: seq<Entry>, b: seq<Entry>)
    requires a != [] && b != [] && Ordered(a) && Ordered(b)
    requires forall k :: Lookup(a, k) == Lookup(b, k)
    ensures a[0] == b[0]
  {
    var k, l := a[0].key, b[0].key;
    assert Lookup(a, k) == Lookup(b, k) && Lookup(a, l) == Lookup(b, l);
    LessTotal(k, l);
    if Less(k, l) {
      LookupBelow(b, k);
    } else if Less(l, k) {
      LookupBelow(a, l);
    }
  }

  // ---------- zero values and typing ----------

  function Zero(t: Type): (v: Value)
    ensures HasType(t, v)
    decreases t
  {
    match t
    case TAny => VNil
    case TInt(_) => VInt(0)
    case TUint(_) => VInt(0)
    case TBool => VBool(false)
    case TStr => VStr([])
    case TBytes => VStr([])
    case TRaw => VRaw([])
    case TPtr(_) => VNil
    case TList(_) => VList([])
    case TArray(n, e) => VList(Repeat(e, Zero(e), n))
    case TMap(_) => VDict([])
    case TStruct(fields) => VStruct(ZeroFields(fields))
  }

  function Repeat(t: Type, v: Value, n: nat): (vs: seq<Value>)
    requires HasType(t, v)
    ensures |vs| == n && HasTypeItems(t, vs)
  {
    if n == 0 then []
    else
      var r := Repeat(t, v, n - 1);
      assert ([v] + r)[1..] == r;
      [v] + r
  }

  function ZeroFields(fields: seq<Field>): (fs: seq<FieldVal>)
    ensures HasTypeFields(fields, fs)
    decreases fields
  {
    if fields == [] then []
    else
      var r := ZeroFields(fields[1..]);
      assert ([FieldVal(fields[0], Zero(fields[0].typ))] + r)[1..] == r;
      [FieldVal(fields[0], Zero(fields[0].typ))] + r
  }

  /** The values a variable of the given type can hold; under TAny, what generic decoding produces. */
  predicate HasType(t: Type, v: Value)
    decreases v, t
  {
    match t
    case TAny =>
      (match v
       case VNil => true
       case VInt(i) => -Half(W64) <= i < Half(W64)
       case VStr(_) => true
       case VList(vs) => HasTypeItems(TAny, vs)
       case VDict(es) => Ordered(es) && HasTypeEntries(TAny, es)
       case _ => false)
    case TInt(w) => v.VInt? && -Half(w) <= v.i < Half(w)
    case TUint(w) => v.VInt? && 0 <= v.i < 2 * Half(w)
    case TBool => v.VBool?
    case TStr => v.VStr?
    case TBytes => v.VStr?
    case TRaw => v.VRaw?
    case TPtr(e) => v.VNil? || HasType(e, v)
    case TList(e) => v.VList? && HasTypeItems(e, v.vs)
    case TArray(n, e) => v.VList? && |v.vs| == n && HasTypeItems(e, v.vs)
    case TMap(e) => v.VDict? && Ordered(v.es) && HasTypeEntries(e, v.es)
    case TStruct(fields) => v.VStruct? && HasTypeFields(fields, v.fs)
  }

  predicate HasTypeItems(t: Type, vs: seq<Value>)
    decreases vs, t
  {
    vs == [] || (HasType(t, vs[0]) && HasTypeItems(t, vs[1..]))
  }

  predicate HasTypeEntries(t: Type, es: seq<Entry>)
    decreases es, t
  {
    es == [] || (HasType(t, es[0].val) && HasTypeEntries(t, es[1..]))
  }

  predicate HasTypeFields(fields: seq<Field>, fs: seq<FieldVal>)
    decreases fs
  {
    if fields == [] then fs == []
    else fs != [] && HasTypeField(fields[0], fs[0]) && HasTypeFields(fields[1..], fs[1..])
  }

  predicate HasTypeField(field: Field, f: FieldVal)
    decreases f
  {
    f.field == field && HasType(field.typ, f.val)
  }

  lemma {:induction false} PutTyped(t: Type, es: seq<Entry>, k: bytes, v: Value)
    requires HasTypeEntries(t, es) && HasType(t, v)
    ensures HasTypeEntries(t, Put(es, k, v))
  {
    if es == [] {
    } else {
      if es[0].key == k {
        assert ([Entry(k, v)] + es[1..])[1..] == es[1..];
      } else if Less(k, es[0].key) {
        assert ([Entry(k, v)] + es)[1..] == es;
      } else {
        PutTyped(t, es[1..], k, v);
        assert ([es[0]] + Put(es[1..], k, v))[1..] == Put(es[1..], k, v);
      }
    }
  }

  lemma ItemsTypedCons(t: Type, v: Value, vs: seq<Value>)
    ensures HasTypeItems(t, [v] + vs) <==> HasType(t, v) && HasTypeItems(t, vs)
  {
    assert ([v] + vs)[1..] == vs;
  }

  lemma {:induction false} FieldTyped(fields: seq<Field>, fs: seq<FieldVal>, i: nat)
    requires HasTypeFields(fields, fs) && i < |fields|
    ensures |fs| == |fields| && fs[i].field == fields[i] && HasType(fields[i].typ, fs[i].val)
  {
    if i > 0 {
      FieldTyped(fields[1..], fs[1..], i - 1);
    } else if |fields| > 1 {
      FieldTyped(fields[1..], fs[1..], 0);
    }
  }

  /** Assigning to field `i` keeps the record well typed. */
  lemma {:induction false} FieldSetTyped(fields: seq<Field>, fs: seq<FieldVal>, i: nat, v: Value)
    requires HasTypeFields(fields, fs) && i < |fields| == |fs| && HasType(fields[i].typ, v)
    ensures HasTypeFields(fields, fs[i := FieldVal(fields[i], v)])
  {
    var gs := fs[i := FieldVal(fields[i], v)];
    if i == 0 {
      assert gs[1..] == fs[1..];
    } else {
      FieldTyped(fields, fs, 0);
      FieldSetTyped(fields[1..], fs[1..], i - 1, v);
      assert gs[1..] == fs[1..][i - 1 := FieldVal(fields[i], v)];
    }
  }
}
