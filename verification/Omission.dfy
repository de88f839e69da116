/** Which fields of a struct are written (readStruct and isEmptyValue of bencode/encode.go), seen in the text. */
module Omission {
  import opened Bytes
  import opened Numerals
  import opened Syntax
  import opened Values
  import opened Sorting
  import opened Encode
  import opened RoundTrip

  /**
   * A nil field is left out. Of the fields that may be omitted, a struct never is, an interface or a pointer
   * only when it is nil, an array only when it has no elements, and any other when it is zero.
   */
  predicate LeftOut(f: FieldVal) {
    f.val.VNil? ||
    (f.field.omit &&
     match f.field.typ
     case TStruct(_) => false
     case TAny => false
     case TPtr(_) => false
     case TArray(n, _) => n == 0
     case _ => f.val == Zero(f.field.typ))
  }

  lemma KeptExactly(field: Field, f: FieldVal)
    requires HasTypeField(field, f)
    ensures Kept(f) <==> !LeftOut(f)
  {
  }

  predicate HasKey(ps: seq<Pair>, key: bytes, text: bytes) {
    exists p | p in ps :: p.key == key && Show(p.val) == text
  }

  /**
   * Read back from what is written for a struct: a key stands in front of a text exactly when a field of that
   * name is not left out and its value is written so.
   */
  lemma WrittenExactly(fields: seq<Field>, fs: seq<FieldVal>, key: bytes, text: bytes)
    requires HasTypeFields(fields, fs) && Writable(VStruct(fs))
    ensures var d := Scan(Enc(VStruct(fs)), true);
            && d.Done? && d.n == |Enc(VStruct(fs))| && d.value.DictLit?
            && (HasKey(d.value.pairs, key, text) <==>
                exists i :: 0 <= i < |fs| && fs[i].field.name == key && !LeftOut(fs[i]) && Enc(fs[i].val) == text)
  {
    hide Sort, FieldTrees, ToPairs, FitsField, FitsFields, Enc, LeftOut, Kept, Show, Scan, HasTypeFields;
    var ps := ToPairs(Sort(FieldTrees(fs)));
    RecordScans(fs);
    if HasKey(ps, key, text) {
      var p :| p in ps && p.key == key && Show(p.val) == text;
      var i := SortedFrom(fs, p);
      FieldShown(fields, fs, i);
    }
    if i :| 0 <= i < |fs| && fs[i].field.name == key && !LeftOut(fs[i]) && Enc(fs[i].val) == text {
      FieldShown(fields, fs, i);
      var p := SortedHas(fs, i);
    }
  }

  lemma RecordScans(fs: seq<FieldVal>)
    requires Writable(VStruct(fs))
    ensures Scan(Enc(VStruct(fs)), true) == Done(DictLit(ToPairs(Sort(FieldTrees(fs)))), |Enc(VStruct(fs))|)
    ensures FitsFields(fs, HALF64, false)
  {
    ScanEnc(VStruct(fs), []);
    assert Enc(VStruct(fs)) + [] == Enc(VStruct(fs));
  }

  lemma FieldShown(fields: seq<Field>, fs: seq<FieldVal>, i: nat)
    requires HasTypeFields(fields, fs) && FitsFields(fs, HALF64, false) && i < |fs|
    ensures Kept(fs[i]) <==> !LeftOut(fs[i])
    ensures Kept(fs[i]) ==> Show(TreeOf(fs[i].val)) == Enc(fs[i].val)
  {
    hide LeftOut, Enc, TreeOf, Show, Fits;
    NormFieldAt(fields, fs, i);
    KeptExactly(fields[i], fs[i]);
    FitsAt(fs, i);
    if Kept(fs[i]) {
      EncIsShow(fs[i].val);
    }
  }

  lemma {:induction false} FitsAt(fs: seq<FieldVal>, i: nat)
    requires FitsFields(fs, HALF64, false) && i < |fs|
    ensures FitsField(fs[i], HALF64, false)
  {
    if i == 0 {
    } else {
      FitsAt(fs[1..], i - 1);
    }
  }

  /** A struct of which everything is left out is written as an empty dictionary. */
  lemma {:induction false} AllLeftOut(fields: seq<Field>, fs: seq<FieldVal>)
    requires HasTypeFields(fields, fs) && forall i | 0 <= i < |fs| :: LeftOut(fs[i])
    ensures Enc(VStruct(fs)) == Ascii("de")
  {
    hide LeftOut;
    NoChunks(fields, fs);
    assert Sort<bytes>([]) == [];
    assert Ascii("de") == [CH_D, CH_E];
  }

  lemma {:induction false} NoChunks(fields: seq<Field>, fs: seq<FieldVal>)
    requires HasTypeFields(fields, fs) && forall i | 0 <= i < |fs| :: LeftOut(fs[i])
    ensures FieldChunks(fs) == []
  {
    hide LeftOut, Kept;
    if fs == [] {
    } else {
      assert LeftOut(fs[0]);
      KeptExactly(fields[0], fs[0]);
      forall i | 0 <= i < |fs[1..]| ensures LeftOut(fs[1..][i]) {
        assert fs[1..][i] == fs[i + 1];
      }
      NoChunks(fields[1..], fs[1..]);
    }
  }
}
