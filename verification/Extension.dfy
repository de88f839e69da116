/** The extension protocol of bt/extension.go (BEP 10): numbering, handshakes that add up, and dispatch. */
module Extension {
  import opened Bytes
  import opened Values
  import opened Decode
  import opened Encode
  import opened Texts
  import opened EncoderObject
  import opened PeerWire

  const EXT_ID: byte := 20
  /** "m" */
  const KEY_M: bytes := [109]

  /** An extension as the protocol sees it: its key, and what it puts into a handshake. */
  datatype Ext = Ext(key: bytes, puts: seq<Entry>)

  /** What the protocol calls on its extensions; `sender` is the id their sender writes. */
  datatype Callback =
    | AfterHandshake(key: bytes, hs: seq<Entry>, sender: byte)
    | Unsupport(key: bytes)
    | HandleMessage(key: bytes, content: bytes, sender: byte)

  // ---------- what a handshake says ----------

  function PutAll(es: seq<Entry>, puts: seq<Entry>): (r: seq<Entry>)
    ensures Ordered(es) ==> Ordered(r)
    decreases |puts|
  {
    if puts == [] then es else PutAll(Put(es, puts[0].key, puts[0].val), puts[1..])
  }

  function AllPuts(exts: seq<Ext>): (r: seq<Entry>)
    ensures Ordered(r)
  {
    if exts == [] then [] else PutAll(AllPuts(exts[..|exts| - 1]), exts[|exts| - 1].puts)
  }

  /** Extensions are numbered from 1; of two with one key the later number stays. */
  function Numbering(exts: seq<Ext>): (r: seq<Entry>)
    ensures Ordered(r)
  {
    if exts == [] then []
    else Put(Numbering(exts[..|exts| - 1]), exts[|exts| - 1].key, VInt(|exts|))
  }

  function Handshake(exts: seq<Ext>): (r: seq<Entry>)
    ensures Ordered(r)
  {
    Put(AllPuts(exts), KEY_M, VDict(Numbering(exts)))
  }

  /** What a handshake body teaches a side that knew `m`: its raw entries, and the ids, added to the known ones. */
  function Learn(m: seq<Entry>, body: bytes): (r: Option<(seq<Entry>, seq<Entry>)>)
    requires Ids(m)
    ensures r.Some? ==> HasTypeEntries(TRaw, r.value.0) && Ids(r.value.1)
  {
    match Unmarshal(TMap(TRaw), VDict([]), body)
    case None => None
    case Some(hs) =>
      match Lookup(hs.es, KEY_M)
      case None => None
      case Some(raw) =>
        LookupTyped(TRaw, hs.es, KEY_M);
        match Unmarshal(TMap(TUint(W8)), VDict(m), raw.raw)
        case None => None
        case Some(v) => Some((hs.es, v.es))
  }

  /** A map[string]byte. */
  predicate Ids(m: seq<Entry>) {
    Ordered(m) && HasTypeEntries(TUint(W8), m)
  }

  lemma {:induction false} LookupTyped(t: Type, es: seq<Entry>, k: bytes)
    requires HasTypeEntries(t, es)
    ensures Lookup(es, k).Some? ==> HasType(t, Lookup(es, k).value)
  {
    if es == [] {
    } else {
      LookupTyped(t, es[1..], k);
    }
  }

  /** Indexing a map[string]byte: 0 where there is no entry. */
  function IdOf(m: seq<Entry>, key: bytes): byte
    requires Ids(m)
  {
    LookupTyped(TUint(W8), m, key);
    match Lookup(m, key)
    case None => 0
    case Some(v) => v.i
  }

  /** What the loop of HandlePayload leaves of the extensions, the calls it makes, and whether it gets through. */
  datatype Settled = Settled(exts: seq<Option<Ext>>, calls: seq<Callback>, ok: bool)

  function All(exts: seq<Ext>): (r: seq<Option<Ext>>)
    ensures |r| == |exts|
  {
    if exts == [] then [] else [Some(exts[0])] + All(exts[1..])
  }

  /** The extensions in their slots; what stands for an empty slot does not matter. */
  function Present(slots: seq<Option<Ext>>): (r: seq<Ext>)
    ensures |r| == |slots|
  {
    if slots == [] then []
    else [if slots[0].Some? then slots[0].value else Ext([], [])] + Present(slots[1..])
  }

  lemma {:induction false} AllAt(exts: seq<Ext>, i: nat)
    requires i < |exts|
    ensures All(exts)[i] == Some(exts[i])
  {
    if i == 0 {
    } else {
      AllAt(exts[1..], i - 1);
    }
  }

  lemma {:induction false} PresentAll(exts: seq<Ext>)
    ensures Present(All(exts)) == exts
  {
    if exts == [] {
    } else {
      PresentAll(exts[1..]);
      assert All(exts)[1..] == All(exts[1..]);
    }
  }

  /** What one extension contributes. */
  function Turn(e: Ext, hs: seq<Entry>, m: seq<Entry>, refuses: set<bytes>): (r: Settled)
    requires Ids(m)
    ensures |r.exts| == |r.calls| == 1
  {
    var id := IdOf(m, e.key);
    if id == 0 then Settled([None], [Unsupport(e.key)], true)
    else Settled([Some(e)], [AfterHandshake(e.key, hs, id)], e.key !in refuses)
  }

  function Settle(exts: seq<Ext>, hs: seq<Entry>, m: seq<Entry>, refuses: set<bytes>): (r: Settled)
    requires Ids(m)
    ensures |r.exts| == |exts|
  {
    if exts == [] then Settled([], [], true)
    else
      var a := Turn(exts[0], hs, m, refuses);
      if a.ok then
        var b := Settle(exts[1..], hs, m, refuses);
        Settled(a.exts + b.exts, a.calls + b.calls, b.ok)
      else Settled(All(exts), a.calls, false)
  }

  /** The first extension that has an id and answers with an error, or their number if there is none. */
  function FirstRefusal(exts: seq<Ext>, m: seq<Entry>, refuses: set<bytes>): (k: nat)
    requires Ids(m)
    ensures k <= |exts|
    ensures k < |exts| ==> IdOf(m, exts[k].key) != 0 && exts[k].key in refuses
    ensures forall j | 0 <= j < k :: IdOf(m, exts[j].key) == 0 || exts[j].key !in refuses
  {
    if exts == [] || (IdOf(m, exts[0].key) != 0 && exts[0].key in refuses) then 0
    else
      var k := FirstRefusal(exts[1..], m, refuses);
      assert forall j | 0 < j < |exts| :: exts[j] == exts[1..][j - 1];
      k + 1
  }

  /**
   * Up to the first extension that answers with an error, that one included, a slot is cleared exactly when
   * no id is known for its key, and each extension is told. Behind it nothing happens.
   */
  lemma {:induction false} SettleSlots(exts: seq<Ext>, hs: seq<Entry>, m: seq<Entry>, refuses: set<bytes>, i: nat)
    requires Ids(m) && i < |exts|
    ensures var r := Settle(exts, hs, m, refuses);
            var k := FirstRefusal(exts, m, refuses);
            && r.exts[i] == (if i <= k && IdOf(m, exts[i].key) == 0 then None else Some(exts[i]))
            && (r.ok <==> k == |exts|) && |r.calls| == (if r.ok then k else k + 1)
            && (i <= k ==>
                  r.calls[i] == if IdOf(m, exts[i].key) == 0 then Unsupport(exts[i].key)
                                else AfterHandshake(exts[i].key, hs, IdOf(m, exts[i].key)))
  {
    hide IdOf, Ids;
    AllAt(exts, i);
    if |exts| == 1 {
      assert exts[1..] == [];
    } else {
      SettleSlots(exts[1..], hs, m, refuses, if i == 0 then 0 else i - 1);
    }
  }

  // ---------- the loop, one round at a time ----------

  lemma AllFirst(exts: seq<Ext>, i: nat)
    requires i < |exts|
    ensures All(exts[i..]) == [Some(exts[i])] + All(exts[i + 1..])
  {
  }

  /** `whole` is what the loop does, `onward` the rest of it. */
  predicate Onward(whole: Settled, front: seq<Option<Ext>>, made: seq<Callback>, onward: Settled) {
    whole == Settled(front + onward.exts, made + onward.calls, onward.ok)
  }

  lemma OnwardAll(whole: Settled)
    ensures Onward(whole, [], [], whole)
  {
  }

  lemma SettleNothing(whole: Settled, front: seq<Option<Ext>>, made: seq<Callback>, tail: seq<Ext>,
                      hs: seq<Entry>, m: seq<Entry>, refuses: set<bytes>)
    requires Ids(m) && tail == [] && Onward(whole, front, made, Settle(tail, hs, m, refuses))
    ensures whole.ok && whole.exts == front + All(tail) && whole.calls == made
  {
  }

  lemma SettleFirst(whole: Settled, front: seq<Option<Ext>>, made: seq<Callback>, all: seq<Ext>, i: nat,
                    hs: seq<Entry>, m: seq<Entry>, refuses: set<bytes>)
    requires Ids(m) && i < |all| && Onward(whole, front, made, Settle(all[i..], hs, m, refuses))
    ensures var r := Turn(all[i], hs, m, refuses);
            if r.ok then Onward(whole, front + r.exts, made + r.calls, Settle(all[i + 1..], hs, m, refuses))
            else
              && !whole.ok && r.exts == [Some(all[i])]
              && whole.exts == front + All(all[i..]) && whole.calls == made + r.calls
  {
    hide Ids, IdOf;
    var r := Turn(all[i], hs, m, refuses);
    assert all[i..][0] == all[i] && all[i..][1..] == all[i + 1..];
    var b := Settle(all[i + 1..], hs, m, refuses);
    assert front + (r.exts + b.exts) == front + r.exts + b.exts;
    assert made + (r.calls + b.calls) == made + r.calls + b.calls;
  }

  lemma SlotSet(front: seq<Option<Ext>>, slot: Option<Ext>, tail: seq<Option<Ext>>, slot': Option<Ext>)
    ensures var exts := front + ([slot] + tail);
            exts[|front|] == slot && exts == front + [slot] + tail && exts[|front| := slot'] == front + [slot'] + tail
  {
  }

  // ---------- the object ----------

  /** The frame of an extension message. */
  function ExtFrame(id: byte, content: bytes): bytes {
    Frame(EXT_ID, [id] + content)
  }

  /** WriteExtensionMessage */
  method WriteExtensionMessage(writer: Writer, id: byte, content: bytes)
    modifies writer
    ensures writer.out == old(writer.out) + ExtFrame(id, content)
  {
    hide BigEndian;
    var length := |content| + 2;
    writer.Write(BigEndian(length));
    writer.Write([EXT_ID, id]);
    writer.Write(content);
    assert [EXT_ID, id] + content == [EXT_ID] + ([id] + content);
    assert old(writer.out) + BigEndian(length) + [EXT_ID, id] + content ==
           old(writer.out) + (BigEndian(length) + ([EXT_ID, id] + content));
  }

  class ExtProtocol {
    /** None stands for a slot set to nil. */
    var exts: seq<Option<Ext>>
    var m: seq<Entry>
    /** The calls made on the extensions so far. */
    var calls: seq<Callback>

    ghost predicate Valid()
      reads this
    {
      Ids(m)
    }

    /** No slot is nil. */
    ghost predicate Full()
      reads this`exts
    {
      exts == All(Present(exts))
    }

    ghost function Exts(): seq<Ext>
      reads this`exts
    {
      Present(exts)
    }

    constructor (exts: seq<Ext>)
      ensures Valid() && this.exts == All(exts) && m == [] && calls == []
    {
      this.exts, m, calls := All(exts), [], [];
    }

    method RegistExt(ext: Ext)
      requires Valid()
      modifies this
      ensures Valid() && exts == old(exts) + [Some(ext)] && m == old(m) && calls == old(calls)
    {
      exts := exts + [Some(ext)];
    }

    /** WriteHandshake calls every extension, so none may be nil. */
    method WriteHandshake(w: Writer)
      requires Valid() && Full() && Regular(VDict(Handshake(Exts())))
      modifies w
      ensures w.out == old(w.out) + ExtFrame(0, Enc(VDict(Handshake(Exts()))))
    {
      hide Enc, Regular, Ids, All, Present;
      var hs, mm := [], [];
      ghost var all := Exts();
      for i := 0 to |exts|
        invariant w.out == old(w.out) && hs == AllPuts(all[..i]) && mm == Numbering(all[..i])
      {
        AllAt(all, i);
        var ext := exts[i].value;
        assert all[..i + 1][..i] == all[..i] && all[i] == ext;
        hs := PutAll(hs, ext.puts);
        mm := Put(mm, ext.key, VInt(i + 1));
      }
      assert all[..|exts|] == all;
      hs := Put(hs, KEY_M, VDict(mm));
      RegularMapped(VDict(hs));
      var b := Marshal(VDict(hs));
      WriteExtensionMessage(w, 0, b);
    }

    /**
     * HandlePayload. `refuses` holds the keys of the extensions that answer with an error. A second
     * handshake may only come while no slot is nil. When a handshake cannot be read nothing is called,
     * and what the map of ids then holds is left open.
     */
    method HandlePayload(payload: bytes, refuses: set<bytes>) returns (ok: bool)
      requires Valid() && payload != [] && (payload[0] == 0 ==> Full())
      modifies this
      ensures Valid()
      ensures payload[0] == 0 ==>
                match old(Learn(m, payload[1..]))
                case None => !ok && exts == old(exts) && calls == old(calls)
                case Some(l) =>
                  var s := Settle(old(Exts()), l.0, l.1, refuses);
                  ok == s.ok && m == l.1 && exts == s.exts && calls == old(calls) + s.calls
      ensures payload[0] != 0 ==> exts == old(exts) && m == old(m)
      ensures payload[0] != 0 ==>
                var i := payload[0] - 1;
                if m == [] || i >= |exts| || exts[i].None? then !ok && calls == old(calls)
                else
                  var key := exts[i].value.key;
                  ok == (key !in refuses) && calls == old(calls) + [HandleMessage(key, payload[1..], IdOf(m, key))]
    {
      if payload[0] == 0 {
        ok := HandleHandshake(payload[1..], refuses);
        return;
      }
      if m == [] {
        return false;
      }
      var id := payload[0] - 1;
      if id >= |exts| || exts[id].None? {
        return false;
      }
      var ext := exts[id].value;
      calls := calls + [HandleMessage(ext.key, payload[1..], IdOf(m, ext.key))];
      ok := ext.key !in refuses;
    }

    /** The handshake branch of HandlePayload. */
    method HandleHandshake(body: bytes, refuses: set<bytes>) returns (ok: bool)
      requires Valid() && Full()
      modifies this
      ensures Valid()
      ensures match old(Learn(m, body))
              case None => !ok && exts == old(exts) && calls == old(calls)
              case Some(l) =>
                var s := Settle(old(Exts()), l.0, l.1, refuses);
                ok == s.ok && m == l.1 && exts == s.exts && calls == old(calls) + s.calls
    {
      var hs := Unmarshal(TMap(TRaw), VDict([]), body);
      if hs.None? {
        return false;
      }
      var rawm := Lookup(hs.value.es, KEY_M);
      if rawm.None? {
        return false;
      }
      LookupTyped(TRaw, hs.value.es, KEY_M);
      var v := Unmarshal(TMap(TUint(W8)), VDict(m), rawm.value.raw);
      assert Ids([]);
      if v.None? {
        var any: seq<Entry> :| Ids(any);
        m := any;
        return false;
      }
      m := v.value.es;
      ok := SettleAll(hs.value.es, refuses);
    }

    /** Its loop over the extensions. */
    method SettleAll(hs: seq<Entry>, refuses: set<bytes>) returns (ok: bool)
      requires Valid() && Full()
      modifies this`exts, this`calls
      ensures var s := Settle(old(Exts()), hs, m, refuses);
              ok == s.ok && exts == s.exts && calls == old(calls) + s.calls
    {
      hide IdOf, Ids, Settle, All, Present, Onward, Turn;
      ghost var all, s := Exts(), Settle(Exts(), hs, m, refuses);
      ghost var front, made := [], [];
      assert all[0..] == all;
      OnwardAll(s);
      for i := 0 to |exts|
        invariant |front| == i && |exts| == |all|
        invariant exts == front + All(all[i..]) && calls == old(calls) + made
        invariant Onward(s, front, made, Settle(all[i..], hs, m, refuses))
      {
        ghost var turn := Turn(all[i], hs, m, refuses);
        AllFirst(all, i);
        SlotSet(front, Some(all[i]), All(all[i + 1..]), turn.exts[0]);
        SettleFirst(s, front, made, all, i, hs, m, refuses);
        ok := SettleOne(i, hs, refuses);
        if !ok {
          return;
        }
        front, made := front + turn.exts, made + turn.calls;
      }
      SettleNothing(s, front, made, all[|exts|..], hs, m, refuses);
      ok := true;
    }

    /** Its body: an extension the peer does not know is told so and dropped, another one is started. */
    method SettleOne(i: nat, hs: seq<Entry>, refuses: set<bytes>) returns (ok: bool)
      requires Valid() && i < |exts| && exts[i].Some?
      modifies this`exts, this`calls
      ensures var r := Turn(old(exts[i].value), hs, m, refuses);
              ok == r.ok && exts == old(exts)[i := r.exts[0]] && calls == old(calls) + r.calls
    {
      hide IdOf, Ids;
      var ext := exts[i].value;
      var id := IdOf(m, ext.key);
      if id == 0 {
        calls := calls + [Unsupport(ext.key)];
        exts := exts[i := None];
        return true;
      }
      calls := calls + [AfterHandshake(ext.key, hs, id)];
      ok := ext.key !in refuses;
    }
  }
}
