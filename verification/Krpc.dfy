/**
 * KRPC messages of dht/krpc.go (section "KRPC Protocol" of BEP 5): a dictionary whose parts are kept raw and
 * read later.
 */
module Krpc {
  import opened Bytes
  import opened Numerals
  import opened Values
  import opened Decode
  import opened Encode
  import opened RoundTrip

  // ---------- records, field by field ----------

  function FieldsOf(fs: seq<FieldVal>): (r: seq<Field>)
    ensures |r| == |fs|
  {
    if fs == [] then [] else [fs[0].field] + FieldsOf(fs[1..])
  }

  /** A field whose value fits its type and can be written. */
  predicate FieldReady(f: FieldVal) {
    HasType(f.field.typ, f.val) && EncodableField(f) && NilFreeField(f)
  }

  predicate RecordReady(fs: seq<FieldVal>) {
    (forall f | f in fs :: FieldReady(f)) && NamesDistinct(fs)
  }

  lemma {:induction false} FieldsReady(fs: seq<FieldVal>)
    requires forall f | f in fs :: FieldReady(f)
    ensures HasTypeFields(FieldsOf(fs), fs) && EncodableFields(fs) && NilFreeFields(fs)
  {
    hide HasType, Encodable, NilFree, Kept;
    if fs == [] {
    } else {
      assert FieldReady(fs[0]);
      FieldsReady(fs[1..]);
    }
  }

  /** A record of any schema survives the wire. */
  lemma RecordRoundTrip(fs: seq<FieldVal>, rest: bytes)
    requires RecordReady(fs)
    ensures HasType(TStruct(FieldsOf(fs)), VStruct(fs))
    ensures Unmarshal(TStruct(FieldsOf(fs)), Zero(TStruct(FieldsOf(fs))), Enc(VStruct(fs)) + rest) == Some(VStruct(fs))
  {
    hide FieldReady, DecodeValue, Enc, Zero;
    FieldsReady(fs);
    RecordParts(fs);
    DecodeEncNilFree(TStruct(FieldsOf(fs)), VStruct(fs), rest);
  }

  lemma RecordParts(fs: seq<FieldVal>)
    requires HasTypeFields(FieldsOf(fs), fs) && EncodableFields(fs) && NilFreeFields(fs) && NamesDistinct(fs)
    ensures HasType(TStruct(FieldsOf(fs)), VStruct(fs)) && Encodable(VStruct(fs)) && NilFree(VStruct(fs))
  {
  }

  lemma RecordWhole(fs: seq<FieldVal>)
    requires RecordReady(fs)
    ensures Whole(Enc(VStruct(fs)))
  {
    hide FieldReady;
    FieldsReady(fs);
    RecordParts(fs);
    EncWhole(VStruct(fs));
  }

  /** One whole value, and so a raw message that can be written. */
  predicate Whole(raw: bytes) {
    Encodable(VRaw(raw))
  }

  lemma EncWhole(v: Value)
    requires Encodable(v) && !v.VNil?
    ensures Whole(Enc(v))
  {
    EncodableWritable(v);
    ScanEnc(v, []);
    assert Enc(v) + [] == Enc(v);
  }

  predicate Short(s: bytes) {
    |s| < MAX_LEN
  }

  function StrField(name: bytes, omit: bool, s: bytes): FieldVal {
    FieldVal(Field(name, omit, TStr), VStr(s))
  }

  function RawField(name: bytes, raw: bytes): FieldVal {
    FieldVal(Field(name, true, TRaw), VRaw(raw))
  }

  /** A pointer to a type that reads and writes itself: nil, or its text. */
  function RawPtrField(name: bytes, raw: Option<bytes>): FieldVal {
    FieldVal(Field(name, true, TPtr(TRaw)), if raw.None? then VNil else VRaw(raw.value))
  }

  lemma RawPtrFieldReady(name: bytes, raw: Option<bytes>)
    requires Short(name) && (raw.Some? ==> Whole(raw.value))
    ensures FieldReady(RawPtrField(name, raw))
  {
  }

  lemma StrFieldReady(name: bytes, omit: bool, s: bytes)
    requires Short(name) && Short(s)
    ensures FieldReady(StrField(name, omit, s))
  {
    assert Encodable(VStr(s));
  }

  lemma RawFieldReady(name: bytes, raw: bytes)
    requires Short(name) && (raw == [] || Whole(raw))
    ensures FieldReady(RawField(name, raw))
  {
  }

  // ---------- errors ----------

  datatype Err = Err(code: int, describe: bytes)

  predicate ErrReady(e: Err) {
    -HALF64 <= e.code < HALF64 && Short(e.describe)
  }

  /** KRPCErr.MarshalBencode */
  function MarshalErr(e: Err): bytes {
    Enc(VList([VInt(e.code), VStr(e.describe)]))
  }

  /**
   * What KRPCErr.UnmarshalBencode accepts: the first element may be anything, and counts as 0 when it is no
   * integer.
   */
  function UnmarshalErr(raw: bytes): Option<Err> {
    match Unmarshal(TList(TAny), VList([]), raw)
    case None => None
    case Some(v) =>
      if |v.vs| < 2 || !v.vs[1].VStr? then None
      else Some(Err(if v.vs[0].VInt? then v.vs[0].i else 0, v.vs[1].s))
  }

  /** The object: its fields are set before the last check. */
  class KRPCErr {
    var code: int
    var describe: bytes

    constructor (code: int, describe: bytes)
      ensures this.code == code && this.describe == describe
    {
      this.code, this.describe := code, describe;
    }

    method UnmarshalBencode(b: bytes) returns (ok: bool)
      modifies this
      ensures ok <==> UnmarshalErr(b).Some?
      ensures ok ==> Err(code, describe) == UnmarshalErr(b).value
      ensures var e := Unmarshal(TList(TAny), VList([]), b);
              if e.None? || |e.value.vs| < 2 then code == old(code) && describe == old(describe)
              else code == (if e.value.vs[0].VInt? then e.value.vs[0].i else 0)
                   && describe == if e.value.vs[1].VStr? then e.value.vs[1].s else []
    {
      hide DecodeValue;
      var e := Unmarshal(TList(TAny), VList([]), b);
      if e.None? {
        return false;
      }
      if |e.value.vs| < 2 {
        return false;
      }
      var first, second := e.value.vs[0], e.value.vs[1];
      code := if first.VInt? then first.i else 0;
      describe := if second.VStr? then second.s else [];
      ok := second.VStr?;
    }
  }

  lemma PairReady(v: Value, s: bytes)
    requires HasType(TAny, v) && Encodable(v) && !v.VNil? && NilFree(v) && Short(s)
    ensures var vs := [v, VStr(s)]; HasTypeItems(TAny, vs) && EncodableItems(vs) && NilFreeItems(vs)
  {
    var vs, tail := [v, VStr(s)], [VStr(s)];
    assert vs[1..] == tail && tail[1..] == [];
    assert HasType(TAny, VStr(s)) && Encodable(VStr(s)) && NilFree(VStr(s));
    assert HasTypeItems(TAny, tail) && EncodableItems(tail) && NilFreeItems(tail);
  }

  /**
   * Of an error list of any length, with anything in it, the first two elements count: the second must be a
   * string, the description; the first is the code when it is an integer.
   */
  lemma ErrFrom(vs: seq<Value>, rest: bytes)
    requires HasTypeItems(TAny, vs) && EncodableItems(vs) && NilFreeItems(vs)
    ensures UnmarshalErr(Enc(VList(vs)) + rest) ==
            if |vs| < 2 || !vs[1].VStr? then None
            else Some(Err(if vs[0].VInt? then vs[0].i else 0, vs[1].s))
  {
    hide Enc, DecodeValue, HasTypeItems, EncodableItems, NilFreeItems;
    ListParts(vs);
    DecodeEncNilFree(TList(TAny), VList(vs), rest);
  }

  /** `l1:a1:be` is accepted as an error: its code is no integer, and counts as 0. */
  lemma NoCodeExample()
    ensures UnmarshalErr([CH_L, 49, COLON, 97, 49, COLON, 98, CH_E]) == Some(Err(0, [98]))
  {
    hide DecodeValue, UnmarshalErr;
    var vs := [VStr([97]), VStr([98])];
    PairReady(VStr([97]), [98]);
    ErrFrom(vs, []);
    assert Digits(1) == [49];
    assert vs[1..] == [VStr([98])] && vs[1..][1..] == [];
    assert Enc(VStr([97])) == [49, COLON, 97] && Enc(VStr([98])) == [49, COLON, 98];
    assert EncItems(vs[1..]) == [49, COLON, 98] + [CH_E];
    assert EncItems(vs) == [49, COLON, 97] + EncItems(vs[1..]);
    assert Enc(VList(vs)) + [] == [CH_L, 49, COLON, 97, 49, COLON, 98, CH_E];
  }

  lemma ListParts(vs: seq<Value>)
    requires HasTypeItems(TAny, vs) && EncodableItems(vs) && NilFreeItems(vs)
    ensures HasType(TList(TAny), VList(vs)) && Encodable(VList(vs)) && NilFree(VList(vs))
    ensures Zero(TList(TAny)) == VList([])
  {
  }

  lemma ErrRoundTrip(e: Err, rest: bytes)
    requires ErrReady(e)
    ensures UnmarshalErr(MarshalErr(e) + rest) == Some(e) && Whole(MarshalErr(e))
  {
    PairReady(VInt(e.code), e.describe);
    ErrFrom([VInt(e.code), VStr(e.describe)], rest);
    EncWhole(VList([VInt(e.code), VStr(e.describe)]));
  }

  // ---------- messages ----------

  datatype Message = Message(t: bytes, y: bytes, q: bytes, a: bytes, r: bytes, err: Option<Err>)

  function ErrField(e: Option<Err>): FieldVal {
    RawPtrField([101], if e.None? then None else Some(MarshalErr(e.value)))
  }

  /** The fields of Message, in the order of their declaration; their names are t, y, q, a, r and e. */
  function Wire(m: Message): seq<FieldVal> {
    [StrField([116], false, m.t), StrField([121], false, m.y), StrField([113], true, m.q),
     RawField([97], m.a), RawField([114], m.r), ErrField(m.err)]
  }

  const MESSAGE: seq<Field> := [
    Field([116], false, TStr), Field([121], false, TStr), Field([113], true, TStr),
    Field([97], true, TRaw), Field([114], true, TRaw), Field([101], true, TPtr(TRaw))]

  predicate MessageReady(m: Message) {
    && Short(m.t) && Short(m.y) && Short(m.q)
    && (m.a == [] || Whole(m.a)) && (m.r == [] || Whole(m.r))
    && (m.err.Some? ==> ErrReady(m.err.value))
  }

  function MarshalMessage(m: Message): bytes {
    Enc(VStruct(Wire(m)))
  }

  /** A message is read in two steps: the record, and the error in it by its own method. */
  function UnmarshalMessage(data: bytes): Option<Message> {
    match Unmarshal(TStruct(MESSAGE), Zero(TStruct(MESSAGE)), data)
    case None => None
    case Some(v) => FromWire(v.fs)
  }

  function FromWire(fs: seq<FieldVal>): Option<Message>
    requires HasTypeFields(MESSAGE, fs)
  {
    SameLength(MESSAGE, fs);
    FieldTyped(MESSAGE, fs, 0);
    FieldTyped(MESSAGE, fs, 1);
    FieldTyped(MESSAGE, fs, 2);
    FieldTyped(MESSAGE, fs, 3);
    FieldTyped(MESSAGE, fs, 4);
    FieldTyped(MESSAGE, fs, 5);
    var m := Message(fs[0].val.s, fs[1].val.s, fs[2].val.s, fs[3].val.raw, fs[4].val.raw, None);
    if fs[5].val.VNil? then Some(m)
    else
      match UnmarshalErr(fs[5].val.raw)
      case None => None
      case Some(e) => Some(m.(err := Some(e)))
  }

  lemma WireFields(m: Message)
    ensures FieldsOf(Wire(m)) == MESSAGE
  {
    hide MarshalErr;
    var fs := Wire(m);
    assert fs[1..][1..][1..][1..][1..][1..] == [];
    assert forall i | 0 <= i < 5 :: fs[1..][i] == fs[i + 1];
    assert FieldsOf(fs[1..][1..][1..][1..][1..]) == [Field([101], true, TPtr(TRaw))];
    assert FieldsOf(fs[1..][1..][1..][1..]) == [Field([114], true, TRaw), Field([101], true, TPtr(TRaw))];
    assert FieldsOf(fs[1..][1..][1..]) ==
           [Field([97], true, TRaw), Field([114], true, TRaw), Field([101], true, TPtr(TRaw))];
    assert FieldsOf(fs[1..][1..]) ==
           [Field([113], true, TStr), Field([97], true, TRaw), Field([114], true, TRaw),
            Field([101], true, TPtr(TRaw))];
  }

  lemma WireReady(m: Message)
    requires MessageReady(m)
    ensures RecordReady(Wire(m))
  {
    hide FieldReady, Whole, MarshalErr;
    StrFieldReady([116], false, m.t);
    StrFieldReady([121], false, m.y);
    StrFieldReady([113], true, m.q);
    RawFieldReady([97], m.a);
    RawFieldReady([114], m.r);
    ErrFieldReady(m.err);
  }

  lemma ErrFieldReady(e: Option<Err>)
    requires e.Some? ==> ErrReady(e.value)
    ensures FieldReady(ErrField(e))
  {
    hide FieldReady, Whole, MarshalErr;
    if e.Some? {
      ErrRoundTrip(e.value, []);
    }
    RawPtrFieldReady([101], if e.None? then None else Some(MarshalErr(e.value)));
  }

  /** Every message comes back as it was, its arguments and response byte for byte, whatever follows it. */
  lemma MessageRoundTrip(m: Message, rest: bytes)
    requires MessageReady(m)
    ensures UnmarshalMessage(MarshalMessage(m) + rest) == Some(m)
  {
    hide Enc, DecodeValue, RecordReady, MarshalErr, UnmarshalErr, FieldsOf, HasTypeFields;
    WireReady(m);
    WireFields(m);
    RecordRoundTrip(Wire(m), rest);
    if m.err.Some? {
      ErrRoundTrip(m.err.value, []);
      assert MarshalErr(m.err.value) + [] == MarshalErr(m.err.value);
    }
  }

  /** An error that cannot be read makes the whole message unreadable. */
  lemma BadError(t: bytes, y: bytes, raw: bytes, rest: bytes)
    requires Short(t) && Short(y) && Whole(raw) && UnmarshalErr(raw).None?
    ensures var fs := Wire(Message(t, y, [], [], [], None))[5 := RawPtrField([101], Some(raw))];
            UnmarshalMessage(Enc(VStruct(fs)) + rest) == None
  {
    hide Enc, DecodeValue, FieldReady, MarshalErr, UnmarshalErr, FieldsOf, HasTypeFields, Whole;
    var m := Message(t, y, [], [], [], None);
    var fs := Wire(m)[5 := RawPtrField([101], Some(raw))];
    WireReady(m);
    WireFields(m);
    RawPtrFieldReady([101], Some(raw));
    OtherError(Wire(m), fs);
    RecordRoundTrip(fs, rest);
  }

  lemma OtherError(fs: seq<FieldVal>, gs: seq<FieldVal>)
    requires |fs| == |gs| == 6 && gs == fs[5 := gs[5]] && fs[5].field == gs[5].field
    requires RecordReady(fs) && FieldReady(gs[5])
    ensures RecordReady(gs) && FieldsOf(gs) == FieldsOf(fs)
  {
    hide FieldReady;
    forall f | f in gs ensures FieldReady(f) {
      var i :| 0 <= i < 6 && gs[i] == f;
    }
    assert forall i | 0 <= i < 6 :: gs[i].field == fs[i].field;
    SameFields(fs, gs);
  }

  lemma {:induction false} SameFields(fs: seq<FieldVal>, gs: seq<FieldVal>)
    requires |fs| == |gs| && forall i | 0 <= i < |fs| :: fs[i].field == gs[i].field
    ensures FieldsOf(fs) == FieldsOf(gs)
  {
    if fs == [] {
    } else {
      SameFields(fs[1..], gs[1..]);
    }
  }

  // ---------- queries ----------

  datatype Args =
    | PingArgs(id: bytes)
    | FindNodeArgs(id: bytes, target: bytes)
    | GetPeersArgs(id: bytes, infoHash: bytes)
    | AnnouncePeerArgs(id: bytes, infoHash: bytes, port: int, token: bytes)

  /** "id", "target", "info_hash", "port", "token" */
  const ID: bytes := [105, 100]
  const TARGET: bytes := [116, 97, 114, 103, 101, 116]
  const INFO_HASH: bytes := [105, 110, 102, 111, 95, 104, 97, 115, 104]
  const PORT: bytes := [112, 111, 114, 116]
  const TOKEN: bytes := [116, 111, 107, 101, 110]

  function ArgFields(args: Args): seq<FieldVal> {
    match args
    case PingArgs(id) => [StrField(ID, false, id)]
    case FindNodeArgs(id, target) => [StrField(ID, false, id), StrField(TARGET, false, target)]
    case GetPeersArgs(id, hash) => [StrField(ID, false, id), StrField(INFO_HASH, false, hash)]
    case AnnouncePeerArgs(id, hash, port, token) =>
      [StrField(ID, false, id), StrField(INFO_HASH, false, hash),
       FieldVal(Field(PORT, false, TInt(W64)), VInt(port)), StrField(TOKEN, false, token)]
  }

  predicate ArgsReady(args: Args) {
    && Short(args.id)
    && (args.FindNodeArgs? ==> Short(args.target))
    && (args.GetPeersArgs? || args.AnnouncePeerArgs? ==> Short(args.infoHash))
    && (args.AnnouncePeerArgs? ==> Short(args.token) && -HALF64 <= args.port < HALF64)
  }

  /** The name of a query: "ping", "find_node", "get_peers", "announce_peer". */
  function QueryName(args: Args): bytes {
    match args
    case PingArgs(_) => [112, 105, 110, 103]
    case FindNodeArgs(_, _) => [102, 105, 110, 100, 95, 110, 111, 100, 101]
    case GetPeersArgs(_, _) => [103, 101, 116, 95, 112, 101, 101, 114, 115]
    case AnnouncePeerArgs(_, _, _, _) => [97, 110, 110, 111, 117, 110, 99, 101, 95, 112, 101, 101, 114]
  }

  function MarshalArgs(args: Args): bytes {
    Enc(VStruct(ArgFields(args)))
  }

  function MakeQueryEx(q: bytes, t: bytes, args: Args): Message {
    Message(t, [113], q, MarshalArgs(args), [], None)
  }

  function MakeQuery(t: bytes, args: Args): Message {
    MakeQueryEx(QueryName(args), t, args)
  }

  lemma ArgsFit(args: Args)
    requires ArgsReady(args)
    ensures RecordReady(ArgFields(args))
  {
    hide FieldReady;
    assert |ID| == 2 && |TARGET| == 6 && |INFO_HASH| == 9 && |PORT| == 4 && |TOKEN| == 5;
    StrFieldReady(ID, false, args.id);
    match args
    case PingArgs(_) =>
    case FindNodeArgs(_, target) => StrFieldReady(TARGET, false, target);
    case GetPeersArgs(_, hash) => StrFieldReady(INFO_HASH, false, hash);
    case AnnouncePeerArgs(_, hash, port, token) =>
      StrFieldReady(INFO_HASH, false, hash);
      IntFieldReady(PORT, port);
      StrFieldReady(TOKEN, false, token);
  }

  lemma IntFieldReady(name: bytes, i: int)
    requires Short(name) && -HALF64 <= i < HALF64
    ensures FieldReady(FieldVal(Field(name, false, TInt(W64)), VInt(i)))
  {
    assert Encodable(VInt(i));
  }

  /**
   * A query survives both levels: the message comes back with the same transaction ID, kind, name and raw
   * arguments, and those read as the arguments that were given.
   */
  lemma QueryRoundTrip(t: bytes, args: Args, rest: bytes)
    requires Short(t) && ArgsReady(args)
    ensures var r := UnmarshalMessage(MarshalMessage(MakeQuery(t, args)) + rest);
            && r.Some? && r.value == Message(t, [113], QueryName(args), MarshalArgs(args), [], None)
            && HasType(TStruct(FieldsOf(ArgFields(args))), VStruct(ArgFields(args)))
            && Unmarshal(TStruct(FieldsOf(ArgFields(args))), Zero(TStruct(FieldsOf(ArgFields(args)))), r.value.a) ==
               Some(VStruct(ArgFields(args)))
  {
    hide Enc, DecodeValue, RecordReady, Whole, ArgFields, FieldsOf, UnmarshalMessage, MarshalMessage, HasType;
    ArgsFit(args);
    RecordWhole(ArgFields(args));
    RecordRoundTrip(ArgFields(args), []);
    assert Enc(VStruct(ArgFields(args))) + [] == Enc(VStruct(ArgFields(args)));
    MessageRoundTrip(MakeQuery(t, args), rest);
  }

  /** Arguments can be told apart by name and fields. */
  lemma ArgsDetermined(a: Args, b: Args)
    requires QueryName(a) == QueryName(b) && ArgFields(a) == ArgFields(b)
    ensures a == b
  {
    assert |QueryName(a)| == |QueryName(b)| && QueryName(a)[0] == QueryName(b)[0];
    var f, g := ArgFields(a), ArgFields(b);
    assert f[0].val.s == a.id && g[0].val.s == b.id;
  }

  // ---------- responses and errors ----------

  /** The "r" part; the compact nodes, where there are some, as the text that NodePtrSlice writes and reads. */
  datatype Response = Response(id: bytes, nodes: Option<bytes>, token: bytes, values: seq<bytes>)

  /** "nodes", "values" */
  const NODES: bytes := [110, 111, 100, 101, 115]
  const VALUES: bytes := [118, 97, 108, 117, 101, 115]

  function Strings(xs: seq<bytes>): seq<Value> {
    if xs == [] then [] else [VStr(xs[0])] + Strings(xs[1..])
  }

  function ResponseFields(r: Response): seq<FieldVal> {
    [StrField(ID, false, r.id), RawPtrField(NODES, r.nodes), StrField(TOKEN, true, r.token),
     FieldVal(Field(VALUES, true, TList(TStr)), VList(Strings(r.values)))]
  }

  predicate ResponseReady(r: Response) {
    Short(r.id) && Short(r.token) && (r.nodes.Some? ==> Whole(r.nodes.value)) && forall x | x in r.values :: Short(x)
  }

  function MakeResponse(t: bytes, r: Response): Message {
    Message(t, [114], [], [], Enc(VStruct(ResponseFields(r))), None)
  }

  function MakeError(t: bytes, e: Err): Message {
    Message(t, [101], [], [], [], Some(e))
  }

  lemma {:induction false} StringsReady(xs: seq<bytes>)
    requires forall x | x in xs :: Short(x)
    ensures var vs := Strings(xs); HasTypeItems(TStr, vs) && EncodableItems(vs) && NilFreeItems(vs)
  {
    if xs == [] {
    } else {
      StringsReady(xs[1..]);
      assert xs[0] in xs && Encodable(VStr(xs[0]));
      assert Strings(xs)[1..] == Strings(xs[1..]);
    }
  }

  lemma {:induction false} StringsInjective(xs: seq<bytes>, ys: seq<bytes>)
    requires Strings(xs) == Strings(ys)
    ensures xs == ys
  {
    if xs != [] && ys != [] {
      assert Strings(xs)[0] == VStr(xs[0]) && Strings(ys)[0] == VStr(ys[0]);
      assert Strings(xs)[1..] == Strings(xs[1..]) && Strings(ys)[1..] == Strings(ys[1..]);
      StringsInjective(xs[1..], ys[1..]);
    }
  }

  lemma ResponseFit(r: Response)
    requires ResponseReady(r)
    ensures RecordReady(ResponseFields(r))
  {
    hide FieldReady, Whole;
    assert |ID| == 2 && |NODES| == 5 && |TOKEN| == 5 && |VALUES| == 6;
    assert NODES[0] != TOKEN[0];
    StrFieldReady(ID, false, r.id);
    RawPtrFieldReady(NODES, r.nodes);
    StrFieldReady(TOKEN, true, r.token);
    ListFieldReady(VALUES, r.values);
  }

  lemma ListFieldReady(name: bytes, xs: seq<bytes>)
    requires Short(name) && forall x | x in xs :: Short(x)
    ensures FieldReady(FieldVal(Field(name, true, TList(TStr)), VList(Strings(xs))))
  {
    StringsReady(xs);
    assert Encodable(VList(Strings(xs)));
  }

  /**
   * A response survives both levels, its nodes byte for byte, nil nodes and an empty token or list of values,
   * which are not written, included.
   */
  lemma ResponseRoundTrip(t: bytes, resp: Response, rest: bytes)
    requires Short(t) && ResponseReady(resp)
    ensures var fs := ResponseFields(resp);
            var r := UnmarshalMessage(MarshalMessage(MakeResponse(t, resp)) + rest);
            && r == Some(Message(t, [114], [], [], Enc(VStruct(fs)), None))
            && HasType(TStruct(FieldsOf(fs)), VStruct(fs))
            && Unmarshal(TStruct(FieldsOf(fs)), Zero(TStruct(FieldsOf(fs))), r.value.r) == Some(VStruct(fs))
  {
    hide Enc, DecodeValue, RecordReady, Whole, ResponseFields, FieldsOf, UnmarshalMessage, MarshalMessage, HasType;
    var fs := ResponseFields(resp);
    ResponseFit(resp);
    RecordWhole(fs);
    RecordRoundTrip(fs, []);
    assert Enc(VStruct(fs)) + [] == Enc(VStruct(fs));
    MessageRoundTrip(MakeResponse(t, resp), rest);
  }

  /** The fields that come back are those of one response only. */
  lemma ResponseDetermined(a: Response, b: Response)
    requires ResponseFields(a) == ResponseFields(b)
    ensures a == b
  {
    var f, g := ResponseFields(a), ResponseFields(b);
    assert f[0].val == VStr(a.id) && g[0].val == VStr(b.id);
    assert f[1] == RawPtrField(NODES, a.nodes) && g[1] == RawPtrField(NODES, b.nodes);
    assert f[2].val == VStr(a.token) && g[2].val == VStr(b.token);
    assert f[3].val == VList(Strings(a.values)) && g[3].val == VList(Strings(b.values));
    StringsInjective(a.values, b.values);
  }

  /** An error message gives back its code and description. */
  lemma ErrorRoundTrip(t: bytes, e: Err, rest: bytes)
    requires Short(t) && ErrReady(e)
    ensures UnmarshalMessage(MarshalMessage(MakeError(t, e)) + rest) == Some(MakeError(t, e))
  {
    MessageRoundTrip(MakeError(t, e), rest);
  }
}
