/** The messages of dht/krpc.go as text: every key, and the order of the keys, written out. */
module KrpcText {
  import opened Bytes
  import opened Numerals
  import opened Values
  import opened Sorting
  import opened Encode
  import opened Order
  import opened Texts
  import opened Krpc

  /** A string, with its length. */
  function Sized(s: bytes): bytes {
    FormatInt(|s|) + Ascii(":") + s
  }

  lemma SizedIs(s: bytes)
    ensures EncStr(s) == Sized(s) == Enc(VStr(s))
  {
    assert Ascii(":") == [COLON];
  }

  // ---------- records with sorted fields ----------

  /** The text of a record, its fields arranged by name. */
  lemma RecordText(fs: seq<FieldVal>, dict: seq<Keyed<Value>>)
    requires NamesDistinct(fs) && multiset(dict) == multiset(KeptFields(fs)) && NonDecreasing(dict)
    ensures Enc(VStruct(fs)) == Ascii("d") + Joined(Words(dict)) + Ascii("e")
  {
    hide Chunks, FieldChunks, KeptFields, NonDecreasing, NamesDistinct, Sort, EncChunks, Word;
    StructDetermined(fs, dict);
    WordsAre(dict);
    JoinedChunks(dict, Words(dict));
    assert Ascii("d") == [CH_D] && Ascii("e") == [CH_E];
    Associative([CH_D], Joined(Words(dict)), [CH_E]);
  }

  lemma WordsAre(dict: seq<Keyed<Value>>)
    ensures forall i | 0 <= i < |dict| :: Words(dict)[i] == EncStr(dict[i].key) + Enc(dict[i].item)
  {
    hide EncStr, Enc;
  }

  /** A field, if it is written. */
  function Part(f: FieldVal): seq<Keyed<Value>> {
    if Kept(f) then [Keyed(f.field.name, f.val)] else []
  }

  function PartText(f: FieldVal): bytes {
    if Kept(f) then Sized(f.field.name) + Enc(f.val) else []
  }

  lemma PartWord(f: FieldVal)
    ensures Joined(Words(Part(f))) == PartText(f)
  {
    hide Enc, Sized, EncStr;
    SizedIs(f.field.name);
    JoinedWord(Keyed(f.field.name, f.val));
    assert Words([]) == [];
  }

  function Parts(fs: seq<FieldVal>): seq<Keyed<Value>> {
    if fs == [] then [] else Part(fs[0]) + Parts(fs[1..])
  }

  function PartsText(fs: seq<FieldVal>): bytes {
    if fs == [] then [] else PartText(fs[0]) + PartsText(fs[1..])
  }

  lemma {:induction false} PartsAre(fs: seq<FieldVal>)
    ensures Parts(fs) == KeptFields(fs) && Joined(Words(Parts(fs))) == PartsText(fs)
  {
    hide Part, PartText, Words;
    if fs == [] {
      assert Words([]) == [];
    } else {
      PartsAre(fs[1..]);
      PartIs(fs[0]);
      PartWord(fs[0]);
      WordsAppend(Part(fs[0]), Parts(fs[1..]));
    }
  }

  lemma PartIs(f: FieldVal)
    ensures Part(f) == if Kept(f) then [Keyed(f.field.name, f.val)] else []
  {
  }

  /** Strictly increasing names. */
  predicate NamesIncrease(fs: seq<FieldVal>) {
    forall i, j | 0 <= i < j < |fs| :: Less(fs[i].field.name, fs[j].field.name)
  }

  lemma {:induction false} PartsSorted(fs: seq<FieldVal>)
    requires NamesIncrease(fs)
    ensures NonDecreasing(Parts(fs)) && NamesDistinct(fs)
  {
    hide Kept, Less;
    if fs == [] {
    } else {
      forall i, j | 0 <= i < j < |fs[1..]| ensures Less(fs[1..][i].field.name, fs[1..][j].field.name) {
        assert fs[1..][i] == fs[i + 1] && fs[1..][j] == fs[j + 1];
      }
      PartsSorted(fs[1..]);
      PartsAre(fs[1..]);
      forall y | y in Parts(fs[1..]) ensures !Less(y.key, fs[0].field.name) {
        var k := KeptFrom(fs[1..], y);
        assert fs[1..][k] == fs[k + 1];
        LessAsymmetric(fs[0].field.name, fs[k + 1].field.name);
      }
      NonDecreasingCons(Keyed(fs[0].field.name, fs[0].val), Parts(fs[1..]));
      DistinctNames(fs);
    }
  }

  lemma DistinctNames(fs: seq<FieldVal>)
    requires NamesIncrease(fs)
    ensures NamesDistinct(fs)
  {
    forall i, j | 0 <= i < j < |fs| ensures fs[i].field.name != fs[j].field.name {
      LessIrreflexive(fs[i].field.name);
    }
  }

  /** The text of a record, whose fields arranged by name are `gs`. */
  lemma ArrangedText(fs: seq<FieldVal>, gs: seq<FieldVal>)
    requires multiset(fs) == multiset(gs) && NamesDistinct(fs) && NamesIncrease(gs)
    ensures Enc(VStruct(fs)) == Ascii("d") + PartsText(gs) + Ascii("e")
  {
    hide KeptFields, NonDecreasing, NamesDistinct, Parts, PartsText, Words, NamesIncrease, Enc;
    PartsSorted(gs);
    PartsAre(gs);
    RecordText(gs, Parts(gs));
    FieldOrderIrrelevant(gs, fs);
  }

  // ---------- KRPC ----------

  /** A part that is left out when it is empty. */
  function Given(text: string, b: bytes, value: bytes): bytes {
    if b == [] then [] else Ascii(text) + value
  }

  lemma MessageNames(m: Message)
    ensures NamesDistinct(Wire(m))
  {
    hide MarshalErr;
    var fs := Wire(m);
    assert fs[0].field.name[0] == 116 && fs[1].field.name[0] == 121 && fs[2].field.name[0] == 113;
    assert fs[3].field.name[0] == 97 && fs[4].field.name[0] == 114 && fs[5].field.name[0] == 101;
  }

  /** The fields of a message by name: a, e, q, r, t, y. */
  function Arranged6(m: Message): seq<FieldVal> {
    var fs := Wire(m);
    [fs[3], fs[5], fs[2], fs[4], fs[0], fs[1]]
  }

  lemma LessByFirst(a: bytes, b: bytes)
    requires a != [] && b != [] && a[0] < b[0]
    ensures Less(a, b)
  {
  }

  function Upto<T>(xs: seq<T>, k: nat): multiset<T>
    requires k <= |xs|
  {
    multiset(xs[..k])
  }

  lemma UptoNext<T>(xs: seq<T>, k: nat)
    requires k < |xs|
    ensures Upto(xs, k + 1) == Upto(xs, k) + multiset{xs[k]}
  {
    assert xs[..k + 1] == xs[..k] + [xs[k]];
  }

  lemma SixItems<T>(xs: seq<T>)
    requires |xs| == 6
    ensures multiset(xs) == multiset{xs[0]} + multiset{xs[1]} + multiset{xs[2]} + multiset{xs[3]} + multiset{xs[4]}
                            + multiset{xs[5]}
  {
    assert Upto(xs, 0) == multiset{};
    assert Upto(xs, 6) == multiset(xs) by {
      assert xs[..6] == xs;
    }
    UptoNext(xs, 0);
    UptoNext(xs, 1);
    UptoNext(xs, 2);
    UptoNext(xs, 3);
    UptoNext(xs, 4);
    UptoNext(xs, 5);
  }

  lemma SixArranged<T>(xs: seq<T>, ys: seq<T>)
    requires |xs| == |ys| == 6
    requires ys[0] == xs[3] && ys[1] == xs[5] && ys[2] == xs[2] && ys[3] == xs[4] && ys[4] == xs[0] && ys[5] == xs[1]
    ensures multiset(ys) == multiset(xs)
  {
    SixItems(xs);
    SixItems(ys);
    var a, b, c := multiset{xs[0]}, multiset{xs[1]}, multiset{xs[2]};
    var d, e, f := multiset{xs[3]}, multiset{xs[4]}, multiset{xs[5]};
    assert d + f + c + e + a + b == a + b + c + d + e + f;
  }

  lemma MessageNamed(m: Message)
    ensures var gs := Arranged6(m);
            && gs[0].field.name == [97] && gs[1].field.name == [101] && gs[2].field.name == [113]
            && gs[3].field.name == [114] && gs[4].field.name == [116] && gs[5].field.name == [121]
  {
    hide MarshalErr;
  }

  lemma MessageOrder(m: Message)
    ensures NamesIncrease(Arranged6(m)) && multiset(Arranged6(m)) == multiset(Wire(m))
  {
    hide MarshalErr, Less, StrField, RawField, RawPtrField, ErrField;
    SixArranged(Wire(m), Arranged6(m));
    MessageNamed(m);
    var gs := Arranged6(m);
    forall i, j | 0 <= i < j < |gs| ensures Less(gs[i].field.name, gs[j].field.name) {
      LessByFirst(gs[i].field.name, gs[j].field.name);
    }
  }

  lemma PartsFirst(gs: seq<FieldVal>)
    ensures PartsText([]) == []
    ensures gs != [] ==> PartsText(gs) == PartText(gs[0]) + PartsText(gs[1..])
  {
    hide PartText;
  }

  lemma SixParts(gs: seq<FieldVal>)
    requires |gs| == 6
    ensures PartsText(gs) == PartText(gs[0]) + PartText(gs[1]) + PartText(gs[2]) + PartText(gs[3]) + PartText(gs[4])
                             + PartText(gs[5])
  {
    hide PartText, PartsText;
    assert gs[0..] == gs && gs[6..] == [];
    for i := 0 to 6
      invariant forall j | 0 <= j < i :: PartsText(gs[j..]) == PartText(gs[j]) + PartsText(gs[j + 1..])
    {
      PartsFirst(gs[i..]);
      assert gs[i..][1..] == gs[i + 1..];
    }
    PartsFirst([]);
    var p0, p1, p2 := PartText(gs[0]), PartText(gs[1]), PartText(gs[2]);
    var p3, p4, p5 := PartText(gs[3]), PartText(gs[4]), PartText(gs[5]);
    assert p0 + (p1 + (p2 + (p3 + (p4 + (p5 + []))))) == p0 + p1 + p2 + p3 + p4 + p5;
  }

  /** The error of a message. */
  function ErrorGiven(e: Option<Err>): bytes {
    match e
    case None => []
    case Some(e) => Ascii("1:eli") + FormatInt(e.code) + Ascii("e") + Sized(e.describe) + Ascii("e")
  }

  /** Every message as text: its parts by name, the transaction and the kind always. */
  lemma MessageText(m: Message)
    ensures MarshalMessage(m) ==
            Ascii("d") + Given("1:a", m.a, m.a) + ErrorGiven(m.err) + Given("1:q", m.q, Sized(m.q))
            + Given("1:r", m.r, m.r)
            + Ascii("1:t") + Sized(m.t) + Ascii("1:y") + Sized(m.y) + Ascii("e")
  {
    hide PartText, PartsText, NamesIncrease, NamesDistinct, Enc, Sized, Ascii, MarshalErr, FormatInt, Given, ErrorGiven;
    var gs := Arranged6(m);
    MessageNames(m);
    MessageOrder(m);
    ArrangedText(Wire(m), gs);
    SixParts(gs);
    NamedParts(m);
    assert PartsText(gs) == PartText(gs[0]) + PartText(gs[1]) + PartText(gs[2]) + PartText(gs[3])
                            + PartText(gs[4]) + PartText(gs[5]);
  }

  lemma NamedParts(m: Message)
    ensures var gs := Arranged6(m);
            && PartText(gs[0]) == Given("1:a", m.a, m.a)
            && PartText(gs[1]) == ErrorGiven(m.err)
            && PartText(gs[2]) == Given("1:q", m.q, Sized(m.q))
            && PartText(gs[3]) == Given("1:r", m.r, m.r)
            && PartText(gs[4]) == Ascii("1:t") + Sized(m.t)
            && PartText(gs[5]) == Ascii("1:y") + Sized(m.y)
  {
    hide Enc, Sized, Ascii, MarshalErr, FormatInt;
    ShortSized([97], "1:a");
    ShortSized([101], "1:e");
    ShortSized([113], "1:q");
    ShortSized([114], "1:r");
    ShortSized([116], "1:t");
    ShortSized([121], "1:y");
    SizedIs(m.q);
    SizedIs(m.t);
    SizedIs(m.y);
    RawIs(m.a);
    RawIs(m.r);
    if m.err.Some? {
      ErrText(m.err.value);
      RawIs(MarshalErr(m.err.value));
      ErrorLetter(m.err.value);
    }
  }

  lemma RawIs(raw: bytes)
    ensures Enc(VRaw(raw)) == raw
  {
  }

  lemma ErrorLetter(e: Err)
    ensures Ascii("1:e") + (Ascii("li") + FormatInt(e.code) + Ascii("e") + Sized(e.describe) + Ascii("e")) ==
            ErrorGiven(Some(e))
  {
    hide FormatInt, Sized;
    assert Ascii("1:eli") == Ascii("1:e") + Ascii("li");
  }

  /** A string of less than ten bytes. */
  lemma ShortSized(b: bytes, text: string)
    requires |b| < 10 && |text| == |b| + 2 && text[0] as int == 48 + |b| && text[1] == ':'
    requires forall i | 0 <= i < |b| :: text[i + 2] as int == b[i]
    ensures Sized(b) == Ascii(text)
  {
    assert Digits(|b|) == [48 + |b|] && Ascii(":") == [58];
  }

  lemma ErrText(e: Err)
    ensures MarshalErr(e) == Ascii("li") + FormatInt(e.code) + Ascii("e") + Sized(e.describe) + Ascii("e")
  {
    hide FormatInt;
    var vs := [VInt(e.code), VStr(e.describe)];
    SizedIs(e.describe);
    assert vs[1..] == [VStr(e.describe)] && vs[1..][1..] == [];
    assert EncItems(vs[1..]) == Enc(VStr(e.describe)) + [CH_E];
    assert EncItems(vs) == Enc(VInt(e.code)) + EncItems(vs[1..]);
    assert Ascii("li") == [CH_L, CH_I] && Ascii("e") == [CH_E];
  }

  // ---------- queries ----------

  lemma ArgNames(args: Args)
    ensures NamesIncrease(ArgFields(args)) && NamesDistinct(ArgFields(args))
  {
    hide Less;
    var fs := ArgFields(args);
    assert ID[0] == 105 && TARGET[0] == 116 && INFO_HASH[0] == 105 && PORT[0] == 112 && TOKEN[0] == 116;
    IdFirst();
    forall i, j | 0 <= i < j < |fs| ensures Less(fs[i].field.name, fs[j].field.name) {
      if fs[i].field.name[0] < fs[j].field.name[0] {
        LessByFirst(fs[i].field.name, fs[j].field.name);
      }
    }
    DistinctNames(fs);
  }

  lemma IdFirst()
    ensures Less(ID, INFO_HASH)
  {
    assert ID[1..] == [100] && INFO_HASH[1..][0] == 110;
  }

  /** A field that is always written. */
  lemma StrPart(name: bytes, s: bytes)
    ensures PartText(StrField(name, false, s)) == Sized(name) + Sized(s)
  {
    SizedIs(s);
  }

  lemma KeyTexts()
    ensures Sized(ID) == Ascii("2:id") && Sized(TARGET) == Ascii("6:target") && Sized(INFO_HASH) == Ascii("9:info_hash")
    ensures Sized(PORT) == Ascii("4:port") && Sized(TOKEN) == Ascii("5:token")
    ensures Sized(NODES) == Ascii("5:nodes") && Sized(VALUES) == Ascii("6:values")
  {
    hide Sized, Ascii;
    ShortSized(ID, "2:id");
    ShortSized(TARGET, "6:target");
    ShortSized(INFO_HASH, "9:info_hash");
    ShortSized(PORT, "4:port");
    ShortSized(TOKEN, "5:token");
    ShortSized(NODES, "5:nodes");
    ShortSized(VALUES, "6:values");
  }

  /** The arguments of the four queries as text. */
  function ArgsText(args: Args): bytes {
    match args
    case PingArgs(id) => Ascii("d2:id") + Sized(id) + Ascii("e")
    case FindNodeArgs(id, target) => Ascii("d2:id") + Sized(id) + Ascii("6:target") + Sized(target) + Ascii("e")
    case GetPeersArgs(id, hash) => Ascii("d2:id") + Sized(id) + Ascii("9:info_hash") + Sized(hash) + Ascii("e")
    case AnnouncePeerArgs(id, hash, port, token) =>
      Ascii("d2:id") + Sized(id) + Ascii("9:info_hash") + Sized(hash) + Ascii("4:porti") + FormatInt(port)
      + Ascii("e5:token") + Sized(token) + Ascii("e")
  }

  lemma ArgsWritten(args: Args)
    ensures MarshalArgs(args) == ArgsText(args)
  {
    hide PartText, PartsText, NamesIncrease, NamesDistinct, Enc, Sized, Ascii, FormatInt, ArgsText;
    ArgNames(args);
    ArrangedText(ArgFields(args), ArgFields(args));
    match args
    case PingArgs(id) => PingText(id);
    case FindNodeArgs(id, target) => TwoArgs(args, id, StrField(TARGET, false, target));
    case GetPeersArgs(id, hash) => TwoArgs(args, id, StrField(INFO_HASH, false, hash));
    case AnnouncePeerArgs(id, hash, port, token) => AnnounceText(id, hash, port, token);
  }

  lemma PingText(id: bytes)
    ensures Ascii("d") + PartsText(ArgFields(PingArgs(id))) + Ascii("e") == ArgsText(PingArgs(id))
  {
    hide PartText, PartsText, Sized, Ascii, StrField;
    var fs := ArgFields(PingArgs(id));
    KeyTexts();
    AsciiSplits();
    StrPart(ID, id);
    PartsFirst(fs);
    assert fs[1..] == [];
    assert Ascii("d") + (Ascii("2:id") + Sized(id) + []) == Ascii("d") + Ascii("2:id") + Sized(id);
  }

  lemma TwoArgs(args: Args, id: bytes, f: FieldVal)
    requires ArgFields(args) == [StrField(ID, false, id), f] && args.id == id
    requires args.FindNodeArgs? || args.GetPeersArgs?
    ensures Ascii("d") + PartsText(ArgFields(args)) + Ascii("e") == ArgsText(args)
  {
    hide PartText, PartsText, Sized, Ascii, StrField;
    var fs := ArgFields(args);
    KeyTexts();
    AsciiSplits();
    StrPart(ID, id);
    PartsFirst(fs);
    PartsFirst(fs[1..]);
    assert fs[1..][1..] == [];
    var text := PartText(f);
    assert PartsText(fs) == Ascii("2:id") + Sized(id) + (text + []);
    assert Ascii("d") + (Ascii("2:id") + Sized(id) + (text + [])) == Ascii("d") + Ascii("2:id") + Sized(id) + text;
    if args.FindNodeArgs? {
      StrPart(TARGET, args.target);
      Associative(Ascii("d2:id") + Sized(id), Ascii("6:target"), Sized(args.target));
    } else {
      StrPart(INFO_HASH, args.infoHash);
      Associative(Ascii("d2:id") + Sized(id), Ascii("9:info_hash"), Sized(args.infoHash));
    }
  }

  lemma AnnounceText(id: bytes, hash: bytes, port: int, token: bytes)
    ensures var args := AnnouncePeerArgs(id, hash, port, token);
            Ascii("d") + PartsText(ArgFields(args)) + Ascii("e") == ArgsText(args)
  {
    hide PartText, PartsText, Sized, Ascii, StrField, FormatInt;
    var fs := ArgFields(AnnouncePeerArgs(id, hash, port, token));
    KeyTexts();
    AsciiSplits();
    StrPart(ID, id);
    StrPart(INFO_HASH, hash);
    PortPart(port);
    StrPart(TOKEN, token);
    FourParts(fs);
    Concat4(Sized(id), Sized(hash), FormatInt(port), Sized(token));
  }

  lemma FourParts(gs: seq<FieldVal>)
    requires |gs| == 4
    ensures PartsText(gs) == PartText(gs[0]) + (PartText(gs[1]) + (PartText(gs[2]) + (PartText(gs[3]) + [])))
  {
    hide PartText, PartsText;
    PartsFirst(gs);
    PartsFirst(gs[1..]);
    PartsFirst(gs[2..]);
    PartsFirst(gs[3..]);
    assert gs[1..][1..] == gs[2..] && gs[2..][1..] == gs[3..] && gs[3..][1..] == [];
  }

  lemma Concat4(id: bytes, hash: bytes, port: bytes, token: bytes)
    ensures Ascii("d") + ((Ascii("2:id") + id) + ((Ascii("9:info_hash") + hash) +
              ((Ascii("4:port") + Ascii("i") + port + Ascii("e")) + ((Ascii("5:token") + token) + [])))) + Ascii("e") ==
            Ascii("d2:id") + id + Ascii("9:info_hash") + hash + Ascii("4:porti") + port + Ascii("e5:token") + token
            + Ascii("e")
  {
    hide Ascii;
    AsciiSplits();
  }

  lemma AsciiSplits()
    ensures Ascii("d") + Ascii("2:id") == Ascii("d2:id")
    ensures Ascii("4:port") + Ascii("i") == Ascii("4:porti") && Ascii("e") + Ascii("5:token") == Ascii("e5:token")
  {
  }

  lemma PortPart(port: int)
    ensures PartText(FieldVal(Field(PORT, false, TInt(W64)), VInt(port))) ==
            Sized(PORT) + Ascii("i") + FormatInt(port) + Ascii("e")
  {
    assert Ascii("i") == [CH_I] && Ascii("e") == [CH_E];
  }

  /** Every query as text. */
  lemma QueryText(t: bytes, args: Args)
    ensures MarshalMessage(MakeQuery(t, args)) ==
            Ascii("d1:a") + ArgsText(args)
            + (match args
               case PingArgs(_) => Ascii("1:q4:ping")
               case FindNodeArgs(_, _) => Ascii("1:q9:find_node")
               case GetPeersArgs(_, _) => Ascii("1:q9:get_peers")
               case AnnouncePeerArgs(_, _, _, _) => Ascii("1:q13:announce_peer"))
            + Ascii("1:t") + Sized(t) + Ascii("1:y1:qe")
  {
    hide Sized, Ascii, ArgsText, Enc, MarshalMessage;
    ArgsWritten(args);
    MessageText(MakeQuery(t, args));
    ArgsNotEmpty(args);
    NameText(args);
    KindText();
    assert Given("1:r", [], []) == [];
  }

  lemma ArgsNotEmpty(args: Args)
    ensures ArgsText(args) != []
  {
  }

  lemma NameText(args: Args)
    ensures QueryName(args) != []
    ensures Ascii("1:q") + Sized(QueryName(args)) ==
            match args
            case PingArgs(_) => Ascii("1:q4:ping")
            case FindNodeArgs(_, _) => Ascii("1:q9:find_node")
            case GetPeersArgs(_, _) => Ascii("1:q9:get_peers")
            case AnnouncePeerArgs(_, _, _, _) => Ascii("1:q13:announce_peer")
  {
    hide Sized, Ascii;
    match args
    case PingArgs(_) => PingName(QueryName(args));
    case FindNodeArgs(_, _) => FindNodeName(QueryName(args));
    case GetPeersArgs(_, _) => GetPeersName(QueryName(args));
    case AnnouncePeerArgs(_, _, _, _) => AnnounceName(QueryName(args));
  }

  lemma PingName(b: bytes)
    requires b == [112, 105, 110, 103]
    ensures Ascii("1:q") + Sized(b) == Ascii("1:q4:ping")
  {
    hide Sized, Ascii;
    ShortSized(b, "4:ping");
    Quoted("4:ping", "1:q4:ping");
  }

  lemma FindNodeName(b: bytes)
    requires b == [102, 105, 110, 100, 95, 110, 111, 100, 101]
    ensures Ascii("1:q") + Sized(b) == Ascii("1:q9:find_node")
  {
    hide Sized, Ascii;
    ShortSized(b, "9:find_node");
    Quoted("9:find_node", "1:q9:find_node");
  }

  lemma GetPeersName(b: bytes)
    requires b == [103, 101, 116, 95, 112, 101, 101, 114, 115]
    ensures Ascii("1:q") + Sized(b) == Ascii("1:q9:get_peers")
  {
    hide Sized, Ascii;
    ShortSized(b, "9:get_peers");
    Quoted("9:get_peers", "1:q9:get_peers");
  }

  lemma AnnounceName(b: bytes)
    requires b == [97, 110, 110, 111, 117, 110, 99, 101, 95, 112, 101, 101, 114]
    ensures Ascii("1:q") + Sized(b) == Ascii("1:q13:announce_peer")
  {
    hide Sized, Ascii;
    AnnounceStr(b);
    Quoted("13:announce_peer", "1:q13:announce_peer");
  }

  lemma AnnounceStr(b: bytes)
    requires b == [97, 110, 110, 111, 117, 110, 99, 101, 95, 112, 101, 101, 114]
    ensures Sized(b) == Ascii("13:announce_peer")
  {
    assert Digits(13) == [49, 51] && Ascii(":") == [58];
  }

  lemma Quoted(name: string, text: string)
    requires text == "1:q" + name
    ensures Ascii("1:q") + Ascii(name) == Ascii(text)
  {
  }

  lemma KindText()
    ensures Ascii("d") + Ascii("1:a") == Ascii("d1:a")
    ensures Ascii("1:y") + Sized([113]) + Ascii("e") == Ascii("1:y1:qe")
    ensures Ascii("1:y") + Sized([114]) + Ascii("e") == Ascii("1:y1:re")
    ensures Ascii("1:y") + Sized([101]) + Ascii("e") == Ascii("1:y1:ee")
    ensures Ascii("d") + Ascii("1:r") == Ascii("d1:r") && Ascii("d") + Ascii("1:eli") == Ascii("d1:eli")
  {
    ShortSized([113], "1:q");
    ShortSized([114], "1:r");
    ShortSized([101], "1:e");
  }

  // ---------- responses and errors ----------

  /** An error message as text. */
  lemma ErrorText(t: bytes, e: Err)
    ensures MarshalMessage(MakeError(t, e)) ==
            Ascii("d1:eli") + FormatInt(e.code) + Ascii("e") + Sized(e.describe) + Ascii("e1:t") + Sized(t)
            + Ascii("1:y1:ee")
  {
    hide Sized, Ascii, Enc, MarshalMessage, FormatInt;
    MessageText(MakeError(t, e));
    KindText();
    NothingGiven();
    assert Ascii("e") + Ascii("1:t") == Ascii("e1:t") by {
      EndT();
    }
  }

  lemma EndT()
    ensures Ascii("e") + Ascii("1:t") == Ascii("e1:t")
  {
  }

  lemma NothingGiven()
    ensures Given("1:a", [], []) == [] && Given("1:q", [], Sized([])) == [] && Given("1:r", [], []) == []
  {
  }

  /** The values of a response, each with its length. */
  function StrsText(xs: seq<bytes>): bytes {
    if xs == [] then [] else Sized(xs[0]) + StrsText(xs[1..])
  }

  /** The response: nodes only where there are some, a token and values only where they are not empty. */
  function ResponseText(r: Response): bytes {
    Ascii("d2:id") + Sized(r.id)
    + (if r.nodes.None? then [] else Ascii("5:nodes") + r.nodes.value)
    + Given("5:token", r.token, Sized(r.token))
    + (if r.values == [] then [] else Ascii("6:valuesl") + StrsText(r.values) + Ascii("e"))
    + Ascii("e")
  }

  lemma {:induction false} StringsWritten(xs: seq<bytes>)
    ensures EncItems(Strings(xs)) == StrsText(xs) + Ascii("e")
  {
    hide Sized;
    assert Ascii("e") == [CH_E];
    if xs == [] {
    } else {
      StringsWritten(xs[1..]);
      SizedIs(xs[0]);
      assert Strings(xs)[1..] == Strings(xs[1..]);
      Associative(Sized(xs[0]), StrsText(xs[1..]), Ascii("e"));
    }
  }

  lemma ResponseNames(r: Response)
    ensures NamesIncrease(ResponseFields(r)) && NamesDistinct(ResponseFields(r))
  {
    hide Less;
    var fs := ResponseFields(r);
    assert ID[0] == 105 && NODES[0] == 110 && TOKEN[0] == 116 && VALUES[0] == 118;
    forall i, j | 0 <= i < j < |fs| ensures Less(fs[i].field.name, fs[j].field.name) {
      LessByFirst(fs[i].field.name, fs[j].field.name);
    }
    DistinctNames(fs);
  }

  lemma ResponseParts(r: Response)
    ensures var fs := ResponseFields(r);
            && PartText(fs[0]) == Ascii("2:id") + Sized(r.id)
            && PartText(fs[1]) == (if r.nodes.None? then [] else Ascii("5:nodes") + r.nodes.value)
            && PartText(fs[2]) == Given("5:token", r.token, Sized(r.token))
            && PartText(fs[3]) == if r.values == [] then [] else Ascii("6:valuesl") + StrsText(r.values) + Ascii("e")
  {
    hide Sized, Ascii, StrsText;
    KeyTexts();
    StrPart(ID, r.id);
    SizedIs(r.token);
    StringsWritten(r.values);
    ValuesText(StrsText(r.values));
    assert Enc(VList(Strings(r.values))) == [CH_L] + EncItems(Strings(r.values));
  }

  lemma ValuesText(text: bytes)
    ensures Ascii("6:values") + ([CH_L] + (text + Ascii("e"))) == Ascii("6:valuesl") + text + Ascii("e")
  {
    assert Ascii("6:values") + [CH_L] == Ascii("6:valuesl");
  }

  lemma ResponseWritten(r: Response)
    ensures Enc(VStruct(ResponseFields(r))) == ResponseText(r)
  {
    hide PartText, PartsText, NamesIncrease, NamesDistinct, Enc, Sized, Ascii, StrsText, Given;
    var fs := ResponseFields(r);
    ResponseNames(r);
    ArrangedText(fs, fs);
    FourParts(fs);
    ResponseParts(r);
    AsciiSplits();
    var a, b, c := PartText(fs[1]), PartText(fs[2]), PartText(fs[3]);
    assert Ascii("d") + ((Ascii("2:id") + Sized(r.id)) + (a + (b + (c + [])))) + Ascii("e") ==
           Ascii("d") + Ascii("2:id") + Sized(r.id) + a + b + c + Ascii("e");
  }

  /** A response message as text. */
  lemma ResponseMessageText(t: bytes, r: Response)
    ensures MarshalMessage(MakeResponse(t, r)) ==
            Ascii("d1:r") + ResponseText(r) + Ascii("1:t") + Sized(t) + Ascii("1:y1:re")
  {
    hide Sized, Ascii, Enc, MarshalMessage, ResponseText;
    ResponseWritten(r);
    ResponseNotEmpty(r);
    MessageText(MakeResponse(t, r));
    KindText();
    NothingGiven();
  }

  lemma ResponseNotEmpty(r: Response)
    ensures ResponseText(r) != []
  {
  }
}
