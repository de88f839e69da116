/**
 * Texts written out: the messages of the metadata download, handshakes, frames, and values as they are
 * encoded (bencode/encode_test.go).
 */
module Vectors {
  import opened Bytes
  import opened Numerals
  import opened Values
  import opened Encode
  import opened RoundTrip
  import opened PeerWire
  import opened Extension
  import opened FetchMeta
  import opened Download
  import opened KrpcText

  // ---------- maps as text ----------

  function EntriesText(es: seq<Entry>): bytes {
    if es == [] then []
    else (if es[0].val.VNil? then [] else Sized(es[0].key) + Enc(es[0].val)) + EntriesText(es[1..])
  }

  lemma {:induction false} EntriesWritten(es: seq<Entry>)
    ensures EncChunks(EntryChunks(es)) == EntriesText(es) + Ascii("e")
  {
    hide Enc, Sized;
    assert Ascii("e") == [CH_E];
    if es == [] {
    } else {
      EntriesWritten(es[1..]);
      SizedIs(es[0].key);
      if es[0].val.VNil? {
        assert EntryChunks(es) == EntryChunks(es[1..]);
      } else {
        assert EntryChunks(es)[1..] == EntryChunks(es[1..]);
        Associative(Sized(es[0].key) + Enc(es[0].val), EntriesText(es[1..]), Ascii("e"));
      }
    }
  }

  /** The text of a map. */
  lemma MapText(es: seq<Entry>)
    ensures Enc(VDict(es)) == Ascii("d") + EntriesText(es) + Ascii("e")
  {
    hide EncChunks, EntryChunks, EntriesText;
    EntriesWritten(es);
    assert Ascii("d") == [CH_D];
    Associative([CH_D], EntriesText(es), Ascii("e"));
  }

  lemma TwoEntries(a: Entry, b: Entry)
    requires !a.val.VNil? && !b.val.VNil?
    ensures Enc(VDict([a, b])) ==
            Ascii("d") + (Sized(a.key) + Enc(a.val)) + (Sized(b.key) + Enc(b.val)) + Ascii("e")
    ensures Enc(VDict([a])) == Ascii("d") + (Sized(a.key) + Enc(a.val)) + Ascii("e")
  {
    hide Enc, Sized;
    MapText([a, b]);
    MapText([a]);
    assert [a, b][1..] == [b] && [b][1..] == [] && [a][1..] == [];
    assert EntriesText([b]) == Sized(b.key) + Enc(b.val) + [];
    assert EntriesText([a]) == Sized(a.key) + Enc(a.val) + [];
    assert EntriesText([a, b]) == Sized(a.key) + Enc(a.val) + EntriesText([b]);
  }

  lemma NumberIs(i: int)
    ensures Enc(VInt(i)) == Ascii("i") + FormatInt(i) + Ascii("e")
  {
    assert Ascii("i") == [CH_I] && Ascii("e") == [CH_E];
  }

  // ---------- the messages of the metadata download ----------

  function Numbers2(kind: int, no: int): seq<Entry> {
    [Entry(KEY_TYPE, VInt(kind)), Entry(KEY_PIECE, VInt(no))]
  }

  function MetaText(kind: int, no: int): bytes {
    Ascii("d8:msg_typei") + FormatInt(kind) + Ascii("e5:piecei") + FormatInt(no) + Ascii("ee")
  }

  lemma MetaKeys()
    ensures Sized(KEY_TYPE) == Ascii("8:msg_type") && Sized(KEY_PIECE) == Ascii("5:piece")
    ensures Ascii("d") + Ascii("8:msg_type") + Ascii("i") == Ascii("d8:msg_typei")
    ensures Ascii("e") + Ascii("5:piece") + Ascii("i") == Ascii("e5:piecei") && Ascii("e") + Ascii("e") == Ascii("ee")
  {
    ShortSized(KEY_TYPE, "8:msg_type");
    ShortSized(KEY_PIECE, "5:piece");
  }

  lemma MetaWritten(kind: int, no: int)
    ensures Enc(VDict(Numbers2(kind, no))) == MetaText(kind, no)
  {
    hide Enc, Sized, Ascii, FormatInt;
    TwoEntries(Entry(KEY_TYPE, VInt(kind)), Entry(KEY_PIECE, VInt(no)));
    NumberIs(kind);
    NumberIs(no);
    MetaKeys();
    MetaConcat(FormatInt(kind), FormatInt(no));
  }

  lemma MetaConcat(kind: bytes, no: bytes)
    ensures Ascii("d") + (Ascii("8:msg_type") + (Ascii("i") + kind + Ascii("e")))
            + (Ascii("5:piece") + (Ascii("i") + no + Ascii("e"))) + Ascii("e") ==
            Ascii("d8:msg_typei") + kind + Ascii("e5:piecei") + no + Ascii("ee")
  {
    hide Ascii;
    MetaKeys();
  }

  /** What is asked for a piece. */
  lemma RequestText(i: nat)
    ensures Enc(VDict(Request(i))) == Ascii("d8:msg_typei0e5:piecei") + FormatInt(i) + Ascii("ee")
  {
    hide Enc, Ascii;
    MetaWritten(0, i);
    ZeroText();
    assert Request(i) == Numbers2(0, i);
  }

  lemma ZeroText()
    ensures FormatInt(0) == [48] && Ascii("d8:msg_typei") + [48] + Ascii("e5:piecei") == Ascii("d8:msg_typei0e5:piecei")
  {
    assert Digits(0) == [48];
  }

  lemma Numbers2Typed(kind: int, no: int)
    requires -HALF64 <= kind < HALF64 && -HALF64 <= no < HALF64
    ensures var es := Numbers2(kind, no);
            && Ordered(es) && HasTypeEntries(TInt(W64), es) && EncodableEntries(es) && NilFreeEntries(es)
            && NumberAt(es, KEY_TYPE) == kind && NumberAt(es, KEY_PIECE) == no
  {
    var es := Numbers2(kind, no);
    assert Half(W64) == HALF64;
    assert es[1..] == [es[1]] && es[1..][0] == es[1] && es[1..][1..] == [];
    assert HasType(TInt(W64), VInt(kind)) && HasType(TInt(W64), VInt(no));
    assert Encodable(VInt(kind)) && Encodable(VInt(no));
    assert EncodableEntry(es[0]) && EncodableEntry(es[1]) && NilFreeEntry(es[0]) && NilFreeEntry(es[1]);
    assert HasTypeEntries(TInt(W64), es[1..]) && EncodableEntries(es[1..]) && NilFreeEntries(es[1..]);
    assert |KEY_TYPE| != |KEY_PIECE|;
    assert Lookup(es[1..], KEY_PIECE) == Some(VInt(no));
    LessByFirst(KEY_TYPE, KEY_PIECE);
  }

  /**
   * What a message of the download means: 1 brings the piece of its number, 2 refuses one, and everything else
   * is ignored.
   */
  lemma MetaMeaning(kind: int, no: int, payload: bytes)
    requires -HALF64 <= kind < HALF64 && -HALF64 <= no < HALF64
    ensures Understand(MetaText(kind, no) + payload) ==
            if kind == 1 then Piece(no, payload) else if kind == 2 then Rejected else Ignored
  {
    hide Enc, Understand, MetaText, HeaderText, HeaderEntries, NumberAt, Numbers2;
    var es := Numbers2(kind, no);
    Numbers2Typed(kind, no);
    HeaderWritten(es);
    MetaWritten(kind, no);
    PayloadSplit(Enc(VDict(es)), payload);
  }

  /** A header without a type or a piece number counts as a request. */
  lemma EmptyHeader(payload: bytes)
    ensures Understand(Ascii("de") + payload) == Ignored
  {
    hide Enc, Understand, HeaderText, HeaderEntries;
    MapText([]);
    assert Ascii("d") + [] + Ascii("e") == Ascii("de");
    NothingTyped();
    HeaderWritten([]);
    PayloadSplit(Enc(VDict([])), payload);
  }

  lemma NothingTyped()
    ensures Ordered([]) && HasTypeEntries(TInt(W64), []) && EncodableEntries([]) && NilFreeEntries([])
    ensures NumberAt([], KEY_TYPE) == 0
  {
  }

  /** A piece has 16 KiB, and a last one the rest. */
  lemma PieceSize(n: nat)
    ensures NumPieces(16384 * n) == n && NumPieces(16384 * n + 1) == n + 1
    ensures n > 0 ==> Start(n - 1) == 16384 * (n - 1) && Stop(16384 * n + 1, n - 1) == 16384 * n
  {
  }

  // ---------- handshakes and frames ----------

  /** An extension message with short content. */
  lemma ShortExtFrame(id: byte, content: bytes)
    requires |content| < 254
    ensures ExtFrame(id, content) == [0, 0, 0, |content| + 2, 20, id] + content
  {
    ShortFrame(20, [id] + content);
    assert [0, 0, 0, |content| + 2, 20] + ([id] + content) == [0, 0, 0, |content| + 2, 20, id] + content;
  }

  /** The handshake of a peer that asks for metadata. */
  lemma GreetingText()
    ensures Enc(VDict(Handshake([UT]))) == Ascii("d1:md11:ut_metadatai1eee")
  {
    hide Enc, Sized;
    var number := Entry(KEY_UT, VInt(1));
    HandshakeOfOne(UT);
    TwoEntries(Entry(KEY_M, VDict([number])), number);
    TwoEntries(number, number);
    NumberIs(1);
    GreetingKeys();
    GreetingConcat();
  }

  /** The handshake of a peer that offers metadata. */
  lemma OfferText(size: int)
    ensures Enc(VDict(Handshake([Ext(KEY_UT, [Entry(KEY_SIZE, VInt(size))])]))) ==
            Ascii("d1:md11:ut_metadatai1ee13:metadata_sizei") + FormatInt(size) + Ascii("ee")
  {
    hide Enc, Sized, FormatInt;
    var e := Ext(KEY_UT, [Entry(KEY_SIZE, VInt(size))]);
    var number := Entry(KEY_UT, VInt(1));
    HandshakeWithEntry(e);
    TwoEntries(Entry(KEY_M, VDict([number])), Entry(KEY_SIZE, VInt(size)));
    TwoEntries(number, number);
    NumberIs(1);
    NumberIs(size);
    GreetingKeys();
    OfferConcat(FormatInt(size));
  }

  lemma HandshakeWithEntry(e: Ext)
    requires |e.puts| == 1 && e.puts[0].key == KEY_SIZE
    ensures Handshake([e]) == [Entry(KEY_M, VDict([Entry(e.key, VInt(1))])), e.puts[0]]
  {
    var exts := [e];
    assert exts[..|exts| - 1] == [] && exts[|exts| - 1] == e;
    assert Numbering([]) == [] && AllPuts([]) == [];
    assert Numbering(exts) == Put([], e.key, VInt(1));
    assert e.puts[1..] == [];
    assert PutAll(Put([], KEY_SIZE, e.puts[0].val), []) == Put([], KEY_SIZE, e.puts[0].val);
    assert AllPuts(exts) == PutAll([], e.puts) == [e.puts[0]];
    assert KEY_M[0] == KEY_SIZE[0] && KEY_M[1..] == [] && KEY_SIZE[1..] != [];
    assert Less(KEY_M, KEY_SIZE);
  }

  lemma OfferConcat(size: bytes)
    ensures Ascii("d") + (Ascii("1:m") + (Ascii("d") + (Ascii("11:ut_metadata") + (Ascii("i") + FormatInt(1)
              + Ascii("e"))) + Ascii("e"))) + (Ascii("13:metadata_size") + (Ascii("i") + size + Ascii("e")))
            + Ascii("e") ==
            Ascii("d1:md11:ut_metadatai1ee13:metadata_sizei") + size + Ascii("ee")
  {
    hide Ascii, FormatInt;
    GreetingPieces();
    OfferPieces();
    var d, m, k, n, e := Ascii("d"), Ascii("1:m"), Ascii("11:ut_metadata"), Ascii("i1e"), Ascii("e");
    var z, i := Ascii("13:metadata_size"), Ascii("i");
    assert d + (m + (d + (k + n) + e)) + (z + (i + size + e)) + e == (d + m + d + k + (n + e) + z + i) + size + (e + e);
  }

  lemma OfferPieces()
    ensures Ascii("i1e") + Ascii("e") == Ascii("i1ee") && Ascii("e") + Ascii("e") == Ascii("ee")
    ensures Ascii("d1:md") + Ascii("11:ut_metadata") + Ascii("i1ee") + Ascii("13:metadata_size") + Ascii("i") ==
            Ascii("d1:md11:ut_metadatai1ee13:metadata_sizei")
  {
    hide Ascii;
    AsciiEnds();
    OfferBegins();
    OfferGoesOn();
  }

  lemma OfferBegins()
    ensures Ascii("d1:md") + Ascii("11:ut_metadata") + Ascii("i1ee") == Ascii("d1:md11:ut_metadatai1ee")
  {
    hide Ascii;
    Spliced("d1:md", "11:ut_metadata", "i1ee", "d1:md11:ut_metadatai1ee");
  }

  lemma OfferGoesOn()
    ensures Ascii("d1:md11:ut_metadatai1ee") + Ascii("13:metadata_size") + Ascii("i") ==
            Ascii("d1:md11:ut_metadatai1ee13:metadata_sizei")
  {
    hide Ascii;
    Spliced("d1:md11:ut_metadatai1ee", "13:metadata_size", "i", "d1:md11:ut_metadatai1ee13:metadata_sizei");
  }

  lemma AsciiEnds()
    ensures Ascii("i1e") + Ascii("e") == Ascii("i1ee") && Ascii("e") + Ascii("e") == Ascii("ee")
  {
  }

  lemma HandshakeOfOne(e: Ext)
    requires e.puts == []
    ensures Handshake([e]) == [Entry(KEY_M, VDict([Entry(e.key, VInt(1))]))]
  {
    var exts := [e];
    assert exts[..|exts| - 1] == [] && exts[|exts| - 1] == e;
    assert Numbering([]) == [] && AllPuts([]) == [];
    assert Numbering(exts) == Put([], e.key, VInt(1));
    assert AllPuts(exts) == PutAll([], []);
  }

  lemma GreetingKeys()
    ensures Sized(KEY_M) == Ascii("1:m") && Sized(KEY_UT) == Ascii("11:ut_metadata")
    ensures Sized(KEY_SIZE) == Ascii("13:metadata_size")
  {
    hide Ascii, Sized;
    ShortSized(KEY_M, "1:m");
    UtKey();
    SizeKey();
  }

  lemma UtKey()
    ensures Sized(KEY_UT) == Ascii("11:ut_metadata")
  {
    assert Digits(11) == [49, 49] && Ascii(":") == [58];
  }

  lemma SizeKey()
    ensures Sized(KEY_SIZE) == Ascii("13:metadata_size")
  {
    assert Digits(13) == [49, 51] && Ascii(":") == [58];
  }

  lemma GreetingConcat()
    ensures Ascii("d") + (Ascii("1:m") + (Ascii("d") + (Ascii("11:ut_metadata") + (Ascii("i") + FormatInt(1)
              + Ascii("e"))) + Ascii("e"))) + Ascii("e") == Ascii("d1:md11:ut_metadatai1eee")
  {
    hide Ascii, FormatInt;
    GreetingPieces();
    FiveTexts(Ascii("d"), Ascii("1:m"), Ascii("11:ut_metadata"), Ascii("i1e"), Ascii("e"));
  }

  lemma GreetingPieces()
    ensures Ascii("i") + FormatInt(1) + Ascii("e") == Ascii("i1e")
    ensures Ascii("d") + Ascii("1:m") + Ascii("d") == Ascii("d1:md")
    ensures Ascii("i1e") + Ascii("e") + Ascii("e") == Ascii("i1eee")
    ensures Ascii("d1:md") + Ascii("11:ut_metadata") + Ascii("i1eee") == Ascii("d1:md11:ut_metadatai1eee")
  {
    assert Digits(1) == [49];
    Spliced("d1:md", "11:ut_metadata", "i1eee", "d1:md11:ut_metadatai1eee");
  }

  lemma Spliced(a: string, b: string, c: string, whole: string)
    requires whole == a + b + c
    ensures Ascii(a) + Ascii(b) + Ascii(c) == Ascii(whole)
  {
  }

  lemma FiveTexts(d: bytes, m: bytes, key: bytes, number: bytes, e: bytes)
    ensures d + (m + (d + (key + number) + e)) + e == d + m + d + key + (number + e + e)
  {
  }

  // ---------- values ----------

  /** The text of a list, its nil elements dropped. */
  function ItemsText(vs: seq<Value>): bytes {
    if vs == [] then [] else Enc(vs[0]) + ItemsText(vs[1..])
  }

  lemma {:induction false} ListText(vs: seq<Value>)
    ensures Enc(VList(vs)) == Ascii("l") + ItemsText(vs) + Ascii("e")
  {
    ItemsWritten(vs);
    assert Ascii("l") == [CH_L];
    Associative([CH_L], ItemsText(vs), Ascii("e"));
  }

  lemma {:induction false} ItemsWritten(vs: seq<Value>)
    ensures EncItems(vs) == ItemsText(vs) + Ascii("e")
  {
    hide Enc;
    assert Ascii("e") == [CH_E];
    if vs == [] {
    } else {
      ItemsWritten(vs[1..]);
      Associative(Enc(vs[0]), ItemsText(vs[1..]), Ascii("e"));
    }
  }

  /** Numbers and booleans. */
  lemma NumberTexts()
    ensures Enc(VInt(10)) == Ascii("i10e") && Enc(VInt(-10)) == Ascii("i-10e") && Enc(VInt(0)) == Ascii("i0e")
    ensures Enc(VBool(true)) == Ascii("i1e") && Enc(VBool(false)) == Ascii("i0e")
  {
    assert Digits(10) == [49, 48] && Digits(0) == [48] && Digits(1) == [49];
  }

  /** Strings and nil. */
  lemma StringTexts()
    ensures Enc(VStr(Ascii("foo"))) == Ascii("3:foo") && Enc(VStr([])) == Ascii("0:") && Enc(VNil) == []
  {
    assert Digits(0) == [48] && Digits(3) == [51];
  }

  /** A list of a string and a number, with a nil between them. */
  lemma ListExample()
    ensures Enc(VList([VStr(Ascii("foo")), VNil, VInt(20)])) == Ascii("l3:fooi20ee")
  {
    hide Enc;
    var vs := [VStr(Ascii("foo")), VNil, VInt(20)];
    ListText(vs);
    StringTexts();
    NumberIs(20);
    assert Digits(20) == [50, 48];
    assert vs[1..] == [VNil, VInt(20)] && vs[1..][1..] == [VInt(20)] && vs[1..][1..][1..] == [];
    assert ItemsText(vs[1..][1..]) == Enc(VInt(20)) + [];
    assert ItemsText(vs[1..]) == Enc(VNil) + ItemsText(vs[1..][1..]);
    assert ItemsText(vs) == Enc(VStr(Ascii("foo"))) + ItemsText(vs[1..]);
  }

  /** A map: keys in order, nil values dropped. */
  lemma MapExample(n: int)
    ensures Enc(VDict([Entry(Ascii("a"), VInt(n)), Entry(Ascii("b"), VNil)])) ==
            Ascii("d1:ai") + FormatInt(n) + Ascii("ee")
  {
    hide Enc, FormatInt;
    var es := [Entry(Ascii("a"), VInt(n)), Entry(Ascii("b"), VNil)];
    MapText(es);
    NumberIs(n);
    ShortSized(Ascii("a"), "1:a");
    assert es[1..] == [es[1]] && es[1..][1..] == [];
    assert EntriesText(es[1..]) == [] + EntriesText([]);
    assert EntriesText(es) == Sized(es[0].key) + Enc(VInt(n)) + EntriesText(es[1..]);
    assert Ascii("d") + Ascii("1:a") + Ascii("i") == Ascii("d1:ai");
    assert Ascii("e") + Ascii("e") == Ascii("ee");
  }

  /**
   * A struct with a string A, a number B and a pointer C to a number, all of which may be omitted: each is
   * written exactly when it is not the empty string, not 0, and not nil; a pointer to 0 is.
   */
  lemma OmitExample(a: bytes, b: int, c: Value)
    requires c.VNil? || c.VInt?
    ensures var fs := [FieldVal(Field(Ascii("A"), true, TStr), VStr(a)),
                       FieldVal(Field(Ascii("B"), true, TInt(W64)), VInt(b)),
                       FieldVal(Field(Ascii("C"), true, TPtr(TInt(W64))), c)];
            Enc(VStruct(fs)) ==
            Ascii("d") + (if a == [] then [] else Ascii("1:A") + Sized(a))
            + (if b == 0 then [] else Ascii("1:B") + Enc(VInt(b)))
            + (if c == VNil then [] else Ascii("1:C") + Enc(c)) + Ascii("e")
  {
    hide Enc, PartsText;
    var fs := [FieldVal(Field(Ascii("A"), true, TStr), VStr(a)),
               FieldVal(Field(Ascii("B"), true, TInt(W64)), VInt(b)),
               FieldVal(Field(Ascii("C"), true, TPtr(TInt(W64))), c)];
    LettersIncrease(fs);
    ArrangedText(fs, fs);
    PartsFirst(fs);
    PartsFirst(fs[1..]);
    PartsFirst(fs[2..]);
    assert fs[1..][1..] == fs[2..] && fs[2..][1..] == [];
    ShortSized(Ascii("A"), "1:A");
    ShortSized(Ascii("B"), "1:B");
    ShortSized(Ascii("C"), "1:C");
    SizedIs(a);
    ThreeTexts(PartText(fs[0]), PartText(fs[1]), PartText(fs[2]));
  }

  lemma ThreeTexts(a: bytes, b: bytes, c: bytes)
    ensures Ascii("d") + (a + (b + (c + []))) + Ascii("e") == Ascii("d") + a + b + c + Ascii("e")
  {
    hide Ascii;
  }

  lemma LettersIncrease(fs: seq<FieldVal>)
    requires |fs| == 3
    requires fs[0].field.name == Ascii("A") && fs[1].field.name == Ascii("B") && fs[2].field.name == Ascii("C")
    ensures NamesIncrease(fs) && NamesDistinct(fs)
  {
    assert Ascii("A") == [65] && Ascii("B") == [66] && Ascii("C") == [67];
    LessByFirst([65], [66]);
    LessByFirst([65], [67]);
    LessByFirst([66], [67]);
    DistinctNames(fs);
  }
}
