/** Fetching metadata from a peer in pieces (bt/fetchmeta.go, BEP 9). */
module FetchMeta {
  import opened Bytes
  import opened Numerals
  import opened Values
  import opened Decode
  import opened Encode
  import opened RoundTrip
  import opened Canonical
  import opened Texts
  import opened EncoderObject
  import opened DecoderObject
  import opened PeerWire
  import opened Extension
  import opened Routing

  const PIECE: int := 16 * 1024
  const REQUEST: int := 0
  const DATA: int := 1
  const REJECT: int := 2

  /** "msg_type", "piece", "metadata_size" */
  const KEY_TYPE: bytes := [109, 115, 103, 95, 116, 121, 112, 101]
  const KEY_PIECE: bytes := [112, 105, 101, 99, 101]
  const KEY_SIZE: bytes := [109, 101, 116, 97, 100, 97, 116, 97, 95, 115, 105, 122, 101]

  // ---------- pieces ----------

  function NumPieces(size: nat): nat {
    (size + PIECE - 1) / PIECE
  }

  /** getPiecesNum; Go divides toward zero. */
  method GetPiecesNum(size: int) returns (n: int)
    ensures size >= 0 ==> n == NumPieces(size)
    ensures size < 0 ==> n == -(-size / PIECE) + if -size % PIECE != 0 then 1 else 0
  {
    n := if size >= 0 then size / PIECE else -(-size / PIECE);
    var rem := if size >= 0 then size % PIECE else -(-size % PIECE);
    if rem != 0 {
      n := n + 1;
    }
  }

  /** Where piece `i` starts and ends. */
  function Start(i: nat): nat {
    i * PIECE
  }

  function Stop(size: nat, i: nat): nat {
    if (i + 1) * PIECE <= size then (i + 1) * PIECE else size
  }

  /**
   * The pieces tile the metadata: each is non-empty, each starts where the one before stops, the last stops
   * at the end.
   */
  lemma Tiling(size: nat, i: nat)
    requires i < NumPieces(size)
    ensures Start(i) < Stop(size, i) <= size && Stop(size, i) - Start(i) <= PIECE
    ensures i + 1 < NumPieces(size) ==> Stop(size, i) == Start(i + 1)
    ensures i + 1 == NumPieces(size) ==> Stop(size, i) == size
  {
  }

  function Slice(meta: bytes, i: nat): bytes
    requires i < NumPieces(|meta|)
  {
    Tiling(|meta|, i);
    meta[Start(i)..Stop(|meta|, i)]
  }

  function Join(pieces: seq<bytes>): bytes {
    if pieces == [] then [] else Join(pieces[..|pieces| - 1]) + pieces[|pieces| - 1]
  }

  lemma {:induction false} JoinSlices(meta: bytes, pieces: seq<bytes>)
    requires |pieces| <= NumPieces(|meta|) && forall i | 0 <= i < |pieces| :: pieces[i] == Slice(meta, i)
    ensures Join(pieces) == meta[..if |pieces| == NumPieces(|meta|) then |meta| else Start(|pieces|)]
  {
    if pieces == [] {
    } else {
      var k := |pieces| - 1;
      JoinSlices(meta, pieces[..k]);
      Tiling(|meta|, k);
      assert meta[..Stop(|meta|, k)] == meta[..Start(k)] + meta[Start(k)..Stop(|meta|, k)];
    }
  }

  function NoPieces(n: nat): (r: seq<bytes>)
    ensures |r| == n && forall i | 0 <= i < n :: r[i] == []
  {
    seq(n, _ => [])
  }

  // ---------- messages ----------

  function Request(i: nat): seq<Entry> {
    [Entry(KEY_TYPE, VInt(REQUEST)), Entry(KEY_PIECE, VInt(i))]
  }

  lemma RequestRegular(i: nat)
    ensures Regular(VDict(Request(i))) && Put([Entry(KEY_TYPE, VInt(REQUEST))], KEY_PIECE, VInt(i)) == Request(i)
  {
    var es := Request(i);
    assert Less(KEY_TYPE, KEY_PIECE) && !Less(KEY_PIECE, KEY_TYPE);
    assert es[1..] == [es[1]] && es[1..][1..] == [];
    assert RegularEntry(es[0]) && RegularEntry(es[1]);
  }

  /** The frames that ask for the first `n` pieces, in order. */
  function Requests(id: byte, n: nat): bytes {
    if n == 0 then [] else Requests(id, n - 1) + ExtFrame(id, Enc(VDict(Request(n - 1))))
  }

  /** Indexing a map[string]int: 0 where there is no entry. */
  function NumberAt(es: seq<Entry>, k: bytes): int
    requires HasTypeEntries(TInt(W64), es)
  {
    LookupTyped(TInt(W64), es, k);
    match Lookup(es, k)
    case None => 0
    case Some(v) => v.i
  }

  /** What a message means to HandleMessage. */
  datatype Incoming = Malformed | Ignored | Rejected | Piece(no: int, data: bytes)

  function Classify(es: seq<Entry>, payload: bytes): Incoming
    requires HasTypeEntries(TInt(W64), es)
  {
    var kind := NumberAt(es, KEY_TYPE);
    if kind == REJECT then Rejected
    else if kind == DATA then Piece(NumberAt(es, KEY_PIECE), payload)
    else Ignored
  }

  function Understand(content: bytes): Incoming {
    match DecodeValue(TMap(TInt(W64)), VDict([]), content)
    case Fail => Malformed
    case Done(o, n) => Classify(o.val.es, content[n..])
  }

  /** A text that is one dictionary of integers, in whatever way it is written. */
  predicate HeaderText(h: bytes) {
    var d := DecodeValue(TMap(TInt(W64)), VDict([]), h);
    d.Done? && d.n == |h|
  }

  function HeaderEntries(h: bytes): (es: seq<Entry>)
    requires HeaderText(h)
    ensures HasTypeEntries(TInt(W64), es)
  {
    DecodeValue(TMap(TInt(W64)), VDict([]), h).value.val.es
  }

  /**
   * The split of a message into dictionary and payload is exact, whatever accepted text the header is,
   * whatever it holds beside its integers, and whatever the payload looks like.
   */
  lemma PayloadSplit(h: bytes, payload: bytes)
    requires HeaderText(h)
    ensures Understand(h + payload) == Classify(HeaderEntries(h), payload)
  {
    hide DecodeValue, Classify;
    DropFirst(h, payload);
    assert h[..|h|] == h;
    NoEntries();
    DecodeLocal(TMap(TInt(W64)), VDict([]), h, h + payload);
  }

  /** What the encoder writes for a map of integers is such a header. */
  lemma HeaderWritten(es: seq<Entry>)
    requires Ordered(es) && HasTypeEntries(TInt(W64), es) && EncodableEntries(es) && NilFreeEntries(es)
    ensures HeaderText(Enc(VDict(es))) && HeaderEntries(Enc(VDict(es))) == es
  {
    hide DecodeValue;
    DecodeEncNilFree(TMap(TInt(W64)), VDict(es), []);
    assert Enc(VDict(es)) + [] == Enc(VDict(es));
  }

  lemma NoEntries()
    ensures HasType(TMap(TInt(W64)), VDict([]))
  {
  }

  /** A data message whose piece number has a place. */
  predicate InRange(n: nat, content: bytes) {
    var c := Understand(content);
    c.Piece? ==> 0 <= c.no < n
  }

  function Store(pieces: seq<bytes>, content: bytes): (r: seq<bytes>)
    requires InRange(|pieces|, content)
    ensures |r| == |pieces|
  {
    var c := Understand(content);
    if c.Piece? then pieces[c.no := c.data] else pieces
  }

  // ---------- the extension ----------

  class FetchMetaExt {
    const infoHash: bytes
    var pieces: seq<bytes>
    var support: bool

    constructor (infoHash: bytes)
      ensures this.infoHash == infoHash && pieces == [] && !support
    {
      this.infoHash := infoHash;
      pieces, support := [], false;
    }

    method Unsupport()
      modifies this
      ensures !support && pieces == old(pieces)
    {
      support := false;
    }

    /**
     * AfterHandshake: without a positive metadata_size it fails; otherwise it asks for every piece once, in
     * order, and forgets what it had.
     */
    method AfterHandshake(hs: seq<Entry>, id: byte, w: Writer) returns (ok: bool)
      requires HasTypeEntries(TRaw, hs)
      modifies this, w
      ensures support
      ensures var size := Get(hs, KEY_SIZE, TInt(W64), VInt(0));
              ok == (size.Some? && size.value.i > 0)
              && (ok ==> pieces == NoPieces(NumPieces(size.value.i))
                         && w.out == old(w.out) + Requests(id, NumPieces(size.value.i)))
              && (!ok ==> pieces == old(pieces) && w.out == old(w.out))
    {
      hide Enc, Requests, Regular, Get, HasTypeEntries, ExtFrame;
      support := true;
      var size := Get(hs, KEY_SIZE, TInt(W64), VInt(0));
      if size.None? {
        return false;
      }
      GetTyped(hs, KEY_SIZE, TInt(W64), VInt(0));
      if size.value.i <= 0 {
        return false;
      }
      var n := GetPiecesNum(size.value.i);
      pieces := NoPieces(n);
      RequestsUnfold(id, 0, w.out);
      for i := 0 to n
        invariant w.out == old(w.out) + Requests(id, i) && pieces == NoPieces(n) && support
      {
        RequestRegular(i);
        RegularMapped(VDict(Request(i)));
        var b := Marshal(VDict(Request(i)));
        RequestsUnfold(id, i, old(w.out));
        WriteExtensionMessage(w, id, b);
      }
      ok := true;
    }

    /** HandleMessage; a data message must name one of the pieces. */
    method HandleMessage(content: bytes) returns (ok: bool)
      requires InRange(|pieces|, content)
      modifies this`pieces
      ensures pieces == Store(old(pieces), content)
      ensures ok <==> !Understand(content).Malformed? && !Understand(content).Rejected?
    {
      hide DecodeValue, NumberAt;
      var dec := new Decoder(content);
      var msg := dec.Decode(TMap(TInt(W64)), VDict([]));
      if msg.None? {
        return false;
      }
      var kind := NumberAt(msg.value.es, KEY_TYPE);
      if kind == REJECT {
        return false;
      }
      if kind == DATA {
        var no := NumberAt(msg.value.es, KEY_PIECE);
        var parsed := dec.BytesParsed();
        pieces := pieces[no := content[parsed..]];
      }
      ok := true;
    }

    /** CheckDone */
    method CheckDone() returns (done: bool)
      ensures done <==> AllFilled(pieces)
    {
      for i := 0 to |pieces|
        invariant forall j | 0 <= j < i :: pieces[j] != []
      {
        if |pieces[i]| == 0 {
          return false;
        }
      }
      done := true;
    }

    /** FetchRawMeta, with the hash function as a parameter. */
    method FetchRawMeta(sha1: bytes -> bytes) returns (meta: Option<bytes>)
      ensures meta == if sha1(Join(pieces)) == infoHash then Some(Join(pieces)) else None
    {
      var metadata := [];
      assert pieces[..0] == [];
      for i := 0 to |pieces|
        invariant metadata == Join(pieces[..i])
      {
        assert pieces[..i + 1][..i] == pieces[..i];
        metadata := metadata + pieces[i];
      }
      assert pieces[..|pieces|] == pieces;
      meta := if sha1(metadata) == infoHash then Some(metadata) else None;
    }
  }

  lemma GetTyped(hs: seq<Entry>, k: bytes, t: Type, cur: Value)
    requires HasTypeEntries(TRaw, hs) && HasType(t, cur)
    ensures Get(hs, k, t, cur).Some? ==> HasType(t, Get(hs, k, t, cur).value)
  {
  }

  lemma RequestsUnfold(id: byte, i: nat, out: bytes)
    ensures out + Requests(id, 0) == out
    ensures out + Requests(id, i + 1) == out + Requests(id, i) + ExtFrame(id, Enc(VDict(Request(i))))
  {
    hide Enc, ExtFrame;
  }

  // ---------- what the peer is asked for ----------

  function RequestMessages(id: byte, n: nat): (r: seq<Message>)
    ensures |r| == n
    ensures forall i | 0 <= i < n :: r[i] == Message(EXT_ID, [id] + Enc(VDict(Request(i))))
  {
    seq(n, i requires 0 <= i < n => Message(EXT_ID, [id] + Enc(VDict(Request(i)))))
  }

  /** The stream of requests is the stream of these messages: piece 0 to the last, once each. */
  lemma {:induction false} RequestsAreFrames(id: byte, n: nat)
    ensures Requests(id, n) == Frames(RequestMessages(id, n))
  {
    hide Enc, Frame;
    if n == 0 {
    } else {
      RequestsAreFrames(id, n - 1);
      var ms := RequestMessages(id, n);
      assert ms == RequestMessages(id, n - 1) + [ms[n - 1]];
      FramesLast(RequestMessages(id, n - 1), ms[n - 1]);
    }
  }

  /** Each is understood by the peer as a request for its piece. */
  lemma RequestUnderstood(i: nat, tail: bytes)
    requires i < HALF64
    ensures var r := DecodeValue(TMap(TInt(W64)), VDict([]), Enc(VDict(Request(i))) + tail);
            r.Done? && r.n == |Enc(VDict(Request(i)))| && r.value.val == VDict(Request(i))
    ensures HasTypeEntries(TInt(W64), Request(i))
    ensures NumberAt(Request(i), KEY_TYPE) == REQUEST && NumberAt(Request(i), KEY_PIECE) == i
  {
    hide Enc, DecodeValue, GoodEntry, GoodEntries, Encodable, NilFree, EncodableEntries, NilFreeEntries;
    var es := Request(i);
    RequestRegular(i);
    NumberGood(es[0]);
    NumberGood(es[1]);
    GoodNothing();
    GoodCons(es[1], []);
    GoodCons(es[0], [es[1]]);
    assert [es[1]] + [] == [es[1]] && [es[0]] + [es[1]] == es;
    GoodAll(es);
    RequestNumbers(i);
    EntriesNilFree(es);
    DecodeEncNilFree(TMap(TInt(W64)), VDict(es), tail);
  }

  lemma EntriesNilFree(es: seq<Entry>)
    requires EncodableEntries(es) && NilFreeEntries(es)
    ensures Encodable(VDict(es)) && NilFree(VDict(es))
  {
  }

  lemma RequestNumbers(i: nat)
    requires i < HALF64
    ensures HasTypeEntries(TInt(W64), Request(i))
    ensures NumberAt(Request(i), KEY_TYPE) == REQUEST && NumberAt(Request(i), KEY_PIECE) == i
  {
    var es := Request(i);
    assert es[1..] == [es[1]] && es[1..][0] == es[1] && es[1..][1..] == [];
    assert Half(W64) == HALF64;
    assert HasType(TInt(W64), VInt(REQUEST)) && HasType(TInt(W64), VInt(i));
    assert HasTypeEntries(TInt(W64), es[1..]);
    assert KEY_TYPE != KEY_PIECE by {
      assert |KEY_TYPE| != |KEY_PIECE|;
    }
    assert Lookup(es[1..], KEY_PIECE) == Some(VInt(i));
  }

  // ---------- reassembly ----------

  predicate AllInRange(n: nat, contents: seq<bytes>) {
    forall c | c in contents :: InRange(n, c)
  }

  /** The pieces after handling messages one after the other. */
  function StoreAll(pieces: seq<bytes>, contents: seq<bytes>): (r: seq<bytes>)
    requires AllInRange(|pieces|, contents)
    ensures |r| == |pieces|
  {
    if contents == [] then pieces
    else Store(StoreAll(pieces, contents[..|contents| - 1]), contents[|contents| - 1])
  }

  /** Messages of a peer that has the metadata: pieces of it, and others that are ignored. */
  predicate Honest(meta: bytes, content: bytes) {
    var m := Understand(content);
    m.Ignored? || (m.Piece? && 0 <= m.no < NumPieces(|meta|) && m.data == Slice(meta, m.no))
  }

  predicate AllHonest(meta: bytes, contents: seq<bytes>) {
    forall c | c in contents :: Honest(meta, c)
  }

  predicate Brings(content: bytes, i: nat) {
    Understand(content).Piece? && Understand(content).no == i
  }

  predicate Arrived(contents: seq<bytes>, i: nat) {
    exists c | c in contents :: Brings(c, i)
  }

  lemma ArrivedLast(contents: seq<bytes>, i: nat)
    requires contents != []
    ensures var k := |contents| - 1; Arrived(contents, i) <==> Arrived(contents[..k], i) || Brings(contents[k], i)
  {
    hide Brings;
    var k := |contents| - 1;
    assert contents == contents[..k] + [contents[k]];
  }

  /** In any order, with any repetitions and any ignored messages: a place holds its piece once it has arrived. */
  lemma {:induction false} StoredPiece(meta: bytes, contents: seq<bytes>, i: nat)
    requires AllHonest(meta, contents) && AllInRange(NumPieces(|meta|), contents) && i < NumPieces(|meta|)
    ensures StoreAll(NoPieces(NumPieces(|meta|)), contents)[i] == if Arrived(contents, i) then Slice(meta, i) else []
  {
    hide Understand, NumPieces, Slice;
    if contents == [] {
      assert !Arrived([], i);
    } else {
      var k := |contents| - 1;
      assert contents[k] in contents;
      StoredPiece(meta, contents[..k], i);
      ArrivedLast(contents, i);
    }
  }

  predicate AllFilled(pieces: seq<bytes>) {
    forall i | 0 <= i < |pieces| :: pieces[i] != []
  }

  predicate AllArrived(n: nat, contents: seq<bytes>) {
    forall i | 0 <= i < n :: Arrived(contents, i)
  }

  /** All places are filled exactly when all pieces have arrived, and then they join to the metadata. */
  lemma Reassembly(meta: bytes, contents: seq<bytes>)
    requires AllHonest(meta, contents) && AllInRange(NumPieces(|meta|), contents)
    ensures var r := StoreAll(NoPieces(NumPieces(|meta|)), contents);
            && (AllFilled(r) <==> AllArrived(NumPieces(|meta|), contents))
            && (AllFilled(r) ==> Join(r) == meta)
  {
    hide AllHonest, AllInRange, StoreAll, Arrived, Join, NumPieces;
    var n := NumPieces(|meta|);
    var r := StoreAll(NoPieces(n), contents);
    forall i | 0 <= i < n
      ensures r[i] != [] <==> Arrived(contents, i)
      ensures r[i] != [] ==> r[i] == Slice(meta, i)
    {
      StoredPiece(meta, contents, i);
      Tiling(|meta|, i);
    }
    if AllFilled(r) {
      JoinAll(meta, r);
    }
  }

  lemma JoinAll(meta: bytes, pieces: seq<bytes>)
    requires |pieces| == NumPieces(|meta|) && forall i | 0 <= i < |pieces| :: pieces[i] == Slice(meta, i)
    ensures Join(pieces) == meta
  {
    JoinSlices(meta, pieces);
    assert meta[..|meta|] == meta;
  }

  lemma Unfinished(meta: bytes)
    requires meta != []
    ensures 0 < NumPieces(|meta|) && !Arrived([], 0)
  {
  }

  lemma ArrivedStays(contents: seq<bytes>, k: nat)
    requires k <= |contents|
    ensures forall i: nat | Arrived(contents[..k], i) :: Arrived(contents, i)
  {
    hide Brings;
    forall i: nat | Arrived(contents[..k], i) ensures Arrived(contents, i) {
      var c :| c in contents[..k] && Brings(c, i);
      assert c in contents;
    }
  }
}
