/** FetchMetadata (bt/fetchmeta.go) over the whole stream: framing, the extension protocol, and the pieces. */
module Download {
  import opened Bytes
  import opened Numerals
  import opened Values
  import opened Encode
  import opened RoundTrip
  import opened Lazy
  import opened Texts
  import opened PeerWire
  import opened Extension
  import opened Routing
  import opened FetchMeta

  const LIMIT: nat := 99999
  /** "ut_metadata" */
  const KEY_UT: bytes := [117, 116, 95, 109, 101, 116, 97, 100, 97, 116, 97]

  /** The only extension that is registered; it puts nothing into the handshake. */
  const UT: Ext := Ext(KEY_UT, [])

  /** `Crashed` stands for the run-time panics: an empty payload, and a piece number without a place. */
  datatype Outcome = Got(meta: bytes) | Lost | Crashed

  datatype Reaction = Fine | Refused | Panic

  // ---------- the stream of a peer ----------

  /** A message of any kind on the stream, those without an id included. */
  function Packet(body: bytes): bytes {
    BigEndian(|body|) + body
  }

  function Packets(bodies: seq<bytes>): bytes {
    if bodies == [] then [] else Packet(bodies[0]) + Packets(bodies[1..])
  }

  lemma PacketRead(body: bytes, rest: bytes)
    requires |body| < TWO32
    ensures ReadFrame(Packet(body) + rest) == Done(body, 4 + |body|)
    ensures (Packet(body) + rest)[4 + |body|..] == rest
  {
    hide BigEndian, FromBigEndian;
    var s := Packet(body) + rest;
    assert s == BigEndian(|body|) + (body + rest);
    FrameHead(s, |body|, body + rest);
    assert s[4..4 + |body|] == s[4..][..|body|];
  }

  /** What WriteExtensionMessage puts on the stream is one of these. */
  lemma ExtFrameIsPacket(id: byte, content: bytes)
    ensures ExtFrame(id, content) == Packet([EXT_ID, id] + content)
  {
    hide BigEndian;
    assert [EXT_ID] + ([id] + content) == [EXT_ID, id] + content;
  }

  /** The body of a handshake. */
  function Greeting(theirs: seq<Ext>): bytes {
    [EXT_ID, 0] + Enc(VDict(Handshake(theirs)))
  }

  /** A peer that knows the extension and announces the size of the metadata. */
  ghost predicate Offers(theirs: seq<Ext>, meta: bytes) {
    && Fit(theirs) && |theirs| <= 255 && Registered(theirs, KEY_UT)
    && 0 < |meta| < HALF64 && Lookup(AllPuts(theirs), KEY_SIZE) == Some(VInt(|meta|))
  }

  /** A message that FetchMetadata passes over. */
  predicate Aside(body: bytes) {
    body == [] || body[0] != EXT_ID
  }

  predicate ForUs(body: bytes) {
    |body| >= 2 && body[0] == EXT_ID && body[1] == 1
  }

  /**
   * The messages of such a peer, none longer than the limit: among messages that are passed over, its
   * handshake at place `h`, and behind it pieces of the metadata and other messages for the extension that
   * are ignored, in any order.
   */
  ghost predicate Serves(bodies: seq<bytes>, h: nat, theirs: seq<Ext>, meta: bytes) {
    && h < |bodies| && bodies[h] == Greeting(theirs) && Offers(theirs, meta)
    && (forall i | 0 <= i < |bodies| :: |bodies[i]| <= 99999)
    && (forall i | 0 <= i < h :: Aside(bodies[i]))
    && (forall i | h < i < |bodies| :: Aside(bodies[i]) || (ForUs(bodies[i]) && Honest(meta, bodies[i][2..])))
  }

  /** What comes for the extension. */
  function Contents(bodies: seq<bytes>): seq<bytes> {
    if bodies == [] then []
    else Contents(bodies[..|bodies| - 1]) + Content(bodies[|bodies| - 1])
  }

  function Content(body: bytes): seq<bytes> {
    if ForUs(body) then [body[2..]] else []
  }

  lemma ContentsLast(bodies: seq<bytes>, k: nat)
    requires k < |bodies|
    ensures Contents(bodies[..k + 1]) == Contents(bodies[..k]) + Content(bodies[k])
  {
    assert bodies[..k + 1][..k] == bodies[..k];
  }

  /** What message `k` is. */
  lemma ServesAt(bodies: seq<bytes>, h: nat, theirs: seq<Ext>, meta: bytes, k: nat)
    requires Serves(bodies, h, theirs, meta) && k < |bodies|
    ensures |bodies[k]| <= LIMIT < TWO32 && 0 < |meta|
    ensures k < h ==> Aside(bodies[k])
    ensures k == h ==>
              bodies[k] == Greeting(theirs) && !Aside(bodies[k]) && !ForUs(bodies[k])
              && [EXT_ID] + bodies[k][1..] == bodies[k]
    ensures k > h && !Aside(bodies[k]) ==>
              ForUs(bodies[k]) && Honest(meta, bodies[k][2..]) && bodies[k][1..][1..] == bodies[k][2..]
  {
    hide Enc, Handshake, Honest;
    if k == h {
      assert bodies[h] == [EXT_ID] + bodies[h][1..];
    }
  }

  /** Only honest messages come for the extension, and none before the handshake. */
  lemma {:induction false} ContentsHonest(bodies: seq<bytes>, h: nat, theirs: seq<Ext>, meta: bytes, k: nat)
    requires Serves(bodies, h, theirs, meta) && k <= |bodies|
    ensures AllHonest(meta, Contents(bodies[..k])) && AllInRange(NumPieces(|meta|), Contents(bodies[..k]))
    ensures k <= h + 1 ==> Contents(bodies[..k]) == []
  {
    hide Serves, Greeting, Honest, Understand, NumPieces, InRange;
    if k == 0 {
    } else {
      ContentsHonest(bodies, h, theirs, meta, k - 1);
      ContentsLast(bodies, k - 1);
      ServesAt(bodies, h, theirs, meta, k - 1);
      if k - 1 > h && ForUs(bodies[k - 1]) {
        HonestInRange(meta, bodies[k - 1][2..]);
      }
    }
  }

  lemma HonestInRange(meta: bytes, content: bytes)
    requires Honest(meta, content)
    ensures InRange(NumPieces(|meta|), content)
    ensures !Understand(content).Malformed? && !Understand(content).Rejected?
  {
    hide Understand, NumPieces, Slice;
  }

  // ---------- one message ----------

  /**
   * HandlePayload, and the call it makes: with one extension there is at most one, as its last act, so
   * making it afterwards is the same.
   */
  method Handle(proto: ExtProtocol, fm: FetchMetaExt, payload: bytes, w: Writer, ghost theirs: seq<Ext>,
                ghost meta: bytes) returns (r: Reaction)
    requires proto.Valid() && proto.exts == [Some(UT)]
    modifies proto, fm, w
    ensures proto.Valid() && (r.Fine? && fm.support ==> proto.exts == [Some(UT)])
    ensures r.Panic? <==>
            payload == [] ||
            (old(proto.m) != [] && payload[0] == 1 && !InRange(|old(fm.pieces)|, payload[1..]))
    ensures payload != [] && payload[0] != 0 && (old(proto.m) == [] || payload[0] != 1) ==>
              r.Refused? && fm.pieces == old(fm.pieces) && fm.support == old(fm.support) && w.out == old(w.out)
    ensures (old(proto.m) != [] && payload != [] && payload[0] == 1 && InRange(|old(fm.pieces)|, payload[1..])
             && (Understand(payload[1..]).Malformed? || Understand(payload[1..]).Rejected?)) ==> r.Refused?
    ensures payload != [] && payload[0] == 0 ==>
              match old(Learn(proto.m, payload[1..]))
              case None => r.Refused? && fm.support == old(fm.support)
              case Some(l) => (IdOf(l.1, KEY_UT) == 0 ==> r.Fine? && !fm.support)
    ensures Offers(theirs, meta) && old(proto.m) == [] && [EXT_ID] + payload == Greeting(theirs) ==>
              && r.Fine? && fm.support && proto.m == NewIds([], theirs)
              && fm.pieces == NoPieces(NumPieces(|meta|))
              && w.out == old(w.out) + Requests(IdOf(proto.m, KEY_UT), NumPieces(|meta|))
    ensures old(proto.m) != [] && payload != [] && payload[0] == 1 && InRange(|old(fm.pieces)|, payload[1..])
            && !Understand(payload[1..]).Malformed? && !Understand(payload[1..]).Rejected? ==>
              && r.Fine? && fm.support == old(fm.support) && proto.m == old(proto.m)
              && fm.pieces == Store(old(fm.pieces), payload[1..]) && w.out == old(w.out)
  {
    hide Understand, Ids, IdOf, Learn, Settle, Fit, Enc, Handshake, NewIds, Registered, Requests, NumPieces,
      RawEntries, HasTypeEntries, Get;
    if payload == [] {
      return Panic;
    }
    OnlySlot();
    ghost var greets := Offers(theirs, meta) && proto.m == [] && [EXT_ID] + payload == Greeting(theirs);
    if greets {
      assert payload == ([EXT_ID] + payload)[1..] == [0] + Enc(VDict(Handshake(theirs)));
      assert payload[1..] == Enc(VDict(Handshake(theirs)));
      GreetingLearned(theirs, meta);
    }
    ghost var l := Learn(proto.m, payload[1..]);
    if payload[0] == 0 && l.Some? {
      SettleSlots([UT], l.value.0, l.value.1, {}, 0);
    }
    var count := |proto.calls|;
    var ok := proto.HandlePayload(payload, {});
    if !ok {
      return Refused;
    }
    var call := proto.calls[count];
    match call
    case Unsupport(_) =>
      fm.Unsupport();
      r := Fine;
    case AfterHandshake(_, hs, sender) =>
      ok := fm.AfterHandshake(hs, sender, w);
      r := if ok then Fine else Refused;
    case HandleMessage(_, content, _) =>
      if !InRange(|fm.pieces|, content) {
        return Panic;
      }
      ok := fm.HandleMessage(content);
      r := if ok then Fine else Refused;
  }

  lemma OnlySlot()
    ensures All([UT]) == [Some(UT)] && Present([Some(UT)]) == [UT]
  {
    assert [UT][1..] == [];
    assert [Some(UT)][1..] == [];
  }

  /** What the handshake of a peer that offers the metadata leads to. */
  lemma GreetingLearned(theirs: seq<Ext>, meta: bytes)
    requires Offers(theirs, meta)
    ensures Learn([], Enc(VDict(Handshake(theirs)))) == Some((RawEntries(Handshake(theirs)), NewIds([], theirs)))
    ensures IdOf(NewIds([], theirs), KEY_UT) != 0 && NewIds([], theirs) != []
    ensures HasTypeEntries(TRaw, RawEntries(Handshake(theirs)))
    ensures Get(RawEntries(Handshake(theirs)), KEY_SIZE, TInt(W64), VInt(0)) == Some(VInt(|meta|))
  {
    hide Enc, Handshake, NewIds, Fit, Ids, IdOf, Learn, RawEntries, AllPuts, Get, HasTypeEntries;
    var b := Enc(VDict(Handshake(theirs)));
    assert b + [] == b;
    NoId(KEY_UT);
    HandshakeTeaches([], theirs, []);
    var i :| 0 <= i < |theirs| && theirs[i].key == KEY_UT;
    SenderId(theirs, i);
    HandshakeGood(theirs);
    SizeFits(|meta|);
    GetAfterPut(theirs, KEY_SIZE, TInt(W64), VInt(|meta|));
  }

  lemma SizeFits(size: nat)
    requires size < HALF64
    ensures var v := VInt(size); HasType(TInt(W64), v) && Encodable(v) && Norm(TInt(W64), v) == v
    ensures Zero(TInt(W64)) == VInt(0) && KEY_SIZE != KEY_M
  {
    assert |KEY_SIZE| != |KEY_M|;
  }

  // ---------- the whole download ----------

  lemma NextPacket(bodies: seq<bytes>, k: nat)
    requires k < |bodies| && |bodies[k]| < TWO32
    ensures ReadFrame(Packets(bodies[k..])) == Done(bodies[k], 4 + |bodies[k]|)
    ensures 4 + |bodies[k]| <= |Packets(bodies[k..])|
    ensures Packets(bodies[k..])[4 + |bodies[k]|..] == Packets(bodies[k + 1..])
  {
    hide Packet, ReadFrame;
    assert bodies[k..][1..] == bodies[k + 1..];
    PacketRead(bodies[k], Packets(bodies[k + 1..]));
  }

  /** What has been written before any request. */
  function Hello(): bytes {
    ExtFrame(0, Enc(VDict(Handshake([UT]))))
  }

  function Asked(theirs: seq<Ext>, meta: bytes): bytes {
    NoId(KEY_UT);
    Hello() + Requests(IdOf(NewIds([], theirs), KEY_UT), NumPieces(|meta|))
  }

  /** The first `k` messages of a peer that serves the metadata have been handled. */
  ghost predicate Progress(proto: ExtProtocol, fm: FetchMetaExt, w: Writer, bodies: seq<bytes>, h: nat,
                           theirs: seq<Ext>, meta: bytes, k: nat)
    requires Serves(bodies, h, theirs, meta) && k <= |bodies|
    reads proto, fm, w
  {
    ContentsHonest(bodies, h, theirs, meta, k);
    if k <= h then proto.m == [] && w.out == Hello()
    else
      && proto.m == NewIds([], theirs) && proto.m != [] && fm.support && w.out == Asked(theirs, meta)
      && fm.pieces == StoreAll(NoPieces(NumPieces(|meta|)), Contents(bodies[..k]))
  }

  lemma AsideStep(proto: ExtProtocol, fm: FetchMetaExt, w: Writer, bodies: seq<bytes>, h: nat, theirs: seq<Ext>,
                  meta: bytes, k: nat)
    requires Serves(bodies, h, theirs, meta) && k < |bodies| && Aside(bodies[k])
    requires Progress(proto, fm, w, bodies, h, theirs, meta, k)
    ensures Progress(proto, fm, w, bodies, h, theirs, meta, k + 1)
    ensures Contents(bodies[..k + 1]) == Contents(bodies[..k])
  {
    hide Serves, NewIds, Asked, StoreAll, Contents;
    ServesAt(bodies, h, theirs, meta, k);
    ContentsLast(bodies, k);
    assert Contents(bodies[..k]) + [] == Contents(bodies[..k]);
  }

  lemma GreetingStep(proto: ExtProtocol, fm: FetchMetaExt, w: Writer, bodies: seq<bytes>, h: nat, theirs: seq<Ext>,
                     meta: bytes)
    requires Serves(bodies, h, theirs, meta) && fm.support && fm.pieces == NoPieces(NumPieces(|meta|))
    requires proto.m == NewIds([], theirs) && w.out == Asked(theirs, meta)
    ensures h < |bodies| && Progress(proto, fm, w, bodies, h, theirs, meta, h + 1)
  {
    hide NewIds, Asked, Contents, Fit, Honest, Registered, AllPuts;
    GreetingLearned(theirs, meta);
    ContentsHonest(bodies, h, theirs, meta, h + 1);
  }

  lemma ProgressStart(proto: ExtProtocol, fm: FetchMetaExt, w: Writer, bodies: seq<bytes>, h: nat, theirs: seq<Ext>,
                      meta: bytes, k: nat)
    requires Serves(bodies, h, theirs, meta) && k <= h && Progress(proto, fm, w, bodies, h, theirs, meta, k)
    ensures proto.m == [] && w.out == Hello() && Offers(theirs, meta) && !Aside(bodies[h])
    ensures [EXT_ID] + bodies[h][1..] == Greeting(theirs)
    ensures w.out + Requests(IdOf(NewIds([], theirs), KEY_UT), NumPieces(|meta|)) == Asked(theirs, meta)
  {
    hide NewIds, Hello, Contents, Offers, Requests, Greeting;
    ServesAt(bodies, h, theirs, meta, h);
  }

  lemma ProgressSize(proto: ExtProtocol, fm: FetchMetaExt, w: Writer, bodies: seq<bytes>, h: nat, theirs: seq<Ext>,
                     meta: bytes, k: nat)
    requires Serves(bodies, h, theirs, meta) && h < k <= |bodies| && Progress(proto, fm, w, bodies, h, theirs, meta, k)
    ensures proto.m == NewIds([], theirs) && proto.m != [] && fm.support && w.out == Asked(theirs, meta)
    ensures AllInRange(NumPieces(|meta|), Contents(bodies[..k]))
    ensures fm.pieces == StoreAll(NoPieces(NumPieces(|meta|)), Contents(bodies[..k]))
    ensures |fm.pieces| == NumPieces(|meta|)
  {
    hide NewIds, Asked, Contents, StoreAll, NoPieces, NumPieces;
    ContentsHonest(bodies, h, theirs, meta, k);
  }

  /** A message that comes for the extension can be handled. */
  lemma ContentReady(fm: FetchMetaExt, bodies: seq<bytes>, h: nat, theirs: seq<Ext>, meta: bytes, k: nat)
    requires Serves(bodies, h, theirs, meta) && h < k < |bodies| && ForUs(bodies[k])
    requires |fm.pieces| == NumPieces(|meta|)
    ensures var c := bodies[k][2..];
            InRange(|fm.pieces|, c) && !Understand(c).Malformed? && !Understand(c).Rejected?
  {
    hide Serves, Understand, NumPieces, Honest, InRange;
    ServesAt(bodies, h, theirs, meta, k);
    HonestInRange(meta, bodies[k][2..]);
  }

  lemma ContentStep(proto: ExtProtocol, fm: FetchMetaExt, w: Writer, bodies: seq<bytes>, h: nat, theirs: seq<Ext>,
                    meta: bytes, k: nat, was: seq<bytes>)
    requires Serves(bodies, h, theirs, meta) && h < k < |bodies| && ForUs(bodies[k])
    requires proto.m == NewIds([], theirs) && proto.m != [] && fm.support && w.out == Asked(theirs, meta)
    requires AllInRange(NumPieces(|meta|), Contents(bodies[..k]))
    requires was == StoreAll(NoPieces(NumPieces(|meta|)), Contents(bodies[..k])) && InRange(|was|, bodies[k][2..])
    requires fm.pieces == Store(was, bodies[k][2..])
    ensures Progress(proto, fm, w, bodies, h, theirs, meta, k + 1)
  {
    hide Serves, NewIds, Asked, Contents, Store, NoPieces, NumPieces;
    ContentsHonest(bodies, h, theirs, meta, k + 1);
    ContentsLast(bodies, k);
    var cs := Contents(bodies[..k + 1]);
    assert cs[..|cs| - 1] == Contents(bodies[..k]);
  }

  /** Done means that everything has arrived, and then it is the metadata. */
  lemma DoneMeans(proto: ExtProtocol, fm: FetchMetaExt, w: Writer, bodies: seq<bytes>, h: nat, theirs: seq<Ext>,
                  meta: bytes, k: nat)
    requires Serves(bodies, h, theirs, meta) && h < k <= |bodies|
    requires Progress(proto, fm, w, bodies, h, theirs, meta, k)
    ensures AllFilled(fm.pieces) <==> AllArrived(NumPieces(|meta|), Contents(bodies[..k]))
    ensures AllFilled(fm.pieces) ==> Join(fm.pieces) == meta
    ensures AllFilled(fm.pieces) ==> AllArrived(NumPieces(|meta|), Contents(bodies))
  {
    hide Serves, NewIds, Asked, Contents, Store, NoPieces, NumPieces, Join, Arrived, AllFilled;
    ContentsHonest(bodies, h, theirs, meta, k);
    Reassembly(meta, Contents(bodies[..k]));
    ContentsPrefix(bodies, k);
    assert Contents(bodies)[..|Contents(bodies[..k])|] == Contents(bodies[..k]);
    ArrivedStays(Contents(bodies), |Contents(bodies[..k])|);
  }

  lemma {:induction false} ContentsPrefix(bodies: seq<bytes>, k: nat)
    requires k <= |bodies|
    ensures Contents(bodies[..k]) <= Contents(bodies)
  {
    if k < |bodies| {
      var front := bodies[..|bodies| - 1];
      ContentsPrefix(front, k);
      assert front[..k] == bodies[..k];
    } else {
      assert bodies[..k] == bodies;
    }
  }

  lemma Begins(proto: ExtProtocol, fm: FetchMetaExt, w: Writer, bodies: seq<bytes>, h: nat, theirs: seq<Ext>,
               meta: bytes)
    requires Serves(bodies, h, theirs, meta) && proto.m == [] && w.out == Hello()
    ensures Progress(proto, fm, w, bodies, h, theirs, meta, 0)
    ensures h < |bodies| && bodies[0..] == bodies && !AllArrived(NumPieces(|meta|), Contents(bodies[..0]))
  {
    hide NumPieces;
    assert bodies[..0] == [];
    Unfinished(meta);
  }

  lemma Exhausted(bodies: seq<bytes>, k: nat)
    requires k == |bodies|
    ensures ReadFrame(Packets(bodies[k..])).Fail? && bodies[..k] == bodies
  {
    assert bodies[k..] == [] && bodies[..k] == bodies;
  }

  lemma HelloRegular()
    ensures All([]) == [] && Regular(VDict(Handshake([UT])))
  {
    hide Handshake, Encodable, NilFree, Regular, GoodEntry;
    GoodNothing();
    HandshakeGood([UT]);
  }

  /** What FetchMetadata does with a message for the extensions; None to go on. */
  method React(proto: ExtProtocol, fm: FetchMetaExt, w: Writer, message: bytes, sha1: bytes -> bytes, ghost fine: bool,
               ghost bodies: seq<bytes>, ghost h: nat, ghost theirs: seq<Ext>, ghost meta: bytes, ghost k: nat)
      returns (outcome: Option<Outcome>)
    requires proto.Valid() && proto.exts == [Some(UT)] && !Aside(message)
    requires fine ==> Serves(bodies, h, theirs, meta) && sha1(meta) == fm.infoHash
    requires fine ==> k < |bodies| && message == bodies[k] && Progress(proto, fm, w, bodies, h, theirs, meta, k)
    modifies proto, fm, w
    ensures outcome.None? ==> proto.Valid() && proto.exts == [Some(UT)]
    ensures outcome.Some? && outcome.value.Got? ==> sha1(outcome.value.meta) == fm.infoHash
    ensures fine ==> Progress(proto, fm, w, bodies, h, theirs, meta, k + 1) && h < k + 1
    ensures fine ==> if AllArrived(NumPieces(|meta|), Contents(bodies[..k + 1]))
                     then outcome == Some(Got(meta)) && AllArrived(NumPieces(|meta|), Contents(bodies))
                     else outcome == None
  {
    hide Serves, Progress, Contents, AllArrived, AllFilled, NumPieces, Join, Asked, Hello, NewIds, Understand, Ids,
      IdOf, Greeting, Offers;
    ghost var was := fm.pieces;
    if fine {
      ServesAt(bodies, h, theirs, meta, k);
      if h < k {
        ProgressSize(proto, fm, w, bodies, h, theirs, meta, k);
        ContentReady(fm, bodies, h, theirs, meta, k);
      } else {
        ProgressStart(proto, fm, w, bodies, h, theirs, meta, k);
      }
    }
    var reaction := Handle(proto, fm, message[1..], w, theirs, meta);
    if reaction != Fine {
      return Some(if reaction == Panic then Crashed else Lost);
    }
    if !fm.support {
      return Some(Lost);
    }
    if fine {
      if h < k {
        ContentStep(proto, fm, w, bodies, h, theirs, meta, k, was);
      } else {
        GreetingStep(proto, fm, w, bodies, h, theirs, meta);
      }
      DoneMeans(proto, fm, w, bodies, h, theirs, meta, k + 1);
    }
    var done := fm.CheckDone();
    if done {
      var got := fm.FetchRawMeta(sha1);
      if got.Some? {
        return Some(Got(got.value));
      }
    }
    outcome := None;
  }

  lemma FrameLength(s: bytes)
    ensures ReadFrame(s).Done? ==> |s| >= 4 && FromBigEndian(s[..4]) == |ReadFrame(s).value|
  {
    hide FromBigEndian;
  }

  /** What FetchMetadata does in front of its loop. */
  method Open(infoHash: bytes, w: Writer) returns (proto: ExtProtocol, fm: FetchMetaExt)
    modifies w
    ensures fresh(proto) && fresh(fm) && fm.infoHash == infoHash && !fm.support
    ensures proto.Valid() && proto.exts == [Some(UT)] && proto.m == []
    ensures w.out == old(w.out) + Hello()
  {
    hide Ids, Handshake, Enc, Regular, ExtFrame;
    proto := new ExtProtocol([]);
    fm := new FetchMetaExt(infoHash);
    HelloRegular();
    OnlySlot();
    proto.RegistExt(UT);
    assert proto.exts == [Some(UT)];
    proto.WriteHandshake(w);
  }

  /**
   * FetchMetadata behind the dialing, on the stream `r`. Whatever the peer sends, what it returns has the
   * hash that was asked for. From a peer that serves the metadata it is the metadata, and it is returned
   * exactly when every piece arrives; what has been written is the handshake and one request for each piece.
   */
  method FetchMetadata(infoHash: bytes, r: Reader, w: Writer, sha1: bytes -> bytes, ghost bodies: seq<bytes>,
                       ghost h: nat, ghost theirs: seq<Ext>, ghost meta: bytes) returns (outcome: Outcome)
    requires w.out == []
    modifies r, w
    ensures outcome.Got? ==> sha1(outcome.meta) == infoHash
    ensures |old(r.rest)| >= 4 && FromBigEndian(old(r.rest)[..4]) > 99999 ==> outcome == Lost
    ensures old(r.rest) == Packets(bodies) && Serves(bodies, h, theirs, meta) && sha1(meta) == infoHash ==>
              && outcome == (if AllArrived(NumPieces(|meta|), Contents(bodies)) then Got(meta) else Lost)
              && w.out == Asked(theirs, meta)
  {
    hide ReadFrame, Packets, Serves, Progress, Contents, AllArrived, AllFilled, NumPieces, Join, Asked, Hello, NewIds,
      Understand, Ids, IdOf, Handshake, Enc, Honest, Greeting, Regular, Offers;
    var proto, fm := Open(infoHash, w);
    ghost var k := 0;
    ghost var fine := r.rest == Packets(bodies) && Serves(bodies, h, theirs, meta) && sha1(meta) == infoHash;
    if fine {
      Begins(proto, fm, w, bodies, h, theirs, meta);
    }
    while true
      invariant fresh(proto) && fresh(fm) && fm.infoHash == infoHash && proto.Valid() && proto.exts == [Some(UT)]
      invariant fine ==> Serves(bodies, h, theirs, meta) && h < |bodies|
      invariant fine ==> k <= |bodies| && r.rest == Packets(bodies[k..])
      invariant fine ==> Progress(proto, fm, w, bodies, h, theirs, meta, k)
      invariant fine ==> !AllArrived(NumPieces(|meta|), Contents(bodies[..k]))
      invariant r.rest == old(r.rest) || |old(r.rest)| < 4 || FromBigEndian(old(r.rest)[..4]) <= 99999
      decreases |r.rest|
    {
      if fine {
        if k < |bodies| {
          ServesAt(bodies, h, theirs, meta, k);
          NextPacket(bodies, k);
        } else {
          Exhausted(bodies, k);
          ProgressSize(proto, fm, w, bodies, h, theirs, meta, k);
        }
      }
      FrameLength(r.rest);
      var message, ok := ReadMessageWithLimit(r, LIMIT);
      assert fine ==> (ok <==> k < |bodies|) && (ok ==> message == bodies[k] && r.rest == Packets(bodies[k + 1..]));
      if !ok {
        return Lost;
      }
      if |message| == 0 || message[0] != EXT_ID {
        if fine {
          AsideStep(proto, fm, w, bodies, h, theirs, meta, k);
        }
        k := k + 1;
        continue;
      }
      var stop := React(proto, fm, w, message, sha1, fine, bodies, h, theirs, meta, k);
      k := k + 1;
      if stop.Some? {
        if fine {
          ProgressSize(proto, fm, w, bodies, h, theirs, meta, k);
        }
        return stop.value;
      }
    }
  }

  // ---------- a peer that serves ----------

  /** The header of a data message for a piece, in any text that is accepted, whatever else it holds. */
  predicate Header(h: bytes, no: nat) {
    HeaderText(h) && NumberAt(HeaderEntries(h), KEY_TYPE) == DATA && NumberAt(HeaderEntries(h), KEY_PIECE) == no
  }

  datatype Reply = Reply(no: nat, header: bytes)

  predicate Fitting(meta: bytes, r: Reply) {
    r.no < NumPieces(|meta|) && Header(r.header, r.no) && |Answer(meta, r)| <= LIMIT
  }

  function Answer(meta: bytes, r: Reply): bytes
    requires r.no < NumPieces(|meta|)
  {
    [EXT_ID, 1] + (r.header + Slice(meta, r.no))
  }

  /** Its handshake, and then its replies. */
  function Served(theirs: seq<Ext>, meta: bytes, replies: seq<Reply>): (bodies: seq<bytes>)
    requires forall r | r in replies :: r.no < NumPieces(|meta|)
    ensures |bodies| == |replies| + 1
  {
    if replies == [] then [Greeting(theirs)]
    else Served(theirs, meta, replies[..|replies| - 1]) + [Answer(meta, replies[|replies| - 1])]
  }

  lemma AnswerHonest(meta: bytes, r: Reply)
    requires Fitting(meta, r)
    ensures var b := Answer(meta, r);
            ForUs(b) && Honest(meta, b[2..]) && Understand(b[2..]) == Piece(r.no, Slice(meta, r.no))
  {
    hide HeaderText, HeaderEntries, Understand, Slice, NumPieces;
    PayloadSplit(r.header, Slice(meta, r.no));
    assert Answer(meta, r)[2..] == r.header + Slice(meta, r.no);
  }

  predicate Replied(replies: seq<Reply>, i: nat) {
    exists r | r in replies :: r.no == i
  }

  /**
   * A peer that offers the metadata and replies with pieces, in any order and with any repetitions, serves
   * it; everything has arrived exactly when there is a reply for every piece.
   */
  lemma {:induction false} ServedInFull(theirs: seq<Ext>, meta: bytes, replies: seq<Reply>)
    requires Offers(theirs, meta) && |Greeting(theirs)| <= LIMIT
    requires forall r | r in replies :: r.no < NumPieces(|meta|) && Fitting(meta, r)
    ensures var bodies := Served(theirs, meta, replies);
            && Serves(bodies, 0, theirs, meta)
            && (forall i: nat :: Arrived(Contents(bodies), i) <==> Replied(replies, i))
            && (AllArrived(NumPieces(|meta|), Contents(bodies)) <==>
                forall i: nat | i < NumPieces(|meta|) :: Replied(replies, i))
    decreases |replies|
  {
    hide Enc, Offers, Understand, Slice, NumPieces, Header, Honest;
    var bodies := Served(theirs, meta, replies);
    if replies == [] {
      assert Contents(bodies) == [];
    } else {
      var k := |replies| - 1;
      var front, r := replies[..k], replies[k];
      ServedInFull(theirs, meta, front);
      AnswerHonest(meta, r);
      assert bodies[..|bodies| - 1] == Served(theirs, meta, front);
      var cs := Contents(bodies);
      assert cs[..|cs| - 1] == Contents(Served(theirs, meta, front));
      forall i: nat ensures Arrived(cs, i) <==> Replied(replies, i) {
        ArrivedLast(cs, i);
        assert replies == front + [r];
      }
    }
  }
}
