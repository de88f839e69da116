/** The Decoder object of bencode/docode.go, proved against the functions of Decode and Syntax. */
module DecoderObject {
  import opened Bytes
  import opened Numerals
  import opened Syntax
  import opened Values
  import opened Decode

  /** A bytes.Buffer. */
  class Buffer {
    var data: bytes

    constructor ()
      ensures data == []
    {
      data := [];
    }

    method Write(b: bytes)
      modifies this
      ensures data == old(data) + b
    {
      data := data + b;
    }

    method Reset()
      modifies this
      ensures data == []
    {
      data := [];
    }
  }

  /** How one round of a list or dictionary loop starts. */
  datatype Step = Failed | Closed | More

  /** A loop that began at the position `from`, and whether order and names have been fine since. */
  datatype Sofar = Sofar(from: nat, ordered: bool, known: bool) {
    function Then(o: bool, k: bool): Sofar {
      Sofar(from, ordered && o, known && k)
    }
  }

  /** `whole` is the loop, of which `rest` remains to be read at the position `p`. */
  ghost predicate Continues<T>(whole: Parsed<Out<T>>, so: Sofar, p: nat, rest: Parsed<Out<T>>)
    requires so.from <= p
  {
    match rest
    case Fail => whole.Fail?
    case Done(o, m) => whole == Done(Out(o.val, so.ordered && o.ordered, so.known && o.known), p - so.from + m)
  }

  lemma ContinuesAll<T>(whole: Parsed<Out<T>>, p: nat)
    ensures Continues(whole, Sofar(p, true, true), p, whole)
  {
  }

  /** The same for elements, of which `front` have been read. */
  ghost predicate Prepends(whole: Parsed<Out<seq<Value>>>, front: seq<Value>, so: Sofar, p: nat,
                           rest: Parsed<Out<seq<Value>>>)
    requires so.from <= p
  {
    match rest
    case Fail => whole.Fail?
    case Done(o, m) => whole == Done(Out(front + o.val, so.ordered && o.ordered, so.known && o.known), p - so.from + m)
  }

  lemma PrependsNothing(whole: Parsed<Out<seq<Value>>>, p: nat)
    ensures Prepends(whole, [], Sofar(p, true, true), p, whole)
  {
    if whole.Done? {
      assert [] + whole.value.val == whole.value.val;
    }
  }

  /** The same for the scanner, which keeps nothing. */
  ghost predicate Advances<T>(whole: Parsed<T>, n: nat, rest: Parsed<T>) {
    (whole.Done? <==> rest.Done?) && (rest.Done? ==> whole.n == n + rest.n)
  }

  /** One round of a list: how it ends, or what remains of it. */
  lemma ItemsStep(whole: Parsed<seq<Tree>>, input: bytes, p0: nat, p: nat, capture: bool)
    requires p0 <= p <= |input| && Advances(whole, p - p0, ScanItems(input[p..], capture))
    ensures p == |input| ==> whole.Fail?
    ensures p < |input| && input[p] == CH_E ==> whole.Done? && whole.n == p + 1 - p0
    ensures p < |input| && input[p] != CH_E ==>
              var d := Scan(input[p..], capture);
              if d.Fail? then whole.Fail?
              else p + d.n <= |input| && Advances(whole, p + d.n - p0, ScanItems(input[p + d.n..], capture))
  {
    hide Scan, ScanItems;
    ScanItemsUnfold(input[p..], capture);
    var d := Scan(input[p..], capture);
    if d.Done? {
      assert input[p..][d.n..] == input[p + d.n..];
    }
  }

  lemma PairsStep(whole: Parsed<seq<Pair>>, input: bytes, p0: nat, p: nat, capture: bool)
    requires p0 <= p <= |input| && Advances(whole, p - p0, ScanPairs(input[p..], capture))
    ensures p == |input| ==> whole.Fail?
    ensures p < |input| && input[p] == CH_E ==> whole.Done? && whole.n == p + 1 - p0
    ensures p < |input| && input[p] != CH_E ==>
              var d := ScanPair(input[p..], capture);
              if d.Fail? then whole.Fail?
              else p + d.n <= |input| && Advances(whole, p + d.n - p0, ScanPairs(input[p + d.n..], capture))
  {
    hide ScanPair, ScanPairs;
    ScanPairsUnfold(input[p..], capture);
    var d := ScanPair(input[p..], capture);
    if d.Done? {
      assert input[p..][d.n..] == input[p + d.n..];
    }
  }

  lemma Extend(input: bytes, from: nat, p: nat, q: nat)
    requires from <= p <= q <= |input|
    ensures input[from..p] + input[p..][..q - p] == input[from..q]
  {
  }

  lemma LineBehind(s: bytes, delim: byte)
    requires s != [] && s[0] != delim
    ensures match Line(s[1..], delim)
            case Fail => Line(s, delim).Fail?
            case Done(line, n) => Line(s, delim) == Done([s[0]] + line, n + 1)
  {
    var i := Find(s[1..], delim);
    if i < |s[1..]| {
      assert s[..i + 1] == [s[0]] + s[1..][..i];
    }
  }

  class Decoder {
    /** Everything the reader delivers. */
    const input: bytes
    /** The reader: what has not been taken yet. */
    var rest: bytes
    var offset: int
    var disallowUnknownFields: bool
    var disallowUnorderedKeys: bool
    var unknownFieldsErr: bool
    var unorderedKeysErr: bool

    /** The byte count is exact: it is the number of bytes taken from the reader. */
    ghost predicate Valid()
      reads this
    {
      0 <= offset <= |input| && rest == input[offset..]
    }

    /** The buffer, where there is one, holds what has been taken since the position `from`. */
    ghost predicate Captured(buf: Buffer?, from: nat)
      reads this, buf
    {
      buf != null ==> from <= offset <= |input| && buf.data == input[from..offset]
    }

    constructor (input: bytes)
      ensures Valid() && this.input == input && rest == input && offset == 0
      ensures !disallowUnknownFields && !disallowUnorderedKeys && !unknownFieldsErr && !unorderedKeysErr
    {
      this.input := input;
      rest, offset := input, 0;
      disallowUnknownFields, disallowUnorderedKeys := false, false;
      unknownFieldsErr, unorderedKeysErr := false, false;
    }

    method DisallowUnknownFields()
      modifies this`disallowUnknownFields
      ensures disallowUnknownFields
    {
      disallowUnknownFields := true;
    }

    method DisallowUnorderedKeys()
      modifies this`disallowUnorderedKeys
      ensures disallowUnorderedKeys
    {
      disallowUnorderedKeys := true;
    }

    method BytesParsed() returns (n: int)
      requires Valid()
      ensures n == |input| - |rest|
    {
      n := offset;
    }

    // ---------- the counting readers ----------

    method PeekByte() returns (r: Option<byte>)
      ensures r == if rest == [] then None else Some(rest[0])
    {
      r := if rest == [] then None else Some(rest[0]);
    }

    /** The counter advances even when there is no byte, so callers peek first. */
    method ReadByte() returns (r: Option<byte>)
      requires Valid()
      modifies this`rest, this`offset
      ensures offset == old(offset) + 1
      ensures old(rest) == [] ==> r.None? && rest == []
      ensures old(rest) != [] ==> r == Some(old(rest)[0]) && Valid()
    {
      r := None;
      if rest != [] {
        r := Some(rest[0]);
        rest := rest[1..];
      }
      offset := offset + 1;
    }

    /** The bytes taken from the reader: all readers below go through here. */
    method Take(n: nat) returns (b: bytes)
      requires Valid() && n <= |rest|
      modifies this`rest, this`offset
      ensures Valid() && b == old(rest)[..n] && offset == old(offset) + n
    {
      b := rest[..n];
      rest := rest[n..];
      offset := offset + n;
    }

    /** ReadBytes of bufio: without a delimiter, everything is taken and an error returned. */
    method ReadBytes(delim: byte) returns (line: bytes, ok: bool)
      requires Valid()
      modifies this`rest, this`offset
      ensures Valid()
      ensures ok <==> Line(old(rest), delim).Done?
      ensures ok ==> offset == old(offset) + Line(old(rest), delim).n
      ensures ok ==> line == Line(old(rest), delim).value + [delim]
      ensures !ok ==> offset == |input|
    {
      var i := Find(rest, delim);
      ok := i < |rest|;
      line := Take(if ok then i + 1 else |rest|);
      assert ok ==> line == old(rest)[..i] + [delim];
    }

    /** io.ReadFull into a buffer of `n` bytes. */
    method ReadFull(n: nat) returns (buf: bytes, ok: bool)
      requires Valid()
      modifies this`rest, this`offset
      ensures Valid()
      ensures ok <==> n <= |old(rest)|
      ensures ok ==> buf == old(rest)[..n] && offset == old(offset) + n
      ensures !ok ==> offset == |input|
    {
      ok := n <= |rest|;
      buf := Take(if ok then n else |rest|);
    }

    /** io.CopyN: a negative count copies nothing and is no error. */
    method ReadNBytesInto(dst: Buffer, n: int, ghost from: nat) returns (ok: bool)
      requires Valid() && Captured(dst, from)
      modifies this`rest, this`offset, dst
      ensures Valid() && Captured(dst, from)
      ensures ok <==> n <= |old(rest)|
      ensures ok ==> offset == old(offset) + if n < 0 then 0 else n
    {
      ok := n <= |rest|;
      var b := Take(if n < 0 then 0 else if ok then n else |rest|);
      Extend(input, from, old(offset), offset);
      dst.Write(b);
    }

    /** Discard of bufio: a negative count is an error. */
    method Discard(n: int) returns (ok: bool)
      requires Valid()
      modifies this`rest, this`offset
      ensures Valid()
      ensures ok <==> 0 <= n <= |old(rest)|
      ensures ok ==> offset == old(offset) + n
    {
      ok := 0 <= n <= |rest|;
      var b := Take(if n < 0 then 0 else if n <= |rest| then n else |rest|);
    }

    // ---------- the scanner ----------

    method ReadValueInto(buf: Buffer?, ghost from: nat) returns (ok: bool)
      requires Valid() && Captured(buf, from)
      modifies this`rest, this`offset, buf
      ensures Valid()
      ensures ok <==> Scan(old(rest), buf != null).Done?
      ensures ok ==> offset == old(offset) + Scan(old(rest), buf != null).n && Captured(buf, from)
      decreases |rest|, 0
    {
      var next := PeekByte();
      if next.None? {
        return false;
      }
      if next.value == CH_I {
        ok := ReadIntInto(buf, from);
      } else if IsDigit(next.value) {
        ok := ReadStringInto(buf, from);
      } else if next.value == CH_L {
        ok := ReadListInto(buf, from);
      } else if next.value == CH_D {
        ok := ReadDictInto(buf, from);
      } else {
        ok := false;
      }
    }

    method ReadIntInto(buf: Buffer?, ghost from: nat) returns (ok: bool)
      requires Valid() && Captured(buf, from) && rest != [] && rest[0] == CH_I
      modifies this`rest, this`offset, buf
      ensures Valid()
      ensures ok <==> ScanInt(old(rest)).Done?
      ensures ok ==> offset == old(offset) + ScanInt(old(rest)).n && Captured(buf, from)
    {
      var line;
      line, ok := ReadBytes(CH_E);
      if ok && buf != null {
        Extend(input, from, old(offset), offset);
        buf.Write(line);
      }
    }

    method ReadStringInto(buf: Buffer?, ghost from: nat) returns (ok: bool)
      requires Valid() && Captured(buf, from)
      modifies this`rest, this`offset, buf
      ensures Valid()
      ensures ok <==> ScanString(old(rest), buf != null).Done?
      ensures ok ==> offset == old(offset) + ScanString(old(rest), buf != null).n && Captured(buf, from)
    {
      hide ParseInt, Line;
      var line;
      line, ok := ReadBytes(COLON);
      if !ok {
        return;
      }
      var length := ParseInt(line[..|line| - 1], HALF64).value;
      if buf != null {
        Extend(input, from, old(offset), offset);
        buf.Write(line);
        ok := ReadNBytesInto(buf, length, from);
      } else {
        ok := Discard(length);
      }
    }

    /** The byte that opens a list or dictionary, or closes it. */
    method ReadMark(buf: Buffer?, ghost from: nat)
      requires Valid() && Captured(buf, from) && rest != []
      modifies this`rest, this`offset, buf
      ensures Valid() && offset == old(offset) + 1 && Captured(buf, from)
    {
      var b := ReadByte();
      if buf != null {
        Extend(input, from, old(offset), offset);
        buf.Write([b.value]);
      }
    }

    /** The head of every list and dictionary loop: a closing `e` is consumed, and copied. */
    method Next(buf: Buffer?, ghost from: nat) returns (step: Step)
      requires Valid() && Captured(buf, from)
      modifies this`rest, this`offset, buf
      ensures Valid() && Captured(buf, from)
      ensures step == if old(rest) == [] then Failed else if old(rest)[0] == CH_E then Closed else More
      ensures offset == old(offset) + if step == Closed then 1 else 0
    {
      var ch := PeekByte();
      if ch.None? {
        return Failed;
      }
      if ch.value != CH_E {
        return More;
      }
      ReadMark(buf, from);
      return Closed;
    }

    method ReadListInto(buf: Buffer?, ghost from: nat) returns (ok: bool)
      requires Valid() && Captured(buf, from) && rest != [] && rest[0] == CH_L
      modifies this`rest, this`offset, buf
      ensures Valid()
      ensures ok <==> Scan(old(rest), buf != null).Done?
      ensures ok ==> offset == old(offset) + Scan(old(rest), buf != null).n && Captured(buf, from)
      decreases |rest| - 1, 4
    {
      ReadMark(buf, from);
      assert rest == old(rest)[1..];
      ok := ReadItemsInto(buf, from);
    }

    /** The loop of readListInto. */
    method ReadItemsInto(buf: Buffer?, ghost from: nat) returns (ok: bool)
      requires Valid() && Captured(buf, from)
      modifies this`rest, this`offset, buf
      ensures Valid()
      ensures ok <==> ScanItems(old(rest), buf != null).Done?
      ensures ok ==> offset == old(offset) + ScanItems(old(rest), buf != null).n && Captured(buf, from)
      decreases |rest|, 3
    {
      hide ScanItems, Scan;
      ghost var p0, whole := offset, ScanItems(rest, buf != null);
      while true
        invariant Valid() && Captured(buf, from) && p0 <= offset
        invariant Advances(whole, offset - p0, ScanItems(rest, buf != null))
        decreases |rest|
      {
        ItemsStep(whole, input, p0, offset, buf != null);
        var step := Next(buf, from);
        if step != More {
          return step == Closed;
        }
        ok := ReadValueInto(buf, from);
        if !ok {
          return;
        }
      }
    }

    method ReadDictInto(buf: Buffer?, ghost from: nat) returns (ok: bool)
      requires Valid() && Captured(buf, from) && rest != [] && rest[0] == CH_D
      modifies this`rest, this`offset, buf
      ensures Valid()
      ensures ok <==> Scan(old(rest), buf != null).Done?
      ensures ok ==> offset == old(offset) + Scan(old(rest), buf != null).n && Captured(buf, from)
      decreases |rest| - 1, 5
    {
      ReadMark(buf, from);
      assert rest == old(rest)[1..];
      ok := ReadPairsInto(buf, from);
    }

    /** The loop of readDictInto. */
    method ReadPairsInto(buf: Buffer?, ghost from: nat) returns (ok: bool)
      requires Valid() && Captured(buf, from)
      modifies this`rest, this`offset, buf
      ensures Valid()
      ensures ok <==> ScanPairs(old(rest), buf != null).Done?
      ensures ok ==> offset == old(offset) + ScanPairs(old(rest), buf != null).n && Captured(buf, from)
      decreases |rest|, 4
    {
      hide ScanPairs, ScanPair;
      ghost var p0, whole := offset, ScanPairs(rest, buf != null);
      assert Advances(whole, 0, whole);
      while true
        invariant Valid() && Captured(buf, from) && p0 <= offset
        invariant Advances(whole, offset - p0, ScanPairs(rest, buf != null))
        decreases |rest|
      {
        PairsStep(whole, input, p0, offset, buf != null);
        var step := Next(buf, from);
        if step != More {
          return step == Closed;
        }
        ok := ReadPairInto(buf, from);
        if !ok {
          return;
        }
      }
    }

    /** A key and its value. */
    method ReadPairInto(buf: Buffer?, ghost from: nat) returns (ok: bool)
      requires Valid() && Captured(buf, from)
      modifies this`rest, this`offset, buf
      ensures Valid()
      ensures ok <==> ScanPair(old(rest), buf != null).Done?
      ensures ok ==> offset == old(offset) + ScanPair(old(rest), buf != null).n && Captured(buf, from)
      decreases |rest|, 1
    {
      ok := ReadStringInto(buf, from);
      if ok {
        ghost var n := ScanString(old(rest), buf != null).n;
        assert rest == old(rest)[n..];
        ok := ReadValueInto(buf, from);
      }
    }

    // ---------- type-directed decoding ----------

    /** Complaints are kept where they are switched on. */
    twostate predicate Noted(ordered: bool, known: bool)
      reads this
    {
      unorderedKeysErr == Note(old(unorderedKeysErr), disallowUnorderedKeys, ordered)
      && unknownFieldsErr == Note(old(unknownFieldsErr), disallowUnknownFields, known)
    }

    /** What a successful decode with `spec` did: value, position, and complaints. */
    twostate predicate Decoded<T>(spec: Parsed<Out<T>>, val: T)
      reads this
    {
      spec.Done? && val == spec.value.val && offset == old(offset) + spec.n
      && Noted(spec.value.ordered, spec.value.known)
    }

    /** Decode: the complaints of this and of earlier calls make it fail after the value has been read. */
    method Decode(t: Type, cur: Value) returns (r: Option<Value>)
      requires Valid() && HasType(t, cur)
      modifies this`rest, this`offset, this`unorderedKeysErr, this`unknownFieldsErr
      ensures Valid()
      ensures r.Some? <==> DecodeValue(t, cur, old(rest)).Done? && !unknownFieldsErr && !unorderedKeysErr
      ensures DecodeValue(t, cur, old(rest)).Done? ==>
                Decoded(DecodeValue(t, cur, old(rest)), DecodeValue(t, cur, old(rest)).value.val)
      ensures r.Some? ==> r.value == DecodeValue(t, cur, old(rest)).value.val
    {
      r := Dec(t, cur);
      if unknownFieldsErr || unorderedKeysErr {
        r := None;
      }
    }

    /** decode */
    method Dec(t: Type, cur: Value) returns (r: Option<Value>)
      requires Valid() && HasType(t, cur)
      modifies this`rest, this`offset, this`unorderedKeysErr, this`unknownFieldsErr
      ensures Valid()
      ensures r.Some? <==> DecodeValue(t, cur, old(rest)).Done?
      ensures r.Some? ==> Decoded(DecodeValue(t, cur, old(rest)), r.value)
      decreases |rest|, 1
    {
      var u, v := t, cur;
      while u.TPtr?
        invariant HasType(u, v)
        invariant DecodeValue(u, v, rest) == DecodeValue(t, cur, rest)
        decreases u
      {
        u, v := u.elem, Pointee(u, v);
      }
      if u.TRaw? {
        r := DecRaw();
      } else {
        r := DecPlain(u, v);
      }
    }

    /** What decode does for a RawMessage: its bytes are copied. */
    method DecRaw() returns (r: Option<Value>)
      requires Valid()
      modifies this`rest, this`offset
      ensures Valid()
      ensures r.Some? <==> DecodeValue(TRaw, VRaw([]), old(rest)).Done?
      ensures r.Some? ==> Decoded(DecodeValue(TRaw, VRaw([]), old(rest)), r.value)
    {
      var buf := new Buffer();
      var ok := ReadValueInto(buf, offset);
      r := if ok then Some(VRaw(buf.data)) else None;
      assert ok ==> buf.data == old(rest)[..Scan(old(rest), true).n];
    }

    /** What decode does for a target without methods of its own, pointers followed. */
    method DecPlain(t: Type, cur: Value) returns (r: Option<Value>)
      requires Valid() && HasType(t, cur) && !t.TPtr? && !t.TRaw?
      modifies this`rest, this`offset, this`unorderedKeysErr, this`unknownFieldsErr
      ensures Valid()
      ensures r.Some? <==> DecodeValue(t, cur, old(rest)).Done?
      ensures r.Some? ==> Decoded(DecodeValue(t, cur, old(rest)), r.value)
      decreases |rest|, 0
    {
      hide DecodeInt, DecodeStr, DecodeList, DecodeDict, HasType, Scan, Captured;
      var next := PeekByte();
      if next.None? {
        return None;
      }
      if next.value == CH_I {
        r := DecInt(t);
      } else if IsDigit(next.value) {
        r := DecStr(t);
      } else if next.value == CH_L {
        r := DecList(t, cur);
      } else if next.value == CH_D {
        r := DecDict(t, cur);
      } else {
        r := None;
      }
    }

    /** decodeInt */
    method DecInt(t: Type) returns (r: Option<Value>)
      requires Valid() && rest != [] && rest[0] == CH_I
      modifies this`rest, this`offset
      ensures Valid()
      ensures r.Some? <==> DecodeInt(t, old(rest)).Done?
      ensures r.Some? ==> Decoded(DecodeInt(t, old(rest)), r.value)
    {
      hide IntTo, Line;
      LineBehind(rest, CH_E);
      var ch := ReadByte();
      assert rest == old(rest)[1..];
      var line, ok := ReadBytes(CH_E);
      if !ok {
        return None;
      }
      r := IntTo(t, line[..|line| - 1]);
    }

    /** decodeString on a value */
    method DecStr(t: Type) returns (r: Option<Value>)
      requires Valid() && rest != [] && IsDigit(rest[0])
      modifies this`rest, this`offset
      ensures Valid()
      ensures r.Some? <==> DecodeStr(t, old(rest)).Done?
      ensures r.Some? ==> Decoded(DecodeStr(t, old(rest)), r.value)
    {
      hide DecodeString, StrTo;
      var body := DecString();
      if body.None? {
        return None;
      }
      r := StrTo(t, body.value);
    }

    /** decodeString up to the assignment, which is all a dictionary key needs */
    method DecString() returns (r: Option<bytes>)
      requires Valid()
      modifies this`rest, this`offset
      ensures Valid()
      ensures r.Some? <==> DecodeString(old(rest)).Done?
      ensures r.Some? ==>
                var spec := DecodeString(old(rest));
                r.value == spec.value.body && offset == old(offset) + spec.n
    {
      hide ParseInt, Line;
      var line, ok := ReadBytes(COLON);
      if !ok {
        return None;
      }
      var l := ParseInt(line[..|line| - 1], HALF32);
      if !l.status.Ok? || l.value < 0 {
        return None;
      }
      ghost var n := |line|;
      assert rest == old(rest)[n..];
      var buf;
      buf, ok := ReadFull(l.value);
      if !ok {
        return None;
      }
      assert buf == old(rest)[n..n + l.value];
      r := Some(buf);
    }

    /** decodeList */
    method DecList(t: Type, cur: Value) returns (r: Option<Value>)
      requires Valid() && HasType(t, cur) && rest != [] && rest[0] == CH_L
      modifies this`rest, this`offset, this`unorderedKeysErr, this`unknownFieldsErr
      ensures Valid()
      ensures r.Some? <==> DecodeList(t, cur, old(rest)).Done?
      ensures r.Some? ==> Decoded(DecodeList(t, cur, old(rest)), r.value)
      decreases |rest| - 1, 5
    {
      hide DecodeItems, DecodeArray, HasTypeItems;
      if !t.TAny? && !t.TList? && !t.TBytes? && !t.TArray? {
        return None;
      }
      var ch := ReadByte();
      assert rest == old(rest)[1..];
      var vs;
      if t.TBytes? {
        vs := DecItems(TUint(W8), []);
        return if vs.None? then None else if vs.value == [] then Some(cur) else Some(VStr(BytesOf(vs.value)));
      }
      if t.TAny? {
        vs := DecItems(TAny, []);
      } else if t.TList? {
        vs := DecItems(t.elem, cur.vs);
      } else {
        vs := DecArray(t.elem, cur.vs);
      }
      r := if vs.Some? then Some(VList(vs.value)) else None;
    }

    /** The loop of decodeList on a slice, which holds `init` until a first element is met. */
    method DecItems(t: Type, init: seq<Value>) returns (r: Option<seq<Value>>)
      requires Valid()
      modifies this`rest, this`offset, this`unorderedKeysErr, this`unknownFieldsErr
      ensures Valid()
      ensures r.Some? <==> DecodeItems(t, old(rest)).Done?
      ensures r.Some? ==>
                var spec := DecodeItems(t, old(rest));
                Decoded(spec, spec.value.val)
                && r.value == if spec.value.val == [] then init else spec.value.val
      decreases |rest|, 4
    {
      hide DecodeItems, DecodeValue, Prepends, HasType, Zero, HasTypeItems, Captured;
      var val, i := init, 0;
      ghost var so, whole := Sofar(offset, true, true), DecodeItems(t, rest);
      ghost var front := [];
      PrependsNothing(whole, offset);
      while true
        invariant Valid() && so.from == old(offset) <= offset && Noted(so.ordered, so.known)
        invariant i == |front| && val == if i == 0 then init else front
        invariant Prepends(whole, front, so, offset, DecodeItems(t, rest))
        decreases |rest|
      {
        DecodeItemsStep(whole, input, offset, so, front, t);
        var step := Next(null, 0);
        if step != More {
          return if step == Closed then Some(val) else None;
        }
        if i == 0 {
          val := [];
        }
        ghost var d := DecodeValue(t, Zero(t), rest);
        var v := Dec(t, Zero(t));
        if v.None? {
          return None;
        }
        val, i := val + [v.value], i + 1;
        front, so := front + [v.value], so.Then(d.value.ordered, d.value.known);
      }
    }

    /** The loop of decodeList on an array, whose elements are overwritten from the front. */
    method DecArray(t: Type, init: seq<Value>) returns (r: Option<seq<Value>>)
      requires Valid() && HasTypeItems(t, init)
      modifies this`rest, this`offset, this`unorderedKeysErr, this`unknownFieldsErr
      ensures Valid()
      ensures r.Some? <==> DecodeArray(t, init, old(rest)).Done?
      ensures r.Some? ==> Decoded(DecodeArray(t, init, old(rest)), r.value)
      decreases |rest|, 4
    {
      hide DecodeArray, DecodeElement, HasType, HasTypeItems, Prepends, Front, Back;
      var val, i := init, 0;
      ghost var so, whole := Sofar(offset, true, true), DecodeArray(t, init, rest);
      FrontBack(init, 0, VNil, []);
      PrependsNothing(whole, offset);
      while true
        invariant Valid() && so.from == old(offset) <= offset && Noted(so.ordered, so.known) && i >= 0
        invariant HasTypeItems(t, Back(val, i))
        invariant Prepends(whole, Front(val, i), so, offset, DecodeArray(t, Back(val, i), rest))
        decreases |rest|
      {
        DecodeArrayStep(whole, input, offset, so, val, i, t);
        var step := Next(null, 0);
        if step != More {
          return if step == Closed then Some(val) else None;
        }
        ghost var d := DecodeElement(t, val, i, rest);
        var v := DecElement(t, val, i);
        if v.None? {
          return None;
        }
        val, i := v.value, i + 1;
        so := so.Then(d.value.ordered, d.value.known);
      }
    }

    /** One element: those beyond the end of the array are passed over. */
    method DecElement(t: Type, val: seq<Value>, i: nat) returns (r: Option<seq<Value>>)
      requires Valid() && HasTypeItems(t, Back(val, i))
      modifies this`rest, this`offset, this`unorderedKeysErr, this`unknownFieldsErr
      ensures Valid()
      ensures r.Some? <==> DecodeElement(t, val, i, old(rest)).Done?
      ensures r.Some? ==> Decoded(DecodeElement(t, val, i, old(rest)), r.value)
      decreases |rest|, 2
    {
      hide DecodeValue, Scan, HasType, HasTypeItems, Back;
      if i < |val| {
        BackFirst(t, val, i);
        var v := Dec(t, val[i]);
        r := if v.Some? then Some(val[i := v.value]) else None;
      } else {
        var ok := ReadValueInto(null, 0);
        r := if ok then Some(val) else None;
      }
    }

    /** decodeDict */
    method DecDict(t: Type, cur: Value) returns (r: Option<Value>)
      requires Valid() && HasType(t, cur) && rest != [] && rest[0] == CH_D
      modifies this`rest, this`offset, this`unorderedKeysErr, this`unknownFieldsErr
      ensures Valid()
      ensures r.Some? <==> DecodeDict(t, cur, old(rest)).Done?
      ensures r.Some? ==> Decoded(DecodeDict(t, cur, old(rest)), r.value)
      decreases |rest| - 1, 5
    {
      hide DecodePairs, DecodeFields, HasTypeFields;
      var ch := ReadByte();
      assert rest == old(rest)[1..];
      if t.TAny? || t.TMap? {
        var es := DecPairs(if t.TAny? then TAny else t.elem, if t.TAny? then [] else cur.es);
        r := if es.Some? then Some(VDict(es.value)) else None;
      } else if t.TStruct? {
        var fs := DecFields(t.fields, cur.fs);
        r := if fs.Some? then Some(VStruct(fs.value)) else None;
      } else {
        r := None;
      }
    }

    /** The order check of decodeDict. */
    method CheckOrder(last: bytes, key: bytes)
      modifies this`unorderedKeysErr
      ensures unorderedKeysErr == Note(old(unorderedKeysErr), disallowUnorderedKeys, !Less(key, last))
    {
      if disallowUnorderedKeys && Less(key, last) && !unorderedKeysErr {
        unorderedKeysErr := true;
      }
    }

    /** The loop of decodeDict on a map, which it grows in place. */
    method DecPairs(t: Type, init: seq<Entry>) returns (r: Option<seq<Entry>>)
      requires Valid() && HasTypeEntries(t, init) && Ordered(init)
      modifies this`rest, this`offset, this`unorderedKeysErr, this`unknownFieldsErr
      ensures Valid()
      ensures r.Some? <==> DecodePairs(t, init, [], old(rest)).Done?
      ensures r.Some? ==> Decoded(DecodePairs(t, init, [], old(rest)), r.value)
      decreases |rest|, 4
    {
      hide DecodePairs, DecodePair, HasTypeEntries, Ordered, Less, Continues;
      var val, last := init, [];
      ghost var so, whole := Sofar(offset, true, true), DecodePairs(t, init, [], rest);
      ContinuesAll(whole, offset);
      while true
        invariant Valid() && so.from == old(offset) <= offset && Noted(so.ordered, so.known)
        invariant HasTypeEntries(t, val) && Ordered(val)
        invariant Continues(whole, so, offset, DecodePairs(t, val, last, rest))
        decreases |rest|
      {
        DecodePairsStep(whole, input, offset, so, t, val, last);
        var step := Next(null, 0);
        if step != More {
          return if step == Closed then Some(val) else None;
        }
        ghost var d := DecodePair(t, val, rest);
        var ok, key, val' := DecPair(t, val, last);
        if !ok {
          return None;
        }
        so := so.Then(!Less(key, last) && d.value.ordered, d.value.known);
        val, last := val', key;
      }
    }

    /** A key and its value. */
    method DecPair(t: Type, val: seq<Entry>, last: bytes) returns (ok: bool, key: bytes, val': seq<Entry>)
      requires Valid() && HasTypeEntries(t, val) && Ordered(val)
      modifies this`rest, this`offset, this`unorderedKeysErr, this`unknownFieldsErr
      ensures Valid()
      ensures ok <==> DecodePair(t, val, old(rest)).Done?
      ensures ok ==>
                var spec := DecodePair(t, val, old(rest));
                offset == old(offset) + spec.n && spec.value.val == MapRound(key, val')
                && Noted(!Less(key, last) && spec.value.ordered, spec.value.known)
      decreases |rest|, 2
    {
      hide DecodeString, DecodeValue, HasType, HasTypeEntries, Ordered, Less, Zero, Put;
      ok, key, val' := false, [], val;
      var k := DecString();
      if k.None? {
        return;
      }
      key := k.value;
      CheckOrder(last, key);
      ghost var n := DecodeString(old(rest)).n;
      assert rest == old(rest)[n..];
      var v := Dec(t, Zero(t));
      if v.Some? {
        ok := true;
        val' := Put(val, key, v.value);
      }
    }

    /** The loop of decodeDict on a struct: fields are found through the index that wrapStruct2Map builds. */
    method DecFields(fields: seq<Field>, init: seq<FieldVal>) returns (r: Option<seq<FieldVal>>)
      requires Valid() && HasTypeFields(fields, init)
      modifies this`rest, this`offset, this`unorderedKeysErr, this`unknownFieldsErr
      ensures Valid()
      ensures r.Some? <==> DecodeFields(fields, init, [], old(rest)).Done?
      ensures r.Some? ==> Decoded(DecodeFields(fields, init, [], old(rest)), r.value)
      decreases |rest|, 4
    {
      hide DecodeFields, DecodeMember, HasTypeFields, Indexes, Less, Continues;
      var m := WrapStruct(init);
      var val, last := init, [];
      ghost var so, whole := Sofar(offset, true, true), DecodeFields(fields, init, [], rest);
      ContinuesAll(whole, offset);
      while true
        invariant Valid() && so.from == old(offset) <= offset && Noted(so.ordered, so.known)
        invariant HasTypeFields(fields, val) && Indexes(m, val)
        invariant Continues(whole, so, offset, DecodeFields(fields, val, last, rest))
        decreases |rest|
      {
        DecodeFieldsStep(whole, input, offset, so, fields, val, last);
        var step := Next(null, 0);
        if step != More {
          return if step == Closed then Some(val) else None;
        }
        ghost var d := DecodeMember(fields, val, rest);
        var ok, key, val' := DecMember(fields, m, val, last);
        if !ok {
          return None;
        }
        so := so.Then(!Less(key, last) && d.value.ordered, d.value.known);
        val, last := val', key;
      }
    }

    /** A key and its value: the value of a key without a field is passed over. */
    method DecMember(fields: seq<Field>, m: map<bytes, nat>, val: seq<FieldVal>, last: bytes)
        returns (ok: bool, key: bytes, val': seq<FieldVal>)
      requires Valid() && HasTypeFields(fields, val) && Indexes(m, val)
      modifies this`rest, this`offset, this`unorderedKeysErr, this`unknownFieldsErr
      ensures Valid()
      ensures ok <==> DecodeMember(fields, val, old(rest)).Done?
      ensures ok ==>
                var spec := DecodeMember(fields, val, old(rest));
                offset == old(offset) + spec.n && spec.value.val == Round(key, val') && Indexes(m, val')
                && Noted(!Less(key, last) && spec.value.ordered, spec.value.known)
      decreases |rest|, 2
    {
      hide DecodeString, DecodeValue, Scan, HasType, HasTypeFields, Less, Indexes, FieldIndex;
      ok, key, val' := false, [], val;
      var k := DecString();
      if k.None? {
        return;
      }
      key := k.value;
      CheckOrder(last, key);
      ghost var n := DecodeString(old(rest)).n;
      assert rest == old(rest)[n..];
      IndexesAt(m, val, key);
      if key !in m {
        if disallowUnknownFields && !unknownFieldsErr {
          unknownFieldsErr := true;
        }
        ok := ReadValueInto(null, 0);
      } else {
        var i := m[key];
        SameLength(fields, val);
        FieldTyped(fields, val, i);
        var v := Dec(val[i].field.typ, val[i].val);
        if v.Some? {
          ok := true;
          val' := val[i := FieldVal(val[i].field, v.value)];
          FieldSetTyped(fields, val, i, v.value);
          IndexesSame(m, val, val');
        }
      }
    }
  }

  function Note(err: bool, on: bool, fine: bool): bool {
    err || (on && !fine)
  }

  /** The elements of an array that have been decoded, and those that have not. */
  function Front(val: seq<Value>, i: nat): seq<Value> {
    if i < |val| then val[..i] else val
  }

  function Back(val: seq<Value>, i: nat): seq<Value> {
    if i < |val| then val[i..] else []
  }

  lemma BackFirst(t: Type, val: seq<Value>, i: nat)
    requires i < |val| && HasTypeItems(t, Back(val, i))
    ensures HasType(t, val[i])
  {
  }

  /** Element `i` of an array is decoded into its place; those beyond the end are passed over. */
  function DecodeElement(t: Type, val: seq<Value>, i: nat, s: bytes): (r: Parsed<Out<seq<Value>>>)
    requires HasTypeItems(t, Back(val, i))
    ensures r.Done? ==> 2 <= r.n <= |s|
  {
    if i < |val| then
      BackFirst(t, val, i);
      match DecodeValue(t, val[i], s)
      case Fail => Fail
      case Done(o, n) => Done(Out(val[i := o.val], o.ordered, o.known), n)
    else
      match Scan(s, false)
      case Fail => Fail
      case Done(_, n) => Done(Out(val, true, true), n)
  }

  /** The index from names to fields, later fields first. */
  ghost predicate Indexes(m: map<bytes, nat>, fs: seq<FieldVal>) {
    forall key: bytes :: if key in m then FieldIndex(fs, key) == Some(m[key]) else FieldIndex(fs, key).None?
  }

  lemma IndexesAt(m: map<bytes, nat>, fs: seq<FieldVal>, key: bytes)
    requires Indexes(m, fs)
    ensures if key in m then FieldIndex(fs, key) == Some(m[key]) else FieldIndex(fs, key).None?
    ensures key in m ==> m[key] < |fs|
  {
  }

  /** wrapStruct2Map on a flat struct: of two fields with one name the later stays. */
  method WrapStruct(fs: seq<FieldVal>) returns (m: map<bytes, nat>)
    ensures Indexes(m, fs)
  {
    m := map[];
    assert fs[..|fs|] == fs;
    for i := 0 to |fs|
      invariant Indexes(m, fs[..i])
    {
      assert fs[..i + 1][..i] == fs[..i];
      m := m[fs[i].field.name := i];
    }
  }

  lemma IndexesSame(m: map<bytes, nat>, fs: seq<FieldVal>, gs: seq<FieldVal>)
    requires Indexes(m, fs) && SameNames(fs, gs)
    ensures Indexes(m, gs)
  {
    forall key: bytes ensures FieldIndex(gs, key) == FieldIndex(fs, key) {
      FieldIndexSame(fs, gs, key);
    }
  }

  // ---------- the loops, one round at a time: how they end, or what remains ----------

  lemma DecodeItemsStep(whole: Parsed<Out<seq<Value>>>, input: bytes, p: nat, so: Sofar, front: seq<Value>, t: Type)
    requires so.from <= p <= |input| && Prepends(whole, front, so, p, DecodeItems(t, input[p..]))
    ensures p == |input| ==> whole.Fail?
    ensures p < |input| && input[p] == CH_E ==> whole == Done(Out(front, so.ordered, so.known), p + 1 - so.from)
    ensures p < |input| && input[p] != CH_E ==>
              var d := DecodeValue(t, Zero(t), input[p..]);
              if d.Fail? then whole.Fail? else
                p + d.n <= |input|
                && Prepends(whole, front + [d.value.val], so.Then(d.value.ordered, d.value.known), p + d.n,
                            DecodeItems(t, input[p + d.n..]))
  {
    hide DecodeItems, DecodeValue, HasType, HasTypeItems, Zero;
    var s := input[p..];
    DecodeItemsUnfold(t, s);
    assert front + [] == front;
    var a := DecodeValue(t, Zero(t), s);
    if a.Done? {
      assert s[a.n..] == input[p + a.n..];
      var d := DecodeItems(t, s[a.n..]);
      if d.Done? {
        Associative(front, [a.value.val], d.value.val);
      }
    }
  }

  lemma FrontBack(val: seq<Value>, i: nat, v: Value, b: seq<Value>)
    ensures i == 0 ==> Front(val, i) == [] && Back(val, i) == val
    ensures Front(val, i) + Back(val, i) == val
    ensures i < |val| ==>
              && Back(val, i) != [] && Back(val, i)[0] == val[i]
              && Back(val[i := v], i + 1) == Back(val, i)[1..]
              && Front(val, i) + ([v] + b) == Front(val[i := v], i + 1) + b
    ensures i >= |val| ==> Back(val, i) == Back(val, i + 1) == [] && Front(val, i) == Front(val, i + 1)
  {
  }

  lemma DecodeArrayWithin(whole: Parsed<Out<seq<Value>>>, input: bytes, p: nat, so: Sofar, val: seq<Value>, i: nat,
                          t: Type)
    requires so.from <= p <= |input| && i < |val| && HasTypeItems(t, Back(val, i))
    requires Prepends(whole, Front(val, i), so, p, DecodeArray(t, Back(val, i), input[p..]))
    ensures p == |input| ==> whole.Fail?
    ensures p < |input| && input[p] == CH_E ==> whole == Done(Out(val, so.ordered, so.known), p + 1 - so.from)
    ensures HasType(t, val[i])
    ensures p < |input| && input[p] != CH_E ==>
              var d := DecodeValue(t, val[i], input[p..]);
              if d.Fail? then whole.Fail? else
                var v := val[i := d.value.val];
                p + d.n <= |input| && HasTypeItems(t, Back(v, i + 1))
                && Prepends(whole, Front(v, i + 1), so.Then(d.value.ordered, d.value.known), p + d.n,
                            DecodeArray(t, Back(v, i + 1), input[p + d.n..]))
  {
    hide HasType, HasTypeItems, DecodeValue, DecodeArray, Front, Back;
    var s, back := input[p..], Back(val, i);
    FrontBack(val, i, VNil, []);
    DecodeArrayUnfold(t, back, s);
    var a := DecodeValue(t, back[0], s);
    if a.Done? {
      assert s[a.n..] == input[p + a.n..];
      var d := DecodeArray(t, back[1..], s[a.n..]);
      FrontBack(val, i, a.value.val, if d.Done? then d.value.val else []);
    }
  }

  /** The same behind the end of the array. */
  lemma DecodeArrayBeyond(whole: Parsed<Out<seq<Value>>>, input: bytes, p: nat, so: Sofar, val: seq<Value>, i: nat,
                          t: Type)
    requires so.from <= p <= |input| && i >= |val| && HasTypeItems(t, Back(val, i))
    requires Prepends(whole, Front(val, i), so, p, DecodeArray(t, Back(val, i), input[p..]))
    ensures p == |input| ==> whole.Fail?
    ensures p < |input| && input[p] == CH_E ==> whole == Done(Out(val, so.ordered, so.known), p + 1 - so.from)
    ensures p < |input| && input[p] != CH_E ==>
              var d := Scan(input[p..], false);
              if d.Fail? then whole.Fail? else
                p + d.n <= |input| && HasTypeItems(t, Back(val, i + 1))
                && Prepends(whole, Front(val, i + 1), so, p + d.n, DecodeArray(t, Back(val, i + 1), input[p + d.n..]))
  {
    hide HasTypeItems, DecodeArray, Scan, Front, Back;
    var s := input[p..];
    FrontBack(val, i, VNil, []);
    DecodeBeyondUnfold(t, s);
    var a := Scan(s, false);
    if a.Done? {
      assert s[a.n..] == input[p + a.n..];
    }
  }

  lemma DecodeArrayStep(whole: Parsed<Out<seq<Value>>>, input: bytes, p: nat, so: Sofar, val: seq<Value>, i: nat,
                        t: Type)
    requires so.from <= p <= |input| && HasTypeItems(t, Back(val, i))
    requires Prepends(whole, Front(val, i), so, p, DecodeArray(t, Back(val, i), input[p..]))
    ensures p == |input| ==> whole.Fail?
    ensures p < |input| && input[p] == CH_E ==> whole == Done(Out(val, so.ordered, so.known), p + 1 - so.from)
    ensures p < |input| && input[p] != CH_E ==>
              var d := DecodeElement(t, val, i, input[p..]);
              if d.Fail? then whole.Fail? else
                var v := d.value.val;
                p + d.n <= |input| && HasTypeItems(t, Back(v, i + 1))
                && Prepends(whole, Front(v, i + 1), so.Then(d.value.ordered, d.value.known), p + d.n,
                            DecodeArray(t, Back(v, i + 1), input[p + d.n..]))
  {
    hide HasType, HasTypeItems, DecodeValue, DecodeArray, Scan, Front, Back, Prepends;
    if i < |val| {
      DecodeArrayWithin(whole, input, p, so, val, i, t);
    } else {
      DecodeArrayBeyond(whole, input, p, so, val, i, t);
    }
  }

  lemma DecodePairsStep(whole: Parsed<Out<seq<Entry>>>, input: bytes, p: nat, so: Sofar, t: Type, es: seq<Entry>,
                        last: bytes)
    requires so.from <= p <= |input| && HasTypeEntries(t, es) && Ordered(es)
    requires Continues(whole, so, p, DecodePairs(t, es, last, input[p..]))
    ensures p == |input| ==> whole.Fail?
    ensures p < |input| && input[p] == CH_E ==> whole == Done(Out(es, so.ordered, so.known), p + 1 - so.from)
    ensures p < |input| && input[p] != CH_E ==>
              var d := DecodePair(t, es, input[p..]);
              if d.Fail? then whole.Fail? else
                p + d.n <= |input|
                && Continues(whole, so.Then(!Less(d.value.val.key, last) && d.value.ordered, d.value.known), p + d.n,
                             DecodePairs(t, d.value.val.es, d.value.val.key, input[p + d.n..]))
  {
    hide DecodePairs, DecodePair, HasTypeEntries, Ordered;
    DecodePairsUnfold(t, es, last, input[p..]);
    var d := DecodePair(t, es, input[p..]);
    if d.Done? {
      assert input[p..][d.n..] == input[p + d.n..];
    }
  }

  lemma DecodeFieldsStep(whole: Parsed<Out<seq<FieldVal>>>, input: bytes, p: nat, so: Sofar, fields: seq<Field>,
                         fs: seq<FieldVal>, last: bytes)
    requires so.from <= p <= |input| && HasTypeFields(fields, fs)
    requires Continues(whole, so, p, DecodeFields(fields, fs, last, input[p..]))
    ensures p == |input| ==> whole.Fail?
    ensures p < |input| && input[p] == CH_E ==> whole == Done(Out(fs, so.ordered, so.known), p + 1 - so.from)
    ensures p < |input| && input[p] != CH_E ==>
              var d := DecodeMember(fields, fs, input[p..]);
              if d.Fail? then whole.Fail? else
                p + d.n <= |input|
                && Continues(whole, so.Then(!Less(d.value.val.key, last) && d.value.ordered, d.value.known), p + d.n,
                             DecodeFields(fields, d.value.val.fs, d.value.val.key, input[p + d.n..]))
  {
    hide DecodeFields, DecodeMember, HasTypeFields;
    DecodeFieldsUnfold(fields, fs, last, input[p..]);
    var d := DecodeMember(fields, fs, input[p..]);
    if d.Done? {
      assert input[p..][d.n..] == input[p + d.n..];
    }
  }
}
