/** Bytes, byte strings, their order, and the outcome of reading a prefix of an input. */
module Bytes {

  type byte = b: int | 0 <= b < 256
  type bytes = seq<byte>

  const PLUS: byte := 43    // '+'
  const MINUS: byte := 45   // '-'
  const ZERO: byte := 48    // '0'
  const COLON: byte := 58   // ':'
  const CH_D: byte := 100   // 'd'
  const CH_E: byte := 101   // 'e'
  const CH_I: byte := 105   // 'i'
  const CH_L: byte := 108   // 'l'

  /** A text, written as the bytes of its ASCII characters. */
  function Ascii(s: string): (b: bytes)
    ensures |b| == |s|
  {
    seq(|s|, i requires 0 <= i < |s| => s[i] as int % 256)
  }

  predicate IsDigit(b: byte) {
    48 <= b <= 57
  }

  datatype Option<+T> = None | Some(value: T)

  /** A reader either fails or yields a value together with the number of bytes it took. */
  datatype Parsed<+T> = Fail | Done(value: T, n: nat)

  /** The position of the first `c` in `s`, or the length of `s` when there is none. */
  function Find(s: bytes, c: byte): (i: nat)
    ensures i <= |s|
    ensures forall j | 0 <= j < i :: s[j] != c
    ensures i < |s| ==> s[i] == c
  {
    if s == [] || s[0] == c then 0 else 1 + Find(s[1..], c)
  }

  /** The text in front of the first `delim`; the delimiter is taken too. */
  function Line(s: bytes, delim: byte): (r: Parsed<bytes>)
    ensures r.Done? ==> 1 <= r.n <= |s| && r.n == |r.value| + 1
    ensures r.Done? ==> s[..r.n] == r.value + [delim] && delim !in r.value
  {
    var i := Find(s, delim);
    if i < |s| then Done(s[..i], i + 1) else Fail
  }

  lemma FindIs(s: bytes, c: byte, i: nat)
    requires i < |s| && s[i] == c && c !in s[..i]
    ensures Find(s, c) == i
  {
    assert forall j | 0 <= j < i :: s[j] == s[..i][j];
  }

  /** What follows the delimiter has no influence on the line. */
  lemma LineIs(line: bytes, delim: byte, rest: bytes)
    requires delim !in line
    ensures Line(line + [delim] + rest, delim) == Done(line, |line| + 1)
  {
    var s := line + [delim] + rest;
    assert s[..|line|] == line;
    FindIs(s, delim, |line|);
  }

  lemma TakeTwice(s: bytes, n: nat, m: nat)
    requires n + m <= |s|
    ensures s[..n + m] == s[..n] + s[n..][..m]
  {
  }

  lemma Associative<T>(a: seq<T>, b: seq<T>, c: seq<T>)
    ensures a + b + c == a + (b + c)
  {
  }

  lemma DropFirst(a: bytes, b: bytes)
    ensures (a + b)[|a|..] == b && (a + b)[..|a|] == a
  {
  }

  /** The byte order of Go strings. */
  predicate Less(a: bytes, b: bytes) {
    b != [] && (a == [] || a[0] < b[0] || (a[0] == b[0] && Less(a[1..], b[1..])))
  }

  /** `k` is where `a` ends or has the smaller byte, behind a common beginning. */
  predicate LessAt(a: bytes, b: bytes, k: nat) {
    k <= |a| && k < |b| && a[..k] == b[..k] && (k == |a| || a[k] < b[k])
  }

  lemma SameBeginning(a: bytes, b: bytes, k: nat)
    requires LessAt(a, b, k)
    ensures k > 0 ==> a[0] == b[0]
  {
    if k > 0 {
      assert a[..k][0] == b[..k][0];
    }
  }

  lemma {:induction false} LessExactly(a: bytes, b: bytes)
    ensures Less(a, b) <==> exists k: nat :: LessAt(a, b, k)
  {
    if b == [] || a == [] || a[0] != b[0] {
      if Less(a, b) {
        assert LessAt(a, b, 0);
      } else if k: nat :| LessAt(a, b, k) {
        SameBeginning(a, b, k);
      }
    } else {
      LessExactly(a[1..], b[1..]);
      if Less(a, b) {
        var k: nat :| LessAt(a[1..], b[1..], k);
        assert a[..k + 1] == [a[0]] + a[1..][..k] && b[..k + 1] == [b[0]] + b[1..][..k];
        assert LessAt(a, b, k + 1);
      } else if k: nat :| LessAt(a, b, k) {
        assert k > 0;
        assert a[1..][..k - 1] == a[..k][1..] && b[1..][..k - 1] == b[..k][1..];
        assert LessAt(a[1..], b[1..], k - 1);
      }
    }
  }

  lemma {:induction false} LessIrreflexive(a: bytes)
    ensures !Less(a, a)
  {
    if a == [] {
    } else {
      LessIrreflexive(a[1..]);
    }
  }

  lemma {:induction false} LessTransitive(a: bytes, b: bytes, c: bytes)
    requires Less(a, b) && Less(b, c)
    ensures Less(a, c)
  {
    if a != [] && a[0] == b[0] == c[0] {
      LessTransitive(a[1..], b[1..], c[1..]);
    }
  }

  lemma {:induction false} LessTotal(a: bytes, b: bytes)
    ensures a == b || Less(a, b) || Less(b, a)
  {
    if a != [] && b != [] && a[0] == b[0] {
      LessTotal(a[1..], b[1..]);
      assert a == [a[0]] + a[1..] && b == [b[0]] + b[1..];
    }
  }

  lemma LessAsymmetric(a: bytes, b: bytes)
    requires Less(a, b)
    ensures !Less(b, a)
  {
    if Less(b, a) {
      LessTransitive(a, b, a);
      LessIrreflexive(a);
    }
  }
}
