/** Decimal numerals as `strconv` reads them and as `%d` prints them. */
module Numerals {
  import opened Bytes

  const HALF32: int := 0x8000_0000
  const HALF64: int := 0x8000_0000_0000_0000

  datatype Status = Ok | Syntax | Range

  /** Like strconv, a number comes back with every error: 0 for bad syntax, the nearest bound when out of range. */
  datatype Num = Num(value: int, status: Status)

  /** The digit loop of ParseUint. The first offending byte decides between the two errors. */
  function ParseDigits(s: bytes, acc: nat, max: nat): (r: Num)
    ensures r.value >= 0
    ensures r.status.Range? ==> r.value == max
  {
    if s == [] then Num(acc, Ok)
    else if !IsDigit(s[0]) then Num(0, Syntax)
    else if acc * 10 + (s[0] - 48) > max then Num(max, Range)
    else ParseDigits(s[1..], acc * 10 + (s[0] - 48), max)
  }

  /** strconv.ParseUint(s, 10, bits) with max == 2^bits - 1. */
  function ParseUint(s: bytes, max: nat): (r: Num)
    ensures r.value >= 0
    ensures r.status.Range? ==> r.value == max
  {
    if s == [] then Num(0, Syntax) else ParseDigits(s, 0, max)
  }

  /** strconv.ParseInt(s, 10, bits) with half == 2^(bits-1). */
  function ParseInt(s: bytes, half: int): Num
    requires half > 1
  {
    if s == [] then Num(0, Syntax)
    else
      var neg := s[0] == MINUS;
      var u := ParseUint(if neg || s[0] == PLUS then s[1..] else s, 2 * half - 1);
      if u.status.Syntax? then Num(0, Syntax)
      else if !neg && u.value >= half then Num(half - 1, Range)
      else if neg && u.value > half then Num(-half, Range)
      else Num(if neg then -u.value else u.value, Ok)
  }

  function Digits(n: nat): (s: bytes)
    ensures |s| >= 1
    ensures forall j | 0 <= j < |s| :: IsDigit(s[j])
  {
    if n < 10 then [48 + n] else Digits(n / 10) + [48 + n % 10]
  }

  /** What `%d` prints. */
  function FormatInt(i: int): (s: bytes)
    ensures |s| >= 1
    ensures forall j | 0 <= j < |s| :: IsDigit(s[j]) || s[j] == MINUS
  {
    if i < 0 then [MINUS] + Digits(-i) else Digits(i)
  }

  /** No leading zero. */
  predicate CanonicalNat(s: bytes) {
    |s| >= 1 && (forall j | 0 <= j < |s| :: IsDigit(s[j])) && (|s| == 1 || s[0] != ZERO)
  }

  /** No plus sign, no leading zero, no negative zero. */
  predicate CanonicalInt(s: bytes) {
    CanonicalNat(s) || (|s| >= 2 && s[0] == MINUS && CanonicalNat(s[1..]) && s[1] != ZERO)
  }

  // ---------- reading back what was printed ----------

  lemma {:induction false} ParseDigitsOfDigits(n: nat, rest: bytes, max: nat)
    requires n <= max
    ensures ParseDigits(Digits(n) + rest, 0, max) == ParseDigits(rest, n, max)
  {
    if n < 10 {
      assert (Digits(n) + rest)[1..] == rest;
    } else {
      var d := [48 + n % 10];
      assert Digits(n) + rest == Digits(n / 10) + (d + rest);
      ParseDigitsOfDigits(n / 10, d + rest, max);
      assert (d + rest)[1..] == rest;
    }
  }

  lemma ParseUintDigits(n: nat, max: nat)
    requires n <= max
    ensures ParseUint(Digits(n), max) == Num(n, Ok)
  {
    ParseDigitsOfDigits(n, [], max);
    assert Digits(n) + [] == Digits(n);
  }

  lemma ParseIntFormatInt(i: int, half: int)
    requires half > 1 && -half <= i < half
    ensures ParseInt(FormatInt(i), half) == Num(i, Ok)
  {
    var s := FormatInt(i);
    ParseUintDigits(if i < 0 then -i else i, 2 * half - 1);
    if i < 0 {
      assert s[1..] == Digits(-i);
    } else {
      assert IsDigit(s[0]);
    }
  }

  // ---------- printing back what was read ----------

  /** The number written by the digits `s` behind the number `acc`, read from the last digit. */
  function ValueFrom(acc: nat, s: bytes): nat
    requires forall j | 0 <= j < |s| :: IsDigit(s[j])
  {
    if s == [] then acc
    else
      assert IsDigit(s[|s| - 1]);
      ValueFrom(acc, s[..|s| - 1]) * 10 + (s[|s| - 1] - 48)
  }

  lemma {:induction false} ValueFromFirst(acc: nat, s: bytes)
    requires s != [] && forall j | 0 <= j < |s| :: IsDigit(s[j])
    ensures ValueFrom(acc, s) == ValueFrom(acc * 10 + (s[0] - 48), s[1..])
  {
    if |s| > 1 {
      ValueFromFirst(acc, s[..|s| - 1]);
      assert s[..|s| - 1][1..] == s[1..][..|s| - 2];
    }
  }

  lemma {:induction false} ParseDigitsValue(s: bytes, acc: nat, max: nat)
    requires ParseDigits(s, acc, max).status.Ok?
    ensures forall j | 0 <= j < |s| :: IsDigit(s[j])
    ensures ParseDigits(s, acc, max).value == ValueFrom(acc, s)
    ensures acc <= max ==> ValueFrom(acc, s) <= max
  {
    if s == [] {
    } else {
      ParseDigitsValue(s[1..], acc * 10 + (s[0] - 48), max);
      assert s == [s[0]] + s[1..];
      ValueFromFirst(acc, s);
    }
  }

  lemma {:induction false} DigitsShorter(s: bytes)
    requires s != [] && forall j | 0 <= j < |s| :: IsDigit(s[j])
    ensures |Digits(ValueFrom(0, s))| <= |s|
  {
    if |s| > 1 {
      DigitsShorter(s[..|s| - 1]);
    }
  }

  lemma {:induction false} DigitsOfCanonical(s: bytes)
    requires CanonicalNat(s)
    ensures Digits(ValueFrom(0, s)) == s
    ensures s[0] != ZERO ==> ValueFrom(0, s) > 0
  {
    var init := s[..|s| - 1];
    if |s| > 1 {
      DigitsOfCanonical(init);
      assert s == init + [s[|s| - 1]];
    }
  }

  lemma {:induction false} DigitsCanonical(n: nat)
    ensures CanonicalNat(Digits(n)) && (n > 0 ==> Digits(n)[0] != ZERO)
  {
    if n >= 10 {
      DigitsCanonical(n / 10);
    }
  }

  lemma FormatIntCanonical(i: int)
    ensures CanonicalInt(FormatInt(i))
  {
    DigitsCanonical(if i < 0 then -i else i);
    if i < 0 {
      assert FormatInt(i)[1..] == Digits(-i);
    }
  }

  /** Printing the number read gives the numeral back exactly when the numeral is canonical, and never a longer one. */
  lemma FormatIntParseInt(s: bytes, half: int)
    requires half > 1 && ParseInt(s, half).status.Ok?
    ensures -half <= ParseInt(s, half).value < half
    ensures FormatInt(ParseInt(s, half).value) == s <==> CanonicalInt(s)
    ensures |FormatInt(ParseInt(s, half).value)| <= |s|
  {
    var v := ParseInt(s, half).value;
    var neg := s[0] == MINUS;
    var ds := if neg || s[0] == PLUS then s[1..] else s;
    ParseDigitsValue(ds, 0, 2 * half - 1);
    DigitsShorter(ds);
    FormatIntCanonical(v);
    if CanonicalInt(s) {
      assert !IsDigit(MINUS) && !IsDigit(PLUS);
      DigitsOfCanonical(ds);
      if neg {
        assert s == [MINUS] + ds;
      }
    }
  }

  lemma {:induction false} ParseDigitsWider(s: bytes, acc: nat, max: nat, wide: nat)
    requires max <= wide && ParseDigits(s, acc, max).status.Ok?
    ensures ParseDigits(s, acc, wide) == ParseDigits(s, acc, max)
  {
    if s == [] {
    } else {
      ParseDigitsWider(s[1..], acc * 10 + (s[0] - 48), max, wide);
    }
  }

  /** A numeral that fits the narrow width denotes the same number at the wide one. */
  lemma ParseIntWider(s: bytes, half: int, wide: int)
    requires 1 < half <= wide && ParseInt(s, half).status.Ok?
    ensures ParseInt(s, wide) == ParseInt(s, half)
  {
    var ds := if s[0] == MINUS || s[0] == PLUS then s[1..] else s;
    ParseDigitsWider(ds, 0, 2 * half - 1, 2 * wide - 1);
  }

  // ---------- what numerals denote ----------

  predicate AllDigits(s: bytes) {
    forall j | 0 <= j < |s| :: 48 <= s[j] <= 57
  }

  lemma {:induction false} ValueFromGrows(acc: nat, s: bytes)
    requires AllDigits(s)
    ensures ValueFrom(acc, s) >= acc
  {
    if s == [] {
    } else {
      ValueFromGrows(acc, s[..|s| - 1]);
    }
  }

  lemma {:induction false} ParseDigitsExactly(s: bytes, acc: nat, max: nat)
    requires acc <= max
    ensures ParseDigits(s, acc, max).status.Ok? <==> AllDigits(s) && ValueFrom(acc, s) <= max
    ensures AllDigits(s) && ValueFrom(acc, s) > max ==> ParseDigits(s, acc, max) == Num(max, Range)
    ensures ParseDigits(s, acc, max).status.Ok? ==> ParseDigits(s, acc, max).value == ValueFrom(acc, s)
  {
    if s == [] {
    } else if IsDigit(s[0]) {
      assert AllDigits(s) <==> AllDigits(s[1..]) by {
        assert s == [s[0]] + s[1..];
      }
      var next: nat := acc * 10 + (s[0] - 48);
      if AllDigits(s) {
        ValueFromFirst(acc, s);
        ValueFromGrows(next, s[1..]);
      }
      if next <= max {
        ParseDigitsExactly(s[1..], next, max);
      }
    }
  }

  /** ParseUint takes digits, at least one, whose number in base ten fits. */
  lemma ParseUintExactly(s: bytes, max: nat)
    ensures ParseUint(s, max).status.Ok? <==> s != [] && AllDigits(s) && ValueFrom(0, s) <= max
    ensures ParseUint(s, max).status.Ok? ==> ParseUint(s, max).value == ValueFrom(0, s)
  {
    ParseDigitsExactly(s, 0, max);
  }

  /** What stands behind a sign, `+` or `-`, if there is one. */
  function Unsigned(s: bytes): bytes {
    if s != [] && (s[0] == 43 || s[0] == 45) then s[1..] else s
  }

  /**
   * ParseInt takes digits, at least one, behind at most one sign; they are read in base ten, leading zeros
   * included, and `-` and nothing else makes the number negative.
   */
  lemma ParseIntExactly(s: bytes, half: int)
    requires half > 1
    ensures ParseInt(s, half).status.Ok? <==>
            var ds := Unsigned(s);
            ds != [] && AllDigits(ds) && (if s[0] == 45 then ValueFrom(0, ds) <= half else ValueFrom(0, ds) < half)
    ensures ParseInt(s, half).status.Ok? ==>
              var n: int := ValueFrom(0, Unsigned(s)); ParseInt(s, half).value == if s[0] == 45 then -n else n
    ensures Unsigned(s) != [] && AllDigits(Unsigned(s)) && !ParseInt(s, half).status.Ok? ==>
              ParseInt(s, half) == Num(if s[0] == 45 then -half else half - 1, Range)
  {
    ParseDigitsExactly(Unsigned(s), 0, 2 * half - 1);
  }

  function Zeros(k: nat): (z: bytes)
    ensures |z| == k && forall j | 0 <= j < k :: z[j] == 48
  {
    seq(k, _ => 48)
  }

  lemma {:induction false} ValueBehindZeros(k: nat, ds: bytes)
    requires AllDigits(ds)
    ensures AllDigits(Zeros(k) + ds) && ValueFrom(0, Zeros(k) + ds) == ValueFrom(0, ds)
  {
    var s := Zeros(k) + ds;
    if k == 0 {
      assert s == ds;
    } else {
      assert s[1..] == Zeros(k - 1) + ds;
      ValueFromFirst(0, s);
      ValueBehindZeros(k - 1, ds);
    }
  }

  lemma {:induction false} ValueOfDigits(n: nat)
    ensures ValueFrom(0, Digits(n)) == n
  {
    if n < 10 {
      assert Digits(n)[..0] == [];
    } else {
      ValueOfDigits(n / 10);
      assert Digits(n)[..|Digits(n)| - 1] == Digits(n / 10);
    }
  }

  lemma DigitsUnsigned(ds: bytes)
    requires ds != [] && AllDigits(ds)
    ensures Unsigned([43] + ds) == Unsigned([45] + ds) == Unsigned(ds) == ds
    ensures ([43] + ds)[0] == 43 && ([45] + ds)[0] == 45 && ds[0] != 45
  {
    assert 48 <= ds[0] <= 57;
    assert ([43] + ds)[1..] == ds && ([45] + ds)[1..] == ds;
  }

  /** A plus sign and zeros in front of a number do not change it, and a minus sign negates it. */
  lemma SignsAndZeros(k: nat, n: int, half: int)
    requires 1 < half && 0 <= n < half
    ensures ParseInt([43] + (Zeros(k) + Digits(n)), half) == Num(n, Ok)
    ensures ParseInt([45] + (Zeros(k) + Digits(n)), half) == Num(-n, Ok)
    ensures ParseInt(Zeros(k) + Digits(n), half) == Num(n, Ok)
  {
    hide ParseInt, Digits, ValueFrom, Unsigned, AllDigits, Zeros;
    var ds := Zeros(k) + Digits(n);
    DigitsAre(n);
    ValueBehindZeros(k, Digits(n));
    ValueOfDigits(n);
    DigitsUnsigned(ds);
    ParseIntExactly([43] + ds, half);
    ParseIntExactly([45] + ds, half);
    ParseIntExactly(ds, half);
  }

  lemma DigitsAre(n: nat)
    ensures AllDigits(Digits(n)) && Digits(n) != []
  {
  }
}
