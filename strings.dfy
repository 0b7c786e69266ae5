/**
 * Models of the library routines main.go relies on: `strings.SplitN(s, "=", 2)`,
 * `strings.TrimSpace`, `strings.ToLower`, `strings.HasPrefix`, `strings.Join`,
 * `common.IsHexAddress` from go-ethereum, `strconv.Atoi`, and the `%d` verb of
 * `fmt`. Each is written from the library's documented behaviour.
 */
module Strings {
  import opened Options

  const MinInt64: int := -0x8000_0000_0000_0000
  const MaxInt64: int := 0x7FFF_FFFF_FFFF_FFFF

  type Uint64 = x: int | 0 <= x < 0x1_0000_0000_0000_0000
  type Int64 = x: int | MinInt64 <= x <= MaxInt64

  // ---------------------------------------------------------------- SplitN

  /**
   * `strings.SplitN(s, string(sep), 2)`: the text before the first `sep` and
   * everything after it, or None (a one-element result) when `sep` does not occur.
   */
  function SplitFirst(s: string, sep: char): Option<(string, string)> {
    if s == [] then None
    else if s[0] == sep then Some(([], s[1..]))
    else
      match SplitFirst(s[1..], sep)
      case None => None
      case Some((key, rest)) => Some(([s[0]] + key, rest))
  }

  /** There is a split exactly when `sep` occurs; it puts back together to `s`, and its left part holds no `sep`. */
  lemma {:induction false} SplitFirstSpec(s: string, sep: char)
    ensures SplitFirst(s, sep).None? <==> sep !in s
    ensures SplitFirst(s, sep).Some? ==>
      s == SplitFirst(s, sep).value.0 + [sep] + SplitFirst(s, sep).value.1 && sep !in SplitFirst(s, sep).value.0
  {
    if s != [] && s[0] != sep {
      SplitFirstSpec(s[1..], sep);
      assert s == [s[0]] + s[1..];
    }
  }

  /** Splitting happens at the FIRST separator only: the right part may hold more of them. */
  lemma {:induction false} SplitFirstAt(key: string, rest: string, sep: char)
    requires sep !in key
    ensures SplitFirst(key + [sep] + rest, sep) == Some((key, rest))
  {
    if key != [] {
      assert (key + [sep] + rest)[1..] == key[1..] + [sep] + rest;
      assert key[0] in key;
      SplitFirstAt(key[1..], rest, sep);
      assert [key[0]] + key[1..] == key;
    } else {
      assert (key + [sep] + rest)[1..] == rest;
    }
  }

  // ---------------------------------------------------------------- TrimSpace

  /** `unicode.IsSpace`: the Latin-1 spaces and the other Unicode White_Space characters. */
  predicate IsSpace(c: char) {
    c == '\t' || c == '\n' || c == '\U{0B}' || c == '\U{0C}' || c == '\r' || c == ' '
    || c == '\U{85}' || c == '\U{A0}' || c == '\U{1680}'
    || ('\U{2000}' <= c <= '\U{200A}')
    || c == '\U{2028}' || c == '\U{2029}' || c == '\U{202F}' || c == '\U{205F}' || c == '\U{3000}'
  }

  /** Drops the leading white space of `s`. */
  function TrimLeft(s: string): string {
    if s != [] && IsSpace(s[0]) then TrimLeft(s[1..]) else s
  }

  /** Drops the trailing white space of `s`. */
  function TrimRight(s: string): string {
    if s != [] && IsSpace(s[|s| - 1]) then TrimRight(s[..|s| - 1]) else s
  }

  /** `strings.TrimSpace`. */
  function TrimSpace(s: string): string {
    TrimRight(TrimLeft(s))
  }

  /** TrimLeft removes a prefix made of white space and nothing more. */
  lemma {:induction false} TrimLeftSpec(s: string)
    ensures |TrimLeft(s)| <= |s| && TrimLeft(s) == s[|s| - |TrimLeft(s)|..]
    ensures forall k :: 0 <= k < |s| - |TrimLeft(s)| ==> IsSpace(s[k])
    ensures TrimLeft(s) != [] ==> !IsSpace(TrimLeft(s)[0])
  {
    if s != [] && IsSpace(s[0]) {
      var t := s[1..];
      TrimLeftSpec(t);
      assert TrimLeft(s) == TrimLeft(t);
      assert t[|t| - |TrimLeft(t)|..] == s[|s| - |TrimLeft(s)|..];
      forall k | 0 <= k < |s| - |TrimLeft(s)| ensures IsSpace(s[k]) {
        if k > 0 {
          assert s[k] == t[k - 1];
        }
      }
    }
  }

  /** TrimRight removes a suffix made of white space and nothing more. */
  lemma {:induction false} TrimRightSpec(s: string)
    ensures |TrimRight(s)| <= |s| && TrimRight(s) == s[..|TrimRight(s)|]
    ensures forall k :: |TrimRight(s)| <= k < |s| ==> IsSpace(s[k])
    ensures TrimRight(s) != [] ==> !IsSpace(TrimRight(s)[|TrimRight(s)| - 1])
  {
    if s != [] && IsSpace(s[|s| - 1]) {
      TrimRightSpec(s[..|s| - 1]);
    }
  }

  /**
   * TrimSpace leaves the slice `s[i..j]` of `s` such that everything outside
   * it is white space and it neither starts nor ends with white space.
   */
  lemma TrimSpaceSpec(s: string)
    ensures exists i, j ::
      && 0 <= i <= j <= |s| && TrimSpace(s) == s[i..j]
      && (forall k :: 0 <= k < i ==> IsSpace(s[k]))
      && (forall k :: j <= k < |s| ==> IsSpace(s[k]))
    ensures TrimSpace(s) != [] ==> !IsSpace(TrimSpace(s)[0]) && !IsSpace(TrimSpace(s)[|TrimSpace(s)| - 1])
  {
    var l := TrimLeft(s);
    TrimLeftSpec(s);
    TrimRightSpec(l);
    var r := TrimRight(l);
    var i := |s| - |l|;
    var j := i + |r|;
    assert r == s[i..j];
    forall k | j <= k < |s| ensures IsSpace(s[k]) {
      assert s[k] == l[k - i];
    }
    if r != [] {
      assert r[0] == l[0];
    }
  }

  // ---------------------------------------------------------------- ToLower, HasPrefix

  /** Lower-cases one ASCII letter; every other character is left alone. */
  function LowerChar(c: char): char {
    if 'A' <= c <= 'Z' then (c as int - 'A' as int + 'a' as int) as char else c
  }

  /** `strings.ToLower`, restricted to ASCII letters: one character in, one out. */
  function ToLower(s: string): (r: string)
    ensures |r| == |s|
  {
    seq(|s|, i requires 0 <= i < |s| => LowerChar(s[i]))
  }

  /** `s` starts with `p` when both are lower-cased, compared one character at a time. */
  predicate HasPrefixFold(s: string, p: string)
    ensures HasPrefixFold(s, p) ==> |p| <= |s|
  {
    p == [] || (s != [] && LowerChar(s[0]) == LowerChar(p[0]) && HasPrefixFold(s[1..], p[1..]))
  }

  /**
   * The character-wise test is `strings.HasPrefix(strings.ToLower(s),
   * strings.ToLower(p))`, and it needs `s` at least as long as `p`.
   */
  lemma {:induction false} HasPrefixFoldLower(s: string, p: string)
    ensures HasPrefixFold(s, p) <==> ToLower(p) <= ToLower(s)
  {
    if p != [] && s != [] {
      HasPrefixFoldLower(s[1..], p[1..]);
      var ls, lp := ToLower(s), ToLower(p);
      assert ls == [LowerChar(s[0])] + ToLower(s[1..]);
      assert lp == [LowerChar(p[0])] + ToLower(p[1..]);
      if lp <= ls {
        assert lp[0] == ls[0] && lp[1..] <= ls[1..];
      }
      if HasPrefixFold(s, p) {
        assert forall k :: 0 <= k < |lp| ==> lp[k] == ls[k] by {
          forall k | 0 <= k < |lp| ensures lp[k] == ls[k] {
            if k > 0 {
              assert lp[k] == ToLower(p[1..])[k - 1] && ls[k] == ToLower(s[1..])[k - 1];
            }
          }
        }
      }
    }
  }

  // ---------------------------------------------------------------- IsHexAddress

  /** Byte length of an address (`common.AddressLength`). */
  const AddressLength: nat := 20

  predicate Has0xPrefix(s: string) {
    |s| >= 2 && s[0] == '0' && (s[1] == 'x' || s[1] == 'X')
  }

  predicate IsHexChar(c: char) {
    ('0' <= c <= '9') || ('a' <= c <= 'f') || ('A' <= c <= 'F')
  }

  /** Every character of `s` is a hex digit. */
  predicate AllHex(s: string) {
    s == [] || (IsHexChar(s[0]) && AllHex(s[1..]))
  }

  predicate IsHex(s: string) {
    |s| % 2 == 0 && AllHex(s)
  }

  /** `common.IsHexAddress`: an optional `0x`/`0X` followed by exactly 40 hex digits. */
  predicate IsHexAddress(s: string) {
    var digits := if Has0xPrefix(s) then s[2..] else s;
    |digits| == 2 * AddressLength && IsHex(digits)
  }

  /** Hex digits are never white space, so trimming leaves them as they are. */
  lemma {:induction false} AllHexIsTrimmed(s: string)
    requires AllHex(s)
    ensures TrimLeft(s) == s && TrimRight(s) == s
  {
    if s != [] {
      AllHexLast(s);
      assert !IsSpace(s[0]) && !IsSpace(s[|s| - 1]);
    }
  }

  lemma {:induction false} AllHexLast(s: string)
    requires AllHex(s) && s != []
    ensures IsHexChar(s[|s| - 1])
  {
    if |s| > 1 {
      AllHexLast(s[1..]);
    }
  }

  /** A hex address holds no white space, so trimming leaves it as it is. */
  lemma HexAddressIsTrimmed(s: string)
    requires IsHexAddress(s)
    ensures TrimSpace(s) == s
  {
    if Has0xPrefix(s) {
      AllHexLast(s[2..]);
      assert s[|s| - 1] == s[2..][|s| - 3];
    } else {
      AllHexIsTrimmed(s);
    }
  }

  // ---------------------------------------------------------------- %d and Atoi

  predicate IsDigit(c: char) { '0' <= c <= '9' }

  predicate AllDigits(s: string) { forall i :: 0 <= i < |s| ==> IsDigit(s[i]) }

  function DigitChar(d: nat): char
    requires d < 10
  {
    ('0' as int + d) as char
  }

  /** The decimal digits of `n`, most significant first, without leading zeros. */
  function Digits(n: nat): (r: string)
    ensures |r| >= 1 && AllDigits(r)
    ensures r[0] == '0' ==> n == 0
  {
    if n < 10 then [DigitChar(n)] else Digits(n / 10) + [DigitChar(n % 10)]
  }

  /** `fmt`'s `%d` (and `%v`) of an integer: a minus sign for negatives, then the digits. */
  function Decimal(n: int): string {
    if n < 0 then "-" + Digits(-n) else Digits(n)
  }

  /** The number a string of decimal digits denotes. */
  function DigitsValue(s: string): nat
    requires AllDigits(s)
  {
    if s == [] then 0 else DigitsValue(s[..|s| - 1]) * 10 + (s[|s| - 1] as int - '0' as int)
  }

  lemma {:induction false} DigitsValueOfDigits(n: nat)
    ensures DigitsValue(Digits(n)) == n
  {
    if n >= 10 {
      var s := Digits(n);
      assert s[..|s| - 1] == Digits(n / 10);
      DigitsValueOfDigits(n / 10);
    }
  }

  /**
   * `strconv.Atoi` on a 64-bit platform: an optional sign and one or more
   * decimal digits whose value fits in 64 bits; anything else is an error.
   */
  function Atoi(s: string): (r: Option<int>)
    ensures r.Some? ==> s != [] && MinInt64 <= r.value <= MaxInt64
  {
    var signed := |s| > 0 && (s[0] == '-' || s[0] == '+');
    var body := if signed then s[1..] else s;
    if body == [] || !AllDigits(body) then None
    else
      var v: int := if signed && s[0] == '-' then -(DigitsValue(body) as int) else DigitsValue(body);
      if MinInt64 <= v <= MaxInt64 then Some(v) else None
  }

  /** Atoi reads back every 64-bit integer that `%d` prints. */
  lemma AtoiDecimal(n: int)
    requires MinInt64 <= n <= MaxInt64
    ensures Atoi(Decimal(n)) == Some(n)
  {
    var d := Decimal(n);
    if n < 0 {
      assert d == "-" + Digits(-n) && d[0] == '-';
      assert d[1..] == Digits(-n);
      DigitsValueOfDigits(-n);
    } else {
      assert d == Digits(n) && IsDigit(d[0]);
      DigitsValueOfDigits(n);
    }
  }

  // ---------------------------------------------------------------- Join

  /** `strings.Join(lines, sep)`. */
  function Join(lines: seq<string>, sep: string): string {
    if lines == [] then ""
    else if |lines| == 1 then lines[0]
    else Join(lines[..|lines| - 1], sep) + sep + lines[|lines| - 1]
  }
}
