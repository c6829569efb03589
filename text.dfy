/** The parts of Rust's string library the program leans on: `str::split`
    with a one-character pattern, `join`, `str::replace` of a one-character
    string by nothing, `to_string` of integers and `str::parse` of `i32`
    and `u128`. */
module Text {
  import opened Wrappers

  const I32_MIN: int := -0x8000_0000
  const I32_LIMIT: int := 0x8000_0000
  const U128_LIMIT: int := 0x1_0000_0000_0000_0000_0000_0000_0000_0000

  type i32 = x: int | I32_MIN <= x < I32_LIMIT
  type u128 = x: int | 0 <= x < U128_LIMIT

  // ---------------------------------------------------------------------
  // Splitting and joining on one character

  /** `s.split(d)`: the pieces between occurrences of `d`; never empty. */
  function Split(s: string, d: char): (parts: seq<string>)
    ensures |parts| >= 1
    decreases |s|
  {
    if |s| == 0 then [""]
    else if s[0] == d then [""] + Split(s[1..], d)
    else
      var rest := Split(s[1..], d);
      [[s[0]] + rest[0]] + rest[1..]
  }

  /** `parts.join(d)` for a non-empty list of pieces. */
  function Join(parts: seq<string>, d: char): string
    requires |parts| >= 1
  {
    if |parts| == 1 then parts[0] else parts[0] + [d] + Join(parts[1..], d)
  }

  /** `parts.join(d)` as Rust defines it on any list: the empty list joins
      to "", and splitting the text of separator-free pieces on `d` gives
      the pieces back. */
  function JoinAll(parts: seq<string>, d: char): (s: string)
    ensures |parts| == 0 ==> s == ""
    ensures |parts| >= 1 ==> s == Join(parts, d)
    ensures |parts| >= 1 && (forall k :: 0 <= k < |parts| ==> d !in parts[k]) ==> Split(s, d) == parts
  {
    if |parts| == 0 then ""
    else
      SplitJoinFree(parts, d);
      Join(parts, d)
  }

  lemma SplitJoinFree(parts: seq<string>, d: char)
    requires |parts| >= 1
    ensures (forall k :: 0 <= k < |parts| ==> d !in parts[k]) ==> Split(Join(parts, d), d) == parts
  {
    if forall k :: 0 <= k < |parts| ==> d !in parts[k] {
      SplitJoin(parts, d);
    }
  }

  lemma {:induction false} SplitWithout(s: string, d: char)
    requires d !in s
    ensures Split(s, d) == [s]
    decreases |s|
  {
    if |s| > 0 {
      SplitWithout(s[1..], d);
      assert [s[0]] + s[1..] == s;
    }
  }

  lemma {:induction false} SplitAfterPiece(p: string, rest: string, d: char)
    requires d !in p
    ensures Split(p + [d] + rest, d) == [p] + Split(rest, d)
    decreases |p|
  {
    if |p| == 0 {
      assert p + [d] + rest == [d] + rest;
      assert ([d] + rest)[1..] == rest;
    } else {
      var s := p + [d] + rest;
      assert s[1..] == p[1..] + [d] + rest;
      SplitAfterPiece(p[1..], rest, d);
      assert [p[0]] + p[1..] == p;
    }
  }

  /** Splitting a join recovers the pieces when no piece holds the delimiter. */
  lemma {:induction false} SplitJoin(parts: seq<string>, d: char)
    requires |parts| >= 1
    requires forall k :: 0 <= k < |parts| ==> d !in parts[k]
    ensures Split(Join(parts, d), d) == parts
    decreases |parts|
  {
    if |parts| == 1 {
      SplitWithout(parts[0], d);
    } else {
      SplitJoin(parts[1..], d);
      SplitAfterPiece(parts[0], Join(parts[1..], d), d);
      assert [parts[0]] + parts[1..] == parts;
    }
  }

  /** The other direction: joining the pieces of a split gives back the string,
      and no piece holds the delimiter. */
  lemma {:induction false} JoinSplit(s: string, d: char)
    ensures Join(Split(s, d), d) == s
    ensures forall k :: 0 <= k < |Split(s, d)| ==> d !in Split(s, d)[k]
    decreases |s|
  {
    if |s| > 0 {
      JoinSplit(s[1..], d);
      var rest := Split(s[1..], d);
      if s[0] == d {
        assert Split(s, d) == [""] + rest;
        assert ([""] + rest)[1..] == rest;
        assert s == [d] + s[1..];
      } else {
        var parts := Split(s, d);
        assert parts == [[s[0]] + rest[0]] + rest[1..];
        if |rest| == 1 {
          assert s == [s[0]] + rest[0];
        } else {
          assert rest == [rest[0]] + rest[1..];
          assert Join(rest, d) == rest[0] + [d] + Join(rest[1..], d);
          assert parts[1..] == rest[1..];
          assert s == [s[0]] + s[1..];
        }
        forall k | 0 <= k < |parts| ensures d !in parts[k] {
          if k > 0 { assert parts[k] == rest[k]; }
        }
      }
    }
  }

  /** `s.replace(c, "")` for a one-character pattern: every `c` is dropped. */
  function RemoveChar(s: string, c: char): (r: string)
    ensures c !in r
    ensures |r| <= |s|
    ensures c !in s ==> r == s
  {
    if |s| == 0 then ""
    else if s[0] == c then RemoveChar(s[1..], c)
    else [s[0]] + RemoveChar(s[1..], c)
  }

  // ---------------------------------------------------------------------
  // Decimal numerals

  predicate IsDigit(ch: char) { '0' <= ch <= '9' }

  predicate AllDigits(s: string) { forall k :: 0 <= k < |s| ==> IsDigit(s[k]) }

  function DigitChar(d: nat): (ch: char)
    requires d < 10
    ensures IsDigit(ch)
  {
    (('0' as int) + d) as char
  }

  /** The value of a string of decimal digits, most significant first. */
  function DigitsValue(s: string): nat
    requires AllDigits(s)
    decreases |s|
  {
    if |s| == 0 then 0
    else 10 * DigitsValue(s[..|s| - 1]) + ((s[|s| - 1] as int) - ('0' as int))
  }

  /** `to_string` of a non-negative integer: shortest decimal numeral. */
  function ShowNat(n: nat): (s: string)
    ensures |s| >= 1 && AllDigits(s)
    ensures |s| > 1 ==> s[0] != '0'
    ensures DigitsValue(s) == n
    decreases n
  {
    if n < 10 then [DigitChar(n)]
    else
      var prefix := ShowNat(n / 10);
      var s := prefix + [DigitChar(n % 10)];
      assert s[..|s| - 1] == prefix;
      s
  }

  /** `to_string` of an `i32`: a minus sign for negative values. */
  function ShowI32(x: i32): (s: string)
    ensures |s| >= 1
    ensures x < 0 <==> s[0] == '-'
    ensures x >= 0 ==> AllDigits(s)
  {
    if x < 0 then "-" + ShowNat(-(x as int)) else ShowNat(x)
  }

  /** `s.parse::<u128>()`: an optional `+`, then at least one digit and
      nothing else, with a value below 2^128. */
  function ParseU128(s: string): (r: Option<u128>)
    ensures r.Some? ==> |s| >= 1 && '-' !in s && ':' !in s && ',' !in s
  {
    var digits := if |s| > 0 && s[0] == '+' then s[1..] else s;
    if |digits| == 0 || !AllDigits(digits) then None
    else
      var v := DigitsValue(digits);
      if v < U128_LIMIT then
        assert forall ch :: ch in s ==> ch == '+' || IsDigit(ch);
        Some(v)
      else None
  }

  /** `s.parse::<i32>()`: an optional sign, then at least one digit and
      nothing else, with a value in the `i32` range. */
  function ParseI32(s: string): (r: Option<i32>)
    ensures r.Some? ==> |s| >= 1 && ':' !in s && ',' !in s && ';' !in s
  {
    if |s| == 0 then None
    else
      var negative := s[0] == '-';
      var digits := if s[0] == '-' || s[0] == '+' then s[1..] else s;
      if |digits| == 0 || !AllDigits(digits) then None
      else
        var v: int := if negative then -(DigitsValue(digits) as int) else DigitsValue(digits);
        if I32_MIN <= v < I32_LIMIT then
          assert forall ch :: ch in s ==> ch == '+' || ch == '-' || IsDigit(ch);
          Some(v)
        else None
  }

  lemma ShowNatHasNoSeparator(n: nat)
    ensures ':' !in ShowNat(n) && ',' !in ShowNat(n) && ';' !in ShowNat(n)
  {
    var s := ShowNat(n);
    assert forall ch :: ch in s ==> IsDigit(ch);
  }

  lemma ShowI32HasNoSeparator(x: i32)
    ensures ':' !in ShowI32(x) && ',' !in ShowI32(x) && ';' !in ShowI32(x)
  {
    if x < 0 { ShowNatHasNoSeparator(-(x as int)); } else { ShowNatHasNoSeparator(x); }
  }

  /** Parsing what `to_string` printed gives the number back (u128). */
  lemma ParseShowU128(n: u128)
    ensures ParseU128(ShowNat(n)) == Some(n)
  {
    var s := ShowNat(n);
    assert s[0] != '+' by { assert IsDigit(s[0]); }
  }

  /** Parsing what `to_string` printed gives the number back (i32). */
  lemma ParseShowI32(x: i32)
    ensures ParseI32(ShowI32(x)) == Some(x)
  {
    var s := ShowI32(x);
    if x < 0 {
      assert s[1..] == ShowNat(-(x as int));
    } else {
      assert IsDigit(s[0]);
    }
  }
}
