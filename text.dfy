/** Characters, bytes and the string operations the encoder and the response
    parser are built from: Swift's decimal interpolation `"\(n)"`, hexadecimal
    groups as `UInt16(_:radix: 16)` reads them, `split(separator:)`,
    `joined(separator:)`, `hasPrefix`, `hasSuffix`, `contains` and
    `lowercased()`. Strings are sequences of characters. */
module Text {
  import opened Results

  newtype Byte = b: int | 0 <= b < 0x100

  const BEL: char := 7 as char
  const ESC: char := 27 as char
  /** The two-character string terminator `ESC \`. */
  const ST: string := [ESC, '\\']

  /** The character a byte read from the terminal becomes (`Character(UnicodeScalar(byte))`). */
  function ByteChar(b: Byte): char
  {
    (b as int) as char
  }

  function Latin1(bs: seq<Byte>): string
  {
    seq(|bs|, i requires 0 <= i < |bs| => ByteChar(bs[i]))
  }

  lemma Latin1Append(a: seq<Byte>, b: seq<Byte>)
    ensures Latin1(a + b) == Latin1(a) + Latin1(b)
  {
  }

  // ---------------------------------------------------------------------------
  // Decimal numbers

  predicate IsDigit(c: char)
  {
    '0' <= c <= '9'
  }

  /** Every character is a decimal digit (checked from the end, the way `DigitsValue` reads). */
  predicate AllDigits(s: string)
    decreases |s|
  {
    s == [] || (IsDigit(s[|s| - 1]) && AllDigits(s[..|s| - 1]))
  }

  lemma {:induction false} DigitsExclude(s: string, c: char)
    requires AllDigits(s) && !IsDigit(c)
    ensures c !in s
    decreases |s|
  {
    if s != [] {
      DigitsExclude(s[..|s| - 1], c);
      assert s == s[..|s| - 1] + [s[|s| - 1]];
    }
  }

  /** A run of digits starts with a digit. */
  lemma {:induction false} DigitsLead(s: string)
    ensures s != [] && AllDigits(s) ==> IsDigit(s[0])
    decreases |s|
  {
    if |s| > 1 {
      DigitsLead(s[..|s| - 1]);
    }
  }

  function DigitChar(d: nat): char
    requires d < 10
  {
    ('0' as int + d) as char
  }

  function DigitValue(c: char): nat
    requires IsDigit(c)
  {
    c as int - '0' as int
  }

  /** Decimal rendering of a natural number: at least one digit, and no leading zero. */
  function NatString(n: nat): (s: string)
    ensures 1 <= |s| && AllDigits(s) && IsDigit(s[0])
    ensures |s| > 1 ==> s[0] != '0'
    decreases n
  {
    if n < 10 then [DigitChar(n)] else NatString(n / 10) + [DigitChar(n % 10)]
  }

  /** Swift's `"\(n)"` for an `Int`: a `-` in front of the magnitude when negative. */
  function IntString(n: int): (s: string)
    ensures 1 <= |s|
    ensures n >= 0 ==> AllDigits(s) && IsDigit(s[0])
    ensures n < 0 ==> 2 <= |s| && s[0] == '-' && AllDigits(s[1..])
  {
    if n < 0 then "-" + NatString(-n) else NatString(n)
  }

  lemma IntStringExcludes(n: int, c: char)
    requires c != '-' && !IsDigit(c)
    ensures c !in IntString(n)
  {
    if n < 0 {
      DigitsExclude(NatString(-n), c);
    } else {
      DigitsExclude(NatString(n), c);
    }
  }

  function DigitsValue(s: string): nat
    requires AllDigits(s)
  {
    if s == [] then 0 else DigitsValue(s[..|s| - 1]) * 10 + DigitValue(s[|s| - 1])
  }

  /** Reads back an optional `-` followed by decimal digits. */
  function ParseInt(s: string): Option<int>
  {
    if 2 <= |s| && s[0] == '-' && AllDigits(s[1..]) then var m: int := DigitsValue(s[1..]); Some(-m)
    else if 1 <= |s| && AllDigits(s) then Some(DigitsValue(s))
    else None
  }

  lemma {:induction false} NatStringValue(n: nat)
    ensures DigitsValue(NatString(n)) == n
    decreases n
  {
    if n >= 10 {
      NatStringValue(n / 10);
      var s := NatString(n);
      assert s[..|s| - 1] == NatString(n / 10);
    }
  }

  /** The decimal rendering reads back as the number it renders. */
  lemma IntStringRoundTrip(n: int)
    ensures ParseInt(IntString(n)) == Some(n)
  {
    if n < 0 {
      NegativeRoundTrip(n);
    } else {
      var s := NatString(n);
      NatStringValue(n);
      DigitsExclude(s, '-');
      assert s[0] != '-';
      assert ParseInt(s) == Some(DigitsValue(s));
    }
  }

  lemma NegativeRoundTrip(n: int)
    requires n < 0
    ensures ParseInt(IntString(n)) == Some(n)
  {
    var digits := NatString(-n);
    var s := "-" + digits;
    assert s[1..] == digits;
    NatStringValue(-n);
    var m: int := DigitsValue(digits);
    assert ParseInt(s) == Some(-m);
  }

  lemma IntStringInjective(a: int, b: int)
    ensures IntString(a) == IntString(b) <==> a == b
  {
    IntStringRoundTrip(a);
    IntStringRoundTrip(b);
  }

  // ---------------------------------------------------------------------------
  // Hexadecimal groups

  predicate IsHexDigit(c: char)
  {
    '0' <= c <= '9' || 'a' <= c <= 'f' || 'A' <= c <= 'F'
  }

  predicate IsHex(s: string)
  {
    forall i :: 0 <= i < |s| ==> IsHexDigit(s[i])
  }

  function HexDigitValue(c: char): (d: nat)
    requires IsHexDigit(c)
    ensures d < 16
  {
    if '0' <= c <= '9' then c as int - '0' as int
    else if 'a' <= c <= 'f' then c as int - 'a' as int + 10
    else c as int - 'A' as int + 10
  }

  function Pow16(n: nat): nat
  {
    if n == 0 then 1 else 16 * Pow16(n - 1)
  }

  /** The value of a string of hexadecimal digits; it has as many digits as its length allows. */
  function HexValue(s: string): (v: nat)
    requires IsHex(s)
    ensures v < Pow16(|s|)
  {
    if s == [] then 0 else HexValue(s[..|s| - 1]) * 16 + HexDigitValue(s[|s| - 1])
  }

  function HexDigit(d: nat): (c: char)
    requires d < 16
    ensures IsHexDigit(c) && HexDigitValue(c) == d
  {
    if d < 10 then ('0' as int + d) as char else ('a' as int + d - 10) as char
  }

  /** The last `n` hexadecimal digits of `v`, most significant first, in lower case. */
  function HexDigits(v: nat, n: nat): (s: string)
    ensures |s| == n && IsHex(s)
  {
    if n == 0 then [] else HexDigits(v / 16, n - 1) + [HexDigit(v % 16)]
  }

  lemma {:induction false} HexDigitsRoundTrip(v: nat, n: nat)
    requires v < Pow16(n)
    ensures HexValue(HexDigits(v, n)) == v
  {
    if n > 0 {
      HexDigitsRoundTrip(v / 16, n - 1);
      var s := HexDigits(v, n);
      assert s[..|s| - 1] == HexDigits(v / 16, n - 1);
    }
  }

  /** Four hexadecimal digits, the way terminals report a 16-bit channel. */
  function Hex4(v: nat): string
    requires v < 0x10000
  {
    HexDigits(v, 4)
  }

  lemma Hex4RoundTrip(v: nat)
    requires v < 0x10000
    ensures |Hex4(v)| == 4 && IsHex(Hex4(v))
    ensures HexValue(Hex4(v)) == v
  {
    assert Pow16(4) == 0x10000;
    HexDigitsRoundTrip(v, 4);
  }

  // ---------------------------------------------------------------------------
  // Splitting and joining

  function IndexOf(s: string, c: char): (i: nat)
    ensures i <= |s|
    ensures i < |s| ==> s[i] == c
    ensures c !in s[..i]
  {
    if s == [] then 0 else if s[0] == c then 0 else 1 + IndexOf(s[1..], c)
  }

  /** Swift's `split(separator:)`: the pieces between separators, empty pieces left out. */
  function Split(s: string, sep: char): seq<string>
    decreases |s|
  {
    var i := IndexOf(s, sep);
    if i == |s| then (if s == [] then [] else [s])
    else (if i == 0 then [] else [s[..i]]) + Split(s[i + 1..], sep)
  }

  /** Swift's `joined(separator:)`. */
  function Join(pieces: seq<string>, sep: char): string
  {
    if pieces == [] then "" else if |pieces| == 1 then pieces[0] else pieces[0] + [sep] + Join(pieces[1..], sep)
  }

  lemma IndexOfPrefix(a: string, b: string, c: char)
    requires c !in a
    ensures IndexOf(a + b, c) == |a| + IndexOf(b, c)
  {
    if a == [] {
      assert a + b == b;
    } else {
      assert (a + b)[0] == a[0] && a[0] != c;
      assert (a + b)[1..] == a[1..] + b;
      assert c !in a[1..];
      IndexOfPrefix(a[1..], b, c);
    }
  }

  lemma SplitAt(s: string, sep: char, i: nat)
    requires i == IndexOf(s, sep) < |s|
    ensures Split(s, sep) == (if i == 0 then [] else [s[..i]]) + Split(s[i + 1..], sep)
  {
  }

  lemma ConcatAssoc<T>(h: seq<T>, x: seq<T>, y: seq<T>)
    ensures h + (x + y) == (h + x) + y
  {
  }

  /** A separator splits exactly there: what stands on either side splits on its own. */
  lemma {:induction false} SplitAround(a: string, b: string, sep: char)
    ensures Split(a + [sep] + b, sep) == Split(a, sep) + Split(b, sep)
    decreases |a|
  {
    var s := a + [sep] + b;
    var i := IndexOf(a, sep);
    if i == |a| {
      assert s == a + ([sep] + b);
      IndexOfPrefix(a, [sep] + b, sep);
      SplitAt(s, sep, |a|);
      assert s[..|a|] == a && s[|a| + 1..] == b;
    } else {
      var rest := a[i + 1..] + [sep] + b;
      assert s == a[..i] + ([sep] + rest);
      IndexOfPrefix(a[..i], [sep] + rest, sep);
      assert a[..i] + [] == a[..i];
      SplitAt(s, sep, i);
      SplitAt(a, sep, i);
      assert s[..i] == a[..i] && s[i + 1..] == rest;
      SplitAround(a[i + 1..], b, sep);
      ConcatAssoc(if i == 0 then [] else [a[..i]], Split(a[i + 1..], sep), Split(b, sep));
    }
  }

  lemma SplitFree(s: string, sep: char)
    requires s != [] && sep !in s
    ensures Split(s, sep) == [s]
  {
    IndexOfPrefix(s, [], sep);
    assert s + [] == s;
  }

  /** Every piece is non-empty and free of the separator. */
  predicate Splittable(pieces: seq<string>, sep: char)
  {
    pieces == [] || (pieces[0] != [] && sep !in pieces[0] && Splittable(pieces[1..], sep))
  }

  /** Joining pieces that are non-empty and free of the separator, then splitting, gives the pieces back. */
  lemma {:induction false} SplitJoin(pieces: seq<string>, sep: char)
    requires Splittable(pieces, sep)
    ensures Split(Join(pieces, sep), sep) == pieces
    decreases |pieces|
  {
    if |pieces| == 1 {
      SplitFree(pieces[0], sep);
    } else if |pieces| > 1 {
      var head, tail := pieces[0], pieces[1..];
      SplitAround(head, Join(tail, sep), sep);
      SplitFree(head, sep);
      SplitJoin(tail, sep);
      assert pieces == [head] + tail;
    }
  }

  // ---------------------------------------------------------------------------
  // Prefixes, suffixes, substrings, case

  predicate HasPrefix(s: string, p: string)
  {
    |p| <= |s| && s[..|p|] == p
  }

  predicate HasSuffix(s: string, t: string)
  {
    |t| <= |s| && s[|s| - |t|..] == t
  }

  predicate Contains(s: string, t: string)
    decreases |s|
  {
    HasPrefix(s, t) || (s != [] && Contains(s[1..], t))
  }

  /** `t` occurring at any position is enough for `Contains`. */
  lemma {:induction false} ContainsAt(s: string, t: string, i: nat)
    requires i + |t| <= |s| && s[i..i + |t|] == t
    ensures Contains(s, t)
    decreases i
  {
    if i > 0 {
      assert s[1..][i - 1..i - 1 + |t|] == t;
      ContainsAt(s[1..], t, i - 1);
    }
  }

  /** A string containing `t` contains its first character. */
  lemma {:induction false} ContainsFirst(s: string, t: string)
    requires t != []
    ensures Contains(s, t) ==> t[0] in s
    decreases |s|
  {
    if s != [] && !HasPrefix(s, t) {
      ContainsFirst(s[1..], t);
    }
  }

  /** A string containing `a + b` contains `b`. */
  lemma {:induction false} ContainsTail(s: string, a: string, b: string)
    requires Contains(s, a + b)
    ensures Contains(s, b)
    decreases |s|
  {
    if HasPrefix(s, a + b) {
      assert s[|a|..|a| + |b|] == (a + b)[|a|..];
      ContainsAt(s, b, |a|);
    } else {
      ContainsTail(s[1..], a, b);
      assert HasPrefix(s, b) || Contains(s[1..], b);
    }
  }

  /** Swift's `dropFirst(n)`: the empty string once `n` reaches the length. */
  function Drop(s: string, n: nat): string
  {
    if n <= |s| then s[n..] else []
  }

  function LowerChar(c: char): char
  {
    if 'A' <= c <= 'Z' then (c as int + 32) as char else c
  }

  /** `lowercased()`, restricted to ASCII letters. */
  function LowerAscii(s: string): (l: string)
    ensures |l| == |s|
  {
    seq(|s|, i requires 0 <= i < |s| => LowerChar(s[i]))
  }

  lemma LowerAsciiIdempotent(s: string)
    ensures LowerAscii(LowerAscii(s)) == LowerAscii(s)
  {
    var l := LowerAscii(s);
    assert forall i :: 0 <= i < |l| ==> LowerChar(l[i]) == l[i];
  }

  // ---------------------------------------------------------------------------
  // Environments

  /** A process environment: variable names to values. */
  type Environment = map<string, string>

  /** Swift's `env[key]`: the value, or nothing when the variable is unset. */
  function Get(env: Environment, key: string): Option<string>
  {
    if key in env then Some(env[key]) else None
  }
}
