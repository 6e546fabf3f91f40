/** The java.lang.String and java.lang.Integer operations the generator
    relies on, written out for strings as sequences of characters. Two
    simplifications of the model, not of Java: only ASCII letters have a
    case mapping, independent of any locale, and only ASCII digits are
    decimal digits. */
module JavaStrings {
  import opened Wrappers

  // ---------------------------------------------------------------------
  // Searching
  // ---------------------------------------------------------------------

  /** `t` occurs in `s` starting at index `k`. */
  predicate OccursAt(s: string, t: string, k: int) {
    0 <= k <= |s| - |t| && s[k..k + |t|] == t
  }

  /** String.equals, which compares the lengths before the characters. */
  predicate Equals(a: string, b: string) {
    |a| == |b| && a == b
  }

  /** String.startsWith. */
  predicate StartsWith(s: string, prefix: string) {
    OccursAt(s, prefix, 0)
  }

  /** String.endsWith. */
  predicate EndsWith(s: string, suffix: string) {
    OccursAt(s, suffix, |s| - |suffix|)
  }

  /** String.indexOf(String): the first index at which `t` occurs, or -1. */
  function IndexOf(s: string, t: string): (r: int)
    ensures r == -1 || OccursAt(s, t, r)
    ensures forall k :: 0 <= k < |s| && (r == -1 || k < r) ==> !OccursAt(s, t, k)
    decreases |s|
  {
    if |s| < |t| then -1
    else if s[..|t|] == t then 0
    else
      var r' := IndexOf(s[1..], t);
      assert !OccursAt(s, t, 0);
      assert forall k :: 1 <= k < |s| ==> (OccursAt(s[1..], t, k - 1) <==> OccursAt(s, t, k)) by {
        forall k | 1 <= k < |s| ensures OccursAt(s[1..], t, k - 1) <==> OccursAt(s, t, k) {
          if k <= |s| - |t| {
            assert s[1..][k - 1..k - 1 + |t|] == s[k..k + |t|];
          }
        }
      }
      if r' < 0 then -1 else r' + 1
  }

  /** String.contains. */
  predicate Contains(s: string, t: string) {
    IndexOf(s, t) >= 0
  }

  /** Searching for a one-character string is searching for the character. */
  lemma ContainsChar(s: string, c: char)
    ensures Contains(s, [c]) <==> c in s
  {
    if c in s {
      var k :| 0 <= k < |s| && s[k] == c;
      assert s[k..k + 1] == [c];
      assert OccursAt(s, [c], k);
    }
    if Contains(s, [c]) {
      var k := IndexOf(s, [c]);
      assert s[k..k + 1] == [c];
      assert s[k] == c;
    }
  }

  /** Searching for a character finds its first occurrence. */
  lemma IndexOfChar(s: string, c: char)
    requires c in s
    ensures 0 <= IndexOf(s, [c]) < |s| && s[IndexOf(s, [c])] == c && c !in s[..IndexOf(s, [c])]
  {
    ContainsChar(s, c);
    var k := IndexOf(s, [c]);
    assert s[k..k + 1] == [c];
    forall i | 0 <= i < k ensures s[i] != c {
      assert !OccursAt(s, [c], i);
      assert s[i..i + 1] == [s[i]];
    }
  }

  /** The first ':' of `x + ":" + y` is the one after `x` when `x` has
      none. */
  lemma FirstSeparator(x: string, y: string)
    requires ':' !in x
    ensures IndexOf(x + ":" + y, ":") == |x|
  {
    var s := x + ":" + y;
    assert s[|x|..|x| + 1] == ":";
    assert forall k :: 0 <= k < |x| ==> !OccursAt(s, ":", k) by {
      forall k | 0 <= k < |x| ensures !OccursAt(s, ":", k) {
        assert s[k..k + 1] == [x[k]];
      }
    }
    assert OccursAt(s, ":", |x|);
    var r := IndexOf(s, ":");
    assert r != -1 && r <= |x|;
    assert !(r < |x|);
  }

  /** A string starts with each of its prefixes. */
  lemma StartsWithConcat(x: string, y: string)
    ensures StartsWith(x + y, x)
  {
    assert (x + y)[..|x|] == x;
  }

  /** A string ends with each of its suffixes. */
  lemma EndsWithConcat(x: string, y: string)
    ensures EndsWith(x + y, y)
  {
    assert (x + y)[|x|..] == y;
  }

  /** String.lastIndexOf(char): the last index holding `c`, or -1. */
  function LastIndexOf(s: string, c: char): (r: int)
    ensures -1 <= r < |s|
    ensures r >= 0 ==> s[r] == c
    ensures forall k :: r < k < |s| ==> s[k] != c
    ensures r == -1 <==> c !in s
  {
    if s == [] then -1
    else if s[|s| - 1] == c then |s| - 1
    else LastIndexOf(s[..|s| - 1], c)
  }

  // ---------------------------------------------------------------------
  // Character-wise transformations
  // ---------------------------------------------------------------------

  /** String.replace(char, char): every `a` becomes `b`. */
  function ReplaceChar(s: string, a: char, b: char): (r: string)
    ensures |r| == |s|
    ensures forall i :: 0 <= i < |s| ==> r[i] == (if s[i] == a then b else s[i])
  {
    seq(|s|, i requires 0 <= i < |s| => if s[i] == a then b else s[i])
  }

  function LowerChar(c: char): char {
    if 'A' <= c <= 'Z' then (c as int - 'A' as int + 'a' as int) as char else c
  }

  /** String.toLowerCase, restricted to the ASCII case mapping. */
  function ToLower(s: string): (r: string)
    ensures |r| == |s|
    ensures forall i :: 0 <= i < |s| ==> r[i] == LowerChar(s[i])
  {
    seq(|s|, i requires 0 <= i < |s| => LowerChar(s[i]))
  }

  /** String.equalsIgnoreCase, restricted to the ASCII case mapping. */
  predicate EqualsIgnoreCase(a: string, b: string) {
    ToLower(a) == ToLower(b)
  }

  // ---------------------------------------------------------------------
  // Ordering
  // ---------------------------------------------------------------------

  /** `a.compareTo(b) < 0`: lexicographic order on characters, a proper
      prefix coming first. */
  predicate LexLess(a: string, b: string) {
    if a == [] then b != []
    else if b == [] then false
    else if a[0] != b[0] then a[0] < b[0]
    else LexLess(a[1..], b[1..])
  }

  /** compareTo is a strict total order: of two different strings exactly
      one is smaller, and no string is smaller than itself. */
  lemma {:induction false} LexLessTotal(a: string, b: string)
    ensures !LexLess(a, a)
    ensures a != b ==> (LexLess(a, b) <==> !LexLess(b, a))
  {
    if a != [] {
      LexLessTotal(a[1..], a[1..]);
    }
    if a != [] && b != [] && a[0] == b[0] {
      assert a == [a[0]] + a[1..] && b == [b[0]] + b[1..];
      LexLessTotal(a[1..], b[1..]);
    }
  }

  // ---------------------------------------------------------------------
  // Splitting
  // ---------------------------------------------------------------------

  /** Every piece between occurrences of `c`, empty pieces included. */
  function SplitAll(s: string, c: char): (r: seq<string>)
    ensures |r| >= 1
    ensures forall i :: 0 <= i < |r| ==> c !in r[i]
    decreases |s|
  {
    var k := IndexOf(s, [c]);
    if k < 0 then
      assert forall i :: 0 <= i < |s| ==> s[i] != c by {
        forall i | 0 <= i < |s| ensures s[i] != c {
          assert !OccursAt(s, [c], i);
          assert s[i..i + 1] == [s[i]];
        }
      }
      [s]
    else
      assert forall i :: 0 <= i < k ==> s[i] != c by {
        forall i | 0 <= i < k ensures s[i] != c {
          assert !OccursAt(s, [c], i);
          assert s[i..i + 1] == [s[i]];
        }
      }
      [s[..k]] + SplitAll(s[k + 1..], c)
  }

  /** Pieces joined with `c` in between: the inverse of SplitAll. */
  function JoinWith(parts: seq<string>, c: char): string
    requires |parts| >= 1
  {
    if |parts| == 1 then parts[0] else parts[0] + [c] + JoinWith(parts[1..], c)
  }

  lemma {:induction false} SplitAllJoin(s: string, c: char)
    ensures JoinWith(SplitAll(s, c), c) == s
    decreases |s|
  {
    var k := IndexOf(s, [c]);
    if k >= 0 {
      assert s[k..k + 1] == [c];
      SplitAllJoin(s[k + 1..], c);
      assert s == s[..k] + [c] + s[k + 1..];
    }
  }

  /** A character absent from the input is absent from every piece. */
  lemma {:induction false} SplitAllPiecesFromInput(s: string, c: char, d: char)
    requires d !in s
    ensures forall i :: 0 <= i < |SplitAll(s, c)| ==> d !in SplitAll(s, c)[i]
    decreases |s|
  {
    var k := IndexOf(s, [c]);
    if k >= 0 {
      assert d !in s[..k];
      assert d !in s[k + 1..];
      SplitAllPiecesFromInput(s[k + 1..], c, d);
    }
  }

  /** The pieces with the empty pieces at the end removed. */
  function DropTrailingEmpty(parts: seq<string>): (r: seq<string>)
    ensures |r| <= |parts| && r == parts[..|r|]
    ensures r != [] ==> r[|r| - 1] != []
    ensures forall i :: |r| <= i < |parts| ==> parts[i] == []
  {
    if parts == [] then []
    else if parts[|parts| - 1] == [] then DropTrailingEmpty(parts[..|parts| - 1])
    else parts
  }

  /** String.split with a one-character, non-metacharacter regular
      expression: without a match the result is the string itself; otherwise
      all pieces, with trailing empty pieces removed. */
  function JavaSplit(s: string, c: char): (r: seq<string>)
    ensures forall i :: 0 <= i < |r| ==> c !in r[i]
    ensures c !in s ==> r == [s]
    ensures c in s ==> r == DropTrailingEmpty(SplitAll(s, c))
  {
    if c !in s then [s]
    else DropTrailingEmpty(SplitAll(s, c))
  }

  /** A character absent from the input is absent from every piece. */
  lemma JavaSplitPiecesFromInput(s: string, c: char, d: char)
    requires d !in s
    ensures forall i :: 0 <= i < |JavaSplit(s, c)| ==> d !in JavaSplit(s, c)[i]
  {
    if c in s {
      SplitAllPiecesFromInput(s, c, d);
    }
  }

  // ---------------------------------------------------------------------
  // Decimal integers
  // ---------------------------------------------------------------------

  const IntMin: int := -0x8000_0000
  const IntMax: int := 0x7fff_ffff

  /** The range of a Java int. */
  predicate IsInt32(n: int) {
    IntMin <= n <= IntMax
  }

  predicate IsDigit(c: char) {
    '0' <= c <= '9'
  }

  predicate AllDigits(s: string) {
    forall i :: 0 <= i < |s| ==> IsDigit(s[i])
  }

  function DigitChar(d: nat): (c: char)
    requires d < 10
    ensures IsDigit(c) && c as int - '0' as int == d
  {
    ('0' as int + d) as char
  }

  /** The value of a string of decimal digits. */
  function DigitsValue(s: string): nat
    requires AllDigits(s)
  {
    if s == [] then 0
    else DigitsValue(s[..|s| - 1]) * 10 + (s[|s| - 1] as int - '0' as int)
  }

  /** The decimal digits of a natural number, without leading zeros. */
  function NatToDecimal(n: nat): (r: string)
    ensures |r| >= 1 && AllDigits(r)
  {
    if n < 10 then [DigitChar(n)] else NatToDecimal(n / 10) + [DigitChar(n % 10)]
  }

  /** Integer.toString. */
  function IntToDecimal(n: int): string {
    if n < 0 then "-" + NatToDecimal(-n) else NatToDecimal(n)
  }

  /** The digits of a number's text: what follows a leading sign. */
  function Unsigned(s: string): string
    requires s != []
  {
    if s[0] == '-' || s[0] == '+' then s[1..] else s
  }

  /** The value a sign and a string of digits denote. */
  function SignedValue(negative: bool, digits: string): int
    requires AllDigits(digits)
  {
    if negative then -(DigitsValue(digits) as int) else DigitsValue(digits) as int
  }

  /** Integer.parseInt over ASCII digits: an optional sign followed by at
      least one digit '0'..'9', whose value is a Java int, parses; anything
      else is None, read as NumberFormatException. Java also accepts the
      other Unicode decimal digits, which the model rejects. */
  function ParseInt(s: string): (r: Option<int>)
    ensures r.Some? ==> IsInt32(r.value)
    ensures r.Some? ==>
      (|s| >= 1 && Unsigned(s) != [] && AllDigits(Unsigned(s)) && r.value == SignedValue(s[0] == '-', Unsigned(s)))
    ensures s != [] && Unsigned(s) != [] && AllDigits(Unsigned(s)) && IsInt32(SignedValue(s[0] == '-', Unsigned(s)))
      ==> r.Some?
  {
    if s == [] then None
    else
      var negative := s[0] == '-';
      var digits := if s[0] == '-' || s[0] == '+' then s[1..] else s;
      if digits == [] || !AllDigits(digits) then None
      else
        var v: int := if negative then -(DigitsValue(digits) as int) else DigitsValue(digits) as int;
        if IsInt32(v) then Some(v) else None
  }

  /** One more digit: the value times ten plus the digit. */
  lemma DigitsValueAppend(s: string, c: char)
    requires AllDigits(s) && IsDigit(c)
    ensures AllDigits(s + [c]) && DigitsValue(s + [c]) == DigitsValue(s) * 10 + (c as int - '0' as int)
  {
    assert (s + [c])[..|s|] == s;
  }

  /** Texts that are not canonical decimals: a plus sign, leading zeros, a
      negative zero. */
  lemma ParseIntNonCanonical()
    ensures ParseInt("+5") == Some(5)
    ensures ParseInt("007") == Some(7)
    ensures ParseInt("-0") == Some(0)
  {
    assert DigitsValue("5") == 5;
    assert DigitsValue("00") == 0;
    assert DigitsValue("007") == 7;
  }

  /** Texts without digits, or with a character that is not a digit. */
  lemma ParseIntRejects()
    ensures ParseInt("-") == None && ParseInt("+") == None && ParseInt("") == None
    ensures ParseInt("1a") == None
  {
    assert !AllDigits("1a") by { assert !IsDigit("1a"[1]); }
  }

  /** The value of the digits of 2^31. */
  lemma TwoToThe31Digits()
    ensures AllDigits("2147483648") && DigitsValue("2147483648") == 2147483648
  {
    var t: string := "";
    var digits := "2147483648";
    for i := 0 to 10
      invariant t == digits[..i] && AllDigits(t)
      invariant DigitsValue(t) == [0, 2, 21, 214, 2147, 21474, 214748, 2147483, 21474836, 214748364, 2147483648][i]
    {
      assert digits[..i + 1] == digits[..i] + [digits[i]];
      DigitsValueAppend(t, digits[i]);
      t := t + [digits[i]];
    }
    assert digits[..10] == digits;
  }

  /** The edges of the int range: 2^31 overflows, -2^31 does not. */
  lemma ParseIntRange()
    ensures ParseInt("2147483648") == None
    ensures ParseInt("-2147483648") == Some(IntMin)
  {
    TwoToThe31Digits();
    assert "-2147483648"[1..] == "2147483648";
  }

  lemma {:induction false} NatToDecimalValue(n: nat)
    ensures DigitsValue(NatToDecimal(n)) == n
  {
    if n >= 10 {
      NatToDecimalValue(n / 10);
      var s := NatToDecimal(n);
      assert s[..|s| - 1] == NatToDecimal(n / 10);
    }
  }

  /** Integer.parseInt(Integer.toString(n)) == n for every Java int. */
  lemma DecimalRoundTrip(n: int)
    requires IsInt32(n)
    ensures ParseInt(IntToDecimal(n)) == Some(n)
  {
    var s := IntToDecimal(n);
    if n < 0 {
      var d := NatToDecimal(-n);
      NatToDecimalValue(-n);
      assert s[0] == '-' && s[1..] == d;
      assert DigitsValue(s[1..]) == -n;
    } else {
      NatToDecimalValue(n);
      assert IsDigit(s[0]);
      assert DigitsValue(s) == n;
    }
  }
}
