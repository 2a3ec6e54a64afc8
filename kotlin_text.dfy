/**
 * The pieces of the Kotlin standard library that the bot's own logic leans on:
 * 32-bit `Int` arithmetic, `String.split`, `String.toInt`, the decimal rendering of
 * an `Int` in a string template, and `String.lowercase`.
 */
module KotlinText {
  import opened Results

  type String = seq<char>

  const INT_MIN: int := -0x8000_0000
  const INT_MAX: int := 0x7fff_ffff
  const INT_RANGE: int := 0x1_0000_0000

  /** A value of Kotlin's `Int` type. */
  predicate IsInt(x: int) {
    INT_MIN <= x <= INT_MAX
  }

  /**
   * Two's-complement wrap-around: the `Int` that Kotlin's arithmetic yields when the exact
   * result is `x`. A sum or difference of two `Int`s is off by at most one turn of the range.
   */
  function Wrap(x: int): (r: int)
    requires INT_MIN - INT_RANGE <= x <= INT_MAX + INT_RANGE
    ensures IsInt(r)
    ensures r == x || r == x - INT_RANGE || r == x + INT_RANGE
  {
    if x > INT_MAX then x - INT_RANGE
    else if x < INT_MIN then x + INT_RANGE
    else x
  }

  // ---------------------------------------------------------------------------------------------
  // String.split(sep): Kotlin keeps every piece, empty ones at either end included.

  /** The pieces glued back together, with the separator between neighbours. */
  function Join(parts: seq<String>, sep: char): String
  {
    if |parts| == 0 then []
    else if |parts| == 1 then parts[0]
    else Join(parts[..|parts| - 1], sep) + [sep] + parts[|parts| - 1]
  }

  /** The pieces with `c` appended to the last one. */
  function ExtendLast(parts: seq<String>, c: char): (r: seq<String>)
    requires |parts| >= 1
  {
    parts[..|parts| - 1] + [parts[|parts| - 1] + [c]]
  }

  /**
   * `s.split(sep)`: the pieces of `s` between separators, in order. Kotlin keeps empty
   * pieces at either end, so there is always one more piece than there are separators.
   */
  function Split(s: String, sep: char): (parts: seq<String>)
    ensures |parts| >= 1
    ensures forall i :: 0 <= i < |parts| ==> sep !in parts[i]
  {
    if s == [] then [[]]
    else
      var rest := Split(s[..|s| - 1], sep);
      var c := s[|s| - 1];
      if c == sep then rest + [[]] else ExtendLast(rest, c)
  }

  /** Appending one character either starts a new piece or extends the last one. */
  lemma SplitAppend(s: String, c: char, sep: char)
    ensures Split(s + [c], sep) == if c == sep then Split(s, sep) + [[]] else ExtendLast(Split(s, sep), c)
  {
    assert (s + [c])[..|s|] == s;
  }

  /** Joining the pieces of a split gives back the string. */
  lemma {:induction false} JoinSplit(s: String, sep: char)
    ensures Join(Split(s, sep), sep) == s
  {
    if s != [] {
      var init, c := s[..|s| - 1], s[|s| - 1];
      JoinSplit(init, sep);
      assert s == init + [c];
      SplitAppend(init, c, sep);
      if c == sep {
        JoinNewPiece(Split(init, sep), sep);
      } else {
        JoinExtendLast(Split(init, sep), sep, c);
      }
    }
  }

  /** Starting a new, empty piece adds one separator to the join. */
  lemma JoinNewPiece(parts: seq<String>, sep: char)
    requires |parts| >= 1
    ensures Join(parts + [[]], sep) == Join(parts, sep) + [sep]
  {
    assert (parts + [[]])[..|parts|] == parts;
  }

  /** Appending a character to the last piece appends it to the join. */
  lemma JoinExtendLast(parts: seq<String>, sep: char, c: char)
    requires |parts| >= 1
    ensures Join(ExtendLast(parts, c), sep) == Join(parts, sep) + [c]
  {
    var n := |parts|;
    assert ExtendLast(parts, c)[..n - 1] == parts[..n - 1];
  }

  /** A split has a single piece exactly when the string holds no separator. */
  lemma {:induction false} SplitSingle(s: String, sep: char)
    ensures |Split(s, sep)| == 1 <==> sep !in s
  {
    if s != [] {
      var init := s[..|s| - 1];
      SplitSingle(init, sep);
      assert s == init + [s[|s| - 1]];
    }
  }

  /** A string without a separator splits into itself alone. */
  lemma SplitNoSeparator(s: String, sep: char)
    requires sep !in s
    ensures Split(s, sep) == [s]
  {
    SplitSingle(s, sep);
    JoinSplit(s, sep);
  }

  /** Splitting at a separator splits each side on its own and puts the pieces side by side. */
  lemma {:induction false} SplitConcat(s: String, sep: char, t: String)
    ensures Split(s + [sep] + t, sep) == Split(s, sep) + Split(t, sep)
  {
    if t == [] {
      SplitAppend(s, sep, sep);
      assert s + [sep] + t == s + [sep];
    } else {
      var t', c := t[..|t| - 1], t[|t| - 1];
      SplitConcat(s, sep, t');
      SplitConcatStep(s, sep, t', c);
      assert t == t' + [c];
      assert s + [sep] + t == s + [sep] + t' + [c];
    }
  }

  /** The inductive step of `SplitConcat`: one more character after the separator. */
  lemma SplitConcatStep(s: String, sep: char, t: String, c: char)
    requires Split(s + [sep] + t, sep) == Split(s, sep) + Split(t, sep)
    ensures Split(s + [sep] + t + [c], sep) == Split(s, sep) + Split(t + [c], sep)
  {
    SplitAppend(s + [sep] + t, c, sep);
    SplitAppend(t, c, sep);
    if c != sep {
      ExtendLastOfConcat(Split(s, sep), Split(t, sep), c);
    }
  }

  /** Extending the last piece of `left + right` extends the last piece of `right`. */
  lemma ExtendLastOfConcat(left: seq<String>, right: seq<String>, c: char)
    requires |right| >= 1
    ensures ExtendLast(left + right, c) == left + ExtendLast(right, c)
  {
    assert (left + right)[..|left + right| - 1] == left + right[..|right| - 1];
  }

  /** In `x/y/z` with no separator in `x` or `y`, the second piece is `y`. */
  lemma SplitSecondPiece(x: String, y: String, z: String, sep: char)
    requires sep !in x && sep !in y
    ensures |Split(x + [sep] + y + [sep] + z, sep)| >= 2
    ensures Split(x + [sep] + y + [sep] + z, sep)[1] == y
  {
    var tail := y + [sep] + z;
    assert x + [sep] + y + [sep] + z == x + [sep] + tail;
    SplitConcat(x, sep, tail);
    SplitConcat(y, sep, z);
    SplitNoSeparator(x, sep);
    SplitNoSeparator(y, sep);
  }

  /** In `x/d/` with no separator in `d`, the second-to-last piece is `d`. */
  lemma SplitSecondToLast(x: String, d: String, sep: char)
    requires sep !in d
    ensures |Split(x + [sep] + d + [sep], sep)| >= 3
    ensures Split(x + [sep] + d + [sep], sep)[|Split(x + [sep] + d + [sep], sep)| - 2] == d
  {
    SplitLast(x, sep, d);
    SplitAppend(x + [sep] + d, sep, sep);
  }

  /** The last piece of a split is whatever follows the last separator. */
  lemma {:induction false} SplitLast(x: String, sep: char, d: String)
    requires sep !in d
    ensures |Split(x + [sep] + d, sep)| >= 2
    ensures Split(x + [sep] + d, sep)[|Split(x + [sep] + d, sep)| - 1] == d
  {
    if d == [] {
      SplitAppend(x, sep, sep);
      assert x + [sep] + d == x + [sep];
    } else {
      var d', c := d[..|d| - 1], d[|d| - 1];
      SplitLast(x, sep, d');
      assert x + [sep] + d == (x + [sep] + d') + [c];
      SplitAppend(x + [sep] + d', c, sep);
      assert d' + [c] == d;
    }
  }

  // ---------------------------------------------------------------------------------------------
  // Decimal digits

  predicate IsDigit(c: char) {
    '0' <= c <= '9'
  }

  predicate AllDigits(s: String) {
    forall i :: 0 <= i < |s| ==> IsDigit(s[i])
  }

  function DigitValue(c: char): nat
    requires IsDigit(c)
  {
    c as int - '0' as int
  }

  function DigitChar(d: nat): (c: char)
    requires d < 10
    ensures IsDigit(c) && DigitValue(c) == d
  {
    ('0' as int + d) as char
  }

  /** The number a string of decimal digits denotes (most significant digit first). */
  function DigitsValue(s: String): nat
    requires AllDigits(s)
  {
    if s == [] then 0 else DigitsValue(s[..|s| - 1]) * 10 + DigitValue(s[|s| - 1])
  }

  /** The decimal rendering of a natural number, without leading zeros. */
  function NatToString(n: nat): (s: String)
    ensures |s| >= 1 && AllDigits(s)
    ensures DigitsValue(s) == n
    ensures s[0] == '0' ==> n == 0
    ensures n == 0 ==> s == "0"
  {
    var d := [DigitChar(n % 10)];
    if n < 10 then d
    else
      var s := NatToString(n / 10) + d;
      assert s[..|s| - 1] == NatToString(n / 10);
      s
  }

  /** An `Int` as a string template (`"$n"`) renders it: a minus sign, then the digits. */
  function IntToString(n: int): (s: String)
    ensures |s| >= 1 && '/' !in s
    ensures n >= 0 ==> AllDigits(s) && DigitsValue(s) == n
    ensures n < 0 ==> s[0] == '-' && |s| >= 2 && AllDigits(s[1..]) && DigitsValue(s[1..]) == -n
    ensures n >= 0 && s[0] == '0' ==> n == 0
    ensures n == 0 ==> s == "0"
    ensures n < 0 ==> s[1] != '0'
  {
    if n < 0 then ['-'] + NatToString(-n) else NatToString(n)
  }

  /** What follows an optional leading sign. */
  function Unsigned(s: String): String
  {
    if |s| >= 1 && (s[0] == '-' || s[0] == '+') then s[1..] else s
  }

  /** The value of the digits after the sign, negated after a `-`. */
  function SignedValue(s: String): int
    requires AllDigits(Unsigned(s))
  {
    var magnitude: int := DigitsValue(Unsigned(s));
    if |s| >= 1 && s[0] == '-' then -magnitude else magnitude
  }

  /**
   * `s.toInt()` (Java's `Integer.parseInt`): an optional `+` or `-`, then one or more
   * decimal digits, denoting a value in `Int`'s range; anything else is a
   * `NumberFormatException`, here `None`.
   */
  function ParseInt(s: String): (r: Option<int>)
    ensures r.Some? ==> IsInt(r.value)
    ensures r.Some? ==> |s| >= 1 && (IsDigit(s[0]) || s[0] == '-' || s[0] == '+')
    ensures r.Some? ==> IsDigit(s[|s| - 1])
    ensures r.Some? <==> |Unsigned(s)| >= 1 && AllDigits(Unsigned(s)) && IsInt(SignedValue(s))
    ensures r.Some? ==> r.value == SignedValue(s)
  {
    if |s| == 0 then None
    else
      var digits := Unsigned(s);
      if |digits| == 0 || !AllDigits(digits) then None
      else
        var magnitude: int := DigitsValue(digits);
        var v := if s[0] == '-' then -magnitude else magnitude;
        if IsInt(v) then Some(v) else None
  }

  /** Rendering an `Int` and parsing it back gives the same `Int`. */
  lemma IntToStringRoundTrip(n: int)
    requires IsInt(n)
    ensures ParseInt(IntToString(n)) == Some(n)
  {
    if n < 0 {
      assert (['-'] + NatToString(-n))[1..] == NatToString(-n);
    }
  }

  /** Different `Int`s render differently. */
  lemma IntToStringInjective(m: int, n: int)
    requires IsInt(m) && IsInt(n)
    requires IntToString(m) == IntToString(n)
    ensures m == n
  {
    IntToStringRoundTrip(m);
    IntToStringRoundTrip(n);
  }

  // ---------------------------------------------------------------------------------------------
  // String.lowercase()

  function LowerChar(c: char): char {
    if 'A' <= c <= 'Z' then (c as int + 32) as char else c
  }

  /** `s.lowercase()` on the ASCII letters: every upper-case letter replaced by its lower-case form. */
  function Lowercase(s: String): (r: String)
    ensures |r| == |s|
    ensures forall i :: 0 <= i < |r| ==> !('A' <= r[i] <= 'Z')
    ensures forall i :: 0 <= i < |r| ==> (r[i] == s[i] || 'A' <= s[i] <= 'Z')
    ensures forall i :: 0 <= i < |r| && 'A' <= s[i] <= 'Z' ==> r[i] as int == s[i] as int + 32
  {
    seq(|s|, i requires 0 <= i < |s| => LowerChar(s[i]))
  }

  /** Lower-casing twice is lower-casing once, so a lower-cased key matches itself on lookup. */
  lemma LowercaseIdempotent(s: String)
    ensures Lowercase(Lowercase(s)) == Lowercase(s)
  {
    var l := Lowercase(s);
    assert forall i :: 0 <= i < |l| ==> LowerChar(l[i]) == l[i];
  }
}
