/** The pieces of Python's `str` (and `bytes`) behaviour that the metadata
    parsers rely on: slicing with clamped indices, stripping whitespace,
    prefix tests, `split(sep, 1)`, ASCII upper-casing and `int()`. */
module Text {
  import opened Wrappers

  /** Python's `str.isspace()` for one code point (also the set that the
      `\s` and `\S` classes of a `str` regular expression use). */
  predicate IsSpace(c: char) {
    var n := c as int;
    n == 0x20 || (0x09 <= n <= 0x0D) || (0x1C <= n <= 0x1F) || n == 0x85 || n == 0xA0
    || n == 0x1680 || (0x2000 <= n <= 0x200A) || n == 0x2028 || n == 0x2029
    || n == 0x202F || n == 0x205F || n == 0x3000
  }

  predicate IsAsciiDigit(c: char) { '0' <= c <= '9' }

  predicate IsAsciiLetter(c: char) { 'a' <= c <= 'z' || 'A' <= c <= 'Z' }

  /** Python's `s.startswith(p)`. */
  predicate StartsWith(s: string, p: string) {
    |p| <= |s| && s[..|p|] == p
  }

  /** Python's `s[i:j]` for non-negative `i` and `j`: both ends are clamped
      to the length, and an empty range gives the empty string. */
  function Slice<T>(s: seq<T>, i: nat, j: nat): (r: seq<T>)
    ensures |r| <= |s| && |r| <= if i <= j then j - i else 0
    ensures i <= j <= |s| ==> r == s[i..j]
    ensures i >= |s| || j <= i ==> r == []
  {
    var lo := if i < |s| then i else |s|;
    var hi := if j < |s| then j else |s|;
    if lo < hi then s[lo..hi] else []
  }

  /** Python's `s[i:]` for non-negative `i`. */
  function From<T>(s: seq<T>, i: nat): (r: seq<T>)
    ensures i <= |s| ==> r == s[i..]
    ensures i >= |s| ==> r == []
  {
    if i <= |s| then s[i..] else []
  }

  /** Drops the trailing elements that satisfy `ws` (`rstrip()`). */
  function TrimEnd<T>(s: seq<T>, ws: T -> bool): (r: seq<T>)
    ensures r <= s
    ensures |r| > 0 ==> !ws(r[|r| - 1])
    ensures forall k :: |r| <= k < |s| ==> ws(s[k])
    decreases |s|
  {
    if |s| > 0 && ws(s[|s| - 1]) then TrimEnd(s[..|s| - 1], ws) else s
  }

  /** Drops the leading elements that satisfy `ws` (`lstrip()`). */
  function TrimStart<T>(s: seq<T>, ws: T -> bool): (r: seq<T>)
    ensures |r| <= |s| && r == s[|s| - |r|..]
    ensures |r| > 0 ==> !ws(r[0])
    ensures forall k :: 0 <= k < |s| - |r| ==> ws(s[k])
    decreases |s|
  {
    if |s| > 0 && ws(s[0]) then TrimStart(s[1..], ws) else s
  }

  /** Python's `str.rstrip()` with no argument. */
  function RStrip(s: string): string { TrimEnd(s, IsSpace) }

  /** Python's `str.strip()` with no argument. */
  function Strip(s: string): string { TrimStart(TrimEnd(s, IsSpace), IsSpace) }

  /** `strip()` never lengthens, leaves no whitespace at either end, and
      leaves text that has none there as it is. */
  lemma StripTrims(s: string)
    ensures |Strip(s)| <= |s|
    ensures Strip(s) != [] ==> !IsSpace(Strip(s)[0]) && !IsSpace(Strip(s)[|Strip(s)| - 1])
    ensures s != [] && !IsSpace(s[0]) && !IsSpace(s[|s| - 1]) ==> Strip(s) == s
  {
    var e := TrimEnd(s, IsSpace);
    var r := TrimStart(e, IsSpace);
    if r != [] {
      assert r[|r| - 1] == e[|e| - 1];
    }
  }

  /** Regrouping a concatenation. */
  lemma ConcatAssoc<T>(a: seq<T>, b: seq<T>, c: seq<T>)
    ensures a + b + c == a + (b + c)
  {
  }

  /** The front of a concatenation. */
  lemma TakeConcat<T>(a: seq<T>, b: seq<T>)
    ensures (a + b)[..|a|] == a
  {
  }

  /** A slice within the left part of a concatenation. */
  lemma SliceConcatLeft<T>(a: seq<T>, b: seq<T>, i: nat, j: nat)
    requires i <= j <= |a|
    ensures (a + b)[i..j] == a[i..j]
  {
  }

  /** The right part of a concatenation, sliced out. */
  lemma SliceConcatRight<T>(a: seq<T>, b: seq<T>)
    ensures (a + b)[|a|..|a| + |b|] == b
  {
  }

  /** Stripping text that has no whitespace at either end, surrounded by
      any amount of whitespace, gives back that text. */
  lemma {:induction false} StripPadded(pre: string, t: string, post: string)
    requires forall k :: 0 <= k < |pre| ==> IsSpace(pre[k])
    requires forall k :: 0 <= k < |post| ==> IsSpace(post[k])
    requires t != [] ==> !IsSpace(t[0]) && !IsSpace(t[|t| - 1])
    ensures Strip(pre + t + post) == t
  {
    var s := pre + t + post;
    var e := TrimEnd(s, IsSpace);
    TrimEndPadded(pre + t, post);
    assert e == TrimEnd(pre + t, IsSpace);
    if t == [] {
      assert pre + t == pre;
      AllSpaceTrimsToEmpty(pre);
    } else {
      assert TrimEnd(pre + t, IsSpace) == pre + t;
      TrimStartPadded(pre, t);
    }
  }

  lemma {:induction false} TrimEndPadded(s: string, post: string)
    requires forall k :: 0 <= k < |post| ==> IsSpace(post[k])
    ensures TrimEnd(s + post, IsSpace) == TrimEnd(s, IsSpace)
    decreases |post|
  {
    if post != [] {
      var s' := s + post;
      assert s'[..|s'| - 1] == s + post[..|post| - 1];
      TrimEndPadded(s, post[..|post| - 1]);
    } else {
      assert s + post == s;
    }
  }

  lemma {:induction false} TrimStartPadded(pre: string, t: string)
    requires forall k :: 0 <= k < |pre| ==> IsSpace(pre[k])
    requires t != [] && !IsSpace(t[0])
    ensures TrimStart(pre + t, IsSpace) == t
    decreases |pre|
  {
    if pre != [] {
      assert (pre + t)[1..] == pre[1..] + t;
      TrimStartPadded(pre[1..], t);
    } else {
      assert pre + t == t;
    }
  }

  lemma {:induction false} AllSpaceTrimsToEmpty(s: string)
    requires forall k :: 0 <= k < |s| ==> IsSpace(s[k])
    ensures TrimEnd(s, IsSpace) == []
    decreases |s|
  {
    if s != [] {
      AllSpaceTrimsToEmpty(s[..|s| - 1]);
    }
  }

  /** Python's `s.split(sep, 1)`: the text before the first `sep` and the
      text after it, or `[s]` when `sep` does not occur. */
  function SplitOnce(s: string, sep: char): (r: seq<string>)
    ensures 1 <= |r| <= 2
    ensures sep !in r[0]
    ensures |r| == 1 <==> sep !in s
    ensures |r| == 1 ==> r[0] == s
    ensures |r| == 2 ==> r[0] + [sep] + r[1] == s
    decreases |s|
  {
    if |s| == 0 then [s]
    else if s[0] == sep then ["", s[1..]]
    else
      var t := SplitOnce(s[1..], sep);
      assert s == [s[0]] + s[1..];
      if |t| == 1 then [s] else [[s[0]] + t[0], t[1]]
  }

  /** Python's `str.upper()` on one character, for the ASCII letters. */
  function UpperChar(c: char): (u: char)
    ensures 'a' <= c <= 'z' ==> u as int == c as int - 32
    ensures !('a' <= c <= 'z') ==> u == c
  {
    if 'a' <= c <= 'z' then (c as int - 32) as char else c
  }

  /** `str.upper()` on text whose letters are all ASCII. */
  function Upper(s: string): (r: string)
    ensures |r| == |s|
    ensures forall k :: 0 <= k < |s| ==> r[k] == UpperChar(s[k])
  {
    seq(|s|, k requires 0 <= k < |s| => UpperChar(s[k]))
  }

  predicate AllDigits(s: string) {
    forall k :: 0 <= k < |s| ==> IsAsciiDigit(s[k])
  }

  /** The value of a non-empty run of ASCII digits, read left to right. */
  function DigitsValue(s: string): (v: nat)
    requires forall k :: 0 <= k < |s| ==> IsAsciiDigit(s[k])
    decreases |s|
  {
    if |s| == 0 then 0
    else
      assert IsAsciiDigit(s[|s| - 1]);
      DigitsValue(s[..|s| - 1]) * 10 + (s[|s| - 1] as int - '0' as int)
  }

  /** Python's `int(token)` for a token without whitespace: an optional
      sign followed by one or more ASCII digits; anything else is the
      `ValueError` the source would raise. */
  function ParseInt(token: string): (r: Option<int>)
    ensures r.Some? ==> |token| > 0
  {
    var signed := |token| > 0 && (token[0] == '+' || token[0] == '-');
    var digits := if signed then token[1..] else token;
    if |digits| == 0 || !AllDigits(digits) then None
    else
      var v: int := DigitsValue(digits);
      if signed && token[0] == '-' then Some(-v) else Some(v)
  }

  /** `int()` accepts exactly an optional sign followed by one or more
      digits; only a minus sign gives a negative number, and plain digits
      always parse. */
  lemma ParseIntAccepts(token: string)
    ensures ParseInt(token).Some? <==>
      && |token| > 0
      && (IsAsciiDigit(token[0]) || ((token[0] == '+' || token[0] == '-') && |token| > 1))
      && forall k :: 1 <= k < |token| ==> IsAsciiDigit(token[k])
    ensures ParseInt(token).Some? && ParseInt(token).value < 0 ==> token[0] == '-'
  {
    if |token| > 0 && (token[0] == '+' || token[0] == '-') {
      var digits := token[1..];
      assert forall k :: 1 <= k < |token| ==> token[k] == digits[k - 1];
      assert (forall k :: 1 <= k < |token| ==> IsAsciiDigit(token[k]))
        <==> (forall k :: 0 <= k < |digits| ==> IsAsciiDigit(digits[k]));
    } else if |token| > 0 {
      assert (IsAsciiDigit(token[0]) && forall k :: 1 <= k < |token| ==> IsAsciiDigit(token[k]))
        <==> (forall k :: 0 <= k < |token| ==> IsAsciiDigit(token[k]));
    }
  }

  /** The decimal spelling of a natural number, as Python's `str(n)`. */
  function Decimal(n: nat): (s: string)
    ensures |s| > 0
    ensures forall k :: 0 <= k < |s| ==> IsAsciiDigit(s[k])
  {
    var d := ('0' as int + n % 10) as char;
    if n < 10 then [d] else Decimal(n / 10) + [d]
  }

  /** `int(str(n)) == n`: the integer parse inverts decimal printing, and a
      leading minus sign negates it. */
  lemma {:induction false} ParseIntDecimal(n: nat)
    ensures ParseInt(Decimal(n)) == Some(n)
    ensures ParseInt("-" + Decimal(n)) == Some(-(n as int))
  {
    DigitsValueDecimal(n);
    var s := Decimal(n);
    assert ("-" + s)[1..] == s;
  }

  lemma {:induction false} DigitsValueDecimal(n: nat)
    ensures DigitsValue(Decimal(n)) == n
  {
    var s := Decimal(n);
    if n >= 10 {
      DigitsValueDecimal(n / 10);
      assert s[..|s| - 1] == Decimal(n / 10);
    }
  }
}
