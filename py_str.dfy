/**
  The Python `str` operations the mock heat API applies to its query
  parameters: `split` on one separator character, `join`, `strip()` with no
  argument, `replace(c, '')`, `str(int)` and the `02d` format.
 */
module PyStr {

  /** Python's `str.isspace()` for one character (the set `strip()` removes). */
  predicate IsSpace(c: char)
  {
    var u := c as int;
    (0x09 <= u <= 0x0D) || (0x1C <= u <= 0x20) || u == 0x85 || u == 0xA0 || u == 0x1680
    || (0x2000 <= u <= 0x200A) || u == 0x2028 || u == 0x2029 || u == 0x202F || u == 0x205F
    || u == 0x3000
  }

  predicate AllSpace(s: string)
  {
    forall k :: 0 <= k < |s| ==> IsSpace(s[k])
  }

  /** Number of occurrences of `c` in `s`. */
  function Count(c: char, s: string): nat
  {
    if s == [] then 0 else (if s[0] == c then 1 else 0) + Count(c, s[1..])
  }

  // ---------------------------------------------------------------- strip

  /** `s.lstrip()`: what is left of `s` after its leading whitespace. */
  function LStrip(s: string): (r: string)
    ensures |r| <= |s| && AllSpace(s[..|s| - |r|])
    ensures r == [] || !IsSpace(r[0])
  {
    if s != [] && IsSpace(s[0]) then
      var r := LStrip(s[1..]);
      assert s[1..][..|s[1..]| - |r|] == s[1..|s| - |r|];
      r
    else s
  }

  /** What `lstrip()` keeps is a suffix of its input. */
  lemma {:induction false} LStripIsSuffix(s: string)
    ensures LStrip(s) == s[|s| - |LStrip(s)|..]
  {
    if s != [] && IsSpace(s[0]) {
      LStripIsSuffix(s[1..]);
    }
  }

  /** `s.rstrip()`: what is left of `s` after its trailing whitespace. */
  function RStrip(s: string): (r: string)
    ensures |r| <= |s| && AllSpace(s[|r|..])
    ensures r == [] || !IsSpace(r[|r| - 1])
  {
    if s != [] && IsSpace(s[|s| - 1]) then
      var r := RStrip(s[..|s| - 1]);
      assert s[..|s| - 1][|r|..] + [s[|s| - 1]] == s[|r|..];
      r
    else s
  }

  /** What `rstrip()` keeps is a prefix of its input. */
  lemma {:induction false} RStripIsPrefix(s: string)
    ensures RStrip(s) == s[..|RStrip(s)|]
  {
    if s != [] && IsSpace(s[|s| - 1]) {
      RStripIsPrefix(s[..|s| - 1]);
    }
  }

  /** `s.strip()`: `s` without its leading and trailing whitespace. */
  function Strip(s: string): string
  {
    RStrip(LStrip(s))
  }

  /** `strip()` cuts `s` down to the slice between its leading and trailing whitespace. */
  lemma StripIsTrimmedSlice(s: string)
    ensures var r := Strip(s);
      exists i, j :: 0 <= i <= j <= |s| && r == s[i..j] && AllSpace(s[..i]) && AllSpace(s[j..])
    ensures var r := Strip(s);
      r == [] || (!IsSpace(r[0]) && !IsSpace(r[|r| - 1]))
  {
    var l := LStrip(s);
    var r := RStrip(l);
    var i := |s| - |l|;
    LStripIsSuffix(s);
    RStripIsPrefix(l);
    assert r == s[i..i + |r|];
    assert s[i + |r|..] == l[|r|..];
  }

  lemma {:induction false} LStripSpacePrefix(w: string, s: string)
    requires AllSpace(w)
    ensures LStrip(w + s) == LStrip(s)
    decreases |w|
  {
    if w != [] {
      assert (w + s)[1..] == w[1..] + s;
      LStripSpacePrefix(w[1..], s);
    } else {
      assert w + s == s;
    }
  }

  lemma {:induction false} RStripSpaceSuffix(s: string, w: string)
    requires AllSpace(w)
    ensures RStrip(s + w) == RStrip(s)
    decreases |w|
  {
    if w != [] {
      assert (s + w)[..|s + w| - 1] == s + w[..|w| - 1];
      RStripSpaceSuffix(s, w[..|w| - 1]);
    } else {
      assert s + w == s;
    }
  }

  /** Left-stripping a concatenation strips into the second part only when the first is all blank. */
  lemma {:induction false} LStripAppend(s: string, t: string)
    ensures LStrip(s + t) == if LStrip(s) == [] then LStrip(t) else LStrip(s) + t
    decreases |s|
  {
    if s == [] {
      assert s + t == t;
    } else if IsSpace(s[0]) {
      assert (s + t)[1..] == s[1..] + t;
      LStripAppend(s[1..], t);
    }
  }

  /** Whitespace around a piece never changes what `strip()` returns. */
  lemma {:induction false} StripIgnoresPadding(w1: string, s: string, w2: string)
    requires AllSpace(w1) && AllSpace(w2)
    ensures Strip(w1 + s + w2) == Strip(s)
  {
    assert w1 + s + w2 == w1 + (s + w2);
    LStripSpacePrefix(w1, s + w2);
    assert LStrip(w1 + s + w2) == LStrip(s + w2);
    LStripAppend(s, w2);
    if LStrip(s) == [] {
      assert LStrip(w2) == [] by {
        assert w2 == w2 + [];
        LStripSpacePrefix(w2, []);
      }
      assert LStrip(s + w2) == LStrip(s);
    } else {
      assert LStrip(s + w2) == LStrip(s) + w2;
      RStripSpaceSuffix(LStrip(s), w2);
    }
  }

  /** Helper: padding with whitespace adds no occurrence of a non-space character. */
  lemma PaddingAddsNoChar(c: char, w1: string, s: string, w2: string)
    requires !IsSpace(c) && c !in s
    requires AllSpace(w1) && AllSpace(w2)
    ensures c !in w1 + s + w2
  {
  }

  /** A string that neither starts nor ends with whitespace is left as it is. */
  lemma StripUnpadded(s: string)
    requires s == [] || (!IsSpace(s[0]) && !IsSpace(s[|s| - 1]))
    ensures Strip(s) == s
  {
  }

  /** `strip()` is idempotent. */
  lemma StripIdempotent(s: string)
    ensures Strip(Strip(s)) == Strip(s)
  {
    var r := Strip(s);
    RStripIsPrefix(LStrip(s));
    assert LStrip(r) == r;
    assert RStrip(r) == r;
  }

  // ---------------------------------------------------------- split / join

  /** `s.split(sep)` for a one-character separator: never empty, and no piece holds `sep`. */
  function Split(sep: char, s: string): (r: seq<string>)
    ensures |r| == Count(sep, s) + 1
    ensures forall i :: 0 <= i < |r| ==> sep !in r[i]
  {
    if s == [] then [[]]
    else
      var rest := Split(sep, s[1..]);
      if s[0] == sep then [[]] + rest
      else [[s[0]] + rest[0]] + rest[1..]
  }

  /** `sep.join(ps)`. */
  function Join(sep: char, ps: seq<string>): string
  {
    if ps == [] then []
    else if |ps| == 1 then ps[0]
    else ps[0] + [sep] + Join(sep, ps[1..])
  }

  /** Joining the pieces of a split gives back the original string. */
  lemma {:induction false} JoinSplit(sep: char, s: string)
    ensures Join(sep, Split(sep, s)) == s
  {
    if s != [] {
      var rest := Split(sep, s[1..]);
      JoinSplit(sep, s[1..]);
      if s[0] != sep {
        if |rest| > 1 {
          assert Split(sep, s)[1..] == rest[1..];
        }
      }
    }
  }

  lemma {:induction false} SplitNoSep(sep: char, a: string)
    requires sep !in a
    ensures Split(sep, a) == [a]
  {
    if a != [] {
      SplitNoSep(sep, a[1..]);
      assert a[0] != sep;
      assert [a[0]] + a[1..] == a;
    }
  }

  lemma {:induction false} SplitAtSep(sep: char, a: string, b: string)
    requires sep !in a
    ensures Split(sep, a + [sep] + b) == [a] + Split(sep, b)
    decreases |a|
  {
    if a == [] {
      assert a + [sep] + b == [sep] + b;
      assert ([sep] + b)[1..] == b;
    } else {
      assert (a + [sep] + b)[1..] == a[1..] + [sep] + b;
      SplitAtSep(sep, a[1..], b);
      assert [a[0]] + a[1..] == a;
    }
  }

  /** Splitting a join of separator-free pieces gives back the pieces. */
  lemma {:induction false} SplitJoin(sep: char, ps: seq<string>)
    requires |ps| >= 1
    requires forall i :: 0 <= i < |ps| ==> sep !in ps[i]
    ensures Split(sep, Join(sep, ps)) == ps
  {
    if |ps| == 1 {
      SplitNoSep(sep, ps[0]);
    } else {
      SplitJoin(sep, ps[1..]);
      SplitAtSep(sep, ps[0], Join(sep, ps[1..]));
    }
  }

  // --------------------------------------------------------------- replace

  /** `s.replace(c, '')`: every occurrence of `c` removed, the rest kept in order. */
  function Remove(c: char, s: string): (r: string)
    ensures c !in r
    ensures |r| == |s| - Count(c, s)
    ensures c !in s ==> r == s
  {
    if s == [] then []
    else if s[0] == c then Remove(c, s[1..])
    else [s[0]] + Remove(c, s[1..])
  }

  lemma {:induction false} RemoveAppend(c: char, s: string, t: string)
    ensures Remove(c, s + t) == Remove(c, s) + Remove(c, t)
  {
    if s == [] {
      assert s + t == t;
    } else {
      assert (s + t)[1..] == s[1..] + t;
      RemoveAppend(c, s[1..], t);
    }
  }

  // ------------------------------------------------------ integer formatting

  predicate IsDigit(c: char)
  {
    '0' <= c <= '9'
  }

  predicate AllDigits(s: string)
  {
    forall k :: 0 <= k < |s| ==> IsDigit(s[k])
  }

  function DigitChar(d: nat): (c: char)
    requires d < 10
    ensures IsDigit(c) && (c as int) - ('0' as int) == d
  {
    ('0' as int + d) as char
  }

  function DigitValue(c: char): nat
    requires IsDigit(c)
  {
    (c as int) - ('0' as int)
  }

  /** `str(n)` for a non-negative integer: its decimal digits, no leading zero. */
  function DecimalStr(n: nat): (s: string)
    ensures |s| >= 1 && AllDigits(s)
    ensures |s| > 1 ==> s[0] != '0'
    ensures n < 10 <==> |s| == 1
  {
    if n < 10 then [DigitChar(n)] else DecimalStr(n / 10) + [DigitChar(n % 10)]
  }

  /** `str(i)` for any Python int. */
  function IntStr(i: int): string
  {
    if i < 0 then "-" + DecimalStr(-i) else DecimalStr(i)
  }

  /** The `02d` format of a non-negative integer: decimal, zero-padded to at least two digits. */
  function ZeroPad2(n: nat): (s: string)
    ensures AllDigits(s) && |s| >= 2
  {
    var d := DecimalStr(n);
    if |d| < 2 then "0" + d else d
  }

  /** The value of a string of decimal digits (leading zeros allowed), as `int(s)` reads it. */
  function DecimalValue(s: string): nat
    requires AllDigits(s)
  {
    if s == [] then 0 else 10 * DecimalValue(s[..|s| - 1]) + DigitValue(s[|s| - 1])
  }

  /** Reading back the decimal text of `n` gives `n`. */
  lemma {:induction false} DecimalRoundTrip(n: nat)
    ensures DecimalValue(DecimalStr(n)) == n
  {
    if n >= 10 {
      var s := DecimalStr(n);
      assert s[..|s| - 1] == DecimalStr(n / 10);
      DecimalRoundTrip(n / 10);
    }
  }

  /** `str(n)` is injective on non-negative integers. */
  lemma DecimalStrInjective(m: nat, n: nat)
    requires DecimalStr(m) == DecimalStr(n)
    ensures m == n
  {
    DecimalRoundTrip(m);
    DecimalRoundTrip(n);
  }

  /** For hours 0..23 (indeed any n < 100) the folder name is exactly two digits spelling `n`. */
  lemma ZeroPad2TwoDigits(n: nat)
    requires n < 100
    ensures |ZeroPad2(n)| == 2
    ensures DecimalValue(ZeroPad2(n)) == n
    ensures DigitValue(ZeroPad2(n)[0]) == n / 10 && DigitValue(ZeroPad2(n)[1]) == n % 10
  {
    var s := ZeroPad2(n);
    if n >= 10 {
      assert DecimalStr(n / 10) == [DigitChar(n / 10)];
    }
    assert s == [DigitChar(n / 10), DigitChar(n % 10)];
    assert s[..1] == [s[0]];
    assert s[..1][..0] == [];
    assert DecimalValue(s[..1]) == DigitValue(s[0]);
    assert DecimalValue(s) == 10 * DigitValue(s[0]) + DigitValue(s[1]);
  }
}
