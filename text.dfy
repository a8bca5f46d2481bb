/** String operations with Python's meaning: `str.strip`, `str.split`, `str.join`,
    `str(int)`, `startswith` and the code-point order `<` on `str`. */
module Text {
  import opened Base

  /** Python's `str.isspace` for one character: the ASCII controls TAB..CR and FS..US,
      SPACE, NEL, NO-BREAK SPACE and the Unicode space separators and line/paragraph
      separators. */
  predicate IsSpace(c: char) {
    var n := c as int;
    (9 <= n <= 13) || (28 <= n <= 32) || n == 0x85 || n == 0xA0 || n == 0x1680 ||
    (0x2000 <= n <= 0x200A) || n == 0x2028 || n == 0x2029 || n == 0x202F ||
    n == 0x205F || n == 0x3000
  }

  predicate AllSpace(s: string) {
    forall i :: 0 <= i < |s| ==> IsSpace(s[i])
  }

  /** The index of the first non-whitespace character at or after `i`, or `|s|`. */
  function SkipSpace(s: string, i: nat): (n: nat)
    requires i <= |s|
    ensures i <= n <= |s|
    ensures forall j :: i <= j < n ==> IsSpace(s[j])
    ensures n == |s| || !IsSpace(s[n])
    decreases |s| - i
  {
    if i < |s| && IsSpace(s[i]) then SkipSpace(s, i + 1) else i
  }

  /** The index just past the last non-whitespace character before `k`, or 0. */
  function TrimEnd(s: string, k: nat): (n: nat)
    requires k <= |s|
    ensures n <= k
    ensures forall j :: n <= j < k ==> IsSpace(s[j])
    ensures n == 0 || !IsSpace(s[n - 1])
    decreases k
  {
    if k > 0 && IsSpace(s[k - 1]) then TrimEnd(s, k - 1) else k
  }

  /** `s.strip()`: the part of `s` left between its leading and trailing whitespace. */
  function Strip(s: string): string
  {
    var i := SkipSpace(s, 0);
    if i == |s| then [] else s[i..TrimEnd(s, |s|)]
  }

  /** Where the stripped text sits: between the first visible character and the end of
      the last one. */
  lemma StripBounds(s: string)
    ensures SkipSpace(s, 0) < |s| ==>
              SkipSpace(s, 0) < TrimEnd(s, |s|) && Strip(s) == s[SkipSpace(s, 0)..TrimEnd(s, |s|)]
    ensures SkipSpace(s, 0) == |s| ==> Strip(s) == []
  {
  }

  /** The stripped text is a slice of `s` with only whitespace around it, it begins and
      ends with visible characters, and it is empty exactly when `s` is all whitespace. */
  lemma StripSpec(s: string)
    ensures var r := Strip(s);
            exists i :: 0 <= i <= i + |r| <= |s| && r == s[i..i + |r|] &&
                        AllSpace(s[..i]) && AllSpace(s[i + |r|..])
    ensures var r := Strip(s); r == [] || (!IsSpace(r[0]) && !IsSpace(r[|r| - 1]))
    ensures Strip(s) == [] <==> AllSpace(s)
  {
    StripBounds(s);
    var i := SkipSpace(s, 0);
    if i == |s| {
      assert AllSpace(s[..|s|]);
      assert AllSpace(s[|s|..]);
    } else {
      var e := TrimEnd(s, |s|);
      var r := s[i..e];
      assert r[0] == s[i] && r[|r| - 1] == s[e - 1];
      assert AllSpace(s[..i]);
      assert AllSpace(s[e..]);
      assert r == s[i..i + |r|];
    }
  }

  /** Text visible at both ends is its own strip. */
  lemma StripVisible(s: string)
    requires s != [] && !IsSpace(s[0]) && !IsSpace(s[|s| - 1])
    ensures Strip(s) == s
  {
    assert SkipSpace(s, 0) == 0;
    assert TrimEnd(s, |s|) == |s|;
    assert s[0..|s|] == s;
  }

  /** Stripping text that ends in a visible character drops only leading whitespace. */
  lemma StripVisibleEnd(s: string)
    requires s != [] && !IsSpace(s[|s| - 1])
    ensures SkipSpace(s, 0) < |s| && Strip(s) == s[SkipSpace(s, 0)..]
  {
    var e := TrimEnd(s, |s|);
    assert e == |s|;
  }

  /** Dropping a prefix no longer than `|s| - |suffix|` keeps the suffix. */
  lemma EndsWithDrop(s: string, suffix: string, i: nat)
    requires EndsWith(s, suffix) && i <= |s| - |suffix|
    ensures EndsWith(s[i..], suffix)
  {
    assert s[i..][|s| - i - |suffix|..] == s[|s| - |suffix|..];
  }

  /** A suffix that begins and ends with visible characters survives stripping. */
  lemma SuffixSurvivesStrip(s: string, suffix: string)
    requires EndsWith(s, suffix) && suffix != []
    requires !IsSpace(suffix[0]) && !IsSpace(suffix[|suffix| - 1])
    ensures EndsWith(Strip(s), suffix)
  {
    var j := |s| - |suffix|;
    assert s[|s| - 1] == suffix[|suffix| - 1];
    assert s[j] == suffix[0];
    StripVisibleEnd(s);
    var i := SkipSpace(s, 0);
    assert i <= j;
    EndsWithDrop(s, suffix, i);
  }

  /** A prefix that begins with a visible character survives stripping when a visible
      character follows it somewhere. */
  lemma PrefixSurvivesStrip(s: string, prefix: string, k: nat)
    requires StartsWith(s, prefix) && prefix != [] && !IsSpace(prefix[0])
    requires |prefix| <= k < |s| && !IsSpace(s[k])
    ensures StartsWith(Strip(s), prefix)
  {
    assert s[0] == prefix[0];
    assert SkipSpace(s, 0) == 0;
    var e := TrimEnd(s, |s|);
    assert k < e;
    assert Strip(s) == s[0..e];
    assert s[0..e][..|prefix|] == s[..|prefix|];
  }

  predicate StartsWith(s: string, prefix: string) {
    |prefix| <= |s| && s[..|prefix|] == prefix
  }

  predicate EndsWith(s: string, suffix: string) {
    |suffix| <= |s| && s[|s| - |suffix|..] == suffix
  }

  /** The text before the first `sep`, or all of `s` when it has none. */
  function FirstField(s: string, sep: char): (r: string)
    ensures sep !in r
    ensures |r| <= |s| && r == s[..|r|]
    ensures |r| < |s| ==> s[|r|] == sep
    decreases |s|
  {
    if s == [] || s[0] == sep then [] else [s[0]] + FirstField(s[1..], sep)
  }

  /** `s.split(sep)` for a one-character separator: never empty; `"".split(",") == [""]`. */
  function Split(s: string, sep: char): (r: seq<string>)
    ensures |r| >= 1
    decreases |s|
  {
    var head := FirstField(s, sep);
    if |head| == |s| then [s] else [head] + Split(s[|head| + 1..], sep)
  }

  /** `sep.join(parts)`. */
  function Join(parts: seq<string>, sep: string): string
  {
    if parts == [] then ""
    else if |parts| == 1 then parts[0]
    else parts[0] + sep + Join(parts[1..], sep)
  }

  /** The first field of a split is the text before the first separator. */
  lemma SplitHead(s: string, sep: char)
    ensures Split(s, sep)[0] == FirstField(s, sep)
  {
    var head := FirstField(s, sep);
    if |head| == |s| { assert head == s; }
  }

  lemma {:induction false} FirstFieldOfJoined(a: string, sep: char, rest: string)
    requires sep !in a
    ensures FirstField(a + [sep] + rest, sep) == a
    decreases |a|
  {
    if a == [] {
      assert (a + [sep] + rest)[0] == sep;
    } else {
      assert (a + [sep] + rest)[1..] == a[1..] + [sep] + rest;
      FirstFieldOfJoined(a[1..], sep, rest);
    }
  }

  lemma {:induction false} FirstFieldWithoutSeparator(s: string, sep: char)
    requires sep !in s
    ensures FirstField(s, sep) == s
    decreases |s|
  {
    if s != [] {
      assert sep !in s[1..] by {
        forall k | 0 <= k < |s[1..]| ensures s[1..][k] != sep { assert s[1..][k] == s[k + 1]; }
      }
      FirstFieldWithoutSeparator(s[1..], sep);
    }
  }

  /** Joining the fields of a split gives back the text. */
  lemma {:induction false} JoinSplit(s: string, sep: char)
    ensures Join(Split(s, sep), [sep]) == s
    decreases |s|
  {
    var head := FirstField(s, sep);
    if |head| < |s| {
      var tail := s[|head| + 1..];
      var rest := Split(tail, sep);
      JoinSplit(tail, sep);
      assert Split(s, sep) == [head] + rest;
      assert ([head] + rest)[1..] == rest;
      assert Join([head] + rest, [sep]) == head + [sep] + Join(rest, [sep]);
      assert s == head + [sep] + tail;
    }
  }

  /** Splitting a join of separator-free parts gives the parts back. */
  lemma {:induction false} SplitJoin(parts: seq<string>, sep: char)
    requires |parts| >= 1
    requires forall k :: 0 <= k < |parts| ==> sep !in parts[k]
    ensures Split(Join(parts, [sep]), sep) == parts
    decreases |parts|
  {
    if |parts| == 1 {
      var s := parts[0];
      assert FirstField(s, sep) == s by { FirstFieldWithoutSeparator(s, sep); }
    } else {
      var rest := Join(parts[1..], [sep]);
      var s := parts[0] + [sep] + rest;
      assert Join(parts, [sep]) == s;
      FirstFieldOfJoined(parts[0], sep, rest);
      assert s[|parts[0]| + 1..] == rest;
      SplitJoin(parts[1..], sep);
      assert parts == [parts[0]] + parts[1..];
    }
  }

  /** The decimal digit for `d`. */
  function DigitChar(d: nat): (c: char)
    requires d < 10
    ensures '0' <= c <= '9' && c as int - '0' as int == d
  {
    (d + '0' as int) as char
  }

  predicate IsDigits(s: string) {
    forall i :: 0 <= i < |s| ==> '0' <= s[i] <= '9'
  }

  /** `str(n)` for a natural number: decimal digits with no leading zero. */
  function NatToString(n: nat): (r: string)
    ensures |r| >= 1 && IsDigits(r)
    ensures r[0] == '0' ==> n == 0 && r == "0"
    decreases n
  {
    if n < 10 then [DigitChar(n)] else NatToString(n / 10) + [DigitChar(n % 10)]
  }

  /** `str(i)` / `f"{i}"` for an integer. */
  function IntToString(i: int): (r: string)
    ensures |r| >= 1
    ensures r[0] == '-' <==> i < 0
    ensures forall k :: 0 <= k < |r| ==> r[k] == '-' || '0' <= r[k] <= '9'
    ensures r[0] == '0' ==> r == "0"
    ensures '-' !in r[1..]
    ensures r[0] == '-' ==> |r| > 1 && r[1] != '0'
  {
    if i < 0 then "-" + NatToString(-i) else NatToString(i)
  }

  /** The number a string of decimal digits denotes. */
  function DigitsValue(s: string): nat
    requires IsDigits(s)
  {
    if s == [] then 0 else DigitsValue(s[..|s| - 1]) * 10 + (s[|s| - 1] as int - '0' as int)
  }

  /** Python's `int(s)` restricted to what `str` produces: an optional minus and digits. */
  function ParseInt(s: string): Option<int>
  {
    if |s| > 0 && s[0] == '-' && |s| > 1 && IsDigits(s[1..]) then Some(0 - DigitsValue(s[1..]))
    else if |s| > 0 && IsDigits(s) then Some(DigitsValue(s))
    else None
  }

  lemma {:induction false} NatToStringValue(n: nat)
    ensures DigitsValue(NatToString(n)) == n
    decreases n
  {
    if n >= 10 {
      var r := NatToString(n);
      NatToStringValue(n / 10);
      assert r[..|r| - 1] == NatToString(n / 10);
    }
  }

  /** `int(str(i)) == i`: integer formatting loses nothing. */
  lemma IntToStringRoundTrip(i: int)
    ensures ParseInt(IntToString(i)) == Some(i)
  {
    if i < 0 {
      NegativeRoundTrip(-i);
    } else {
      NatRoundTrip(i);
    }
  }

  lemma NegativeRoundTrip(n: nat)
    requires n > 0
    ensures ParseInt("-" + NatToString(n)) == Some(-(n as int))
  {
    var t := NatToString(n);
    var s := "-" + t;
    NatToStringValue(n);
    assert s[1..] == t;
  }

  lemma NatRoundTrip(n: nat)
    ensures ParseInt(NatToString(n)) == Some(n)
  {
    var s := NatToString(n);
    NatToStringValue(n);
    assert s[0] != '-';
  }

  /** Python's `a < b` on `str`: lexicographic by code point, a proper prefix first. */
  predicate LexLess(a: string, b: string)
    decreases |a|
  {
    if a == [] then b != []
    else if b == [] then false
    else if a[0] != b[0] then a[0] < b[0]
    else LexLess(a[1..], b[1..])
  }

  lemma {:induction false} LexLessIrreflexive(a: string)
    ensures !LexLess(a, a)
    decreases |a|
  {
    if a != [] { LexLessIrreflexive(a[1..]); }
  }

  lemma {:induction false} LexLessTotal(a: string, b: string)
    requires a != b
    ensures LexLess(a, b) != LexLess(b, a)
    decreases |a|
  {
    if a != [] && b != [] && a[0] == b[0] {
      assert a == [a[0]] + a[1..] && b == [b[0]] + b[1..];
      LexLessTotal(a[1..], b[1..]);
    }
  }

  lemma {:induction false} LexLessTransitive(a: string, b: string, c: string)
    requires LexLess(a, b) && LexLess(b, c)
    ensures LexLess(a, c)
    decreases |a|
  {
    if a != [] && a[0] == b[0] && b[0] == c[0] {
      LexLessTransitive(a[1..], b[1..], c[1..]);
    }
  }

  /** Every finite non-empty set of strings has a least member under `<`. */
  lemma {:induction false} LeastStringExists(names: set<string>)
    requires names != {}
    ensures exists m :: m in names && forall x :: x in names && x != m ==> LexLess(m, x)
    decreases |names|
  {
    var y :| y in names;
    var rest := names - {y};
    if rest == {} {
      assert names == {y};
      assert forall x :: x in names && x != y ==> LexLess(y, x);
    } else {
      LeastStringExists(rest);
      var m :| m in rest && forall x :: x in rest && x != m ==> LexLess(m, x);
      if LexLess(y, m) {
        forall x | x in names && x != y ensures LexLess(y, x) {
          if x != m { LexLessTransitive(y, m, x); }
        }
      } else {
        LexLessTotal(y, m);
        assert forall x :: x in names && x != m ==> LexLess(m, x);
      }
    }
  }
}
