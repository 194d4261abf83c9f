/** The `java.lang.String` operations the analysed program relies on, over
    `seq<char>`: joining, splitting on a literal character (`String.split`),
    prefix and suffix tests, ASCII lower-casing, `String.replace`, and decimal
    rendering and parsing of integers (`Integer.toString`, `Long.valueOf`).
 */
module Strings {
  import opened Base

  /** `String.join(sep, parts)`. */
  function Join(sep: string, parts: seq<string>): string
    decreases |parts|
  {
    if |parts| == 0 then ""
    else if |parts| == 1 then parts[0]
    else parts[0] + sep + Join(sep, parts[1..])
  }

  /** Splitting on every occurrence of `c`, keeping every piece (also empty ones). */
  function SplitRaw(s: string, c: char): (r: seq<string>)
    ensures |r| >= 1
    ensures forall k :: 0 <= k < |r| ==> c !in r[k]
    decreases |s|
  {
    if |s| == 0 then [""]
    else
      var rest := SplitRaw(s[1..], c);
      if s[0] == c then [""] + rest
      else [[s[0]] + rest[0]] + rest[1..]
  }

  function DropTrailingEmpty(xs: seq<string>): (r: seq<string>)
    ensures |r| <= |xs| && r == xs[..|r|]
    ensures |r| > 0 ==> r[|r| - 1] != ""
    ensures forall k :: |r| <= k < |xs| ==> xs[k] == ""
    decreases |xs|
  {
    if |xs| > 0 && xs[|xs| - 1] == "" then DropTrailingEmpty(xs[..|xs| - 1]) else xs
  }

  /** `s.split(c)` for a literal, non-special character `c` and limit 0: the
      pieces between occurrences of `c`, trailing empty pieces removed; an input
      without any `c` is returned whole (so `""` splits to `[""]`). */
  function JavaSplit(s: string, c: char): (r: seq<string>)
    ensures forall k :: 0 <= k < |r| ==> c !in r[k]
    ensures c !in s ==> r == [s]
  {
    if c !in s then [s] else DropTrailingEmpty(SplitRaw(s, c))
  }

  /** A list of segments that a dotted name made of them splits back into:
      at least one segment, none empty, none containing the separator. */
  ghost predicate PlainSegments(segs: seq<string>, c: char)
  {
    |segs| > 0 && forall k :: 0 <= k < |segs| ==> segs[k] != "" && c !in segs[k]
  }

  lemma {:induction false} JoinOfSplitRaw(s: string, c: char)
    ensures Join([c], SplitRaw(s, c)) == s
    decreases |s|
  {
    if |s| > 0 {
      var rest := SplitRaw(s[1..], c);
      JoinOfSplitRaw(s[1..], c);
      if s[0] == c {
        assert SplitRaw(s, c) == [""] + rest;
        assert ([""] + rest)[1..] == rest;
        assert s == [c] + s[1..];
      } else {
        var r := SplitRaw(s, c);
        assert r == [[s[0]] + rest[0]] + rest[1..];
        if |rest| == 1 {
          assert s == [s[0]] + s[1..];
        } else {
          assert r[1..] == rest[1..];
          assert Join([c], rest) == rest[0] + [c] + Join([c], rest[1..]);
          assert s == [s[0]] + s[1..];
        }
      }
    }
  }

  lemma {:induction false} SplitRawOfJoin(segs: seq<string>, c: char)
    requires |segs| > 0
    requires forall k :: 0 <= k < |segs| ==> c !in segs[k]
    ensures SplitRaw(Join([c], segs), c) == segs
    decreases |segs|
  {
    if |segs| == 1 {
      SplitRawOfPlain(segs[0], c);
    } else {
      SplitRawOfJoin(segs[1..], c);
      SplitRawConcat(segs[0], Join([c], segs[1..]), c);
      assert Join([c], segs) == segs[0] + ([c] + Join([c], segs[1..]));
      assert [segs[0]] + segs[1..] == segs;
    }
  }

  lemma {:induction false} SplitRawOfPlain(s: string, c: char)
    requires c !in s
    ensures SplitRaw(s, c) == [s]
    decreases |s|
  {
    if |s| > 0 {
      SplitRawOfPlain(s[1..], c);
      assert [s[0]] + s[1..] == s;
    }
  }

  /** Splitting `a + c + b`, where `a` has no `c`, gives `a` then the pieces of `b`. */
  lemma {:induction false} SplitRawConcat(a: string, b: string, c: char)
    requires c !in a
    ensures SplitRaw(a + ([c] + b), c) == [a] + SplitRaw(b, c)
    decreases |a|
  {
    if |a| == 0 {
      assert a + ([c] + b) == [c] + b;
      assert ([c] + b)[1..] == b;
    } else {
      SplitRawConcat(a[1..], b, c);
      var s := a + ([c] + b);
      assert s[0] == a[0];
      assert s[1..] == a[1..] + ([c] + b);
      assert [a[0]] + a[1..] == a;
    }
  }

  /** Round trip: a name joined from plain segments splits back into them. */
  lemma SplitOfJoin(segs: seq<string>, c: char)
    requires PlainSegments(segs, c)
    ensures JavaSplit(Join([c], segs), c) == segs
  {
    var s := Join([c], segs);
    SplitRawOfJoin(segs, c);
    if c !in s {
      SplitRawOfPlain(s, c);
    }
  }

  /** Round trip: a name whose split has no empty piece joins back to itself. */
  lemma JoinOfSplit(s: string, c: char)
    requires forall k :: 0 <= k < |SplitRaw(s, c)| ==> SplitRaw(s, c)[k] != ""
    ensures Join([c], JavaSplit(s, c)) == s
  {
    JoinOfSplitRaw(s, c);
    if c in s {
      var raw := SplitRaw(s, c);
      assert raw[|raw| - 1] != "";
      assert DropTrailingEmpty(raw) == raw;
    }
  }

  /** Index of the first occurrence of `c`, as `indexOf`. */
  function IndexOf(s: string, c: char): (r: nat)
    requires c in s
    ensures r < |s| && s[r] == c && c !in s[..r]
  {
    if s[0] == c then 0 else 1 + IndexOf(s[1..], c)
  }

  /** Index of the last occurrence of `c`, as `lastIndexOf`. */
  function LastIndexOf(s: string, c: char): (r: nat)
    requires c in s
    ensures r < |s| && s[r] == c && c !in s[r + 1..]
  {
    if s[|s| - 1] == c then |s| - 1 else LastIndexOf(s[..|s| - 1], c)
  }

  /** `s.split(c, 2)`: the text before the first `c` and the text after it,
      or `[s]` when there is no `c`. */
  function SplitOnce(s: string, c: char): (r: seq<string>)
    ensures c !in s ==> r == [s]
    ensures c in s ==> |r| == 2 && c !in r[0] && s == r[0] + [c] + r[1]
  {
    if c in s then
      var i := IndexOf(s, c);
      assert s == s[..i] + [c] + s[i + 1..];
      [s[..i], s[i + 1..]]
    else [s]
  }

  predicate StartsWith(s: string, prefix: string)
  {
    |prefix| <= |s| && s[..|prefix|] == prefix
  }

  predicate EndsWith(s: string, suffix: string)
  {
    |suffix| <= |s| && s[|s| - |suffix|..] == suffix
  }

  function LowerChar(ch: char): char
  {
    if 'A' <= ch <= 'Z' then (ch as int + 32) as char else ch
  }

  /** `toLowerCase()` restricted to ASCII letters. */
  function ToLowerAscii(s: string): (r: string)
    ensures |r| == |s|
    ensures forall k :: 0 <= k < |s| ==> r[k] == LowerChar(s[k])
  {
    seq(|s|, k requires 0 <= k < |s| => LowerChar(s[k]))
  }

  /** `s.replace(target, replacement)`: every non-overlapping occurrence of
      `target`, scanning left to right, is replaced; an empty target inserts the
      replacement before every character and at the end. */
  function ReplaceAll(s: string, target: string, replacement: string): string
    decreases |s|, |target| == 0
  {
    if |target| == 0 then
      if |s| == 0 then replacement
      else replacement + [s[0]] + ReplaceAll(s[1..], target, replacement)
    else if StartsWith(s, target) then replacement + ReplaceAll(s[|target|..], target, replacement)
    else if |s| == 0 then ""
    else [s[0]] + ReplaceAll(s[1..], target, replacement)
  }

  // ---------------------------------------------------------------------------
  // Decimal integers.

  function DigitChar(d: nat): (ch: char)
    requires d < 10
    ensures '0' <= ch <= '9' && ch as int - '0' as int == d
  {
    ('0' as int + d) as char
  }

  predicate IsDigit(ch: char)
  {
    '0' <= ch <= '9'
  }

  predicate AllDigits(s: string)
  {
    forall k :: 0 <= k < |s| ==> IsDigit(s[k])
  }

  /** Decimal digits of `n`, most significant first, no leading zero. */
  function NatToString(n: nat): (r: string)
    ensures |r| > 0 && AllDigits(r)
    decreases n
  {
    if n < 10 then [DigitChar(n)] else NatToString(n / 10) + [DigitChar(n % 10)]
  }

  /** `String.valueOf(int)`. */
  function IntToString(i: int): (r: string)
    ensures |r| > 0 && (r[0] == '-' || IsDigit(r[0]))
    ensures forall k :: 1 <= k < |r| ==> IsDigit(r[k])
  {
    if i < 0 then "-" + NatToString(-i) else NatToString(i)
  }

  /** The value of a string of decimal digits. */
  function DigitsValue(s: string): nat
    requires AllDigits(s)
    decreases |s|
  {
    if |s| == 0 then 0
    else DigitsValue(s[..|s| - 1]) * 10 + (s[|s| - 1] as int - '0' as int)
  }

  const MinLong: int := -0x8000_0000_0000_0000
  const MaxLong: int := 0x7fff_ffff_ffff_ffff

  /** `Long.valueOf(s)` over ASCII digits: an optional sign, at least one digit,
      and a value inside the 64-bit range; `None` where it would throw
      `NumberFormatException`. */
  function ParseLong(s: string): (r: Option<int>)
    ensures r.Some? ==> MinLong <= r.value <= MaxLong
  {
    var signed := |s| > 0 && (s[0] == '-' || s[0] == '+');
    var digits := if signed then s[1..] else s;
    if |digits| == 0 || !AllDigits(digits) then None
    else
      var v: int := if signed && s[0] == '-' then -(DigitsValue(digits) as int) else DigitsValue(digits);
      if MinLong <= v <= MaxLong then Some(v) else None
  }

  lemma {:induction false} DigitsOfNat(n: nat)
    ensures DigitsValue(NatToString(n)) == n
    decreases n
  {
    if n >= 10 {
      DigitsOfNat(n / 10);
      var s := NatToString(n);
      assert s[..|s| - 1] == NatToString(n / 10);
    }
  }

  /** Round trip: `Long.valueOf(String.valueOf(i)) == i` for every 64-bit `i`. */
  lemma ParseOfIntToString(i: int)
    requires MinLong <= i <= MaxLong
    ensures ParseLong(IntToString(i)) == Some(i)
  {
    var s := IntToString(i);
    if i < 0 {
      var d := NatToString(-i);
      assert s == "-" + d;
      assert s[1..] == d;
      DigitsOfNat(-i);
      assert s[0] == '-';
    } else {
      var d := NatToString(i);
      assert s == d;
      DigitsOfNat(i);
      assert IsDigit(s[0]);
    }
  }
}
