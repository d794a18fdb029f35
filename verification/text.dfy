/**
 The handful of Python `str` operations the scrapers rely on, over `string`
 (= `seq<char>`): `in`, `find`, `split(sep)`, `split(sep, 1)`, `strip()` and
 `lower()`. `strip` and `lower` are restricted to ASCII; see README.
 */
module Text {

  /** Whitespace in the sense of Python's `str.isspace`, restricted to ASCII:
      space, the controls `\t \n \v \f \r`, and the separators 0x1C-0x1F. */
  predicate IsSpace(c: char) {
    c == ' ' || ('\t' <= c <= '\r') || ('\U{1C}' <= c <= '\U{1F}')
  }

  /** `s.strip()`: whitespace is cut from both ends until both ends are
      non-space or nothing is left. */
  function Strip(s: string): (r: string)
    ensures |r| <= |s|
    ensures r == [] || (!IsSpace(r[0]) && !IsSpace(r[|r| - 1]))
    decreases |s|
  {
    if |s| > 0 && IsSpace(s[0]) then Strip(s[1..])
    else if |s| > 0 && IsSpace(s[|s| - 1]) then Strip(s[..|s| - 1])
    else s
  }

  /** `r` is the slice of `s` starting at `i`, and everything of `s` outside
      that slice is whitespace. */
  predicate StrippedAt(s: string, r: string, i: int) {
    && 0 <= i <= |s| - |r|
    && r == s[i..i + |r|]
    && (forall k :: 0 <= k < i ==> IsSpace(s[k]))
    && (forall k :: i + |r| <= k < |s| ==> IsSpace(s[k]))
  }

  /** What `strip` keeps is a slice of its input, and all it cuts away is
      whitespace. */
  lemma {:induction false} StripCutsOnlySpace(s: string)
    ensures exists i :: StrippedAt(s, Strip(s), i)
    decreases |s|
  {
    var r := Strip(s);
    if |s| > 0 && IsSpace(s[0]) {
      StripCutsOnlySpace(s[1..]);
      var i :| StrippedAt(s[1..], r, i);
      StrippedAtFront(s, r, i);
    } else if |s| > 0 && IsSpace(s[|s| - 1]) {
      StripCutsOnlySpace(s[..|s| - 1]);
      var i :| StrippedAt(s[..|s| - 1], r, i);
      StrippedAtBack(s, r, i);
    } else {
      assert StrippedAt(s, r, 0);
    }
  }

  /** Putting a space back in front moves the kept slice one place right. */
  lemma StrippedAtFront(s: string, r: string, i: int)
    requires |s| > 0 && IsSpace(s[0]) && StrippedAt(s[1..], r, i)
    ensures StrippedAt(s, r, i + 1)
  {
    assert s[1..][i..i + |r|] == s[i + 1..i + 1 + |r|];
    assert forall k :: 1 <= k < |s| ==> s[k] == s[1..][k - 1];
  }

  /** Putting a space back at the end leaves the kept slice where it was. */
  lemma StrippedAtBack(s: string, r: string, i: int)
    requires |s| > 0 && IsSpace(s[|s| - 1]) && StrippedAt(s[..|s| - 1], r, i)
    ensures StrippedAt(s, r, i)
  {
    assert s[..|s| - 1][i..i + |r|] == s[i..i + |r|];
    assert forall k :: 0 <= k < |s| - 1 ==> s[k] == s[..|s| - 1][k];
  }

  /** Stripping twice is stripping once. */
  lemma StripIdempotent(s: string)
    ensures Strip(Strip(s)) == Strip(s)
  {
  }

  /** `pat` occurs in `s` starting at index `i`. */
  predicate OccursAt(s: string, pat: string, i: int) {
    0 <= i && i + |pat| <= |s| && s[i..i + |pat|] == pat
  }

  /** Python's `pat in s` for a string `pat`, tried position by position. */
  predicate Contains(s: string, pat: string)
    decreases |s|
  {
    |pat| <= |s| && (s[..|pat|] == pat || Contains(s[1..], pat))
  }

  /** `pat in s` holds exactly when `pat` occurs somewhere in `s`. */
  lemma {:induction false} ContainsOccurs(s: string, pat: string)
    ensures Contains(s, pat) <==> exists i :: OccursAt(s, pat, i)
    decreases |s|
  {
    if |pat| <= |s| && s[..|pat|] != pat {
      ContainsOccurs(s[1..], pat);
      if exists i :: OccursAt(s, pat, i) {
        var i :| OccursAt(s, pat, i);
        assert i > 0 by { assert s[..|pat|] == s[0..0 + |pat|]; }
        assert OccursAt(s[1..], pat, i - 1) by { assert s[1..][i - 1..i - 1 + |pat|] == s[i..i + |pat|]; }
      }
      if exists i :: OccursAt(s[1..], pat, i) {
        var i :| OccursAt(s[1..], pat, i);
        assert OccursAt(s, pat, i + 1) by { assert s[1..][i..i + |pat|] == s[i + 1..i + 1 + |pat|]; }
      }
    } else if |pat| <= |s| {
      assert OccursAt(s, pat, 0);
    }
  }

  /** `s.find(c)` for a single character: the first index holding `c`, or -1
      when no index holds it. */
  function IndexOf(s: string, c: char): (r: int)
    ensures -1 <= r < |s|
    ensures r == -1 ==> forall k :: 0 <= k < |s| ==> s[k] != c
    ensures r >= 0 ==> s[r] == c && forall k :: 0 <= k < r ==> s[k] != c
  {
    if |s| == 0 then -1
    else if s[0] == c then 0
    else
      var k := IndexOf(s[1..], c);
      if k < 0 then -1 else k + 1
  }

  /** `find` in terms of `in`: -1 exactly when `c` is absent, and otherwise
      nothing before the result holds `c`. */
  lemma IndexOfIn(s: string, c: char)
    ensures IndexOf(s, c) == -1 <==> c !in s
    ensures IndexOf(s, c) >= 0 ==> c !in s[..IndexOf(s, c)]
  {
    var r := IndexOf(s, c);
    if r >= 0 {
      assert s[r] == c;
      assert forall k :: 0 <= k < r ==> s[..r][k] == s[k];
    }
  }

  /** No index of the slice `s[i..j]` holds `c` when none before `j` does. */
  lemma NotInSlice(s: string, c: char, i: int, j: int)
    requires 0 <= i <= j <= |s| && forall k :: 0 <= k < j ==> s[k] != c
    ensures c !in s[i..j]
  {
    assert forall k :: 0 <= k < j - i ==> s[i..j][k] == s[i + k];
  }

  /** A string is its text up to `i`, the character at `i`, the text between,
      the character at `j` and the rest. */
  lemma CutTwice(s: string, i: int, j: int)
    requires 0 <= i < j < |s|
    ensures s == s[..i] + [s[i]] + s[i + 1..j] + [s[j]] + s[j + 1..]
  {
    assert s[..j] == s[..i] + [s[i]] + s[i + 1..j];
    assert s == s[..j] + [s[j]] + s[j + 1..];
  }

  /** `s.rfind(c)`: the last index holding `c`, or -1. */
  function LastIndexOf(s: string, c: char): (r: int)
    ensures -1 <= r < |s|
    ensures r == -1 ==> forall k :: 0 <= k < |s| ==> s[k] != c
    ensures r >= 0 ==> s[r] == c && forall k :: r < k < |s| ==> s[k] != c
  {
    if |s| == 0 then -1
    else if s[|s| - 1] == c then |s| - 1
    else LastIndexOf(s[..|s| - 1], c)
  }

  /** Python's slice `s[lo:hi]` for non-negative bounds: both bounds are
      clamped to the length, and a slice whose end is not after its start is empty. */
  function Slice(s: string, lo: nat, hi: nat): (r: string)
    ensures hi <= lo ==> r == []
    ensures lo < hi <= |s| ==> r == s[lo..hi]
    ensures |r| <= |s|
  {
    var l := if lo < |s| then lo else |s|;
    var h := if hi < |s| then hi else |s|;
    if h <= l then [] else s[l..h]
  }

  /** `sep.join(parts)`. */
  function Join(parts: seq<string>, sep: char): string
  {
    if |parts| == 0 then []
    else if |parts| == 1 then parts[0]
    else parts[0] + [sep] + Join(parts[1..], sep)
  }

  /** `s.split(sep)` for a one-character separator. It is never empty;
      `SplitSeparated` and `SplitRejoins` show that its parts are free of the
      separator and make up `s`. */
  function Split(s: string, sep: char): (parts: seq<string>)
    ensures |parts| >= 1
    decreases |s|
  {
    var i := IndexOf(s, sep);
    if i < 0 then [s]
    else [s[..i]] + Split(s[i + 1..], sep)
  }

  /** No part of `s.split(sep)` holds the separator. */
  lemma {:induction false} SplitSeparated(s: string, sep: char, k: int)
    requires 0 <= k < |Split(s, sep)|
    ensures sep !in Split(s, sep)[k]
    decreases |s|
  {
    var i := IndexOf(s, sep);
    if i >= 0 && k > 0 {
      var t := s[i + 1..];
      SplitCons(s, sep, i, t);
      SplitSeparated(t, sep, k - 1);
    }
  }

  /** Joining the parts of `s.split(sep)` with `sep` gives back `s`. */
  lemma {:induction false} SplitRejoins(s: string, sep: char)
    ensures Join(Split(s, sep), sep) == s
    decreases |s|
  {
    var i := IndexOf(s, sep);
    if i >= 0 {
      var t := s[i + 1..];
      SplitCons(s, sep, i, t);
      SplitRejoins(t, sep);
      JoinCons(s[..i], Split(t, sep), sep);
      CutAt(s, i);
    } else {
      assert Split(s, sep) == [s];
    }
  }

  /** A string is its text before `i`, the character at `i`, and the rest. */
  lemma CutAt(s: string, i: int)
    requires 0 <= i < |s|
    ensures s == s[..i] + [s[i]] + s[i + 1..]
  {
  }

  /** Past its first separator, `s` splits into the text before it followed
      by the parts of the rest. */
  lemma SplitCons(s: string, sep: char, i: int, t: string)
    requires i == IndexOf(s, sep) && i >= 0 && t == s[i + 1..]
    ensures Split(s, sep) == [s[..i]] + Split(t, sep)
  {
    assert Split(s, sep) == [s[..IndexOf(s, sep)]] + Split(s[IndexOf(s, sep) + 1..], sep);
  }

  /** Joining a list with a part in front. */
  lemma JoinCons(a: string, rest: seq<string>, sep: char)
    requires |rest| >= 1
    ensures Join([a] + rest, sep) == a + [sep] + Join(rest, sep)
  {
    assert ([a] + rest)[1..] == rest;
  }

  /** Splitting what was joined gives back the parts, as long as none of them
      holds the separator. */
  lemma {:induction false} SplitJoin(parts: seq<string>, sep: char)
    requires |parts| >= 1
    requires forall k :: 0 <= k < |parts| ==> sep !in parts[k]
    ensures Split(Join(parts, sep), sep) == parts
    decreases |parts|
  {
    if |parts| > 1 {
      var s := Join(parts, sep);
      var tail := Join(parts[1..], sep);
      assert s == parts[0] + [sep] + tail;
      assert s[..|parts[0]|] == parts[0];
      assert IndexOf(s, sep) == |parts[0]| by {
        assert s[|parts[0]|] == sep;
      }
      assert s[|parts[0]| + 1..] == tail;
      SplitJoin(parts[1..], sep);
    }
  }

  /** `s.split(sep, 1)`: the whole of `s` when it holds no separator, otherwise
      the text before and after the first separator. */
  function SplitOnce(s: string, sep: char): (parts: seq<string>)
    ensures |parts| == 1 <==> sep !in s
    ensures |parts| == 1 ==> parts[0] == s
    ensures |parts| != 1 ==> |parts| == 2 && sep !in parts[0] && parts[0] + [sep] + parts[1] == s
    ensures |parts| != 1 ==> parts[1] == s[IndexOf(s, sep) + 1..]
  {
    var i := IndexOf(s, sep);
    if i < 0 then [s]
    else
      assert s == s[..i] + [sep] + s[i + 1..];
      [s[..i], s[i + 1..]]
  }

  /** The last element of `s.split(sep)`, i.e. `s.split(sep)[-1]`. */
  function LastField(s: string, sep: char): string
  {
    var parts := Split(s, sep);
    parts[|parts| - 1]
  }

  /** `s.split(sep)[-1]` is the text after the last separator, or all of `s`
      when there is none. */
  lemma {:induction false} LastFieldAfterLastSeparator(s: string, sep: char)
    ensures LastField(s, sep) == s[LastIndexOf(s, sep) + 1..]
    decreases |s|
  {
    var i := IndexOf(s, sep);
    if i < 0 {
      LastFieldWhole(s, sep);
    } else {
      var t := s[i + 1..];
      LastFieldSkip(s, sep, i, t);
      LastFieldAfterLastSeparator(t, sep);
      AfterLastFromFirst(s, sep, i, t);
    }
  }

  /** What follows the last separator of `s` is what follows the last
      separator of the text after its first one. */
  lemma AfterLastFromFirst(s: string, sep: char, i: int, t: string)
    requires i == IndexOf(s, sep) && i >= 0 && t == s[i + 1..]
    ensures s[LastIndexOf(s, sep) + 1..] == t[LastIndexOf(t, sep) + 1..]
  {
    if LastIndexOf(t, sep) < 0 {
      OnlySeparator(s, sep, i, t);
    } else {
      LaterSeparator(s, sep, i, t);
    }
  }

  /** When the first separator is also the last, both sides are `t`. */
  lemma OnlySeparator(s: string, sep: char, i: int, t: string)
    requires i == IndexOf(s, sep) && i >= 0 && t == s[i + 1..] && LastIndexOf(t, sep) < 0
    ensures s[LastIndexOf(s, sep) + 1..] == t[LastIndexOf(t, sep) + 1..]
  {
    assert forall m :: i < m < |s| ==> s[m] == t[m - i - 1];
    LastIndexIs(s, sep, i);
    DropSame(s, LastIndexOf(s, sep) + 1, i + 1);
    DropSame(t, LastIndexOf(t, sep) + 1, 0);
    assert t[0..] == t;
  }

  /** When `t` holds a separator, the last one of `s` is the last one of `t`. */
  lemma LaterSeparator(s: string, sep: char, i: int, t: string)
    requires i == IndexOf(s, sep) && i >= 0 && t == s[i + 1..] && LastIndexOf(t, sep) >= 0
    ensures s[LastIndexOf(s, sep) + 1..] == t[LastIndexOf(t, sep) + 1..]
  {
    var j := LastIndexOf(t, sep);
    LastIndexShift(s, sep, i + 1, j);
    DropSame(s, LastIndexOf(s, sep) + 1, i + 1 + j + 1);
  }

  /** Dropping equal counts gives equal suffixes. */
  lemma DropSame(s: string, a: int, b: int)
    requires 0 <= a <= |s| && a == b
    ensures s[a..] == s[b..]
  {
  }

  /** Without a separator, the last field is the whole string. */
  lemma LastFieldWhole(s: string, sep: char)
    requires IndexOf(s, sep) < 0
    ensures LastField(s, sep) == s == s[LastIndexOf(s, sep) + 1..]
  {
    assert s[0..] == s;
  }

  /** The last field lies after the first separator. */
  lemma LastFieldSkip(s: string, sep: char, i: int, t: string)
    requires i == IndexOf(s, sep) && i >= 0 && t == s[i + 1..]
    ensures LastField(s, sep) == LastField(t, sep)
  {
    SplitCons(s, sep, i, t);
    LastOfCons(s[..i], Split(t, sep), Split(s, sep));
    assert LastField(s, sep) == Split(s, sep)[|Split(s, sep)| - 1];
    assert LastField(t, sep) == Split(t, sep)[|Split(t, sep)| - 1];
  }

  /** Putting an element in front does not change the last element. */
  lemma LastOfCons(a: string, rest: seq<string>, parts: seq<string>)
    requires |rest| >= 1 && parts == [a] + rest
    ensures parts[|parts| - 1] == rest[|rest| - 1]
  {
  }

  /** A last occurrence found in a suffix is the last occurrence in the whole. */
  lemma LastIndexShift(s: string, c: char, d: int, j: int)
    requires 0 <= d <= |s| && j == LastIndexOf(s[d..], c) && j >= 0
    ensures LastIndexOf(s, c) == d + j
    ensures s[d + j + 1..] == s[d..][j + 1..]
  {
    assert forall m :: d + j < m < |s| ==> s[m] == s[d..][m - d];
    LastIndexIs(s, c, d + j);
    assert s[d + j + 1..] == s[d..][j + 1..];
  }

  /** The last index is determined by the character there and the absence of
      the character after it. */
  lemma {:induction false} LastIndexIs(s: string, c: char, k: int)
    requires 0 <= k < |s| && s[k] == c
    requires forall m :: k < m < |s| ==> s[m] != c
    ensures LastIndexOf(s, c) == k
    decreases |s|
  {
    if k < |s| - 1 {
      var init := s[..|s| - 1];
      assert forall m :: k < m < |init| ==> init[m] == s[m];
      LastIndexIs(init, c, k);
    }
  }

  /** ASCII `chr.lower()`: upper-case letters map to lower case, all else stays. */
  function LowerChar(c: char): char {
    if 'A' <= c <= 'Z' then (c as int + 32) as char else c
  }

  /** `s.lower()`, restricted to ASCII letters: position by position, an
      upper-case letter becomes its lower-case partner and every other
      character stays, so no upper-case ASCII letter is left. */
  function Lower(s: string): (r: string)
    ensures |r| == |s|
    ensures forall k :: 0 <= k < |s| ==> r[k] == LowerChar(s[k])
    ensures forall k :: 0 <= k < |s| ==> !('A' <= r[k] <= 'Z')
    ensures forall k :: 0 <= k < |s| && !('A' <= s[k] <= 'Z') ==> r[k] == s[k]
  {
    seq(|s|, k requires 0 <= k < |s| => LowerChar(s[k]))
  }

  /** Lowering twice is lowering once. */
  lemma LowerIdempotent(s: string)
    ensures Lower(Lower(s)) == Lower(s)
  {
  }

  /** The number a string of decimal digits spells. */
  function DigitsValue(s: string): nat
    requires forall k :: 0 <= k < |s| ==> '0' <= s[k] <= '9'
    decreases |s|
  {
    if |s| == 0 then 0 else DigitsValue(s[..|s| - 1]) * 10 + (s[|s| - 1] as int - '0' as int)
  }

  /** The decimal digits of `n`, as `str(n)` gives them for a non-negative int:
      they spell `n`, without a leading zero unless `n` is 0. */
  function NatToDecimal(n: nat): (r: string)
    ensures |r| >= 1
    ensures forall k :: 0 <= k < |r| ==> '0' <= r[k] <= '9'
    ensures DigitsValue(r) == n
    ensures r[0] != '0' || n == 0
    decreases n
  {
    var d := ['0' + (n % 10) as char];
    if n < 10 then d
    else
      var high := NatToDecimal(n / 10);
      assert (high + d)[..|high + d| - 1] == high;
      high + d
  }

  /** `str(i)` for an int: a minus sign exactly when `i` is negative, then
      the decimal digits of its magnitude. */
  function IntToDecimal(i: int): (r: string)
    ensures |r| >= 1 && (r[0] == '-' <==> i < 0)
    ensures i < 0 ==> r[1..] == NatToDecimal(-i)
    ensures i >= 0 ==> r == NatToDecimal(i)
  {
    if i < 0 then "-" + NatToDecimal(-i) else NatToDecimal(i)
  }
}
