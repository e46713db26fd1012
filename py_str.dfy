/**
 * The handful of Python `str` operations the bot's text handling relies on,
 * with Python's own edge cases: `find`/`rfind` answer -1 when nothing is
 * found, slice bounds may be negative (counted from the end) and are
 * clamped, `count` counts non-overlapping occurrences from the left, and
 * `strip()` removes exactly the characters for which `str.isspace()` holds.
 */
module PyStr {

  /** `sub` occurs in `s` starting at index `i`. */
  predicate OccursAt(s: string, sub: string, i: int)
  {
    0 <= i && i + |sub| <= |s| && s[i..i + |sub|] == sub
  }

  /** A one-character pattern occurs exactly where that character stands. */
  lemma OccursAtChar(s: string, c: char, k: int)
    ensures OccursAt(s, [c], k) <==> 0 <= k < |s| && s[k] == c
  {
    if 0 <= k < |s| { assert s[k..k + 1] == [s[k]]; }
  }

  /** An occurrence of a non-empty pattern begins with the pattern's first character. */
  lemma OccursAtFirstChar(s: string, sub: string, k: int)
    requires |sub| > 0
    ensures OccursAt(s, sub, k) ==> 0 <= k < |s| && s[k] == sub[0]
  {
    if OccursAt(s, sub, k) { assert s[k..k + |sub|][0] == s[k]; }
  }

  /** An occurrence of a non-empty pattern ends with the pattern's last character. */
  lemma OccursAtLastChar(s: string, sub: string, k: int)
    requires |sub| > 0
    ensures OccursAt(s, sub, k) ==> s[k + |sub| - 1] == sub[|sub| - 1]
  {
    if OccursAt(s, sub, k) { assert s[k..k + |sub|][|sub| - 1] == s[k + |sub| - 1]; }
  }

  /** Adjacent slices join up. */
  lemma SlicesJoin(s: string, i: nat, j: nat, k: nat)
    requires i <= j <= k <= |s|
    ensures s[i..j] + s[j..k] == s[i..k]
  {
    var a, b := s[i..j], s[j..k];
    assert forall x :: 0 <= x < |a| ==> (a + b)[x] == s[i + x];
    assert forall x :: |a| <= x < |a| + |b| ==> (a + b)[x] == s[i + x];
  }

  /** Python's normalisation of a slice bound against a length `n`. */
  function ClampIndex(i: int, n: nat): (r: nat)
    ensures r <= n
    ensures 0 <= i <= n ==> r == i
    ensures i < 0 && i + n >= 0 ==> r == i + n
    ensures i > n ==> r == n
    ensures i + n < 0 ==> r == 0
  {
    if i < 0 then (if i + n < 0 then 0 else i + n)
    else if i > n then n
    else i
  }

  /** Python's `s[i:j]`. */
  function Slice(s: string, i: int, j: int): (r: string)
  {
    var a := ClampIndex(i, |s|);
    var b := ClampIndex(j, |s|);
    if a < b then s[a..b] else ""
  }

  /**
   * Python's `s.find(sub, start)`: the lowest index at or after `start` where
   * `sub` occurs, or -1; a start past the end finds nothing, not even "".
   */
  function Find(s: string, sub: string, start: int): int
  {
    if start > |s| then -1 else FindFrom(s, sub, ClampIndex(start, |s|))
  }

  function FindFrom(s: string, sub: string, i: nat): int
    decreases |s| - i
  {
    if i + |sub| > |s| then -1
    else if s[i..i + |sub|] == sub then i
    else FindFrom(s, sub, i + 1)
  }

  /** Python's `s.rfind(sub)`: the highest index where `sub` occurs, or -1. */
  function RFind(s: string, sub: string): int
  {
    RFindFrom(s, sub, |s| - |sub|)
  }

  function RFindFrom(s: string, sub: string, i: int): int
    decreases i + 1
  {
    if i < 0 then -1
    else if i + |sub| <= |s| && s[i..i + |sub|] == sub then i
    else RFindFrom(s, sub, i - 1)
  }

  /** The scan from `i` stops at the first occurrence at or after `i`, or answers -1 when there is none. */
  lemma {:induction false} FindFromSpec(s: string, sub: string, i: nat)
    ensures var r := FindFrom(s, sub, i);
            && (r == -1 || (i <= r && OccursAt(s, sub, r)))
            && forall k :: i <= k && (r == -1 || k < r) ==> !OccursAt(s, sub, k)
    decreases |s| - i
  {
    if i + |sub| <= |s| && s[i..i + |sub|] != sub {
      FindFromSpec(s, sub, i + 1);
    }
  }

  /** `find` answers -1 past the end, otherwise -1 or the first occurrence at or after the normalised start. */
  lemma FindSpec(s: string, sub: string, start: int)
    ensures start > |s| ==> Find(s, sub, start) == -1
    ensures start <= |s| ==>
              var r := Find(s, sub, start);
              && (r == -1 || (ClampIndex(start, |s|) <= r && OccursAt(s, sub, r)))
              && forall k :: ClampIndex(start, |s|) <= k && (r == -1 || k < r) ==> !OccursAt(s, sub, k)
  {
    if start <= |s| {
      FindFromSpec(s, sub, ClampIndex(start, |s|));
    }
  }

  /** The empty pattern is found at a start up to the end, and not past it. */
  lemma FindEmptyPastEnd()
    ensures Find("abc", "", 3) == 3
    ensures Find("abc", "", 5) == -1
  {
    assert "abc"[3..3] == "";
  }

  /** The backward scan from `i` stops at the last occurrence at or before `i`, or answers -1. */
  lemma {:induction false} RFindFromSpec(s: string, sub: string, i: int)
    requires forall k :: i < k ==> !OccursAt(s, sub, k)
    ensures var r := RFindFrom(s, sub, i);
            && (r == -1 || OccursAt(s, sub, r))
            && forall k :: r < k ==> !OccursAt(s, sub, k)
    decreases i + 1
  {
    if i >= 0 && !(i + |sub| <= |s| && s[i..i + |sub|] == sub) {
      RFindFromSpec(s, sub, i - 1);
    }
  }

  /** `rfind` answers -1 or an occurrence with none after it. */
  lemma RFindSpec(s: string, sub: string)
    ensures var r := RFind(s, sub);
            && (r == -1 || OccursAt(s, sub, r))
            && forall k :: r < k ==> !OccursAt(s, sub, k)
  {
    RFindFromSpec(s, sub, |s| - |sub|);
  }

  /** Python's `s.count(sub)`: occurrences counted left to right, each search resuming after the previous match. */
  function Count(s: string, sub: string): nat
  {
    if |sub| == 0 then |s| + 1
    else if |s| < |sub| then 0
    else if s[..|sub|] == sub then 1 + Count(s[|sub|..], sub)
    else Count(s[1..], sub)
  }

  /** A string counts zero occurrences of a non-empty `sub` exactly when `sub` occurs nowhere in it. */
  lemma {:induction false} CountZeroIffNoOccurrence(s: string, sub: string)
    requires |sub| > 0
    ensures Count(s, sub) == 0 <==> forall k :: !OccursAt(s, sub, k)
  {
    if |s| < |sub| {
    } else if s[..|sub|] == sub {
      assert OccursAt(s, sub, 0);
    } else {
      CountZeroIffNoOccurrence(s[1..], sub);
      forall k | OccursAt(s, sub, k) ensures OccursAt(s[1..], sub, k - 1) {
        assert k != 0;
        assert s[1..][k - 1..k - 1 + |sub|] == s[k..k + |sub|];
      }
      forall k | OccursAt(s[1..], sub, k) ensures OccursAt(s, sub, k + 1) {
        assert s[1..][k..k + |sub|] == s[k + 1..k + 1 + |sub|];
      }
    }
  }

  /** The count is zero exactly when `rfind` finds nothing. */
  lemma CountZeroIffAbsent(s: string, sub: string)
    requires |sub| > 0
    ensures Count(s, sub) == 0 <==> RFind(s, sub) == -1
  {
    RFindSpec(s, sub);
    CountZeroIffNoOccurrence(s, sub);
  }

  /** A string without the pattern's first character holds no occurrence of it. */
  lemma CountWithoutFirstChar(s: string, sub: string)
    requires |sub| > 0
    requires forall k :: 0 <= k < |s| ==> s[k] != sub[0]
    ensures Count(s, sub) == 0
  {
    CountZeroIffNoOccurrence(s, sub);
    forall k ensures !OccursAt(s, sub, k) {
      OccursAtFirstChar(s, sub, k);
    }
  }

  /**
   * Appending a string whose first character never appears in `sub` cannot
   * create or destroy a match in, or across the end of, `a`: the counts add.
   */
  lemma {:induction false} CountConcat(a: string, b: string, sub: string)
    requires |sub| > 0 && |b| > 0
    requires forall k :: 0 <= k < |sub| ==> sub[k] != b[0]
    ensures Count(a + b, sub) == Count(a, sub) + Count(b, sub)
    decreases |a|
  {
    if |a| == 0 {
      assert a + b == b;
    } else if |a| < |sub| {
      assert (a + b)[|a|] == b[0];
      if |a + b| >= |sub| {
        assert (a + b)[..|sub|][|a|] == b[0];
        assert (a + b)[..|sub|] != sub;
        assert (a + b)[1..] == a[1..] + b;
        CountConcat(a[1..], b, sub);
      }
    } else if a[..|sub|] == sub {
      assert (a + b)[..|sub|] == sub;
      assert (a + b)[|sub|..] == a[|sub|..] + b;
      CountConcat(a[|sub|..], b, sub);
    } else {
      assert (a + b)[..|sub|] == a[..|sub|];
      assert (a + b)[1..] == a[1..] + b;
      CountConcat(a[1..], b, sub);
    }
  }

  /** Python's `str.isspace()` for one character: the Unicode whitespace characters Python recognises. */
  predicate IsSpace(c: char)
  {
    var n := c as int;
    (0x09 <= n <= 0x0D) || (0x1C <= n <= 0x20) || n == 0x85 || n == 0xA0 || n == 0x1680
    || (0x2000 <= n <= 0x200A) || n == 0x2028 || n == 0x2029 || n == 0x202F || n == 0x205F
    || n == 0x3000
  }

  /** Index of the first non-space character at or after `i` (or `|s|`). */
  function SkipSpaceForward(s: string, i: nat): (r: nat)
    requires i <= |s|
    ensures i <= r <= |s|
    ensures forall k :: i <= k < r ==> IsSpace(s[k])
    ensures r < |s| ==> !IsSpace(s[r])
    decreases |s| - i
  {
    if i < |s| && IsSpace(s[i]) then SkipSpaceForward(s, i + 1) else i
  }

  /** One past the last non-space character before `j` and at or after `lo` (or `lo`). */
  function SkipSpaceBackward(s: string, lo: nat, j: nat): (r: nat)
    requires lo <= j <= |s|
    ensures lo <= r <= j
    ensures forall k :: r <= k < j ==> IsSpace(s[k])
    ensures r > lo ==> !IsSpace(s[r - 1])
    decreases j
  {
    if j > lo && IsSpace(s[j - 1]) then SkipSpaceBackward(s, lo, j - 1) else j
  }

  /** Python's `s.strip()` with no argument. */
  function Strip(s: string): (r: string)
    ensures exists i, j ::
              && 0 <= i <= j <= |s| && r == s[i..j]
              && (forall k :: 0 <= k < i ==> IsSpace(s[k]))
              && (forall k :: j <= k < |s| ==> IsSpace(s[k]))
    ensures r == [] || (!IsSpace(r[0]) && !IsSpace(r[|r| - 1]))
  {
    var i := SkipSpaceForward(s, 0);
    var j := SkipSpaceBackward(s, i, |s|);
    assert j > i ==> s[i..j][0] == s[i] && s[i..j][j - i - 1] == s[j - 1];
    s[i..j]
  }

  /** A string that neither starts nor ends with whitespace is its own `strip()`. */
  lemma StripUnchanged(s: string)
    requires s == [] || (!IsSpace(s[0]) && !IsSpace(s[|s| - 1]))
    ensures Strip(s) == s
  {
    assert SkipSpaceForward(s, 0) == 0;
    assert SkipSpaceBackward(s, 0, |s|) == |s|;
    assert s[0..|s|] == s;
  }

  /** Python's `s.startswith(p)`. */
  predicate StartsWith(s: string, p: string)
  {
    |p| <= |s| && s[..|p|] == p
  }

  /** Python's `s.removeprefix(p)`. */
  function RemovePrefix(s: string, p: string): (r: string)
    ensures StartsWith(s, p) ==> p + r == s
    ensures !StartsWith(s, p) ==> r == s
  {
    if StartsWith(s, p) then s[|p|..] else s
  }

  /** Python's `s.split(" ", 1)`: one piece when there is no space, else the text before and after the first space. */
  function SplitOnceAtSpace(s: string): (r: seq<string>)
    ensures 1 <= |r| <= 2
    ensures |r| == 1 <==> ' ' !in s
    ensures |r| == 1 ==> r[0] == s
    ensures |r| == 2 ==> r[0] + " " + r[1] == s && ' ' !in r[0]
  {
    FindSpec(s, " ", 0);
    var i := Find(s, " ", 0);
    if i == -1 then
      assert forall k :: 0 <= k < |s| ==> s[k] != ' ' by {
        forall k | 0 <= k < |s| ensures s[k] != ' ' {
          assert !OccursAt(s, " ", k);
          assert s[k..k + 1] == [s[k]];
        }
      }
      [s]
    else
      assert s[i] == ' ' by { assert s[i..i + 1] == " "; }
      assert forall k :: 0 <= k < i ==> s[k] != ' ' by {
        forall k | 0 <= k < i ensures s[k] != ' ' {
          assert !OccursAt(s, " ", k);
          assert s[k..k + 1] == [s[k]];
        }
      }
      assert s[..i] + " " + s[i + 1..] == s;
      [s[..i], s[i + 1..]]
  }

  /** With its first space at `i`, a string splits into the text before and the text after that space. */
  lemma SplitOnceAtFirstSpace(s: string, i: nat)
    requires i < |s| && s[i] == ' '
    requires forall k :: 0 <= k < i ==> s[k] != ' '
    ensures SplitOnceAtSpace(s) == [s[..i], s[i + 1..]]
  {
    OccursAtChar(s, ' ', i);
    FindSpec(s, " ", 0);
    var f := Find(s, " ", 0);
    OccursAtChar(s, ' ', f);
    assert f == i;
  }
}
