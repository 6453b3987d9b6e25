/** String primitives of Python's `str` that the model needs: `find`,
    `rfind`, `in`, `strip` and `replace`, over `seq<char>` (one char per
    code point, as Python indexes strings). */
module Text {
  import opened Optional

  /** `pat` occurs in `s` starting at position `k`. */
  predicate IsAt(s: string, k: int, pat: string) {
    0 <= k && k + |pat| <= |s| && s[k..k + |pat|] == pat
  }

  /** Moving the window: an occurrence in a suffix is an occurrence in the whole. */
  lemma IsAtSuffix(s: string, a: nat, k: int, pat: string)
    requires a <= |s|
    ensures IsAt(s[a..], k, pat) <==> (k >= 0 && IsAt(s, a + k, pat))
  {
    if k >= 0 && IsAt(s, a + k, pat) {
      forall j | 0 <= j < |pat| ensures s[a..][k + j] == pat[j] {
        assert s[a + (k + j)] == pat[j];
      }
    }
  }

  /** A mismatch at one position rules out an occurrence. */
  lemma NotAt(s: string, k: int, pat: string, j: nat)
    requires j < |pat| && 0 <= k + j < |s| && s[k + j] != pat[j]
    ensures !IsAt(s, k, pat)
  {
  }

  /** Occurrences of a pattern are unaffected by turning some `a`s into
      `b`s when neither character is in the pattern. */
  lemma IsAtUnaffected(s: string, s': string, a: char, b: char, pat: string, k: int)
    requires |s'| == |s|
    requires forall x :: 0 <= x < |s| ==> s'[x] == s[x] || (s[x] == a && s'[x] == b)
    requires a !in pat && b !in pat
    ensures IsAt(s', k, pat) <==> IsAt(s, k, pat)
  {
    if 0 <= k && k + |pat| <= |s| {
      forall j | 0 <= j < |pat| ensures s'[k + j] == pat[j] <==> s[k + j] == pat[j] {
        assert pat[j] in pat;
      }
    }
  }

  /** The first occurrence of a non-empty `pat` in `s`: Python's `s.find(pat)`,
      with `None` for `-1`. */
  function IndexOf(s: string, pat: string): (r: Option<nat>)
    requires |pat| > 0
    ensures r.Some? ==> IsAt(s, r.value, pat)
    ensures r.Some? ==> forall k :: 0 <= k < r.value ==> !IsAt(s, k, pat)
    ensures r.None? ==> forall k :: !IsAt(s, k, pat)
    decreases |s|
  {
    if |s| < |pat| then None
    else if IsAt(s, 0, pat) then Some(0)
    else
      var rest := IndexOf(s[1..], pat);
      forall k | 1 <= k ensures IsAt(s, k, pat) <==> IsAt(s[1..], k - 1, pat) {
        IsAtSuffix(s, 1, k - 1, pat);
      }
      assert !IsAt(s, 0, pat);
      if rest.None? then None else Some(rest.value + 1)
  }

  /** Python's `s.find(c)` for one character: an index, or -1 when absent. */
  function Find(s: string, c: char): (r: int)
    ensures -1 <= r < |s|
    ensures r == -1 <==> c !in s
    ensures r >= 0 ==> s[r] == c && c !in s[..r]
    decreases |s|
  {
    if |s| == 0 then -1
    else if s[0] == c then 0
    else
      var k := Find(s[1..], c);
      assert s == [s[0]] + s[1..];
      if k == -1 then -1
      else
        assert s[..k + 1] == [s[0]] + s[1..][..k];
        k + 1
  }

  /** The last index below `n` holding `c`, or -1. */
  function LastBelow(s: string, c: char, n: nat): (r: int)
    requires n <= |s|
    ensures -1 <= r < n
    ensures r >= 0 ==> s[r] == c
    ensures forall x :: r < x < n ==> s[x] != c
    decreases n
  {
    if n == 0 then -1
    else if s[n - 1] == c then n - 1
    else LastBelow(s, c, n - 1)
  }

  /** Python's `s.rfind(c)` for one character: the last index, or -1. */
  function RFind(s: string, c: char): (r: int)
    ensures -1 <= r < |s|
    ensures r == -1 <==> c !in s
    ensures r >= 0 ==> s[r] == c && c !in s[r + 1..]
  {
    var r := LastBelow(s, c, |s|);
    if r >= 0 then
      assert s[r] in s;
      var tail := s[r + 1..];
      forall y | 0 <= y < |tail| ensures tail[y] != c {
        assert tail[y] == s[r + 1 + y];
      }
      r
    else r
  }

  /** `find` names the one position holding `c` with no `c` before it. */
  lemma FindIsFirst(s: string, c: char, i: nat)
    requires i < |s| && s[i] == c && c !in s[..i]
    ensures Find(s, c) == i
  {
    assert s[i] in s;
    var f := Find(s, c);
    forall x | 0 <= x < i ensures s[x] != c {
      assert s[..i][x] == s[x];
    }
    forall x | 0 <= x < f ensures s[x] != c {
      assert s[..f][x] == s[x];
    }
  }

  /** `rfind` names the one position holding `c` with no `c` after it. */
  lemma RFindIsLast(s: string, c: char, i: nat)
    requires i < |s| && s[i] == c && c !in s[i + 1..]
    ensures RFind(s, c) == i
  {
    assert s[i] in s;
    var f := RFind(s, c);
    forall x | i < x < |s| ensures s[x] != c {
      assert s[i + 1..][x - i - 1] == s[x];
    }
    forall x | f < x < |s| ensures s[x] != c {
      assert s[f + 1..][x - f - 1] == s[x];
    }
  }

  /** Python's `str.isspace()` for one code point: the ASCII blanks and
      separators plus the Unicode space separators and line/paragraph
      separators. */
  predicate IsSpace(c: char) {
    || c == ' ' || c == '\t' || c == '\n' || c == '\r'
    || c == '\U{000B}' || c == '\U{000C}'
    || ('\U{001C}' <= c <= '\U{001F}')
    || c == '\U{0085}' || c == '\U{00A0}' || c == '\U{1680}'
    || ('\U{2000}' <= c <= '\U{200A}')
    || c == '\U{2028}' || c == '\U{2029}' || c == '\U{202F}' || c == '\U{205F}' || c == '\U{3000}'
  }

  predicate AllSpace(s: string) {
    forall k :: 0 <= k < |s| ==> IsSpace(s[k])
  }

  /** The number of leading whitespace characters of `s`. */
  function LeadingSpace(s: string): (n: nat)
    ensures n <= |s|
    ensures AllSpace(s[..n])
    ensures n < |s| ==> !IsSpace(s[n])
    decreases |s|
  {
    if |s| == 0 || !IsSpace(s[0]) then 0
    else
      var n := LeadingSpace(s[1..]);
      assert s[..n + 1] == [s[0]] + s[1..][..n];
      n + 1
  }

  /** The start of the whitespace run that ends at index `n`. */
  function SpaceRunBefore(s: string, n: nat): (r: nat)
    requires n <= |s|
    ensures r <= n
    ensures forall k :: r <= k < n ==> IsSpace(s[k])
    ensures r > 0 ==> !IsSpace(s[r - 1])
    decreases n
  {
    if n == 0 || !IsSpace(s[n - 1]) then n
    else SpaceRunBefore(s, n - 1)
  }

  /** The length of `s` once its trailing whitespace is dropped. */
  function TrailingStart(s: string): (n: nat)
    ensures n <= |s|
    ensures AllSpace(s[n..])
    ensures n > 0 ==> !IsSpace(s[n - 1])
  {
    var n := SpaceRunBefore(s, |s|);
    assert forall k :: 0 <= k < |s| - n ==> s[n..][k] == s[n + k];
    n
  }

  /** Python's `s.strip()`: `s` without its leading and trailing whitespace. */
  function Strip(s: string): (r: string)
    ensures |r| <= |s|
    ensures |r| > 0 ==> !IsSpace(r[0]) && !IsSpace(r[|r| - 1])
    ensures exists i, j :: 0 <= i <= j <= |s| && r == s[i..j] && AllSpace(s[..i]) && AllSpace(s[j..])
  {
    var i := LeadingSpace(s);
    if i == |s| then
      assert s[..i] == s && s[i..] == [];
      []
    else
      var j := TrailingStart(s);
      assert s[i..j][0] == s[i] && s[i..j][j - i - 1] == s[j - 1];
      s[i..j]
  }

  /** Python's `s.replace(target, repl)` for a non-empty `target`: every
      non-overlapping occurrence, scanning left to right, is replaced. */
  function Replace(s: string, target: string, repl: string): string
    requires |target| > 0
    decreases |s|
  {
    if |s| < |target| then s
    else if IsAt(s, 0, target) then repl + Replace(s[|target|..], target, repl)
    else [s[0]] + Replace(s[1..], target, repl)
  }

  /** Replacing a word by a copy that differs only in its first letter, when
      that letter does not recur inside the word (so occurrences never
      overlap), rewrites exactly the first letter of every occurrence and
      leaves every other character alone. */
  lemma {:induction false} ReplaceFirstLetter(s: string, w: string, c: char)
    requires |w| > 0
    requires forall j :: 1 <= j < |w| ==> w[j] != w[0]
    ensures |Replace(s, w, [c] + w[1..])| == |s|
    ensures forall k :: 0 <= k < |s| ==>
      Replace(s, w, [c] + w[1..])[k] == (if IsAt(s, k, w) then c else s[k])
    decreases |s|
  {
    var repl := [c] + w[1..];
    var r := Replace(s, w, repl);
    if |s| < |w| {
    } else if IsAt(s, 0, w) {
      var tail := s[|w|..];
      ReplaceFirstLetter(tail, w, c);
      assert r == repl + Replace(tail, w, repl);
      forall k | 0 <= k < |s|
        ensures r[k] == (if IsAt(s, k, w) then c else s[k])
      {
        if k == 0 {
        } else if k < |w| {
          assert r[k] == w[k] == s[k];
          assert !IsAt(s, k, w) by {
            assert s[k] != w[0];
          }
        } else {
          IsAtSuffix(s, |w|, k - |w|, w);
          assert r[k] == Replace(tail, w, repl)[k - |w|];
        }
      }
    } else {
      var tail := s[1..];
      ReplaceFirstLetter(tail, w, c);
      assert r == [s[0]] + Replace(tail, w, repl);
      forall k | 0 <= k < |s|
        ensures r[k] == (if IsAt(s, k, w) then c else s[k])
      {
        if k > 0 {
          IsAtSuffix(s, 1, k - 1, w);
          assert r[k] == Replace(tail, w, repl)[k - 1];
        }
      }
    }
  }

  /** The decimal digits of a natural number, as Python's `str(n)` writes them. */
  function NatToString(n: nat): (r: string)
    ensures |r| > 0
    ensures forall k :: 0 <= k < |r| ==> '0' <= r[k] <= '9'
  {
    var d := ['0' + (n % 10) as char];
    if n < 10 then d else NatToString(n / 10) + d
  }

  /** Python's `str(i)` for an integer. */
  function IntToString(i: int): string {
    if i < 0 then "-" + NatToString(-i) else NatToString(i)
  }
}
