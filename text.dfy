/**
 * The string primitives the analysis pipeline relies on, defined from scratch:
 * Python's `str.strip()` (with the whitespace class of `str.isspace()`),
 * `str.startswith`, `str.count` (non-overlapping, left to right) and an ASCII
 * model of `str.lower()`.
 */
module Text {

  /** The characters for which Python's `str.isspace()` is true. */
  predicate IsSpace(c: char) {
    || ('\t' <= c <= '\r')                   // U+0009 .. U+000D
    || ('\U{1C}' <= c <= '\U{1F}')           // information separators
    || c == ' '
    || c == '\U{85}' || c == '\U{A0}' || c == '\U{1680}'
    || ('\U{2000}' <= c <= '\U{200A}')
    || c == '\U{2028}' || c == '\U{2029}' || c == '\U{202F}' || c == '\U{205F}'
    || c == '\U{3000}'                       // ideographic space
  }

  predicate AllSpace(s: string) {
    forall i :: 0 <= i < |s| ==> IsSpace(s[i])
  }

  /** Neither end of `s` is whitespace. */
  predicate IsTrimmed(s: string) {
    s == [] || (!IsSpace(s[0]) && !IsSpace(s[|s| - 1]))
  }

  /** Drops leading whitespace: the result is a suffix of `s`, what was dropped is all whitespace. */
  function TrimLeft(s: string): (r: string)
    ensures |r| <= |s| && r == s[|s| - |r|..]
    ensures forall i :: 0 <= i < |s| - |r| ==> IsSpace(s[i])
    ensures r == [] || !IsSpace(r[0])
  {
    if s != [] && IsSpace(s[0]) then
      var r := TrimLeft(s[1..]);
      assert forall i :: 1 <= i < |s| - |r| ==> s[i] == s[1..][i - 1];
      r
    else s
  }

  /** Drops trailing whitespace: the result is a prefix of `s`, what was dropped is all whitespace. */
  function TrimRight(s: string): (r: string)
    ensures |r| <= |s| && r == s[..|r|]
    ensures forall i :: |r| <= i < |s| ==> IsSpace(s[i])
    ensures r == [] || !IsSpace(r[|r| - 1])
  {
    if s != [] && IsSpace(s[|s| - 1]) then
      var r := TrimRight(s[..|s| - 1]);
      assert forall i :: |r| <= i < |s| - 1 ==> s[i] == s[..|s| - 1][i];
      r
    else s
  }

  /** Python's `s.strip()`: the result has no whitespace at either end. */
  function Trim(s: string): (r: string)
    ensures IsTrimmed(r)
  {
    var l := TrimLeft(s);
    var r := TrimRight(l);
    assert r != [] ==> r[0] == l[0];
    r
  }

  /** Where the stripped string starts in `s`: after the leading whitespace. */
  function TrimStart(s: string): (i: nat)
    ensures i + |Trim(s)| <= |s| && Trim(s) == s[i..i + |Trim(s)|]
  {
    var l := TrimLeft(s);
    var r := TrimRight(l);
    var i := |s| - |l|;
    assert l == s[i..];
    assert r == l[..|r|];
    assert l[..|r|] == s[i..i + |r|];
    i
  }

  /**
   * What `Trim` keeps is the slice of `s` left once the whitespace at both
   * ends is cut away.
   */
  lemma TrimSlice(s: string)
    ensures exists i, j :: 0 <= i <= j <= |s| && Trim(s) == s[i..j] && AllSpace(s[..i]) && AllSpace(s[j..])
  {
    var l := TrimLeft(s);
    var r := TrimRight(l);
    var i := TrimStart(s);
    var j := i + |r|;
    assert i == |s| - |l| && r == Trim(s);
    assert AllSpace(s[..i]) by {
      assert forall k :: 0 <= k < i ==> s[..i][k] == s[k];
    }
    assert AllSpace(s[j..]) by {
      assert forall k :: 0 <= k < |s| - j ==> s[j..][k] == s[j + k] == l[|r| + k];
    }
  }

  /** Stripping twice is stripping once. */
  lemma TrimIdempotent(s: string)
    ensures Trim(Trim(s)) == Trim(s)
  {
    var t := Trim(s);
    assert TrimLeft(t) == t;
    assert TrimRight(t) == t;
  }

  /** Stripping never lengthens a string, and strips a whitespace-only string to nothing. */
  lemma TrimShortens(s: string)
    ensures |Trim(s)| <= |s|
    ensures AllSpace(s) ==> Trim(s) == []
  {
    if AllSpace(s) && Trim(s) != [] {
      TrimChars(s, 0);
    }
  }

  /** Every character of a stripped string is a character of the original. */
  lemma TrimChars(s: string, k: nat)
    requires k < |Trim(s)|
    ensures Trim(s)[k] in s
  {
    var i := TrimStart(s);
    assert Trim(s)[k] == s[i + k];
  }

  /** Python's `s.startswith(p)`: `s` is `p` followed by the rest of `s`. */
  predicate StartsWith(s: string, p: string): (b: bool)
    ensures b <==> |p| <= |s| && s == p + s[|p|..]
  {
    if |p| <= |s| && s[..|p|] == p then
      assert s == p + s[|p|..];
      true
    else
      assert |p| <= |s| ==> (p + s[|p|..])[..|p|] == p;
      false
  }

  /** `w` occurs in `s` starting at index `i`. */
  predicate OccursAt(s: string, w: string, i: int) {
    0 <= i && i + |w| <= |s| && s[i..i + |w|] == w
  }

  predicate Occurs(s: string, w: string) {
    exists i | 0 <= i <= |s| - |w| :: OccursAt(s, w, i)
  }

  /**
   * Python's `s.count(w)`: the number of non-overlapping occurrences of `w`,
   * found by scanning left to right and resuming after each match. The empty
   * word is counted once per position, `|s| + 1` times, as Python does.
   * Occurrences never overlap, so they cannot take more room than `s` has.
   */
  function Count(s: string, w: string): (n: nat)
    ensures |w| == 0 ==> n == |s| + 1
    ensures n * |w| <= |s| || |w| == 0
    decreases |s|
  {
    if |w| == 0 then |s| + 1
    else if |s| < |w| then 0
    else if s[..|w|] == w then
      var m := Count(s[|w|..], w);
      assert (1 + m) * |w| == |w| + m * |w|;
      1 + m
    else Count(s[1..], w)
  }

  /** Away from index 0, the occurrences of `w` in `s` are those in `s[1..]`, shifted by one. */
  lemma OccursTail(s: string, w: string)
    requires |s| >= 1 && !OccursAt(s, w, 0)
    ensures Occurs(s, w) <==> Occurs(s[1..], w)
  {
    if Occurs(s, w) {
      var i :| 0 <= i <= |s| - |w| && OccursAt(s, w, i);
      assert i != 0;
      assert s[1..][i - 1..i - 1 + |w|] == s[i..i + |w|];
      assert OccursAt(s[1..], w, i - 1);
    }
    if Occurs(s[1..], w) {
      var i :| 0 <= i <= |s[1..]| - |w| && OccursAt(s[1..], w, i);
      assert s[1..][i..i + |w|] == s[i + 1..i + 1 + |w|];
      assert OccursAt(s, w, i + 1);
    }
  }

  /** A non-empty word is counted zero times exactly when it does not occur at all. */
  lemma {:induction false} CountZeroIffAbsent(s: string, w: string)
    requires |w| > 0
    ensures Count(s, w) == 0 <==> !Occurs(s, w)
    decreases |s|
  {
    if |s| < |w| {
    } else if s[..|w|] == w {
      assert OccursAt(s, w, 0);
    } else {
      CountZeroIffAbsent(s[1..], w);
      OccursTail(s, w);
    }
  }

  /** A word one of whose characters is nowhere in `s` is counted zero times. */
  lemma {:induction false} CountMissingChar(s: string, w: string, j: nat)
    requires j < |w| && w[j] !in s
    ensures Count(s, w) == 0
    decreases |s|
  {
    if |s| >= |w| {
      assert s[..|w|][j] == s[j];
      CountMissingChar(s[1..], w, j);
    }
  }

  /** One mismatching character rules out an occurrence at `i`. */
  lemma NotOccursAt(s: string, w: string, i: nat, m: nat)
    requires m < |w| && i + m < |s| && s[i + m] != w[m]
    ensures !OccursAt(s, w, i)
  {
  }

  /** Positions where `w` does not start are skipped: counting resumes at the first that remains. */
  lemma {:induction false} CountSkip(s: string, w: string, i: nat)
    requires |w| > 0 && i + |w| <= |s|
    requires forall j :: 0 <= j < i ==> !OccursAt(s, w, j)
    ensures Count(s, w) == Count(s[i..], w)
    decreases i
  {
    if i > 0 {
      assert !OccursAt(s, w, 0);
      assert s[..|w|] == s[0..|w|];
      forall j | 0 <= j < i - 1 ensures !OccursAt(s[1..], w, j) {
        assert !OccursAt(s, w, j + 1);
        assert s[1..][j..j + |w|] == s[j + 1..j + 1 + |w|];
      }
      CountSkip(s[1..], w, i - 1);
      assert s[1..][i - 1..] == s[i..];
    }
  }

  /** `w` occurs in `s[d..]` at `i` exactly when it occurs in `s` at `i + d`. */
  lemma OccursShift(s: string, w: string, d: nat, i: int)
    requires d <= |s| && 0 <= i
    ensures OccursAt(s[d..], w, i) <==> OccursAt(s, w, i + d)
  {
    if 0 <= i && i + |w| <= |s| - d {
      assert s[d..][i..i + |w|] == s[i + d..i + d + |w|];
    }
  }

  /** Every position of `p` moved right by `d`. */
  function ShiftBy(p: seq<int>, d: int): (r: seq<int>)
    ensures |r| == |p| && forall k :: 0 <= k < |p| ==> r[k] == p[k] + d
  {
    seq(|p|, k requires 0 <= k < |p| => p[k] + d)
  }

  /** Consecutive positions of `p` are at least `n` apart. */
  predicate Spaced(p: seq<int>, n: nat) {
    forall k :: 0 <= k < |p| - 1 ==> p[k] + n <= p[k + 1]
  }

  /**
   * `p` is a left-to-right matching of `w` in `s`: every position of `p` is an
   * occurrence, the occurrences do not overlap, and every occurrence of `w`
   * in `s` starts inside one of them (it is either chosen or overlapped by an
   * earlier choice).
   */
  predicate GreedyMatching(s: string, w: string, p: seq<int>) {
    && (forall k {:trigger OccursAt(s, w, p[k])} :: 0 <= k < |p| ==> OccursAt(s, w, p[k]))
    && Spaced(p, |w|)
    && (forall i | 0 <= i <= |s| - |w| && OccursAt(s, w, i) :: exists k :: 0 <= k < |p| && p[k] <= i < p[k] + |w|)
  }

  /**
   * The matching of `s` built from a matching `p'` of `s[d..]`: `d` is the
   * length of `w` when `w` starts `s` (that occurrence is chosen), and 1 otherwise.
   */
  function Extend(s: string, w: string, p': seq<int>): seq<int>
    requires |w| <= |s|
  {
    if s[..|w|] == w then [0] + ShiftBy(p', |w|) else ShiftBy(p', 1)
  }

  /** Whether `w` starts `s`, and how far the scan moves on. */
  function Step(s: string, w: string): nat
    requires |w| <= |s|
  {
    if s[..|w|] == w then |w| else 1
  }

  lemma ExtendOccurs(s: string, w: string, p': seq<int>)
    requires 0 < |w| <= |s|
    requires forall k {:trigger OccursAt(s[Step(s, w)..], w, p'[k])} :: 0 <= k < |p'| ==> OccursAt(s[Step(s, w)..], w, p'[k])
    ensures forall k {:trigger OccursAt(s, w, Extend(s, w, p')[k])} :: 0 <= k < |Extend(s, w, p')| ==> OccursAt(s, w, Extend(s, w, p')[k])
  {
    var d, p := Step(s, w), Extend(s, w, p');
    var h := if s[..|w|] == w then 1 else 0;
    forall k | 0 <= k < |p| ensures OccursAt(s, w, p[k]) {
      if k >= h {
        assert OccursAt(s[d..], w, p'[k - h]);
        OccursShift(s, w, d, p'[k - h]);
      } else {
        assert s[0..|w|] == s[..|w|];
      }
    }
  }

  lemma ExtendSpaced(s: string, w: string, p': seq<int>)
    requires 0 < |w| <= |s|
    requires forall k {:trigger OccursAt(s[Step(s, w)..], w, p'[k])} :: 0 <= k < |p'| ==> OccursAt(s[Step(s, w)..], w, p'[k])
    requires Spaced(p', |w|)
    ensures Spaced(Extend(s, w, p'), |w|)
  {
    var d, p := Step(s, w), Extend(s, w, p');
    var h := if s[..|w|] == w then 1 else 0;
    forall k | 0 <= k < |p| - 1 ensures p[k] + |w| <= p[k + 1] {
      if k >= h {
        assert p'[k - h] + |w| <= p'[k - h + 1];
      } else {
        assert OccursAt(s[d..], w, p'[0]);
      }
    }
  }

  lemma ExtendCovers(s: string, w: string, p': seq<int>)
    requires 0 < |w| <= |s|
    requires forall i | 0 <= i <= |s[Step(s, w)..]| - |w| && OccursAt(s[Step(s, w)..], w, i) ::
      exists k :: 0 <= k < |p'| && p'[k] <= i < p'[k] + |w|
    ensures forall i | 0 <= i <= |s| - |w| && OccursAt(s, w, i) ::
      exists k :: 0 <= k < |Extend(s, w, p')| && Extend(s, w, p')[k] <= i < Extend(s, w, p')[k] + |w|
  {
    var d, p := Step(s, w), Extend(s, w, p');
    var hit := s[..|w|] == w;
    var h := if hit then 1 else 0;
    forall i | 0 <= i <= |s| - |w| && OccursAt(s, w, i) ensures exists k :: 0 <= k < |p| && p[k] <= i < p[k] + |w| {
      if hit && i < |w| {
        assert p[0] <= i < p[0] + |w|;
      } else {
        assert i >= d by {
          assert s[0..|w|] == s[..|w|];
        }
        OccursShift(s, w, d, i - d);
        var k' :| 0 <= k' < |p'| && p'[k'] <= i - d < p'[k'] + |w|;
        assert p[k' + h] == p'[k'] + d;
      }
    }
  }

  /**
   * What `Count` counts, described without reference to it: the number of
   * positions of a non-overlapping left-to-right matching of `w` in `s`.
   */
  lemma {:induction false} CountIsGreedy(s: string, w: string)
    requires |w| > 0
    ensures exists p :: |p| == Count(s, w) && GreedyMatching(s, w, p)
    decreases |s|
  {
    if |s| < |w| {
      assert GreedyMatching(s, w, []);
    } else {
      var d := Step(s, w);
      CountIsGreedy(s[d..], w);
      var p' :| |p'| == Count(s[d..], w) && GreedyMatching(s[d..], w, p');
      ExtendOccurs(s, w, p');
      ExtendSpaced(s, w, p');
      ExtendCovers(s, w, p');
      var p := Extend(s, w, p');
      assert |p| == Count(s, w);
      assert GreedyMatching(s, w, p);
    }
  }

  /** In a spaced sequence, any later position is at least `n` past any earlier one. */
  lemma {:induction false} SpacedChain(p: seq<int>, n: nat)
    requires Spaced(p, n)
    ensures forall j, k :: 0 <= j < k < |p| ==> p[j] + n <= p[k]
  {
    if |p| > 1 {
      assert Spaced(p[1..], n) by {
        forall k | 0 <= k < |p| - 2 ensures p[1..][k] + n <= p[1..][k + 1] {
          assert p[k + 1] + n <= p[k + 2];
        }
      }
      SpacedChain(p[1..], n);
      forall j, k | 0 <= j < k < |p| ensures p[j] + n <= p[k] {
        if j == 0 && k > 1 {
          assert p[1..][0] + n <= p[1..][k - 1];
        } else if j > 0 {
          assert p[1..][j - 1] + n <= p[1..][k - 1];
        }
      }
    }
  }

  /** Two matchings that agree before position `k` agree on its order: `p[k] <= q[k]`. */
  lemma GreedyStep(s: string, w: string, p: seq<int>, q: seq<int>, k: nat)
    requires |w| > 0 && GreedyMatching(s, w, p) && GreedyMatching(s, w, q)
    requires k < |p| && k < |q| && p[..k] == q[..k]
    ensures p[k] <= q[k]
  {
    if q[k] < p[k] {
      assert OccursAt(s, w, q[k]);
      var j :| 0 <= j < |p| && p[j] <= q[k] < p[j] + |w|;
      SpacedChain(p, |w|);
      SpacedChain(q, |w|);
    }
  }

  /** Two matchings that agree on their first `k` positions. */
  lemma {:induction false} GreedyAgree(s: string, w: string, p: seq<int>, q: seq<int>, k: nat)
    requires |w| > 0 && GreedyMatching(s, w, p) && GreedyMatching(s, w, q)
    requires k <= |p| && k <= |q|
    ensures p[..k] == q[..k]
  {
    if k > 0 {
      GreedyAgree(s, w, p, q, k - 1);
      GreedyStep(s, w, p, q, k - 1);
      GreedyStep(s, w, q, p, k - 1);
      assert p[..k] == p[..k - 1] + [p[k - 1]];
      assert q[..k] == q[..k - 1] + [q[k - 1]];
    }
  }

  /**
   * There is only one left-to-right matching, so `CountIsGreedy` pins the
   * value of `Count` for every non-empty word.
   */
  lemma GreedyMatchingUnique(s: string, w: string, p: seq<int>, q: seq<int>)
    requires |w| > 0 && GreedyMatching(s, w, p) && GreedyMatching(s, w, q)
    ensures p == q
  {
    if |p| < |q| {
      GreedyShorter(s, w, p, q);
    } else if |q| < |p| {
      GreedyShorter(s, w, q, p);
    } else {
      GreedyAgree(s, w, p, q, |p|);
      assert p == p[..|p|] && q == q[..|q|];
    }
  }

  /** A matching cannot stop while another goes on: the next position would be left uncovered. */
  lemma GreedyShorter(s: string, w: string, p: seq<int>, q: seq<int>)
    requires |w| > 0 && GreedyMatching(s, w, p) && GreedyMatching(s, w, q)
    ensures |p| >= |q|
  {
    if |p| < |q| {
      var n := |p|;
      assert OccursAt(s, w, q[n]);
      var j :| 0 <= j < |p| && p[j] <= q[n] < p[j] + |w|;
      GreedyAgree(s, w, p, q, n);
      assert p[j] == q[j] by {
        assert p[..n][j] == q[..n][j];
      }
      SpacedChain(q, |w|);
    }
  }

  /** Back-to-back occurrences are each counted. */
  lemma CountBackToBack()
    ensures Count("报告报告", "报告") == 2
  {
    assert "报告报告"[..2] == "报告";
    assert "报告报告"[2..] == "报告";
    assert "报告"[..2] == "报告";
    assert "报告"[2..] == [];
  }

  /** Overlapping occurrences are counted once: the scan resumes after each match. */
  lemma CountSkipsOverlap()
    ensures Count("aaa", "aa") == 1
  {
    assert "aaa"[..2] == "aa";
    assert "aaa"[2..] == "a";
  }

  /** A one-character word is counted once for every occurrence of that character. */
  lemma {:induction false} CountSingleChar(s: string, c: char)
    ensures Count(s, [c]) == multiset(s)[c]
  {
    if s != [] {
      CountSingleChar(s[1..], c);
      assert s == [s[0]] + s[1..];
      assert s[..1] == [s[0]];
    }
  }

  /** ASCII lower-casing of one character. */
  function LowerChar(c: char): char {
    if 'A' <= c <= 'Z' then (c as int + 32) as char else c
  }

  /** Lower-casing, character by character; only ASCII letters change. */
  function Lower(s: string): (r: string)
    ensures |r| == |s|
    ensures forall i :: 0 <= i < |s| ==> r[i] == LowerChar(s[i])
    ensures forall i :: 0 <= i < |r| ==> !('A' <= r[i] <= 'Z')
    ensures forall i :: 0 <= i < |r| ==> r[i] != s[i] ==> 'A' <= s[i] <= 'Z'
  {
    seq(|s|, i requires 0 <= i < |s| => LowerChar(s[i]))
  }

  predicate NoAsciiLetters(w: string) {
    forall i :: 0 <= i < |w| ==> !('A' <= w[i] <= 'Z') && !('a' <= w[i] <= 'z')
  }

  /** Lower-casing the text does not change how often a word without ASCII letters occurs in it. */
  lemma {:induction false} CountLowerInvariant(s: string, w: string)
    requires NoAsciiLetters(w)
    ensures Count(Lower(s), w) == Count(s, w)
    decreases |s|
  {
    var ls := Lower(s);
    if |w| > 0 && |s| >= |w| {
      assert (ls[..|w|] == w) <==> (s[..|w|] == w) by {
        if ls[..|w|] == w {
          forall k | 0 <= k < |w| ensures s[k] == w[k] {
            assert ls[k] == w[k];
          }
        }
        if s[..|w|] == w {
          forall k | 0 <= k < |w| ensures ls[k] == w[k] {
            assert s[k] == w[k];
          }
        }
      }
      assert ls[|w|..] == Lower(s[|w|..]);
      assert ls[1..] == Lower(s[1..]);
      CountLowerInvariant(s[|w|..], w);
      CountLowerInvariant(s[1..], w);
    }
  }
}
