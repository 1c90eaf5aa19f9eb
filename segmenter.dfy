/**
 * Sentence segmentation: the article text is split at every character of the
 * class `[。！？!?.]` (as `re.split` does), each piece is stripped of
 * surrounding whitespace, and only pieces longer than ten characters are kept.
 */
module Segmenter {
  import opened Text

  /** The sentence delimiters: full-width and ASCII full stop, exclamation and question marks. */
  predicate IsDelimiter(c: char) {
    c == '。' || c == '！' || c == '？' || c == '!' || c == '?' || c == '.'
  }

  predicate NoDelimiter(s: string) {
    forall i :: 0 <= i < |s| ==> !IsDelimiter(s[i])
  }

  /**
   * `re.split` on a one-character class: the text between consecutive
   * delimiters, in order. There is always at least one piece, and no piece
   * holds a delimiter.
   */
  function Split(t: string): (pieces: seq<string>)
    ensures |pieces| >= 1
    ensures forall k :: 0 <= k < |pieces| ==> NoDelimiter(pieces[k])
  {
    if t == [] then [[]]
    else
      var rest := Split(t[1..]);
      if IsDelimiter(t[0]) then [[]] + rest
      else [[t[0]] + rest[0]] + rest[1..]
  }

  /** The delimiters of `t`, in order. */
  function Delimiters(t: string): (ds: string)
    ensures forall i :: 0 <= i < |ds| ==> IsDelimiter(ds[i])
  {
    if t == [] then []
    else (if IsDelimiter(t[0]) then [t[0]] else []) + Delimiters(t[1..])
  }

  /** Puts the pieces back together with one delimiter between each two. */
  function Join(pieces: seq<string>, ds: string): string
    requires |pieces| == |ds| + 1
    decreases |ds|
  {
    if ds == [] then pieces[0]
    else pieces[0] + [ds[0]] + Join(pieces[1..], ds[1..])
  }

  /** Putting a character in front of the first piece puts it in front of the joined text. */
  lemma JoinCons(c: char, rest: seq<string>, ds: string)
    requires |rest| == |ds| + 1
    ensures Join([[c] + rest[0]] + rest[1..], ds) == [c] + Join(rest, ds)
  {
    var p := [[c] + rest[0]] + rest[1..];
    if ds != [] {
      assert p[0] == [c] + rest[0] && p[1..] == rest[1..];
      assert Join(p, ds) == p[0] + [ds[0]] + Join(rest[1..], ds[1..]);
      assert Join(rest, ds) == rest[0] + [ds[0]] + Join(rest[1..], ds[1..]);
    }
  }

  /** Splitting loses nothing: one piece more than there are delimiters, and joining restores the text. */
  lemma {:induction false} SplitJoin(t: string)
    ensures |Split(t)| == |Delimiters(t)| + 1
    ensures Join(Split(t), Delimiters(t)) == t
  {
    if t != [] {
      SplitJoin(t[1..]);
      var rest, ds := Split(t[1..]), Delimiters(t[1..]);
      assert t == [t[0]] + t[1..];
      if IsDelimiter(t[0]) {
        assert Split(t) == [[]] + rest && Delimiters(t) == [t[0]] + ds;
        assert ([[]] + rest)[1..] == rest;
      } else {
        assert Split(t) == [[t[0]] + rest[0]] + rest[1..] && Delimiters(t) == ds;
        JoinCons(t[0], rest, ds);
      }
    }
  }

  /** `x` sits in `t` at offset `at`, character for character. */
  predicate At(t: string, x: string, at: int) {
    0 <= at && at + |x| <= |t| && forall m :: 0 <= m < |x| ==> t[at + m] == x[m]
  }

  /** Sitting at `at` is being the slice of `t` that starts at `at`. */
  lemma AtIsSlice(t: string, x: string, at: int)
    ensures At(t, x, at) <==> 0 <= at && at + |x| <= |t| && t[at..at + |x|] == x
  {
    if 0 <= at && at + |x| <= |t| {
      var sl := t[at..at + |x|];
      assert forall m :: 0 <= m < |x| ==> sl[m] == t[at + m];
    }
  }

  /** Each piece sits in `t` at its offset in `o`. */
  predicate SlicesOf(t: string, pieces: seq<string>, o: seq<int>) {
    |o| == |pieces| && forall k :: 0 <= k < |o| ==> At(t, pieces[k], o[k])
  }

  /** Each piece ends before any later one starts. */
  predicate Apart(pieces: seq<string>, o: seq<int>)
    requires |o| == |pieces|
  {
    forall j, k :: 0 <= j < k < |o| ==> o[j] + |pieces[j]| < o[k]
  }

  /** `o[k]` is where `pieces[k]` sits in `t`, and the pieces come in order without overlapping. */
  predicate PlacedIn(t: string, pieces: seq<string>, o: seq<int>) {
    SlicesOf(t, pieces, o) && Apart(pieces, o)
  }

  /** What sits in `t[1..]` at `at` sits in `t` one position further right. */
  lemma AtShift(t: string, x: string, at: int)
    requires t != [] && At(t[1..], x, at)
    ensures At(t, x, at + 1)
  {
    forall m | 0 <= m < |x| ensures t[at + 1 + m] == x[m] {
      assert t[1..][at + m] == x[m];
    }
  }

  /** The first character of `t` followed by what sits at the start of `t[1..]` sits at the start of `t`. */
  lemma AtCons(t: string, x: string)
    requires t != [] && At(t[1..], x, 0)
    ensures At(t, [t[0]] + x, 0)
  {
    var y := [t[0]] + x;
    forall m | 0 < m < |y| ensures t[m] == y[m] {
      assert y[m] == x[m - 1] == t[1..][m - 1];
    }
  }

  /** A slice of what sits at `at` sits at the matching offset. */
  lemma AtSub(t: string, x: string, at: int, i: int, y: string)
    requires At(t, x, at) && 0 <= i && i + |y| <= |x| && y == x[i..i + |y|]
    ensures At(t, y, at + i)
  {
    forall m | 0 <= m < |y| ensures t[at + i + m] == y[m] {
      assert y[m] == x[i + m];
    }
  }

  /** A delimiter first: an empty piece at 0, then the pieces of the rest. */
  lemma PlacedAfterDelimiter(t: string, rest: seq<string>, o: seq<int>)
    requires t != [] && PlacedIn(t[1..], rest, o)
    ensures PlacedIn(t, [[]] + rest, [0] + ShiftBy(o, 1))
  {
    var p, o1 := [[]] + rest, [0] + ShiftBy(o, 1);
    forall k | 0 <= k < |o1| ensures At(t, p[k], o1[k]) {
      if k > 0 {
        assert o1[k] == o[k - 1] + 1 && p[k] == rest[k - 1];
        AtShift(t, rest[k - 1], o[k - 1]);
      }
    }
    forall j, k | 0 <= j < k < |o1| ensures o1[j] + |p[j]| < o1[k] {
      if j > 0 {
        assert o[j - 1] + |rest[j - 1]| < o[k - 1];
      } else {
        assert At(t[1..], rest[k - 1], o[k - 1]);
      }
    }
  }

  /** Another character first: it joins the first piece of the rest, which starts at 0. */
  lemma PlacedAfterChar(t: string, rest: seq<string>, o: seq<int>)
    requires t != [] && |rest| >= 1 && PlacedIn(t[1..], rest, o) && o[0] == 0
    ensures PlacedIn(t, [[t[0]] + rest[0]] + rest[1..], [0] + ShiftBy(o[1..], 1))
  {
    var p, o1 := [[t[0]] + rest[0]] + rest[1..], [0] + ShiftBy(o[1..], 1);
    SlicesAfterChar(t, rest, o);
    forall j, k | 0 <= j < k < |o1| ensures o1[j] + |p[j]| < o1[k] {
      assert o[j] + |rest[j]| < o[k];
    }
  }

  lemma SlicesAfterChar(t: string, rest: seq<string>, o: seq<int>)
    requires t != [] && |rest| >= 1 && SlicesOf(t[1..], rest, o) && o[0] == 0
    ensures SlicesOf(t, [[t[0]] + rest[0]] + rest[1..], [0] + ShiftBy(o[1..], 1))
  {
    var p, o1 := [[t[0]] + rest[0]] + rest[1..], [0] + ShiftBy(o[1..], 1);
    AtCons(t, rest[0]);
    forall k | 0 < k < |o1| ensures At(t, p[k], o1[k]) {
      assert o1[k] == o[k] + 1 && p[k] == rest[k];
      AtShift(t, rest[k], o[k]);
    }
  }

  /** The pieces of `re.split` lie in the text in order, the first one at the start. */
  lemma {:induction false} SplitPlaced(t: string)
    ensures exists o :: PlacedIn(t, Split(t), o) && o[0] == 0
  {
    if t == [] {
      assert PlacedIn(t, Split(t), [0]);
    } else {
      SplitPlaced(t[1..]);
      var rest := Split(t[1..]);
      var o' :| PlacedIn(t[1..], rest, o') && o'[0] == 0;
      if IsDelimiter(t[0]) {
        PlacedAfterDelimiter(t, rest, o');
        assert PlacedIn(t, Split(t), [0] + ShiftBy(o', 1));
      } else {
        PlacedAfterChar(t, rest, o');
        assert PlacedIn(t, Split(t), [0] + ShiftBy(o'[1..], 1));
      }
    }
  }

  /** Every piece, stripped. */
  function StripEach(pieces: seq<string>): (ts: seq<string>)
    ensures |ts| == |pieces| && forall i :: 0 <= i < |pieces| ==> ts[i] == Trim(pieces[i])
  {
    seq(|pieces|, i requires 0 <= i < |pieces| => Trim(pieces[i]))
  }

  /** The strings longer than ten characters, in order. */
  function LongOnly(ts: seq<string>): seq<string> {
    if ts == [] then []
    else (if |ts[0]| > 10 then [ts[0]] else []) + LongOnly(ts[1..])
  }

  /** Every position, moved one to the right. */
  function Shift(idx: seq<nat>): (r: seq<nat>)
    ensures |r| == |idx| && forall k :: 0 <= k < |idx| ==> r[k] == idx[k] + 1
  {
    seq(|idx|, k requires 0 <= k < |idx| => idx[k] + 1)
  }

  /** The positions of the strings that `LongOnly` keeps. */
  function KeptIndices(ts: seq<string>): seq<nat> {
    if ts == [] then []
    else (if |ts[0]| > 10 then [0] else []) + Shift(KeptIndices(ts[1..]))
  }

  /** The k-th kept string is the string at the k-th kept position. */
  lemma {:induction false} KeptIndicesSelect(ts: seq<string>)
    ensures |LongOnly(ts)| == |KeptIndices(ts)|
    ensures forall k :: 0 <= k < |KeptIndices(ts)| ==>
      KeptIndices(ts)[k] < |ts| && LongOnly(ts)[k] == ts[KeptIndices(ts)[k]]
  {
    if ts != [] {
      KeptIndicesSelect(ts[1..]);
      var idx', r' := KeptIndices(ts[1..]), LongOnly(ts[1..]);
      var head: seq<nat> := if |ts[0]| > 10 then [0] else [];
      var idx, r := head + Shift(idx'), (if |ts[0]| > 10 then [ts[0]] else []) + r';
      assert KeptIndices(ts) == idx && LongOnly(ts) == r;
      forall k | 0 <= k < |idx| ensures idx[k] < |ts| && r[k] == ts[idx[k]] {
        if k >= |head| {
          assert idx'[k - |head|] < |ts[1..]| && r'[k - |head|] == ts[1..][idx'[k - |head|]];
        }
      }
    }
  }

  /** The kept positions increase strictly. */
  lemma {:induction false} KeptIndicesIncrease(ts: seq<string>)
    ensures forall k, l :: 0 <= k < l < |KeptIndices(ts)| ==> KeptIndices(ts)[k] < KeptIndices(ts)[l]
  {
    if ts != [] {
      KeptIndicesIncrease(ts[1..]);
      var idx' := KeptIndices(ts[1..]);
      var head: seq<nat> := if |ts[0]| > 10 then [0] else [];
      var idx := head + Shift(idx');
      assert KeptIndices(ts) == idx;
      forall k, l | 0 <= k < l < |idx| ensures idx[k] < idx[l] {
        if k < |head| {
          assert idx[k] == 0 && idx[l] == idx'[l - |head|] + 1;
        } else {
          assert idx'[k - |head|] < idx'[l - |head|];
          assert idx[k] == idx'[k - |head|] + 1 && idx[l] == idx'[l - |head|] + 1;
        }
      }
    }
  }

  /** A position is kept exactly when its string is longer than ten characters. */
  lemma {:induction false} KeptIndicesExact(ts: seq<string>)
    ensures forall j :: 0 <= j < |ts| ==> (j in KeptIndices(ts) <==> |ts[j]| > 10)
  {
    if ts != [] {
      KeptIndicesExact(ts[1..]);
      var idx' := KeptIndices(ts[1..]);
      var head: seq<nat> := if |ts[0]| > 10 then [0] else [];
      var idx := head + Shift(idx');
      assert KeptIndices(ts) == idx;
      forall j | 0 <= j < |ts| ensures j in idx <==> |ts[j]| > 10 {
        if j == 0 {
          assert 0 !in Shift(idx');
        } else {
          assert ts[j] == ts[1..][j - 1];
          assert j in idx <==> j - 1 in idx' by {
            if j - 1 in idx' {
              var k :| 0 <= k < |idx'| && idx'[k] == j - 1;
              assert Shift(idx')[k] == j;
            }
            if j in Shift(idx') {
              var k :| 0 <= k < |idx'| && Shift(idx')[k] == j;
              assert idx'[k] == j - 1;
            }
          }
        }
      }
    }
  }

  /**
   * The comprehension `[s.strip() for s in pieces if len(s.strip()) > 10]`:
   * every kept sentence is stripped and longer than ten characters.
   */
  function Sentences(pieces: seq<string>): (r: seq<string>)
    ensures forall k :: 0 <= k < |r| ==> IsTrimmed(r[k]) && |r[k]| > 10
  {
    var ts := StripEach(pieces);
    var r := LongOnly(ts);
    KeptIndicesSelect(ts);
    KeptIndicesExact(ts);
    forall k | 0 <= k < |r| ensures IsTrimmed(r[k]) && |r[k]| > 10 {
      var j := KeptIndices(ts)[k];
      assert r[k] == Trim(pieces[j]);
      assert j in KeptIndices(ts);
    }
    r
  }

  /**
   * `Sentences` is exactly a filter that keeps order: the k-th sentence is the
   * stripped piece at the k-th kept position, the kept positions increase, and
   * a position is kept exactly when its stripped piece is longer than ten characters.
   */
  lemma SentencesKeepOrder(pieces: seq<string>)
    ensures |Sentences(pieces)| == |KeptIndices(StripEach(pieces))|
    ensures forall k :: 0 <= k < |Sentences(pieces)| ==>
      && KeptIndices(StripEach(pieces))[k] < |pieces|
      && Sentences(pieces)[k] == Trim(pieces[KeptIndices(StripEach(pieces))[k]])
    ensures forall k, l :: 0 <= k < l < |KeptIndices(StripEach(pieces))| ==>
      KeptIndices(StripEach(pieces))[k] < KeptIndices(StripEach(pieces))[l]
    ensures forall j :: 0 <= j < |pieces| ==>
      (j in KeptIndices(StripEach(pieces)) <==> |Trim(pieces[j])| > 10)
  {
    var ts := StripEach(pieces);
    KeptIndicesSelect(ts);
    KeptIndicesIncrease(ts);
    KeptIndicesExact(ts);
  }

  /** Where each stripped piece starts, given where each piece starts. */
  function StripOffsets(pieces: seq<string>, po: seq<int>): (o: seq<int>)
    requires |po| == |pieces|
    ensures |o| == |pieces| && forall k :: 0 <= k < |o| ==> o[k] == po[k] + TrimStart(pieces[k])
  {
    seq(|po|, k requires 0 <= k < |po| => po[k] + TrimStart(pieces[k]))
  }

  /** The stripped piece sits after the piece's leading whitespace, inside the piece's span. */
  lemma AtTrim(text: string, piece: string, at: int)
    requires At(text, piece, at)
    ensures At(text, Trim(piece), at + TrimStart(piece))
    ensures at + TrimStart(piece) + |Trim(piece)| <= at + |piece|
  {
    AtSub(text, piece, at, TrimStart(piece), Trim(piece));
  }

  /** Stripping keeps each piece where it was, inside its original span. */
  lemma StripEachPlaced(text: string, pieces: seq<string>, po: seq<int>)
    requires PlacedIn(text, pieces, po)
    ensures PlacedIn(text, StripEach(pieces), StripOffsets(pieces, po))
  {
    StripEachSlices(text, pieces, po);
    var ts, o := StripEach(pieces), StripOffsets(pieces, po);
    forall j, k | 0 <= j < k < |o| ensures o[j] + |ts[j]| < o[k] {
      assert At(text, pieces[j], po[j]);
      AtTrim(text, pieces[j], po[j]);
      assert po[j] + |pieces[j]| < po[k];
    }
  }

  lemma StripEachSlices(text: string, pieces: seq<string>, po: seq<int>)
    requires SlicesOf(text, pieces, po)
    ensures SlicesOf(text, StripEach(pieces), StripOffsets(pieces, po))
  {
    var ts, o := StripEach(pieces), StripOffsets(pieces, po);
    var d := seq(|pieces|, k requires 0 <= k < |pieces| => TrimStart(pieces[k]));
    forall k | 0 <= k < |pieces| ensures 0 <= d[k] && d[k] + |ts[k]| <= |pieces[k]| && ts[k] == pieces[k][d[k]..d[k] + |ts[k]|] {
      assert d[k] == TrimStart(pieces[k]) && ts[k] == Trim(pieces[k]);
    }
    SubSlices(text, pieces, po, ts, d, o);
  }

  /** Slices of placed pieces, each taken at an offset `d[k]` into its piece, are placed. */
  lemma SubSlices(text: string, pieces: seq<string>, po: seq<int>, ts: seq<string>, d: seq<int>, o: seq<int>)
    requires SlicesOf(text, pieces, po) && |ts| == |d| == |o| == |pieces|
    requires forall k :: 0 <= k < |pieces| ==>
      0 <= d[k] && d[k] + |ts[k]| <= |pieces[k]| && ts[k] == pieces[k][d[k]..d[k] + |ts[k]|]
    requires forall k :: 0 <= k < |o| ==> o[k] == po[k] + d[k]
    ensures SlicesOf(text, ts, o)
  {
    forall k | 0 <= k < |pieces| ensures At(text, ts[k], o[k]) {
      AtSub(text, pieces[k], po[k], d[k], ts[k]);
    }
  }

  /** The offsets of the strings that `LongOnly` keeps. */
  function LongOffsets(ts: seq<string>, o: seq<int>): (r: seq<int>)
    requires |o| == |ts|
    ensures |r| == |LongOnly(ts)|
    ensures forall k :: 0 <= k < |r| ==> r[k] in o
  {
    if ts == [] then []
    else (if |ts[0]| > 10 then [o[0]] else []) + LongOffsets(ts[1..], o[1..])
  }

  /** Dropping the first placed string leaves the rest placed. */
  lemma PlacedTail(text: string, ts: seq<string>, o: seq<int>)
    requires ts != [] && PlacedIn(text, ts, o)
    ensures PlacedIn(text, ts[1..], o[1..])
  {
    forall k | 0 <= k < |o| - 1 ensures At(text, ts[1..][k], o[1..][k]) {
      assert At(text, ts[k + 1], o[k + 1]);
    }
    forall j, k | 0 <= j < k < |o| - 1 ensures o[1..][j] + |ts[1..][j]| < o[1..][k] {
      assert o[j + 1] + |ts[j + 1]| < o[k + 1];
    }
  }

  /** A string placed before every string of a placed sequence can go in front of it. */
  lemma PlacedCons(text: string, x: string, ox: int, r: seq<string>, o: seq<int>)
    requires PlacedIn(text, r, o) && At(text, x, ox)
    requires forall k :: 0 <= k < |o| ==> ox + |x| < o[k]
    ensures PlacedIn(text, [x] + r, [ox] + o)
  {
    var r1, o1 := [x] + r, [ox] + o;
    forall k | 0 <= k < |o1| ensures At(text, r1[k], o1[k]) {
      if k > 0 {
        assert o1[k] == o[k - 1] && r1[k] == r[k - 1];
      }
    }
    forall j, k | 0 <= j < k < |o1| ensures o1[j] + |r1[j]| < o1[k] {
      if j > 0 {
        assert o[j - 1] + |r[j - 1]| < o[k - 1];
      }
    }
  }

  /** Keeping some of the placed strings, in order, keeps them placed. */
  lemma {:induction false} LongOnlyPlaced(text: string, ts: seq<string>, o: seq<int>)
    requires PlacedIn(text, ts, o)
    ensures PlacedIn(text, LongOnly(ts), LongOffsets(ts, o))
  {
    if ts != [] {
      PlacedTail(text, ts, o);
      LongOnlyPlaced(text, ts[1..], o[1..]);
      var r', o' := LongOnly(ts[1..]), LongOffsets(ts[1..], o[1..]);
      if |ts[0]| > 10 {
        forall k | 0 <= k < |o'| ensures o[0] + |ts[0]| < o'[k] {
          assert o'[k] in o[1..];
          var m :| 0 <= m < |o| - 1 && o[1..][m] == o'[k];
          assert o[0] + |ts[0]| < o[m + 1];
        }
        assert At(text, ts[0], o[0]);
        PlacedCons(text, ts[0], o[0], r', o');
        assert LongOnly(ts) == [ts[0]] + r' && LongOffsets(ts, o) == [o[0]] + o';
      } else {
        assert LongOnly(ts) == r' && LongOffsets(ts, o) == o';
      }
    }
  }

  /**
   * The sentences lie in the text, in the text's order and apart from each
   * other: the segmenter neither invents, reorders nor overlaps text.
   */
  lemma SegmentPlaced(text: string)
    ensures exists o :: PlacedIn(text, Segment(text), o)
  {
    var pieces := Split(text);
    SplitPlaced(text);
    var po :| PlacedIn(text, pieces, po) && po[0] == 0;
    StripEachPlaced(text, pieces, po);
    var ts, to := StripEach(pieces), StripOffsets(pieces, po);
    LongOnlyPlaced(text, ts, to);
    assert Segment(text) == LongOnly(ts);
    assert PlacedIn(text, Segment(text), LongOffsets(ts, to));
  }

  /** The segmenter: the stripped, long-enough pieces of the text between delimiters. */
  function Segment(text: string): (sentences: seq<string>)
    ensures forall k :: 0 <= k < |sentences| ==>
      && IsTrimmed(sentences[k])
      && |sentences[k]| > 10
      && NoDelimiter(sentences[k])
  {
    var r := Sentences(Split(text));
    forall k | 0 <= k < |r| ensures NoDelimiter(r[k]) {
      SentencesKeepOrder(Split(text));
      var p := Split(text)[KeptIndices(StripEach(Split(text)))[k]];
      forall i | 0 <= i < |r[k]| ensures !IsDelimiter(r[k][i]) {
        TrimChars(p, i);
      }
    }
    r
  }
}
