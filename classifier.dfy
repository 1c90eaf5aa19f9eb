/**
 * The keyword rule engine (`simple_analyze`): each sentence is scored against
 * a fixed list of sixteen fact indicators and sixteen opinion indicators, and
 * the larger score decides the label. Confidence is kept in integer tenths:
 * the source's `0.7 + score * 0.1` is `7 + score` here and its `0.6` is `6`.
 */
module Classifier {
  import opened Text

  /** The three labels; the source writes them as "事实", "观点" and "混合". */
  datatype Label = Fact | Opinion | Mixed

  /** The label text the source stores in each result and in the exported CSV. */
  function LabelText(l: Label): string {
    match l
    case Fact => "事实"
    case Opinion => "观点"
    case Mixed => "混合"
  }

  /** A label with its confidence in tenths. */
  datatype Verdict = Verdict(kind: Label, confidence: nat)

  const FactKeywords: seq<string> :=
    ["数据", "统计", "报告", "显示", "表示", "证实", "据", "研究",
     "调查", "结果", "百分比", "增长", "下降", "日期", "时间", "地点"]

  const OpinionKeywords: seq<string> :=
    ["认为", "觉得", "应该", "可能", "或许", "相信", "建议", "我",
     "我们", "必须", "一定", "肯定", "显然", "毫无疑问", "美好", "糟糕"]

  /** The sum, over the keyword list, of each keyword's non-overlapping count in `s`. */
  function Score(s: string, kws: seq<string>): nat {
    if kws == [] then 0 else Count(s, kws[0]) + Score(s, kws[1..])
  }

  /** A score is zero exactly when no keyword is counted, and no single keyword's count exceeds it. */
  lemma {:induction false} ScoreBounds(s: string, kws: seq<string>)
    ensures Score(s, kws) == 0 <==> forall k :: 0 <= k < |kws| ==> Count(s, kws[k]) == 0
    ensures forall k :: 0 <= k < |kws| ==> Count(s, kws[k]) <= Score(s, kws)
  {
    if kws != [] {
      ScoreBounds(s, kws[1..]);
      assert forall k :: 1 <= k < |kws| ==> kws[k] == kws[1..][k - 1];
    }
  }

  /** Scores add up over a concatenation of keyword lists. */
  lemma {:induction false} ScoreAppend(s: string, a: seq<string>, b: seq<string>)
    ensures Score(s, a + b) == Score(s, a) + Score(s, b)
  {
    if a == [] {
      assert a + b == b;
    } else {
      assert (a + b)[0] == a[0];
      assert (a + b)[1..] == a[1..] + b;
      ScoreAppend(s, a[1..], b);
    }
  }

  /**
   * The fact score: the sentence is lower-cased before matching, as the source
   * does, which leaves the score of the letter-free keywords unchanged.
   */
  function FactScore(sentence: string): (n: nat)
    ensures n == Score(sentence, FactKeywords)
  {
    KeywordsHaveNoAsciiLetters();
    ScoreLowerInvariant(sentence, FactKeywords);
    Score(Lower(sentence), FactKeywords)
  }

  /** The opinion score, likewise unaffected by lower-casing. */
  function OpinionScore(sentence: string): (n: nat)
    ensures n == Score(sentence, OpinionKeywords)
  {
    KeywordsHaveNoAsciiLetters();
    ScoreLowerInvariant(sentence, OpinionKeywords);
    Score(Lower(sentence), OpinionKeywords)
  }

  /**
   * The decision rule on the two scores: the strictly larger score wins and
   * is rewarded with `7 + score` tenths; a tie, including 0 to 0, is mixed at 6.
   */
  function Decide(factScore: nat, opinionScore: nat): (v: Verdict)
    ensures v.kind == Fact <==> factScore > opinionScore
    ensures v.kind == Opinion <==> opinionScore > factScore
    ensures v.kind == Mixed <==> factScore == opinionScore
    ensures v.kind == Fact ==> v.confidence == 7 + factScore
    ensures v.kind == Opinion ==> v.confidence == 7 + opinionScore
    ensures v.kind == Mixed <==> v.confidence == 6
    ensures v.kind != Mixed ==> v.confidence >= 8
  {
    if factScore > opinionScore then Verdict(Fact, 7 + factScore)
    else if opinionScore > factScore then Verdict(Opinion, 7 + opinionScore)
    else Verdict(Mixed, 6)
  }

  /** `simple_analyze`: the label and confidence of one sentence. */
  function Analyze(sentence: string): (v: Verdict)
    ensures v.kind == Fact <==> FactScore(sentence) > OpinionScore(sentence)
    ensures v.kind == Opinion <==> OpinionScore(sentence) > FactScore(sentence)
    ensures v.kind == Mixed <==> FactScore(sentence) == OpinionScore(sentence)
    ensures v.confidence == (if v.kind == Fact then 7 + FactScore(sentence)
                             else if v.kind == Opinion then 7 + OpinionScore(sentence)
                             else 6)
  {
    Decide(FactScore(sentence), OpinionScore(sentence))
  }

  /** One more point for the winning side raises its confidence by exactly one tenth. */
  lemma DecideStep(factScore: nat, opinionScore: nat)
    ensures factScore > opinionScore ==>
      Decide(factScore + 1, opinionScore) == Verdict(Fact, Decide(factScore, opinionScore).confidence + 1)
    ensures opinionScore > factScore ==>
      Decide(factScore, opinionScore + 1) == Verdict(Opinion, Decide(factScore, opinionScore).confidence + 1)
  {
  }

  /** A score splits around any one of its keywords. */
  lemma {:induction false} ScoreSplit(s: string, kws: seq<string>, i: nat)
    requires i < |kws|
    ensures Score(s, kws) == Score(s, kws[..i]) + Count(s, kws[i]) + Score(s, kws[i + 1..])
  {
    if i == 0 {
      assert kws[..0] == [];
    } else {
      ScoreSplit(s, kws[1..], i - 1);
      assert kws[1..][..i - 1] == kws[..i][1..];
      assert kws[1..][i - 1] == kws[i];
      assert kws[1..][i..] == kws[i + 1..];
    }
  }

  predicate AllNoAsciiLetters(kws: seq<string>) {
    forall k :: 0 <= k < |kws| ==> NoAsciiLetters(kws[k])
  }

  lemma KeywordsHaveNoAsciiLetters()
    ensures AllNoAsciiLetters(FactKeywords) && AllNoAsciiLetters(OpinionKeywords)
    ensures forall k :: 0 <= k < |FactKeywords| ==> |FactKeywords[k]| > 0
    ensures forall k :: 0 <= k < |OpinionKeywords| ==> |OpinionKeywords[k]| > 0
  {
  }

  /** Lower-casing the sentence leaves every score over letter-free keywords as it was. */
  lemma {:induction false} ScoreLowerInvariant(s: string, kws: seq<string>)
    requires AllNoAsciiLetters(kws)
    ensures Score(Lower(s), kws) == Score(s, kws)
  {
    if kws != [] {
      CountLowerInvariant(s, kws[0]);
      ScoreLowerInvariant(s, kws[1..]);
    }
  }

  /** No keyword from either list occurs in `s`. */
  predicate NoKeywords(s: string) {
    && (forall k :: 0 <= k < |FactKeywords| ==> !Occurs(s, FactKeywords[k]))
    && (forall k :: 0 <= k < |OpinionKeywords| ==> !Occurs(s, OpinionKeywords[k]))
  }

  /** A list scores zero on `s` exactly when none of its (non-empty) keywords occurs in `s`. */
  lemma ScoreZeroIffAbsent(s: string, kws: seq<string>)
    requires forall k :: 0 <= k < |kws| ==> |kws[k]| > 0
    ensures Score(s, kws) == 0 <==> forall k :: 0 <= k < |kws| ==> !Occurs(s, kws[k])
  {
    ScoreBounds(s, kws);
    forall k | 0 <= k < |kws| ensures Count(s, kws[k]) == 0 <==> !Occurs(s, kws[k]) {
      CountZeroIffAbsent(s, kws[k]);
    }
  }

  /** A sentence with no keyword at all is mixed, at confidence 6 tenths; and only such sentences score 0 to 0. */
  lemma NoKeywordsIsMixed(sentence: string)
    ensures NoKeywords(sentence) <==> FactScore(sentence) == 0 && OpinionScore(sentence) == 0
    ensures NoKeywords(sentence) ==> Analyze(sentence) == Verdict(Mixed, 6)
  {
    KeywordsHaveNoAsciiLetters();
    ScoreZeroIffAbsent(sentence, FactKeywords);
    ScoreZeroIffAbsent(sentence, OpinionKeywords);
  }

  /** The one-character fact keyword '据' adds exactly one to the fact score per occurrence. */
  lemma JuCountsEachOccurrence(sentence: string)
    ensures FactKeywords[6] == "据"
    ensures FactScore(sentence) ==
      multiset(sentence)['据'] + Score(sentence, FactKeywords[..6]) + Score(sentence, FactKeywords[7..])
  {
    ScoreSplit(sentence, FactKeywords, 6);
    CountSingleChar(sentence, '据');
  }

  /** A list scores zero when each keyword has a character (its first, or its last) missing from `s`. */
  lemma ScoreZeroWhenMissing(s: string, kws: seq<string>, last: bool)
    requires forall k :: 0 <= k < |kws| ==>
      |kws[k]| > 0 && kws[k][if last then |kws[k]| - 1 else 0] !in s
    ensures Score(s, kws) == 0
  {
    ScoreBounds(s, kws);
    forall k | 0 <= k < |kws| ensures Count(s, kws[k]) == 0 {
      CountMissingChar(s, kws[k], if last then |kws[k]| - 1 else 0);
    }
  }

  lemma ScorePair(s: string, p: seq<string>)
    requires |p| == 2
    ensures Score(s, p) == Count(s, p[0]) + Count(s, p[1])
  {
    assert Score(s, p[1..][1..]) == 0 by { assert p[1..][1..] == []; }
    assert Score(s, p[1..]) == Count(s, p[1]) + Score(s, p[1..][1..]);
  }

  /** A sixteen-keyword list that is hit once at positions 2, 3 and 11 and nowhere else scores 3. */
  lemma ScoreThreeHits(s: string, kws: seq<string>)
    requires |kws| == 16
    requires Score(s, kws[..2]) == 0 && Score(s, kws[4..10]) == 0
    requires Count(s, kws[10]) == 0 && Score(s, kws[12..]) == 0
    requires Count(s, kws[2]) == 1 && Count(s, kws[3]) == 1 && Count(s, kws[11]) == 1
    ensures Score(s, kws) == 3
  {
    var a, b, c, d, e := kws[..2], kws[2..4], kws[4..10], kws[10..12], kws[12..];
    assert kws == a + b + c + d + e;
    ScoreAppend(s, a + b + c + d, e);
    ScoreAppend(s, a + b + c, d);
    ScoreAppend(s, a + b, c);
    ScoreAppend(s, a, b);
    ScorePair(s, b);
    ScorePair(s, d);
  }

  /** "报告" occurs once in the example, at its start. */
  lemma ExampleReportHit(s: string)
    requires s == "报告显示增长百分之十"
    ensures Count(s, "报告") == 1
  {
    CountMissingChar(s[2..], "报告", 0);
    assert s[..2] == "报告";
  }

  /** "显示" occurs once in the example, at index 2. */
  lemma ExampleDisplayHit(s: string)
    requires s == "报告显示增长百分之十"
    ensures Count(s, "显示") == 1
  {
    NotOccursAt(s, "显示", 0, 0);
    NotOccursAt(s, "显示", 1, 0);
    CountSkip(s, "显示", 2);
    var t := s[2..];
    assert t == "显示增长百分之十";
    assert t[..2] == "显示";
    CountMissingChar(t[2..], "显示", 0);
  }

  /** "增长" occurs once in the example, at index 4. */
  lemma ExampleGrowthHit(s: string)
    requires s == "报告显示增长百分之十"
    ensures Count(s, "增长") == 1
  {
    NotOccursAt(s, "增长", 0, 0);
    NotOccursAt(s, "增长", 1, 0);
    NotOccursAt(s, "增长", 2, 0);
    NotOccursAt(s, "增长", 3, 0);
    CountSkip(s, "增长", 4);
    var t := s[4..];
    assert t == "增长百分之十";
    assert t[..2] == "增长";
    CountMissingChar(t[2..], "增长", 0);
  }

  /** No other fact keyword occurs in the example: first the ones before and after the hits... */
  lemma ExampleFactMissesOuter(s: string)
    requires s == "报告显示增长百分之十"
    ensures Score(s, FactKeywords[..2]) == 0 && Score(s, FactKeywords[12..]) == 0
  {
    ScoreZeroWhenMissing(s, FactKeywords[..2], true);
    ScoreZeroWhenMissing(s, FactKeywords[12..], true);
  }

  /** ...then the ones between; "百分比" is missed because '比' is not in the sentence. */
  lemma ExampleFactMissesInner(s: string)
    requires s == "报告显示增长百分之十"
    ensures Score(s, FactKeywords[4..10]) == 0 && Count(s, FactKeywords[10]) == 0
  {
    ScoreZeroWhenMissing(s, FactKeywords[4..10], false);
    CountMissingChar(s, FactKeywords[10], 2);
  }

  lemma ExampleFactScore(s: string)
    requires s == "报告显示增长百分之十"
    ensures Score(s, FactKeywords) == 3
  {
    ExampleFactMissesOuter(s);
    ExampleFactMissesInner(s);
    ExampleReportHit(s);
    ExampleDisplayHit(s);
    ExampleGrowthHit(s);
    ScoreThreeHits(s, FactKeywords);
  }

  lemma ExampleOpinionScore(s: string)
    requires s == "报告显示增长百分之十"
    ensures Score(s, OpinionKeywords) == 0
  {
    ScoreZeroWhenMissing(s, OpinionKeywords, true);
  }

  /**
   * "报告显示增长百分之十" holds the fact keywords "报告", "显示" and "增长" once each
   * and no opinion keyword; "百分" is only a prefix of the keyword "百分比", so it
   * is not counted. The sentence is a fact at 10 tenths.
   */
  lemma ReportExample()
    ensures FactScore("报告显示增长百分之十") == 3 && OpinionScore("报告显示增长百分之十") == 0
    ensures Analyze("报告显示增长百分之十") == Verdict(Fact, 10)
  {
    var s := "报告显示增长百分之十";
    ExampleFactScore(s);
    ExampleOpinionScore(s);
  }
}
