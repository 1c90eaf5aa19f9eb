/**
 * The analysis flow run for one URL: the URL gate, the fetched text's length
 * gate, segmentation, the loop that classifies the first fifty sentences into
 * numbered records, and the per-label tallies.
 *
 * The HTTP request and the HTML extraction are not modelled: their outcome is
 * a parameter, either `Unreachable` (the request failed) or the extracted
 * body text of the page.
 */
module Pipeline {
  import opened Text
  import opened Classifier
  import opened Segmenter

  /** Why a run stops; each is a message shown to the user. */
  datatype Failure =
    | EmptyUrl      // no URL was entered
    | BadScheme     // the URL does not start with http:// or https://
    | FetchFailed   // the request failed, so no article was extracted
    | TooShort      // the extracted text is under 50 characters once stripped
    | NoSentences   // no piece of the text qualifies as a sentence

  datatype Gate = Accept | Reject(failure: Failure)

  /** What the fetch and extraction produced: nothing, or the body text of the page. */
  datatype Fetched = Unreachable | Page(text: string)

  /** One classified sentence: its 1-based number, its text, its label and its confidence in tenths. */
  datatype Record = Record(seqNo: nat, text: string, kind: Label, confidence: nat)

  datatype Report = Report(records: seq<Record>, factCnt: nat, opinionCnt: nat, mixedCnt: nat, totalCnt: nat)

  datatype Outcome = Stopped(reason: Failure) | Done(report: Report)

  /** At most this many sentences are classified. */
  const MaxSentences: nat := 50

  /** The fewest characters the stripped article text must have. */
  const MinTextLength: nat := 50

  /** The URL is `http://` or `https://` followed by the rest of it. */
  predicate HasWebScheme(url: string): (b: bool)
    ensures b <==> (|url| >= 7 && url == "http://" + url[7..]) || (|url| >= 8 && url == "https://" + url[8..])
  {
    StartsWith(url, "http://") || StartsWith(url, "https://")
  }

  /**
   * The URL checks, in the source's order: an empty URL is refused first,
   * then one that starts with neither `http://` nor `https://`.
   */
  function UrlGate(url: string): (g: Gate)
    ensures g == Reject(EmptyUrl) <==> url == []
    ensures g == Accept ==> |url| >= 7
    ensures g.Reject? ==> g.failure == EmptyUrl || g.failure == BadScheme
  {
    if url == [] then Reject(EmptyUrl)
    else if !HasWebScheme(url) then Reject(BadScheme)
    else Accept
  }

  /** Exactly the URLs made of `http://` or `https://` followed by anything pass the gate. */
  lemma UrlGateAcceptsWebUrls(url: string)
    ensures UrlGate(url) == Accept <==>
      (exists rest :: url == "http://" + rest) || (exists rest :: url == "https://" + rest)
  {
    if StartsWith(url, "http://") {
      assert url == "http://" + url[7..];
    } else if StartsWith(url, "https://") {
      assert url == "https://" + url[8..];
    } else {
      forall rest ensures url != "http://" + rest && url != "https://" + rest {
      }
    }
  }

  /** An `ftp://` URL is refused for its scheme before anything is fetched. */
  lemma FtpUrlRejected()
    ensures UrlGate("ftp://example.com") == Reject(BadScheme)
  {
    assert "ftp://example.com"[..7] != "http://" by {
      assert "ftp://example.com"[..7][0] == 'f';
    }
    assert "ftp://example.com"[..8] != "https://" by {
      assert "ftp://example.com"[..8][0] == 'f';
    }
  }

  /** The extracted text is used only if it has at least 50 characters once stripped. */
  predicate LongEnough(text: string): (b: bool)
    ensures b ==> |text| >= MinTextLength
    ensures AllSpace(text) ==> !b
  {
    TrimShortens(text);
    |Trim(text)| >= MinTextLength
  }

  function Min(a: nat, b: nat): nat {
    if a < b then a else b
  }

  /** The record the loop builds for the sentence at 0-based position `i`. */
  function RecordFor(i: nat, sentence: string): Record {
    var v := Analyze(sentence);
    Record(i + 1, sentence, v.kind, v.confidence)
  }

  /**
   * The loop over `sentences[:total_sentences]`: one record per sentence,
   * numbered from 1, for the first `min(50, |sentences|)` sentences, each
   * holding its sentence unchanged with the classifier's verdict.
   */
  method BuildRecords(sentences: seq<string>) returns (results: seq<Record>)
    ensures |results| == Min(MaxSentences, |sentences|)
    ensures forall i :: 0 <= i < |results| ==>
      && results[i].seqNo == i + 1
      && results[i].text == sentences[i]
      && results[i].kind == Analyze(sentences[i]).kind
      && results[i].confidence == Analyze(sentences[i]).confidence
  {
    var total := Min(MaxSentences, |sentences|);
    results := [];
    var i := 0;
    while i < total
      invariant 0 <= i <= total
      invariant |results| == i
      invariant forall j :: 0 <= j < i ==> results[j] == RecordFor(j, sentences[j])
    {
      var verdict := Analyze(sentences[i]);
      results := results + [Record(i + 1, sentences[i], verdict.kind, verdict.confidence)];
      i := i + 1;
    }
  }

  /** `sum(1 for r in results if r['类型'] == label)`: how many records carry the label. */
  function CountKind(records: seq<Record>, l: Label): (n: nat)
    ensures n <= |records|
  {
    if records == [] then 0
    else (if records[0].kind == l then 1 else 0) + CountKind(records[1..], l)
  }

  /** Every record carries exactly one of the three labels, so the tallies add up to the total. */
  lemma {:induction false} TalliesPartition(records: seq<Record>)
    ensures CountKind(records, Fact) + CountKind(records, Opinion) + CountKind(records, Mixed) == |records|
  {
    if records != [] {
      TalliesPartition(records[1..]);
    }
  }

  /** A label's share of the report in percent, before rounding for display. */
  function Percent(count: nat, total: nat): (r: real)
    requires total > 0
    ensures 0.0 <= r
    ensures count <= total ==> r <= 100.0
    ensures count == total ==> r == 100.0
  {
    count as real / total as real * 100.0
  }

  /** The three shares of a report whose tallies partition its total add up to 100 percent. */
  lemma PercentagesSumTo100(fact: nat, opinion: nat, mixed: nat, total: nat)
    requires total > 0 && fact + opinion + mixed == total
    ensures Percent(fact, total) + Percent(opinion, total) + Percent(mixed, total) == 100.0
  {
    var t := total as real;
    SharesAdd(fact as real, opinion as real, t);
    SharesAdd((fact + opinion) as real, mixed as real, t);
    assert (fact + opinion + mixed) as real / t == 1.0;
  }

  /** Shares of one total add like their counts. */
  lemma SharesAdd(a: real, b: real, t: real)
    requires t > 0.0
    ensures a / t + b / t == (a + b) / t
  {
  }

  /**
   * What a finished run reports about `sentences`: the records of the first
   * `min(50, n)` sentences, in order and numbered from 1, with tallies that
   * count each label and add up to the total, which is the number of records.
   */
  predicate ReportOf(r: Report, sentences: seq<string>) {
    && |r.records| == Min(MaxSentences, |sentences|)
    && (forall i :: 0 <= i < |r.records| ==> r.records[i] == RecordFor(i, sentences[i]))
    && r.factCnt == CountKind(r.records, Fact)
    && r.opinionCnt == CountKind(r.records, Opinion)
    && r.mixedCnt == CountKind(r.records, Mixed)
    && r.totalCnt == |r.records|
    && r.factCnt + r.opinionCnt + r.mixedCnt == r.totalCnt
  }

  /**
   * One run of the analysis for `url`. The URL is judged before the fetch
   * result is looked at; the run stops at the first failing check, and
   * otherwise reports on the segmented sentences of the page.
   */
  method Run(url: string, fetched: Fetched) returns (outcome: Outcome)
    ensures UrlGate(url).Reject? ==> outcome == Stopped(UrlGate(url).failure)
    ensures UrlGate(url) == Accept && fetched == Unreachable ==> outcome == Stopped(FetchFailed)
    ensures UrlGate(url) == Accept && fetched.Page? && !LongEnough(fetched.text) ==>
      outcome == Stopped(TooShort)
    ensures UrlGate(url) == Accept && fetched.Page? && LongEnough(fetched.text) && Segment(fetched.text) == [] ==>
      outcome == Stopped(NoSentences)
    ensures outcome.Done? <==>
      UrlGate(url) == Accept && fetched.Page? && LongEnough(fetched.text) && Segment(fetched.text) != []
    ensures outcome.Done? ==>
      ReportOf(outcome.report, Segment(fetched.text)) && outcome.report.totalCnt >= 1
  {
    var gate := UrlGate(url);
    if gate.Reject? {
      return Stopped(gate.failure);
    }
    if fetched.Unreachable? {
      return Stopped(FetchFailed);
    }
    if |Trim(fetched.text)| < MinTextLength {
      return Stopped(TooShort);
    }
    var sentences := Segment(fetched.text);
    if sentences == [] {
      return Stopped(NoSentences);
    }
    var results := BuildRecords(sentences);
    var factCnt := CountKind(results, Fact);
    var opinionCnt := CountKind(results, Opinion);
    var mixedCnt := CountKind(results, Mixed);
    var totalCnt := |results|;
    TalliesPartition(results);
    outcome := Done(Report(results, factCnt, opinionCnt, mixedCnt, totalCnt));
  }
}
