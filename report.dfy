/** The attendance fetch's hand-written scraping: the report id cut out of the
    attendance page's script text, and the JSON-shaped request body built
    around it. */
module Report {
  import opened PyStr
  import opened Exceptions

  /** The script call whose first quoted argument is the report id. */
  const Marker: string := "getReport"
  const Quote: char := '\''

  /** Offset of the first `getReport` in the page, or -1. */
  function MarkerAt(text: string): (b: int)
  {
    Find(text, Marker)
  }

  /** `initial_quotation_mark`: the marker offset plus the offset of the
      first quote in the page from the marker on. */
  function OpeningQuote(text: string): (q1: int)
  {
    var b := MarkerAt(text);
    b + Find(Suffix(text, b), [Quote])
  }

  /** `ending_quotation_mark`: the opening quote plus the offset of the next
      quote after it; this is one before the closing quote's index. */
  function ClosingQuote(text: string): (e: int)
  {
    var q1 := OpeningQuote(text);
    q1 + Find(Suffix(text, q1 + 1), [Quote])
  }

  /** `report_id`: the page text from just after the opening quote up to the
      closing one, as a Python slice. */
  function ReportId(text: string): (id: string)
  {
    Slice(text, OpeningQuote(text) + 1, ClosingQuote(text) + 1)
  }

  /** `b` is the first offset of the marker in `text`. */
  predicate FirstMarker(text: string, b: int)
  {
    OccursAt(text, Marker, b) && forall j :: 0 <= j < b ==> !OccursAt(text, Marker, j)
  }

  lemma SuffixInRange(s: string, i: int)
    requires 0 <= i <= |s|
    ensures Suffix(s, i) == s[i..]
  {
  }

  /** Searching for a quote from offset `i` (`Suffix(text, i).find("'")`,
      offset by `i`) lands on `q` when `q` is the first quote at or after `i`. */
  lemma FindQuoteFrom(text: string, i: int, q: int)
    requires 0 <= i <= q < |text| && text[q] == Quote && NoChar(text[i..q], Quote)
    ensures i + Find(Suffix(text, i), [Quote]) == q
  {
    SuffixInRange(text, i);
    assert text[i..][..q - i] == text[i..q];
    FindCharAt(text[i..], Quote, q - i);
  }

  /** Searching for a quote from offset `i` fails when none follows. */
  lemma FindQuoteNoneFrom(text: string, i: int)
    requires 0 <= i <= |text| && NoChar(text[i..], Quote)
    ensures Find(Suffix(text, i), [Quote]) == -1
  {
    SuffixInRange(text, i);
    FindCharAbsent(text[i..], Quote);
  }

  /** The marker at its first offset `b` and the first quote at or after it
      at `q1` make `q1` the opening quote. */
  lemma OpeningQuoteAt(text: string, b: int, q1: int)
    requires FirstMarker(text, b)
    requires b <= q1 < |text| && text[q1] == Quote && NoChar(text[b..q1], Quote)
    ensures MarkerAt(text) == b && OpeningQuote(text) == q1
  {
    FindFirst(text, Marker, b);
    FindQuoteFrom(text, b, q1);
  }

  /** With the opening quote at `q1` and the next quote at `q2`, the closing
      mark is `q2 - 1`. */
  lemma ClosingQuoteAt(text: string, q1: int, q2: int)
    requires OpeningQuote(text) == q1
    requires 0 <= q1 < q2 < |text| && text[q2] == Quote && NoChar(text[q1 + 1..q2], Quote)
    ensures ClosingQuote(text) == q2 - 1
  {
    FindQuoteFrom(text, q1 + 1, q2);
  }

  /** With the marker at its first offset `b` and two quotes after it, the
      report id is exactly the text strictly between the first two quotes
      that follow `b`. */
  lemma {:induction false} ReportIdBetweenQuotes(text: string, b: int, q1: int, q2: int)
    requires FirstMarker(text, b)
    requires b <= q1 < q2 < |text| && text[q1] == Quote && text[q2] == Quote
    requires NoChar(text[b..q1], Quote) && NoChar(text[q1 + 1..q2], Quote)
    ensures MarkerAt(text) == b && OpeningQuote(text) == q1 && ClosingQuote(text) == q2 - 1
    ensures ReportId(text) == text[q1 + 1..q2]
  {
    OpeningQuoteAt(text, b, q1);
    ClosingQuoteAt(text, q1, q2);
    SliceInRange(text, q1 + 1, q2);
  }

  /** With only one quote after the marker the inner `find` fails, the slice
      is `text[q1+1:q1]` and the report id is empty. */
  lemma {:induction false} ReportIdSingleQuote(text: string, b: int, q1: int)
    requires FirstMarker(text, b)
    requires b <= q1 < |text| && text[q1] == Quote
    requires NoChar(text[b..q1], Quote) && NoChar(text[q1 + 1..], Quote)
    ensures OpeningQuote(text) == q1 && ClosingQuote(text) == q1 - 1
    ensures ReportId(text) == []
  {
    OpeningQuoteAt(text, b, q1);
    FindQuoteNoneFrom(text, q1 + 1);
    SliceInverted(text, q1 + 1, q1);
  }

  /** With no quote after the marker both `find`s fail. The slice is then
      `text[b:b-1]`, empty, unless the marker opens the page: then it is
      `text[0:-1]`, the whole page but its last character. */
  lemma {:induction false} ReportIdNoQuoteAfterMarker(text: string, b: int)
    requires FirstMarker(text, b) && NoChar(text[b..], Quote)
    ensures OpeningQuote(text) == b - 1
    ensures ReportId(text) == if b == 0 then text[..|text| - 1] else []
  {
    FindFirst(text, Marker, b);
    FindQuoteNoneFrom(text, b);
    if b == 0 {
      assert ClosingQuote(text) == -2;
      SliceDropLast(text);
    } else {
      assert ClosingQuote(text) == b - 2;
      SliceInverted(text, b, b - 1);
    }
  }

  /** Without the marker `find` returns -1 and the code slices from the
      page's last character: the report id is the text before the page's
      first quote when the page ends in a quote, and empty otherwise. */
  lemma {:induction false} ReportIdWithoutMarker(text: string)
    requires forall j :: !OccursAt(text, Marker, j)
    ensures |text| > 0 && text[|text| - 1] == Quote ==>
      Find(text, [Quote]) >= 0 && ReportId(text) == text[..Find(text, [Quote])]
    ensures !(|text| > 0 && text[|text| - 1] == Quote) ==> ReportId(text) == []
  {
    var n := |text|;
    assert MarkerAt(text) == -1;
    var tail := Suffix(text, -1);
    SuffixFromLast(text);
    if n > 0 && text[n - 1] == Quote {
      assert tail[..0] == [];
      FindCharAt(tail, Quote, 0);
      assert OpeningQuote(text) == -1;
      SuffixInRange(text, 0);
      assert text[0..] == text;
      FindCharPresent(text, Quote, n - 1);
      var f := Find(text, [Quote]);
      assert ClosingQuote(text) == f - 1;
      SliceInRange(text, 0, f);
    } else {
      FindCharAbsent(tail, Quote);
      assert OpeningQuote(text) == -2;
      assert ClosingQuote(text) == -3;
      SliceLastInverted(text);
    }
  }

  /** Without the marker the report id has no quote. */
  lemma NoQuoteWithoutMarker(text: string)
    requires MarkerAt(text) == -1
    ensures NoChar(ReportId(text), Quote)
  {
    ReportIdWithoutMarker(text);
    if |text| > 0 && text[|text| - 1] == Quote {
      FindCharFound(text, Quote);
    }
  }

  /** With the marker at `b` but no quote after it the report id has no quote. */
  lemma NoQuoteAfterMarker(text: string, b: int)
    requires FirstMarker(text, b) && NoChar(text[b..], Quote)
    ensures NoChar(ReportId(text), Quote)
  {
  }

  /** With the marker at `b` and a first quote after it at `q1` the report id
      has no quote. */
  lemma NoQuoteAfterOpening(text: string, b: int, q1: int)
    requires FirstMarker(text, b)
    requires b <= q1 < |text| && text[q1] == Quote && NoChar(text[b..q1], Quote)
    ensures NoChar(ReportId(text), Quote)
  {
    SuffixInRange(text, q1 + 1);
    var rest := text[q1 + 1..];
    if Find(rest, [Quote]) >= 0 {
      FindCharFound(rest, Quote);
      var q2 := q1 + 1 + Find(rest, [Quote]);
      assert text[q1 + 1..q2] == rest[..Find(rest, [Quote])];
      ReportIdBetweenQuotes(text, b, q1, q2);
    } else {
      FindCharMissing(rest, Quote);
      ReportIdSingleQuote(text, b, q1);
    }
  }

  /** Whatever the page, the report id contains no quote. */
  lemma {:induction false} ReportIdHasNoQuote(text: string)
    ensures NoChar(ReportId(text), Quote)
  {
    var b := MarkerAt(text);
    if b == -1 {
      NoQuoteWithoutMarker(text);
    } else {
      assert FirstMarker(text, b);
      var after := text[b..];
      if Find(after, [Quote]) >= 0 {
        FindCharFound(after, Quote);
        var q1 := b + Find(after, [Quote]);
        assert text[b..q1] == after[..Find(after, [Quote])];
        NoQuoteAfterOpening(text, b, q1);
      } else {
        FindCharMissing(after, Quote);
        NoQuoteAfterMarker(text, b);
      }
    }
  }

  /** The fixed parts of the GetReport request body. The session value is
      always the literal `19201`. */
  const SessionValue: string := "19201"
  const BodyPrefix: string := "{UID:'"
  const SessionKey: string := ",Session:'"
  const BodySuffix: string := "',Session:'19201'}"

  /** `data`: the hand-built object literal sent to GetReport. */
  function RequestBody(reportId: string): (body: string)
  {
    BodyPrefix + reportId + BodySuffix
  }

  /** Recovers the report id from a body by removing the fixed prefix and
      suffix; None when the body does not have them. */
  function ParseBody(body: string): (reportId: Option<string>)
  {
    if |body| >= |BodyPrefix| + |BodySuffix|
       && body[..|BodyPrefix|] == BodyPrefix
       && body[|body| - |BodySuffix|..] == BodySuffix
    then Some(body[|BodyPrefix|..|body| - |BodySuffix|])
    else None
  }

  /** The UID value as a reader of the object literal sees it: after the
      prefix, up to the first quote. */
  function UidValue(body: string): (uid: Option<string>)
  {
    if |body| >= |BodyPrefix| && body[..|BodyPrefix|] == BodyPrefix then
      var rest := body[|BodyPrefix|..];
      var k := Find(rest, [Quote]);
      if k >= 0 then Some(rest[..k]) else None
    else None
  }

  /** The Session value as a reader sees it: after the UID value's closing
      quote and `,Session:'`, up to the next quote. */
  function SessionValueOf(body: string): (session: Option<string>)
  {
    if |body| >= |BodyPrefix| && body[..|BodyPrefix|] == BodyPrefix then
      var rest := body[|BodyPrefix|..];
      var k := Find(rest, [Quote]);
      if k < 0 then None
      else
        var after := rest[k + 1..];
        if |after| >= |SessionKey| && after[..|SessionKey|] == SessionKey then
          var v := after[|SessionKey|..];
          var m := Find(v, [Quote]);
          if m >= 0 then Some(v[..m]) else None
        else None
    else None
  }

  /** Removing the prefix and suffix from a body gives back the report id. */
  lemma BodyRoundTrip(reportId: string)
    ensures ParseBody(RequestBody(reportId)) == Some(reportId)
  {
  }

  /** Every body that parses is the body built from what it parses to. */
  lemma ParseBodyBuilds(body: string, reportId: string)
    requires ParseBody(body) == Some(reportId)
    ensures RequestBody(reportId) == body
  {
  }

  /** Different report ids give different bodies. */
  lemma BodyInjective(a: string, b: string)
    requires RequestBody(a) == RequestBody(b)
    ensures a == b
  {
    BodyRoundTrip(a);
    BodyRoundTrip(b);
  }

  /** A body is the prefix followed by the report id and the suffix. */
  lemma BodySplit(reportId: string)
    ensures |RequestBody(reportId)| >= |BodyPrefix|
    ensures RequestBody(reportId)[..|BodyPrefix|] == BodyPrefix
    ensures RequestBody(reportId)[|BodyPrefix|..] == reportId + BodySuffix
  {
  }

  /** In what follows the UID value, the first quote is the suffix's own. */
  lemma FirstQuoteOfRest(reportId: string)
    requires NoChar(reportId, Quote)
    ensures Find(reportId + BodySuffix, [Quote]) == |reportId|
  {
    var rest := reportId + BodySuffix;
    assert rest[..|reportId|] == reportId;
    FindCharAt(rest, Quote, |reportId|);
  }

  /** A quote inside the report id ends the UID field early. */
  lemma EarlyQuoteOfRest(reportId: string, k: int)
    requires 0 <= k < |reportId| && reportId[k] == Quote
    ensures 0 <= Find(reportId + BodySuffix, [Quote]) <= k
  {
    var rest := reportId + BodySuffix;
    assert rest[k] == Quote;
    OccursAtChar(rest, Quote, k);
  }

  /** The UID field of a body ends exactly where the report id ends if and
      only if the id has no quote. */
  lemma {:induction false} UidValueOfBody(reportId: string)
    ensures UidValue(RequestBody(reportId)) == Some(reportId) <==> NoChar(reportId, Quote)
  {
    BodySplit(reportId);
    var rest := reportId + BodySuffix;
    if NoChar(reportId, Quote) {
      FirstQuoteOfRest(reportId);
      assert rest[..|reportId|] == reportId;
    } else {
      var k :| 0 <= k < |reportId| && reportId[k] == Quote;
      EarlyQuoteOfRest(reportId, k);
    }
  }

  /** The part of the suffix after its opening quote. */
  lemma SuffixAfterQuote()
    ensures BodySuffix[1..] == SessionKey + SessionValue + "'}"
    ensures Find(SessionValue + "'}", [Quote]) == |SessionValue|
  {
    var v := SessionValue + "'}";
    assert v[..5] == SessionValue;
    FindCharAt(v, Quote, 5);
  }

  /** The Session field of a body built from a quote-free id is always
      `19201`. */
  lemma {:induction false} SessionValueOfBody(reportId: string)
    requires NoChar(reportId, Quote)
    ensures SessionValueOf(RequestBody(reportId)) == Some(SessionValue)
  {
    BodySplit(reportId);
    FirstQuoteOfRest(reportId);
    SuffixAfterQuote();
    var rest := reportId + BodySuffix;
    var after := rest[|reportId| + 1..];
    assert after == BodySuffix[1..];
    assert after[..|SessionKey|] == SessionKey;
    var v := after[|SessionKey|..];
    assert v == SessionValue + "'}";
    assert v[..|SessionValue|] == SessionValue;
  }

  /** Whatever the attendance page, the UID field of the request reads back
      as exactly the scraped report id. */
  lemma ScrapedIdReadsBack(text: string)
    ensures UidValue(RequestBody(ReportId(text))) == Some(ReportId(text))
    ensures SessionValueOf(RequestBody(ReportId(text))) == Some(SessionValue)
  {
    ReportIdHasNoQuote(text);
    UidValueOfBody(ReportId(text));
    SessionValueOfBody(ReportId(text));
  }

  /** The page fragment `getReport('abc123')` yields the id `abc123`. */
  lemma ReportIdExample()
    ensures ReportId("getReport('abc123')") == "abc123"
  {
    var text := "getReport('abc123')";
    assert OccursAt(text, Marker, 0);
    assert text[0..10] == "getReport(";
    assert text[11..17] == "abc123";
    ReportIdBetweenQuotes(text, 0, 10, 17);
  }
}
