/** The backend service of backend/main.py. The detection engine is outside the
    model: its findings for the request text are a parameter of every operation,
    and the PDF text that `upload_pdf` extracts is a parameter too. */
module Backend {
  import opened Seqs
  import opened Sorting
  import opened Splicing
  import opened Entities
  import Recognizers

  /** The request body `{text, threshold}`. */
  datatype AnalyzeRequest = AnalyzeRequest(text: string, threshold: real)

  /** The threshold a request gets when it names none. */
  const DefaultThreshold: real := 0.5

  // ---------------------------------------------------------------- clean_entities

  /** The finding's span covers text position `k`. */
  predicate Covers(f: Finding, k: int) {
    f.start <= k < f.end
  }

  /** The overlap test of `clean_entities`. Spans sharing a position overlap, and
      two non-empty spans overlap only when they share one; an empty span strictly
      inside another counts as overlapping too. */
  predicate Overlaps(r: Finding, c: Finding)
    ensures (exists k :: Covers(r, k) && Covers(c, k)) ==> Overlaps(r, c)
    ensures r.start < r.end && c.start < c.end && Overlaps(r, c) ==>
      exists k :: Covers(r, k) && Covers(c, k)
  {
    var later := if r.start < c.start then c.start else r.start;
    assert r.start < r.end && c.start < c.end && !(r.end <= c.start || r.start >= c.end) ==>
      Covers(r, later) && Covers(c, later);
    !(r.end <= c.start || r.start >= c.end)
  }

  /** An AADHAAR finding that overlaps some CREDIT_CARD finding of the same results.
      Only AADHAAR findings are ever suppressed, and results without a CREDIT_CARD
      finding suppress nothing. */
  predicate Suppressed(r: Finding, results: seq<Finding>)
    ensures Suppressed(r, results) ==> r.entityType == AADHAAR
    ensures (forall c :: c in results ==> c.entityType != CREDIT_CARD) ==> !Suppressed(r, results)
  {
    r.entityType == AADHAAR
    && exists c :: c in results && c.entityType == CREDIT_CARD && Overlaps(r, c)
  }

  function Kept(results: seq<Finding>): Finding -> bool {
    (r: Finding) => !Suppressed(r, results)
  }

  /** What `clean_entities` returns. */
  function Cleaned(results: seq<Finding>): (cleaned: seq<Finding>)
    ensures |cleaned| <= |results|
    ensures forall r :: r in cleaned ==> r in results && !Suppressed(r, results)
  {
    Filter(results, Kept(results))
  }

  /** `clean_entities`: one pass over the results, skipping suppressed AADHAAR findings. */
  method CleanEntities(results: seq<Finding>) returns (cleaned: seq<Finding>)
    ensures cleaned == Cleaned(results)
    ensures forall r :: r in cleaned <==> r in results && !Suppressed(r, results)
  {
    cleaned := [];
    for i := 0 to |results|
      invariant cleaned == Filter(results[..i], Kept(results))
    {
      var r := results[i];
      assert results[..i + 1] == results[..i] + [r];
      FilterSnoc(results[..i], r, Kept(results));
      if r.entityType == AADHAAR {
        var overlap := exists c :: c in results && c.entityType == CREDIT_CARD && Overlaps(r, c);
        if overlap {
          continue;
        }
      }
      cleaned := cleaned + [r];
    }
    assert results[..|results|] == results;
    forall r
      ensures r in cleaned <==> r in results && !Suppressed(r, results)
    {
      FilterMembership(results, Kept(results), r);
    }
  }

  /** The cleaned list is the input with some elements deleted, in the same order. */
  lemma CleanedIsSubsequence(results: seq<Finding>)
    ensures IsSubsequence(Cleaned(results), results)
  {
    FilterIsSubsequence(results, Kept(results));
  }

  /** Exactly the suppressed AADHAAR findings are removed; all other types survive. */
  lemma CleanedExactly(results: seq<Finding>, r: Finding)
    ensures r in Cleaned(results) <==> r in results && !Suppressed(r, results)
    ensures r in results && r.entityType != AADHAAR ==> r in Cleaned(results)
  {
    FilterMembership(results, Kept(results), r);
  }

  /** Cleaning twice is cleaning once: CREDIT_CARD findings are never removed, so
      nothing that survived the first pass is suppressed by the second. */
  lemma CleanedIdempotent(results: seq<Finding>)
    ensures Cleaned(Cleaned(results)) == Cleaned(results)
  {
    var once := Cleaned(results);
    forall r | r in once
      ensures Kept(once)(r)
    {
      FilterMembership(results, Kept(results), r);
    }
    FilterKeepsAll(once, Kept(once));
  }

  // ---------------------------------------------------------------- /analyze

  function AtLeast(threshold: real): Finding -> bool {
    (f: Finding) => f.score >= threshold
  }

  /** The entities `/analyze` returns: at most one per finding. */
  function Analyze(req: AnalyzeRequest, findings: seq<Finding>): (rs: seq<Record>)
    ensures |rs| <= |findings|
  {
    Records(req.text, Filter(Cleaned(findings), AtLeast(req.threshold)))
  }

  /** No returned entity scores below the request's threshold. */
  lemma AnalyzeMeetsThreshold(req: AnalyzeRequest, findings: seq<Finding>)
    ensures forall rec :: rec in Analyze(req, findings) ==> rec.confidence >= req.threshold
  {
    forall rec | rec in Analyze(req, findings)
      ensures rec.confidence >= req.threshold
    {
      RecordsMembership(req.text, Filter(Cleaned(findings), AtLeast(req.threshold)), rec);
    }
  }

  /** A record is returned exactly when it is built from a finding that survives
      cleaning and meets the threshold. */
  lemma AnalyzeExactly(req: AnalyzeRequest, findings: seq<Finding>, rec: Record)
    ensures rec in Analyze(req, findings) <==>
      exists f :: f in findings && !Suppressed(f, findings) && f.score >= req.threshold
               && rec == RecordOf(req.text, f)
  {
    var passed := Filter(Cleaned(findings), AtLeast(req.threshold));
    RecordsMembership(req.text, passed, rec);
    forall f
      ensures f in passed <==> f in findings && !Suppressed(f, findings) && f.score >= req.threshold
    {
      FilterMembership(Cleaned(findings), AtLeast(req.threshold), f);
      FilterMembership(findings, Kept(findings), f);
    }
  }

  /** When the engine's spans lie inside the text, each value is the text of its span. */
  lemma AnalyzeValuesAreSlices(req: AnalyzeRequest, findings: seq<Finding>)
    requires forall f :: f in findings ==> SpanWithin(f, |req.text|)
    ensures forall rec :: rec in Analyze(req, findings) ==>
      0 <= rec.start <= rec.end <= |req.text| && rec.value == req.text[rec.start..rec.end]
  {
    var passed := Filter(Cleaned(findings), AtLeast(req.threshold));
    forall f | f in passed
      ensures SpanWithin(f, |req.text|)
    {
      FilterMembership(Cleaned(findings), AtLeast(req.threshold), f);
      FilterMembership(findings, Kept(findings), f);
    }
    RecordsCarrySlices(req.text, passed);
  }

  /** A threshold above every score leaves nothing. */
  lemma AnalyzeAboveAllScores(req: AnalyzeRequest, findings: seq<Finding>)
    requires forall f :: f in findings ==> f.score < req.threshold
    ensures Analyze(req, findings) == []
  {
    var passed := Filter(Cleaned(findings), AtLeast(req.threshold));
    if passed != [] {
      FilterMembership(findings, Kept(findings), passed[0]);
    }
  }

  /** The threshold test of the suite: "Code ORG12345" holds an Org ID token, whose
      recognizer scores 0.8, so a threshold of 0.9 returns no entities. */
  lemma ThresholdExample()
    ensures Recognizers.IsOrgId("Code ORG12345"[5..13])
    ensures Analyze(AnalyzeRequest("Code ORG12345", 0.9),
                    [Finding(ORG_ID, 5, 13, Recognizers.Score(Recognizers.OrgIdRecognizer))]) == []
  {
    assert "Code ORG12345"[5..13] == "ORG12345";
    Recognizers.OrgIdCommentSamples();
    AnalyzeAboveAllScores(AnalyzeRequest("Code ORG12345", 0.9),
                          [Finding(ORG_ID, 5, 13, Recognizers.Score(Recognizers.OrgIdRecognizer))]);
  }

  // ---------------------------------------------------------------- /upload-pdf

  /** The text `upload_pdf` assembles from the text of each page: every page with
      text, followed by a line break. A page without text (`extract_text()` giving
      `None` or the empty string, both falsy) is the empty string here. */
  function JoinedPages(pages: seq<string>): (t: string)
    ensures |t| == 0 || t[|t| - 1] == '\n'
  {
    if |pages| == 0 then []
    else JoinedPages(pages[..|pages| - 1]) + PageLine(pages[|pages| - 1])
  }

  /** What one page adds. */
  function PageLine(page: string): string {
    if HasText(page) then page + ['\n'] else []
  }

  predicate HasText(page: string) {
    |page| > 0
  }

  /** The loop over `pdf.pages`. */
  method ExtractText(pages: seq<string>) returns (text: string)
    ensures text == JoinedPages(pages)
  {
    text := "";
    for i := 0 to |pages|
      invariant text == JoinedPages(pages[..i])
    {
      var page := pages[i];
      TakeSnoc(pages, i);
      assert pages[..i + 1][..i] == pages[..i];
      if page != "" {
        text := text + page + "\n";
      }
    }
    assert pages[..|pages|] == pages;
  }

  /** Pages without text leave no trace: the text is that of the pages with text. */
  lemma {:induction false} JoinedPagesSkipsEmpty(pages: seq<string>)
    ensures JoinedPages(pages) == JoinedPages(Filter(pages, HasText))
  {
    if pages != [] {
      var pre := pages[..|pages| - 1];
      var last := pages[|pages| - 1];
      assert pages == pre + [last];
      JoinedPagesSkipsEmpty(pre);
      FilterSnoc(pre, last, HasText);
      var kept := Filter(pre, HasText);
      assert JoinedPages(pages) == JoinedPages(kept) + PageLine(last);
      if HasText(last) {
        var withLast := kept + [last];
        assert withLast[..|kept|] == kept;
        assert Filter(pages, HasText) == withLast;
        assert JoinedPages(withLast) == JoinedPages(kept) + PageLine(last);
      } else {
        assert Filter(pages, HasText) == kept;
        assert PageLine(last) == [];
      }
    }
  }

  /** The text is empty exactly when no page has text. */
  lemma {:induction false} JoinedPagesEmpty(pages: seq<string>)
    ensures |JoinedPages(pages)| == 0 <==> forall p :: p in pages ==> !HasText(p)
  {
    if pages != [] {
      var pre := pages[..|pages| - 1];
      var last := pages[|pages| - 1];
      assert pages == pre + [last];
      JoinedPagesEmpty(pre);
      assert |JoinedPages(pages)| == |JoinedPages(pre)| + |PageLine(last)|;
      assert forall p :: p in pages <==> p in pre || p == last;
    }
  }

  /** When no page's text holds a line break, the lines of the assembled text are
      exactly the pages with text, in page order. */
  lemma {:induction false} JoinedPagesLines(pages: seq<string>)
    requires forall p :: p in pages ==> '\n' !in p
    ensures SplitLines(JoinedPages(pages)) == Filter(pages, HasText)
  {
    if pages != [] {
      var pre := pages[..|pages| - 1];
      var last := pages[|pages| - 1];
      assert pages == pre + [last];
      assert forall p :: p in pre ==> p in pages;
      JoinedPagesLines(pre);
      FilterSnoc(pre, last, HasText);
      var before := JoinedPages(pre);
      assert JoinedPages(pages) == before + PageLine(last);
      if HasText(last) {
        var line := last + "\n";
        assert PageLine(last) == line;
        SplitLinesAppend(before, line);
        SplitLinesCons(last, "");
        assert line + "" == line;
        assert SplitLines(line) == [last];
        assert Filter(pages, HasText) == Filter(pre, HasText) + [last];
      } else {
        assert PageLine(last) == [];
        assert JoinedPages(pages) == before;
        assert Filter(pages, HasText) == Filter(pre, HasText);
      }
    }
  }

  /** The lines of every page, page after page; a page without text has none. */
  function PagesLines(pages: seq<string>): seq<string> {
    if pages == [] then []
    else PagesLines(pages[..|pages| - 1]) + SplitLines(pages[|pages| - 1])
  }

  /** When no page's text ends in a line break, the lines of the assembled text
      are the lines of the pages, in page order: the break `upload_pdf` adds after
      each page ends that page's last line and adds no line of its own. */
  lemma {:induction false} JoinedPagesAllLines(pages: seq<string>)
    requires forall p :: p in pages && HasText(p) ==> p[|p| - 1] != '\n'
    ensures SplitLines(JoinedPages(pages)) == PagesLines(pages)
  {
    if pages != [] {
      var pre := pages[..|pages| - 1];
      var last := pages[|pages| - 1];
      assert pages == pre + [last];
      assert forall p :: p in pre ==> p in pages;
      JoinedPagesAllLines(pre);
      assert JoinedPages(pages) == JoinedPages(pre) + PageLine(last);
      PageLineSplits(JoinedPages(pre), last);
    }
  }

  /** Text so far that is empty or ends in a line break, followed by one more page's
      line, splits into its own lines and then the page's. */
  lemma PageLineSplits(before: string, page: string)
    requires |before| == 0 || before[|before| - 1] == '\n'
    requires HasText(page) ==> page[|page| - 1] != '\n'
    ensures SplitLines(before + PageLine(page)) == SplitLines(before) + SplitLines(page)
  {
    if HasText(page) {
      SplitLinesAppend(before, page + "\n");
      SplitLinesTerminated(page);
    } else {
      assert before + PageLine(page) == before;
      assert SplitLines(page) == [];
    }
  }

  /** The entities `/upload-pdf` returns for the extracted text: no threshold. */
  function UploadPdf(text: string, findings: seq<Finding>): (rs: seq<Record>)
    ensures |rs| <= |findings|
  {
    Records(text, Cleaned(findings))
  }

  /** Every finding that survives cleaning is reported, whatever its score. */
  lemma UploadIgnoresScores(text: string, findings: seq<Finding>, f: Finding)
    requires f in findings && !Suppressed(f, findings)
    ensures RecordOf(text, f) in UploadPdf(text, findings)
  {
    FilterMembership(findings, Kept(findings), f);
    RecordsMembership(text, Cleaned(findings), RecordOf(text, f));
  }

  /** A record is returned exactly when it is built from a finding that survives
      cleaning; no score plays a part. */
  lemma UploadExactly(text: string, findings: seq<Finding>, rec: Record)
    ensures rec in UploadPdf(text, findings) <==>
      exists f :: f in findings && !Suppressed(f, findings) && rec == RecordOf(text, f)
  {
    RecordsMembership(text, Cleaned(findings), rec);
    forall f
      ensures f in Cleaned(findings) <==> f in findings && !Suppressed(f, findings)
    {
      CleanedExactly(findings, f);
    }
  }

  /** When the engine's spans lie inside the extracted text, each value is the
      text of its span. */
  lemma UploadValuesAreSlices(text: string, findings: seq<Finding>)
    requires forall f :: f in findings ==> SpanWithin(f, |text|)
    ensures forall rec :: rec in UploadPdf(text, findings) ==>
      0 <= rec.start <= rec.end <= |text| && rec.value == text[rec.start..rec.end]
  {
    RecordsCarrySlices(text, Cleaned(findings));
  }

  /** A finding of one of the four custom recognizers has an allowed type, its
      record's value is the accepted token, and unless it is an Aadhaar finding it
      survives cleaning whatever else the engine reports. */
  lemma RecognizedFindingKept(r: Recognizers.Recognizer, text: string, start: int, end: int,
                              results: seq<Finding>)
    requires 0 <= start <= end <= |text| && Recognizers.Accepts(r, text[start..end])
    ensures IsAllowedFinding(Recognizers.Recognize(r, text, start, end))
    ensures RecordOf(text, Recognizers.Recognize(r, text, start, end)).value == text[start..end]
    ensures r != Recognizers.AadhaarRecognizer && Recognizers.Recognize(r, text, start, end) in results
      ==> Recognizers.Recognize(r, text, start, end) in Cleaned(results)
  {
    var f := Recognizers.Recognize(r, text, start, end);
    CleanedExactly(results, f);
  }

  /** `/analyze` on the same text returns a subsequence of what `/upload-pdf`
      returns, and the same list when the threshold is at most every score. */
  lemma AnalyzeWithinUpload(text: string, threshold: real, findings: seq<Finding>)
    ensures IsSubsequence(Analyze(AnalyzeRequest(text, threshold), findings), UploadPdf(text, findings))
    ensures (forall f :: f in findings ==> f.score >= threshold) ==>
      Analyze(AnalyzeRequest(text, threshold), findings) == UploadPdf(text, findings)
  {
    var cleaned := Cleaned(findings);
    FilterIsSubsequence(cleaned, AtLeast(threshold));
    RecordsKeepSubsequence(text, Filter(cleaned, AtLeast(threshold)), cleaned);
    if forall f :: f in findings ==> f.score >= threshold {
      FilterKeepsAll(cleaned, AtLeast(threshold));
    }
  }

  // ---------------------------------------------------------------- /mask

  /** The four entity types `mask` rewrites. */
  predicate IsMaskedType(t: string) {
    t == PAN || t == AADHAAR || t == IBAN_CODE || t == CREDIT_CARD
  }

  /** The fixed replacement of each masked type. */
  function MaskString(t: string): (m: string)
    requires IsMaskedType(t)
    ensures forall i :: 0 <= i < |m| ==> m[i] == 'X' || m[i] == ' '
  {
    if t == PAN then "XXXXXXXXXX"
    else if t == AADHAAR then "XXXX XXXX XXXX"
    else if t == IBAN_CODE then "XXXXXXXXXXXXXXXXXXXX"
    else "XXXX XXXX XXXX XXXX"
  }

  lemma MaskStringLengths()
    ensures |MaskString(PAN)| == 10 && |MaskString(AADHAAR)| == 14
    ensures |MaskString(IBAN_CODE)| == 20 && |MaskString(CREDIT_CARD)| == 19
  {
  }

  /** The rewrite one finding causes: none for a type that is not masked. */
  function MaskEdit(r: Finding): seq<Edit> {
    if IsMaskedType(r.entityType) then [Edit(r.start, r.end, MaskString(r.entityType))] else []
  }

  function MaskEdits(rs: seq<Finding>): seq<Edit> {
    if rs == [] then [] else MaskEdit(rs[0]) + MaskEdits(rs[1..])
  }

  function StartDescending(f: Finding): int {
    -f.start
  }

  /** `sorted(results, key=lambda x: x.start, reverse=True)` over the cleaned results. */
  function MaskOrder(findings: seq<Finding>): (order: seq<Finding>)
    ensures multiset(order) == multiset(Cleaned(findings))
  {
    Sort(Cleaned(findings), StartDescending)
  }

  /** The rewrites masking performs, in the order it performs them. */
  function MaskPlan(findings: seq<Finding>): seq<Edit> {
    MaskEdits(MaskOrder(findings))
  }

  /** The masked text `/mask` returns. */
  function Masked(req: AnalyzeRequest, findings: seq<Finding>): string {
    ApplyEdits(req.text, MaskPlan(findings))
  }

  lemma {:induction false} MaskEditsSnoc(rs: seq<Finding>, r: Finding)
    ensures MaskEdits(rs + [r]) == MaskEdits(rs) + MaskEdit(r)
  {
    if rs == [] {
      assert [r][1..] == [];
    } else {
      assert (rs + [r])[1..] == rs[1..] + [r];
      MaskEditsSnoc(rs[1..], r);
    }
  }

  /** The edits are exactly those of the masked-type findings in the list. */
  lemma {:induction false} MaskEditsExactly(rs: seq<Finding>, e: Edit)
    ensures e in MaskEdits(rs) <==>
      exists r :: r in rs && IsMaskedType(r.entityType) && e == Edit(r.start, r.end, MaskString(r.entityType))
  {
    if rs != [] {
      MaskEditsExactly(rs[1..], e);
      assert rs == [rs[0]] + rs[1..];
    }
  }

  lemma MaskEditsEmpty(rs: seq<Finding>)
    requires forall r :: r in rs ==> !IsMaskedType(r.entityType)
    ensures MaskEdits(rs) == []
  {
    if MaskEdits(rs) != [] {
      MaskEditsExactly(rs, MaskEdits(rs)[0]);
    }
  }

  /** One iteration of the masking loop: a masked type's string is spliced in, any
      other type leaves the text alone. */
  lemma MaskStep(text: string, done: seq<Finding>, r: Finding)
    ensures IsMaskedType(r.entityType) ==>
      ApplyEdits(text, MaskEdits(done + [r]))
        == Splice(ApplyEdits(text, MaskEdits(done)), Edit(r.start, r.end, MaskString(r.entityType)))
    ensures !IsMaskedType(r.entityType) ==>
      ApplyEdits(text, MaskEdits(done + [r])) == ApplyEdits(text, MaskEdits(done))
  {
    MaskEditsSnoc(done, r);
    if IsMaskedType(r.entityType) {
      ApplyEditsSnoc(text, MaskEdits(done), Edit(r.start, r.end, MaskString(r.entityType)));
    } else {
      assert MaskEdits(done) + MaskEdit(r) == MaskEdits(done);
    }
  }

  /** `mask`: rewrite the cleaned findings right to left. The request's threshold
      plays no part. */
  method Mask(req: AnalyzeRequest, findings: seq<Finding>) returns (masked: string)
    ensures masked == Masked(req, findings)
    ensures (forall f :: f in findings ==> !IsMaskedType(f.entityType)) ==> masked == req.text
  {
    var results := CleanEntities(findings);
    var order := Sort(results, StartDescending);
    masked := MaskSpans(req.text, order);
    MaskPlanEmpty(findings);
  }

  /** The loop of `mask`: each result of a masked type has its span replaced by the
      type's mask, in the given order; other results are skipped. */
  method MaskSpans(text: string, order: seq<Finding>) returns (masked: string)
    ensures masked == ApplyEdits(text, MaskEdits(order))
  {
    masked := text;
    for i := 0 to |order|
      invariant masked == ApplyEdits(text, MaskEdits(order[..i]))
    {
      var r := order[i];
      TakeSnoc(order, i);
      MaskStep(text, order[..i], r);
      if r.entityType == PAN {
        masked := Slice(masked, 0, r.start) + "XXXXXXXXXX" + Slice(masked, r.end, |masked|);
      } else if r.entityType == AADHAAR {
        masked := Slice(masked, 0, r.start) + "XXXX XXXX XXXX" + Slice(masked, r.end, |masked|);
      } else if r.entityType == IBAN_CODE {
        masked := Slice(masked, 0, r.start) + "XXXXXXXXXXXXXXXXXXXX" + Slice(masked, r.end, |masked|);
      } else if r.entityType == CREDIT_CARD {
        masked := Slice(masked, 0, r.start) + "XXXX XXXX XXXX XXXX" + Slice(masked, r.end, |masked|);
      }
    }
    assert order[..|order|] == order;
  }

  /** Without a finding of a masked type there is nothing to rewrite. */
  lemma MaskPlanEmpty(findings: seq<Finding>)
    ensures (forall f :: f in findings ==> !IsMaskedType(f.entityType)) ==> MaskPlan(findings) == []
  {
    if forall f :: f in findings ==> !IsMaskedType(f.entityType) {
      forall r | r in MaskOrder(findings)
        ensures !IsMaskedType(r.entityType)
      {
        SortPermutes(Cleaned(findings), StartDescending, r);
        FilterMembership(findings, Kept(findings), r);
      }
      MaskEditsEmpty(MaskOrder(findings));
    }
  }

  /** Masking walks the spans by descending start; findings with equal starts keep
      the order the engine gave them. */
  lemma MaskOrderIsDescending(findings: seq<Finding>, k: int)
    ensures forall i, j :: 0 <= i < j < |MaskOrder(findings)| ==>
      MaskOrder(findings)[j].start <= MaskOrder(findings)[i].start
    ensures Filter(MaskOrder(findings), HasKey(StartDescending, k))
         == Filter(Cleaned(findings), HasKey(StartDescending, k))
    ensures forall f :: f in MaskOrder(findings) <==> f in Cleaned(findings)
  {
    SortSorted(Cleaned(findings), StartDescending);
    SortStable(Cleaned(findings), StartDescending, k);
    forall f
      ensures f in MaskOrder(findings) <==> f in Cleaned(findings)
    {
      SortPermutes(Cleaned(findings), StartDescending, f);
    }
  }

  /** Masking a single finding inside the text: a masked type becomes its fixed
      string, any other type leaves the text as it was. */
  lemma MaskSingleFinding(text: string, threshold: real, f: Finding)
    requires SpanWithin(f, |text|)
    ensures IsMaskedType(f.entityType) ==>
      Masked(AnalyzeRequest(text, threshold), [f]) == text[..f.start] + MaskString(f.entityType) + text[f.end..]
    ensures !IsMaskedType(f.entityType) ==> Masked(AnalyzeRequest(text, threshold), [f]) == text
  {
    assert !Suppressed(f, [f]);
    assert Cleaned([f]) == [f];
    assert MaskOrder([f]) == [f];
    assert [f][1..] == [];
    assert MaskEdits([f]) == MaskEdit(f);
    if IsMaskedType(f.entityType) {
      var e := Edit(f.start, f.end, MaskString(f.entityType));
      assert ApplyEdits(text, [e]) == ApplyEdits(Splice(text, e), []);
    }
  }

  /** Every rewrite masking performs comes from a masked-type finding that
      survived cleaning, and every such finding is rewritten. */
  lemma MaskPlanExactly(findings: seq<Finding>, e: Edit)
    ensures e in MaskPlan(findings) <==>
      exists f :: f in findings && !Suppressed(f, findings) && IsMaskedType(f.entityType)
               && e == Edit(f.start, f.end, MaskString(f.entityType))
  {
    MaskEditsExactly(MaskOrder(findings), e);
    forall f
      ensures f in MaskOrder(findings) <==> f in findings && !Suppressed(f, findings)
    {
      SortPermutes(Cleaned(findings), StartDescending, f);
      FilterMembership(findings, Kept(findings), f);
    }
  }

  /** Two findings that are both masked do not overlap. */
  predicate MaskedApart(a: Finding, b: Finding) {
    IsMaskedType(a.entityType) && IsMaskedType(b.entityType) ==> a.end <= b.start || b.end <= a.start
  }

  /** Results visited by descending start whose masked spans are non-empty, inside
      a text of length `n` and apart from each other yield edits that each end at
      or before the previous one's start. */
  lemma {:induction false} MaskEditsDisjoint(order: seq<Finding>, n: int)
    requires forall i :: 0 <= i < |order| && IsMaskedType(order[i].entityType) ==>
      0 <= order[i].start < order[i].end <= n
    requires forall i, j :: 0 <= i < j < |order| ==> order[j].start <= order[i].start
    requires PairwiseBy(order, MaskedApart)
    ensures DescendingDisjoint(MaskEdits(order), n)
    decreases |order|
  {
    if order != [] {
      var f := order[0];
      var tail := order[1..];
      assert forall i :: 0 <= i < |tail| ==> tail[i] == order[i + 1];
      assert PairwiseBy(tail, MaskedApart) by {
        forall i, j | 0 <= i < j < |tail|
          ensures MaskedApart(tail[i], tail[j])
        {
          assert MaskedApart(order[i + 1], order[j + 1]);
        }
      }
      assert MaskEdits(order) == MaskEdit(f) + MaskEdits(tail);
      if IsMaskedType(f.entityType) {
        forall i | 0 <= i < |tail| && IsMaskedType(tail[i].entityType)
          ensures tail[i].end <= f.start
        {
          assert MaskedApart(order[0], order[i + 1]);
          assert order[i + 1].start <= f.start;
        }
        MaskEditsDisjoint(tail, f.start);
        var es := MaskEdits(order);
        assert es == [Edit(f.start, f.end, MaskString(f.entityType))] + MaskEdits(tail);
        assert es[1..] == MaskEdits(tail);
      } else {
        MaskEditsDisjoint(tail, n);
        assert MaskEdits(order) == MaskEdits(tail);
      }
    }
  }

  /** The premise of the placement lemmas below, from the findings themselves: when
      every cleaned finding of a masked type has a non-empty span inside the text
      and no two of them overlap, the rewrites masking performs each end at or
      before the previous one's start. */
  lemma MaskPlanDisjoint(req: AnalyzeRequest, findings: seq<Finding>)
    requires forall f :: f in Cleaned(findings) && IsMaskedType(f.entityType) ==>
      SpanWithin(f, |req.text|) && f.start < f.end
    requires PairwiseBy(Cleaned(findings), MaskedApart)
    ensures DescendingDisjoint(MaskPlan(findings), |req.text|)
  {
    var order := MaskOrder(findings);
    SortPairwise(Cleaned(findings), StartDescending, MaskedApart);
    MaskOrderIsDescending(findings, 0);
    assert forall i :: 0 <= i < |order| ==> order[i] in Cleaned(findings);
    MaskEditsDisjoint(order, |req.text|);
  }

  /** When the masked spans, taken in the order masking visits them, each end at or
      before the previous one's start, the text before the smallest masked start
      and the text after the largest masked end come through unchanged. */
  lemma MaskKeepsOutside(req: AnalyzeRequest, findings: seq<Finding>)
    requires DescendingDisjoint(MaskPlan(findings), |req.text|)
    requires MaskPlan(findings) != []
    ensures WithinText(MaskPlan(findings)[|MaskPlan(findings)| - 1], |req.text|)
    ensures WithinText(MaskPlan(findings)[0], |req.text|)
    ensures var es := MaskPlan(findings); var r := Masked(req, findings);
      && req.text[..es[|es| - 1].start] <= r
      && |req.text| - es[0].end <= |r|
      && r[|r| - (|req.text| - es[0].end)..] == req.text[es[0].end..]
  {
    ApplyEditsKeepsOutside(req.text, MaskPlan(findings));
  }

  /** Under the same condition, each mask string stands right after the masked text
      to its left and is followed by the original text up to the next masked span. */
  lemma MaskPlacesEachMask(req: AnalyzeRequest, findings: seq<Finding>, i: nat)
    requires DescendingDisjoint(MaskPlan(findings), |req.text|)
    requires i < |MaskPlan(findings)|
    ensures WithinText(MaskPlan(findings)[i], |req.text|)
    ensures DescendingDisjoint(MaskPlan(findings)[i + 1..], MaskPlan(findings)[i].start)
    ensures MaskPlan(findings)[i].end <= GapEnd(req.text, MaskPlan(findings), i) <= |req.text|
    ensures var es := MaskPlan(findings); var r := Masked(req, findings);
      var left := Rebuild(req.text[..es[i].start], es[i + 1..]);
      var at := |left| + |es[i].insert|;
      && at <= |r|
      && r[..|left|] == left
      && r[|left|..at] == es[i].insert
      && req.text[es[i].end..GapEnd(req.text, es, i)] <= r[at..]
  {
    ApplyEditsPlacesEdit(req.text, MaskPlan(findings), i);
  }

  /** When in addition every mask string is as long as its span (a ten-character
      PAN, a fourteen-character Aadhaar number), every mask stands exactly on its
      span and every character outside the masked spans is the original one; so
      the original value no longer appears at the span. */
  lemma MaskInPlace(req: AnalyzeRequest, findings: seq<Finding>)
    requires PairwiseDescending(MaskPlan(findings), |req.text|)
    requires forall i :: 0 <= i < |MaskPlan(findings)| ==> LengthPreserving(MaskPlan(findings)[i])
    requires forall f :: f in findings ==> SpanWithin(f, |req.text|)
    ensures |Masked(req, findings)| == |req.text|
    ensures forall f :: f in findings && SpanWithin(f, |req.text|) && !Suppressed(f, findings)
                     && IsMaskedType(f.entityType)
                     ==> Masked(req, findings)[f.start..f.end] == MaskString(f.entityType)
    ensures forall k :: 0 <= k < |req.text| && !InSomeSpan(MaskPlan(findings), k) ==>
      Masked(req, findings)[k] == req.text[k]
  {
    var es := MaskPlan(findings);
    ApplyEditsSameLength(req.text, es);
    forall f | f in findings && SpanWithin(f, |req.text|) && !Suppressed(f, findings)
      && IsMaskedType(f.entityType)
      ensures Masked(req, findings)[f.start..f.end] == MaskString(f.entityType)
    {
      var e := Edit(f.start, f.end, MaskString(f.entityType));
      MaskPlanExactly(findings, e);
      var i :| 0 <= i < |es| && es[i] == e;
    }
  }

  /** The findings of the masking test of the suite, a PAN and an Aadhaar number,
      survive cleaning. */
  lemma MaskExampleCleaned(pan: Finding, aadhaar: Finding)
    requires pan == Finding(PAN, 5, 15, 0.9) && aadhaar == Finding(AADHAAR, 26, 40, 0.85)
    ensures Cleaned([pan, aadhaar]) == [pan, aadhaar]
  {
    var fs := [pan, aadhaar];
    assert forall c :: c in fs ==> c.entityType != CREDIT_CARD;
    forall r | r in fs
      ensures Kept(fs)(r)
    {
    }
    FilterKeepsAll(fs, Kept(fs));
  }

  /** Masking visits them right to left. */
  lemma MaskExamplePlan(pan: Finding, aadhaar: Finding)
    requires pan == Finding(PAN, 5, 15, 0.9) && aadhaar == Finding(AADHAAR, 26, 40, 0.85)
    ensures MaskPlan([pan, aadhaar]) == [Edit(26, 40, "XXXX XXXX XXXX"), Edit(5, 15, "XXXXXXXXXX")]
  {
    MaskExampleCleaned(pan, aadhaar);
    assert [pan, aadhaar][1..] == [aadhaar];
    assert Sort([aadhaar], StartDescending) == [aadhaar];
    var order := [aadhaar, pan];
    assert MaskOrder([pan, aadhaar]) == order;
    assert order[1..] == [pan];
    assert [pan][1..] == [];
    assert MaskEdits([pan]) == [Edit(5, 15, "XXXXXXXXXX")];
  }

  /** The two rewrites applied to the test's text, written as its four pieces. */
  lemma MaskExampleEdits(a: string, pan: string, b: string, aadhaar: string)
    requires a == "PAN: " && pan == "ABCDE1234F" && b == ", Aadhaar: " && aadhaar == "1234 5678 9012"
    ensures ApplyEdits(a + pan + b + aadhaar, [Edit(26, 40, "XXXX XXXX XXXX"), Edit(5, 15, "XXXXXXXXXX")])
         == a + "XXXXXXXXXX" + b + "XXXX XXXX XXXX"
  {
    var e1 := Edit(26, 40, "XXXX XXXX XXXX");
    var e2 := Edit(5, 15, "XXXXXXXXXX");
    var text := a + pan + b + aadhaar;
    assert text[..26] == a + pan + b;
    assert text[40..] == [];
    var step := a + pan + b + e1.insert;
    assert Splice(text, e1) == step;
    assert step == a + (pan + (b + e1.insert));
    assert step[..5] == a;
    assert step[15..] == b + e1.insert;
    assert Splice(step, e2) == a + e2.insert + (b + e1.insert);
    assert [e1, e2][1..] == [e2];
    assert [e2][1..] == [];
  }

  /** The masking test of the suite: "PAN: ABCDE1234F, Aadhaar: 1234 5678 9012" with
      a PAN at 5..15 and an Aadhaar number at 26..40 comes back as
      "PAN: XXXXXXXXXX, Aadhaar: XXXX XXXX XXXX". */
  lemma MaskExample()
    ensures Masked(AnalyzeRequest("PAN: " + "ABCDE1234F" + ", Aadhaar: " + "1234 5678 9012", DefaultThreshold),
                   [Finding(PAN, 5, 15, 0.9), Finding(AADHAAR, 26, 40, 0.85)])
         == "PAN: " + "XXXXXXXXXX" + ", Aadhaar: " + "XXXX XXXX XXXX"
  {
    MaskExamplePlan(Finding(PAN, 5, 15, 0.9), Finding(AADHAAR, 26, 40, 0.85));
    MaskExampleEdits("PAN: ", "ABCDE1234F", ", Aadhaar: ", "1234 5678 9012");
  }
}
