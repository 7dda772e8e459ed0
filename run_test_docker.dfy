/** The offline runner run_test_docker.py: `analyze_text` turns the detection
    engine's findings for one file's text into entity records, keeping only the
    allowed types. Listing the TEST directory, reading the files, extracting PDF text
    and printing the JSON are outside the model; the findings are a parameter. */
module Offline {
  import opened Seqs
  import opened Entities
  import Backend

  /** What `analyze_text` returns: one record per finding of an allowed type, in the
      engine's order. */
  function OfflineRecords(text: string, results: seq<Finding>): (rs: seq<Record>)
    ensures |rs| <= |results|
  {
    Records(text, Filter(results, IsAllowedFinding))
  }

  /** `analyze_text`: the loop that skips a finding of another type and appends the
      record of every other one. */
  method AnalyzeText(text: string, results: seq<Finding>) returns (output: seq<Record>)
    ensures output == OfflineRecords(text, results)
  {
    output := [];
    for i := 0 to |results|
      invariant output == Records(text, Filter(results[..i], IsAllowedFinding))
    {
      var r := results[i];
      TakeSnoc(results, i);
      FilterSnoc(results[..i], r, IsAllowedFinding);
      if r.entityType !in AllowedEntities {
        continue;
      }
      RecordsSnoc(text, Filter(results[..i], IsAllowedFinding), r);
      output := output + [Record(r.entityType, r.start, r.end, r.score, Slice(text, r.start, r.end))];
    }
    assert results[..|results|] == results;
  }

  /** A record is reported exactly when it is built from a finding of an allowed type. */
  lemma OfflineExactly(text: string, results: seq<Finding>, rec: Record)
    ensures rec in OfflineRecords(text, results) <==>
      exists f :: f in results && f.entityType in AllowedEntities && rec == RecordOf(text, f)
  {
    var kept := Filter(results, IsAllowedFinding);
    RecordsMembership(text, kept, rec);
    forall f
      ensures f in kept <==> f in results && f.entityType in AllowedEntities
    {
      FilterMembership(results, IsAllowedFinding, f);
    }
  }

  /** The output keeps the engine's order, has at most one record per finding, and
      drops nothing when every finding has an allowed type. */
  lemma OfflineKeepsOrder(text: string, results: seq<Finding>)
    ensures IsSubsequence(OfflineRecords(text, results), Records(text, results))
    ensures |OfflineRecords(text, results)| <= |results|
    ensures (forall f :: f in results ==> f.entityType in AllowedEntities) ==>
      OfflineRecords(text, results) == Records(text, results)
  {
    FilterIsSubsequence(results, IsAllowedFinding);
    RecordsKeepSubsequence(text, Filter(results, IsAllowedFinding), results);
    if forall f :: f in results ==> f.entityType in AllowedEntities {
      FilterKeepsAll(results, IsAllowedFinding);
    }
  }

  /** When the engine's spans lie inside the text, each value is the text of its span. */
  lemma OfflineValuesAreSlices(text: string, results: seq<Finding>)
    requires forall f :: f in results ==> SpanWithin(f, |text|)
    ensures forall rec :: rec in OfflineRecords(text, results) ==>
      0 <= rec.start <= rec.end <= |text| && rec.value == text[rec.start..rec.end]
  {
    FilterIsSubsequence(results, IsAllowedFinding);
    forall f | f in Filter(results, IsAllowedFinding)
      ensures SpanWithin(f, |text|)
    {
      FilterMembership(results, IsAllowedFinding, f);
    }
    RecordsCarrySlices(text, Filter(results, IsAllowedFinding));
  }

  /** The runner applies no AADHAAR/CREDIT_CARD cleaning: an AADHAAR finding that the
      backend's `clean_entities` would suppress is still reported. */
  lemma OfflineKeepsSuppressed(text: string, results: seq<Finding>, f: Finding)
    requires f in results && Backend.Suppressed(f, results)
    ensures RecordOf(text, f) in OfflineRecords(text, results)
  {
    OfflineExactly(text, results, RecordOf(text, f));
  }

  /** When every finding has an allowed type, what `/upload-pdf` returns for the same
      findings is a subsequence of the runner's output: the backend only removes more. */
  lemma UploadWithinOffline(text: string, results: seq<Finding>)
    requires forall f :: f in results ==> f.entityType in AllowedEntities
    ensures IsSubsequence(Backend.UploadPdf(text, results), OfflineRecords(text, results))
  {
    FilterKeepsAll(results, IsAllowedFinding);
    Backend.CleanedIsSubsequence(results);
    RecordsKeepSubsequence(text, Backend.Cleaned(results), results);
  }

  /** A card number that the engine also reads as an Aadhaar number: the runner
      reports both, the backend only the card. */
  lemma OverlapExample()
    ensures OfflineRecords("4111 1111 1111 1111", [
        Finding(CREDIT_CARD, 0, 19, 1.0), Finding(AADHAAR, 0, 14, 0.85)])
      == [Record(CREDIT_CARD, 0, 19, 1.0, "4111 1111 1111 1111"),
          Record(AADHAAR, 0, 14, 0.85, "4111 1111 1111")]
    ensures Backend.UploadPdf("4111 1111 1111 1111", [
        Finding(CREDIT_CARD, 0, 19, 1.0), Finding(AADHAAR, 0, 14, 0.85)])
      == [Record(CREDIT_CARD, 0, 19, 1.0, "4111 1111 1111 1111")]
  {
    var text := "4111 1111 1111 1111";
    var cc := Finding(CREDIT_CARD, 0, 19, 1.0);
    var aa := Finding(AADHAAR, 0, 14, 0.85);
    var results := [cc, aa];
    FilterKeepsAll(results, IsAllowedFinding);
    OverlapExampleCleaned();
    OverlapExampleRecords();
    assert Records(text, results) == [RecordOf(text, cc), RecordOf(text, aa)];
    assert Records(text, [cc]) == [RecordOf(text, cc)];
  }

  /** In the example, the backend's cleaning drops the Aadhaar reading of the card. */
  lemma OverlapExampleCleaned()
    ensures Backend.Cleaned([Finding(CREDIT_CARD, 0, 19, 1.0), Finding(AADHAAR, 0, 14, 0.85)])
         == [Finding(CREDIT_CARD, 0, 19, 1.0)]
  {
    var cc := Finding(CREDIT_CARD, 0, 19, 1.0);
    var aa := Finding(AADHAAR, 0, 14, 0.85);
    var results := [cc, aa];
    assert Backend.Suppressed(aa, results) by {
      assert cc in results && Backend.Overlaps(aa, cc);
    }
    assert results == [cc] + [aa];
    FilterSnoc([cc], aa, Backend.Kept(results));
    assert [cc] == [] + [cc];
    FilterSnoc([], cc, Backend.Kept(results));
  }

  /** The example's two records carry the card number and its first fourteen characters. */
  lemma OverlapExampleRecords()
    ensures RecordOf("4111 1111 1111 1111", Finding(CREDIT_CARD, 0, 19, 1.0))
         == Record(CREDIT_CARD, 0, 19, 1.0, "4111 1111 1111 1111")
    ensures RecordOf("4111 1111 1111 1111", Finding(AADHAAR, 0, 14, 0.85))
         == Record(AADHAAR, 0, 14, 0.85, "4111 1111 1111")
  {
    var text := "4111 1111 1111 1111";
    assert text[0..19] == text;
    assert text[0..14] == "4111 1111 1111";
  }
}
