/** The values that flow through the pipeline: the detection engine's findings and
    the entity records the backend returns and the frontend and the offline runner
    consume. */
module Entities {
  import opened Seqs

  const PERSON := "PERSON"
  const EMAIL_ADDRESS := "EMAIL_ADDRESS"
  const PHONE_NUMBER := "PHONE_NUMBER"
  const PAN := "PAN"
  const AADHAAR := "AADHAAR"
  const VOTER_ID := "VOTER_ID"
  const IBAN_CODE := "IBAN_CODE"
  const CREDIT_CARD := "CREDIT_CARD"
  const LOCATION := "LOCATION"
  const ORG_ID := "ORG_ID"

  /** The ten entity types kept by the offline runner (`ALLOWED_ENTITIES`) and by
      the frontend (`allowed` in `cleanEntities`); both lists hold the same names. */
  const AllowedEntities: set<string> := {
    PERSON, EMAIL_ADDRESS, PHONE_NUMBER, PAN, AADHAAR,
    VOTER_ID, IBAN_CODE, CREDIT_CARD, LOCATION, ORG_ID
  }

  /** One result of the detection engine: an entity type, a half-open span of
      character offsets into the analysed text, and a score. */
  datatype Finding = Finding(entityType: string, start: int, end: int, score: real)

  /** One entity record `{entity, start, end, confidence, value}`. */
  datatype Record = Record(entity: string, start: int, end: int, confidence: real, value: string)

  /** The finding's span `[start, end)` lies inside a text of length `n`. */
  predicate SpanWithin(f: Finding, n: int) {
    InBounds(f.start, f.end, n)
  }

  predicate IsAllowedFinding(f: Finding) {
    f.entityType in AllowedEntities
  }

  /** The record built from a finding: type, start and end copied, confidence the
      score, value `text[start:end]`. */
  function RecordOf(text: string, f: Finding): (r: Record)
    ensures r.entity == f.entityType && r.start == f.start && r.end == f.end
    ensures r.confidence == f.score
    ensures SpanWithin(f, |text|) ==> r.value == text[f.start..f.end]
  {
    Record(f.entityType, f.start, f.end, f.score, Slice(text, f.start, f.end))
  }

  /** One record per finding, in order. */
  function Records(text: string, fs: seq<Finding>): (rs: seq<Record>)
    ensures |rs| == |fs|
    ensures forall i :: 0 <= i < |fs| ==> rs[i] == RecordOf(text, fs[i])
  {
    if fs == [] then [] else [RecordOf(text, fs[0])] + Records(text, fs[1..])
  }

  /** Appending a finding appends its record. */
  lemma RecordsSnoc(text: string, fs: seq<Finding>, f: Finding)
    ensures Records(text, fs + [f]) == Records(text, fs) + [RecordOf(text, f)]
  {
    var rs := Records(text, fs + [f]);
    assert forall i :: 0 <= i < |fs| ==> (fs + [f])[i] == fs[i];
    assert rs[|fs|] == RecordOf(text, f);
  }

  lemma {:induction false} RecordsMembership(text: string, fs: seq<Finding>, rec: Record)
    ensures rec in Records(text, fs) <==> exists f :: f in fs && rec == RecordOf(text, f)
  {
    var rs := Records(text, fs);
    if rec in rs {
      var i :| 0 <= i < |rs| && rs[i] == rec;
      assert fs[i] in fs;
    }
  }

  lemma {:induction false} RecordsKeepSubsequence(text: string, a: seq<Finding>, b: seq<Finding>)
    requires IsSubsequence(a, b)
    ensures IsSubsequence(Records(text, a), Records(text, b))
    decreases |b|
  {
    if a != [] {
      if a[0] == b[0] && IsSubsequence(a[1..], b[1..]) {
        RecordsKeepSubsequence(text, a[1..], b[1..]);
      } else {
        RecordsKeepSubsequence(text, a, b[1..]);
      }
    }
  }

  /** Records of findings that all lie inside `text` carry the text of their span. */
  lemma RecordsCarrySlices(text: string, fs: seq<Finding>)
    requires forall f :: f in fs ==> SpanWithin(f, |text|)
    ensures forall rec :: rec in Records(text, fs) ==>
      0 <= rec.start <= rec.end <= |text| && rec.value == text[rec.start..rec.end]
  {
    forall rec | rec in Records(text, fs)
      ensures 0 <= rec.start <= rec.end <= |text| && rec.value == text[rec.start..rec.end]
    {
      RecordsMembership(text, fs, rec);
    }
  }
}
