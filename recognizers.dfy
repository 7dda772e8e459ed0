/** The four pattern recognizers registered with the detection engine, each as a
    predicate saying which whole tokens its regular expression accepts, together
    with the entity type it reports and its score. Characters are ASCII: `\d` is
    '0'..'9' and `\s` is one of the six ASCII whitespace characters (the
    separators U+001C..U+001F and Unicode spaces, which `\s` also matches, are not
    modelled). */
module Recognizers {
  import Entities
  import opened Seqs

  predicate IsUpper(c: char) {
    'A' <= c <= 'Z'
  }

  predicate IsSpace(c: char) {
    c == ' ' || c == '\t' || c == '\n' || c == '\r' || c == '\U{B}' || c == '\U{C}'
  }

  predicate AllUpper(s: string) {
    forall i :: 0 <= i < |s| ==> IsUpper(s[i])
  }

  predicate AllDigits(s: string) {
    forall i :: 0 <= i < |s| ==> IsDecimalDigit(s[i])
  }

  /** `[A-Z]{5}[0-9]{4}[A-Z]` */
  predicate IsPan(t: string) {
    |t| == 10 && AllUpper(t[..5]) && AllDigits(t[5..9]) && IsUpper(t[9])
  }

  /** `\d{4}\s\d{4}\s\d{4}` */
  predicate IsAadhaar(t: string) {
    && |t| == 14
    && AllDigits(t[..4]) && IsSpace(t[4])
    && AllDigits(t[5..9]) && IsSpace(t[9])
    && AllDigits(t[10..])
  }

  /** `[A-Z]{3}[0-9]{7}` */
  predicate IsVoterId(t: string) {
    |t| == 10 && AllUpper(t[..3]) && AllDigits(t[3..])
  }

  predicate IsOrgSeparator(c: char) {
    c == '-' || c == '_' || c == ' '
  }

  /** `t` splits as `t[..i]` letters, `t[i..j]` the optional separator, `t[j..]` digits. */
  predicate OrgIdSplit(t: string, i: int, j: int) {
    && 2 <= i <= 10 && i <= j <= i + 1 && j <= |t| && 2 <= |t| - j <= 10
    && AllUpper(t[..i])
    && (j == i + 1 ==> IsOrgSeparator(t[i]))
    && AllDigits(t[j..])
  }

  /** `[A-Z]{2,10}[-_ ]?\d{2,10}`: the regular expression's own reading, some split. */
  ghost predicate IsOrgId(t: string) {
    exists i, j :: OrgIdSplit(t, i, j)
  }

  /** The number of uppercase letters at the front of `t`. */
  function LeadingUpper(t: string): (n: nat)
    ensures n <= |t|
    ensures AllUpper(t[..n])
    ensures n < |t| ==> !IsUpper(t[n])
  {
    if t == [] || !IsUpper(t[0]) then 0
    else
      var n := 1 + LeadingUpper(t[1..]);
      assert forall k :: 1 <= k < n ==> t[k] == t[1..][k - 1];
      n
  }

  /** A left-to-right matcher for the Org ID format: take the letters, then one
      separator if there is one, then the rest must be 2 to 10 digits. */
  function MatchOrgId(t: string): (b: bool)
    ensures b ==> 4 <= |t| <= 21
  {
    var i := LeadingUpper(t);
    var j := if i < |t| && IsOrgSeparator(t[i]) then i + 1 else i;
    2 <= i <= 10 && 2 <= |t| - j <= 10 && AllDigits(t[j..])
  }

  /** The matcher accepts exactly the tokens the regular expression describes. */
  lemma MatchOrgIdCorrect(t: string)
    ensures MatchOrgId(t) <==> IsOrgId(t)
  {
    if MatchOrgId(t) {
      MatchOrgIdSound(t);
    }
    if IsOrgId(t) {
      MatchOrgIdComplete(t);
    }
  }

  /** The matcher's own split is one the regular expression allows. */
  lemma MatchOrgIdSound(t: string)
    requires MatchOrgId(t)
    ensures IsOrgId(t)
  {
    var i := LeadingUpper(t);
    var j := if i < |t| && IsOrgSeparator(t[i]) then i + 1 else i;
    assert OrgIdSplit(t, i, j);
  }

  /** Any split the regular expression allows is the one the matcher finds. */
  lemma MatchOrgIdComplete(t: string)
    requires IsOrgId(t)
    ensures MatchOrgId(t)
  {
    var i := LeadingUpper(t);
    var j := if i < |t| && IsOrgSeparator(t[i]) then i + 1 else i;
    var i', j' :| OrgIdSplit(t, i', j');
    // t[i'] is a separator or a digit, so the letters stop exactly at i'
    assert t[i'] == t[j'..][0] || IsOrgSeparator(t[i']);
    assert !IsUpper(t[i']);
    assert i == i';
    assert j == j' by {
      if j' == i' {
        assert t[j'..][0] == t[i'];
      }
    }
  }

  /** The four recognizers of the source. */
  datatype Recognizer = PanRecognizer | AadhaarRecognizer | VoterIdRecognizer | OrgIdRecognizer

  /** The entity type the recognizer reports; every one is a type the frontend and
      the offline runner keep. */
  function SupportedEntity(r: Recognizer): (t: string)
    ensures t in Entities.AllowedEntities
  {
    match r
    case PanRecognizer => Entities.PAN
    case AadhaarRecognizer => Entities.AADHAAR
    case VoterIdRecognizer => Entities.VOTER_ID
    case OrgIdRecognizer => Entities.ORG_ID
  }

  /** The fixed score of the recognizer's single pattern. */
  function Score(r: Recognizer): (s: real)
    ensures 0.8 <= s <= 0.9
  {
    match r
    case PanRecognizer => 0.9
    case AadhaarRecognizer => 0.85
    case VoterIdRecognizer => 0.8
    case OrgIdRecognizer => 0.8
  }

  /** Whether the recognizer's pattern accepts the whole token `t`. */
  function Accepts(r: Recognizer, t: string): bool {
    match r
    case PanRecognizer => IsPan(t)
    case AadhaarRecognizer => IsAadhaar(t)
    case VoterIdRecognizer => IsVoterId(t)
    case OrgIdRecognizer => MatchOrgId(t)
  }

  /** A finding the recognizer would report for the token `text[start..end]`. */
  function Recognize(r: Recognizer, text: string, start: int, end: int): (f: Entities.Finding)
    requires 0 <= start <= end <= |text| && Accepts(r, text[start..end])
    ensures Entities.SpanWithin(f, |text|)
    ensures f.entityType in Entities.AllowedEntities
    ensures 0.8 <= f.score <= 0.9
  {
    Entities.Finding(SupportedEntity(r), start, end, Score(r))
  }

  /** Each recognizer accepts the sample token its tests and comments use. */
  lemma SampleTokensAccepted()
    ensures IsPan("ABCDE1234F")
    ensures IsAadhaar("1234 5678 9012")
    ensures IsVoterId("ABC1234567")
    ensures IsOrgId("ORG99999")
  {
    assert OrgIdSplit("ORG99999", 3, 3);
  }

  /** The samples in the Org ID pattern's own comment all match it. */
  lemma OrgIdCommentSamples()
    ensures IsOrgId("ORG12345") && IsOrgId("EMP-90876") && IsOrgId("COMP_00123")
    ensures IsOrgId("STAFF99") && IsOrgId("ID-778899")
  {
    assert OrgIdSplit("ORG12345", 3, 3);
    assert OrgIdSplit("EMP-90876", 3, 4);
    assert OrgIdSplit("COMP_00123", 4, 5);
    assert OrgIdSplit("STAFF99", 5, 5);
    assert OrgIdSplit("ID-778899", 2, 3);
  }

  /** A Voter ID is always also an Org ID, so both recognizers report its span. */
  lemma VoterIdIsOrgId(t: string)
    requires IsVoterId(t)
    ensures IsOrgId(t)
  {
    assert OrgIdSplit(t, 3, 3);
  }

  /** A PAN ends in a letter, so the Org ID pattern, which ends in digits, never
      accepts one. */
  lemma PanIsNotOrgId(t: string)
    requires IsPan(t)
    ensures !IsOrgId(t)
  {
  }

  /** An Aadhaar number starts with a digit, so it is never an Org ID. */
  lemma AadhaarIsNotOrgId(t: string)
    requires IsAadhaar(t)
    ensures !IsOrgId(t)
  {
  }

  /** The PAN and Voter ID formats never accept the same token. */
  lemma PanIsNotVoterId(t: string)
    requires IsPan(t)
    ensures !IsVoterId(t)
  {
    assert t[..5][3] == t[3];
    assert t[3..][0] == t[3];
  }
}
