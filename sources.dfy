/** The grounding sources attached to a finished reply: each upstream
    citation becomes a title/uri record, a missing title is replaced by the
    agency's name, and only pages on the agency's domain are kept. Also the
    shortening of a source title for its link label. */
module Sources {
  import opened Types
  import opened Strings
  import opened Seqs

  /** The title shown for a citation that carries none. */
  const DefaultTitle: string := "질병관리청 공식 정보"

  /** The agency's domain. */
  const OfficialDomain: string := "kdca.go.kr"

  /** The immunization portal's domain, a sub-domain of `OfficialDomain`. */
  const PortalDomain: string := "nip.kdca.go.kr"

  /** The record built for a citation before filtering; its uri may be
      missing. */
  datatype Candidate = Candidate(title: string, uri: Option<string>)

  /** `chunk.web?.title`. */
  function CitedTitle(c: Citation): Option<string> {
    if c.web.Some? then c.web.value.title else None
  }

  /** `chunk.web?.uri`. */
  function CitedUri(c: Citation): Option<string> {
    if c.web.Some? then c.web.value.uri else None
  }

  /** The map step: the cited title unless it is missing or empty, then the
      default title; the cited uri as it is. */
  function ToCandidate(c: Citation): (r: Candidate)
    ensures r.title != ""
    ensures Truthy(CitedTitle(c)) ==> r.title == CitedTitle(c).value
    ensures !Truthy(CitedTitle(c)) ==> r.title == DefaultTitle
    ensures r.uri == CitedUri(c)
  {
    Candidate(if Truthy(CitedTitle(c)) then CitedTitle(c).value else DefaultTitle, CitedUri(c))
  }

  /** The filter step: a uri is present and non-empty and names either
      domain. */
  predicate Allowed(c: Candidate) {
    Truthy(c.uri) && (Contains(c.uri.value, OfficialDomain) || Contains(c.uri.value, PortalDomain))
  }

  /** A kept candidate as a grounding source. */
  function ToSource(c: Candidate): GroundingSource {
    GroundingSource(c.title, c.uri.GetOr(""))
  }

  /** The sources attached on completion. */
  function SourcesOf(citations: seq<Citation>): (sources: seq<GroundingSource>)
    ensures |sources| <= |citations|
  {
    Map(Filter(Map(citations, ToCandidate), Allowed), ToSource)
  }

  /** A uri on the portal is a uri on the agency's domain, so the second
      test of the filter never keeps anything the first would drop. */
  lemma PortalIsOfficial(uri: string)
    requires Contains(uri, PortalDomain)
    ensures Contains(uri, OfficialDomain)
  {
    assert PortalDomain == "nip." + OfficialDomain;
    ContainsSuffix(uri, "nip.", OfficialDomain);
  }

  /** The filter keeps exactly the candidates with a non-empty uri on the
      agency's domain. */
  lemma AllowedIffOfficial(c: Candidate)
    ensures Allowed(c) <==> c.uri.Some? && c.uri.value != "" && Contains(c.uri.value, OfficialDomain)
  {
    if Truthy(c.uri) && Contains(c.uri.value, PortalDomain) {
      PortalIsOfficial(c.uri.value);
    }
  }

  /** Every attached source has a non-empty title and a non-empty uri on
      the agency's domain. */
  lemma SourcesAreOfficial(citations: seq<Citation>)
    ensures forall k :: 0 <= k < |SourcesOf(citations)| ==>
      var s := SourcesOf(citations)[k];
      s.title != "" && s.uri != "" && Contains(s.uri, OfficialDomain)
  {
    var idx := SourcesInOrder(citations);
    forall k | 0 <= k < |SourcesOf(citations)|
      ensures SourcesOf(citations)[k].title != "" && SourcesOf(citations)[k].uri != ""
      ensures Contains(SourcesOf(citations)[k].uri, OfficialDomain)
    {
      var c := ToCandidate(citations[idx[k]]);
      assert idx[k] in idx;
      AllowedIffOfficial(c);
    }
  }

  /** The attached sources follow the citations' order: source `j` comes
      from citation `idx[j]`, the indices increase, and a citation is used
      exactly when its candidate passes the filter. */
  lemma SourcesInOrder(citations: seq<Citation>) returns (idx: seq<nat>)
    ensures |SourcesOf(citations)| == |idx| && IncreasingIndices(idx, citations)
    ensures forall j :: 0 <= j < |idx| ==> SourcesOf(citations)[j] == ToSource(ToCandidate(citations[idx[j]]))
    ensures forall i :: 0 <= i < |citations| ==> (Allowed(ToCandidate(citations[i])) <==> i in idx)
  {
    var candidates := Map(citations, ToCandidate);
    idx := MapFilterIndices(candidates, Allowed, ToSource);
  }

  /** The link label of a source: a title of at most thirty characters is
      kept; a longer one is cut to its first thirty characters and marked
      with an ellipsis (`title.substring(0, 30) + '...'`). */
  function ShortTitle(title: string): (shown: string)
    ensures |shown| <= 33
    ensures |title| <= 30 ==> shown == title
    ensures |title| > 30 ==> |shown| == 33 && shown[..30] == title[..30] && shown[30..] == "..."
  {
    if |title| > 30 then title[..30] + "..." else title
  }
}
