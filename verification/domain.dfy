/** The closed enumerations of the data model and the two records the
    answer pipeline passes around: a retrieved candidate document and the
    citation copied out of it. */
module Domain {
  import opened Wrappers

  datatype AuthorityLevel = Official | Scholarly | Press | Community | Claim
  datatype SourceStatus = Verified | Unverified | Contested
  datatype Persona = Neutral | Zaatar
  datatype Language = AR | EN | FR
  datatype UserRole = User | Moderator | Admin
  datatype CommunityStatus = Pending | Approved | Rejected

  /** The five authority levels in the order the answer card lists them. */
  const AuthorityOrder: seq<AuthorityLevel> := [Official, Scholarly, Press, Community, Claim]

  /** The wire name of an authority level, as stored and as sent by clients. */
  function AuthorityName(a: AuthorityLevel): string {
    match a
    case Official => "OFFICIAL"
    case Scholarly => "SCHOLARLY"
    case Press => "PRESS"
    case Community => "COMMUNITY"
    case Claim => "CLAIM"
  }

  /** Reads a wire name back; anything that is not one of the five names is rejected. */
  function ParseAuthority(s: string): (r: Option<AuthorityLevel>)
    ensures forall a :: r == Some(a) <==> s == AuthorityName(a)
  {
    if s == "OFFICIAL" then Some(Official)
    else if s == "SCHOLARLY" then Some(Scholarly)
    else if s == "PRESS" then Some(Press)
    else if s == "COMMUNITY" then Some(Community)
    else if s == "CLAIM" then Some(Claim)
    else None
  }

  lemma AuthorityNameInjective(a: AuthorityLevel, b: AuthorityLevel)
    ensures AuthorityName(a) == AuthorityName(b) <==> a == b
  {
    assert ParseAuthority(AuthorityName(a)) == Some(a);
  }

  /** A retrieved document joined with its source's metadata. The score is
      optional because the source reads it with a falsy fallback. */
  datatype Candidate = Candidate(
    sourceId: string,
    sourceTitle: string,
    authority: AuthorityLevel,
    status: SourceStatus,
    publisher: Option<string>,
    year: Option<int>,
    credibility: int,
    content: string,
    similarity: Option<real>)

  /** A denormalised reference from an answer back to one candidate. */
  datatype Citation = Citation(
    sourceId: string,
    snippet: string,
    authority: AuthorityLevel,
    status: SourceStatus,
    score: real)

  /** A citation as a client submits it, before schema validation. */
  predicate ValidCitationInput(c: Citation) {
    0.0 <= c.score <= 1.0
  }

  predicate AllCitationsValid(cs: seq<Citation>) {
    forall i :: 0 <= i < |cs| ==> ValidCitationInput(cs[i])
  }
}
