/**
 * The breach service's sensitive search: validate the request, ask the
 * repository for the breaches grouped by full digest, and turn every breach
 * record into a `BreachMatch` whose field map marks the searched field
 * "Match" and every other field "Can't Match".
 */
module BreachService {
  import opened Wrappers
  import opened Models
  import BreachRepository
  import LikePattern

  const NilRequest := Error("invalid request: request is nil")
  const MatchStatus := "Match"
  const CantMatchStatus := "Can't Match"

  /** The repository the service holds: `SearchSensitiveMatch(field, hash)`. */
  type Repository = (string, string) -> Result<map<string, seq<BreachMetadata>>, Error>

  /** The status a field of a breach dump gets when `searched` is the field looked up. */
  function Status(field: string, searched: string): string {
    if field == searched then MatchStatus else CantMatchStatus
  }

  /** `m` is the match made from `md` for the searched field `searched`. */
  ghost predicate Converts(md: BreachMetadata, searched: string, m: BreachMatch) {
    && m.id == md.id && m.name == md.name && m.date == md.date
    && m.description == md.description && m.severity == md.severity && m.link == md.link
    && (forall f :: f in m.fields <==> f in md.fields)
    && (forall f :: f in m.fields ==> m.fields[f] == Status(f, searched))
  }

  /** `resp` answers the repository's grouping `found` for the searched field `searched`. */
  ghost predicate Responds(found: map<string, seq<BreachMetadata>>, searched: string, resp: SensitiveSearchResponse) {
    && resp.potentialPasswords.Keys == found.Keys
    && forall h :: h in found ==>
         var ms := resp.potentialPasswords[h].matches;
         |ms| == |found[h]| &&
         forall i :: 0 <= i < |ms| ==> Converts(found[h][i], searched, ms[i])
  }

  /** One breach record to one match: copy the record, then mark each of its fields. */
  method ToBreachMatch(md: BreachMetadata, searched: string) returns (m: BreachMatch)
    ensures Converts(md, searched, m)
  {
    var fields: map<string, string> := map[];
    for i := 0 to |md.fields|
      invariant forall f :: f in fields <==> f in md.fields[..i]
      invariant forall f :: f in fields ==> fields[f] == Status(f, searched)
    {
      var field := md.fields[i];
      assert md.fields[..i + 1] == md.fields[..i] + [field];
      if field == searched {
        fields := fields[field := MatchStatus];
      } else {
        fields := fields[field := CantMatchStatus];
      }
    }
    assert md.fields[..|md.fields|] == md.fields;
    m := BreachMatch(md.id, md.name, md.date, md.description, md.severity, md.link, fields);
  }

  /** The matches for one digest: one per breach record, in the records' order. */
  method ToBreachMatches(mds: seq<BreachMetadata>, searched: string) returns (ms: seq<BreachMatch>)
    ensures |ms| == |mds|
    ensures forall i :: 0 <= i < |ms| ==> Converts(mds[i], searched, ms[i])
  {
    ms := [];
    for i := 0 to |mds|
      invariant |ms| == i
      invariant forall k :: 0 <= k < i ==> Converts(mds[k], searched, ms[k])
    {
      var m := ToBreachMatch(mds[i], searched);
      ms := ms + [m];
    }
  }

  /**
   * A nil request fails without a response; otherwise the repository is asked
   * with the request's field and hash as they are, its error is passed on
   * unchanged, and its grouping is converted digest by digest.
   */
  method SearchSensitive(repo: Repository, req: Option<SensitiveSearchRequest>)
    returns (r: Result<SensitiveSearchResponse, Error>)
    ensures req.None? ==> r == Failure(NilRequest)
    ensures req.Some? && repo(req.value.field, req.value.hash).Failure? ==>
      r == Failure(repo(req.value.field, req.value.hash).error)
    ensures req.Some? && repo(req.value.field, req.value.hash).Success? ==>
      r.Success? && Responds(repo(req.value.field, req.value.hash).value, req.value.field, r.value)
  {
    if req.None? {
      return Failure(NilRequest);
    }
    var searched := req.value.field;
    var found := repo(searched, req.value.hash);
    if found.Failure? {
      return Failure(found.error);
    }
    var groups := found.value;
    var potentialMatches: map<string, NormalSearchResponse> := map[];
    var pending := groups.Keys;
    while pending != {}
      invariant pending <= groups.Keys
      invariant potentialMatches.Keys == groups.Keys - pending
      invariant forall h :: h in potentialMatches ==>
        var ms := potentialMatches[h].matches;
        |ms| == |groups[h]| &&
        forall i :: 0 <= i < |ms| ==> Converts(groups[h][i], searched, ms[i])
      decreases pending
    {
      var h :| h in pending;
      var ms := ToBreachMatches(groups[h], searched);
      potentialMatches := potentialMatches[h := NormalSearchResponse(ms)];
      pending := pending - {h};
    }
    return Success(SensitiveSearchResponse(potentialMatches));
  }

  /** A breach record converts to one match only: the same repository answer gives the same response. */
  lemma ConversionIsUnique(md: BreachMetadata, searched: string, m1: BreachMatch, m2: BreachMatch)
    requires Converts(md, searched, m1) && Converts(md, searched, m2)
    ensures m1 == m2
  {
    assert m1.fields == m2.fields;
  }

  lemma ResponseIsUnique(found: map<string, seq<BreachMetadata>>, searched: string,
                         r1: SensitiveSearchResponse, r2: SensitiveSearchResponse)
    requires Responds(found, searched, r1) && Responds(found, searched, r2)
    ensures r1 == r2
  {
    forall h | h in found
      ensures r1.potentialPasswords[h] == r2.potentialPasswords[h]
    {
      var ms1 := r1.potentialPasswords[h].matches;
      var ms2 := r2.potentialPasswords[h].matches;
      forall i | 0 <= i < |ms1| ensures ms1[i] == ms2[i] {
        ConversionIsUnique(found[h][i], searched, ms1[i], ms2[i]);
      }
    }
    assert r1.potentialPasswords == r2.potentialPasswords;
  }

  /**
   * The metadata query selects only breaches whose dump holds the searched
   * field, so each match marks that field "Match", and no other.
   */
  lemma SearchedFieldIsTheOnlyMatch(md: BreachMetadata, searched: string, m: BreachMatch)
    requires Converts(md, searched, m)
    requires searched in md.fields
    ensures searched in m.fields && m.fields[searched] == MatchStatus
    ensures forall f :: f in m.fields && m.fields[f] == MatchStatus ==> f == searched
  {
  }

  /**
   * Served by the SQL repository over a database that honours `LIKE`, every
   * digest in the response starts with the prefix the client sent, when that
   * prefix holds no `LIKE` wildcard or escape character (a hex digest prefix).
   */
  lemma ResponseKeysStartWithPrefix(db: BreachRepository.Database, req: SensitiveSearchRequest,
                                    resp: SensitiveSearchResponse, h: string)
    requires BreachRepository.HonorsLike(db)
    requires LikePattern.LikeLiteral(req.hash)
    requires BreachRepository.MatchesByHash(db, req.field, LikePattern.AsWrittenPattern(req.hash)).Success?
    requires Responds(BreachRepository.MatchesByHash(db, req.field, LikePattern.AsWrittenPattern(req.hash)).value,
                      req.field, resp)
    requires h in resp.potentialPasswords
    ensures req.hash <= h
  {
    BreachRepository.KeysStartWithPrefix(db, req.field, req.hash, h);
  }
}
