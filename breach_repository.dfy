/**
 * The SQL breach repository's sensitive search: find the breaches whose dump
 * holds the searched field, search each breach's table for the digests that
 * start with the requested prefix, and group the breaches under every digest
 * found. The database is an oracle: each query yields an error or a sequence
 * of rows, each of which scans into a value or fails to scan.
 */
module BreachRepository {
  import opened Wrappers
  import opened Models
  import opened LikePattern

  datatype Scan<T> = Scanned(value: T) | ScanFailed(error: Error)

  datatype Rows<T> = QueryFailed(error: Error) | Rows(rows: seq<Scan<T>>)

  /**
   * The two queries the repository issues.
   * `breachesWithField(field)`: `SELECT * FROM breach_metadata WHERE field = ANY(breach_fields)`.
   * `distinctLike(column, table, pattern)`: `SELECT DISTINCT column FROM table WHERE column LIKE pattern`.
   */
  datatype Database = Database(
    breachesWithField: string -> Rows<BreachMetadata>,
    distinctLike: (string, string, string) -> Rows<string>)

  /** Grouped result: full digest -> breaches whose table holds it. */
  type Grouping = map<string, seq<BreachMetadata>>

  // ---------------------------------------------------------------------------
  // What the database promises (hypotheses of the lemmas, never of the method)
  // ---------------------------------------------------------------------------

  /** Every row the per-table query returns satisfies its `LIKE` pattern. */
  ghost predicate HonorsLike(db: Database) {
    forall column, table, pattern ::
      RowsSatisfy(db.distinctLike(column, table, pattern), pattern)
  }

  predicate RowsSatisfy(q: Rows<string>, pattern: string) {
    q.Rows? ==> forall i :: 0 <= i < |q.rows| && q.rows[i].Scanned? ==> Like(q.rows[i].value, pattern)
  }

  /** The per-table query is `SELECT DISTINCT`: no value comes back twice. */
  ghost predicate HonorsDistinct(db: Database) {
    forall column, table, pattern :: RowsDistinct(db.distinctLike(column, table, pattern))
  }

  /** The metadata query returns only breaches whose dump holds the searched field (`field = ANY(breach_fields)`). */
  ghost predicate HonorsFieldFilter(db: Database) {
    forall field :: RowsHoldField(db.breachesWithField(field), field)
  }

  predicate RowsHoldField(q: Rows<BreachMetadata>, field: string) {
    q.Rows? ==> forall i :: 0 <= i < |q.rows| && q.rows[i].Scanned? ==> field in q.rows[i].value.fields
  }

  predicate RowsDistinct(q: Rows<string>) {
    q.Rows? ==>
      forall i, j :: 0 <= i < j < |q.rows| && q.rows[i].Scanned? && q.rows[j].Scanned? ==>
        q.rows[i].value != q.rows[j].value
  }

  // ---------------------------------------------------------------------------
  // Specification
  // ---------------------------------------------------------------------------

  /** Scans rows in order; the first row that fails to scan aborts with its error. */
  function ScanAll<T>(rows: seq<Scan<T>>): Result<seq<T>, Error>
    decreases |rows|
  {
    if rows == [] then Success([])
    else
      match ScanAll(rows[..|rows| - 1])
      case Failure(e) => Failure(e)
      case Success(vs) =>
        match rows[|rows| - 1]
        case ScanFailed(e) => Failure(e)
        case Scanned(v) => Success(vs + [v])
  }

  function Collect<T>(q: Rows<T>): Result<seq<T>, Error> {
    match q
    case QueryFailed(e) => Failure(e)
    case Rows(rows) => ScanAll(rows)
  }

  /** The digests the table of breach `b` returns for the `LIKE` pattern `pattern`. */
  function TableHashes(db: Database, field: string, pattern: string, b: BreachMetadata): Result<seq<string>, Error> {
    Collect(db.distinctLike(field, b.name, pattern))
  }

  /** Searches the tables of `bs` in order, pairing each breach with its digests; the first error aborts. */
  function Probe(db: Database, field: string, pattern: string, bs: seq<BreachMetadata>)
    : Result<seq<(BreachMetadata, seq<string>)>, Error>
    decreases |bs|
  {
    if bs == [] then Success([])
    else
      match Probe(db, field, pattern, bs[..|bs| - 1])
      case Failure(e) => Failure(e)
      case Success(ps) =>
        var b := bs[|bs| - 1];
        match TableHashes(db, field, pattern, b)
        case Failure(e) => Failure(e)
        case Success(hs) => Success(ps + [(b, hs)])
  }

  /** Go's read of a missing map key: the nil slice. */
  function Lookup(m: Grouping, h: string): seq<BreachMetadata> {
    if h in m then m[h] else []
  }

  /** `m[h] = append(m[h], b)` for every digest `h` of `hs`, in order. */
  function AddAll(m: Grouping, b: BreachMetadata, hs: seq<string>): Grouping
    decreases |hs|
  {
    if hs == [] then m
    else
      var m' := AddAll(m, b, hs[..|hs| - 1]);
      var h := hs[|hs| - 1];
      m'[h := Lookup(m', h) + [b]]
  }

  /** The map built from the breach/digests pairs, visited in order. */
  function Group(ps: seq<(BreachMetadata, seq<string>)>): Grouping
    decreases |ps|
  {
    if ps == [] then map[]
    else AddAll(Group(ps[..|ps| - 1]), ps[|ps| - 1].0, ps[|ps| - 1].1)
  }

  /** The result of the sensitive search, the per-table searches using the `LIKE` pattern `pattern`. */
  function MatchesByHash(db: Database, field: string, pattern: string): Result<Grouping, Error> {
    match Collect(db.breachesWithField(field))
    case Failure(e) => Failure(e)
    case Success(bs) =>
      match Probe(db, field, pattern, bs)
      case Failure(e) => Failure(e)
      case Success(ps) => Success(Group(ps))
  }

  // ---------------------------------------------------------------------------
  // Declarative views of the specification
  // ---------------------------------------------------------------------------

  /** Number of occurrences of `h` in `hs`. */
  function Count(h: string, hs: seq<string>): nat
    decreases |hs|
  {
    if hs == [] then 0
    else Count(h, hs[..|hs| - 1]) + (if hs[|hs| - 1] == h then 1 else 0)
  }

  /** The breaches whose digests hold `h`, in visiting order, one copy per occurrence of `h`. */
  function Holding(ps: seq<(BreachMetadata, seq<string>)>, h: string): seq<BreachMetadata>
    decreases |ps|
  {
    if ps == [] then []
    else Holding(ps[..|ps| - 1], h) + seq(Count(h, ps[|ps| - 1].1), _ => ps[|ps| - 1].0)
  }

  /** Whether the table of `b` answered the search and returned `h`. */
  predicate Returned(db: Database, field: string, pattern: string, b: BreachMetadata, h: string) {
    TableHashes(db, field, pattern, b).Success? && h in TableHashes(db, field, pattern, b).value
  }

  /** The breaches of `bs` whose table returned `h`, in the order of `bs`. */
  function Returning(db: Database, field: string, pattern: string, bs: seq<BreachMetadata>, h: string)
    : seq<BreachMetadata>
    decreases |bs|
  {
    if bs == [] then []
    else
      Returning(db, field, pattern, bs[..|bs| - 1], h)
      + (if Returned(db, field, pattern, bs[|bs| - 1], h) then [bs[|bs| - 1]] else [])
  }

  predicate Distinct(hs: seq<string>) {
    forall i, j :: 0 <= i < j < |hs| ==> hs[i] != hs[j]
  }

  // ---------------------------------------------------------------------------
  // The repository operation
  // ---------------------------------------------------------------------------

  /**
   * Collects the candidate breaches in row order, then, breach by breach,
   * appends the breach to the entry of every digest its table returns for
   * the pattern `hash + "%"`. Any query or scan error aborts with that error
   * and no map.
   */
  method SearchSensitiveMatch(db: Database, field: string, hash: string)
    returns (r: Result<Grouping, Error>)
    ensures r == MatchesByHash(db, field, AsWrittenPattern(hash))
  {
    var candidates := db.breachesWithField(field);
    if candidates.QueryFailed? {
      return Failure(candidates.error);
    }
    var scanned := ScanRows(candidates.rows);
    if scanned.Failure? {
      return Failure(scanned.error);
    }
    var breaches := scanned.value;

    var pattern := AsWrittenPattern(hash);
    var matches: Grouping := map[];
    ghost var ps: seq<(BreachMetadata, seq<string>)> := [];
    var j := 0;
    while j < |breaches|
      invariant 0 <= j <= |breaches|
      invariant Probe(db, field, pattern, breaches[..j]) == Success(ps)
      invariant matches == Group(ps)
    {
      var b := breaches[j];
      var found := db.distinctLike(field, b.name, pattern);
      ProbeExtends(db, field, pattern, breaches, j, ps);
      if found.QueryFailed? {
        ProbeAbortsAt(db, field, pattern, breaches, j + 1);
        return Failure(found.error);
      }
      var grown := AppendDigests(matches, b, found.rows);
      if grown.Failure? {
        ProbeAbortsAt(db, field, pattern, breaches, j + 1);
        return Failure(grown.error);
      }
      matches := grown.value;
      ghost var hs := ScanAll(found.rows).value;
      GroupExtends(ps, b, hs);
      ps := ps + [(b, hs)];
      j := j + 1;
    }
    assert breaches[..j] == breaches;
    return Success(matches);
  }

  /** One more table searched: its digests extend the probe, or its error ends it. */
  lemma ProbeExtends(db: Database, field: string, pattern: string, bs: seq<BreachMetadata>, j: nat,
                     ps: seq<(BreachMetadata, seq<string>)>)
    requires j < |bs|
    requires Probe(db, field, pattern, bs[..j]) == Success(ps)
    ensures TableHashes(db, field, pattern, bs[j]).Failure? ==>
      Probe(db, field, pattern, bs[..j + 1]) == Failure(TableHashes(db, field, pattern, bs[j]).error)
    ensures TableHashes(db, field, pattern, bs[j]).Success? ==>
      Probe(db, field, pattern, bs[..j + 1]) == Success(ps + [(bs[j], TableHashes(db, field, pattern, bs[j]).value)])
  {
    var longer := bs[..j + 1];
    assert longer[..|longer| - 1] == bs[..j] && longer[|longer| - 1] == bs[j];
  }

  /** One more pair grouped: its digests extend the grouping. */
  lemma GroupExtends(ps: seq<(BreachMetadata, seq<string>)>, b: BreachMetadata, hs: seq<string>)
    ensures Group(ps + [(b, hs)]) == AddAll(Group(ps), b, hs)
  {
    var longer := ps + [(b, hs)];
    assert longer[..|longer| - 1] == ps && longer[|longer| - 1] == (b, hs);
  }

  /** Scans rows one by one; the first row that fails to scan aborts with its error. */
  method ScanRows<T>(rows: seq<Scan<T>>) returns (r: Result<seq<T>, Error>)
    ensures r == ScanAll(rows)
  {
    var values: seq<T> := [];
    var i := 0;
    while i < |rows|
      invariant 0 <= i <= |rows|
      invariant ScanAll(rows[..i]) == Success(values)
    {
      assert rows[..i + 1][..i] == rows[..i];
      match rows[i]
      case ScanFailed(e) =>
        ScanAllAbortsAt(rows, i + 1);
        return Failure(e);
      case Scanned(v) =>
        values := values + [v];
      i := i + 1;
    }
    assert rows[..i] == rows;
    return Success(values);
  }

  /**
   * The loop over one table's rows: `matches[h] = append(matches[h], b)` for
   * each digest `h` scanned; a row that fails to scan aborts with its error.
   */
  method AppendDigests(matches: Grouping, b: BreachMetadata, rows: seq<Scan<string>>)
    returns (r: Result<Grouping, Error>)
    ensures ScanAll(rows).Failure? ==> r == Failure(ScanAll(rows).error)
    ensures ScanAll(rows).Success? ==> r == Success(AddAll(matches, b, ScanAll(rows).value))
  {
    var grown := matches;
    ghost var hs: seq<string> := [];
    var k := 0;
    while k < |rows|
      invariant 0 <= k <= |rows|
      invariant ScanAll(rows[..k]) == Success(hs)
      invariant grown == AddAll(matches, b, hs)
    {
      assert rows[..k + 1][..k] == rows[..k];
      match rows[k]
      case ScanFailed(e) =>
        ScanAllAbortsAt(rows, k + 1);
        return Failure(e);
      case Scanned(h) =>
        assert (hs + [h])[..|hs|] == hs;
        grown := grown[h := Lookup(grown, h) + [b]];
        hs := hs + [h];
      k := k + 1;
    }
    assert rows[..k] == rows;
    return Success(grown);
  }

  // ---------------------------------------------------------------------------
  // Lemmas
  // ---------------------------------------------------------------------------

  /** Once a prefix of the rows fails to scan, scanning all of them fails with the same error. */
  lemma {:induction false} ScanAllAbortsAt<T>(rows: seq<Scan<T>>, n: nat)
    requires n <= |rows|
    requires ScanAll(rows[..n]).Failure?
    ensures ScanAll(rows) == ScanAll(rows[..n])
    decreases |rows| - n
  {
    if n < |rows| {
      assert rows[..n + 1][..n] == rows[..n];
      ScanAllAbortsAt(rows, n + 1);
    } else {
      assert rows[..n] == rows;
    }
  }

  /** Once a prefix of the breaches fails, probing all of them fails with the same error. */
  lemma {:induction false} ProbeAbortsAt(db: Database, field: string, pattern: string, bs: seq<BreachMetadata>, n: nat)
    requires n <= |bs|
    requires Probe(db, field, pattern, bs[..n]).Failure?
    ensures Probe(db, field, pattern, bs) == Probe(db, field, pattern, bs[..n])
    decreases |bs| - n
  {
    if n < |bs| {
      assert bs[..n + 1][..n] == bs[..n];
      ProbeAbortsAt(db, field, pattern, bs, n + 1);
    } else {
      assert bs[..n] == bs;
    }
  }

  /** Scanning succeeds exactly when every row scans, and then yields the rows' values in order. */
  lemma {:induction false} ScanAllValues<T>(rows: seq<Scan<T>>)
    ensures ScanAll(rows).Success? <==> forall i :: 0 <= i < |rows| ==> rows[i].Scanned?
    ensures ScanAll(rows).Success? ==>
      |ScanAll(rows).value| == |rows| &&
      forall i :: 0 <= i < |rows| ==> ScanAll(rows).value[i] == rows[i].value
    decreases |rows|
  {
    if rows != [] {
      var init := rows[..|rows| - 1];
      ScanAllValues(init);
      assert forall i :: 0 <= i < |init| ==> init[i] == rows[i];
    }
  }

  /** A failed scan reports the error of the first row that failed to scan. */
  lemma {:induction false} ScanAllFirstError<T>(rows: seq<Scan<T>>, e: Error)
    ensures ScanAll(rows) == Failure(e) <==>
      exists i :: 0 <= i < |rows| && rows[i] == ScanFailed(e) &&
        forall j :: 0 <= j < i ==> rows[j].Scanned?
    decreases |rows|
  {
    if rows != [] {
      var n := |rows| - 1;
      var init := rows[..n];
      ScanAllFirstError(init, e);
      ScanAllValues(init);
      assert forall i :: 0 <= i < n ==> init[i] == rows[i];
      if ScanAll(rows) == Failure(e) {
        if ScanAll(init).Failure? {
          var i :| 0 <= i < |init| && init[i] == ScanFailed(e) &&
            forall j :: 0 <= j < i ==> init[j].Scanned?;
          assert rows[i] == ScanFailed(e);
        } else {
          assert rows[n] == ScanFailed(e);
        }
      }
      if exists i :: 0 <= i < |rows| && rows[i] == ScanFailed(e) &&
          forall j :: 0 <= j < i ==> rows[j].Scanned? {
        var i :| 0 <= i < |rows| && rows[i] == ScanFailed(e) &&
          forall j :: 0 <= j < i ==> rows[j].Scanned?;
        if i < n {
          assert init[i] == ScanFailed(e);
        } else {
          assert forall j :: 0 <= j < n ==> init[j].Scanned?;
        }
      }
    }
  }

  /** A successful probe pairs every breach, in order, with the digests its table returned. */
  lemma {:induction false} ProbePairs(db: Database, field: string, pattern: string, bs: seq<BreachMetadata>)
    requires Probe(db, field, pattern, bs).Success?
    ensures var ps := Probe(db, field, pattern, bs).value;
      |ps| == |bs| &&
      forall i :: 0 <= i < |bs| ==>
        ps[i].0 == bs[i] && TableHashes(db, field, pattern, bs[i]) == Success(ps[i].1)
    decreases |bs|
  {
    if bs != [] {
      var init := bs[..|bs| - 1];
      ProbePairs(db, field, pattern, init);
      assert forall i :: 0 <= i < |init| ==> init[i] == bs[i];
    }
  }

  /** Appending `b` under the digests `hs`: the keys gained are the digests, each entry grows by `b` once per occurrence. */
  lemma {:induction false} AddAllEntries(m: Grouping, b: BreachMetadata, hs: seq<string>, h: string)
    ensures h in AddAll(m, b, hs) <==> h in m || h in hs
    ensures Lookup(AddAll(m, b, hs), h) == Lookup(m, h) + seq(Count(h, hs), _ => b)
    decreases |hs|
  {
    if hs != [] {
      var init := hs[..|hs| - 1];
      AddAllEntries(m, b, init, h);
      assert hs == init + [hs[|hs| - 1]];
      assert h in hs <==> h in init || h == hs[|hs| - 1];
    }
  }

  /** The grouped map holds exactly the digests returned, and under each the breaches that returned it, in order. */
  lemma {:induction false} GroupEntries(ps: seq<(BreachMetadata, seq<string>)>, h: string)
    ensures h in Group(ps) <==> exists i :: 0 <= i < |ps| && h in ps[i].1
    ensures Lookup(Group(ps), h) == Holding(ps, h)
    decreases |ps|
  {
    if ps != [] {
      var n := |ps| - 1;
      var init := ps[..n];
      GroupEntries(init, h);
      AddAllEntries(Group(init), ps[n].0, ps[n].1, h);
      assert forall i :: 0 <= i < n ==> init[i] == ps[i];
      if h in ps[n].1 {
        assert exists i :: 0 <= i < |ps| && h in ps[i].1;
      }
      if exists i :: 0 <= i < |ps| && h in ps[i].1 {
        var i :| 0 <= i < |ps| && h in ps[i].1;
        if i < n {
          assert h in init[i].1;
        }
      }
    }
  }

  /** In a sequence without repeats, a digest occurs once when present and not at all otherwise. */
  lemma {:induction false} CountDistinct(h: string, hs: seq<string>)
    requires Distinct(hs)
    ensures Count(h, hs) == if h in hs then 1 else 0
    decreases |hs|
  {
    if hs != [] {
      var init := hs[..|hs| - 1];
      assert Distinct(init);
      CountDistinct(h, init);
      assert hs == init + [hs[|hs| - 1]];
      if hs[|hs| - 1] == h {
        assert h !in init;
      }
    }
  }

  lemma {:induction false} DistinctScan(q: Rows<string>)
    requires RowsDistinct(q)
    requires Collect(q).Success?
    ensures Distinct(Collect(q).value)
  {
    ScanAllValues(q.rows);
  }

  /** With no candidate breaches the search answers the empty map. */
  lemma NoCandidatesNoMatches(db: Database, field: string, pattern: string)
    requires Collect(db.breachesWithField(field)) == Success([])
    ensures MatchesByHash(db, field, pattern) == Success(map[])
  {
  }

  /**
   * Under `SELECT DISTINCT`, the entry of a digest lists the candidate
   * breaches whose table returned it, each once, in the order the
   * metadata query returned them; the keys are exactly the digests returned.
   */
  lemma GroupedInCandidateOrder(db: Database, field: string, pattern: string, h: string)
    requires HonorsDistinct(db)
    requires MatchesByHash(db, field, pattern).Success?
    ensures Collect(db.breachesWithField(field)).Success?
    ensures var m := MatchesByHash(db, field, pattern).value;
      var bs := Collect(db.breachesWithField(field)).value;
      (h in m <==> exists i :: 0 <= i < |bs| && Returned(db, field, pattern, bs[i], h)) &&
      Lookup(m, h) == Returning(db, field, pattern, bs, h)
  {
    var bs := Collect(db.breachesWithField(field)).value;
    var ps := Probe(db, field, pattern, bs).value;
    ProbePairs(db, field, pattern, bs);
    GroupEntries(ps, h);
    HoldingIsReturning(db, field, pattern, bs, ps, h);
    if exists i :: 0 <= i < |ps| && h in ps[i].1 {
      var i :| 0 <= i < |ps| && h in ps[i].1;
      assert Returned(db, field, pattern, bs[i], h);
    }
    if exists i :: 0 <= i < |bs| && Returned(db, field, pattern, bs[i], h) {
      var i :| 0 <= i < |bs| && Returned(db, field, pattern, bs[i], h);
      assert h in ps[i].1;
    }
  }

  lemma {:induction false} HoldingIsReturning(db: Database, field: string, pattern: string,
                                              bs: seq<BreachMetadata>, ps: seq<(BreachMetadata, seq<string>)>, h: string)
    requires HonorsDistinct(db)
    requires |ps| == |bs|
    requires forall i :: 0 <= i < |bs| ==>
      ps[i].0 == bs[i] && TableHashes(db, field, pattern, bs[i]) == Success(ps[i].1)
    ensures Holding(ps, h) == Returning(db, field, pattern, bs, h)
    decreases |bs|
  {
    if bs != [] {
      var n := |bs| - 1;
      HoldingIsReturning(db, field, pattern, bs[..n], ps[..n], h);
      var b := bs[n];
      var q := db.distinctLike(field, b.name, pattern);
      assert RowsDistinct(q);
      DistinctScan(q);
      CountDistinct(h, ps[n].1);
      if h in ps[n].1 {
        assert seq(Count(h, ps[n].1), _ => ps[n].0) == [b];
      } else {
        assert seq(Count(h, ps[n].1), _ => ps[n].0) == [];
      }
    }
  }

  /** When the database honours `LIKE`, every digest in the answer satisfies the pattern searched with. */
  lemma KeysSatisfyPattern(db: Database, field: string, pattern: string, h: string)
    requires HonorsLike(db)
    requires MatchesByHash(db, field, pattern).Success?
    requires h in MatchesByHash(db, field, pattern).value
    ensures Like(h, pattern)
  {
    var bs := Collect(db.breachesWithField(field)).value;
    var ps := Probe(db, field, pattern, bs).value;
    ProbePairs(db, field, pattern, bs);
    GroupEntries(ps, h);
    var i :| 0 <= i < |ps| && h in ps[i].1;
    TableDigestSatisfiesPattern(db, field, pattern, bs[i], ps[i].1, h);
  }

  lemma TableDigestSatisfiesPattern(db: Database, field: string, pattern: string,
                                    b: BreachMetadata, hs: seq<string>, h: string)
    requires HonorsLike(db)
    requires TableHashes(db, field, pattern, b) == Success(hs)
    requires h in hs
    ensures Like(h, pattern)
  {
    var q := db.distinctLike(field, b.name, pattern);
    assert RowsSatisfy(q, pattern);
    ScanAllValues(q.rows);
    var k :| 0 <= k < |hs| && hs[k] == h;
    assert q.rows[k].Scanned? && q.rows[k].value == h;
  }

  /**
   * The search as written: when the database honours `LIKE` and the hash
   * holds no `LIKE` wildcard or escape character (as no hex digest prefix
   * does), every digest in the answer starts with the hash.
   */
  lemma KeysStartWithPrefix(db: Database, field: string, hash: string, h: string)
    requires HonorsLike(db)
    requires LikeLiteral(hash)
    requires MatchesByHash(db, field, AsWrittenPattern(hash)).Success?
    requires h in MatchesByHash(db, field, AsWrittenPattern(hash)).value
    ensures hash <= h
  {
    KeysSatisfyPattern(db, field, AsWrittenPattern(hash), h);
    LiteralPrefixMatches(h, hash);
  }

  /** The corrected search, with the hash escaped: every digest in the answer starts with the hash, whatever it holds. */
  lemma EscapedKeysStartWithPrefix(db: Database, field: string, hash: string, h: string)
    requires HonorsLike(db)
    requires MatchesByHash(db, field, PrefixPattern(hash)).Success?
    requires h in MatchesByHash(db, field, PrefixPattern(hash)).value
    ensures hash <= h
  {
    KeysSatisfyPattern(db, field, PrefixPattern(hash), h);
    EscapedPatternMatchesPrefix(h, hash);
  }

  /** A database holding one breach `b` whose table holds the one digest "a", honouring `LIKE`. */
  function OneDigestDatabase(b: BreachMetadata): Database {
    Database(
      _ => Rows([Scanned(b)]),
      (column, table, pattern) => if Like("a", pattern) then Rows([Scanned("a")]) else Rows([]))
  }

  /**
   * The search as written, asked for the hash "_", answers the digest "a",
   * which does not start with "_"; the corrected search answers nothing.
   */
  lemma UnderscoreHashSearchReturnsOtherDigest(b: BreachMetadata)
    ensures HonorsLike(OneDigestDatabase(b)) && HonorsDistinct(OneDigestDatabase(b))
    ensures MatchesByHash(OneDigestDatabase(b), "password", AsWrittenPattern("_")) == Success(map["a" := [b]])
    ensures !("_" <= "a")
    ensures MatchesByHash(OneDigestDatabase(b), "password", PrefixPattern("_")) == Success(map[])
  {
    OneDigestHonorsLike(b);
    var db := OneDigestDatabase(b);
    UnderscoreHashMatchesOtherKeys();
    EscapedPatternMatchesPrefix("a", "_");
    ScanSingle(b);
    ScanSingle("a");
    OneBreachSearch(db, "password", AsWrittenPattern("_"), b, ["a"]);
    assert ["a"][..0] == [];
    OneBreachSearch(db, "password", PrefixPattern("_"), b, []);
  }

  lemma OneDigestHonorsLike(b: BreachMetadata)
    ensures HonorsLike(OneDigestDatabase(b)) && HonorsDistinct(OneDigestDatabase(b))
  {
    var db := OneDigestDatabase(b);
    forall column, table, pattern ensures RowsSatisfy(db.distinctLike(column, table, pattern), pattern) {
    }
  }

  /** A search with a single candidate breach answers that breach under each digest its table returns. */
  lemma OneBreachSearch(db: Database, field: string, pattern: string, b: BreachMetadata, hs: seq<string>)
    requires Collect(db.breachesWithField(field)) == Success([b])
    requires TableHashes(db, field, pattern, b) == Success(hs)
    ensures MatchesByHash(db, field, pattern) == Success(AddAll(map[], b, hs))
  {
    var bs := [b];
    var noPairs: seq<(BreachMetadata, seq<string>)> := [];
    assert bs[..0] == [] && bs[..1] == bs;
    ProbeExtends(db, field, pattern, bs, 0, noPairs);
    GroupExtends(noPairs, b, hs);
    assert noPairs + [(b, hs)] == [(b, hs)];
  }

  lemma ScanSingle<T>(v: T)
    ensures ScanAll([Scanned(v)]) == Success([v])
  {
    var rows := [Scanned(v)];
    assert rows[..|rows| - 1] == [];
    var none: seq<T> := [];
    assert ScanAll(rows[..|rows| - 1]) == Success(none);
    assert none + [v] == [v];
  }

  /** Every breach listed under a digest is one of the breaches paired in the probe. */
  lemma {:induction false} HoldingFromPairs(ps: seq<(BreachMetadata, seq<string>)>, h: string, k: nat)
    requires k < |Holding(ps, h)|
    ensures exists i :: 0 <= i < |ps| && ps[i].0 == Holding(ps, h)[k]
    decreases |ps|
  {
    var n := |ps| - 1;
    var init := ps[..n];
    if k < |Holding(init, h)| {
      HoldingFromPairs(init, h, k);
      var i :| 0 <= i < |init| && init[i].0 == Holding(init, h)[k];
      assert ps[i] == init[i];
    } else {
      assert Holding(ps, h)[k] == ps[n].0;
    }
  }

  /** When the metadata query honours its field filter, every breach in the answer holds the searched field. */
  lemma EntriesHoldSearchedField(db: Database, field: string, pattern: string, h: string, k: nat)
    requires HonorsFieldFilter(db)
    requires MatchesByHash(db, field, pattern).Success?
    requires h in MatchesByHash(db, field, pattern).value
    requires k < |MatchesByHash(db, field, pattern).value[h]|
    ensures field in MatchesByHash(db, field, pattern).value[h][k].fields
  {
    var q := db.breachesWithField(field);
    var bs := Collect(q).value;
    var ps := Probe(db, field, pattern, bs).value;
    ProbePairs(db, field, pattern, bs);
    GroupEntries(ps, h);
    HoldingFromPairs(ps, h, k);
    var i :| 0 <= i < |ps| && ps[i].0 == Holding(ps, h)[k];
    ScanAllValues(q.rows);
    assert RowsHoldField(q, field);
    assert bs[i] == q.rows[i].value;
  }

  /** The search of the table of `bs[i]` is the first to fail, and it fails with `e`. */
  predicate FirstTableFailure(db: Database, field: string, pattern: string, bs: seq<BreachMetadata>, i: int, e: Error) {
    && 0 <= i < |bs|
    && TableHashes(db, field, pattern, bs[i]) == Failure(e)
    && forall j :: 0 <= j < i ==> TableHashes(db, field, pattern, bs[j]).Success?
  }

  /** The probe succeeds when every table's search succeeds. */
  lemma {:induction false} ProbeSucceeds(db: Database, field: string, pattern: string, bs: seq<BreachMetadata>)
    requires forall j :: 0 <= j < |bs| ==> TableHashes(db, field, pattern, bs[j]).Success?
    ensures Probe(db, field, pattern, bs).Success?
    decreases |bs|
  {
    if bs != [] {
      var init := bs[..|bs| - 1];
      assert forall j :: 0 <= j < |init| ==> init[j] == bs[j];
      ProbeSucceeds(db, field, pattern, init);
    }
  }

  /** A failed probe reports the error of the first table whose search failed. */
  lemma {:induction false} ProbeFailureIsFirst(db: Database, field: string, pattern: string, bs: seq<BreachMetadata>, e: Error)
    requires Probe(db, field, pattern, bs) == Failure(e)
    ensures exists i :: FirstTableFailure(db, field, pattern, bs, i, e)
    decreases |bs|
  {
    var n := |bs| - 1;
    var init := bs[..n];
    assert forall j :: 0 <= j < n ==> init[j] == bs[j];
    if Probe(db, field, pattern, init).Failure? {
      ProbeFailureIsFirst(db, field, pattern, init, e);
      var i :| FirstTableFailure(db, field, pattern, init, i, e);
      assert FirstTableFailure(db, field, pattern, bs, i, e);
    } else {
      ProbePairs(db, field, pattern, init);
      assert FirstTableFailure(db, field, pattern, bs, n, e);
    }
  }

  /** The first table whose search fails decides the probe's error. */
  lemma {:induction false} FirstFailureFailsProbe(db: Database, field: string, pattern: string, bs: seq<BreachMetadata>, i: int, e: Error)
    requires FirstTableFailure(db, field, pattern, bs, i, e)
    ensures Probe(db, field, pattern, bs) == Failure(e)
    decreases |bs|
  {
    var n := |bs| - 1;
    var init := bs[..n];
    assert forall j :: 0 <= j < n ==> init[j] == bs[j];
    if i < n {
      assert FirstTableFailure(db, field, pattern, init, i, e);
      FirstFailureFailsProbe(db, field, pattern, init, i, e);
    } else {
      ProbeSucceeds(db, field, pattern, init);
    }
  }

  /**
   * The search fails with `e` exactly when the metadata query or one of its
   * rows fails with `e`, or, every candidate scanned, the first per-table
   * search to fail fails with `e`.
   */
  lemma SearchFailsWithFirstError(db: Database, field: string, pattern: string, e: Error)
    ensures MatchesByHash(db, field, pattern) == Failure(e) <==>
      Collect(db.breachesWithField(field)) == Failure(e) ||
      (Collect(db.breachesWithField(field)).Success? &&
       var bs := Collect(db.breachesWithField(field)).value;
       exists i :: FirstTableFailure(db, field, pattern, bs, i, e))
  {
    if Collect(db.breachesWithField(field)).Success? {
      var bs := Collect(db.breachesWithField(field)).value;
      if Probe(db, field, pattern, bs) == Failure(e) {
        ProbeFailureIsFirst(db, field, pattern, bs, e);
      }
      if exists i :: FirstTableFailure(db, field, pattern, bs, i, e) {
        var i :| FirstTableFailure(db, field, pattern, bs, i, e);
        FirstFailureFailsProbe(db, field, pattern, bs, i, e);
      }
    }
  }
}
