/**
 * The player catalog that the draft engine reads: an immutable table of
 * players, each tagged with a draft year, the historical draft slot it filled
 * (overall, round, pick, team) and two ranking columns. The loader that
 * builds it from CSV files is not part of this model; the catalog is an
 * input value.
 */
module Players {
  import opened Options

  /** One catalog row. Missing (NaN) columns are `None`. */
  datatype Player = Player(
    id: int,
    year: int,
    overall: Option<int>,
    round: int,
    pick: int,
    team: Option<string>,
    position: Option<string>,
    posRk: Option<int>,
    ovrRk: Option<int>)

  type Catalog = seq<Player>

  /**
   * Assumed of the catalog: within one year no two rows share a player id.
   * The year's table is indexed by id, but nothing makes that index unique.
   */
  ghost predicate WellFormed(catalog: Catalog) {
    forall i, j :: 0 <= i < j < |catalog| && catalog[i].year == catalog[j].year ==> catalog[i].id != catalog[j].id
  }

  ghost predicate DistinctIds(ps: seq<Player>) {
    forall i, j :: 0 <= i < j < |ps| ==> ps[i].id != ps[j].id
  }

  /** The rows of one draft year, in catalog order. */
  function PlayersOfYear(catalog: Catalog, year: int): (r: seq<Player>)
    ensures |r| <= |catalog|
    ensures forall p :: p in r <==> p in catalog && p.year == year
  {
    if catalog == [] then []
    else (if catalog[0].year == year then [catalog[0]] else []) + PlayersOfYear(catalog[1..], year)
  }

  /** A year is known to the catalog when it has at least one row. */
  predicate YearPresent(catalog: Catalog, year: int) {
    PlayersOfYear(catalog, year) != []
  }

  /** The set of ids of a sequence of rows. */
  function IdSet(ps: seq<Player>): set<int> {
    if ps == [] then {} else {ps[0].id} + IdSet(ps[1..])
  }

  /** An id is in IdSet exactly when some row carries it. */
  lemma {:induction false} IdSetMembership(ps: seq<Player>, x: int)
    ensures x in IdSet(ps) <==> exists p :: p in ps && p.id == x
  {
    if ps != [] {
      IdSetMembership(ps[1..], x);
      assert forall p :: p in ps <==> p == ps[0] || p in ps[1..];
    }
  }

  lemma {:induction false} PlayersOfYearDistinct(catalog: Catalog, year: int)
    requires WellFormed(catalog)
    ensures DistinctIds(PlayersOfYear(catalog, year))
  {
    if catalog != [] {
      var tail := catalog[1..];
      assert WellFormed(tail) by {
        forall i, j | 0 <= i < j < |tail| && tail[i].year == tail[j].year
          ensures tail[i].id != tail[j].id
        {
          assert tail[i] == catalog[i + 1] && tail[j] == catalog[j + 1];
        }
      }
      PlayersOfYearDistinct(tail, year);
      var rest := PlayersOfYear(tail, year);
      if catalog[0].year == year {
        var r := [catalog[0]] + rest;
        forall i, j | 0 <= i < j < |r| ensures r[i].id != r[j].id {
          if i == 0 {
            assert r[j] == rest[j - 1];
            assert rest[j - 1] in tail;
            var k :| 0 <= k < |tail| && tail[k] == rest[j - 1];
            assert catalog[k + 1] == rest[j - 1];
          } else {
            assert r[i] == rest[i - 1] && r[j] == rest[j - 1];
          }
        }
      } else {
        assert PlayersOfYear(catalog, year) == rest;
      }
    }
  }

  /** Rows with distinct ids have as many ids as rows. */
  lemma {:induction false} IdSetSize(ps: seq<Player>)
    requires DistinctIds(ps)
    ensures |IdSet(ps)| == |ps|
  {
    if ps != [] {
      var tail := ps[1..];
      assert DistinctIds(tail) by {
        forall i, j | 0 <= i < j < |tail| ensures tail[i].id != tail[j].id {
          assert tail[i] == ps[i + 1] && tail[j] == ps[j + 1];
        }
      }
      IdSetSize(tail);
      IdSetMembership(tail, ps[0].id);
      assert ps[0].id !in IdSet(tail);
    }
  }
}
