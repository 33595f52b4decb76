/**
 * The registry of drafts: a map from draft id to the draft's mutable record,
 * living for as long as the server does.
 */
module DraftState {
  import opened Options
  import opened Players
  import opened DraftLogic
  import opened DraftRecord

  /** A string longer than every key: a witness that a fresh key exists. */
  ghost function LongerThanAll(keys: set<string>): (w: string)
    ensures forall k :: k in keys ==> |k| < |w|
  {
    if keys == {} then ""
    else
      var k :| k in keys;
      var rest := LongerThanAll(keys - {k});
      if |k| < |rest| then rest else k + "#"
  }

  /** Some key not in `keys`: uuid4 is modelled only as producing a key not used yet. */
  method FreshKey(keys: set<string>) returns (k: string)
    ensures k !in keys
  {
    ghost var w := LongerThanAll(keys);
    assert w !in keys;
    k :| k !in keys;
  }

  /** Every record of `drafts` is valid, belongs to `catalog` and sits under one id only. */
  ghost predicate AllValid(drafts: map<string, Draft>, catalog: Catalog)
    reads drafts.Values
  {
    && (forall id :: id in drafts ==> drafts[id].catalog == catalog && drafts[id].Linked() && drafts[id].Valid())
    && (forall a, b :: a in drafts && b in drafts && a != b ==> drafts[a] != drafts[b])
  }

  class Registry {
    /** The player catalog every draft reads from. */
    const catalog: Catalog
    var drafts: map<string, Draft>

    /** Every record is valid and belongs to this catalog, and no record sits under two ids. */
    ghost predicate Valid()
      reads this, drafts.Values
    {
      && WellFormed(catalog)
      && AllValid(drafts, catalog)
    }

    /** The empty registry of a server that has just started. */
    constructor (catalog: Catalog)
      requires WellFormed(catalog)
      ensures Valid()
      ensures this.catalog == catalog && drafts == map[]
    {
      this.catalog := catalog;
      drafts := map[];
    }

    /** The record stored under `id`, if any. */
    function GetDraft(id: string): (r: Option<Draft>)
      reads this
      ensures r.None? <==> id !in drafts
      ensures r.Some? ==> id in drafts && drafts[id] == r.value
    {
      if id in drafts then Some(drafts[id]) else None
    }

    /**
     * Creates a draft for `year` and `team` under a key no existing draft uses
     * and returns that key. The new record starts at index 0, round 1, pick 1,
     * status Simulating, with every id of the year available and every slot of
     * the year's draft order unfilled; the other drafts are left as they were.
     * The year must have catalog rows: building the record of any other year
     * fails before anything is stored.
     */
    method CreateDraft(year: int, team: string) returns (id: string)
      requires Valid() && YearPresent(catalog, year)
      modifies this
      ensures Valid()
      ensures id !in old(drafts) && id in drafts
      ensures drafts == old(drafts)[id := drafts[id]]
      ensures fresh(drafts[id])
      ensures GetDraft(id) == Some(drafts[id])
      ensures var d := drafts[id];
        && d.catalog == catalog && d.year == year && d.userTeam == team
        && d.index == 0 && d.round == 1 && d.pick == 1 && d.status == Simulating
        && d.available == PlayerIdsByYear(catalog, year)
        && d.order == DraftOrderByYear(catalog, year)
        && (forall i :: 0 <= i < |d.order| ==> d.order[i].playerId == None)
    {
      id := FreshKey(drafts.Keys);
      var d := new Draft(catalog, year, team);
      Store(id, d);
    }

    /** Stores the valid record `d`, which no id maps to yet, under the unused key `id`. */
    method Store(id: string, d: Draft)
      requires Valid() && id !in drafts
      requires d.catalog == catalog && d.Linked() && d.Valid() && d !in drafts.Values
      modifies this
      ensures Valid()
      ensures drafts == old(drafts)[id := d]
    {
      drafts := drafts[id := d];
    }
  }
}
