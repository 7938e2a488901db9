/**
 * One soft-delete table, shared in shape by the election and the candidate
 * store: rows keyed by id, each carrying an `is_active` flag, plus the
 * creation order in which listings return them. The persistence calls the
 * services make (findUnique, count, findMany, create, update) are ordinary
 * operations on this value.
 */
module Tables {
  import opened Outcomes
  import opened Errors
  import opened Pagination

  /** Opaque identifiers (UUID strings); payload validation rules out the empty string. */
  type Id = s: string | s != "" witness "id"

  /** A stored record: its id, its entity-specific fields and the soft-delete flag. */
  datatype Row<F> = Row(id: Id, data: F, isActive: bool)

  /** The rows by id, and every id in creation order (the order listings return). */
  datatype Table<F> = Table(rows: map<Id, Row<F>>, order: seq<Id>)

  function Empty<F>(): (t: Table<F>)
    ensures Valid(t) && t.rows == map[]
  {
    Table(map[], [])
  }

  predicate Distinct(ids: seq<Id>)
  {
    forall i, j :: 0 <= i < j < |ids| ==> ids[i] != ids[j]
  }

  /** Every row is stored under its own id. */
  predicate Keyed<F>(t: Table<F>)
  {
    forall id :: id in t.rows ==> t.rows[id].id == id
  }

  /** The table invariant: the creation order lists every stored id exactly once. */
  ghost predicate Valid<F>(t: Table<F>)
  {
    && Keyed(t)
    && Distinct(t.order)
    && (forall id :: id in t.rows <==> id in t.order)
  }

  /**
   * The soft-delete rule, defined once for both stores: a row can be seen by
   * readers and by reference checks exactly when it is present and active.
   */
  predicate Visible<F>(t: Table<F>, id: Id): (seen: bool)
    ensures seen ==> id in t.rows && t.rows[id].isActive
    ensures id !in t.rows ==> !seen
  {
    id in t.rows && t.rows[id].isActive
  }

  /**
   * How a table may change over time: creation order is append-only, no row
   * is ever erased, and an inactive row is never touched again (INACTIVE is
   * terminal).
   */
  ghost predicate Evolves<F>(before: Table<F>, after: Table<F>)
  {
    && before.order <= after.order
    && before.rows.Keys <= after.rows.Keys
    && forall id :: id in before.rows && !before.rows[id].isActive ==>
         id in after.rows && after.rows[id] == before.rows[id]
  }

  /** The unique lookup by id, restricted to active rows. */
  function FindUnique<F>(t: Table<F>, id: Id): (r: Option<Row<F>>)
    ensures r.Some? <==> Visible(t, id)
    ensures r.Some? ==> r.value == t.rows[id] && r.value.isActive
    ensures Keyed(t) && r.Some? ==> r.value.id == id
  {
    if Visible(t, id) then Some(t.rows[id]) else None
  }

  /** An inactive row reads exactly like a row that was never stored. */
  lemma InactiveLooksAbsent<F>(t: Table<F>, id: Id)
    requires id in t.rows && !t.rows[id].isActive
    ensures FindUnique(t, id) == FindUnique(Table(t.rows - {id}, t.order), id) == None
  {
  }

  /** The persistence layer's insert of a fresh row (the store fills in `is_active`). */
  function Insert<F>(t: Table<F>, row: Row<F>): (r: Table<F>)
    requires Valid(t) && row.id !in t.rows
    ensures Valid(r) && Evolves(t, r)
    ensures r.rows.Keys == t.rows.Keys + {row.id} && |r.rows| == |t.rows| + 1
    ensures r.rows[row.id] == row
    ensures forall id :: id in t.rows ==> r.rows[id] == t.rows[id]
    ensures r.order == t.order + [row.id]
  {
    var order := t.order + [row.id];
    assert forall i :: 0 <= i < |t.order| ==> order[i] == t.order[i];
    Table(t.rows[row.id := row], order)
  }

  /** The persistence layer's update of an existing row by id. */
  function Replace<F>(t: Table<F>, row: Row<F>): (r: Table<F>)
    requires Valid(t) && row.id in t.rows
    ensures Valid(r)
    ensures r.rows.Keys == t.rows.Keys && r.order == t.order
    ensures r.rows[row.id] == row
    ensures forall id :: id in t.rows && id != row.id ==> r.rows[id] == t.rows[id]
    ensures t.rows[row.id].isActive ==> Evolves(t, r)
  {
    Table(t.rows[row.id := row], t.order)
  }

  /** create() as a call that can fail: a reused id or a store failure leaves the table as it was. */
  function TryInsert<F>(t: Table<F>, row: Row<F>, storeFails: bool): (r: Result<Table<F>, DbFault>)
    requires Valid(t)
    ensures r.Success? <==> !storeFails && row.id !in t.rows
    ensures r.Success? ==> r.value == Insert(t, row)
    ensures r.Failure? && !storeFails ==> r.error == UniqueViolation
  {
    if storeFails then Failure(StoreFailure)
    else if row.id in t.rows then Failure(UniqueViolation)
    else Success(Insert(t, row))
  }

  /** The update by id as a call that can fail: an unknown id or a store failure leaves the table as it was. */
  function TryReplace<F>(t: Table<F>, row: Row<F>, storeFails: bool): (r: Result<Table<F>, DbFault>)
    requires Valid(t)
    ensures r.Success? <==> !storeFails && row.id in t.rows
    ensures r.Success? ==> r.value == Replace(t, row)
    ensures r.Failure? && !storeFails ==> r.error == RecordMissing
  {
    if storeFails then Failure(StoreFailure)
    else if row.id !in t.rows then Failure(RecordMissing)
    else Success(Replace(t, row))
  }

  /** A row shows up in a listing with filter `keep` when it is visible and passes the filter. */
  predicate Shown<F>(t: Table<F>, keep: F -> bool, id: Id)
  {
    Visible(t, id) && keep(t.rows[id].data)
  }

  /** The count query: the number of visible rows passing the filter. */
  function Count<F>(t: Table<F>, keep: F -> bool): (c: nat)
    ensures c <= |t.rows|
    ensures c == 0 <==> forall id :: id in t.rows ==> !Shown(t, keep, id)
  {
    var shown := set id | id in t.rows && Shown(t, keep, id);
    assert shown <= t.rows.Keys;
    SubsetCardinality(shown, t.rows.Keys);
    assert |t.rows.Keys| == |t.rows|;
    assert forall id :: id in t.rows && Shown(t, keep, id) ==> id in shown;
    assert |shown| == 0 <==> shown == {};
    |shown|
  }

  lemma SubsetCardinality(a: set<Id>, b: set<Id>)
    requires a <= b
    ensures |a| <= |b|
  {
    assert b == a + (b - a);
  }

  /** The rows named by `ids`, in that order, that are shown under `keep`. */
  function Listing<F>(t: Table<F>, keep: F -> bool, ids: seq<Id>): (r: seq<Row<F>>)
    requires Keyed(t)
    ensures |r| <= |ids|
    ensures forall k :: 0 <= k < |r| ==>
              r[k].id in ids && Shown(t, keep, r[k].id) && t.rows[r[k].id] == r[k]
    ensures forall id :: id in ids && Shown(t, keep, id) ==> t.rows[id] in r
  {
    if ids == [] then []
    else
      var rest := Listing(t, keep, ids[1..]);
      if Shown(t, keep, ids[0]) then [t.rows[ids[0]]] + rest else rest
  }

  /** The listing query before skip/take: visible rows passing the filter, in creation order. */
  function Matching<F>(t: Table<F>, keep: F -> bool): (r: seq<Row<F>>)
    requires Valid(t)
    ensures forall k :: 0 <= k < |r| ==> r[k].isActive && keep(r[k].data) && r[k].id in t.rows && t.rows[r[k].id] == r[k]
    ensures forall id :: Shown(t, keep, id) ==> t.rows[id] in r
  {
    Listing(t, keep, t.order)
  }

  /** A listing of distinct ids has one entry per shown id. */
  lemma {:induction false} ListingLength<F>(t: Table<F>, keep: F -> bool, ids: seq<Id>)
    requires Keyed(t) && Distinct(ids)
    ensures |Listing(t, keep, ids)| == |set id | id in ids && Shown(t, keep, id)|
  {
    var all := set id | id in ids && Shown(t, keep, id);
    if ids == [] {
      assert all == {};
    } else {
      var tail := ids[1..];
      assert Distinct(tail) by {
        forall i, j | 0 <= i < j < |tail| ensures tail[i] != tail[j] {
          assert tail[i] == ids[i + 1] && tail[j] == ids[j + 1];
        }
      }
      ListingLength(t, keep, tail);
      var rest := set id | id in tail && Shown(t, keep, id);
      assert ids[0] !in tail by {
        forall j | 0 <= j < |tail| ensures tail[j] != ids[0] {
          assert tail[j] == ids[j + 1];
        }
      }
      assert ids == [ids[0]] + tail;
      if Shown(t, keep, ids[0]) {
        assert all == rest + {ids[0]};
      } else {
        assert all == rest;
      }
    }
  }

  /** The count query and the listing agree: total is the length of the full listing. */
  lemma CountIsListingLength<F>(t: Table<F>, keep: F -> bool)
    requires Valid(t)
    ensures Count(t, keep) == |Matching(t, keep)|
  {
    ListingLength(t, keep, t.order);
    assert (set id | id in t.rows && Shown(t, keep, id)) == (set id | id in t.order && Shown(t, keep, id));
  }

  /** Soft-deleting a visible row hides it, and it alone, from every later listing. */
  lemma DeactivateHidesOne<F>(t: Table<F>, id: Id, keep: F -> bool)
    requires Valid(t) && Visible(t, id)
    ensures var after := Replace(t, t.rows[id].(isActive := false));
            && FindUnique(after, id) == None
            && Count(after, keep) == Count(t, keep) - (if keep(t.rows[id].data) then 1 else 0)
  {
    var after := Replace(t, t.rows[id].(isActive := false));
    var before := set x | x in t.rows && Shown(t, keep, x);
    var now := set x | x in after.rows && Shown(after, keep, x);
    assert now == before - {id};
    if keep(t.rows[id].data) {
      assert before == now + {id};
    } else {
      assert now == before;
    }
  }

  /** A paginated listing: count, findMany with skip/take, and the envelope around them. */
  function Query<F>(t: Table<F>, keep: F -> bool, page: Positive, limit: Positive): (p: Page<Row<F>>)
    requires Valid(t)
    ensures p.meta.total == Count(t, keep) && p.meta.page == page
    ensures p.meta.lastPage == LastPage(Count(t, keep), limit)
    ensures |p.data| <= limit
    ensures forall k :: 0 <= k < |p.data| ==>
              p.data[k].isActive && keep(p.data[k].data) && p.data[k].id in t.rows && t.rows[p.data[k].id] == p.data[k]
    ensures page > p.meta.lastPage ==> p.data == []
    ensures page < p.meta.lastPage ==> |p.data| == limit
    ensures var m := Matching(t, keep);
            && |p.data| == (if |m| <= Offset(page, limit) then 0 else Min(limit, |m| - Offset(page, limit)))
            && forall k :: 0 <= k < |p.data| ==> p.data[k] == m[Offset(page, limit) + k]
  {
    var listing := Matching(t, keep);
    CountIsListingLength(t, keep);
    PageShape(listing, page, limit);
    Paginate(Count(t, keep), listing, page, limit)
  }
}
