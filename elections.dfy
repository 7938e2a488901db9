/**
 * ElectionService: the leaf store. It owns the election table, lists
 * elections by status, resolves one active election by id (the reference
 * check the candidate store relies on), overwrites the supplied fields of an
 * active election and soft-deletes it.
 */
module Elections {
  import opened Outcomes
  import opened Errors
  import opened Pagination
  import Tables

  type Id = Tables.Id

  /** Start and end dates are opaque instants. */
  type Timestamp = int

  datatype Status = Pending | Open | Calculating | Completed

  /** The fields of an election, and the payload that creates one. */
  datatype ElectionFields = ElectionFields(
    name: string,
    description: string,
    startDate: Timestamp,
    endDate: Timestamp,
    status: Status)

  type Election = Tables.Row<ElectionFields>

  /** The update payload: the target's id and any subset of the fields. */
  datatype UpdateElectionDto = UpdateElectionDto(
    id: Id,
    name: Option<string>,
    description: Option<string>,
    startDate: Option<Timestamp>,
    endDate: Option<Timestamp>,
    status: Option<Status>)

  /** The update payload with its id stripped: what is written. */
  datatype ElectionPatch = ElectionPatch(
    name: Option<string>,
    description: Option<string>,
    startDate: Option<Timestamp>,
    endDate: Option<Timestamp>,
    status: Option<Status>)

  /** The payload with its id dropped: every other field, as supplied. */
  function Strip(dto: UpdateElectionDto): (p: ElectionPatch)
    ensures p.name == dto.name && p.description == dto.description && p.status == dto.status
    ensures p.startDate == dto.startDate && p.endDate == dto.endDate
  {
    ElectionPatch(dto.name, dto.description, dto.startDate, dto.endDate, dto.status)
  }

  /** Per-field partial update: a supplied field takes its new value, an absent one keeps the old. */
  function Patched(d: ElectionFields, p: ElectionPatch): (r: ElectionFields)
    ensures p.name.Some? ==> r.name == p.name.value
    ensures p.name.None? ==> r.name == d.name
    ensures p.description.Some? ==> r.description == p.description.value
    ensures p.description.None? ==> r.description == d.description
    ensures p.startDate.Some? ==> r.startDate == p.startDate.value
    ensures p.startDate.None? ==> r.startDate == d.startDate
    ensures p.endDate.Some? ==> r.endDate == p.endDate.value
    ensures p.endDate.None? ==> r.endDate == d.endDate
    ensures p.status.Some? ==> r.status == p.status.value
    ensures p.status.None? ==> r.status == d.status
  {
    ElectionFields(Or(p.name, d.name), Or(p.description, d.description),
                   Or(p.startDate, d.startDate), Or(p.endDate, d.endDate), Or(p.status, d.status))
  }

  /** The status filter of findAll: no status lets every election through, a status only elections in it. */
  function WithStatus(status: Option<Status>): (pass: ElectionFields -> bool)
    ensures status.None? ==> forall d :: pass(d)
    ensures status.Some? ==> forall d :: pass(d) <==> d.status == status.value
  {
    (d: ElectionFields) => status.None? || d.status == status.value
  }

  class ElectionService {
    var table: Tables.Table<ElectionFields>

    ghost predicate Valid()
      reads this
    {
      Tables.Valid(table)
    }

    constructor ()
      ensures Valid() && table == Tables.Empty()
    {
      table := Tables.Empty();
    }

    /**
     * create: insert the payload under the id the store generates, active.
     * The insert is not awaited, so a rejected insert is not seen by the
     * catch block and escapes as a raw fault.
     */
    method Create(dto: ElectionFields, newId: Id, storeFails: bool) returns (r: Result<Election, Fault>)
      requires Valid()
      modifies this
      ensures Valid() && Tables.Evolves(old(table), table)
      ensures r.Success? <==> !storeFails && newId !in old(table.rows)
      ensures r.Success? ==> r.value == Tables.Row(newId, dto, true) && table == Tables.Insert(old(table), r.value)
      ensures r.Failure? ==> table == old(table) && r.error.Raw?
      ensures r.Failure? && !storeFails ==> r.error == Raw(UniqueViolation)
    {
      var created := Tables.Row(newId, dto, true);
      var inserted := Tables.TryInsert(table, created, storeFails);
      if inserted.Success? {
        table := inserted.value;
        r := Success(created);
      } else {
        r := Failure(Raw(inserted.error));
      }
    }

    /**
     * findAll: the active elections with the given status, one page of them
     * in creation order, with total and lastPage. There is no catch block:
     * a failing query escapes as a raw fault.
     */
    function FindAll(status: Option<Status>, page: Positive, limit: Positive, storeFails: bool): (r: Result<Page<Election>, Fault>)
      reads this
      requires Valid()
      ensures r.Failure? <==> storeFails
      ensures r.Failure? ==> r.error == Raw(StoreFailure)
      ensures r.Success? ==>
                && r.value.meta.total == Tables.Count(table, WithStatus(status))
                && r.value.meta.page == page
                && r.value.meta.total <= r.value.meta.lastPage * limit
                && (r.value.meta.lastPage - 1) * limit < r.value.meta.total
                && (page > r.value.meta.lastPage ==> r.value.data == [])
                && (page < r.value.meta.lastPage ==> |r.value.data| == limit)
      ensures r.Success? ==>
                var m := Tables.Matching(table, WithStatus(status));
                && |r.value.data| == (if |m| <= Offset(page, limit) then 0 else Min(limit, |m| - Offset(page, limit)))
                && forall k :: 0 <= k < |r.value.data| ==> r.value.data[k] == m[Offset(page, limit) + k]
      ensures r.Success? ==> forall k :: 0 <= k < |r.value.data| ==>
                var e := r.value.data[k];
                e.isActive && (status.Some? ==> e.data.status == status.value) && e.id in table.rows && table.rows[e.id] == e
    {
      if storeFails then Failure(Raw(StoreFailure))
      else
        var p := Tables.Query(table, WithStatus(status), page, limit);
        assert forall k :: 0 <= k < |p.data| ==> WithStatus(status)(p.data[k].data);
        Success(p)
    }

    /**
     * findOne: the election with this id if it is active. A missing and an
     * inactive id fail alike, with NotFound. There is no catch block: a
     * failing lookup escapes as a raw fault.
     */
    function FindOne(id: Id, lookupFails: bool): (r: Result<Election, Fault>)
      reads this
      ensures lookupFails ==> r == Failure(Raw(StoreFailure))
      ensures !lookupFails ==> (r.Success? <==> Tables.Visible(table, id))
      ensures r.Success? ==> r.value == table.rows[id] && r.value.isActive
      ensures !lookupFails && r.Failure? ==> r.error == Rpc(NotFound(ElectionRecord))
    {
      if lookupFails then Failure(Raw(StoreFailure))
      else
        match Tables.FindUnique(table, id)
        case Some(e) => Success(e)
        case None => Failure(Rpc(NotFound(ElectionRecord)))
    }

    /**
     * update: re-resolve the election through findOne, then overwrite the
     * supplied fields. The payload's own id is stripped, so the row keeps its
     * id. NotFound passes through; a failing lookup or write becomes
     * UpdateFailed.
     */
    method Update(id: Id, dto: UpdateElectionDto, lookupFails: bool, storeFails: bool) returns (r: Result<Election, RpcError>)
      requires Valid()
      modifies this
      ensures Valid() && Tables.Evolves(old(table), table)
      ensures lookupFails ==> r == Failure(UpdateFailed(ElectionRecord)) && table == old(table)
      ensures !lookupFails && !old(Tables.Visible(table, id)) ==>
                r == Failure(NotFound(ElectionRecord)) && table == old(table)
      ensures !lookupFails && old(Tables.Visible(table, id)) && storeFails ==>
                r == Failure(UpdateFailed(ElectionRecord)) && table == old(table)
      ensures !lookupFails && old(Tables.Visible(table, id)) && !storeFails ==>
                && r == Success(Tables.Row(id, Patched(old(table.rows[id].data), Strip(dto)), true))
                && table == Tables.Replace(old(table), r.value)
    {
      var data := Strip(dto);
      var attempt: Result<Election, Fault>;
      var found := FindOne(id, lookupFails);
      if found.Failure? {
        attempt := Failure(found.error);
      } else {
        var updated := found.value.(data := Patched(found.value.data, data));
        var written := Tables.TryReplace(table, updated, storeFails);
        if written.Success? {
          table := written.value;
          attempt := Success(updated);
        } else {
          attempt := Failure(Raw(written.error));
        }
      }
      r := Catch(attempt, UpdateFailed(ElectionRecord));
    }

    /**
     * remove: re-resolve the election through findOne, then set is_active to
     * false. The row stays. NotFound passes through; a failing lookup or
     * write becomes RemovalFailed.
     */
    method Remove(id: Id, lookupFails: bool, storeFails: bool) returns (r: Result<Election, RpcError>)
      requires Valid()
      modifies this
      ensures Valid() && Tables.Evolves(old(table), table)
      ensures lookupFails ==> r == Failure(RemovalFailed(ElectionRecord)) && table == old(table)
      ensures !lookupFails && !old(Tables.Visible(table, id)) ==>
                r == Failure(NotFound(ElectionRecord)) && table == old(table)
      ensures !lookupFails && old(Tables.Visible(table, id)) && storeFails ==>
                r == Failure(RemovalFailed(ElectionRecord)) && table == old(table)
      ensures !lookupFails && old(Tables.Visible(table, id)) && !storeFails ==>
                && r == Success(old(table.rows[id]).(isActive := false))
                && table == Tables.Replace(old(table), r.value)
                && !Tables.Visible(table, id)
    {
      var attempt: Result<Election, Fault>;
      var found := FindOne(id, lookupFails);
      if found.Failure? {
        attempt := Failure(found.error);
      } else {
        var removed := found.value.(isActive := false);
        var written := Tables.TryReplace(table, removed, storeFails);
        if written.Success? {
          table := written.value;
          attempt := Success(removed);
        } else {
          attempt := Failure(Raw(written.error));
        }
      }
      r := Catch(attempt, RemovalFailed(ElectionRecord));
    }
  }
}
