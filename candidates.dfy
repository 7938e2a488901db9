/**
 * CandidateService: the dependent store. Its shape mirrors the election
 * store, and every write that names an election first resolves it through
 * ElectionService.FindOne, failing closed when the election is missing or
 * inactive.
 */
module Candidates {
  import opened Outcomes
  import opened Errors
  import opened Pagination
  import Tables
  import Elections

  type Id = Tables.Id

  /** The fields of a candidate, and the payload that creates one. */
  datatype CandidateFields = CandidateFields(
    name: string,
    electionId: Id,
    party: string,
    imageUrl: string)

  type Candidate = Tables.Row<CandidateFields>

  /** The update payload: the target's id and any subset of the fields. */
  datatype UpdateCandidateDto = UpdateCandidateDto(
    id: Id,
    name: Option<string>,
    electionId: Option<Id>,
    party: Option<string>,
    imageUrl: Option<string>)

  /** The update payload with its id stripped: what is written. */
  datatype CandidatePatch = CandidatePatch(
    name: Option<string>,
    electionId: Option<Id>,
    party: Option<string>,
    imageUrl: Option<string>)

  /** The payload with its id dropped: every other field, as supplied. */
  function Strip(dto: UpdateCandidateDto): (p: CandidatePatch)
    ensures p.name == dto.name && p.electionId == dto.electionId
    ensures p.party == dto.party && p.imageUrl == dto.imageUrl
  {
    CandidatePatch(dto.name, dto.electionId, dto.party, dto.imageUrl)
  }

  /** Per-field partial update: a supplied field takes its new value, an absent one keeps the old. */
  function Patched(d: CandidateFields, p: CandidatePatch): (r: CandidateFields)
    ensures p.name.Some? ==> r.name == p.name.value
    ensures p.name.None? ==> r.name == d.name
    ensures p.electionId.Some? ==> r.electionId == p.electionId.value
    ensures p.electionId.None? ==> r.electionId == d.electionId
    ensures p.party.Some? ==> r.party == p.party.value
    ensures p.party.None? ==> r.party == d.party
    ensures p.imageUrl.Some? ==> r.imageUrl == p.imageUrl.value
    ensures p.imageUrl.None? ==> r.imageUrl == d.imageUrl
  {
    CandidateFields(Or(p.name, d.name), Or(p.electionId, d.electionId), Or(p.party, d.party), Or(p.imageUrl, d.imageUrl))
  }

  /** The election filter of findAll: no id lets every candidate through, an id only that election's candidates. */
  function OfElection(electionId: Option<Id>): (pass: CandidateFields -> bool)
    ensures electionId.None? ==> forall d :: pass(d)
    ensures electionId.Some? ==> forall d :: pass(d) <==> d.electionId == electionId.value
  {
    (d: CandidateFields) => electionId.None? || d.electionId == electionId.value
  }

  class CandidateService {
    var table: Tables.Table<CandidateFields>
    const elections: Elections.ElectionService

    /**
     * The table invariant, and no dangling reference: every candidate names
     * an election row that exists. Deletion is soft on both sides, so a
     * reference checked at write time keeps naming a stored row, though that
     * election may since have become inactive.
     */
    ghost predicate Valid()
      reads this, elections
    {
      && Tables.Valid(table)
      && forall id :: id in table.rows ==> table.rows[id].data.electionId in elections.table.rows
    }

    constructor (elections: Elections.ElectionService)
      ensures Valid() && this.elections == elections && table == Tables.Empty()
    {
      this.elections := elections;
      table := Tables.Empty();
    }

    /**
     * create: resolve the election through ElectionService.FindOne, then
     * insert the payload under the id the store generates, active. The
     * election's NotFound passes through unchanged; a failing election
     * lookup or insert becomes CreationFailed.
     */
    method Create(dto: CandidateFields, newId: Id, electionLookupFails: bool, storeFails: bool)
      returns (r: Result<Candidate, RpcError>)
      requires Valid()
      modifies this
      ensures Valid() && Tables.Evolves(old(table), table)
      ensures electionLookupFails ==> r == Failure(CreationFailed(CandidateRecord)) && table == old(table)
      ensures !electionLookupFails && !Tables.Visible(elections.table, dto.electionId) ==>
                r == Failure(NotFound(ElectionRecord)) && table == old(table)
      ensures !electionLookupFails && Tables.Visible(elections.table, dto.electionId) && (storeFails || newId in old(table.rows)) ==>
                r == Failure(CreationFailed(CandidateRecord)) && table == old(table)
      ensures r.Success? <==>
                !electionLookupFails && Tables.Visible(elections.table, dto.electionId) && !storeFails && newId !in old(table.rows)
      ensures r.Success? ==> r.value == Tables.Row(newId, dto, true) && table == Tables.Insert(old(table), r.value)
    {
      var attempt: Result<Candidate, Fault>;
      var election := elections.FindOne(dto.electionId, electionLookupFails);
      if election.Failure? {
        attempt := Failure(election.error);
      } else {
        var created := Tables.Row(newId, dto, true);
        var inserted := Tables.TryInsert(table, created, storeFails);
        if inserted.Success? {
          table := inserted.value;
          attempt := Success(created);
        } else {
          attempt := Failure(Raw(inserted.error));
        }
      }
      r := Catch(attempt, CreationFailed(CandidateRecord));
    }

    /**
     * findAll: the active candidates of the given election (or of all),
     * one page of them in creation order, with total and lastPage. A failing
     * query becomes DbError.
     */
    function FindAll(electionId: Option<Id>, page: Positive, limit: Positive, storeFails: bool): (r: Result<Page<Candidate>, RpcError>)
      reads this
      requires Tables.Valid(table)
      ensures r.Failure? <==> storeFails
      ensures r.Failure? ==> r.error == DbError
      ensures r.Success? ==>
                && r.value.meta.total == Tables.Count(table, OfElection(electionId))
                && r.value.meta.page == page
                && r.value.meta.total <= r.value.meta.lastPage * limit
                && (r.value.meta.lastPage - 1) * limit < r.value.meta.total
                && (page > r.value.meta.lastPage ==> r.value.data == [])
                && (page < r.value.meta.lastPage ==> |r.value.data| == limit)
      ensures r.Success? ==>
                var m := Tables.Matching(table, OfElection(electionId));
                && |r.value.data| == (if |m| <= Offset(page, limit) then 0 else Min(limit, |m| - Offset(page, limit)))
                && forall k :: 0 <= k < |r.value.data| ==> r.value.data[k] == m[Offset(page, limit) + k]
      ensures r.Success? ==> forall k :: 0 <= k < |r.value.data| ==>
                var c := r.value.data[k];
                c.isActive && (electionId.Some? ==> c.data.electionId == electionId.value) && c.id in table.rows && table.rows[c.id] == c
    {
      var attempt: Result<Page<Candidate>, Fault> :=
        if storeFails then Failure(Raw(StoreFailure))
        else
          var p := Tables.Query(table, OfElection(electionId), page, limit);
          assert forall k :: 0 <= k < |p.data| ==> OfElection(electionId)(p.data[k].data);
          Success(p);
      Catch(attempt, DbError)
    }

    /**
     * findOne: the candidate with this id if it is active. A missing and an
     * inactive id fail alike, with NotFound. There is no catch block: a
     * failing lookup escapes as a raw fault.
     */
    function FindOne(id: Id, lookupFails: bool): (r: Result<Candidate, Fault>)
      reads this
      ensures lookupFails ==> r == Failure(Raw(StoreFailure))
      ensures !lookupFails ==> (r.Success? <==> Tables.Visible(table, id))
      ensures r.Success? ==> r.value == table.rows[id] && r.value.isActive
      ensures !lookupFails && r.Failure? ==> r.error == Rpc(NotFound(CandidateRecord))
    {
      if lookupFails then Failure(Raw(StoreFailure))
      else
        match Tables.FindUnique(table, id)
        case Some(c) => Success(c)
        case None => Failure(Rpc(NotFound(CandidateRecord)))
    }

    /**
     * update: re-resolve the candidate through findOne; when the payload
     * names an election, resolve that one through ElectionService.FindOne;
     * then overwrite the supplied fields. The payload's own id is stripped,
     * so the row keeps its id. Both NotFounds pass through; a failing lookup
     * or write becomes UpdateFailed.
     */
    method Update(id: Id, dto: UpdateCandidateDto, lookupFails: bool, electionLookupFails: bool, storeFails: bool)
      returns (r: Result<Candidate, RpcError>)
      requires Valid()
      modifies this
      ensures Valid() && Tables.Evolves(old(table), table)
      ensures lookupFails ==> r == Failure(UpdateFailed(CandidateRecord)) && table == old(table)
      ensures !lookupFails && !old(Tables.Visible(table, id)) ==>
                r == Failure(NotFound(CandidateRecord)) && table == old(table)
      ensures !lookupFails && old(Tables.Visible(table, id)) && dto.electionId.Some? && electionLookupFails ==>
                r == Failure(UpdateFailed(CandidateRecord)) && table == old(table)
      ensures !lookupFails && old(Tables.Visible(table, id)) && dto.electionId.Some? && !electionLookupFails
              && !Tables.Visible(elections.table, dto.electionId.value) ==>
                r == Failure(NotFound(ElectionRecord)) && table == old(table)
      ensures r.Success? && dto.electionId.Some? ==> Tables.Visible(elections.table, dto.electionId.value)
      ensures !lookupFails && old(Tables.Visible(table, id))
              && (dto.electionId.None? || (!electionLookupFails && Tables.Visible(elections.table, dto.electionId.value))) ==>
                if storeFails then
                  r == Failure(UpdateFailed(CandidateRecord)) && table == old(table)
                else
                  && r == Success(Tables.Row(id, Patched(old(table.rows[id].data), Strip(dto)), true))
                  && table == Tables.Replace(old(table), r.value)
    {
      var data := Strip(dto);
      var attempt: Result<Candidate, Fault>;
      var found := FindOne(id, lookupFails);
      if found.Failure? {
        attempt := Failure(found.error);
      } else {
        var refused: Option<Fault> := None;
        if dto.electionId.Some? {
          var election := elections.FindOne(dto.electionId.value, electionLookupFails);
          if election.Failure? {
            refused := Some(election.error);
          }
        }
        if refused.Some? {
          attempt := Failure(refused.value);
        } else {
          var updated := found.value.(data := Patched(found.value.data, data));
          var written := Tables.TryReplace(table, updated, storeFails);
          if written.Success? {
            table := written.value;
            attempt := Success(updated);
          } else {
            attempt := Failure(Raw(written.error));
          }
        }
      }
      r := Catch(attempt, UpdateFailed(CandidateRecord));
    }

    /**
     * remove: re-resolve the candidate through findOne, then set is_active
     * to false. The row stays. NotFound passes through; a failing lookup or
     * write becomes RemovalFailed.
     */
    method Remove(id: Id, lookupFails: bool, storeFails: bool) returns (r: Result<Candidate, RpcError>)
      requires Valid()
      modifies this
      ensures Valid() && Tables.Evolves(old(table), table)
      ensures lookupFails ==> r == Failure(RemovalFailed(CandidateRecord)) && table == old(table)
      ensures !lookupFails && !old(Tables.Visible(table, id)) ==>
                r == Failure(NotFound(CandidateRecord)) && table == old(table)
      ensures !lookupFails && old(Tables.Visible(table, id)) && storeFails ==>
                r == Failure(RemovalFailed(CandidateRecord)) && table == old(table)
      ensures !lookupFails && old(Tables.Visible(table, id)) && !storeFails ==>
                && r == Success(old(table.rows[id]).(isActive := false))
                && table == Tables.Replace(old(table), r.value)
                && !Tables.Visible(table, id)
    {
      var attempt: Result<Candidate, Fault>;
      var found := FindOne(id, lookupFails);
      if found.Failure? {
        attempt := Failure(found.error);
      } else {
        var removed := found.value.(isActive := false);
        var written := Tables.TryReplace(table, removed, storeFails);
        if written.Success? {
          table := written.value;
          attempt := Success(removed);
        } else {
          attempt := Failure(Raw(written.error));
        }
      }
      r := Catch(attempt, RemovalFailed(CandidateRecord));
    }
  }
}
