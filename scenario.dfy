/**
 * A client of the two stores, fixing the lifecycle they promise: a candidate
 * can be attached to an open election; once that election is removed, it can
 * no longer be the target of a candidate update, findOne no longer sees it,
 * and a second removal fails.
 */
module Scenario {
  import opened Outcomes
  import opened Errors
  import Tables
  import Elections
  import Candidates

  method RemovedElectionRefusesCandidates(e1: Tables.Id, c1: Tables.Id, name: string, party: string, imageUrl: string)
  {
    var elections := new Elections.ElectionService();
    var candidates := new Candidates.CandidateService(elections);

    var election := Elections.ElectionFields(name, "first round", 0, 1, Elections.Open);
    var e := elections.Create(election, e1, false);
    assert e.Success? && elections.FindOne(e1, false).Success?;
    assert candidates.Valid();

    // A failing election lookup is re-wrapped as the candidate store's own
    // creation failure, although the election exists.
    var refused := candidates.Create(Candidates.CandidateFields(name, e1, party, imageUrl), c1, true, false);
    assert refused == Failure(CreationFailed(CandidateRecord));
    assert HttpStatus(refused.error) == 400;

    var c := candidates.Create(Candidates.CandidateFields(name, e1, party, imageUrl), c1, false, false);
    assert c.Success? && candidates.FindOne(c1, false).Success?;

    var removed := elections.Remove(e1, false, false);
    assert removed.Success?;
    assert candidates.Valid();

    var moved := candidates.Update(c1, Candidates.UpdateCandidateDto(c1, None, Some(e1), None, None), false, false, false);
    assert moved == Failure(NotFound(ElectionRecord));
    assert HttpStatus(moved.error) == 404;
    assert elections.FindOne(e1, false) == Failure(Rpc(NotFound(ElectionRecord)));

    var again := elections.Remove(e1, false, false);
    assert again == Failure(NotFound(ElectionRecord));

    // The candidate itself is untouched and still visible.
    assert c.Success? && candidates.FindOne(c1, false) == Success(c.value);
  }
}
