/** The work-experience record the carousels and the date sort consume
    (WorkExperience in the work-experience service), reduced to the fields
    the modelled logic reads, and the `findIndex` by id that every carousel
    uses. */
module Experience {
  import opened Wrappers

  datatype WorkExperience = WorkExperience(id: string, jobTitle: string, companyName: string, date: string)

  /** `items.findIndex(exp => exp.id === activeId)`: the first position whose
      id is the active id, or -1. A `null` active id matches nothing. */
  function FindIndex(items: seq<WorkExperience>, activeId: Option<string>): (r: int)
    ensures -1 <= r < |items|
    ensures r >= 0 ==> activeId == Some(items[r].id)
    ensures r >= 0 ==> forall j :: 0 <= j < r ==> activeId != Some(items[j].id)
    ensures r == -1 <==> forall j :: 0 <= j < |items| ==> activeId != Some(items[j].id)
  {
    if |items| == 0 then -1
    else if activeId == Some(items[0].id) then 0
    else
      var k := FindIndex(items[1..], activeId);
      if k == -1 then -1 else k + 1
  }

  /** No two records share an id. */
  ghost predicate DistinctIds(items: seq<WorkExperience>) {
    forall i, j :: 0 <= i < j < |items| ==> items[i].id != items[j].id
  }

  /** With distinct ids, a record's own id finds exactly that record. */
  lemma FindIndexOfMember(items: seq<WorkExperience>, i: nat)
    requires DistinctIds(items)
    requires i < |items|
    ensures FindIndex(items, Some(items[i].id)) == i
  {
  }
}
