/**
 * The rubric list that `src/context/main/rubric/RubricProvider.tsx` holds
 * for the whole application, with its `loading` flag, and the list updates
 * it offers: append, remove by id, replace by id, and reload from the
 * database.
 */
module RubricProvider {
  import opened Lists

  /** A stored rubric (`src/database/rubric.ts`); `totalScore` is the `total_score` column. */
  datatype Rubric = Rubric(id: int, name: string, content: string, createdAt: string, totalScore: int)

  /** What `getAllRubrics` answers: the rubrics and an error text, `""` when there is none. */
  datatype LoadReply = LoadReply(rubrics: seq<Rubric>, error: string)

  /** `prev.filter(r => r.id !== id)`. */
  function WithoutId(rs: seq<Rubric>, id: int): seq<Rubric> {
    Filter((r: Rubric) => r.id != id, rs)
  }

  /** `prev.map(r => r.id === u.id ? u : r)`. */
  function WithReplaced(rs: seq<Rubric>, u: Rubric): seq<Rubric> {
    ReplaceWhere((r: Rubric) => r.id == u.id, u, rs)
  }

  class RubricStore {
    var rubrics: seq<Rubric>
    var loading: bool

    /** The provider starts with no rubrics and `loading` set, before its first load. */
    constructor()
      ensures rubrics == [] && loading
    {
      rubrics := [];
      loading := true;
    }

    /** `addRubric`: appends at the end. */
    method AddRubric(r: Rubric)
      modifies this
      ensures rubrics == old(rubrics) + [r]
      ensures loading == old(loading)
    {
      rubrics := rubrics + [r];
    }

    /** `removeRubric`: drops every rubric with that id. */
    method RemoveRubric(id: int)
      modifies this
      ensures rubrics == WithoutId(old(rubrics), id)
      ensures loading == old(loading)
    {
      rubrics := WithoutId(rubrics, id);
    }

    /** `updateRubric`: replaces every rubric with the same id, in place. */
    method UpdateRubric(u: Rubric)
      modifies this
      ensures rubrics == WithReplaced(old(rubrics), u)
      ensures loading == old(loading)
    {
      rubrics := WithReplaced(rubrics, u);
    }

    /**
     * `loadRubrics`, given what the query answered: the list is replaced
     * only when there is no error, and `loading` is false at the end
     * whatever happened.
     */
    method LoadRubrics(reply: LoadReply)
      modifies this
      ensures rubrics == (if reply.error == "" then reply.rubrics else old(rubrics))
      ensures !loading
    {
      loading := true;
      if reply.error == "" {
        rubrics := reply.rubrics;
      }
      loading := false;
    }
  }

  /**
   * removeRubric keeps, in order and as often as before, exactly the rubrics
   * with another id.
   */
  lemma RemoveKeepsOthers(rs: seq<Rubric>, id: int)
    ensures Subsequence(WithoutId(rs, id), rs)
    ensures forall r :: r in WithoutId(rs, id) ==> r.id != id
    ensures forall r: Rubric :: r.id != id ==> multiset(WithoutId(rs, id))[r] == multiset(rs)[r]
  {
    FilterSpec((r: Rubric) => r.id != id, rs);
  }

  /** updateRubric keeps the length, puts `u` at every position with its id and leaves the other positions alone. */
  lemma UpdateReplacesInPlace(rs: seq<Rubric>, u: Rubric)
    ensures |WithReplaced(rs, u)| == |rs|
    ensures forall i :: 0 <= i < |rs| && rs[i].id == u.id ==> WithReplaced(rs, u)[i] == u
    ensures forall i :: 0 <= i < |rs| && rs[i].id != u.id ==> WithReplaced(rs, u)[i] == rs[i]
  {
  }

  /** updateRubric for an id that is not in the list changes nothing, and repeating an update changes nothing more. */
  lemma UpdateAbsentOrRepeated(rs: seq<Rubric>, u: Rubric)
    ensures (forall r :: r in rs ==> r.id != u.id) ==> WithReplaced(rs, u) == rs
    ensures WithReplaced(WithReplaced(rs, u), u) == WithReplaced(rs, u)
  {
    if forall r :: r in rs ==> r.id != u.id {
      forall i | 0 <= i < |rs| ensures WithReplaced(rs, u)[i] == rs[i] {
        assert rs[i] in rs;
      }
    }
  }

  /**
   * The update the rubric editor performs, `removeRubric(old)` then
   * `addRubric(new)`: the new rubric is last, and no other entry keeps the
   * old id.
   */
  lemma RemoveThenAdd(rs: seq<Rubric>, oldId: int, r: Rubric)
    ensures var after := WithoutId(rs, oldId) + [r];
      after[|after| - 1] == r &&
      (forall k :: 0 <= k < |after| - 1 ==> after[k].id != oldId && after[k] in rs) &&
      (forall x :: x in rs && x.id != oldId ==> x in after)
  {
    var kept := WithoutId(rs, oldId);
    var after := kept + [r];
    forall k | 0 <= k < |after| - 1 ensures after[k].id != oldId && after[k] in rs {
      assert after[k] == kept[k] && kept[k] in kept;
    }
  }
}
