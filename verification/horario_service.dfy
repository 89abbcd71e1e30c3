/**
 * The `horarios` store of the schedule service: the table as a sequence of
 * rows plus SQLite's AUTOINCREMENT counter, with `has_conflict`, `create`,
 * `update`, `delete`, `get` and the three sorted listings. Each operation
 * runs as one atomic step.
 */
module HorarioService {
  import opened Wrappers
  import opened HorarioModel
  import opened HorarioOrder

  class Horarios {
    /** The rows of the table, in rowid order. */
    var slots: seq<Slot>
    /** The id AUTOINCREMENT hands out next: one more than any id ever used. */
    var nextId: int

    /** Ids are positive, unique and below the counter. */
    ghost predicate Valid()
      reads this
    {
      ValidTable(slots, nextId)
    }

    /** An empty table. */
    constructor ()
      ensures Valid() && slots == [] && nextId == 1
    {
      slots := [];
      nextId := 1;
    }

    /**
     * `has_conflict`: scan the rows of this teacher and weekday (all but
     * `ignoreId`, when given) and stop at the first that overlaps
     * `[horaInicio, horaFim)`.
     */
    method HasConflict(professorId: int, diaSemana: string, horaInicio: string, horaFim: string,
                       ignoreId: Option<int>)
      returns (found: bool)
      ensures found == Conflicts(slots, professorId, diaSemana, horaInicio, horaFim, ignoreId)
    {
      var i := 0;
      while i < |slots|
        invariant 0 <= i <= |slots|
        invariant forall j :: 0 <= j < i ==> !Clashes(slots[j], professorId, diaSemana, horaInicio, horaFim, ignoreId)
      {
        var r := slots[i];
        if r.professorId == professorId && r.diaSemana == diaSemana && (ignoreId.None? || r.id != ignoreId.value) {
          if HasTimeOverlap(horaInicio, horaFim, r.horaInicio, r.horaFim) {
            assert Clashes(slots[i], professorId, diaSemana, horaInicio, horaFim, ignoreId);
            return true;
          }
        }
        i := i + 1;
      }
      return false;
    }

    /**
     * `create`: raise on a conflict and leave the table alone; otherwise
     * insert one row under a fresh id and return that id.
     */
    method Create(professorId: int, disciplinaId: int, turmaId: int, diaSemana: string,
                  horaInicio: string, horaFim: string)
      returns (r: Result<int>)
      requires Valid()
      modifies this
      ensures Valid()
      ensures Conflicts(old(slots), professorId, diaSemana, horaInicio, horaFim, None) ==>
                r == Err(CreateConflictMessage) && slots == old(slots) && nextId == old(nextId)
      ensures !Conflicts(old(slots), professorId, diaSemana, horaInicio, horaFim, None) ==>
                && r == Ok(old(nextId))
                && slots == old(slots) + [Slot(old(nextId), professorId, disciplinaId, turmaId, diaSemana, horaInicio, horaFim)]
                && nextId == old(nextId) + 1
      ensures r.Ok? ==> forall i :: 0 <= i < |old(slots)| ==> old(slots)[i].id < r.value
      ensures ConflictFree(old(slots)) ==> ConflictFree(slots)
    {
      var conflict := HasConflict(professorId, diaSemana, horaInicio, horaFim, None);
      if conflict {
        return Err(CreateConflictMessage);
      }
      var row := Slot(nextId, professorId, disciplinaId, turmaId, diaSemana, horaInicio, horaFim);
      assert ConflictFree(slots) ==> ConflictFree(slots + [row]) by {
        if ConflictFree(slots) {
          CreateKeepsConflictFree(slots, row);
        }
      }
      assert UniqueIds(slots + [row]) by {
        var s' := slots + [row];
        forall i, j | 0 <= i < |s'| && 0 <= j < |s'| && i != j ensures DistinctIds(s'[i], s'[j]) {
          if i < |slots| && j < |slots| {
            assert DistinctIds(slots[i], slots[j]);
          }
        }
      }
      slots := slots + [row];
      r := Ok(nextId);
      nextId := nextId + 1;
    }

    /**
     * `update(id, **kwargs)`: collect the allowed keywords; with none, or
     * with no row under `id`, return quietly; raise if the row overlaid
     * with `kwargs` conflicts with another row; otherwise write the
     * collected columns to that row.
     */
    method Update(id: int, kwargs: seq<Arg>) returns (r: Result<()>)
      requires Valid() && WellFormedKwargs(kwargs)
      modifies this
      ensures Valid() && nextId == old(nextId)
      ensures (r, slots) == Updated(old(slots), id, kwargs)
      ensures r.Err? ==> slots == old(slots)
      ensures |slots| == |old(slots)|
      ensures forall i :: 0 <= i < |slots| && old(slots)[i].id != id ==> slots[i] == old(slots)[i]
      ensures ConflictFree(old(slots)) ==> ConflictFree(slots)
    {
      ghost var rows := slots;
      ghost var post := Updated(rows, id, kwargs);
      UpdateFrame(rows, id, kwargs);
      UpdatedKeepsTable(rows, nextId, id, kwargs);

      var changes := CollectFields(kwargs);
      if changes == [] {
        return Ok(());
      }
      var found := Get(id);
      assert found == Find(rows, id);
      if found.None? {
        return Ok(());
      }
      var t := Apply(found.value, kwargs);
      var conflict := HasConflict(t.professorId, t.diaSemana, t.horaInicio, t.horaFim, Some(id));
      assert post == if conflict then (Err(UpdateConflictMessage), rows) else (Ok(()), Patched(rows, id, changes));
      if conflict {
        return Err(UpdateConflictMessage);
      }
      slots := Patched(slots, id, changes);
      r := Ok(());
    }

    /** `delete`: remove the row with this id, if there is one. */
    method Delete(id: int)
      requires Valid()
      modifies this
      ensures Valid() && nextId == old(nextId)
      ensures slots == Without(old(slots), id)
      ensures ConflictFree(old(slots)) ==> ConflictFree(slots)
    {
      WithoutKeepsPairwise(slots, id, DistinctIds);
      assert ConflictFree(slots) ==> ConflictFree(Without(slots, id)) by {
        if ConflictFree(slots) {
          WithoutKeepsPairwise(slots, id, Compatible);
        }
      }
      ghost var before := slots;
      slots := Without(slots, id);
      assert forall i :: 0 <= i < |slots| ==> slots[i] in before;
    }

    /** `get`: the row with this id, or None. */
    function Get(id: int): (r: Option<Slot>)
      reads this
      ensures r.Some? ==> r.value in slots && r.value.id == id
      ensures r.None? <==> forall i :: 0 <= i < |slots| ==> slots[i].id != id
      ensures UniqueIds(slots) ==> forall k :: 0 <= k < |slots| && slots[k].id == id ==> r == Some(slots[k])
    {
      FindReturnsEveryKeyedRow(slots);
      Find(slots, id)
    }

    /** `list_by_professor`: this teacher's rows, ordered by weekday then start. */
    function ListByProfessor(professorId: int): (r: seq<Slot>)
      reads this
      ensures Sorted(r)
      ensures forall x :: multiset(r)[x] == if x.professorId == professorId then multiset(slots)[x] else 0
    {
      Query(slots, ByProfessor(professorId))
    }

    /** `list_by_turma`: this class's rows, ordered by weekday then start. */
    function ListByTurma(turmaId: int): (r: seq<Slot>)
      reads this
      ensures Sorted(r)
      ensures forall x :: multiset(r)[x] == if x.turmaId == turmaId then multiset(slots)[x] else 0
    {
      Query(slots, ByTurma(turmaId))
    }

    /** `list_all`: every row, ordered by weekday then start. */
    function ListAll(): (r: seq<Slot>)
      reads this
      ensures Sorted(r)
      ensures multiset(r) == multiset(slots)
    {
      Query(slots, All)
    }
  }

  /**
   * The loop of `update` that collects the `fields`/`values` pairs: the
   * keyword arguments naming a column, in call order.
   */
  method CollectFields(kwargs: seq<Arg>) returns (changes: seq<Arg>)
    ensures changes == Columns(kwargs)
  {
    changes := [];
    var i := 0;
    while i < |kwargs|
      invariant 0 <= i <= |kwargs|
      invariant changes == Columns(kwargs[..i])
    {
      assert kwargs[..i + 1][..i] == kwargs[..i];
      if IsAllowed(kwargs[i]) {
        changes := changes + [kwargs[i]];
      }
      i := i + 1;
    }
    assert kwargs[..|kwargs|] == kwargs;
  }

  /**
   * A teacher with Monday 08:00-10:00 cannot also take 09:00-11:00 but can
   * take the adjacent 10:00-12:00; deleting an unknown id changes nothing.
   */
  method CreateScenario()
  {
    var h := new Horarios();
    var first := h.Create(1, 10, 100, "Segunda", "08:00", "10:00");
    assert first == Ok(1);
    var row1 := h.slots[0];

    assert Clashes(row1, 1, "Segunda", "09:00", "11:00", None);
    var clash := h.Create(1, 11, 101, "Segunda", "09:00", "11:00");
    assert clash == Err(CreateConflictMessage);

    AdjacentSlotsDoNotOverlap("08:00", "10:00", "12:00");
    assert !Clashes(row1, 1, "Segunda", "10:00", "12:00", None);
    var second := h.Create(1, 11, 101, "Segunda", "10:00", "12:00");
    assert second == Ok(2);

    ghost var before := h.slots;
    h.Delete(999);
    DeleteMissingIsNoop(before, 999);
    assert h.slots == before;
  }

  /**
   * Moving the 10:00-12:00 slot to start at 09:00 runs into the teacher's
   * 08:00-10:00 slot and is refused.
   */
  method UpdateScenario()
  {
    var h := new Horarios();
    var row1 := Slot(1, 1, 10, 100, "Segunda", "08:00", "10:00");
    var row2 := Slot(2, 1, 11, 101, "Segunda", "10:00", "12:00");
    h.slots, h.nextId := [row1, row2], 3;
    assert h.Valid();

    var kwargs := [SetHoraInicio("09:00")];
    EarlierStartIsRefused(row1, row2, kwargs);
    var u := h.Update(2, kwargs);
    assert u == Err(UpdateConflictMessage);
  }

  /** The value-level outcome behind `UpdateScenario`. */
  lemma EarlierStartIsRefused(row1: Slot, row2: Slot, kwargs: seq<Arg>)
    requires row1 == Slot(1, 1, 10, 100, "Segunda", "08:00", "10:00")
    requires row2 == Slot(2, 1, 11, 101, "Segunda", "10:00", "12:00")
    requires kwargs == [SetHoraInicio("09:00")]
    ensures WellFormedKwargs(kwargs)
    ensures Updated([row1, row2], 2, kwargs).0 == Err(UpdateConflictMessage)
  {
    var rows := [row1, row2];
    assert kwargs[..0] == [];
    assert Columns(kwargs) == kwargs;
    assert Apply(row2, kwargs) == row2.(horaInicio := "09:00");
    FindReturnsKeyedRow(rows, 1);
    assert Clashes(rows[0], 1, "Segunda", "09:00", "12:00", Some(2));
  }
}
