/**
 * The rows of the `horarios` table and the pure rules the schedule service
 * applies to them: the half-open overlap test, the conflict scan, the
 * per-teacher-and-weekday non-overlap invariant, and the effect of
 * `create`, `update` and `delete` on the table, each stated as a function
 * of the old rows. The class in horario_service.dfy is proved against these.
 */
module HorarioModel {
  import opened Wrappers
  import opened Clock

  /** One row of `horarios`. Weekdays and times are free text. */
  datatype Slot = Slot(
    id: int,
    professorId: int,
    disciplinaId: int,
    turmaId: int,
    diaSemana: string,
    horaInicio: string,
    horaFim: string)

  const CreateConflictMessage := "Conflito de horário para este professor no mesmo dia."
  const UpdateConflictMessage := "Conflito de horário na atualização."

  // ---------------------------------------------------------------------
  // Overlap

  /** `_has_time_overlap`: do `[aStart, aEnd)` and `[bStart, bEnd)` intersect? */
  predicate HasTimeOverlap(aStart: string, aEnd: string, bStart: string, bEnd: string)
  {
    !(StrLe(aEnd, bStart) || StrLe(bEnd, aStart))
  }

  lemma OverlapIsSymmetric(aStart: string, aEnd: string, bStart: string, bEnd: string)
    ensures HasTimeOverlap(aStart, aEnd, bStart, bEnd) == HasTimeOverlap(bStart, bEnd, aStart, aEnd)
  {
  }

  /** Back-to-back slots such as 08:00-10:00 and 10:00-12:00 do not overlap. */
  lemma AdjacentSlotsDoNotOverlap(start: string, middle: string, end: string)
    ensures !HasTimeOverlap(start, middle, middle, end)
    ensures !HasTimeOverlap(middle, end, start, middle)
  {
    StrLeReflexive(middle);
  }

  /**
   * On zero-padded `HH:MM` windows that start before they end, the text
   * test is interval intersection: the later start is before the earlier
   * end, so some minute lies in both windows.
   */
  lemma OverlapIsSharedMinute(aStart: string, aEnd: string, bStart: string, bEnd: string)
    requires IsClockTime(aStart) && IsClockTime(aEnd) && IsClockTime(bStart) && IsClockTime(bEnd)
    requires Minutes(aStart) < Minutes(aEnd) && Minutes(bStart) < Minutes(bEnd)
    ensures HasTimeOverlap(aStart, aEnd, bStart, bEnd) <==>
              Max(Minutes(aStart), Minutes(bStart)) < Min(Minutes(aEnd), Minutes(bEnd))
  {
    ClockOrderIsTimeOrder(aEnd, bStart);
    ClockOrderIsTimeOrder(bEnd, aStart);
  }

  function Max(x: int, y: int): int { if x < y then y else x }
  function Min(x: int, y: int): int { if x < y then x else y }

  // ---------------------------------------------------------------------
  // Conflicts

  /**
   * The row is one `has_conflict` fetches for this teacher and weekday
   * (skipping `ignoreId`) and it overlaps the window.
   */
  predicate Clashes(row: Slot, professorId: int, diaSemana: string, horaInicio: string, horaFim: string,
                    ignoreId: Option<int>)
  {
    && row.professorId == professorId
    && row.diaSemana == diaSemana
    && (ignoreId.None? || row.id != ignoreId.value)
    && HasTimeOverlap(horaInicio, horaFim, row.horaInicio, row.horaFim)
  }

  /** What `has_conflict` answers for the table `rows`. */
  predicate Conflicts(rows: seq<Slot>, professorId: int, diaSemana: string, horaInicio: string, horaFim: string,
                      ignoreId: Option<int>)
  {
    exists i :: 0 <= i < |rows| && Clashes(rows[i], professorId, diaSemana, horaInicio, horaFim, ignoreId)
  }

  /** `ok` holds of every pair of rows at different positions. */
  predicate Pairwise(rows: seq<Slot>, ok: (Slot, Slot) -> bool)
  {
    forall i, j :: 0 <= i < |rows| && 0 <= j < |rows| && i != j ==> ok(rows[i], rows[j])
  }

  predicate DistinctIds(a: Slot, b: Slot)
  {
    a.id != b.id
  }

  /** Two rows do not double-book a teacher on a weekday. */
  predicate Compatible(a: Slot, b: Slot)
  {
    !(a.professorId == b.professorId && a.diaSemana == b.diaSemana &&
      HasTimeOverlap(a.horaInicio, a.horaFim, b.horaInicio, b.horaFim))
  }

  /** `id` is the primary key. */
  predicate UniqueIds(rows: seq<Slot>)
  {
    Pairwise(rows, DistinctIds)
  }

  /** No teacher is double-booked on any weekday. */
  predicate ConflictFree(rows: seq<Slot>)
  {
    Pairwise(rows, Compatible)
  }

  /**
   * Given a conflict-free table, the row `s` can be added without
   * double-booking exactly when `has_conflict` finds nothing for it.
   */
  lemma CreateKeepsConflictFree(rows: seq<Slot>, s: Slot)
    requires ConflictFree(rows)
    ensures ConflictFree(rows + [s]) <==> !Conflicts(rows, s.professorId, s.diaSemana, s.horaInicio, s.horaFim, None)
  {
    var rows' := rows + [s];
    if Conflicts(rows, s.professorId, s.diaSemana, s.horaInicio, s.horaFim, None) {
      var i :| 0 <= i < |rows| && Clashes(rows[i], s.professorId, s.diaSemana, s.horaInicio, s.horaFim, None);
      assert rows'[|rows|] == s && rows'[i] == rows[i];
      assert !Compatible(rows'[|rows|], rows'[i]);
    } else {
      forall i, j | 0 <= i < |rows'| && 0 <= j < |rows'| && i != j
        ensures Compatible(rows'[i], rows'[j])
      {
        if i == |rows| {
          assert !Clashes(rows[j], s.professorId, s.diaSemana, s.horaInicio, s.horaFim, None);
        } else if j == |rows| {
          assert !Clashes(rows[i], s.professorId, s.diaSemana, s.horaInicio, s.horaFim, None);
        } else {
          assert Compatible(rows[i], rows[j]);
        }
      }
    }
  }

  // ---------------------------------------------------------------------
  // get and delete

  /** `SELECT * FROM horarios WHERE id = ?` followed by `fetchone()`. */
  function Find(rows: seq<Slot>, id: int): (r: Option<Slot>)
    ensures r.Some? ==> r.value in rows && r.value.id == id
    ensures r.None? <==> forall i :: 0 <= i < |rows| ==> rows[i].id != id
  {
    if rows == [] then None
    else if rows[0].id == id then Some(rows[0])
    else
      var r := Find(rows[1..], id);
      assert forall i :: 1 <= i < |rows| ==> rows[i] == rows[1..][i - 1];
      r
  }

  /** With a primary key, the row found is the one that carries the id. */
  lemma FindReturnsKeyedRow(rows: seq<Slot>, k: int)
    requires UniqueIds(rows) && 0 <= k < |rows|
    ensures Find(rows, rows[k].id) == Some(rows[k])
  {
    var r := Find(rows, rows[k].id);
    var i :| 0 <= i < |rows| && rows[i] == r.value;
    assert DistinctIds(rows[i], rows[k]) || i == k;
  }

  /** `FindReturnsKeyedRow` for every row of a table whose ids are unique. */
  lemma FindReturnsEveryKeyedRow(rows: seq<Slot>)
    ensures UniqueIds(rows) ==> forall k :: 0 <= k < |rows| ==> Find(rows, rows[k].id) == Some(rows[k])
  {
    if UniqueIds(rows) {
      forall k | 0 <= k < |rows| ensures Find(rows, rows[k].id) == Some(rows[k]) {
        FindReturnsKeyedRow(rows, k);
      }
    }
  }

  /** `DELETE FROM horarios WHERE id = ?`: the rows without that id, in order. */
  function Without(rows: seq<Slot>, id: int): (r: seq<Slot>)
    ensures |r| <= |rows|
    ensures forall x :: x in r <==> x in rows && x.id != id
  {
    if rows == [] then []
    else (if rows[0].id == id then [] else [rows[0]]) + Without(rows[1..], id)
  }

  /** Deleting an id nobody has changes nothing. */
  lemma {:induction false} DeleteMissingIsNoop(rows: seq<Slot>, id: int)
    requires forall i :: 0 <= i < |rows| ==> rows[i].id != id
    ensures Without(rows, id) == rows
  {
    if rows != [] {
      DeleteMissingIsNoop(rows[1..], id);
      assert rows == [rows[0]] + rows[1..];
    }
  }

  /** A pairwise property of `[x] + rest`, split into its parts. */
  lemma PairwiseCons(x: Slot, rest: seq<Slot>, ok: (Slot, Slot) -> bool)
    ensures Pairwise([x] + rest, ok) <==>
              Pairwise(rest, ok) && forall y :: y in rest ==> ok(x, y) && ok(y, x)
  {
    var r := [x] + rest;
    if Pairwise(r, ok) {
      forall i, j | 0 <= i < |rest| && 0 <= j < |rest| && i != j ensures ok(rest[i], rest[j]) {
        assert rest[i] == r[i + 1] && rest[j] == r[j + 1];
      }
      forall y | y in rest ensures ok(x, y) && ok(y, x) {
        var j :| 0 <= j < |rest| && rest[j] == y;
        assert r[0] == x && r[j + 1] == y;
      }
    }
    if Pairwise(rest, ok) && forall y :: y in rest ==> ok(x, y) && ok(y, x) {
      forall i, j | 0 <= i < |r| && 0 <= j < |r| && i != j ensures ok(r[i], r[j]) {
        if i == 0 {
          assert r[j] == rest[j - 1];
        } else if j == 0 {
          assert r[i] == rest[i - 1];
        } else {
          assert r[i] == rest[i - 1] && r[j] == rest[j - 1];
        }
      }
    }
  }

  /** Deleting keeps every pairwise property of the table. */
  lemma {:induction false} WithoutKeepsPairwise(rows: seq<Slot>, id: int, ok: (Slot, Slot) -> bool)
    requires Pairwise(rows, ok)
    ensures Pairwise(Without(rows, id), ok)
  {
    if rows != [] {
      var x, tail := rows[0], rows[1..];
      assert rows == [x] + tail;
      PairwiseCons(x, tail, ok);
      WithoutKeepsPairwise(tail, id, ok);
      var rest := Without(tail, id);
      if x.id != id {
        assert Without(rows, id) == [x] + rest;
        PairwiseCons(x, rest, ok);
      } else {
        assert Without(rows, id) == rest;
      }
    }
  }

  // ---------------------------------------------------------------------
  // update

  /**
   * One keyword argument of `update(id_, **kwargs)`: a value for one of the
   * six writable columns, or any other keyword, which `update` ignores.
   */
  datatype Arg =
    | SetProfessorId(professorId: int)
    | SetDisciplinaId(disciplinaId: int)
    | SetTurmaId(turmaId: int)
    | SetDiaSemana(diaSemana: string)
    | SetHoraInicio(horaInicio: string)
    | SetHoraFim(horaFim: string)
    | Other(key: string)

  /** The set `allowed` of `update`. */
  const AllowedKeys: set<string> :=
    {"professor_id", "disciplina_id", "turma_id", "dia_semana", "hora_inicio", "hora_fim"}

  function Keyword(a: Arg): string
  {
    match a
    case SetProfessorId(_) => "professor_id"
    case SetDisciplinaId(_) => "disciplina_id"
    case SetTurmaId(_) => "turma_id"
    case SetDiaSemana(_) => "dia_semana"
    case SetHoraInicio(_) => "hora_inicio"
    case SetHoraFim(_) => "hora_fim"
    case Other(k) => k
  }

  /** `k in allowed`. */
  predicate IsAllowed(a: Arg)
  {
    Keyword(a) in AllowedKeys
  }

  /**
   * What Python guarantees of `**kwargs`: every keyword appears once, and
   * a keyword naming a column carries that column's value.
   */
  predicate WellFormedKwargs(kwargs: seq<Arg>)
  {
    && (forall i, j :: 0 <= i < j < |kwargs| ==> Keyword(kwargs[i]) != Keyword(kwargs[j]))
    && (forall i :: 0 <= i < |kwargs| && kwargs[i].Other? ==> !IsAllowed(kwargs[i]))
  }

  /** The allowed keywords, in order: the pairs behind `fields` and `values`. */
  function Columns(kwargs: seq<Arg>): (r: seq<Arg>)
    ensures |r| <= |kwargs|
    ensures forall a :: a in r <==> a in kwargs && IsAllowed(a)
  {
    if kwargs == [] then []
    else
      var last := kwargs[|kwargs| - 1];
      assert kwargs == kwargs[..|kwargs| - 1] + [last];
      Columns(kwargs[..|kwargs| - 1]) + (if IsAllowed(last) then [last] else [])
  }

  /** One assignment `k = ?` of the `UPDATE`. */
  function Assign(row: Slot, a: Arg): Slot
  {
    match a
    case SetProfessorId(v) => row.(professorId := v)
    case SetDisciplinaId(v) => row.(disciplinaId := v)
    case SetTurmaId(v) => row.(turmaId := v)
    case SetDiaSemana(v) => row.(diaSemana := v)
    case SetHoraInicio(v) => row.(horaInicio := v)
    case SetHoraFim(v) => row.(horaFim := v)
    case Other(_) => row
  }

  /** The row with the arguments laid over it, in order. */
  function Apply(row: Slot, kwargs: seq<Arg>): Slot
  {
    if kwargs == [] then row
    else Assign(Apply(row, kwargs[..|kwargs| - 1]), kwargs[|kwargs| - 1])
  }

  /**
   * Overlaying all of `kwargs` (the `kwargs.get(k, row[k])` of the conflict
   * check) and writing only the collected `fields` give the same row.
   */
  lemma {:induction false} ColumnsApplyLikeKwargs(row: Slot, kwargs: seq<Arg>)
    requires WellFormedKwargs(kwargs)
    ensures Apply(row, Columns(kwargs)) == Apply(row, kwargs)
  {
    if kwargs != [] {
      var init := kwargs[..|kwargs| - 1];
      var last := kwargs[|kwargs| - 1];
      assert WellFormedKwargs(init) by {
        forall i | 0 <= i < |init| ensures init[i] == kwargs[i] {}
      }
      ColumnsApplyLikeKwargs(row, init);
      var c := Columns(init);
      if IsAllowed(last) {
        var c' := c + [last];
        assert c'[..|c'| - 1] == c;
      } else {
        assert last.Other?;
        assert Columns(kwargs) == c;
        assert Apply(row, kwargs) == Assign(Apply(row, init), last) == Apply(row, init);
      }
    }
  }

  /** The overlay never changes the id, nor a column `kwargs` does not name. */
  lemma {:induction false} ApplyKeepsUnnamedColumns(row: Slot, kwargs: seq<Arg>)
    ensures Apply(row, kwargs).id == row.id
    ensures (forall i :: 0 <= i < |kwargs| ==> !kwargs[i].SetProfessorId?) ==> Apply(row, kwargs).professorId == row.professorId
    ensures (forall i :: 0 <= i < |kwargs| ==> !kwargs[i].SetDisciplinaId?) ==> Apply(row, kwargs).disciplinaId == row.disciplinaId
    ensures (forall i :: 0 <= i < |kwargs| ==> !kwargs[i].SetTurmaId?) ==> Apply(row, kwargs).turmaId == row.turmaId
    ensures (forall i :: 0 <= i < |kwargs| ==> !kwargs[i].SetDiaSemana?) ==> Apply(row, kwargs).diaSemana == row.diaSemana
    ensures (forall i :: 0 <= i < |kwargs| ==> !kwargs[i].SetHoraInicio?) ==> Apply(row, kwargs).horaInicio == row.horaInicio
    ensures (forall i :: 0 <= i < |kwargs| ==> !kwargs[i].SetHoraFim?) ==> Apply(row, kwargs).horaFim == row.horaFim
  {
    if kwargs != [] {
      var n := |kwargs|;
      var init, last := kwargs[..n - 1], kwargs[n - 1];
      assert forall i :: 0 <= i < n - 1 ==> init[i] == kwargs[i];
      ApplyKeepsUnnamedColumns(row, init);
      assert Apply(row, kwargs) == Assign(Apply(row, init), last);
    }
  }

  /** The row holds the value the argument assigns (any row, for an ignored keyword). */
  predicate Carries(row: Slot, a: Arg)
  {
    match a
    case SetProfessorId(v) => row.professorId == v
    case SetDisciplinaId(v) => row.disciplinaId == v
    case SetTurmaId(v) => row.turmaId == v
    case SetDiaSemana(v) => row.diaSemana == v
    case SetHoraInicio(v) => row.horaInicio == v
    case SetHoraFim(v) => row.horaFim == v
    case Other(_) => true
  }

  /** An assignment to another keyword leaves a carried value in place. */
  lemma AssignKeepsOtherValues(row: Slot, a: Arg, b: Arg)
    requires Carries(row, a) && Keyword(a) != Keyword(b)
    ensures Carries(Assign(row, b), a) && Carries(Assign(row, b), b)
  {
  }

  /** Every column `kwargs` names takes the value given for it. */
  lemma {:induction false} ApplySetsNamedColumns(row: Slot, kwargs: seq<Arg>)
    requires WellFormedKwargs(kwargs)
    ensures forall i :: 0 <= i < |kwargs| ==> Carries(Apply(row, kwargs), kwargs[i])
  {
    if kwargs != [] {
      var n := |kwargs|;
      var init, last := kwargs[..n - 1], kwargs[n - 1];
      assert forall i :: 0 <= i < n - 1 ==> init[i] == kwargs[i];
      assert WellFormedKwargs(init);
      ApplySetsNamedColumns(row, init);
      var before := Apply(row, init);
      assert Apply(row, kwargs) == Assign(before, last);
      forall i | 0 <= i < n ensures Carries(Assign(before, last), kwargs[i]) {
        if i < n - 1 {
          AssignKeepsOtherValues(before, kwargs[i], last);
        }
      }
    }
  }

  /** `UPDATE horarios SET <changes> WHERE id = ?`. */
  function Patched(rows: seq<Slot>, id: int, changes: seq<Arg>): (r: seq<Slot>)
  {
    seq(|rows|, i requires 0 <= i < |rows| => if rows[i].id == id then Apply(rows[i], changes) else rows[i])
  }

  /**
   * The outcome and the new table of `update(id, **kwargs)`: nothing to set
   * or no such row returns quietly; a conflict of the overlaid row with
   * another row of its teacher and weekday raises; otherwise the named
   * columns of that row are written.
   */
  function Updated(rows: seq<Slot>, id: int, kwargs: seq<Arg>): (Result<()>, seq<Slot>)
  {
    var changes := Columns(kwargs);
    if changes == [] then (Ok(()), rows)
    else match Find(rows, id)
      case None => (Ok(()), rows)
      case Some(row) =>
        var t := Apply(row, kwargs);
        if Conflicts(rows, t.professorId, t.diaSemana, t.horaInicio, t.horaFim, Some(id))
        then (Err(UpdateConflictMessage), rows)
        else (Ok(()), Patched(rows, id, changes))
  }

  /** Under a primary key the `UPDATE ... WHERE id = ?` rewrites one row. */
  lemma PatchedReplacesKeyedRow(rows: seq<Slot>, k: int, changes: seq<Arg>)
    requires UniqueIds(rows) && 0 <= k < |rows|
    ensures Patched(rows, rows[k].id, changes) == rows[k := Apply(rows[k], changes)]
  {
    var p := Patched(rows, rows[k].id, changes);
    forall i | 0 <= i < |rows| && i != k ensures p[i] == rows[i] {
      assert DistinctIds(rows[i], rows[k]);
    }
  }

  /**
   * Replacing the row at `k` by `t` (same id) keeps a conflict-free table
   * conflict-free exactly when `has_conflict` with `ignore_id` set to that
   * id finds nothing for `t`.
   */
  lemma ReplaceKeepsConflictFree(rows: seq<Slot>, k: int, t: Slot)
    requires ConflictFree(rows) && UniqueIds(rows) && 0 <= k < |rows| && t.id == rows[k].id
    ensures ConflictFree(rows[k := t]) <==>
              !Conflicts(rows, t.professorId, t.diaSemana, t.horaInicio, t.horaFim, Some(t.id))
  {
    var rows' := rows[k := t];
    if Conflicts(rows, t.professorId, t.diaSemana, t.horaInicio, t.horaFim, Some(t.id)) {
      var j :| 0 <= j < |rows| && Clashes(rows[j], t.professorId, t.diaSemana, t.horaInicio, t.horaFim, Some(t.id));
      assert j != k && rows'[j] == rows[j] && rows'[k] == t;
      assert !Compatible(rows'[k], rows'[j]);
    } else {
      forall i, j | 0 <= i < |rows'| && 0 <= j < |rows'| && i != j
        ensures Compatible(rows'[i], rows'[j])
      {
        if i == k {
          assert DistinctIds(rows[j], rows[k]);
          assert !Clashes(rows[j], t.professorId, t.diaSemana, t.horaInicio, t.horaFim, Some(t.id));
        } else if j == k {
          assert DistinctIds(rows[i], rows[k]);
          assert !Clashes(rows[i], t.professorId, t.diaSemana, t.horaInicio, t.horaFim, Some(t.id));
        } else {
          assert Compatible(rows[i], rows[j]);
        }
      }
    }
  }

  /**
   * What `update` does to the table: it returns quietly and changes
   * nothing when no allowed keyword is given or no row has the id; it
   * raises and changes nothing on a conflict; otherwise it rewrites the
   * row with that id to the overlay of `kwargs`, leaves every other row as
   * it was, and keeps the ids unique.
   */
  lemma UpdateFrame(rows: seq<Slot>, id: int, kwargs: seq<Arg>)
    requires UniqueIds(rows) && WellFormedKwargs(kwargs)
    ensures var (res, rows') := Updated(rows, id, kwargs);
      && UniqueIds(rows')
      && |rows'| == |rows|
      && (forall i :: 0 <= i < |rows| && rows[i].id != id ==> rows'[i] == rows[i])
      && (forall i :: 0 <= i < |rows| ==> rows'[i].id == rows[i].id)
      && (Columns(kwargs) == [] || (forall i :: 0 <= i < |rows| ==> rows[i].id != id) ==> res == Ok(()) && rows' == rows)
      && (res.Err? ==> res.message == UpdateConflictMessage && rows' == rows)
      && (forall k :: 0 <= k < |rows| && rows[k].id == id && res.Ok? && Columns(kwargs) != [] ==>
            rows' == rows[k := Apply(rows[k], kwargs)])
  {
    var (res, rows') := Updated(rows, id, kwargs);
    forall k | 0 <= k < |rows| && rows[k].id == id && Columns(kwargs) != []
      ensures Find(rows, id) == Some(rows[k])
      ensures res.Ok? ==> rows' == rows[k := Apply(rows[k], kwargs)]
      ensures UniqueIds(rows')
      ensures forall i :: 0 <= i < |rows| ==> rows'[i].id == rows[i].id
    {
      FindReturnsKeyedRow(rows, k);
      PatchedReplacesKeyedRow(rows, k, Columns(kwargs));
      ColumnsApplyLikeKwargs(rows[k], kwargs);
      ApplyKeepsUnnamedColumns(rows[k], kwargs);
      var r' := rows[k := Apply(rows[k], kwargs)];
      assert UniqueIds(r') by {
        forall i, j | 0 <= i < |r'| && 0 <= j < |r'| && i != j ensures DistinctIds(r'[i], r'[j]) {
          assert r'[i].id == rows[i].id && r'[j].id == rows[j].id;
          assert DistinctIds(rows[i], rows[j]);
        }
      }
    }
  }

  /**
   * `update` raises exactly when the overlaid row would double-book its
   * teacher, and a conflict-free table stays conflict-free.
   */
  lemma UpdateKeepsConflictFree(rows: seq<Slot>, id: int, kwargs: seq<Arg>)
    requires ConflictFree(rows) && UniqueIds(rows) && WellFormedKwargs(kwargs)
    ensures ConflictFree(Updated(rows, id, kwargs).1)
    ensures forall k :: 0 <= k < |rows| && rows[k].id == id && Columns(kwargs) != [] ==>
              (Updated(rows, id, kwargs).0.Err? <==> !ConflictFree(rows[k := Apply(rows[k], kwargs)]))
  {
    UpdateFrame(rows, id, kwargs);
    forall k | 0 <= k < |rows| && rows[k].id == id && Columns(kwargs) != []
      ensures ConflictFree(Updated(rows, id, kwargs).1)
      ensures Updated(rows, id, kwargs).0.Err? <==> !ConflictFree(rows[k := Apply(rows[k], kwargs)])
    {
      FindReturnsKeyedRow(rows, k);
      ApplyKeepsUnnamedColumns(rows[k], kwargs);
      ReplaceKeepsConflictFree(rows, k, Apply(rows[k], kwargs));
    }
  }

  /**
   * Writing a slot's own time window back never conflicts with the slot
   * itself: in a conflict-free table it succeeds and changes nothing.
   */
  lemma ReapplyOwnWindowSucceeds(rows: seq<Slot>, k: int)
    requires ConflictFree(rows) && UniqueIds(rows) && 0 <= k < |rows|
    ensures Updated(rows, rows[k].id, [SetHoraInicio(rows[k].horaInicio), SetHoraFim(rows[k].horaFim)]) == (Ok(()), rows)
  {
    var kwargs := [SetHoraInicio(rows[k].horaInicio), SetHoraFim(rows[k].horaFim)];
    assert kwargs[..1] == [kwargs[0]] && kwargs[..1][..0] == [];
    assert Apply(rows[k], kwargs[..1]) == Assign(rows[k], kwargs[0]) == rows[k];
    assert Apply(rows[k], kwargs) == Assign(rows[k], kwargs[1]) == rows[k];
    assert Columns(kwargs) == kwargs;
    FindReturnsKeyedRow(rows, k);
    ReplaceKeepsConflictFree(rows, k, rows[k]);
    assert rows[k := rows[k]] == rows;
    PatchedReplacesKeyedRow(rows, k, kwargs);
  }

  /**
   * The other side of `ReapplyOwnWindowSucceeds`: when the row already
   * double-books its teacher with another row, re-submitting its own start
   * and end is refused, because only its own id is excluded from the check.
   */
  lemma DoubleBookedRefuses(rows: seq<Slot>, k: int, j: int)
    requires UniqueIds(rows) && 0 <= k < |rows| && 0 <= j < |rows| && j != k
    requires !Compatible(rows[k], rows[j])
    ensures Updated(rows, rows[k].id, [SetHoraInicio(rows[k].horaInicio), SetHoraFim(rows[k].horaFim)]) ==
            (Err(UpdateConflictMessage), rows)
  {
    var kwargs := [SetHoraInicio(rows[k].horaInicio), SetHoraFim(rows[k].horaFim)];
    assert kwargs[..1] == [kwargs[0]] && kwargs[..1][..0] == [];
    assert Apply(rows[k], kwargs[..1]) == Assign(rows[k], kwargs[0]) == rows[k];
    assert Apply(rows[k], kwargs) == Assign(rows[k], kwargs[1]) == rows[k];
    assert Columns(kwargs) == kwargs;
    FindReturnsKeyedRow(rows, k);
    assert DistinctIds(rows[j], rows[k]);
    assert Clashes(rows[j], rows[k].professorId, rows[k].diaSemana, rows[k].horaInicio, rows[k].horaFim, Some(rows[k].id));
  }

  /**
   * The invariant of the table under AUTOINCREMENT: ids are unique and lie
   * between 1 and the next id to be handed out.
   */
  predicate ValidTable(rows: seq<Slot>, nextId: int)
  {
    && 1 <= nextId
    && (forall i :: 0 <= i < |rows| ==> 1 <= rows[i].id < nextId)
    && UniqueIds(rows)
  }

  /** `update` keeps the table invariant and conflict-freedom. */
  lemma UpdatedKeepsTable(rows: seq<Slot>, nextId: int, id: int, kwargs: seq<Arg>)
    requires ValidTable(rows, nextId) && WellFormedKwargs(kwargs)
    ensures ValidTable(Updated(rows, id, kwargs).1, nextId)
    ensures ConflictFree(rows) ==> ConflictFree(Updated(rows, id, kwargs).1)
  {
    UpdateFrame(rows, id, kwargs);
    if ConflictFree(rows) {
      UpdateKeepsConflictFree(rows, id, kwargs);
    }
    var rows' := Updated(rows, id, kwargs).1;
    forall i | 0 <= i < |rows'| ensures 1 <= rows'[i].id < nextId {
      assert rows'[i].id == rows[i].id;
    }
  }
}
