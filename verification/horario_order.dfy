/**
 * The read queries of the schedule service: `WHERE professor_id = ?`,
 * `WHERE turma_id = ?` or no filter, then `ORDER BY dia_semana, hora_inicio`
 * under SQLite's BINARY collation, which for text is code-point order.
 * Rows that tie on both keys may come back in any order, so the listings
 * are specified by sortedness and by the multiset of rows, not by one
 * particular permutation.
 */
module HorarioOrder {
  import opened Clock
  import opened HorarioModel

  /** May `a` come before `b` under `ORDER BY dia_semana, hora_inicio`? */
  predicate KeyLe(a: Slot, b: Slot)
  {
    StrLt(a.diaSemana, b.diaSemana) || (a.diaSemana == b.diaSemana && StrLe(a.horaInicio, b.horaInicio))
  }

  lemma KeyLeTotal(a: Slot, b: Slot)
    ensures KeyLe(a, b) || KeyLe(b, a)
  {
    StrLeTotal(a.horaInicio, b.horaInicio);
    StrLtIsNotReverseLe(a.diaSemana, b.diaSemana);
    StrLtIsNotReverseLe(b.diaSemana, a.diaSemana);
    if a.diaSemana != b.diaSemana && !StrLe(a.diaSemana, b.diaSemana) && !StrLe(b.diaSemana, a.diaSemana) {
      StrLeTotal(a.diaSemana, b.diaSemana);
    }
  }

  lemma KeyLeTransitive(a: Slot, b: Slot, c: Slot)
    requires KeyLe(a, b) && KeyLe(b, c)
    ensures KeyLe(a, c)
  {
    if a.diaSemana == b.diaSemana == c.diaSemana {
      StrLeTransitive(a.horaInicio, b.horaInicio, c.horaInicio);
    } else {
      StrLeReflexive(b.diaSemana);
      StrLeTransitive(a.diaSemana, b.diaSemana, c.diaSemana);
      if a.diaSemana == c.diaSemana {
        StrLeAntisymmetric(a.diaSemana, b.diaSemana);
      }
    }
  }

  /** Every row may come before every later row. */
  predicate Sorted(s: seq<Slot>)
  {
    forall i, j :: 0 <= i < j < |s| ==> KeyLe(s[i], s[j])
  }

  /** A row that may come before every row of a sorted sequence can head it. */
  lemma PrependSorted(b: Slot, r: seq<Slot>)
    requires Sorted(r)
    requires forall y :: y in multiset(r) ==> KeyLe(b, y)
    ensures Sorted([b] + r)
  {
    forall j | 0 <= j < |r| ensures KeyLe(b, r[j]) {
      assert r[j] in multiset(r);
    }
  }

  /** A row that may come before the head of a sorted sequence may come before all of it. */
  lemma BelowHead(x: Slot, s: seq<Slot>)
    requires Sorted(s) && s != [] && KeyLe(x, s[0])
    ensures forall y :: y in multiset(s) ==> KeyLe(x, y)
  {
    forall y | y in multiset(s) ensures KeyLe(x, y) {
      var j :| 0 <= j < |s| && s[j] == y;
      if j > 0 { KeyLeTransitive(x, s[0], s[j]); }
    }
  }

  /** The head of a sorted sequence may come before the rest and before a later row `x`. */
  lemma HeadBelowRest(x: Slot, s: seq<Slot>, m: multiset<Slot>)
    requires Sorted(s) && s != [] && KeyLe(s[0], x)
    requires m == multiset(s[1..]) + multiset{x}
    ensures forall y :: y in m ==> KeyLe(s[0], y)
  {
    forall y | y in m ensures KeyLe(s[0], y) {
      if y != x {
        assert y in multiset(s[1..]);
        var j :| 0 <= j < |s[1..]| && s[1..][j] == y;
        assert s[j + 1] == y;
      }
    }
  }

  /** `x` put into a sorted sequence at the first place it may go. */
  function Insert(x: Slot, s: seq<Slot>): (r: seq<Slot>)
    requires Sorted(s)
    ensures Sorted(r)
    ensures multiset(r) == multiset(s) + multiset{x}
  {
    if s == [] then [x]
    else if KeyLe(x, s[0]) then
      BelowHead(x, s);
      PrependSorted(x, s);
      [x] + s
    else
      var rest := Insert(x, s[1..]);
      KeyLeTotal(x, s[0]);
      HeadBelowRest(x, s, multiset(rest));
      PrependSorted(s[0], rest);
      assert s == [s[0]] + s[1..];
      [s[0]] + rest
  }

  /** Insertion sort by the `ORDER BY` key. */
  function Sort(s: seq<Slot>): (r: seq<Slot>)
    ensures Sorted(r)
    ensures multiset(r) == multiset(s)
  {
    if s == [] then []
    else
      assert s == [s[0]] + s[1..];
      Insert(s[0], Sort(s[1..]))
  }

  /** The `WHERE` clause of a listing. */
  datatype Filter = ByProfessor(professorId: int) | ByTurma(turmaId: int) | All

  predicate Selects(f: Filter, row: Slot)
  {
    match f
    case ByProfessor(p) => row.professorId == p
    case ByTurma(t) => row.turmaId == t
    case All => true
  }

  /** The rows the `WHERE` clause keeps, in table order. */
  function Select(rows: seq<Slot>, f: Filter): (r: seq<Slot>)
    ensures forall x :: x in r ==> Selects(f, x)
    ensures forall x :: Selects(f, x) ==> multiset(r)[x] == multiset(rows)[x]
  {
    if rows == [] then []
    else
      assert rows == [rows[0]] + rows[1..];
      (if Selects(f, rows[0]) then [rows[0]] else []) + Select(rows[1..], f)
  }

  /**
   * `SELECT * FROM horarios WHERE <f> ORDER BY dia_semana, hora_inicio`:
   * every row the filter keeps, as often as the table holds it, and only
   * those, sorted by weekday text and then start time text.
   */
  function Query(rows: seq<Slot>, f: Filter): (r: seq<Slot>)
    ensures Sorted(r)
    ensures forall x :: multiset(r)[x] == if Selects(f, x) then multiset(rows)[x] else 0
  {
    var r := Sort(Select(rows, f));
    assert forall x :: x in multiset(r) ==> Selects(f, x);
    r
  }

  /**
   * Within one weekday a listing of zero-padded `HH:MM` start times is in
   * chronological order.
   */
  lemma SameDayListingIsChronological(r: seq<Slot>, i: int, j: int)
    requires Sorted(r) && 0 <= i < j < |r|
    requires r[i].diaSemana == r[j].diaSemana
    requires IsClockTime(r[i].horaInicio) && IsClockTime(r[j].horaInicio)
    ensures Minutes(r[i].horaInicio) <= Minutes(r[j].horaInicio)
  {
    assert KeyLe(r[i], r[j]);
    ClockOrderIsTimeOrder(r[i].horaInicio, r[j].horaInicio);
  }

  /**
   * Weekdays sort as text, not Monday to Friday: a Wednesday ("Quarta")
   * slot is listed before a Monday ("Segunda") slot.
   */
  lemma WeekdaysSortAsText(wednesday: Slot, monday: Slot)
    requires wednesday.diaSemana == "Quarta" && monday.diaSemana == "Segunda"
    ensures KeyLe(wednesday, monday) && !KeyLe(monday, wednesday)
  {
  }
}
