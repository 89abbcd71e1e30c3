# School management: class timetable and student form, in Dafny

This project models two parts of a school-management application, and proves properties of each.

**The class timetable.** The timetable is the `horarios` table. Each row is one lesson: a teacher
(`professor_id`) teaches a subject (`disciplina_id`) to a class (`turma_id`) on a weekday
(`dia_semana`). The lesson runs from `hora_inicio` to `hora_fim`, both `HH:MM` text.

- The service refuses a new or changed row when the same teacher already has an overlapping
  interval on the same weekday.
- Overlap is half-open: `[08:00, 10:00)` and `[10:00, 12:00)` do not clash.
- Times are compared as text, exactly as the service compares them.
- Listings come back ordered by weekday text, then by start-time text.

The table is the class `HorarioService.Horarios`. Its fields are the rows and the AUTOINCREMENT
counter. Each service function is a method or function of that class. Those members are proved
against value-level definitions in `HorarioModel` (overlap, conflict, update, delete, get) and
`HorarioOrder` (the `ORDER BY` listings).

**The student form.** The student form validates and sanitises its fields. It covers names, age,
house number, identity card (BI) and phone. `AlunoValidation` models:

- the validators;
- the sanitisers that run on every keystroke;
- the phone and BI input masks;
- the chain that reports the first invalid field with its Portuguese message.

**Shared modules.**

- `Clock` gives Python's string order (`StrLe`, code-point lexicographic). It proves that this order
  is the order of minutes on zero-padded `HH:MM` times.
- `Chars` gives the character classes the regular expressions use.
- `Wrappers` holds `Option` and `Result`.

Where the documentation of the service and its code differ, the model follows the code:

- **No input validation.** `create` and `update` do not check that times are well-formed. They do
  not check that the start comes before the end either. The model accepts any text and proves the
  time-order facts only for well-formed `HH:MM` values.
- **Unknown ids are ignored.** `update` and `delete` of an unknown id return quietly. They raise no
  not-found error.
- **Weekdays sort as text.** Listings sort weekdays as text ("Quarta" before "Segunda"), not Monday
  to Friday.

## Model

| member | source | states |
|---|---|---|
| Clock.ClockOrderIsTimeOrder | services/horario_service.py:58-59 | on zero-padded `HH:MM` times, lexicographic text order holds exactly when the first time is not later in minutes than the second |
| Clock.UnpaddedTimeSortsOutOfOrder | services/horario_service.py:59 | the text comparison is only valid in the padded format: "10:00" sorts before "9:00" |
| HorarioModel.HasTimeOverlap | services/horario_service.py:53-54 | definition: `[aStart, aEnd)` and `[bStart, bEnd)` overlap unless one ends, in text order, at or before the other starts; its meaning is stated by the three lemmas below |
| HorarioModel.AdjacentSlotsDoNotOverlap | services/horario_service.py:53-54 | a slot ending when another starts does not overlap it (the interval is half-open) |
| HorarioModel.OverlapIsSymmetric | services/horario_service.py:53-54 | overlap does not depend on which slot is given first |
| HorarioModel.OverlapIsSharedMinute | services/horario_service.py:53-54 | for well-formed, non-empty windows, overlap holds exactly when the later start is before the earlier end, so the two windows share a minute |
| HorarioModel.Clashes | services/horario_service.py:64-77 | definition: a row clashes with a window when it has the teacher and weekday that the query selects, is not the ignored id, and overlaps the window |
| HorarioModel.Conflicts | services/horario_service.py:57-79 | definition: the answer of `has_conflict` is whether some row of the table clashes; `HasConflict` is proved to compute it |
| HorarioService.Horarios.HasConflict | services/horario_service.py:57-79 | returns true exactly when some stored row has this teacher and weekday, is not the ignored id, and overlaps the given window |
| HorarioService.Horarios.Create | services/horario_service.py:82-98 | on a conflict, fails with the create message and changes nothing; otherwise appends the row under a fresh id above every existing id, returns that id, and keeps the table conflict-free |
| HorarioModel.CreateKeepsConflictFree | services/horario_service.py:84-85 | a conflict-free table stays conflict-free after appending a row exactly when the conflict check finds nothing for that row |
| HorarioModel.Columns | services/horario_service.py:103-109 | the SET list holds exactly the keyword arguments that name a column, and no more of them than were passed |
| HorarioService.CollectFields | services/horario_service.py:104-109 | the loop over `kwargs.items()` collects exactly the keyword arguments that name a column, in call order |
| HorarioModel.Apply | services/horario_service.py:121-124 | definition: the keyword arguments are laid over the stored row in call order; `ApplyKeepsUnnamedColumns` and `ApplySetsNamedColumns` state what the result holds |
| HorarioModel.ColumnsApplyLikeKwargs | services/horario_service.py:106-124 | applying only the column keywords gives the same row as reading every keyword with `kwargs.get`, so the row checked for conflicts is the row written |
| HorarioModel.ApplyKeepsUnnamedColumns | services/horario_service.py:121-124 | the id and every column not named in the keywords keep their stored values |
| HorarioModel.ApplySetsNamedColumns | services/horario_service.py:121-124 | every column named in the keywords takes the value passed for it |
| HorarioModel.Patched | services/horario_service.py:129-134 | definition: the UPDATE writes the collected columns into every row with that id; `PatchedReplacesKeyedRow` states its effect |
| HorarioModel.Updated | services/horario_service.py:101-135 | definition: no column keyword or an unknown id returns quietly; a clash of the overlaid row raises the update message; otherwise the row is patched; `UpdateFrame` and `UpdateKeepsConflictFree` state its effect |
| HorarioModel.PatchedReplacesKeyedRow | services/horario_service.py:131-133 | the UPDATE statement replaces the row with that id by the patched row and leaves every other row as it was |
| HorarioModel.ReplaceKeepsConflictFree | services/horario_service.py:126-127 | replacing one row of a conflict-free table keeps it conflict-free exactly when the conflict check, ignoring that row's own id, finds nothing |
| HorarioModel.UpdateFrame | services/horario_service.py:101-135 | ids stay unique and unchanged, and only the keyed row can change; no column keyword or an unknown id succeeds without change; a conflict fails with the update message and changes nothing; success writes the keyword overlay into the keyed row |
| HorarioModel.UpdateKeepsConflictFree | services/horario_service.py:113-127 | on a conflict-free table, update fails exactly when the updated row would clash with another row; the table stays conflict-free either way |
| HorarioModel.UpdatedKeepsTable | services/horario_service.py:101-135 | update keeps ids unique and between 1 and the AUTOINCREMENT counter, and keeps a conflict-free table conflict-free |
| HorarioModel.ReapplyOwnWindowSucceeds | services/horario_service.py:121-134 | in a conflict-free table with unique ids, re-submitting a row's own start and end succeeds and leaves the table unchanged, because the row's own id is excluded from the check |
| HorarioModel.DoubleBookedRefuses | services/horario_service.py:121-127 | when the row already overlaps another row of its teacher and weekday, re-submitting its own start and end is refused with the update message and the table is unchanged, since only its own id is excluded from the check |
| HorarioService.Horarios.Update | services/horario_service.py:101-135 | result and new table equal the value-level update; a failure leaves the table unchanged; the table keeps its length and ids; other rows are unchanged; conflict-freedom is preserved |
| HorarioModel.Without | services/horario_service.py:142 | `DELETE ... WHERE id = ?` keeps exactly the rows with another id |
| HorarioModel.DeleteMissingIsNoop | services/horario_service.py:138-144 | deleting an id no row has leaves the table exactly as it was |
| HorarioModel.WithoutKeepsPairwise | services/horario_service.py:138-144 | deleting keeps every pairwise invariant of the table, in particular unique ids and conflict-freedom |
| HorarioService.Horarios.Delete | services/horario_service.py:138-144 | the table becomes the rows with another id; the counter and the invariants (unique ids, conflict-freedom) are kept |
| HorarioModel.Find | services/horario_service.py:151-154 | returns a stored row with that id, and None exactly when no row has it |
| HorarioModel.FindReturnsKeyedRow | services/horario_service.py:151-154 | with unique ids, looking up a stored row's id returns that row |
| HorarioService.Horarios.Get | services/horario_service.py:147-154 | returns a stored row with the id, None exactly when none has it, and the keyed row itself when ids are unique |
| HorarioOrder.Insert | services/horario_service.py:162 | inserting into a listing sorted by (weekday, start) keeps it sorted and adds exactly that row |
| HorarioOrder.Sort | services/horario_service.py:162 | the result is sorted by (weekday, start) text and is a permutation of the input |
| HorarioOrder.Select | services/horario_service.py:162 | the WHERE clause keeps every matching row as often as the table has it, and no other row |
| HorarioOrder.Query | services/horario_service.py:187 | a filtered listing is sorted by (weekday, start) and holds every matching row with its multiplicity, and nothing else |
| HorarioOrder.SameDayListingIsChronological | services/horario_service.py:162 | within one weekday, a listing of padded start times is in chronological order |
| HorarioOrder.WeekdaysSortAsText | services/horario_service.py:187 | weekdays are ordered as text: a "Quarta" lesson is listed before a "Segunda" lesson |
| HorarioService.Horarios.ListByProfessor | services/horario_service.py:157-167 | sorted by (weekday, start), and exactly this teacher's rows with their multiplicity |
| HorarioService.Horarios.ListByTurma | services/horario_service.py:170-180 | sorted by (weekday, start), and exactly this class's rows with their multiplicity |
| HorarioService.Horarios.ListAll | services/horario_service.py:183-190 | sorted by (weekday, start), and a permutation of the whole table |
| HorarioService.Horarios.constructor | services/horario_service.py:33-48 | the freshly created table is empty, with the counter at 1 and the invariant established |
| AlunoValidation.Strip | view/aluno_view.py:10 | `str.strip()`: the result is no longer than the input and neither starts nor ends with whitespace; `StripParts` shows it is the input less its leading and trailing whitespace |
| AlunoValidation.StripParts | view/aluno_view.py:10 | the input is leading whitespace, then the stripped text, then trailing whitespace |
| AlunoValidation.MatchesNameRe | view/aluno_view.py:8 | definition: `NAME_RE.match` on a stripped string holds when it is non-empty and every character is in the name class (ASCII letters, the Latin-1 letters, whitespace, `'`, `-`) |
| AlunoValidation.ValidName | view/aluno_view.py:9-10 | definition: the text is non-empty and its stripped form matches `NAME_RE`; characterised by `ValidNameCharacterisation` |
| AlunoValidation.ValidDigits | view/aluno_view.py:12-13 | definition: the text is non-empty and all digits; characterised by `ValidDigitsIsSanitiserFixpoint` |
| AlunoValidation.ValidBi | view/aluno_view.py:15-16 | definition: the text is non-empty and its stripped form is 14 ASCII letters or digits; characterised by `ValidBiIsPaddedFourteenAlnums` |
| AlunoValidation.ValidPhone | view/aluno_view.py:18-19 | definition: the text is non-empty and its stripped form is 9 digits; characterised by `ValidPhoneIsPaddedNineDigits` |
| AlunoValidation.ValidNameCharacterisation | view/aluno_view.py:8-10 | a name is valid exactly when every character is a letter (ASCII or Latin-1), whitespace, `'` or `-`, and at least one is not whitespace |
| AlunoValidation.ValidDigitsIsSanitiserFixpoint | view/aluno_view.py:12-13 | a digit field is valid exactly when it is non-empty and the digit sanitiser leaves it unchanged |
| AlunoValidation.ValidBiIsPaddedFourteenAlnums | view/aluno_view.py:15-16 | a BI is valid exactly when it is exactly 14 ASCII letters or digits with only whitespace around them |
| AlunoValidation.ValidPhoneIsPaddedNineDigits | view/aluno_view.py:18-19 | a phone is valid exactly when it is exactly 9 digits with only whitespace around them |
| AlunoValidation.Keep | view/aluno_view.py:21-26 | `re.sub` with a negated class: the result holds only class characters, and holds each class character exactly as many times as the input does |
| AlunoValidation.KeepIsSubsequence | view/aluno_view.py:21-26 | the filter only deletes characters and keeps the order of the rest, so with the counts above the result is the input's class characters in order |
| AlunoValidation.SanitizeNameInput | view/aluno_view.py:21-23 | the result holds only name characters, and holds each name character exactly as many times as the input does (other characters zero times); a missing value gives "" |
| AlunoValidation.SanitizeNameInputIsSubsequenceAndIdempotent | view/aluno_view.py:21-23 | sanitising only deletes characters, keeping the order of the rest, and sanitising twice equals sanitising once |
| AlunoValidation.SanitizedNameIsValidIff | view/aluno_view.py:21-23 | a sanitised name is valid exactly when the input had a name character that is not whitespace |
| AlunoValidation.SanitizeDigitsInput | view/aluno_view.py:25-26 | the result holds only digits, and holds each digit exactly as many times as the input does (other characters zero times); a missing value gives "" |
| AlunoValidation.SanitizeDigitsInputIsSubsequenceAndIdempotent | view/aluno_view.py:25-26 | sanitising only deletes characters, keeping the order of the rest, and sanitising twice equals sanitising once |
| AlunoValidation.PhoneMask | view/aluno_view.py:122 | the masked phone is the first min(9, n) characters of the digit sanitiser's output, which holds the input's n digits in order |
| AlunoValidation.PhoneMaskIsIdempotentAndValidIff | view/aluno_view.py:122 | masking twice equals masking once, and the masked phone passes the phone validator exactly when the input had at least 9 digits |
| AlunoValidation.BiMask | view/aluno_view.py:128 | the masked BI is the first min(14, n) characters of the class filter's output, which holds the input's n ASCII letters and digits in order |
| AlunoValidation.BiMaskIsIdempotentAndValidIff | view/aluno_view.py:128 | masking twice equals masking once, and the masked BI passes the BI validator exactly when the input had at least 14 ASCII letters or digits |
| AlunoValidation.DecimalValue | view/aluno_view.py:243 | `int()` of a digit string: the value of n digits is below 10^n |
| AlunoValidation.ValidateAllFields | view/aluno_view.py:233-252 | the form is accepted exactly when no message is reported |
| AlunoValidation.FirstFailure | view/aluno_view.py:233-252 | reports nothing exactly when every check passes, and otherwise the message of the first check that fails |
| AlunoValidation.ValidateAllFieldsReportsFirstFailure | view/aluno_view.py:233-252 | the early-return chain reports the message of the first failing check, in field order (name, father, mother, age digits, age range, house number, BI, phone), and accepts exactly when all pass |
| AlunoValidation.NameAloneIsAccepted | view/aluno_view.py:233-252 | a form with a valid name and every optional field empty is accepted |
| AlunoValidation.AcceptedAgeIsInRange | view/aluno_view.py:240-245 | an accepted form's age, when given, is digits with a value between 0 and 120 |

## Left out

- SQLite itself is not modelled: connections, `ensure_tables` and the DDL are replaced by the in-memory `Horarios` table. The legacy `horario` table and the `services/db.py` helpers are not part of this model either.
- HorarioService.Horarios: each service call is one atomic step. Between the conflict check and the INSERT/UPDATE, the source runs two separate connections. Another writer could slip in there, and the model does not capture that race.
- HorarioService.Horarios.Create: the AUTOINCREMENT counter is an unbounded integer. SQLite's 64-bit rowid limit is not modelled.
- HorarioService.Horarios.Update: keyword arguments are modelled as a sequence of typed `Arg` values with distinct keywords. Python's dynamic typing of the values is not modelled. A value of the wrong type for a column is outside the model.
- HorarioOrder.Query: the order of rows that tie on both weekday and start time is left open. The listings are specified by sortedness and by the multiset of rows, not by one permutation. The model does not say which of SQLite's tie orders is returned.
- HorarioModel.OverlapIsSharedMinute: this lemma is stated only for well-formed `HH:MM` windows whose start precedes their end. For other text the service still compares as text, and `HasTimeOverlap` models that comparison.
- The rows that listings and `get` return are `Slot` values, not Python dicts.
- Chars.IsDigit: `str.isdigit` and the regex class `\d` accept non-ASCII digits. They also differ from each other on superscript digits. The model treats only `0`-`9` as digits, and so does not capture the age field's `int()` failing on a superscript digit.
- AlunoValidation.ValidateAllFields: `int()` raises `ValueError` on a digit string longer than Python's integer string-conversion limit (4300 digits by default), and the age field sets no maximum length. `DecimalValue` is unbounded, so for such an age the model reports the out-of-range message where the source raises.
- AlunoValidation.ValidateAllFields: the user interface is not modelled. That includes the Flet controls, event handlers, dialogs, permission checks and the calls into the student service. The form's field values are given as parameters.
- Unicode whitespace: `IsSpace` is the fixed set of code points that Python's `str.isspace` accepts. No other Unicode classification (case folding, normalisation) is modelled.
- The rest of the application is not part of this model: the other services, the views, `main.py`, `server.py` and `render_config.py`.
