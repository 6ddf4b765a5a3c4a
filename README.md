# Course-schedule planner: verified model of the planner core

This project models the schedule-building core of a single-page course planner.
A student logs in with an institutional e-mail address. They pick courses (`ramos`)
from a catalog and place them into a weekly grid of 6 days × 9 time blocks. Each
placement is stored as one row of a remote table. The planner also keeps a running
credit total (`creditosTotales`), capped at 30 credits. On login, the schedule is
rebuilt from the stored rows.

Modules, one per component of `src/App.jsx`:

- `Wrappers`: `Option` and `Result`.
- `Text`: ASCII `toLowerCase`, `endsWith`, `includes` and `join`.
- `Schedule`: courses, entries, the `DIAS`/`BLOQUES` grid, the two limits, and
  `Credits`. `Credits` is the specification of the running total: each distinct
  course present counts once.
- `Catalog`: catalog lookup (`find`), the sidebar search (`ramosFiltrados`) and the
  selection toggle.
- `Admission`: the local checks that `colocarEnCelda` runs before its insert.
- `Access`: the login gate `handleLogin` and `DOMINIOS_PERMITIDOS`.
- `Restore`: `cargarHorarioGuardado`. It maps stored rows to entries through the
  catalog and drops unknown courses. Its `forEach` credit loop is a method with a
  loop invariant.
- `Export`: the `datosTabla` grid that `exportarExcel` builds.
- `Planner`: class `App`. It holds the component state (`usuario`, `errorLogin`,
  `catalogoRamos`, `ramoSeleccionado`, `horarioArmado`, `creditosTotales`) and has
  one method per handler.

Each remote call is an argument of the method that makes it:

- an insert reply is `InsertFailed` or `Inserted(rowId)`;
- a delete is a `deleted: bool`;
- a select is `Option<seq<Row>>`, where `None` means the query failed.

The `window.confirm` answer is the `confirmed` argument of `ClearAll`.

The model keeps these behaviours of the code as written:

- `Place` raises the credit total before the insert (`src/App.jsx:111`), so a
  failed insert leaves the total raised with no new entry. `Place`'s contract says
  exactly by how much the total then exceeds `Credits(schedule)`.
- `handleLogin` does not trim the input, and it stores the raw input, not its
  lower-cased form. `LoginDoesNotTrim` shows that `handleLogin` refuses
  `"ANA@UCM.CL "`. The whitespace handling of the form field is not modelled.
- Login accepts an address by its domain suffix alone (`src/App.jsx:86`).
- Reconstruction that returns no rows leaves the current schedule and total in
  place (`src/App.jsx:51`). `Logout` keeps the schedule as well. So after one user
  logs out, a second user with no stored rows keeps seeing the first user's
  schedule. The model keeps this behaviour.
- The effect guard tests `usuario` for truthiness, so an empty user string does not
  trigger reconstruction.

Environmental facts the model takes as preconditions:

- Catalog ids are unique (the catalog table's key).
- Stored row ids are unique (the schedule table's key).
- A successful insert returns an id that no current entry has.

With these, `App.Valid()` holds throughout. `App.CreditsAccurate()`
(`credits == Credits(schedule)`) is kept by `Reconstruct`, by `Place` unless its
insert fails, by `Remove` of a displayed entry, and by `ClearAll`. It therefore
holds after any sequence of these calls in which every insert succeeds.
`WithinCapacity` (at most 2 entries per cell) and `NoRepeatedPlacement` are kept by
`Place` and `Remove`.

## Model

| member | source | states |
|---|---|---|
| `Text.Lower` | src/App.jsx:86 | lower-casing (each character through `LowerChar`) keeps the length, turns each capital A-Z into the lower-case letter at the same place in the alphabet, and keeps every other character |
| `Text.EndsWith` | src/App.jsx:86 | `endsWith`: the suffix is no longer than the text and equals its last characters |
| `Text.Contains` | src/App.jsx:200-201 | `includes`: the searched text equals the slice of the text at some position |
| `Text.Join` | src/App.jsx:188 | `join`: no parts give "", one part gives itself, and otherwise the parts are written in order with the separator between neighbours |
| `Text.LowerIdempotent` | src/App.jsx:200-201 | lower-casing twice is the same as lower-casing once |
| `Text.JoinContainsPart` | src/App.jsx:188 | every part of a joined text can be found in it |
| `Text.JoinEmptyIff` | src/App.jsx:188 | joining non-empty parts gives "" exactly when there are no parts |
| `Schedule.Days` | src/App.jsx:8 | the six day columns `DIAS`, Lunes to Sábado, in order |
| `Schedule.Blocks` | src/App.jsx:9-13 | the nine time blocks `BLOQUES`, 08:30 - 09:30 to 17:55 - 18:55, in order |
| `Schedule.CreditCeiling` | src/App.jsx:110 | the credit ceiling is 30 |
| `Schedule.CellCapacity` | src/App.jsx:104 | a cell holds at most 2 entries |
| `Schedule.HasCourse` | src/App.jsx:108 | `some(h => h.ramo.id === id)`: some entry is of the course with that id |
| `Schedule.InCell` | src/App.jsx:103 | the cell filter keeps exactly the entries of that (day, block) |
| `Schedule.WithoutUid` | src/App.jsx:154 | the removal filter keeps exactly the entries whose row id differs |
| `Schedule.InCellSnoc` | src/App.jsx:103 | an entry added at the end of the schedule is added at the end of its own cell's list, and of no other |
| `Schedule.InCellAppend` | src/App.jsx:103 | the cell filter distributes over concatenation, so it keeps schedule order and lists each entry once (the count that the capacity rule tests) |
| `Schedule.WithoutUidSnoc` | src/App.jsx:154 | an entry added at the end of the schedule survives the removal at the end of the result exactly when its row id differs |
| `Schedule.WithoutUidAppend` | src/App.jsx:154 | the removal filter distributes over concatenation, so it keeps schedule order |
| `Schedule.DistinctCourseIds` | src/App.jsx:70 | the id list has no repeats and holds exactly the course ids present |
| `Schedule.CreditsAppend` | src/App.jsx:108-111 | appending an entry raises the distinct-course total by its credits iff its course was absent |
| `Schedule.AppendKeepsCapacity` | src/App.jsx:103-104 | appending to a cell holding fewer than 2 entries keeps every cell at 2 or fewer |
| `Schedule.AppendKeepsNoRepeat` | src/App.jsx:105 | appending a course to a cell that lacks it keeps every (course, cell) pair unique |
| `Schedule.RemovalShrinksCells` | src/App.jsx:154 | removal never adds an entry to any cell |
| `Schedule.RemovalKeepsCapacity` | src/App.jsx:154 | removal keeps every cell at 2 entries or fewer |
| `Schedule.UniqueUidsOfRemoval` | src/App.jsx:154 | removal keeps row ids unique |
| `Schedule.CreditsAfterRemoval` | src/App.jsx:154-161 | removing a placed entry lowers the distinct-course total by its credits iff no remaining entry has its course |
| `Catalog.Find` | src/App.jsx:56 | lookup returns a catalog course with the requested id, and none only when no course has that id |
| `Catalog.FindUnique` | src/App.jsx:72 | with unique catalog ids, looking up a catalog course's id returns that course |
| `Catalog.CoherentFromCatalog` | src/App.jsx:158-160 | entries whose courses come from a unique-id catalog agree on each course's record, so an id determines the credits |
| `Catalog.Matches` | src/App.jsx:199-202 | a course matches when its lower-cased name or lower-cased id includes the lower-cased query |
| `Catalog.Search` | src/App.jsx:199-202 | the filter keeps exactly the catalog courses whose lower-cased name or id includes the lower-cased query, and is no longer than the catalog |
| `Catalog.SearchAppend` | src/App.jsx:199-202 | the filter keeps catalog order |
| `Catalog.SearchEmptyQuery` | src/App.jsx:199-202 | an empty query returns the whole catalog |
| `Catalog.SearchIgnoresQueryCase` | src/App.jsx:199-202 | the result does not depend on the query's letter case |
| `Catalog.SearchFindsOwnId` | src/App.jsx:201 | a course's own id as the query lists that course |
| `Catalog.Toggle` | src/App.jsx:93-96 | the result is empty iff the clicked course's id is the selected one, and otherwise is the clicked course |
| `Catalog.ToggleTwice` | src/App.jsx:93-96 | clicking the same course twice from no selection, or from that course, returns to the starting selection |
| `Admission.Admit` | src/App.jsx:102-112 | a placement proceeds only into a cell with room that lacks the course, and always does so when the course is already placed elsewhere or the total plus its credits is at most 30; the total it proceeds with is the old total plus the credits of a new course, or unchanged for a course already placed, so a new course never proceeds past 30; each refusal names the first check that fails, in source order: `CellFull` exactly when the cell holds 2 or more entries, `AlreadyInCell` exactly when the cell has room but holds the course, and `OverCeiling` exactly when the cell has room, the course is nowhere in the schedule and the total plus its credits exceeds 30 |
| `Admission.NewCourseOverCeilingRefused` | src/App.jsx:108-110 | a new course whose credits take the running total past 30 is never placed |
| `Admission.FullCellRefuses` | src/App.jsx:104 | a cell with 2 or more entries refuses any course |
| `Admission.RepeatNeverAdmitted` | src/App.jsx:105 | placing an entry's course into its own cell again never proceeds |
| `Admission.CeilingIsInclusive` | src/App.jsx:110 | a new course bringing the total to exactly 30 is accepted with total 30 |
| `Admission.PlacedCourseSkipsCeiling` | src/App.jsx:108-109 | a course present elsewhere proceeds with the total unchanged, whatever it is |
| `Admission.AdmittedTotalIsAccurate` | src/App.jsx:108-111 | from an accurate total, the total a placement proceeds with equals the distinct-course credits after the append |
| `Access.Domains` | src/App.jsx:6 | the allowed suffixes `DOMINIOS_PERMITIDOS`: "@alumnos.ucm.cl", "@alum.ucm.cl", "@ucm.cl" |
| `Access.Institutional` | src/App.jsx:86 | an address is allowed when its lower-cased form ends with one of the allowed suffixes |
| `Access.DeniedMessage` | src/App.jsx:87 | the refusal text is "Solo correos: " followed by the allowed suffixes joined with ", " |
| `Access.Login` | src/App.jsx:82-91 | accepted iff non-empty and the lower-cased input ends with an allowed domain; the accepted user is the raw input; the empty input gets `EmptyInputMessage` ("Escribe tu correo."), any other refusal gets `DeniedMessage`, the domain list message |
| `Access.LoginIgnoresCase` | src/App.jsx:86 | an address is accepted iff its lower-cased form is |
| `Access.AcceptedIsInstitutional` | src/App.jsx:86 | an accepted address contains '@' and its lower-cased form ends in "ucm.cl" |
| `Access.LoginDoesNotTrim` | src/App.jsx:84-89 | "ANA@UCM.CL" is accepted as typed, while "ANA@UCM.CL " (trailing space) is refused |
| `Restore.ResolveRow` | src/App.jsx:56-67 | a stored row becomes one entry with its database id, the catalog's course and its cell when the course id is in the catalog, and nothing otherwise |
| `Restore.Resolve` | src/App.jsx:54-67 | every rebuilt entry comes from a stored row with the same id, course id and cell, its course is the catalog's, and no more entries than rows |
| `Restore.ResolveAppend` | src/App.jsx:54-67 | rebuilding keeps the row order |
| `Restore.ResolveKeepsKnownRow` | src/App.jsx:56-67 | every row with a known course id becomes an entry with the database id as its row id |
| `Restore.DropUnknownRow` | src/App.jsx:67 | a row with an unknown course id changes nothing in the rebuilt schedule |
| `Restore.ResolveUniqueUids` | src/App.jsx:62 | unique row ids give unique entry ids |
| `Restore.CatalogCredits` | src/App.jsx:72-73 | the credits of the catalog course with that id, or 0 when no course has it |
| `Restore.SumCredits` | src/App.jsx:71-74 | the catalog credits of the listed ids, added up in order |
| `Restore.TotalCredits` | src/App.jsx:71-74 | the accumulation loop returns the sum of the catalog credits of the given ids |
| `Restore.DistinctSumIsCredits` | src/App.jsx:69-74 | for resolved entries, the catalog credits summed over the distinct ids equal the distinct-course total `Credits` |
| `Restore.ReconstructionExample` | src/App.jsx:51-77 | rows for MAT101 (3 credits) and for an unknown course rebuild to the single MAT101 entry, with id 1 and 3 credits |
| `Export.Label` | src/App.jsx:188 | an entry's text is its course id, a space and the course name |
| `Export.Labels` | src/App.jsx:188 | one label per entry, in schedule order |
| `Export.CellText` | src/App.jsx:187-188 | a cell's text is the labels of the entries in that cell, in schedule order, joined with " / " |
| `Export.ExportTable` | src/App.jsx:184-191 | the table has one row per block, in `BLOQUES` order, each with one cell per day |
| `Export.ExportListsEveryEntry` | src/App.jsx:186-188 | each placed entry's "id nombre" label appears in the cell of its block and day |
| `Export.ExportEmptyCell` | src/App.jsx:187-188 | a cell's text is empty iff no entry is placed there |
| `Export.ExportSingleEntry` | src/App.jsx:188 | a cell with one entry reads exactly "id nombre" |
| `Export.ExportTwoEntries` | src/App.jsx:187-188 | a cell with two entries reads the first label, " / ", then the second label, in schedule order |
| `Planner.App.constructor` | src/App.jsx:17-26 | the initial state: no user, empty catalog, schedule and selection, total 0 |
| `Planner.App.LoadCatalog` | src/App.jsx:29-35 | the catalog becomes the query's data when there is some, else stays as it was |
| `Planner.App.HandleLogin` | src/App.jsx:82-91 | an accepted input becomes the user and clears the message; a refusal keeps the user and shows the message |
| `Planner.App.Logout` | src/App.jsx:229 | the user is cleared |
| `Planner.App.ToggleSelection` | src/App.jsx:93-96 | the selection becomes `Toggle` of the old selection |
| `Planner.App.Reconstruct` | src/App.jsx:44-79 | with rows, the schedule becomes the resolved rows and the total becomes their distinct-course credits; with no rows or a failed select, nothing changes |
| `Planner.App.OnSessionChange` | src/App.jsx:38-51 | reconstruction runs only when a non-empty user is set and the catalog is non-empty; then stored rows replace the schedule and total, while a failed select or no rows leaves both unchanged |
| `Planner.App.Place` | src/App.jsx:99-138 | no selection or a refused check changes nothing, and a refusal reports the refusing verdict, never `Admitted`; a failed insert leaves the schedule but raises the total; a successful insert appends exactly the new entry; the accurate total, the cell capacity and unique placements are kept |
| `Planner.App.Remove` | src/App.jsx:141-162 | a failed delete changes nothing; a successful delete removes exactly the entries with that row id and lowers the total by the course's credits iff no entry of the course remains; the accurate total and cell capacity are kept |
| `Planner.App.ClearAll` | src/App.jsx:165-181 | a confirmed, successful delete empties the schedule and zeroes the total; anything else changes nothing |

## Left out

- Network calls to the hosted database (catalog select, row select, insert, delete, bulk delete): they are method arguments, and the server-side filter by e-mail is assumed.
- The e-mail stored with each inserted row (`src/App.jsx:118`): entries do not carry it, because only the server uses it.
- React scheduling (`useState`/`useEffect` timing), stale closures, and concurrent clicks interleaving around the awaited calls: these are concurrency concerns, and each method is modelled as running to completion.
- `alert`, `console.log` and the `window.confirm` dialog: the confirm answer is an argument.
- The workbook creation, column widths and file writing of `exportarExcel` (`src/App.jsx:192-196`): they happen in a foreign spreadsheet library.
- JSX rendering and styles, except the logout button's state change.
- `Text.Lower`: covers only ASCII A-Z, not full Unicode `toLowerCase` (for example `É` is unchanged).
- `Planner.App.LoadCatalog`: requires unique catalog ids and an empty catalog, because the mount effect runs once and the catalog table is keyed by id.

