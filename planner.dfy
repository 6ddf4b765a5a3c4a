/**
 The planner component's state and the operations that change it. The remote
 store is an argument of each operation: the reply to an insert (a failure or
 the new row's id), whether a delete succeeded, or the rows a select returned.
 */
module Planner {
  import opened Wrappers
  import opened Schedule
  import opened Catalog
  import opened Admission
  import opened Access
  import opened Restore

  /** The store's answer to inserting a row: an error, or the id of the new row. */
  datatype InsertReply = InsertFailed | Inserted(rowId: int)

  /** How a placement ended; `Refused` carries the refusing verdict, never `Admitted`. */
  datatype PlaceOutcome = NothingSelected | Refused(reason: Verdict) | InsertError | Placed(entry: Entry)

  class App {
    /** `usuario`: the logged-in address, or none. */
    var user: Option<string>
    /** `errorLogin`: the message under the login form. */
    var loginError: string
    /** `catalogoRamos`. */
    var catalog: seq<Course>
    /** `ramoSeleccionado`. */
    var selected: Option<Course>
    /** `horarioArmado`. */
    var schedule: seq<Entry>
    /** `creditosTotales`. */
    var credits: int

    /**
     Every placed or selected course comes from the catalog, the catalog's ids
     are unique and so are the entries' row ids.
     */
    ghost predicate Valid()
      reads this
    {
      && UniqueCourseIds(catalog)
      && (forall e :: e in schedule ==> e.course in catalog)
      && (selected.Some? ==> selected.value in catalog)
      && UniqueUids(schedule)
    }

    /** The running total equals the credits of the distinct courses placed. */
    ghost predicate CreditsAccurate()
      reads this
    {
      credits == Credits(schedule)
    }

    /** The initial state of the component. */
    constructor ()
      ensures Valid() && CreditsAccurate()
      ensures user == None && loginError == "" && catalog == [] && selected == None
      ensures schedule == [] && credits == 0
    {
      user := None;
      loginError := "";
      catalog := [];
      selected := None;
      schedule := [];
      credits := 0;
    }

    /** The mount effect: the catalog query's data, when there is any, becomes the catalog. */
    method LoadCatalog(data: Option<seq<Course>>)
      requires Valid() && catalog == []
      requires data.Some? ==> UniqueCourseIds(data.value)
      modifies this`catalog
      ensures Valid()
      ensures catalog == if data.Some? then data.value else old(catalog)
    {
      if data.Some? {
        catalog := data.value;
      }
    }

    /** `handleLogin`: an accepted address becomes the user; a refusal only sets the message. */
    method HandleLogin(input: string)
      modifies this`user, this`loginError
      ensures Login(input).Ok? ==> user == Some(input) && loginError == ""
      ensures Login(input).Err? ==> user == old(user) && loginError == Login(input).message
    {
      match Login(input)
      case Ok(u) =>
        user := Some(u);
        loginError := "";
      case Err(m) =>
        loginError := m;
    }

    /** The "(Salir)" button: the user is cleared, the schedule is kept. */
    method Logout()
      modifies this`user
      ensures user == None
    {
      user := None;
    }

    /** `toggleSeleccionRamo` on a course clicked in the sidebar. */
    method ToggleSelection(clicked: Course)
      requires Valid()
      requires clicked in catalog
      modifies this`selected
      ensures Valid()
      ensures selected == Toggle(old(selected), clicked)
    {
      selected := Toggle(selected, clicked);
    }

    /**
     `cargarHorarioGuardado`: when the select returned rows, the schedule becomes
     the resolved rows and the total their distinct-course credits; no rows, or
     a failed select, leaves both as they were.
     */
    method Reconstruct(rows: Option<seq<Row>>)
      requires Valid()
      requires rows.Some? ==> UniqueRowIds(rows.value)
      modifies this`schedule, this`credits
      ensures Valid()
      ensures rows.None? || rows.value == [] ==> schedule == old(schedule) && credits == old(credits)
      ensures rows.Some? && rows.value != [] ==> schedule == Resolve(catalog, rows.value) && CreditsAccurate()
    {
      if rows.Some? && |rows.value| > 0 {
        var rebuilt := Resolve(catalog, rows.value);
        var ids := DistinctCourseIds(rebuilt);
        var total := TotalCredits(catalog, ids);
        DistinctSumIsCredits(catalog, rebuilt);
        ResolveUniqueUids(catalog, rows.value);
        schedule := rebuilt;
        credits := total;
      }
    }

    /** The effect on (`usuario`, `catalogoRamos`): reconstruct once both are present. */
    method OnSessionChange(rows: Option<seq<Row>>)
      requires Valid()
      requires rows.Some? ==> UniqueRowIds(rows.value)
      modifies this`schedule, this`credits
      ensures Valid()
      ensures !(user.Some? && user.value != "" && |catalog| > 0) ==> schedule == old(schedule) && credits == old(credits)
      ensures user.Some? && user.value != "" && |catalog| > 0 && rows.Some? && rows.value != [] ==>
        schedule == Resolve(catalog, rows.value) && CreditsAccurate()
      ensures rows.None? || rows.value == [] ==> schedule == old(schedule) && credits == old(credits)
    {
      if user.Some? && user.value != "" && |catalog| > 0 {
        Reconstruct(rows);
      }
    }

    /**
     `colocarEnCelda`: the validations of `Admit`; an admitted placement raises
     the total (for a new course) before the insert, then appends the entry with
     the store's row id if the insert succeeded.
     */
    method Place(day: string, block: string, reply: InsertReply) returns (outcome: PlaceOutcome)
      requires Valid()
      requires reply.Inserted? ==> forall e :: e in schedule ==> e.uid != reply.rowId
      modifies this`schedule, this`credits
      ensures Valid()
      ensures selected.None? ==> outcome == NothingSelected && schedule == old(schedule) && credits == old(credits)
      ensures selected.Some? ==>
        var v := Admit(old(schedule), old(credits), selected.value, day, block);
        if !v.Admitted? then
          outcome == Refused(v) && schedule == old(schedule) && credits == old(credits)
        else if reply.InsertFailed? then
          outcome == InsertError && schedule == old(schedule) && credits == v.credits
        else
          var e := Entry(reply.rowId, selected.value, day, block);
          outcome == Placed(e) && schedule == old(schedule) + [e] && credits == v.credits
      ensures outcome.Refused? ==> !outcome.reason.Admitted?
      ensures old(CreditsAccurate()) && !outcome.InsertError? ==> CreditsAccurate()
      ensures old(CreditsAccurate()) && outcome.InsertError? ==>
        credits == Credits(schedule) + (if HasCourse(schedule, selected.value.id) then 0 else selected.value.credits)
      ensures WithinCapacity(old(schedule)) ==> WithinCapacity(schedule)
      ensures NoRepeatedPlacement(old(schedule)) ==> NoRepeatedPlacement(schedule)
    {
      if selected.None? {
        return NothingSelected;
      }
      var c := selected.value;
      var v := Admit(schedule, credits, c, day, block);
      if !v.Admitted? {
        return Refused(v);
      }
      ghost var before := schedule;
      credits := v.credits;
      match reply
      case InsertFailed =>
        outcome := InsertError;
      case Inserted(id) =>
        var e := Entry(id, c, day, block);
        AppendFreshUid(before, e);
        schedule := schedule + [e];
        outcome := Placed(e);
        CreditsAppend(before, e);
        if WithinCapacity(before) {
          AppendKeepsCapacity(before, e);
        }
        if NoRepeatedPlacement(before) {
          AppendKeepsNoRepeat(before, e);
        }
    }

    /**
     `quitarDeCelda`: after a successful delete the entries with the item's row
     id are removed, and the item's credits are subtracted only when no remaining
     entry is of its course; a failed delete changes nothing.
     */
    method Remove(item: Entry, deleted: bool)
      requires Valid()
      modifies this`schedule, this`credits
      ensures Valid()
      ensures !deleted ==> schedule == old(schedule) && credits == old(credits)
      ensures deleted ==> schedule == WithoutUid(old(schedule), item.uid)
      ensures deleted ==>
        credits == old(credits) - (if HasCourse(schedule, item.course.id) then 0 else item.course.credits)
      ensures item in old(schedule) && old(CreditsAccurate()) ==> CreditsAccurate()
      ensures WithinCapacity(old(schedule)) ==> WithinCapacity(schedule)
      ensures NoRepeatedPlacement(old(schedule)) ==> NoRepeatedPlacement(schedule)
    {
      if !deleted {
        return;
      }
      ghost var before := schedule;
      var rest := WithoutUid(schedule, item.uid);
      schedule := rest;
      if !HasCourse(rest, item.course.id) {
        credits := credits - item.course.credits;
      }
      assert UniqueUids(rest) by {
        UniqueUidsOfRemoval(before, item.uid);
      }
      if item in before {
        CoherentFromCatalog(catalog, before);
        CreditsAfterRemoval(before, item);
      }
      if WithinCapacity(before) {
        RemovalKeepsCapacity(before, item.uid);
      }
    }

    /**
     `limpiarTodo`: when the user confirms and the bulk delete succeeds the
     schedule and total are reset; otherwise nothing changes.
     */
    method ClearAll(confirmed: bool, deleted: bool)
      requires Valid()
      modifies this`schedule, this`credits
      ensures Valid()
      ensures confirmed && deleted ==> schedule == [] && credits == 0 && CreditsAccurate()
      ensures !(confirmed && deleted) ==> schedule == old(schedule) && credits == old(credits)
    {
      if !confirmed {
        return;
      }
      if deleted {
        schedule := [];
        credits := 0;
      }
    }
  }
}
