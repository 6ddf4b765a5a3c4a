/**
 Reconstruction of the schedule from the stored rows (`cargarHorarioGuardado`):
 rows are resolved against the catalog, unknown course ids are dropped, and the
 credit total is summed over the distinct resolved courses.
 */
module Restore {
  import opened Wrappers
  import opened Schedule
  import opened Catalog

  /** A stored row of `mis_horarios` for the current user: row id, course id and cell. */
  datatype Row = Row(id: int, courseId: string, day: string, block: string)

  /** No two rows share an id (the table's key). */
  predicate UniqueRowIds(rows: seq<Row>)
  {
    forall i, j :: 0 <= i < j < |rows| ==> rows[i].id != rows[j].id
  }

  /** The entry one row resolves to: none when its course id is unknown. */
  function ResolveRow(catalog: seq<Course>, row: Row): seq<Entry>
  {
    match Find(catalog, row.courseId)
    case Some(c) => [Entry(row.id, c, row.day, row.block)]
    case None => []
  }

  /**
   The rows mapped to entries through the catalog, dropping those whose course
   id the catalog does not know; each entry keeps its row's id and cell.
   */
  function Resolve(catalog: seq<Course>, rows: seq<Row>): (es: seq<Entry>)
    ensures |es| <= |rows|
    ensures forall e :: e in es ==> Find(catalog, e.course.id) == Some(e.course)
    ensures forall e :: e in es ==> Row(e.uid, e.course.id, e.day, e.block) in rows
  {
    if rows == [] then []
    else
      assert rows == [rows[0]] + rows[1..];
      ResolveRow(catalog, rows[0]) + Resolve(catalog, rows[1..])
  }

  /** Resolving keeps the row order: it resolves each part of a concatenation on its own. */
  lemma {:induction false} ResolveAppend(catalog: seq<Course>, a: seq<Row>, b: seq<Row>)
    ensures Resolve(catalog, a + b) == Resolve(catalog, a) + Resolve(catalog, b)
  {
    if a == [] {
      assert a + b == b;
    } else {
      var ab := a + b;
      assert ab[0] == a[0] && ab[1..] == a[1..] + b;
      ResolveAppend(catalog, a[1..], b);
      assert Resolve(catalog, ab) == ResolveRow(catalog, a[0]) + Resolve(catalog, a[1..] + b);
    }
  }

  /** A row whose course the catalog knows becomes an entry with the row's id and cell. */
  lemma {:induction false} ResolveKeepsKnownRow(catalog: seq<Course>, rows: seq<Row>, i: int)
    requires 0 <= i < |rows|
    requires Find(catalog, rows[i].courseId).Some?
    ensures Entry(rows[i].id, Find(catalog, rows[i].courseId).value, rows[i].day, rows[i].block)
            in Resolve(catalog, rows)
  {
    if i > 0 {
      ResolveKeepsKnownRow(catalog, rows[1..], i - 1);
    }
  }

  /** A row whose course id the catalog does not know contributes nothing. */
  lemma DropUnknownRow(catalog: seq<Course>, rows: seq<Row>, i: int)
    requires 0 <= i < |rows|
    requires Find(catalog, rows[i].courseId).None?
    ensures Resolve(catalog, rows[..i] + rows[i + 1..]) == Resolve(catalog, rows)
  {
    var after := rows[i + 1..];
    var tail := [rows[i]] + after;
    assert rows == rows[..i] + tail;
    assert tail[0] == rows[i] && tail[1..] == after;
    assert Resolve(catalog, tail) == Resolve(catalog, after);
    ResolveAppend(catalog, rows[..i], tail);
    ResolveAppend(catalog, rows[..i], after);
  }

  /** Distinct row ids give distinct entry ids. */
  lemma {:induction false} ResolveUniqueUids(catalog: seq<Course>, rows: seq<Row>)
    requires UniqueRowIds(rows)
    ensures UniqueUids(Resolve(catalog, rows))
  {
    if rows != [] {
      var tail := rows[1..];
      assert UniqueRowIds(tail) by {
        forall a, b | 0 <= a < b < |tail| ensures tail[a].id != tail[b].id {
          assert tail[a] == rows[a + 1] && tail[b] == rows[b + 1];
        }
      }
      ResolveUniqueUids(catalog, tail);
      var rest := Resolve(catalog, tail);
      forall e | e in rest ensures e.uid != rows[0].id {
        var k :| 0 <= k < |tail| && tail[k] == Row(e.uid, e.course.id, e.day, e.block);
        assert rows[k + 1].id == e.uid;
      }
      var head := ResolveRow(catalog, rows[0]);
      assert Resolve(catalog, rows) == head + rest;
      forall a, b | 0 <= a < b < |head + rest| ensures (head + rest)[a].uid != (head + rest)[b].uid {
        if a < |head| {
          assert (head + rest)[b] in rest;
        }
      }
    }
  }

  /** The credits of course `id` according to the catalog; an unknown id adds nothing. */
  function CatalogCredits(catalog: seq<Course>, id: string): int
  {
    match Find(catalog, id)
    case Some(c) => c.credits
    case None => 0
  }

  /** The catalog credits of each id in `ids`, added up. */
  function SumCredits(catalog: seq<Course>, ids: seq<string>): int
  {
    if ids == [] then 0
    else SumCredits(catalog, ids[..|ids| - 1]) + CatalogCredits(catalog, ids[|ids| - 1])
  }

  /** The `forEach` that accumulates `creditosAcumulados` over the distinct course ids. */
  method TotalCredits(catalog: seq<Course>, ids: seq<string>) returns (total: int)
    ensures total == SumCredits(catalog, ids)
  {
    total := 0;
    var i := 0;
    while i < |ids|
      invariant 0 <= i <= |ids|
      invariant total == SumCredits(catalog, ids[..i])
    {
      var found := Find(catalog, ids[i]);
      if found.Some? {
        total := total + found.value.credits;
      }
      assert ids[..i + 1][..i] == ids[..i];
      i := i + 1;
    }
    assert ids[..|ids|] == ids;
  }

  lemma SumCreditsAppend(catalog: seq<Course>, ids: seq<string>, id: string)
    ensures SumCredits(catalog, ids + [id]) == SumCredits(catalog, ids) + CatalogCredits(catalog, id)
  {
  }

  /**
   For entries resolved through the catalog, summing the catalog credits over
   the distinct course ids gives the schedule's credit total.
   */
  lemma {:induction false} DistinctSumIsCredits(catalog: seq<Course>, es: seq<Entry>)
    requires forall e :: e in es ==> Find(catalog, e.course.id) == Some(e.course)
    ensures SumCredits(catalog, DistinctCourseIds(es)) == Credits(es)
  {
    if es != [] {
      var last := es[|es| - 1];
      var prefix := es[..|es| - 1];
      assert es == prefix + [last];
      assert forall e :: e in prefix ==> e in es;
      DistinctSumIsCredits(catalog, prefix);
      var ids := DistinctCourseIds(prefix);
      var id := last.course.id;
      if HasCourse(prefix, id) {
        assert DistinctCourseIds(es) == ids;
        assert Credits(es) == Credits(prefix);
      } else {
        assert DistinctCourseIds(es) == ids + [id];
        assert Credits(es) == Credits(prefix) + last.course.credits;
        SumCreditsAppend(catalog, ids, id);
        assert CatalogCredits(catalog, id) == last.course.credits;
      }
    }
  }

  /**
   The reconstruction example: a row for a known 3-credit course and a row for
   an unknown course yield one entry, with the known row's id, worth 3 credits.
   */
  lemma ReconstructionExample()
    ensures var mat := Course("MAT101", "Matemáticas", 3);
      var rows := [Row(1, "MAT101", "Lunes", "08:30 - 09:30"), Row(2, "UNKNOWN99", "Martes", "09:35 - 10:35")];
      var es := Resolve([mat], rows);
      es == [Entry(1, mat, "Lunes", "08:30 - 09:30")] && SumCredits([mat], DistinctCourseIds(es)) == 3
  {
  }
}
