/**
 The schedule state of the planner: the catalog's course records, the placed
 entries (`horarioArmado`) on the fixed 6 x 9 grid, and the specification of
 the credit total (`creditosTotales`): the credits of each distinct course
 present, a course placed in several cells counting once.
 */
module Schedule {

  /** A catalog course (`ramo`): identifier, name and credit weight. */
  datatype Course = Course(id: string, name: string, credits: int)

  /** A placed entry: the database row id (`id_unico`), the course, and its cell. */
  datatype Entry = Entry(uid: int, course: Course, day: string, block: string)

  /** `DIAS`: the six columns of the grid. */
  const Days: seq<string> := ["Lunes", "Martes", "Miércoles", "Jueves", "Viernes", "Sábado"]

  /** `BLOQUES`: the nine rows of the grid, in time order. */
  const Blocks: seq<string> := [
    "08:30 - 09:30", "09:35 - 10:35", "10:55 - 11:50",
    "11:55 - 12:55", "13:10 - 14:10", "14:30 - 15:30",
    "15:35 - 16:35", "16:55 - 17:50", "17:55 - 18:55"
  ]

  /** The credit ceiling a new course may not push the total beyond. */
  const CreditCeiling: int := 30

  /** The number of entries one cell may hold. */
  const CellCapacity: nat := 2

  /** Some entry of `es` is of course `id` (`some(h => h.ramo.id === id)`). */
  predicate HasCourse(es: seq<Entry>, id: string)
  {
    exists e :: e in es && e.course.id == id
  }

  /** The entries in cell (day, block), in schedule order. */
  function InCell(es: seq<Entry>, day: string, block: string): (r: seq<Entry>)
    ensures |r| <= |es|
    ensures forall e :: e in r <==> e in es && e.day == day && e.block == block
  {
    if es == [] then []
    else
      var last := es[|es| - 1];
      assert es == es[..|es| - 1] + [last];
      InCell(es[..|es| - 1], day, block) + (if last.day == day && last.block == block then [last] else [])
  }

  /** The schedule without the entries whose row id is `uid`, in order. */
  function WithoutUid(es: seq<Entry>, uid: int): (r: seq<Entry>)
    ensures |r| <= |es|
    ensures forall e :: e in r <==> e in es && e.uid != uid
  {
    if es == [] then []
    else
      var last := es[|es| - 1];
      assert es == es[..|es| - 1] + [last];
      WithoutUid(es[..|es| - 1], uid) + (if last.uid == uid then [] else [last])
  }

  /** No two entries share a row id (the row ids come from the database's key). */
  predicate UniqueUids(es: seq<Entry>)
  {
    forall i, j :: 0 <= i < j < |es| ==> es[i].uid != es[j].uid
  }

  /** Entries that name the same course id carry the same course record. */
  ghost predicate Coherent(es: seq<Entry>)
  {
    forall x, y :: x in es && y in es && x.course.id == y.course.id ==> x.course == y.course
  }

  /** No cell holds more than `CellCapacity` entries. */
  ghost predicate WithinCapacity(es: seq<Entry>)
  {
    forall day, block :: |InCell(es, day, block)| <= CellCapacity
  }

  /** No course is placed twice in the same cell. */
  ghost predicate NoRepeatedPlacement(es: seq<Entry>)
  {
    forall x, y :: x in es && y in es && x.course.id == y.course.id && x.day == y.day && x.block == y.block ==> x == y
  }

  /**
   The credit total a schedule stands for: each course contributes its credits
   at its first occurrence only.
   */
  function Credits(es: seq<Entry>): int
  {
    if es == [] then 0
    else
      var last := es[|es| - 1];
      var prefix := es[..|es| - 1];
      Credits(prefix) + (if HasCourse(prefix, last.course.id) then 0 else last.course.credits)
  }

  /** The distinct course ids of a schedule, in order of first appearance (`[...new Set(ids)]`). */
  function DistinctCourseIds(es: seq<Entry>): (ids: seq<string>)
    ensures forall id :: id in ids <==> HasCourse(es, id)
    ensures forall i, j :: 0 <= i < j < |ids| ==> ids[i] != ids[j]
  {
    if es == [] then []
    else
      var last := es[|es| - 1];
      var prefix := es[..|es| - 1];
      assert es == prefix + [last];
      DistinctCourseIds(prefix) + (if HasCourse(prefix, last.course.id) then [] else [last.course.id])
  }

  lemma Regroup(p: seq<Entry>, q: seq<Entry>, r: seq<Entry>)
    ensures p + q + r == p + (q + r)
  {
  }

  /** Adding an entry at the end adds it to the filtered result exactly when it passes the filter. */
  lemma InCellSnoc(s: seq<Entry>, x: Entry, day: string, block: string)
    ensures InCell(s + [x], day, block) == InCell(s, day, block) + (if x.day == day && x.block == block then [x] else [])
  {
    assert (s + [x])[..|s + [x]| - 1] == s;
  }

  /** The cell filter distributes over concatenation: it keeps schedule order and counts each entry once. */
  lemma {:induction false} InCellAppend(a: seq<Entry>, b: seq<Entry>, day: string, block: string)
    ensures InCell(a + b, day, block) == InCell(a, day, block) + InCell(b, day, block)
    decreases |b|
  {
    if b == [] {
      assert a + b == a;
    } else {
      var init := b[..|b| - 1];
      var x := b[|b| - 1];
      assert b == init + [x];
      assert a + b == (a + init) + [x];
      var t := if x.day == day && x.block == block then [x] else [];
      InCellSnoc(a + init, x, day, block);
      InCellSnoc(init, x, day, block);
      InCellAppend(a, init, day, block);
      Regroup(InCell(a, day, block), InCell(init, day, block), t);
    }
  }

  /** Adding an entry at the end adds it to the filtered result exactly when it passes the filter. */
  lemma WithoutUidSnoc(s: seq<Entry>, x: Entry, uid: int)
    ensures WithoutUid(s + [x], uid) == WithoutUid(s, uid) + (if x.uid == uid then [] else [x])
  {
    assert (s + [x])[..|s + [x]| - 1] == s;
  }

  /** The removal filter distributes over concatenation: it keeps schedule order. */
  lemma {:induction false} WithoutUidAppend(a: seq<Entry>, b: seq<Entry>, uid: int)
    ensures WithoutUid(a + b, uid) == WithoutUid(a, uid) + WithoutUid(b, uid)
    decreases |b|
  {
    if b == [] {
      assert a + b == a;
    } else {
      var init := b[..|b| - 1];
      var x := b[|b| - 1];
      assert b == init + [x];
      assert a + b == (a + init) + [x];
      var t := if x.uid == uid then [] else [x];
      WithoutUidSnoc(a + init, x, uid);
      WithoutUidSnoc(init, x, uid);
      WithoutUidAppend(a, init, uid);
      Regroup(WithoutUid(a, uid), WithoutUid(init, uid), t);
    }
  }

  /** Placing an entry raises the total by its course's credits exactly when the course is new. */
  lemma CreditsAppend(es: seq<Entry>, e: Entry)
    ensures Credits(es + [e]) == Credits(es) + (if HasCourse(es, e.course.id) then 0 else e.course.credits)
  {
  }

  /** Appending an entry with a fresh row id keeps row ids unique. */
  lemma AppendFreshUid(es: seq<Entry>, e: Entry)
    requires UniqueUids(es)
    requires forall x :: x in es ==> x.uid != e.uid
    ensures UniqueUids(es + [e])
  {
  }

  /** Adding to a cell with room keeps every cell within capacity. */
  lemma AppendKeepsCapacity(es: seq<Entry>, e: Entry)
    requires WithinCapacity(es)
    requires |InCell(es, e.day, e.block)| < CellCapacity
    ensures WithinCapacity(es + [e])
  {
  }

  /** Adding a course to a cell that does not hold it keeps placements unrepeated. */
  lemma AppendKeepsNoRepeat(es: seq<Entry>, e: Entry)
    requires NoRepeatedPlacement(es)
    requires !HasCourse(InCell(es, e.day, e.block), e.course.id)
    ensures NoRepeatedPlacement(es + [e])
  {
  }

  /** Removing entries never adds to a cell. */
  lemma {:induction false} RemovalShrinksCells(es: seq<Entry>, uid: int, day: string, block: string)
    ensures |InCell(WithoutUid(es, uid), day, block)| <= |InCell(es, day, block)|
  {
    if es != [] {
      var last := es[|es| - 1];
      var prefix := es[..|es| - 1];
      RemovalShrinksCells(prefix, uid, day, block);
      var rest := WithoutUid(prefix, uid);
      var here := if last.day == day && last.block == block then [last] else [];
      assert InCell(es, day, block) == InCell(prefix, day, block) + here;
      if last.uid == uid {
        assert WithoutUid(es, uid) == rest;
      } else {
        assert WithoutUid(es, uid) == rest + [last];
        InCellSnoc(rest, last, day, block);
      }
    }
  }

  /** Removing entries keeps every cell within capacity. */
  lemma RemovalKeepsCapacity(es: seq<Entry>, uid: int)
    requires WithinCapacity(es)
    ensures WithinCapacity(WithoutUid(es, uid))
  {
    forall day, block ensures |InCell(WithoutUid(es, uid), day, block)| <= CellCapacity {
      RemovalShrinksCells(es, uid, day, block);
    }
  }

  /** Removing entries keeps the remaining row ids unique. */
  lemma {:induction false} UniqueUidsOfRemoval(es: seq<Entry>, uid: int)
    requires UniqueUids(es)
    ensures UniqueUids(WithoutUid(es, uid))
  {
    if es != [] {
      var last := es[|es| - 1];
      var prefix := es[..|es| - 1];
      assert UniqueUids(prefix) by {
        forall a, b | 0 <= a < b < |prefix| ensures prefix[a].uid != prefix[b].uid {
          assert prefix[a] == es[a] && prefix[b] == es[b];
        }
      }
      UniqueUidsOfRemoval(prefix, uid);
      var rest := WithoutUid(prefix, uid);
      if last.uid != uid {
        assert WithoutUid(es, uid) == rest + [last];
        forall x | x in rest ensures x.uid != last.uid {
          var a :| 0 <= a < |prefix| && prefix[a] == x;
          assert es[a] == x;
        }
        forall a, b | 0 <= a < b < |rest| + 1 ensures (rest + [last])[a].uid != (rest + [last])[b].uid {
          if b == |rest| {
            assert (rest + [last])[a] in rest;
          }
        }
      }
    }
  }

  /** When no entry has row id `uid`, removing by it changes nothing. */
  lemma {:induction false} WithoutAbsentUid(es: seq<Entry>, uid: int)
    requires forall e :: e in es ==> e.uid != uid
    ensures WithoutUid(es, uid) == es
  {
    if es != [] {
      var last := es[|es| - 1];
      var prefix := es[..|es| - 1];
      assert es == prefix + [last];
      WithoutAbsentUid(prefix, uid);
    }
  }

  /** With unique row ids, removing by an entry's id removes that entry and no other. */
  lemma RemovalDropsOnlyEntry(es: seq<Entry>, e: Entry, id: string)
    requires e in es
    requires UniqueUids(es)
    ensures HasCourse(es, id) <==> HasCourse(WithoutUid(es, e.uid), id) || e.course.id == id
  {
  }

  /** A prefix of a schedule keeps its unique row ids and its coherence. */
  lemma PrefixKeepsInvariants(es: seq<Entry>, n: nat)
    requires n <= |es|
    ensures UniqueUids(es) ==> UniqueUids(es[..n])
    ensures Coherent(es) ==> Coherent(es[..n])
  {
  }

  /** With unique row ids, an entry whose id is the last entry's id is the last entry, and only it. */
  lemma LastOwnsItsUid(es: seq<Entry>, e: Entry)
    requires e in es && UniqueUids(es)
    requires es[|es| - 1].uid == e.uid
    ensures e == es[|es| - 1]
    ensures forall x :: x in es[..|es| - 1] ==> x.uid != e.uid
  {
  }

  /**
   Removing one placed entry subtracts its course's credits from the total
   exactly when no remaining entry is of that course.
   */
  lemma {:induction false} CreditsAfterRemoval(es: seq<Entry>, e: Entry)
    requires e in es
    requires UniqueUids(es)
    requires Coherent(es)
    ensures var rest := WithoutUid(es, e.uid);
      Credits(rest) == Credits(es) - (if HasCourse(rest, e.course.id) then 0 else e.course.credits)
  {
    var last := es[|es| - 1];
    var prefix := es[..|es| - 1];
    assert es == prefix + [last];
    if last.uid == e.uid {
      LastOwnsItsUid(es, e);
      WithoutAbsentUid(prefix, e.uid);
      WithoutUidSnoc(prefix, last, e.uid);
      assert WithoutUid(es, e.uid) == prefix;
    } else {
      assert e in prefix;
      PrefixKeepsInvariants(es, |es| - 1);
      CreditsAfterRemoval(prefix, e);
      var shorter := WithoutUid(prefix, e.uid);
      CreditsAppend(shorter, last);
      WithoutUidSnoc(prefix, last, e.uid);
      assert WithoutUid(es, e.uid) == shorter + [last];
      RemovalDropsOnlyEntry(prefix, e, last.course.id);
      if last.course.id == e.course.id {
        assert last.course == e.course;
      }
    }
  }
}
