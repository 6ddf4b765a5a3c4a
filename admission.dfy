/**
 The local validations `colocarEnCelda` runs before it writes to the store:
 the per-cell capacity, the repeated-placement skip and the credit ceiling.
 */
module Admission {
  import opened Schedule

  /** Why a placement stops before the remote insert, or the credit total it proceeds with. */
  datatype Verdict = CellFull | AlreadyInCell | OverCeiling | Admitted(credits: int)

  /**
   The checks in their order: a full cell refuses, a course already in the cell
   is skipped, a course placed elsewhere proceeds with the total unchanged, and a
   new course proceeds only if the running total plus its credits is at most the
   ceiling (strict `>` refuses).
   */
  function Admit(es: seq<Entry>, credits: int, c: Course, day: string, block: string): (v: Verdict)
    ensures v.Admitted? ==> |InCell(es, day, block)| < CellCapacity
    ensures v.Admitted? ==> !HasCourse(InCell(es, day, block), c.id)
    ensures v.Admitted? && !HasCourse(es, c.id) ==> v.credits <= CreditCeiling
    ensures v == CellFull <==> |InCell(es, day, block)| >= CellCapacity
    ensures v == AlreadyInCell <==> |InCell(es, day, block)| < CellCapacity && HasCourse(InCell(es, day, block), c.id)
    ensures v == OverCeiling <==>
      |InCell(es, day, block)| < CellCapacity && !HasCourse(InCell(es, day, block), c.id)
      && !HasCourse(es, c.id) && credits + c.credits > CreditCeiling
    ensures v.Admitted? ==> v.credits == credits + (if HasCourse(es, c.id) then 0 else c.credits)
    ensures (|InCell(es, day, block)| < CellCapacity && !HasCourse(InCell(es, day, block), c.id)
             && (HasCourse(es, c.id) || credits + c.credits <= CreditCeiling)) ==> v.Admitted?
  {
    var here := InCell(es, day, block);
    if |here| >= CellCapacity then CellFull
    else if HasCourse(here, c.id) then AlreadyInCell
    else if HasCourse(es, c.id) then Admitted(credits)
    else if credits + c.credits > CreditCeiling then OverCeiling
    else Admitted(credits + c.credits)
  }

  /** A full cell refuses whatever course is offered. */
  lemma FullCellRefuses(es: seq<Entry>, credits: int, c: Course, day: string, block: string)
    requires |InCell(es, day, block)| >= CellCapacity
    ensures Admit(es, credits, c, day, block) == CellFull
  {
  }

  /** Placing an entry's course again into its own cell never proceeds. */
  lemma RepeatNeverAdmitted(es: seq<Entry>, credits: int, e: Entry)
    requires e in es
    ensures !Admit(es, credits, e.course, e.day, e.block).Admitted?
  {
  }

  /** A new course that brings the total to exactly the ceiling is accepted. */
  lemma CeilingIsInclusive(es: seq<Entry>, credits: int, c: Course, day: string, block: string)
    requires |InCell(es, day, block)| < CellCapacity
    requires !HasCourse(es, c.id)
    requires credits + c.credits == CreditCeiling
    ensures Admit(es, credits, c, day, block) == Admitted(CreditCeiling)
  {
  }

  /** A new course whose credits take the running total past the ceiling is never placed. */
  lemma NewCourseOverCeilingRefused(es: seq<Entry>, credits: int, c: Course, day: string, block: string)
    requires !HasCourse(es, c.id)
    requires credits + c.credits > CreditCeiling
    ensures !Admit(es, credits, c, day, block).Admitted?
  {
  }

  /** A course already placed elsewhere skips the ceiling check and leaves the total as it is. */
  lemma PlacedCourseSkipsCeiling(es: seq<Entry>, credits: int, c: Course, day: string, block: string)
    requires |InCell(es, day, block)| < CellCapacity
    requires !HasCourse(InCell(es, day, block), c.id)
    requires HasCourse(es, c.id)
    ensures Admit(es, credits, c, day, block) == Admitted(credits)
  {
  }

  /**
   When the running total is accurate, the total a placement proceeds with is
   the credit total of the schedule with the new entry appended.
   */
  lemma AdmittedTotalIsAccurate(es: seq<Entry>, c: Course, day: string, block: string, uid: int)
    requires Admit(es, Credits(es), c, day, block).Admitted?
    ensures Admit(es, Credits(es), c, day, block).credits == Credits(es + [Entry(uid, c, day, block)])
  {
  }
}
