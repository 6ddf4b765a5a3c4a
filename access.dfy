/**
 The login gate (`handleLogin`): an address is accepted when it is not empty
 and its lower-cased form ends with one of the institutional domains.
 */
module Access {
  import opened Wrappers
  import opened Text

  /** `DOMINIOS_PERMITIDOS`. */
  const Domains: seq<string> := ["@alumnos.ucm.cl", "@alum.ucm.cl", "@ucm.cl"]

  const EmptyInputMessage: string := "Escribe tu correo."

  /** The refusal text: the allowed domains joined by ", ". */
  const DeniedMessage: string := "Solo correos: " + Join(Domains, ", ")

  /** `DOMINIOS_PERMITIDOS.some(d => email.toLowerCase().endsWith(d))`. */
  predicate Institutional(email: string)
  {
    exists i :: 0 <= i < |Domains| && EndsWith(Lower(email), Domains[i])
  }

  /**
   The outcome of submitting `input`: the raw input (neither trimmed nor
   lower-cased) becomes the user, or the message explains the refusal.
   */
  function Login(input: string): (r: Result<string>)
    ensures r.Ok? <==> input != "" && Institutional(input)
    ensures r.Ok? ==> r.value == input
    ensures r.Err? ==> r.message == (if input == "" then EmptyInputMessage else DeniedMessage)
  {
    if input == "" then Err(EmptyInputMessage)
    else if Institutional(input) then Ok(input)
    else Err(DeniedMessage)
  }

  /** Acceptance does not depend on the case of the address. */
  lemma LoginIgnoresCase(input: string)
    ensures Login(input).Ok? <==> Login(Lower(input)).Ok?
  {
  }

  /** Each allowed domain starts with '@' and ends in "ucm.cl". */
  lemma DomainShape(i: int)
    requires 0 <= i < |Domains|
    ensures |Domains[i]| > 0 && Domains[i][0] == '@'
    ensures EndsWith(Domains[i], "ucm.cl")
  {
  }

  /** Every accepted address has an '@' and, lower-cased, ends in "ucm.cl". */
  lemma AcceptedIsInstitutional(input: string)
    requires Login(input).Ok?
    ensures '@' in input
    ensures EndsWith(Lower(input), "ucm.cl")
  {
    var i :| 0 <= i < |Domains| && EndsWith(Lower(input), Domains[i]);
    var d := Domains[i];
    var low := Lower(input);
    DomainShape(i);
    EndsWithTransitive(low, d, "ucm.cl");
    var k := |low| - |d|;
    assert low[k..][0] == d[0];
    assert low[k] == '@';
    assert LowerChar(input[k]) == '@';
    assert input[k] == '@';
  }

  /** Surrounding spaces are not trimmed: a trailing space is refused. */
  lemma LoginDoesNotTrim()
    ensures Login("ANA@UCM.CL") == Ok("ANA@UCM.CL")
    ensures Login("ANA@UCM.CL ") == Err(DeniedMessage)
  {
    assert Lower("ANA@UCM.CL") == "ana@ucm.cl";
    assert EndsWith(Lower("ANA@UCM.CL"), Domains[2]);
    var spaced := Lower("ANA@UCM.CL ");
    assert spaced[|spaced| - 1] == ' ';
    forall i | 0 <= i < |Domains| ensures !EndsWith(spaced, Domains[i]) {
      assert Domains[i][|Domains[i]| - 1] == 'l';
    }
  }
}
