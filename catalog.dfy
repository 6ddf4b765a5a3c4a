/**
 The course catalog (`catalogoRamos`): lookup by id, the sidebar's search
 filter (`ramosFiltrados`) and the selection toggle (`toggleSeleccionRamo`).
 */
module Catalog {
  import opened Wrappers
  import opened Text
  import opened Schedule

  /** No two catalog courses share an id (the catalog table's key). */
  predicate UniqueCourseIds(catalog: seq<Course>)
  {
    forall i, j :: 0 <= i < j < |catalog| ==> catalog[i].id != catalog[j].id
  }

  /** `catalog.find(r => r.id === id)`: the first course with that id, if any. */
  function Find(catalog: seq<Course>, id: string): (r: Option<Course>)
    ensures r.Some? ==> r.value in catalog && r.value.id == id
    ensures r.None? <==> forall c :: c in catalog ==> c.id != id
  {
    if catalog == [] then None
    else if catalog[0].id == id then Some(catalog[0])
    else Find(catalog[1..], id)
  }

  /** In a catalog with unique ids, looking up a course's id finds that very course. */
  lemma FindUnique(catalog: seq<Course>, c: Course)
    requires UniqueCourseIds(catalog)
    requires c in catalog
    ensures Find(catalog, c.id) == Some(c)
  {
  }

  /** Entries whose courses all come from a catalog with unique ids agree on each course id. */
  lemma CoherentFromCatalog(catalog: seq<Course>, es: seq<Entry>)
    requires UniqueCourseIds(catalog)
    requires forall e :: e in es ==> e.course in catalog
    ensures Coherent(es)
  {
  }

  /** The search predicate: the query occurs, case-insensitively, in the name or in the id. */
  predicate Matches(c: Course, query: string)
  {
    Contains(Lower(c.name), Lower(query)) || Contains(Lower(c.id), Lower(query))
  }

  /** `ramosFiltrados`: the catalog courses that match the query, in catalog order. */
  function Search(catalog: seq<Course>, query: string): (r: seq<Course>)
    ensures |r| <= |catalog|
    ensures forall c :: c in r <==> c in catalog && Matches(c, query)
  {
    if catalog == [] then []
    else (if Matches(catalog[0], query) then [catalog[0]] else []) + Search(catalog[1..], query)
  }

  /** Filtering a concatenation filters each part and keeps their order. */
  lemma {:induction false} SearchAppend(a: seq<Course>, b: seq<Course>, query: string)
    ensures Search(a + b, query) == Search(a, query) + Search(b, query)
  {
    if a != [] {
      assert (a + b)[1..] == a[1..] + b;
      SearchAppend(a[1..], b, query);
    } else {
      assert a + b == b;
    }
  }

  /** An empty search box shows the whole catalog. */
  lemma {:induction false} SearchEmptyQuery(catalog: seq<Course>)
    ensures Search(catalog, "") == catalog
  {
    if catalog != [] {
      assert Lower(catalog[0].name)[..0] == Lower("");
      SearchEmptyQuery(catalog[1..]);
    }
  }

  /** The search ignores the case of the query. */
  lemma SearchIgnoresQueryCase(catalog: seq<Course>, query: string)
    ensures Search(catalog, query) == Search(catalog, Lower(query))
  {
    LowerIdempotent(query);
    assert forall c :: Matches(c, query) == Matches(c, Lower(query));
    SearchSamePredicate(catalog, query, Lower(query));
  }

  lemma {:induction false} SearchSamePredicate(catalog: seq<Course>, q1: string, q2: string)
    requires forall c :: Matches(c, q1) == Matches(c, q2)
    ensures Search(catalog, q1) == Search(catalog, q2)
  {
    if catalog != [] {
      SearchSamePredicate(catalog[1..], q1, q2);
    }
  }

  /** Typing a course's own id always lists that course. */
  lemma SearchFindsOwnId(catalog: seq<Course>, c: Course)
    requires c in catalog
    ensures c in Search(catalog, c.id)
  {
  }

  /**
   `toggleSeleccionRamo`: clicking the selected course (same id) deselects it;
   clicking any other course selects it.
   */
  function Toggle(selected: Option<Course>, clicked: Course): (r: Option<Course>)
    ensures r.None? <==> selected.Some? && selected.value.id == clicked.id
    ensures r.Some? ==> r.value == clicked
  {
    if selected.Some? && selected.value.id == clicked.id then None else Some(clicked)
  }

  /** Clicking the same course twice restores the selection it started from. */
  lemma ToggleTwice(selected: Option<Course>, clicked: Course)
    requires selected == None || selected == Some(clicked)
    ensures Toggle(Toggle(selected, clicked), clicked) == selected
  {
  }
}
