/** The public projects page: the category buttons and the case-insensitive search box
    that narrow the fetched list (`filteredProjects`). */
module ProjectsPage {
  import opened Seqs
  import opened Text
  import AdminProjects

  type Project = AdminProjects.Project

  /** The category buttons, "All" first. */
  const Categories: seq<string> := ["All", "Web Development", "Full Stack", "Mobile", "UI/UX"]

  const All: string := "All"

  /** "All" admits every project; any other selection admits only its own category. */
  predicate InCategory(selected: string, p: Project) {
    selected == All || p.category == selected
  }

  /** The query occurs in the title or the description, ignoring ASCII case. */
  predicate MatchesSearch(query: string, p: Project) {
    Contains(ToLower(p.title), ToLower(query)) || Contains(ToLower(p.description), ToLower(query))
  }

  predicate Shown(selected: string, query: string, p: Project) {
    InCategory(selected, p) && MatchesSearch(query, p)
  }

  /** `filteredProjects`: the projects that pass both tests, in their fetched order. */
  function FilteredProjects(projects: seq<Project>, selected: string, query: string): (r: seq<Project>)
    ensures IsSubseq(r, projects)
    ensures forall p :: p in r <==> p in projects && InCategory(selected, p) && MatchesSearch(query, p)
    ensures selected != All ==> forall i :: 0 <= i < |r| ==> r[i].category == selected
  {
    var r := Filter(projects, p => Shown(selected, query, p));
    assert forall i :: 0 <= i < |r| ==> r[i] in r;
    r
  }

  /** With "All" selected only the search narrows the list. */
  lemma AllIsSearchOnly(projects: seq<Project>, query: string)
    ensures FilteredProjects(projects, All, query) == Filter(projects, p => MatchesSearch(query, p))
  {
    FilterAgree(projects, p => Shown(All, query, p), p => MatchesSearch(query, p));
  }

  /** An empty query matches every project, so only the category narrows the list, and
      "All" with an empty query shows everything. */
  lemma EmptyQueryMatchesAll(projects: seq<Project>, selected: string)
    ensures FilteredProjects(projects, selected, "") == Filter(projects, p => InCategory(selected, p))
    ensures FilteredProjects(projects, All, "") == projects
  {
    forall p: Project ensures MatchesSearch("", p) {
      assert ToLower("") == "";
      ContainsEmpty(ToLower(p.title));
    }
    FilterAgree(projects, p => Shown(selected, "", p), p => InCategory(selected, p));
    FilterAgree(projects, p => Shown(All, "", p), p => InCategory(All, p));
    FilterKeepsAll(projects, p => InCategory(All, p));
  }

  /** Lowering an already lowered string changes nothing. */
  lemma LowerTwice(s: string)
    ensures ToLower(ToLower(s)) == ToLower(s)
  {
  }

  /** The search ignores the case of the query: typing it in upper or lower case filters
      alike. */
  lemma SearchIgnoresQueryCase(projects: seq<Project>, selected: string, query: string)
    ensures FilteredProjects(projects, selected, ToLower(query)) == FilteredProjects(projects, selected, query)
  {
    LowerTwice(query);
    FilterAgree(projects, p => Shown(selected, ToLower(query), p), p => Shown(selected, query, p));
  }

  /** Choosing a category and then searching is the same as applying both at once. */
  lemma CategoryThenSearch(projects: seq<Project>, selected: string, query: string)
    ensures Filter(Filter(projects, p => InCategory(selected, p)), p => MatchesSearch(query, p))
            == FilteredProjects(projects, selected, query)
  {
    FilterFilter(projects, p => InCategory(selected, p), p => MatchesSearch(query, p),
                 p => Shown(selected, query, p));
  }
}
