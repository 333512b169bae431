/** The skills section: checking the shape of the fetched response, the category buttons
    (`uniqueCategories`) and the category filter (`filteredSkills`). */
module Skills {
  import opened Wrappers
  import opened Seqs

  datatype Skill = Skill(name: string, category: string, icon: string, color: string)

  /** The parsed body of `GET /api/skills`, as far as the component looks into it: either
      no usable body, a `data` field that is not an array, or an array of skills. */
  datatype Body = NoData | NotArray | SkillArray(skills: seq<Skill>)

  datatype Response = Response(ok: bool, status: int, body: Body)

  datatype FetchError = HttpError(status: int) | InvalidFormat

  datatype View = View(
    skills: seq<Skill>, categories: seq<string>, selected: string, error: Option<FetchError>)

  const All: string := "All"

  /** Before the fetch answers: no skills, only the "All" button, "All" selected. */
  const Initial: View := View([], [All], All, None)

  /** The skills of a response, or why it was refused: a failed status first, then a body
      without a `data` array. */
  function Decode(resp: Response): (r: Result<seq<Skill>, FetchError>)
    ensures !resp.ok ==> r == Err(HttpError(resp.status))
    ensures resp.ok ==> (r.Ok? <==> resp.body.SkillArray?)
    ensures r.Ok? ==> r.value == resp.body.skills
  {
    if !resp.ok then Err(HttpError(resp.status))
    else if !resp.body.SkillArray? then Err(InvalidFormat)
    else Ok(resp.body.skills)
  }

  function CategoryOf(s: Skill): string {
    s.category
  }

  function MapCategory(skills: seq<Skill>): (r: seq<string>)
    ensures |r| == |skills|
    ensures forall i :: 0 <= i < |r| ==> r[i] == skills[i].category
  {
    seq(|skills|, i requires 0 <= i < |skills| => skills[i].category)
  }

  /** `["All", ...new Set(skills.map(s => s.category))]`. */
  function CategoryList(skills: seq<Skill>): (r: seq<string>)
    ensures |r| >= 1 && r[0] == All
    ensures NoDup(r[1..])
    ensures forall c :: c in r[1..] <==> exists i :: 0 <= i < |skills| && skills[i].category == c
  {
    var cats := MapCategory(skills);
    var d := Dedup(cats);
    assert ([All] + d)[1..] == d;
    forall c ensures c in d <==> exists i :: 0 <= i < |skills| && skills[i].category == c {
      if c in d {
        var i :| 0 <= i < |cats| && cats[i] == c;
        assert skills[i].category == c;
      }
      if exists i :: 0 <= i < |skills| && skills[i].category == c {
        var i :| 0 <= i < |skills| && skills[i].category == c;
        assert cats[i] == c;
      }
    }
    [All] + d
  }

  /** The buttons after "All" follow the order in which each category first appears. */
  lemma CategoriesInFirstOccurrenceOrder(skills: seq<Skill>, i: nat, j: nat)
    requires 1 <= i < j < |CategoryList(skills)|
    ensures FirstIndex(MapCategory(skills), CategoryList(skills)[i])
            < FirstIndex(MapCategory(skills), CategoryList(skills)[j])
  {
    var d := Dedup(MapCategory(skills));
    assert CategoryList(skills)[i] == d[i - 1] && CategoryList(skills)[j] == d[j - 1];
  }

  /** The outcome of the fetch: on success the skills and their category buttons; on any
      failure an error and no skills, with the buttons left as they were. */
  function Loaded(v: View, resp: Response): (r: View)
    ensures r.selected == v.selected
    ensures Decode(resp).Ok? ==> r.error.None? && r.skills == Decode(resp).value
                                 && r.categories == CategoryList(r.skills)
    ensures Decode(resp).Err? ==> r.error == Some(Decode(resp).error) && r.skills == []
                                  && r.categories == v.categories
  {
    match Decode(resp)
    case Ok(skills) => v.(skills := skills, categories := CategoryList(skills), error := None)
    case Err(e) => v.(skills := [], error := Some(e))
  }

  /** `filteredSkills`. */
  function FilteredSkills(skills: seq<Skill>, selected: string): (r: seq<Skill>)
    ensures selected == All ==> r == skills
    ensures IsSubseq(r, skills)
    ensures selected != All ==> forall s :: s in r <==> s in skills && s.category == selected
  {
    if selected == All then SubseqRefl(skills); skills
    else Filter(skills, s => CategoryOf(s) == selected)
  }

  /** A category holds exactly the skills filed under it, in order: filtering by a
      category is the same as keeping the positions whose category matches. */
  lemma {:induction false} FilterByCategory(skills: seq<Skill>, c: string)
    requires c != All
    ensures FilteredSkills(skills, c) == Select(skills, seq(|skills|, i requires 0 <= i < |skills| => skills[i].category == c))
    decreases |skills|
  {
    var keep := seq(|skills|, i requires 0 <= i < |skills| => skills[i].category == c);
    if |skills| > 0 {
      var n := |skills| - 1;
      FilterByCategory(skills[..n], c);
      assert keep[..n] == seq(n, i requires 0 <= i < n => skills[..n][i].category == c);
      FilterSnoc(skills[..n], skills[n], s => CategoryOf(s) == c);
      assert skills[..n] + [skills[n]] == skills;
    }
  }

  /** Every category button other than "All" shows at least one skill. */
  lemma NoEmptyCategory(skills: seq<Skill>, c: string)
    requires c in CategoryList(skills)[1..] && c != All
    ensures |FilteredSkills(skills, c)| > 0
  {
    var i :| 0 <= i < |skills| && skills[i].category == c;
    assert skills[i] in FilteredSkills(skills, c);
  }
}
