/** The home-page projects section: the first three featured projects and, on each card,
    at most three technology chips followed by a "+n more" badge. */
module FeaturedProjects {
  import opened Wrappers
  import opened Seqs
  import AdminProjects

  type Project = AdminProjects.Project

  /** How many featured projects, and how many chips per card, are shown. */
  const Shown: nat := 3

  datatype Section = Loading | Failed(message: string) | Ready(projects: seq<Project>)

  function IsFeatured(p: Project): bool {
    p.featured
  }

  /** `data.filter(p => p.featured).slice(0, 3)`. */
  function Featured(projects: seq<Project>): (r: seq<Project>)
    ensures |r| <= Shown
    ensures IsSubseq(r, projects)
    ensures forall i :: 0 <= i < |r| ==> r[i].featured
  {
    var f := Filter(projects, IsFeatured);
    var r := Take(f, Shown);
    assert forall i :: 0 <= i < |r| ==> r[i] in f;
    TakeSubseq(f, Shown);
    SubseqTrans(r, f, projects);
    r
  }

  /** A featured project is left out only when three others already fill the section. */
  lemma OnlyOverflowIsDropped(projects: seq<Project>, p: Project)
    requires p in projects && p.featured && p !in Featured(projects)
    ensures |Featured(projects)| == Shown
  {
    var f := Filter(projects, IsFeatured);
    assert p in f;
  }

  /** The shown projects are the leading featured ones: each is the i-th featured project. */
  lemma ShownAreLeading(projects: seq<Project>, i: nat)
    requires i < |Featured(projects)|
    ensures Featured(projects)[i] == Filter(projects, IsFeatured)[i]
  {
  }

  /** The section after the fetch: a failed status shows the fixed message. */
  function Loaded(ok: bool, data: seq<Project>): (r: Section)
    ensures !ok ==> r == Failed("Failed to fetch projects")
    ensures ok ==> r.Ready? && r.projects == Featured(data)
  {
    if !ok then Failed("Failed to fetch projects") else Ready(Featured(data))
  }

  /** The chips of a card: `technologies.slice(0, 3)`. */
  function Chips(technologies: seq<string>): (r: seq<string>)
    ensures |r| == if |technologies| < Shown then |technologies| else Shown
    ensures r == technologies[..|r|]
  {
    Take(technologies, Shown)
  }

  /** The "+n more" badge: present exactly when there are more than three technologies. */
  function Badge(technologies: seq<string>): (r: Option<nat>)
    ensures r.Some? <==> |technologies| > Shown
  {
    if |technologies| > Shown then Some(|technologies| - Shown) else None
  }

  /** Chips and badge together account for every technology, no more and no fewer. */
  lemma ChipsAndBadgeCoverAll(technologies: seq<string>)
    ensures |Chips(technologies)| + (match Badge(technologies) case Some(n) => n case None => 0)
            == |technologies|
    ensures Badge(technologies).Some? ==> Badge(technologies).value > 0
  {
  }
}
