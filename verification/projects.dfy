/** The projects page: the hard-coded project list, the category buttons, and
    the list shown for the selected category. */
module Projects {

  /** One showcased project. */
  datatype Project = Project(
    id: string,
    title: string,
    description: string,
    imageUrl: string,
    category: string,
    technologies: seq<string>)

  /** One category button: the id it selects and its label. */
  datatype Category = Category(id: string, name: string)

  /** The id of the button that shows every project. */
  const All := "all"

  /** The four showcased projects. */
  const Ecommerce := Project("1", "E-commerce Moderne",
    "Une plateforme de commerce électronique avec une interface utilisateur innovante et des animations fluides.",
    "https://images.unsplash.com/photo-1607799279861-4dd421887fb3?w=800&auto=format&fit=crop&q=60",
    "web", ["React", "Node.js", "MongoDB"])
  const Fitness := Project("2", "Application Mobile Fitness",
    "Application de suivi de fitness avec des visualisations de données dynamiques et un design épuré.",
    "https://images.unsplash.com/photo-1476480862126-209bfaa8edc8?w=800&auto=format&fit=crop&q=60",
    "mobile", ["React Native", "Firebase"])
  const ArtPortfolio := Project("3", "Portfolio Artistique",
    "Portfolio numérique pour un artiste avec des galeries interactives et des transitions fluides.",
    "https://images.unsplash.com/photo-1513542789411-b6a5d4f31634?w=800&auto=format&fit=crop&q=60",
    "design", ["React", "Three.js"])
  const Dashboard := Project("4", "Tableau de Bord Analytics",
    "Interface de tableau de bord avec des graphiques animés et une expérience utilisateur intuitive.",
    "https://images.unsplash.com/photo-1551288049-bebda4e38f71?w=800&auto=format&fit=crop&q=60",
    "web", ["Vue.js", "D3.js"])

  /** The projects, in display order. */
  const MockProjects: seq<Project> := [Ecommerce, Fitness, ArtPortfolio, Dashboard]

  /** The category buttons, in display order; "all" comes first. */
  const Categories: seq<Category> := [
    Category("all", "Tous"),
    Category("web", "Web"),
    Category("mobile", "Mobile"),
    Category("design", "Design")
  ]

  /** `ps.filter(p => p.category === c)`: keeps, in order, the projects of
      category `c`. */
  function FilterCategory(ps: seq<Project>, c: string): (r: seq<Project>)
    ensures |r| <= |ps|
  {
    if ps == [] then []
    else if ps[0].category == c then [ps[0]] + FilterCategory(ps[1..], c)
    else FilterCategory(ps[1..], c)
  }

  /** `a` can be obtained from `b` by deleting elements, so `a` lists some of
      `b`'s elements in `b`'s order. */
  predicate IsSubsequence<T(==)>(a: seq<T>, b: seq<T>)
    decreases |b|
  {
    if a == [] then true
    else if b == [] then false
    else if a[0] == b[0] then IsSubsequence(a[1..], b[1..])
    else IsSubsequence(a, b[1..])
  }

  /** Every sequence is a subsequence of itself. */
  lemma {:induction false} SubsequenceRefl<T>(a: seq<T>)
    ensures IsSubsequence(a, a)
  {
    if a != [] {
      SubsequenceRefl(a[1..]);
    }
  }

  /** Filtering keeps the relative order of the projects it keeps. */
  lemma {:induction false} FilterIsSubsequence(ps: seq<Project>, c: string)
    ensures IsSubsequence(FilterCategory(ps, c), ps)
  {
    if ps != [] {
      FilterIsSubsequence(ps[1..], c);
      var r := FilterCategory(ps[1..], c);
      if ps[0].category == c {
        assert ([ps[0]] + r)[1..] == r;
      } else {
        SubsequenceOfTail(r, ps);
      }
    }
  }

  /** A subsequence of the tail is a subsequence of the whole. */
  lemma {:induction false} SubsequenceOfTail<T>(a: seq<T>, b: seq<T>)
    requires b != [] && IsSubsequence(a, b[1..])
    ensures IsSubsequence(a, b)
    decreases |b|, 1
  {
    if a != [] && a[0] == b[0] {
      SubsequenceDropHead(a, b[1..]);
    }
  }

  /** Dropping the first element keeps a subsequence a subsequence. */
  lemma {:induction false} SubsequenceDropHead<T>(a: seq<T>, c: seq<T>)
    requires a != [] && IsSubsequence(a, c)
    ensures IsSubsequence(a[1..], c)
    decreases |c|, 2
  {
    if a[0] == c[0] {
      SubsequenceOfTail(a[1..], c);
    } else {
      SubsequenceDropHead(a, c[1..]);
      SubsequenceOfTail(a[1..], c);
    }
  }

  /** Filtering keeps each project of the category as many times as it occurs
      and drops every other project: the contents, with multiplicity. */
  lemma {:induction false} FilterMultiset(ps: seq<Project>, c: string, p: Project)
    ensures multiset(FilterCategory(ps, c))[p] == if p.category == c then multiset(ps)[p] else 0
  {
    if ps != [] {
      FilterMultiset(ps[1..], c, p);
      assert ps == [ps[0]] + ps[1..];
    }
  }

  /** Soundness and completeness: the filter returns only projects of
      category `c`, all drawn from the list, and misses none of them. */
  lemma {:induction false} FilterSoundComplete(ps: seq<Project>, c: string)
    ensures forall p :: p in FilterCategory(ps, c) <==> p in ps && p.category == c
  {
    forall p
      ensures p in FilterCategory(ps, c) <==> p in ps && p.category == c
    {
      FilterMultiset(ps, c, p);
    }
  }

  /** A list whose projects all have category `c` passes the filter whole. */
  lemma {:induction false} FilterKeepsMatching(ps: seq<Project>, c: string)
    requires forall p :: p in ps ==> p.category == c
    ensures FilterCategory(ps, c) == ps
  {
    if ps != [] {
      FilterKeepsMatching(ps[1..], c);
      assert ps == [ps[0]] + ps[1..];
    }
  }

  /** Filtering twice by the same category is filtering once. */
  lemma {:induction false} FilterIdempotent(ps: seq<Project>, c: string)
    ensures FilterCategory(FilterCategory(ps, c), c) == FilterCategory(ps, c)
  {
    FilterSoundComplete(ps, c);
    FilterKeepsMatching(FilterCategory(ps, c), c);
  }

  /** `filteredProjects`: the whole list for "all"; otherwise exactly the
      projects of the selected category, in their original order. */
  function FilteredProjects(selected: string): (r: seq<Project>)
    ensures selected == All ==> r == MockProjects
    ensures selected != All ==> forall p :: p in r <==> p in MockProjects && p.category == selected
    ensures IsSubsequence(r, MockProjects)
  {
    if selected == All then
      SubsequenceRefl(MockProjects);
      MockProjects
    else
      FilterSoundComplete(MockProjects, selected);
      FilterIsSubsequence(MockProjects, selected);
      FilterCategory(MockProjects, selected)
  }

  /** The category ids are pairwise distinct, and every project's category is
      the id of exactly one button other than "all". */
  lemma EachProjectOneCategory()
    ensures forall k, k' :: 0 <= k < k' < |Categories| ==> Categories[k].id != Categories[k'].id
    ensures forall i :: 0 <= i < |MockProjects| ==>
      exists k :: 1 <= k < |Categories| && Categories[k].id == MockProjects[i].category
    ensures forall i :: 0 <= i < |MockProjects| ==> MockProjects[i].category != All
  {
    assert Categories[1].id == MockProjects[0].category == MockProjects[3].category;
    assert Categories[2].id == MockProjects[1].category;
    assert Categories[3].id == MockProjects[2].category;
  }

  /** What the filter keeps of one project. */
  function Keep(p: Project, c: string): seq<Project> {
    if p.category == c then [p] else []
  }

  /** Filtering a non-empty list: what is kept of its first project, then
      the filtered rest. */
  lemma FilterUnfold(ps: seq<Project>, c: string)
    requires ps != []
    ensures FilterCategory(ps, c) == Keep(ps[0], c) + FilterCategory(ps[1..], c)
  {
  }

  /** Filtering a four-project list, one project at a time. */
  lemma FilterFour(a: Project, b: Project, d: Project, e: Project, c: string)
    ensures FilterCategory([a, b, d, e], c) == Keep(a, c) + (Keep(b, c) + (Keep(d, c) + Keep(e, c)))
  {
    var s4 := [a, b, d, e];
    assert s4[1..] == [b, d, e];
    assert [b, d, e][1..] == [d, e];
    assert [d, e][1..] == [e];
    assert [e][1..] == [];
    FilterUnfold(s4, c);
    FilterUnfold([b, d, e], c);
    FilterUnfold([d, e], c);
    FilterUnfold([e], c);
    assert Keep(e, c) + [] == Keep(e, c);
  }

  /** Filtering the project list, one project at a time. */
  lemma FilterMock(c: string)
    ensures FilterCategory(MockProjects, c) ==
      Keep(Ecommerce, c) + (Keep(Fitness, c) + (Keep(ArtPortfolio, c) + Keep(Dashboard, c)))
  {
    FilterFour(Ecommerce, Fitness, ArtPortfolio, Dashboard, c);
  }

  /** The "web" button shows the projects with ids 1 and 4, in that order. */
  lemma WebContents()
    ensures FilteredProjects("web") == [Ecommerce, Dashboard]
    ensures Ecommerce.id == "1" && Dashboard.id == "4"
  {
    FilterMock("web");
  }

  /** The "mobile" button shows the project with id 2 alone. */
  lemma MobileContents()
    ensures FilteredProjects("mobile") == [Fitness]
    ensures Fitness.id == "2"
  {
    FilterMock("mobile");
  }

  /** The "design" button shows the project with id 3 alone. */
  lemma DesignContents()
    ensures FilteredProjects("design") == [ArtPortfolio]
    ensures ArtPortfolio.id == "3"
  {
    FilterMock("design");
  }

  /** Filtering on "all" as if it were a category would show nothing, which is
      why that id is compared against before filtering. */
  lemma AllIsNoCategory()
    ensures FilterCategory(MockProjects, All) == []
  {
    FilterMock(All);
  }
}
