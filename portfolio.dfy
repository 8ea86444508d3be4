/**
 * The portfolio page: its static content (sections and projects), the pure
 * rules that derive what is shown (filter and sort of projects, the tech
 * option list, section hidden flags and body choice) and the mutable view
 * state that the page's event handlers update.
 */
module Portfolio {
  import opened Wrappers
  import opened Text
  import opened Sorting

  datatype Group = Group(title: string, tags: seq<string>)

  /** A content section; the page fills at most one of `content`, `items`, `groups`. */
  datatype Section = Section(
    id: string,
    title: string,
    content: Option<string>,
    items: Option<seq<string>>,
    groups: Option<seq<Group>>)

  datatype Project = Project(
    id: string,
    title: string,
    year: string,
    tech: seq<string>,
    kind: string,
    description: string)

  /** The filter value that lets every project through. */
  const AllTech := "All"

  function Title(p: Project): string { p.title }

  function ProjectId(p: Project): string { p.id }

  function Ident(t: string): string { t }

  /** Project ids are non-empty and unique, as in the page's content literal. */
  ghost predicate WellFormed(projects: seq<Project>) {
    && Distinct(projects, ProjectId)
    && forall p :: p in projects ==> p.id != ""
  }

  // ---------------------------------------------------------------- filtering

  /** The filter callback: `tech === 'All' || p.tech.includes(tech)`. */
  predicate Matches(p: Project, tech: string) {
    tech == AllTech || tech in p.tech
  }

  /** `projects.filter(p => Matches(p, tech))`. */
  function FilterTech(projects: seq<Project>, tech: string): seq<Project> {
    if projects == [] then []
    else (if Matches(projects[0], tech) then [projects[0]] else []) + FilterTech(projects[1..], tech)
  }

  /** The project list shown for filter `tech`: filtered, then stably sorted by title. */
  function Visible(projects: seq<Project>, tech: string): seq<Project> {
    SortBy(FilterTech(projects, tech), Title)
  }

  /** The filter keeps every matching copy and drops every other one. */
  lemma {:induction false} FilterTechCounts(projects: seq<Project>, tech: string)
    ensures forall p :: multiset(FilterTech(projects, tech))[p]
                        == if Matches(p, tech) then multiset(projects)[p] else 0
  {
    if projects != [] {
      FilterTechCounts(projects[1..], tech);
      assert projects == [projects[0]] + projects[1..];
    }
  }

  lemma {:induction false} FilterAllKeepsEverything(projects: seq<Project>)
    ensures FilterTech(projects, AllTech) == projects
  {
    if projects != [] {
      FilterAllKeepsEverything(projects[1..]);
    }
  }

  /**
   * The shown list is sorted by title, holds exactly the matching projects
   * (each as often as in the content), and equal titles keep their order.
   */
  lemma VisibleSpec(projects: seq<Project>, tech: string)
    ensures SortedBy(Visible(projects, tech), Title)
    ensures forall p :: multiset(Visible(projects, tech))[p]
                        == if Matches(p, tech) then multiset(projects)[p] else 0
    ensures forall p :: p in Visible(projects, tech) <==> p in projects && Matches(p, tech)
    ensures forall t :: WithKey(Visible(projects, tech), Title, t)
                        == WithKey(FilterTech(projects, tech), Title, t)
  {
    SortByIsStableSort(FilterTech(projects, tech), Title);
    FilterTechCounts(projects, tech);
    forall p ensures p in Visible(projects, tech) <==> p in projects && Matches(p, tech) {
      assert p in Visible(projects, tech) <==> p in multiset(Visible(projects, tech));
      assert p in projects <==> p in multiset(projects);
    }
  }

  /** Under `'All'` the shown list is all projects, reordered stably by title. */
  lemma VisibleAll(projects: seq<Project>)
    ensures multiset(Visible(projects, AllTech)) == multiset(projects)
    ensures SortedBy(Visible(projects, AllTech), Title)
    ensures forall t :: WithKey(Visible(projects, AllTech), Title, t) == WithKey(projects, Title, t)
  {
    FilterAllKeepsEverything(projects);
    SortByIsStableSort(projects, Title);
  }

  /** Filtering and sorting keep project ids unique. */
  lemma VisibleDistinct(projects: seq<Project>, tech: string)
    requires WellFormed(projects)
    ensures WellFormed(Visible(projects, tech))
  {
    FilterTechDistinct(projects, tech);
    SortByDistinct(FilterTech(projects, tech), Title, ProjectId);
    VisibleSpec(projects, tech);
  }

  /** A card's id names a project of the content. */
  lemma ShownIdIsProjectId(projects: seq<Project>, tech: string, id: string)
    requires HasId(Visible(projects, tech), id)
    ensures HasId(projects, id)
  {
    VisibleSpec(projects, tech);
    var v := Visible(projects, tech);
    var i :| 0 <= i < |v| && v[i].id == id;
    assert v[i] in projects;
    var k :| 0 <= k < |projects| && projects[k] == v[i];
  }

  lemma {:induction false} FilterTechDistinct(projects: seq<Project>, tech: string)
    requires Distinct(projects, ProjectId)
    ensures Distinct(FilterTech(projects, tech), ProjectId)
  {
    if projects != [] {
      var rest := FilterTech(projects[1..], tech);
      FilterTechDistinct(projects[1..], tech);
      FilterTechCounts(projects[1..], tech);
      forall y | y in rest ensures y.id != projects[0].id {
        assert y in multiset(rest);
        assert y in projects[1..];
        var k :| 0 <= k < |projects[1..]| && projects[1..][k] == y;
        assert projects[k + 1] == y;
      }
    }
  }

  // ---------------------------------------------------------- tech options

  /** `projects.flatMap(p => p.tech)`. */
  function AllTechs(projects: seq<Project>): seq<string> {
    if projects == [] then [] else projects[0].tech + AllTechs(projects[1..])
  }

  /** `Array.from(new Set(s))`: first occurrences, in order. */
  function Dedup(s: seq<string>): seq<string> {
    if s == [] then []
    else
      var d := Dedup(s[..|s| - 1]);
      if s[|s| - 1] in d then d else d + [s[|s| - 1]]
  }

  /** The options of the technology drop-down (besides `'All'`). */
  function TechOptions(projects: seq<Project>): seq<string> {
    SortBy(Dedup(AllTechs(projects)), Ident)
  }

  lemma {:induction false} AllTechsMembers(projects: seq<Project>)
    ensures forall t :: t in AllTechs(projects) <==> exists p :: p in projects && t in p.tech
  {
    if projects != [] {
      AllTechsMembers(projects[1..]);
      assert forall p :: p in projects <==> p == projects[0] || p in projects[1..];
    }
  }

  lemma {:induction false} DedupSpec(s: seq<string>)
    ensures Distinct(Dedup(s), Ident)
    ensures forall t :: t in Dedup(s) <==> t in s
  {
    if s != [] {
      var init := s[..|s| - 1];
      DedupSpec(init);
      assert s == init + [s[|s| - 1]];
    }
  }

  /**
   * The option list has no duplicates, ascends strictly in code-unit order,
   * and holds exactly the tags used by some project.
   */
  lemma TechOptionsSpec(projects: seq<Project>)
    ensures forall i, j :: 0 <= i < j < |TechOptions(projects)| ==>
              TechOptions(projects)[i] != TechOptions(projects)[j]
              && LexLe(TechOptions(projects)[i], TechOptions(projects)[j])
    ensures forall t :: t in TechOptions(projects) <==> exists p :: p in projects && t in p.tech
  {
    var d := Dedup(AllTechs(projects));
    DedupSpec(AllTechs(projects));
    AllTechsMembers(projects);
    SortByIsStableSort(d, Ident);
    SortByDistinct(d, Ident, Ident);
    forall t ensures t in TechOptions(projects) <==> t in d {
      assert t in TechOptions(projects) <==> t in multiset(TechOptions(projects));
      assert t in d <==> t in multiset(d);
    }
  }

  /** Every offered option selects at least one project, so the "no project" text needs another value. */
  lemma OfferedTechSelectsSomething(projects: seq<Project>, t: string)
    requires t in TechOptions(projects)
    ensures Visible(projects, t) != []
  {
    TechOptionsSpec(projects);
    var p :| p in projects && t in p.tech;
    VisibleSpec(projects, t);
    assert p in Visible(projects, t);
  }

  // ------------------------------------------------------------ selection

  /** JavaScript truthiness of the selected id: `null` and `''` are false. */
  predicate Truthy(sel: Option<string>) {
    sel.Some? && sel.value != ""
  }

  /** `cards.some(p => p.id === id)`. */
  predicate HasId(cards: seq<Project>, id: string) {
    exists i | 0 <= i < |cards| :: cards[i].id == id
  }

  /** The `selected` class of each rendered card. */
  function SelectionMarks(cards: seq<Project>, sel: Option<string>): (m: seq<bool>)
    ensures |m| == |cards|
  {
    seq(|cards|, i requires 0 <= i < |cards| => sel == Some(cards[i].id))
  }

  /** With unique ids, at most one card is marked, and only the selected one. */
  lemma MarksSelectAtMostOne(cards: seq<Project>, sel: Option<string>)
    requires Distinct(cards, ProjectId)
    ensures forall i, j :: 0 <= i < j < |cards| ==>
              !(SelectionMarks(cards, sel)[i] && SelectionMarks(cards, sel)[j])
    ensures forall i :: 0 <= i < |cards| ==>
              (SelectionMarks(cards, sel)[i] <==> sel.Some? && cards[i].id == sel.value)
  {
  }

  // ------------------------------------------------------------- sections

  /** A section's visibility after its toggle button is pressed (`!undefined` is `true`). */
  function Toggled(vis: map<string, bool>, id: string): map<string, bool> {
    vis[id := !(id in vis && vis[id])]
  }

  /** Toggling flips the pressed entry and no other; an unknown id is added as shown. */
  lemma ToggledSpec(vis: map<string, bool>, id: string)
    ensures Toggled(vis, id).Keys == vis.Keys + {id}
    ensures id in vis ==> Toggled(vis, id)[id] == !vis[id]
    ensures id !in vis ==> Toggled(vis, id)[id]
    ensures forall other :: other in vis && other != id ==> Toggled(vis, id)[other] == vis[other]
  {
  }

  /** Pressing a section's button twice restores the visibility map. */
  lemma ToggleTwiceRestores(vis: map<string, bool>, id: string)
    requires id in vis
    ensures Toggled(Toggled(vis, id), id) == vis
  {
    var m := Toggled(Toggled(vis, id), id);
    assert m.Keys == vis.Keys;
    forall k | k in vis ensures m[k] == vis[k] {
    }
  }

  /** Every section shown: the map built at page load. */
  function InitialVisibility(sections: seq<Section>): (m: map<string, bool>)
    ensures forall id :: id in m <==> exists s :: s in sections && s.id == id
    ensures forall id :: id in m ==> m[id]
  {
    map s | s in sections :: s.id := true
  }

  /** Building the map one section at a time, as the page-load loop does, gives the same map. */
  lemma InitialVisibilityStep(sections: seq<Section>, i: nat)
    requires i < |sections|
    ensures InitialVisibility(sections[..i + 1]) == InitialVisibility(sections[..i])[sections[i].id := true]
  {
    assert sections[..i + 1] == sections[..i] + [sections[i]];
  }

  datatype Body = Items(items: seq<string>) | Groups(groups: seq<Group>) | Paragraph(text: string)

  datatype SectionView = SectionView(id: string, title: string, hidden: bool, body: Body)

  /** One `<section>`: hidden unless its flag is `true`; items first, then groups, then text. */
  function RenderSection(s: Section, vis: map<string, bool>): (v: SectionView)
    ensures v.id == s.id && v.title == s.title
    ensures v.hidden <==> !(s.id in vis && vis[s.id])
    ensures v.body.Items? <==> s.items.Some?
    ensures v.body.Groups? <==> s.items.None? && s.groups.Some?
    ensures s.items.Some? ==> v.body == Items(s.items.value)
    ensures s.items.None? && s.groups.Some? ==> v.body == Groups(s.groups.value)
    ensures v.body.Paragraph? ==> v.body.text == s.content.GetOr("")
  {
    var hidden := !(s.id in vis && vis[s.id]);
    var body :=
      if s.items.Some? then Items(s.items.value)
      else if s.groups.Some? then Groups(s.groups.value)
      else Paragraph(s.content.GetOr(""));
    SectionView(s.id, s.title, hidden, body)
  }

  /** The content area: every section, in page order, rendered against `vis`. */
  function RenderContentSections(sections: seq<Section>, vis: map<string, bool>): (r: seq<SectionView>)
    ensures |r| == |sections|
    ensures forall i :: 0 <= i < |r| ==> r[i] == RenderSection(sections[i], vis)
  {
    seq(|sections|, i requires 0 <= i < |sections| => RenderSection(sections[i], vis))
  }

  /** Right after page load no section carries the hidden class. */
  lemma InitiallyNothingHidden(sections: seq<Section>)
    ensures forall i :: 0 <= i < |sections| ==>
              !RenderContentSections(sections, InitialVisibility(sections))[i].hidden
  {
    var vis := InitialVisibility(sections);
    forall i | 0 <= i < |sections|
      ensures !RenderContentSections(sections, vis)[i].hidden
    {
      assert sections[i] in sections;
    }
  }

  /** Toggling a known id flips the hidden class of its sections and leaves every other section as it was. */
  lemma ToggleChangesOnlyThatSection(sections: seq<Section>, vis: map<string, bool>, id: string)
    ensures forall i :: 0 <= i < |sections| ==>
              var before := RenderContentSections(sections, vis)[i];
              var after := RenderContentSections(sections, Toggled(vis, id))[i];
              after.body == before.body
              && (after.hidden <==> if sections[i].id == id then !before.hidden else before.hidden)
  {
  }

  // ------------------------------------------------------------ view state

  /** The page's `state` object over the page's fixed content. */
  class ViewState {
    const projects: seq<Project>
    const sections: seq<Section>
    var activeFilter: string
    var selectedProjectId: Option<string>
    var visibleSections: map<string, bool>
    /** Whether the detail panel carries the `hidden` class. */
    var detailHidden: bool

    /** A non-empty project list never shows a selection it does not contain. */
    ghost predicate SelectionConsistent()
      reads this
    {
      var v := Visible(projects, activeFilter);
      v != [] && Truthy(selectedProjectId) ==> HasId(v, selectedProjectId.value)
    }

    ghost predicate Valid()
      reads this
    {
      && WellFormed(projects)
      && (forall s :: s in sections ==> s.id in visibleSections)
      && SelectionConsistent()
      && (detailHidden <==> Visible(projects, activeFilter) == [] || !Truthy(selectedProjectId))
    }

    /** Page load: every section shown, filter `'All'`, nothing selected, projects rendered. */
    constructor Init(projects: seq<Project>, sections: seq<Section>)
      requires WellFormed(projects)
      ensures this.projects == projects && this.sections == sections
      ensures activeFilter == AllTech && selectedProjectId == None && detailHidden
      ensures visibleSections == InitialVisibility(sections)
      ensures Valid()
    {
      this.projects := projects;
      this.sections := sections;
      activeFilter := AllTech;
      selectedProjectId := None;
      visibleSections := map[];
      detailHidden := true;
      new;
      var i := 0;
      while i < |sections|
        invariant 0 <= i <= |sections|
        invariant visibleSections == InitialVisibility(sections[..i])
        invariant activeFilter == AllTech && selectedProjectId == None && detailHidden
      {
        InitialVisibilityStep(sections, i);
        visibleSections := visibleSections[sections[i].id := true];
        i := i + 1;
      }
      assert sections[..i] == sections;
      assert Valid();
      var _, _ := RenderProjects();
    }

    /** `renderProjectDetail`: the panel is shown exactly when the selection names a project. */
    method RenderProjectDetail()
      modifies this`detailHidden
      ensures detailHidden <==> !(selectedProjectId.Some? && HasId(projects, selectedProjectId.value))
    {
      detailHidden := !(selectedProjectId.Some? && HasId(projects, selectedProjectId.value));
    }

    /**
     * `renderProjects`: the cards for the current filter, and the selection
     * cleared when the list is non-empty and no longer holds it.
     */
    method RenderProjects() returns (filtered: seq<Project>, marked: seq<bool>)
      requires WellFormed(projects)
      modifies this`selectedProjectId, this`detailHidden
      ensures filtered == Visible(projects, activeFilter)
      ensures marked == SelectionMarks(filtered, old(selectedProjectId))
      ensures forall i, j :: 0 <= i < j < |marked| ==> !(marked[i] && marked[j])
      ensures filtered == [] ==> selectedProjectId == old(selectedProjectId) && detailHidden
      ensures filtered != [] ==>
                selectedProjectId
                == if Truthy(old(selectedProjectId)) && !HasId(filtered, old(selectedProjectId).value)
                   then None else old(selectedProjectId)
      ensures filtered != [] && Truthy(selectedProjectId) ==> !detailHidden
      ensures filtered != [] && Truthy(old(selectedProjectId)) && !Truthy(selectedProjectId) ==> detailHidden
      ensures filtered != [] && !Truthy(old(selectedProjectId)) ==> detailHidden == old(detailHidden)
      ensures SelectionConsistent()
      ensures old(Valid()) ==>
                Valid() && selectedProjectId == old(selectedProjectId) && detailHidden == old(detailHidden)
    {
      filtered := Visible(projects, activeFilter);
      VisibleDistinct(projects, activeFilter);
      MarksSelectAtMostOne(filtered, selectedProjectId);
      marked := SelectionMarks(filtered, selectedProjectId);
      if |filtered| == 0 {
        detailHidden := true;
        return;
      }
      if Truthy(selectedProjectId) && !HasId(filtered, selectedProjectId.value) {
        selectedProjectId := None;
        detailHidden := true;
      }
      if Truthy(selectedProjectId) {
        ShownIdIsProjectId(projects, activeFilter, selectedProjectId.value);
        RenderProjectDetail();
      }
    }

    /** A section toggle button: flip that section, re-render the content area. */
    method ToggleSection(id: string) returns (pressed: bool, views: seq<SectionView>)
      requires Valid()
      modifies this`visibleSections
      ensures visibleSections == Toggled(old(visibleSections), id)
      ensures pressed == visibleSections[id]
      ensures views == RenderContentSections(sections, visibleSections)
      ensures Valid()
    {
      visibleSections := visibleSections[id := !(id in visibleSections && visibleSections[id])];
      pressed := visibleSections[id];
      views := RenderContentSections(sections, visibleSections);
    }

    /** `renderProjectFilters`: the drop-down's options after `'All'`, each tag once, in code-unit order. */
    method RenderProjectFilters() returns (options: seq<string>)
      ensures options == TechOptions(projects)
      ensures forall i, j :: 0 <= i < j < |options| ==> options[i] != options[j] && LexLe(options[i], options[j])
      ensures forall t :: t in options <==> exists p :: p in projects && t in p.tech
    {
      options := SortBy(Dedup(AllTechs(projects)), Ident);
      TechOptionsSpec(projects);
    }

    /** The technology drop-down: set the filter, re-render the project list. */
    method SetFilter(value: string) returns (filtered: seq<Project>, marked: seq<bool>)
      requires Valid()
      modifies this`activeFilter, this`selectedProjectId, this`detailHidden
      ensures activeFilter == value
      ensures filtered == Visible(projects, value)
      ensures marked == SelectionMarks(filtered, old(selectedProjectId))
      ensures filtered == [] ==> selectedProjectId == old(selectedProjectId)
      ensures filtered != [] ==>
                selectedProjectId
                == if Truthy(old(selectedProjectId)) && !HasId(filtered, old(selectedProjectId).value)
                   then None else old(selectedProjectId)
      ensures Valid()
    {
      activeFilter := value;
      filtered, marked := RenderProjects();
    }

    /** The clear button: filter back to `'All'`, options and list re-rendered. */
    method ClearFilter() returns (options: seq<string>, filtered: seq<Project>, marked: seq<bool>)
      requires Valid()
      modifies this`activeFilter, this`selectedProjectId, this`detailHidden
      ensures activeFilter == AllTech
      ensures options == TechOptions(projects)
      ensures filtered == Visible(projects, AllTech)
      ensures marked == SelectionMarks(filtered, old(selectedProjectId))
      ensures filtered == [] ==> selectedProjectId == old(selectedProjectId)
      ensures filtered != [] ==>
                selectedProjectId
                == if Truthy(old(selectedProjectId)) && !HasId(filtered, old(selectedProjectId).value)
                   then None else old(selectedProjectId)
      ensures Valid()
    {
      activeFilter := AllTech;
      options := RenderProjectFilters();
      filtered, marked := RenderProjects();
    }

    /** A click on a card: that card becomes the selection, the only one marked, and its detail is shown. */
    method SelectProject(id: string) returns (filtered: seq<Project>, marked: seq<bool>)
      requires Valid()
      requires HasId(Visible(projects, activeFilter), id)
      modifies this`selectedProjectId, this`detailHidden
      ensures selectedProjectId == Some(id) && !detailHidden
      ensures filtered == Visible(projects, activeFilter)
      ensures |marked| == |filtered|
      ensures forall i :: 0 <= i < |filtered| ==> (marked[i] <==> filtered[i].id == id)
      ensures Valid()
    {
      ShownIdIsProjectId(projects, activeFilter, id);
      VisibleDistinct(projects, activeFilter);
      selectedProjectId := Some(id);
      filtered, marked := RenderProjects();
      RenderProjectDetail();
    }

    /** The close button of the detail panel: no selection, panel hidden, list re-rendered. */
    method CloseDetail() returns (filtered: seq<Project>, marked: seq<bool>)
      requires Valid()
      modifies this`selectedProjectId, this`detailHidden
      ensures selectedProjectId == None && detailHidden
      ensures filtered == Visible(projects, activeFilter)
      ensures marked == SelectionMarks(filtered, None)
      ensures forall i :: 0 <= i < |marked| ==> !marked[i]
      ensures Valid()
    {
      selectedProjectId := None;
      detailHidden := true;
      filtered, marked := RenderProjects();
    }
  }
}
