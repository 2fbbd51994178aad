/** Two places where app/db/repo.py, as written, does not do what its own
    declarations promise. Each is modelled as written, with a lemma that
    shows the difference; `Store` models the intended behaviour. */
module Findings {
  import opened Models
  import opened Store
  import StoreProperties

  // ----- create_project passes `team=` -----

  /** `create_project(..., team=team)` as written: the call always hands
      `team=` to `Project(...)`, `Project` maps no `team` attribute, and the
      declarative constructor raises before anything is added to the
      session, which then rolls back. */
  function CreateProjectAsWritten(t: Tables, f: ProjectFields, team: Option<Json>): (r: Step<Project>)
  {
    if HasAttribute("team") then CreateProject(t, f)
    else InSession(t, Step(Raised(InvalidKeyword("team")), t))
  }

  /** Whatever the store and the arguments, the call as written raises and
      stores nothing, where the intended call stores a project whenever the
      code is free. */
  lemma TeamKeywordAlwaysRaises(t: Tables, f: ProjectFields, team: Option<Json>)
    ensures CreateProjectAsWritten(t, f, team) == Step(Raised(InvalidKeyword("team")), t)
    ensures !CodeInUse(t.projects, f.code) ==>
      CreateProject(t, f).out.Returned? && CreateProject(t, f).out.value.fields == f
  {
    assert !HasAttribute("team");
  }

  // ----- delete_project without a database-side cascade -----

  /** `delete_project(id)` as the database runs it: SQLite enforces no
      foreign key (and so no `ON DELETE CASCADE`) unless each connection
      turns `PRAGMA foreign_keys` on, which the engine never does. The ORM
      cascade of `Project.budget_lines` still removes the lines; the news
      rows stay, pointing at the deleted id. */
  function DeleteProjectAsWritten(t: Tables, id: Id): (r: Step<bool>)
  {
    if id !in t.projects then InSession(t, Step(Returned(false), t))
    else
      var lines := map k | k in t.lines && t.lines[k].projectId != id :: t.lines[k];
      InSession(t, Step(Returned(true), t.(projects := t.projects - {id}, lines := lines)))
  }

  /** On a new database: seed the demo project, post a news item under it,
      delete the project as written, seed again. The new demo project takes
      the freed id and lists the old project's news. */
  lemma OrphanedNewsResurface(text: string)
    ensures var s1 := SeedDemoIfEmpty(Empty).after;
      var n := CreateProjectNews(s1, 1, text, None);
      var gone := DeleteProjectAsWritten(n.after, 1);
      var s2 := SeedDemoIfEmpty(gone.after).after;
      && n.out.Returned?
      && gone.out == Returned(true)
      && 1 in s2.projects && s2.projects[1].fields == DemoFields()
      && ListProjectNews(s2, 1) == [n.out.value]
  {
    var s1 := SeedDemoIfEmpty(Empty).after;
    SeedTakesFirstId(Empty);
    var n := CreateProjectNews(s1, 1, text, None);
    assert n.after.news == map[1 := n.out.value];
    var gone := DeleteProjectAsWritten(n.after, 1);
    assert gone.after.projects == map[] && gone.after.news == n.after.news;
    var s2 := SeedDemoIfEmpty(gone.after).after;
    SeedTakesFirstId(gone.after);
    OnlyNewsListed(s2, n.out.value);
  }

  /** Seeding a store with no project gives the demo project the id 1 and
      leaves the news as they are. */
  lemma SeedTakesFirstId(t: Tables)
    requires t.projects == map[]
    ensures var a := SeedDemoIfEmpty(t).after;
      && a.projects.Keys == {1} && a.projects[1].fields == DemoFields()
      && a.news == t.news
  {
    var _, p := StoreProperties.SeedShape(t);
  }

  /** A store whose only news item is `x` lists it, alone, under its
      project. */
  lemma OnlyNewsListed(t: Tables, x: ProjectNews)
    requires t.news == map[x.id := x]
    ensures ListProjectNews(t, x.projectId) == [x]
  {
    assert NewsOf(t, x.projectId) == {x.id};
    assert x in ListProjectNews(t, x.projectId);
  }

  /** With the cascade the schema declares, a consistent store has no news
      under an id no project holds, so a new project always starts with no
      news and no budget lines. */
  lemma NewProjectStartsEmpty(t: Tables, f: ProjectFields)
    requires Valid(t)
    ensures var r := CreateProject(t, f);
      r.out.Returned? ==>
        && ListProjectNews(r.after, r.out.value.id) == []
        && ListBudgetLines(r.after, r.out.value.id) == []
  {
    var r := CreateProject(t, f);
    if r.out.Returned? {
      var id := r.out.value.id;
      assert NewsOf(r.after, id) == {};
      assert LinesOf(r.after, id) == {};
    }
  }
}
