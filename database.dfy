/** The repository as the application sees it: one database whose tables
    every call of app/db/repo.py changes in place. Each method does its work
    step by step on the fields and is proved to leave exactly the store, and
    to give back exactly the outcome, that the matching function of `Store`
    describes; the properties proved about those functions carry over. */
module Repo {
  import opened Models
  import opened Store
  import Ordering

  class Database {
    var projects: map<Id, Project>
    var lines: map<Id, BudgetLine>
    var news: map<Id, ProjectNews>
    var clock: Stamp

    /** The database's contents as a value. */
    function State(): Tables
      reads this
    {
      Tables(projects, lines, news, clock)
    }

    ghost predicate Valid()
      reads this
    {
      Store.Valid(State())
    }

    /** `init_db()` on a new file: the three tables, empty. */
    constructor ()
      ensures State() == Empty
      ensures Valid()
    {
      projects, lines, news, clock := map[], map[], map[], 0;
      EmptyIsValid();
    }

    /** The rollback of `get_session`: everything the unit of work left
        pending is dropped. */
    method Rollback(saved: Tables)
      modifies this
      ensures State() == saved
    {
      projects, lines, news, clock := saved.projects, saved.lines, saved.news, saved.clock;
    }

    /** `s.add(Project(**fields)); s.flush()` before the constraints are
        checked. */
    method InsertProject(f: ProjectFields) returns (p: Project)
      modifies this
      ensures (State(), p) == AddProjectRow(old(State()), f)
    {
      p := Project(Ordering.NextRowId(projects.Keys), f, clock, clock);
      projects := projects[p.id := p];
      clock := clock + 1;
    }

    /** `s.add(BudgetLine(...)); s.flush()` before the constraints are
        checked. */
    method InsertLine(pid: Id, labelText: string, amountCents: int, isCapex: bool, valueDate: Option<Date>)
      returns (l: BudgetLine)
      modifies this
      ensures (State(), l) == AddLineRow(old(State()), pid, labelText, amountCents, isCapex, valueDate)
    {
      l := NewBudgetLine(Ordering.NextRowId(lines.Keys), pid, labelText, clock, isCapex, amountCents, valueDate);
      lines := lines[l.id := l];
      clock := clock + 1;
    }

    /** `create_project(...)`. */
    method CreateProject(f: ProjectFields) returns (out: Outcome<Project>)
      requires Valid()
      modifies this
      ensures Step(out, State()) == Store.CreateProject(old(State()), f)
      ensures Valid()
    {
      var saved := State();
      var p := InsertProject(f);
      if CodeInUse(saved.projects, f.code) {
        Rollback(saved);
        out := Raised(UniqueViolation("code"));
      } else {
        out := Returned(p);
      }
    }

    /** `update_project(id, **fields)`: the `setattr` loop over the items,
        then the flush. */
    method UpdateProject(id: Id, patch: Patch) returns (out: Outcome<Option<Project>>)
      requires Valid() && NoManagedNames(patch)
      modifies this
      ensures Step(out, State()) == Store.UpdateProject(old(State()), id, patch)
      ensures Valid()
    {
      if id !in projects {
        out := Returned(None);
        return;
      }
      var saved := State();
      var p := projects[id];
      var fields := p.fields;
      var failure: Option<Error> := None;
      var i := 0;
      while i < |patch|
        invariant 0 <= i <= |patch|
        invariant NoManagedNames(patch[..i])
        invariant Patched(fields, failure) == ApplyPatch(p.fields, patch[..i])
      {
        var (name, v) := patch[i];
        assert !IsManagedAttribute(name);
        if HasAttribute(name) {
          if Fits(name, v) {
            fields := SetColumn(fields, name, v);
          } else {
            failure := Some(FirstRaised(failure, Rejection(name, v)));
          }
        }
        assert patch[..i + 1][..i] == patch[..i];
        i := i + 1;
      }
      assert patch[..i] == patch;
      var changed := fields != p.fields;
      var p' := if changed then p.(fields := fields, updatedAt := clock) else p;
      projects := projects[id := p'];
      if changed {
        clock := clock + 1;
      }
      if failure.Some? {
        Rollback(saved);
        out := Raised(failure.value);
      } else if CodeHeldByOther(saved.projects, fields.code, id) {
        Rollback(saved);
        out := Raised(UniqueViolation("code"));
      } else {
        out := Returned(Some(p'));
      }
    }

    /** `delete_project(id)`: the project, its budget lines and its news go. */
    method DeleteProject(id: Id) returns (out: Outcome<bool>)
      requires Valid()
      modifies this
      ensures Step(out, State()) == Store.DeleteProject(old(State()), id)
      ensures Valid()
    {
      if id !in projects {
        out := Returned(false);
        return;
      }
      ghost var t := State();
      lines := map k | k in lines && lines[k].projectId != id :: lines[k];
      news := map k | k in news && news[k].projectId != id :: news[k];
      projects := projects - {id};
      out := Returned(true);
      assert State() == Cascade(t, id);
      assert Step(out, State()) == Store.DeleteProject(t, id);
    }

    /** `add_budget_line(project_id, label, amount_cents, is_capex, value_date)`. */
    method AddBudgetLine(pid: Id, labelText: string, amountCents: int, isCapex: bool, valueDate: Option<Date>)
      returns (out: Outcome<Option<BudgetLine>>)
      requires Valid()
      modifies this
      ensures Step(out, State()) == Store.AddBudgetLine(old(State()), pid, labelText, amountCents, isCapex, valueDate)
      ensures Valid()
    {
      if pid !in projects {
        out := Returned(None);
        return;
      }
      var saved := State();
      var l := InsertLine(pid, labelText, amountCents, isCapex, valueDate);
      if FitsInt64(amountCents) {
        out := Returned(Some(l));
      } else {
        Rollback(saved);
        out := Raised(IntegerOverflow("amount_cents"));
      }
    }

    /** `create_project_news(project_id, text, created_at)`. */
    method CreateProjectNews(pid: Id, text: string, createdAt: Option<Stamp>) returns (out: Outcome<ProjectNews>)
      requires Valid()
      modifies this
      ensures Step(out, State()) == Store.CreateProjectNews(old(State()), pid, text, createdAt)
      ensures Valid()
    {
      if pid !in projects {
        out := Raised(ProjectNotFound);
        return;
      }
      var n := ProjectNews(Ordering.NextRowId(news.Keys), pid, PyText.Strip(text), createdAt.GetOr(clock));
      news := news[n.id := n];
      clock := clock + 1;
      out := Returned(n);
    }

    /** `update_project_news(news_id, new_text)`. */
    method UpdateProjectNews(nid: Id, text: string) returns (out: Outcome<bool>)
      requires Valid()
      modifies this
      ensures Step(out, State()) == Store.UpdateProjectNews(old(State()), nid, text)
      ensures Valid()
    {
      if nid !in news {
        out := Returned(false);
        return;
      }
      ghost var t := State();
      news := news[nid := news[nid].(text := PyText.Strip(text))];
      out := Returned(true);
      assert State() == Store.UpdateProjectNews(t, nid, text).after;
    }

    /** `delete_project_news(news_id)`. */
    method DeleteProjectNews(nid: Id) returns (out: Outcome<bool>)
      requires Valid()
      modifies this
      ensures Step(out, State()) == Store.DeleteProjectNews(old(State()), nid)
      ensures Valid()
    {
      if nid !in news {
        out := Returned(false);
        return;
      }
      news := news - {nid};
      out := Returned(true);
    }

    /** `seed_demo_if_empty()`: the demo project, then `add_all` of its
        lines, one row after the other. */
    method SeedDemoIfEmpty()
      requires Valid()
      modifies this
      ensures State() == Store.SeedDemoIfEmpty(old(State())).after
      ensures Valid()
    {
      if projects != map[] {
        return;
      }
      var p := InsertProject(DemoFields());
      ghost var seeded := AddLines(State(), p.id, DemoLines);
      for i := 0 to |DemoLines|
        invariant AddLines(State(), p.id, DemoLines[i..]) == seeded
      {
        var d := DemoLines[i];
        assert DemoLines[i..][1..] == DemoLines[i + 1..];
        var _ := InsertLine(p.id, d.labelText, d.amountCents, d.isCapex, None);
      }
      assert DemoLines[|DemoLines|..] == [];
    }
  }
}
