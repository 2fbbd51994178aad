/** The database behind app/db/repo.py as one value: the three tables keyed
    by id and the clock that stamps rows, the integrity rules the schema
    declares, the unit of work of `get_session`, and each repository
    operation as a function from the store before to what the caller gets
    back and the store after. */
module Store {
  import opened Models
  import opened PyText
  import Ordering

  datatype Tables = Tables(
    projects: map<Id, Project>,
    lines: map<Id, BudgetLine>,
    news: map<Id, ProjectNews>,
    clock: Stamp)

  /** The schema as `init_db` leaves a new database: no rows. */
  const Empty: Tables := Tables(map[], map[], map[], 0)

  /** What a repository call gives its caller: a value, or an exception. */
  datatype Outcome<T> = Returned(value: T) | Raised(error: Error)

  /** A call's outcome together with the store it leaves behind. */
  datatype Step<T> = Step(out: Outcome<T>, after: Tables)

  // ----- integrity -----

  ghost predicate KeyedById(t: Tables) {
    && (forall k :: k in t.projects ==> t.projects[k].id == k)
    && (forall k :: k in t.lines ==> t.lines[k].id == k)
    && (forall k :: k in t.news ==> t.news[k].id == k)
  }

  /** The unique constraint `uq_project_code`. */
  ghost predicate UniqueCodes(projects: map<Id, Project>) {
    forall a, b :: a in projects && b in projects && projects[a].fields.code == projects[b].fields.code ==> a == b
  }

  /** The NOT NULL foreign keys: every budget line and every news item
      belongs to a stored project. */
  ghost predicate Referenced(t: Tables) {
    && (forall k :: k in t.lines ==> t.lines[k].projectId in t.projects)
    && (forall k :: k in t.news ==> t.news[k].projectId in t.projects)
  }

  /** Every stored project and budget line was stamped before the clock's
      current reading. */
  ghost predicate StampedBefore(t: Tables) {
    && (forall k :: k in t.projects ==> t.projects[k].createdAt <= t.projects[k].updatedAt < t.clock)
    && (forall k :: k in t.lines ==> t.lines[k].createdAt <= t.lines[k].updatedAt < t.clock)
  }

  /** News text is stored stripped, by creation and by every edit. */
  ghost predicate NewsStripped(t: Tables) {
    forall k :: k in t.news ==> Strip(t.news[k].text) == t.news[k].text
  }

  ghost predicate Valid(t: Tables) {
    KeyedById(t) && UniqueCodes(t.projects) && Referenced(t) && StampedBefore(t) && NewsStripped(t)
  }

  lemma EmptyIsValid()
    ensures Valid(Empty)
  {
  }

  /** Some stored project other than `self` has this code. */
  predicate CodeHeldByOther(projects: map<Id, Project>, code: string, self: Id) {
    exists k :: k in projects && k != self && projects[k].fields.code == code
  }

  /** Some stored project has this code. */
  predicate CodeInUse(projects: map<Id, Project>, code: string) {
    exists k :: k in projects && projects[k].fields.code == code
  }

  // ----- get_session -----

  /** `with get_session() as s: ...`: when the body returns, what it left
      pending is committed; when it raises, the session rolls back to the
      store as it was before and the exception is raised again. */
  function InSession<T>(before: Tables, body: Step<T>): (r: Step<T>)
    ensures r.out == body.out
    ensures r.out.Raised? ==> r.after == before
    ensures r.out.Returned? ==> r.after == body.after
  {
    if body.out.Raised? then Step(body.out, before) else body
  }

  // ----- queries -----

  /** `get_project(id)`: the row, or None for an unknown id. */
  function GetProject(t: Tables, id: Id): (r: Option<Project>)
    ensures r.Some? <==> id in t.projects
    ensures r.Some? ==> r.value == t.projects[id]
    ensures Valid(t) && r.Some? ==> r.value.id == id
  {
    if id in t.projects then Some(t.projects[id]) else None
  }

  /** ORDER BY created_at DESC */
  function NewestProjectFirst(p: Project): int {
    -(p.createdAt as int)
  }

  /** ORDER BY created_at ASC */
  function OldestLineFirst(l: BudgetLine): int {
    l.createdAt
  }

  /** ORDER BY created_at DESC */
  function NewestNewsFirst(n: ProjectNews): int {
    -(n.createdAt as int)
  }

  function LineProject(l: BudgetLine): nat {
    l.projectId
  }

  function NewsProject(n: ProjectNews): nat {
    n.projectId
  }

  ghost function LinesOf(t: Tables, pid: Id): set<Id> {
    set k | k in t.lines && t.lines[k].projectId == pid
  }

  ghost function NewsOf(t: Tables, pid: Id): set<Id> {
    set k | k in t.news && t.news[k].projectId == pid
  }

  /** `list_projects()`: every project once, newest first. */
  function ListProjects(t: Tables): (r: seq<Project>)
    ensures |r| == |t.projects|
    ensures forall p :: p in r ==> p in t.projects.Values
    ensures forall k :: k in t.projects ==> t.projects[k] in r
    ensures forall i, j :: 0 <= i < j < |r| ==> r[i].createdAt >= r[j].createdAt
  {
    Ordering.SelectAll(t.projects, NewestProjectFirst)
  }

  /** `list_budget_lines(pid)`: the lines of project `pid`, each once,
      oldest first. */
  function ListBudgetLines(t: Tables, pid: Id): (r: seq<BudgetLine>)
    ensures |r| == |LinesOf(t, pid)|
    ensures forall l :: l in r ==> l in t.lines.Values && l.projectId == pid
    ensures forall k :: k in t.lines && t.lines[k].projectId == pid ==> t.lines[k] in r
    ensures forall i, j :: 0 <= i < j < |r| ==> r[i].createdAt <= r[j].createdAt
  {
    assert Ordering.KeysOwnedBy(t.lines, LineProject, pid) == LinesOf(t, pid);
    Ordering.Select(t.lines, LineProject, pid, OldestLineFirst)
  }

  /** `list_project_news(pid)`: the news of project `pid`, each once,
      newest first. */
  function ListProjectNews(t: Tables, pid: Id): (r: seq<ProjectNews>)
    ensures |r| == |NewsOf(t, pid)|
    ensures forall n :: n in r ==> n in t.news.Values && n.projectId == pid
    ensures forall k :: k in t.news && t.news[k].projectId == pid ==> t.news[k] in r
    ensures forall i, j :: 0 <= i < j < |r| ==> r[i].createdAt >= r[j].createdAt
  {
    assert Ordering.KeysOwnedBy(t.news, NewsProject, pid) == NewsOf(t, pid);
    Ordering.Select(t.news, NewsProject, pid, NewestNewsFirst)
  }

  // ----- rows added by s.add -----

  /** The pending store after `s.add(Project(**fields))`: the next row id and
      the clock's reading for both timestamps. */
  function AddProjectRow(t: Tables, f: ProjectFields): (Tables, Project) {
    var id := Ordering.NextRowId(t.projects.Keys);
    var p := Project(id, f, t.clock, t.clock);
    (t.(projects := t.projects[id := p], clock := t.clock + 1), p)
  }

  /** A project row whose code is free keeps the store consistent. */
  lemma ProjectRowValid(t: Tables, f: ProjectFields)
    ensures Valid(t) && !CodeInUse(t.projects, f.code) ==> Valid(AddProjectRow(t, f).0)
  {
    if Valid(t) && !CodeInUse(t.projects, f.code) {
      var (t', p) := AddProjectRow(t, f);
      assert t'.lines == t.lines && t'.news == t.news;
      assert KeyedById(t') && Referenced(t') && StampedBefore(t') && NewsStripped(t');
      assert UniqueCodes(t'.projects);
    }
  }

  /** The pending store after `s.add(BudgetLine(...))`. */
  function AddLineRow(t: Tables, pid: Id, labelText: string, amountCents: int, isCapex: bool,
                      valueDate: Option<Date>): (Tables, BudgetLine)
  {
    var id := Ordering.NextRowId(t.lines.Keys);
    var l := NewBudgetLine(id, pid, labelText, t.clock, isCapex, amountCents, valueDate);
    (t.(lines := t.lines[id := l], clock := t.clock + 1), l)
  }

  // ----- projects -----

  /** `create_project(code, name, ...)`. The flush raises when the code is
      already taken, and the session then rolls the new row back. */
  function CreateProject(t: Tables, f: ProjectFields): (r: Step<Project>)
    ensures r.out.Raised? <==> CodeInUse(t.projects, f.code)
    ensures r.out.Raised? ==> r.out.error == UniqueViolation("code") && r.after == t
    ensures r.out.Returned? ==>
      var p := r.out.value;
      && p.id !in t.projects && (forall k :: k in t.projects ==> k < p.id)
      && p.fields == f && p.createdAt == p.updatedAt == t.clock
      && r.after.projects == t.projects[p.id := p]
      && r.after.lines == t.lines && r.after.news == t.news
    ensures Valid(t) ==> Valid(r.after)
  {
    var (pending, p) := AddProjectRow(t, f);
    InSession(t, Step(if CodeInUse(t.projects, f.code) then Raised(UniqueViolation("code")) else Returned(p), pending))
  }

  /** A `**fields` dict as its items, in order. */
  type Patch = seq<(string, Value)>

  /** A dict never holds a key twice. */
  ghost predicate DistinctNames(patch: Patch) {
    forall i, j :: 0 <= i < j < |patch| ==> patch[i].0 != patch[j].0
  }

  /** No key names an attribute the store manages itself. */
  ghost predicate NoManagedNames(patch: Patch) {
    forall i :: 0 <= i < |patch| ==> !IsManagedAttribute(patch[i].0)
  }

  ghost predicate Supplied(patch: Patch, name: string) {
    exists i :: 0 <= i < |patch| && patch[i].0 == name
  }

  /** A record after a run of `setattr`, and the error its flush will raise
      (a value of the wrong type, a NULL in a NOT NULL column), if any. */
  datatype Patched = Patched(fields: ProjectFields, failure: Option<Error>)

  /** `for k, v in fields.items(): if hasattr(p, k): setattr(p, k, v)`. */
  function ApplyPatch(f: ProjectFields, patch: Patch): (r: Patched)
    requires NoManagedNames(patch)
    ensures r.failure.Some? ==>
      r.failure.value.WrongType? || r.failure.value.Unbindable? || r.failure.value.NotNullViolation?
    ensures r.failure.None? ==>
      forall i :: 0 <= i < |patch| && IsColumn(patch[i].0) ==> Fits(patch[i].0, patch[i].1)
    decreases |patch|
  {
    if patch == [] then Patched(f, None)
    else
      var init := patch[..|patch| - 1];
      assert NoManagedNames(init) by {
        assert forall i :: 0 <= i < |init| ==> init[i] == patch[i];
      }
      PatchStep(ApplyPatch(f, init), patch[|patch| - 1].0, patch[|patch| - 1].1)
  }

  /** One item of the loop: an unknown key is skipped, a value the column
      can hold is set, and any other value leaves the record as it is and
      adds its error to those the flush will meet. */
  function PatchStep(prev: Patched, name: string, v: Value): (r: Patched)
    requires !IsManagedAttribute(name)
    ensures !IsColumn(name) ==> r == prev
    ensures IsColumn(name) && Fits(name, v) ==> r.failure == prev.failure
    ensures IsColumn(name) && !Fits(name, v) ==>
      r.fields == prev.fields && r.failure == Some(FirstRaised(prev.failure, Rejection(name, v)))
  {
    if !HasAttribute(name) then prev
    else if Fits(name, v) then Patched(SetColumn(prev.fields, name, v), prev.failure)
    else Patched(prev.fields, Some(FirstRaised(prev.failure, Rejection(name, v))))
  }

  /** A column the patch does not name keeps its value. */
  lemma {:induction false} PatchKeepsUnsupplied(f: ProjectFields, patch: Patch, name: string)
    requires NoManagedNames(patch)
    requires IsColumn(name) && !Supplied(patch, name)
    ensures GetColumn(ApplyPatch(f, patch).fields, name) == GetColumn(f, name)
    decreases |patch|
  {
    if patch != [] {
      var init := patch[..|patch| - 1];
      assert forall i :: 0 <= i < |init| ==> init[i] == patch[i];
      assert !Supplied(init, name);
      PatchKeepsUnsupplied(f, init, name);
      assert patch[|patch| - 1].0 != name;
    }
  }

  /** `update_project(id, **fields)`: None for an unknown id; otherwise the
      known fields are set, the flush raises on a value a column cannot hold
      or on a code another project has, and `updated_at` moves only when a
      column changed. */
  function UpdateProject(t: Tables, id: Id, patch: Patch): (r: Step<Option<Project>>)
    requires NoManagedNames(patch)
    ensures id !in t.projects ==> r == Step(Returned(None), t)
    ensures r.out.Raised? ==> r.after == t
    ensures id in t.projects ==>
      var old_ := t.projects[id];
      var patched := ApplyPatch(old_.fields, patch);
      && (r.out.Raised? <==> patched.failure.Some? || CodeHeldByOther(t.projects, patched.fields.code, id))
      && (patched.failure.Some? ==> r.out == Raised(patched.failure.value))
      && (patched.failure.None? && CodeHeldByOther(t.projects, patched.fields.code, id) ==>
            r.out == Raised(UniqueViolation("code")))
      && (r.out.Returned? ==>
            && r.out.value.Some?
            && var p := r.out.value.value;
            && p.id == old_.id && p.fields == patched.fields && p.createdAt == old_.createdAt
            && (p.updatedAt == if p.fields == old_.fields then old_.updatedAt else t.clock)
            && r.after.projects == t.projects[id := p]
            && r.after.lines == t.lines && r.after.news == t.news)
    ensures Valid(t) ==> Valid(r.after)
  {
    if id !in t.projects then InSession(t, Step(Returned(None), t))
    else
      var p := t.projects[id];
      var patched := ApplyPatch(p.fields, patch);
      var changed := patched.fields != p.fields;
      var p' := if changed then p.(fields := patched.fields, updatedAt := t.clock) else p;
      var pending := t.(projects := t.projects[id := p'], clock := if changed then t.clock + 1 else t.clock);
      var out :=
        if patched.failure.Some? then Raised(patched.failure.value)
        else if CodeHeldByOther(t.projects, p'.fields.code, id) then Raised(UniqueViolation("code"))
        else Returned(Some(p'));
      ProjectEditValid(t, id, p', pending.clock);
      InSession(t, Step(out, pending))
  }

  /** Rewriting a stored project under its own id, with a code no other
      project holds, keeps the store consistent. */
  lemma ProjectEditValid(t: Tables, id: Id, p: Project, clock: Stamp)
    ensures && Valid(t) && id in t.projects && p.id == id && t.clock <= clock
            && p.createdAt <= p.updatedAt < clock && !CodeHeldByOther(t.projects, p.fields.code, id)
        ==> Valid(t.(projects := t.projects[id := p], clock := clock))
  {
  }

  /** `delete_project(id)`: False for an unknown id; otherwise the project
      goes, with its budget lines (ORM cascade) and its news (ON DELETE
      CASCADE). */
  function DeleteProject(t: Tables, id: Id): (r: Step<bool>)
    ensures r.out == Returned(id in t.projects)
    ensures id !in t.projects ==> r.after == t
    ensures id in t.projects ==>
      && r.after.projects == t.projects - {id}
      && (forall k :: k in r.after.lines ==> k in t.lines && t.lines[k].projectId != id && r.after.lines[k] == t.lines[k])
      && (forall k :: k in t.lines && t.lines[k].projectId != id ==> k in r.after.lines)
      && (forall k :: k in r.after.news ==> k in t.news && t.news[k].projectId != id && r.after.news[k] == t.news[k])
      && (forall k :: k in t.news && t.news[k].projectId != id ==> k in r.after.news)
    ensures Valid(t) ==> Valid(r.after)
  {
    if id !in t.projects then InSession(t, Step(Returned(false), t))
    else
      CascadeValid(t, id);
      InSession(t, Step(Returned(true), Cascade(t, id)))
  }

  /** The store without project `id` and without the lines and news that
      belong to it. */
  function Cascade(t: Tables, id: Id): (r: Tables)
    ensures r.projects == t.projects - {id} && r.clock == t.clock
    ensures forall k :: k in r.lines ==> r.lines[k].projectId != id
    ensures forall k :: k in r.news ==> r.news[k].projectId != id
    ensures forall k :: k in t.lines && t.lines[k].projectId != id ==> k in r.lines && r.lines[k] == t.lines[k]
    ensures forall k :: k in t.news && t.news[k].projectId != id ==> k in r.news && r.news[k] == t.news[k]
  {
    t.(projects := t.projects - {id},
       lines := map k | k in t.lines && t.lines[k].projectId != id :: t.lines[k],
       news := map k | k in t.news && t.news[k].projectId != id :: t.news[k])
  }

  /** Removing a project together with its lines and news keeps the store
      consistent. */
  lemma CascadeValid(t: Tables, id: Id)
    ensures Valid(t) ==> Valid(Cascade(t, id))
  {
    if Valid(t) {
      var c := Cascade(t, id);
      assert Referenced(c) by {
        forall k | k in c.lines ensures c.lines[k].projectId in c.projects {
          assert c.lines[k] == t.lines[k];
        }
        forall k | k in c.news ensures c.news[k].projectId in c.projects {
          assert c.news[k] == t.news[k];
        }
      }
    }
  }

  // ----- budget lines -----

  /** `add_budget_line(pid, label, amount_cents, is_capex=True, value_date=None)`:
      None when the project does not exist; the flush raises when the amount
      does not fit SQLite's 64-bit INTEGER. */
  function AddBudgetLine(t: Tables, pid: Id, labelText: string, amountCents: int, isCapex: bool := true,
                         valueDate: Option<Date> := None): (r: Step<Option<BudgetLine>>)
    ensures pid !in t.projects ==> r == Step(Returned(None), t)
    ensures r.out.Raised? <==> pid in t.projects && !FitsInt64(amountCents)
    ensures r.out.Raised? ==> r.out.error == IntegerOverflow("amount_cents") && r.after == t
    ensures r.out.Returned? && r.out.value.Some? ==>
      var l := r.out.value.value;
      && l.id !in t.lines && (forall k :: k in t.lines ==> k < l.id)
      && l.createdAt == l.updatedAt == t.clock
      && l.projectId == pid && l.labelText == labelText
      && l.amountCents == amountCents && l.isCapex == isCapex && l.valueDate == valueDate
      && r.after.lines == t.lines[l.id := l]
      && r.after.projects == t.projects && r.after.news == t.news
    ensures r.out.Returned? ==> (r.out.value.Some? <==> pid in t.projects)
    ensures Valid(t) ==> Valid(r.after)
  {
    if pid !in t.projects then InSession(t, Step(Returned(None), t))
    else
      var (pending, l) := AddLineRow(t, pid, labelText, amountCents, isCapex, valueDate);
      InSession(t, Step(if FitsInt64(amountCents) then Returned(Some(l)) else Raised(IntegerOverflow("amount_cents")), pending))
  }

  // ----- project news -----

  /** `create_project_news(pid, text, created_at=None)`: raises when the
      project does not exist; stores the stripped text, stamped with the
      given time or else the clock's. */
  function CreateProjectNews(t: Tables, pid: Id, text: string, createdAt: Option<Stamp> := None): (r: Step<ProjectNews>)
    ensures r.out.Raised? <==> pid !in t.projects
    ensures r.out.Raised? ==> r.out.error == ProjectNotFound && r.after == t
    ensures r.out.Returned? ==>
      var n := r.out.value;
      && n.id !in t.news && (forall k :: k in t.news ==> k < n.id)
      && n.projectId == pid && n.text == Strip(text)
      && n.createdAt == createdAt.GetOr(t.clock)
      && r.after.news == t.news[n.id := n]
      && r.after.projects == t.projects && r.after.lines == t.lines
    ensures Valid(t) ==> Valid(r.after)
  {
    if pid !in t.projects then InSession(t, Step(Raised(ProjectNotFound), t))
    else
      var (pending, n) := AddNewsRow(t, pid, text, createdAt);
      NewsRowValid(t, pid, text, createdAt);
      InSession(t, Step(Returned(n), pending))
  }

  /** The pending store after `s.add(ProjectNews(...))`. */
  function AddNewsRow(t: Tables, pid: Id, text: string, createdAt: Option<Stamp>): (Tables, ProjectNews) {
    var id := Ordering.NextRowId(t.news.Keys);
    var n := ProjectNews(id, pid, Strip(text), createdAt.GetOr(t.clock));
    (t.(news := t.news[id := n], clock := t.clock + 1), n)
  }

  /** A news row under a stored project keeps the store consistent. */
  lemma NewsRowValid(t: Tables, pid: Id, text: string, createdAt: Option<Stamp>)
    ensures Valid(t) && pid in t.projects ==> Valid(AddNewsRow(t, pid, text, createdAt).0)
  {
    if Valid(t) && pid in t.projects {
      var (t', n) := AddNewsRow(t, pid, text, createdAt);
      assert Strip(n.text) == n.text by { StripIdempotent(text); }
      forall k | k in t'.news
        ensures t'.news[k].id == k && t'.news[k].projectId in t.projects
        ensures Strip(t'.news[k].text) == t'.news[k].text
      {
        if k != n.id { assert t'.news[k] == t.news[k]; }
      }
      assert t'.projects == t.projects && t'.lines == t.lines && t'.clock == t.clock + 1;
      assert Valid(t');
    }
  }

  /** `update_project_news(nid, new_text)`: False for an unknown id;
      otherwise the text becomes the stripped new text. */
  function UpdateProjectNews(t: Tables, nid: Id, text: string): (r: Step<bool>)
    ensures r.out == Returned(nid in t.news)
    ensures nid !in t.news ==> r.after == t
    ensures nid in t.news ==>
      && nid in r.after.news
      && r.after.news[nid] == t.news[nid].(text := Strip(text))
      && (forall k :: k in t.news && k != nid ==> k in r.after.news && r.after.news[k] == t.news[k])
      && r.after.news.Keys == t.news.Keys
      && r.after.projects == t.projects && r.after.lines == t.lines
    ensures Valid(t) ==> Valid(r.after)
  {
    if nid !in t.news then InSession(t, Step(Returned(false), t))
    else
      var n := t.news[nid].(text := Strip(text));
      NewsEditValid(t, nid, text);
      InSession(t, Step(Returned(true), t.(news := t.news[nid := n])))
  }

  /** Replacing a news text by a stripped text keeps the store consistent. */
  lemma NewsEditValid(t: Tables, nid: Id, text: string)
    ensures Valid(t) && nid in t.news ==> Valid(t.(news := t.news[nid := t.news[nid].(text := Strip(text))]))
  {
    if Valid(t) && nid in t.news {
      var n := t.news[nid].(text := Strip(text));
      var news := t.news[nid := n];
      assert Strip(n.text) == n.text by { StripIdempotent(text); }
      forall k | k in news
        ensures news[k].id == k && news[k].projectId in t.projects && Strip(news[k].text) == news[k].text
      {
        if k != nid { assert news[k] == t.news[k]; }
      }
      assert Valid(t.(news := news));
    }
  }

  /** `delete_project_news(nid)`: False for an unknown id; otherwise that
      one item goes. */
  function DeleteProjectNews(t: Tables, nid: Id): (r: Step<bool>)
    ensures r.out == Returned(nid in t.news)
    ensures nid !in t.news ==> r.after == t
    ensures nid in t.news ==>
      && r.after.news == t.news - {nid}
      && r.after.projects == t.projects && r.after.lines == t.lines
    ensures Valid(t) ==> Valid(r.after)
  {
    if nid !in t.news then InSession(t, Step(Returned(false), t))
    else InSession(t, Step(Returned(true), t.(news := t.news - {nid})))
  }

  // ----- demo seed -----

  const DemoCode: string := "PRJ-2025-001"

  function DemoFields(): ProjectFields {
    NewProjectFields(DemoCode, "Migration ERP", Some("Direction Financi\U{e8}re"))
  }

  /** What a budget line is given when it is built: label, amount in
      cents, CAPEX flag. */
  datatype LineDraft = LineDraft(labelText: string, amountCents: int, isCapex: bool)

  function Draft(l: BudgetLine): LineDraft {
    LineDraft(l.labelText, l.amountCents, l.isCapex)
  }

  /** The lines of the demo project, in the order they are added. */
  const DemoLines: seq<LineDraft> := [
    LineDraft("Licences ERP", 120_000_00, true),
    LineDraft("Presta int\U{e9}gration", 80_000_00, true),
    LineDraft("Formation", 15_000_00, false)
  ]

  /** `s.add_all([...])` of budget lines of project `pid`: one row per
      draft, in order. */
  function AddLines(t: Tables, pid: Id, drafts: seq<LineDraft>): (r: Tables)
    ensures r.projects == t.projects && r.news == t.news
    ensures r.clock == t.clock + |drafts|
    decreases |drafts|
  {
    if drafts == [] then t
    else
      var d := drafts[0];
      var (t', _) := AddLineRow(t, pid, d.labelText, d.amountCents, d.isCapex, None);
      AddLines(t', pid, drafts[1..])
  }

  /** Adding one line row under a stored project keeps the store consistent. */
  lemma LineRowValid(t: Tables, pid: Id, d: LineDraft)
    requires Valid(t) && pid in t.projects
    ensures Valid(AddLineRow(t, pid, d.labelText, d.amountCents, d.isCapex, None).0)
  {
    var (t', l) := AddLineRow(t, pid, d.labelText, d.amountCents, d.isCapex, None);
    forall k | k in t'.lines
      ensures t'.lines[k].id == k && t'.lines[k].projectId in t.projects
      ensures t'.lines[k].createdAt <= t'.lines[k].updatedAt < t'.clock
    {
      if k != l.id { assert t'.lines[k] == t.lines[k]; }
    }
    assert t'.projects == t.projects && t'.news == t.news && t'.clock == t.clock + 1;
    assert Valid(t');
  }

  /** Adding lines under a stored project keeps the store consistent. */
  lemma {:induction false} AddLinesValid(t: Tables, pid: Id, drafts: seq<LineDraft>)
    ensures Valid(t) && pid in t.projects ==> Valid(AddLines(t, pid, drafts))
    decreases |drafts|
  {
    if drafts != [] && Valid(t) && pid in t.projects {
      var d := drafts[0];
      LineRowValid(t, pid, d);
      var (t', _) := AddLineRow(t, pid, d.labelText, d.amountCents, d.isCapex, None);
      AddLinesValid(t', pid, drafts[1..]);
    }
  }

  /** Adding lines keeps every other table and every earlier line, and adds
      one row per draft. */
  lemma {:induction false} AddLinesEffect(t: Tables, pid: Id, drafts: seq<LineDraft>)
    ensures var r := AddLines(t, pid, drafts);
      && r.projects == t.projects && r.news == t.news
      && (forall k :: k in t.lines ==> k in r.lines && r.lines[k] == t.lines[k])
      && |r.lines| == |t.lines| + |drafts|
    decreases |drafts|
  {
    if drafts != [] {
      var d := drafts[0];
      var (t', _) := AddLineRow(t, pid, d.labelText, d.amountCents, d.isCapex, None);
      AddLinesEffect(t', pid, drafts[1..]);
    }
  }

  /** Every row added belongs to `pid` and is made from one of the drafts. */
  lemma {:induction false} AddLinesNew(t: Tables, pid: Id, drafts: seq<LineDraft>)
    ensures var r := AddLines(t, pid, drafts);
      forall k :: k in r.lines && k !in t.lines ==> r.lines[k].projectId == pid && Draft(r.lines[k]) in drafts
    decreases |drafts|
  {
    if drafts != [] {
      var d := drafts[0];
      var (t', _) := AddLineRow(t, pid, d.labelText, d.amountCents, d.isCapex, None);
      AddLinesNew(t', pid, drafts[1..]);
      AddLinesEffect(t', pid, drafts[1..]);
      assert forall e :: e in drafts[1..] ==> e in drafts;
    }
  }

  /** Every draft gives a new row. */
  lemma {:induction false} AddLinesCover(t: Tables, pid: Id, drafts: seq<LineDraft>)
    ensures var r := AddLines(t, pid, drafts);
      forall d :: d in drafts ==>
        exists k :: k in r.lines && k !in t.lines && r.lines[k].projectId == pid && Draft(r.lines[k]) == d
    decreases |drafts|
  {
    if drafts != [] {
      var d := drafts[0];
      var (t', l) := AddLineRow(t, pid, d.labelText, d.amountCents, d.isCapex, None);
      AddLinesCover(t', pid, drafts[1..]);
      AddLinesEffect(t', pid, drafts[1..]);
      var r := AddLines(t, pid, drafts);
      assert l.id in r.lines && l.id !in t.lines && r.lines[l.id].projectId == pid && Draft(r.lines[l.id]) == d;
      assert forall e :: e in drafts ==> e == d || e in drafts[1..];
    }
  }

  /** `seed_demo_if_empty()`: nothing when any project exists; otherwise one
      demo project and, under it, the demo lines. */
  function SeedDemoIfEmpty(t: Tables): (r: Step<()>)
    ensures r.out == Returned(())
    ensures t.projects != map[] ==> r.after == t
    ensures t.projects == map[] ==>
      && |r.after.projects| == 1
      && (forall k :: k in r.after.projects ==> r.after.projects[k].fields == DemoFields())
      && (forall k :: k in t.lines ==> k in r.after.lines && r.after.lines[k] == t.lines[k])
      && |r.after.lines| == |t.lines| + |DemoLines|
      && r.after.news == t.news
    ensures Valid(t) ==> Valid(r.after)
  {
    if t.projects != map[] then InSession(t, Step(Returned(()), t))
    else
      var (t1, p) := AddProjectRow(t, DemoFields());
      var t2 := AddLines(t1, p.id, DemoLines);
      ProjectRowValid(t, DemoFields());
      AddLinesValid(t1, p.id, DemoLines);
      AddLinesEffect(t1, p.id, DemoLines);
      assert t1.projects == map[p.id := p];
      InSession(t, Step(Returned(()), t2))
  }
}
