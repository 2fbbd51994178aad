/** What the repository promises across calls: a call and the queries that
    observe it, two calls in a row, and a whole session from an empty
    database. */
module StoreProperties {
  import opened Models
  import opened PyText
  import opened Store
  import Ordering

  // ----- projects -----

  /** A created project is read back with the fields it was given. */
  lemma CreateThenGet(t: Tables, f: ProjectFields)
    requires Valid(t) && !CodeInUse(t.projects, f.code)
    ensures var r := CreateProject(t, f);
      && r.out.Returned?
      && GetProject(r.after, r.out.value.id) == Some(r.out.value)
      && r.out.value.fields == f
  {
  }

  /** A second project with a code already in use is refused and nothing is
      stored. */
  lemma DuplicateCodeRejected(t: Tables, f: ProjectFields, existing: Id)
    requires existing in t.projects && t.projects[existing].fields.code == f.code
    ensures CreateProject(t, f) == Step(Raised(UniqueViolation("code")), t)
  {
  }

  /** The newest project heads `list_projects`, in front of the others in
      their previous order. */
  lemma CreatedProjectListedFirst(t: Tables, f: ProjectFields)
    requires Valid(t) && !CodeInUse(t.projects, f.code)
    ensures var r := CreateProject(t, f);
      r.out.Returned? && ListProjects(r.after) == [r.out.value] + ListProjects(t)
  {
    var r := CreateProject(t, f);
    var p := r.out.value;
    Ordering.SelectAllPrepend(t.projects, p.id, p, NewestProjectFirst);
  }

  // ----- update_project -----

  /** Index `i` of the patch names a column whose value that column cannot
      hold. */
  ghost predicate Misfit(patch: Patch, i: int) {
    0 <= i < |patch| && IsColumn(patch[i].0) && !Fits(patch[i].0, patch[i].1)
  }

  /** Every supplied column that can hold its value ends up holding it. */
  lemma {:induction false} PatchSetsSupplied(f: ProjectFields, patch: Patch, i: int)
    requires NoManagedNames(patch) && DistinctNames(patch)
    requires 0 <= i < |patch| && IsColumn(patch[i].0) && Fits(patch[i].0, patch[i].1)
    ensures GetColumn(ApplyPatch(f, patch).fields, patch[i].0) == patch[i].1
    decreases |patch|
  {
    var init := patch[..|patch| - 1];
    assert NoManagedNames(init) && DistinctNames(init) by {
      assert forall j :: 0 <= j < |init| ==> init[j] == patch[j];
    }
    var prev := ApplyPatch(f, init);
    var (name, v) := patch[|patch| - 1];
    var r := ApplyPatch(f, patch);
    assert r == PatchStep(prev, name, v);
    if i < |patch| - 1 {
      assert init[i] == patch[i];
      PatchSetsSupplied(f, init, i);
      assert name != patch[i].0;
      if IsColumn(name) && Fits(name, v) {
        assert r.fields == SetColumn(prev.fields, name, v);
      } else {
        assert r.fields == prev.fields;
      }
    } else {
      assert r.fields == SetColumn(prev.fields, name, v);
    }
  }

  /** `e` is the error of a misfit of the patch, and no misfit of the patch
      comes earlier in the flush. */
  ghost predicate FirstMisfitError(patch: Patch, e: Error) {
    && (exists i :: Misfit(patch, i) && e == Rejection(patch[i].0, patch[i].1))
    && (forall j :: Misfit(patch, j) ==> FlushOrder(e) <= FlushOrder(Rejection(patch[j].0, patch[j].1)))
  }

  /** The patch fails exactly when some supplied column cannot hold its
      value, and then with the error of that kind the flush meets first. */
  lemma {:induction false} PatchFailsWithFirstFlushError(f: ProjectFields, patch: Patch)
    requires NoManagedNames(patch)
    ensures ApplyPatch(f, patch).failure.None? <==> forall i :: !Misfit(patch, i)
    ensures ApplyPatch(f, patch).failure.Some? ==> FirstMisfitError(patch, ApplyPatch(f, patch).failure.value)
    decreases |patch|
  {
    if patch != [] {
      var last := |patch| - 1;
      var init := patch[..last];
      assert NoManagedNames(init) by {
        assert forall j :: 0 <= j < |init| ==> init[j] == patch[j];
      }
      PatchFailsWithFirstFlushError(f, init);
      var prev := ApplyPatch(f, init);
      var r := ApplyPatch(f, patch);
      assert r == PatchStep(prev, patch[last].0, patch[last].1);
      MisfitsOfPrefix(init, patch);
      if !Misfit(patch, last) {
        assert r.failure == prev.failure;
        if prev.failure.Some? {
          FirstErrorKept(init, patch, prev.failure.value);
        }
      } else {
        FirstErrorNext(init, patch, prev.failure);
      }
    }
  }

  /** The misfits of a patch without its last item are those of the patch
      before that item. */
  lemma MisfitsOfPrefix(init: Patch, patch: Patch)
    requires patch != [] && init == patch[..|patch| - 1]
    ensures forall j :: Misfit(init, j) <==> Misfit(patch, j) && j < |init|
  {
    forall j ensures Misfit(init, j) <==> Misfit(patch, j) && j < |init| {
      if 0 <= j < |init| {
        assert init[j] == patch[j];
      }
    }
  }

  /** A last item that fits keeps the first error of the items before it. */
  lemma FirstErrorKept(init: Patch, patch: Patch, e: Error)
    requires patch != [] && init == patch[..|patch| - 1] && !Misfit(patch, |init|)
    requires forall j :: Misfit(init, j) <==> Misfit(patch, j) && j < |init|
    requires FirstMisfitError(init, e)
    ensures FirstMisfitError(patch, e)
  {
    var i :| Misfit(init, i) && e == Rejection(init[i].0, init[i].1);
    assert init[i] == patch[i];
    forall j | Misfit(patch, j) ensures FlushOrder(e) <= FlushOrder(Rejection(patch[j].0, patch[j].1)) {
      assert Misfit(init, j) && init[j] == patch[j];
    }
  }

  /** A last item that misfits: the flush raises whichever of its error and
      the earlier first error it meets first. */
  lemma FirstErrorNext(init: Patch, patch: Patch, prev: Option<Error>)
    requires patch != [] && init == patch[..|patch| - 1] && Misfit(patch, |init|)
    requires forall j :: Misfit(init, j) <==> Misfit(patch, j) && j < |init|
    requires prev.None? ==> forall j :: !Misfit(init, j)
    requires prev.Some? ==> FirstMisfitError(init, prev.value)
    ensures FirstMisfitError(patch, FirstRaised(prev, Rejection(patch[|init|].0, patch[|init|].1)))
  {
    var last := |init|;
    var e := Rejection(patch[last].0, patch[last].1);
    var r := FirstRaised(prev, e);
    assert FlushOrder(r) <= FlushOrder(e) && (prev.Some? ==> FlushOrder(r) <= FlushOrder(prev.value));
    if r == e {
      assert Misfit(patch, last) && r == Rejection(patch[last].0, patch[last].1);
    } else {
      var i :| Misfit(init, i) && prev.value == Rejection(init[i].0, init[i].1);
      assert init[i] == patch[i] && Misfit(patch, i);
    }
    forall j | Misfit(patch, j) ensures FlushOrder(r) <= FlushOrder(Rejection(patch[j].0, patch[j].1)) {
      if j < last {
        assert Misfit(init, j) && init[j] == patch[j];
      }
    }
  }

  /** `update_project(id, code=None, start_date="2025-01")`: the date's bind
      processor rejects the text before SQLite checks that `code` is not
      NULL, so the wrong type is what is raised. */
  lemma BindErrorBeforeNotNull(f: ProjectFields)
    ensures ApplyPatch(f, [("code", Null), ("start_date", Text("2025-01"))]).failure == Some(WrongType("start_date"))
  {
    var patch: Patch := [("code", Null), ("start_date", Text("2025-01"))];
    assert patch[..1] == [("code", Null)];
    assert patch[..1][..0] == [];
  }
  /** `update_project(id, owner={...}, start_date="2025-01")`: the `Date`
      converter of `start_date` raises while the parameters are built,
      before the driver ever meets the document given for `owner`. */
  lemma ConverterErrorBeforeDriverError(f: ProjectFields, doc: Json)
    ensures ApplyPatch(f, [("owner", Document(doc)), ("start_date", Text("2025-01"))]).failure == Some(WrongType("start_date"))
  {
    var patch: Patch := [("owner", Document(doc)), ("start_date", Text("2025-01"))];
    assert patch[..1] == [("owner", Document(doc))];
    assert patch[..1][..0] == [];
    assert ApplyPatch(f, patch[..1]).failure == Some(Unbindable("owner"));
    assert FlushOrder(Unbindable("owner")) == 18 && FlushOrder(WrongType("start_date")) == 3;
  }
  /** `update_project(id, cir_montant={...}, subvention="oui")`: `float()`
      rejects the document while the parameters of column 9 are built,
      before the `Boolean` converter of column 10 meets the text. */
  lemma FloatConverterInColumnOrder(f: ProjectFields, doc: Json)
    ensures ApplyPatch(f, [("cir_montant", Document(doc)), ("subvention", Text("oui"))]).failure
         == Some(WrongType("cir_montant"))
  {
    var patch: Patch := [("cir_montant", Document(doc)), ("subvention", Text("oui"))];
    assert patch[..1] == [("cir_montant", Document(doc))];
    assert patch[..1][..0] == [];
    assert ApplyPatch(f, patch[..1]).failure == Some(WrongType("cir_montant"));
    assert FlushOrder(WrongType("cir_montant")) == 9 && FlushOrder(WrongType("subvention")) == 10;
  }



  /** The entries of a patch that name a column, in order. */
  function KnownOnly(patch: Patch): (r: Patch)
    ensures forall e :: e in r ==> e in patch && IsColumn(e.0)
    ensures forall e :: e in patch && IsColumn(e.0) ==> e in r
  {
    if patch == [] then []
    else KnownOnly(patch[..|patch| - 1]) + (if IsColumn(patch[|patch| - 1].0) then [patch[|patch| - 1]] else [])
  }

  /** Names that are not columns of Project are skipped: the patch acts as
      its known entries alone. */
  lemma {:induction false} PatchIgnoresUnknown(f: ProjectFields, patch: Patch)
    requires NoManagedNames(patch)
    ensures NoManagedNames(KnownOnly(patch))
    ensures ApplyPatch(f, patch) == ApplyPatch(f, KnownOnly(patch))
    decreases |patch|
  {
    var known := KnownOnly(patch);
    assert NoManagedNames(known) by {
      forall i | 0 <= i < |known| ensures !IsManagedAttribute(known[i].0) {
        assert known[i] in patch;
      }
    }
    if patch != [] {
      var last := |patch| - 1;
      var init := patch[..last];
      assert NoManagedNames(init) by {
        forall j | 0 <= j < |init| ensures !IsManagedAttribute(init[j].0) {
          assert init[j] == patch[j];
        }
      }
      PatchIgnoresUnknown(f, init);
      var (name, v) := patch[last];
      var prev := ApplyPatch(f, init);
      assert prev == ApplyPatch(f, KnownOnly(init));
      assert ApplyPatch(f, patch) == PatchStep(prev, name, v);
      if IsColumn(name) {
        assert known == KnownOnly(init) + [(name, v)];
        assert known[..|known| - 1] == KnownOnly(init) && known[|known| - 1] == (name, v);
        assert ApplyPatch(f, known) == PatchStep(prev, name, v);
      } else {
        assert known == KnownOnly(init);
        assert PatchStep(prev, name, v) == prev;
      }
    }
  }

  /** After a successful update the stored project holds every supplied
      value its column can take, and its other columns as before. */
  lemma UpdateThenGet(t: Tables, id: Id, patch: Patch, name: string)
    requires Valid(t) && NoManagedNames(patch) && DistinctNames(patch)
    requires UpdateProject(t, id, patch).out.Returned? && id in t.projects
    requires IsColumn(name)
    ensures var after := UpdateProject(t, id, patch).after;
      && GetProject(after, id).Some?
      && (forall i :: 0 <= i < |patch| && patch[i].0 == name ==>
            GetColumn(GetProject(after, id).value.fields, name) == patch[i].1)
      && (!Supplied(patch, name) ==>
            GetColumn(GetProject(after, id).value.fields, name) == GetColumn(t.projects[id].fields, name))
  {
    var r := UpdateProject(t, id, patch);
    var before := t.projects[id].fields;
    if !Supplied(patch, name) {
      PatchKeepsUnsupplied(before, patch, name);
    }
    PatchFailsWithFirstFlushError(before, patch);
    forall i | 0 <= i < |patch| && patch[i].0 == name
      ensures GetColumn(r.after.projects[id].fields, name) == patch[i].1
    {
      assert !Misfit(patch, i);
      PatchSetsSupplied(before, patch, i);
    }
  }

  /** After a successful update the stored record is the one record that
      holds every supplied value in its column and the old value in every
      other column. */
  lemma UpdatedRecordDetermined(t: Tables, id: Id, patch: Patch, g: ProjectFields)
    requires Valid(t) && NoManagedNames(patch) && DistinctNames(patch)
    requires UpdateProject(t, id, patch).out.Returned? && id in t.projects
    requires forall i :: 0 <= i < |patch| && IsColumn(patch[i].0) ==> GetColumn(g, patch[i].0) == patch[i].1
    requires forall c :: IsColumn(c) && !Supplied(patch, c) ==> GetColumn(g, c) == GetColumn(t.projects[id].fields, c)
    ensures UpdateProject(t, id, patch).after.projects[id].fields == g
  {
    var stored := UpdateProject(t, id, patch).after.projects[id].fields;
    forall c | IsColumn(c) ensures GetColumn(stored, c) == GetColumn(g, c) {
      UpdateThenGet(t, id, patch, c);
      if Supplied(patch, c) {
        var i :| 0 <= i < |patch| && patch[i].0 == c;
      }
    }
    ColumnsDetermineRecord(stored, g);
  }

  // ----- delete_project -----

  /** Deleting a project empties its lists, and only the first delete
      reports success. */
  lemma DeleteCascade(t: Tables, id: Id)
    requires Valid(t) && id in t.projects
    ensures var r := DeleteProject(t, id);
      && r.out == Returned(true)
      && GetProject(r.after, id) == None
      && ListBudgetLines(r.after, id) == []
      && ListProjectNews(r.after, id) == []
      && DeleteProject(r.after, id) == Step(Returned(false), r.after)
  {
    var a := DeleteProject(t, id).after;
    assert LinesOf(a, id) == {};
    assert NewsOf(a, id) == {};
  }

  /** Two stores that agree on one project's lines list them alike. */
  lemma SameLinesListed(t: Tables, t': Tables, pid: Id)
    requires LinesOf(t, pid) == LinesOf(t', pid)
    requires forall k :: k in LinesOf(t, pid) ==> t.lines[k] == t'.lines[k]
    ensures ListBudgetLines(t, pid) == ListBudgetLines(t', pid)
  {
    assert Ordering.KeysOwnedBy(t.lines, LineProject, pid) == LinesOf(t, pid);
    assert Ordering.KeysOwnedBy(t'.lines, LineProject, pid) == LinesOf(t', pid);
    Ordering.SelectAgree(t.lines, t'.lines, LineProject, pid, OldestLineFirst);
  }

  /** Two stores that agree on one project's news list them alike. */
  lemma SameNewsListed(t: Tables, t': Tables, pid: Id)
    requires NewsOf(t, pid) == NewsOf(t', pid)
    requires forall k :: k in NewsOf(t, pid) ==> t.news[k] == t'.news[k]
    ensures ListProjectNews(t, pid) == ListProjectNews(t', pid)
  {
    assert Ordering.KeysOwnedBy(t.news, NewsProject, pid) == NewsOf(t, pid);
    assert Ordering.KeysOwnedBy(t'.news, NewsProject, pid) == NewsOf(t', pid);
    Ordering.SelectAgree(t.news, t'.news, NewsProject, pid, NewestNewsFirst);
  }

  /** Deleting one project leaves every other project, and its lines and
      news as listed, as they were. */
  lemma DeleteKeepsOtherProjects(t: Tables, id: Id, other: Id)
    requires id in t.projects && other != id
    ensures var a := DeleteProject(t, id).after;
      && GetProject(a, other) == GetProject(t, other)
      && ListBudgetLines(a, other) == ListBudgetLines(t, other)
      && ListProjectNews(a, other) == ListProjectNews(t, other)
  {
    var a := Cascade(t, id);
    assert DeleteProject(t, id).after == a;
    assert GetProject(a, other) == GetProject(t, other);
    CascadeKeepsLines(t, id, other);
    CascadeKeepsNews(t, id, other);
  }

  lemma CascadeKeepsLines(t: Tables, id: Id, other: Id)
    requires other != id
    ensures ListBudgetLines(Cascade(t, id), other) == ListBudgetLines(t, other)
  {
    var a := Cascade(t, id);
    assert LinesOf(a, other) == LinesOf(t, other) by {
      forall k | k in LinesOf(t, other) ensures k in LinesOf(a, other) {
        assert t.lines[k].projectId != id;
      }
    }
    SameLinesListed(a, t, other);
  }

  lemma CascadeKeepsNews(t: Tables, id: Id, other: Id)
    requires other != id
    ensures ListProjectNews(Cascade(t, id), other) == ListProjectNews(t, other)
  {
    var a := Cascade(t, id);
    assert NewsOf(a, other) == NewsOf(t, other) by {
      forall k | k in NewsOf(t, other) ensures k in NewsOf(a, other) {
        assert t.news[k].projectId != id;
      }
    }
    SameNewsListed(a, t, other);
  }

  // ----- budget lines -----

  /** A project that does not exist has no lines and no news, and a line
      cannot be added to it. */
  lemma UnknownProject(t: Tables, pid: Id, labelText: string, amountCents: int)
    requires Valid(t) && pid !in t.projects
    ensures ListBudgetLines(t, pid) == [] && ListProjectNews(t, pid) == []
    ensures AddBudgetLine(t, pid, labelText, amountCents) == Step(Returned(None), t)
  {
    assert LinesOf(t, pid) == {};
    assert NewsOf(t, pid) == {};
  }

  /** The newest line comes last in its project's list; the lists of the
      other projects do not change. */
  lemma AddedLineListedLast(t: Tables, pid: Id, labelText: string, amountCents: int, isCapex: bool,
                            valueDate: Option<Date>, other: Id)
    requires Valid(t) && pid in t.projects && FitsInt64(amountCents) && other != pid
    ensures var r := AddBudgetLine(t, pid, labelText, amountCents, isCapex, valueDate);
      && r.out.Returned? && r.out.value.Some?
      && ListBudgetLines(r.after, pid) == ListBudgetLines(t, pid) + [r.out.value.value]
      && ListBudgetLines(r.after, other) == ListBudgetLines(t, other)
  {
    var r := AddBudgetLine(t, pid, labelText, amountCents, isCapex, valueDate);
    var l := r.out.value.value;
    Ordering.SelectAppend(t.lines, l.id, l, LineProject, pid, OldestLineFirst);
    Ordering.SelectOtherOwner(t.lines, l.id, l, LineProject, other, OldestLineFirst);
  }

  // ----- project news -----

  /** White space around the text changes nothing, whether the news is
      created or edited. */
  lemma NewsPaddingIgnored(t: Tables, pid: Id, nid: Id, a: string, s: string, b: string, createdAt: Option<Stamp>)
    requires AllSpace(a) && AllSpace(b)
    ensures CreateProjectNews(t, pid, a + s + b, createdAt) == CreateProjectNews(t, pid, s, createdAt)
    ensures UpdateProjectNews(t, nid, a + s + b) == UpdateProjectNews(t, nid, s)
  {
    StripIgnoresPadding(a, s, b);
  }

  /** Writing a news item's own text back changes nothing. */
  lemma RewriteNewsKeepsStore(t: Tables, nid: Id)
    requires Valid(t) && nid in t.news
    ensures UpdateProjectNews(t, nid, t.news[nid].text) == Step(Returned(true), t)
  {
    var n := t.news[nid];
    assert n.(text := Strip(n.text)) == n;
    assert t.news[nid := n] == t.news;
  }

  /** A created news item is listed under its project, one more than
      before. */
  lemma CreatedNewsListed(t: Tables, pid: Id, text: string, createdAt: Option<Stamp>)
    requires pid in t.projects
    ensures var r := CreateProjectNews(t, pid, text, createdAt);
      && r.out.Returned?
      && r.out.value in ListProjectNews(r.after, pid)
      && |ListProjectNews(r.after, pid)| == |ListProjectNews(t, pid)| + 1
  {
    var r := CreateProjectNews(t, pid, text, createdAt);
    var n := r.out.value;
    Ordering.SelectInsert(t.news, n.id, n, NewsProject, pid, NewestNewsFirst);
  }

  /** A deleted news item is no longer listed. */
  lemma DeletedNewsUnlisted(t: Tables, nid: Id)
    requires Valid(t) && nid in t.news
    ensures t.news[nid] !in ListProjectNews(DeleteProjectNews(t, nid).after, t.news[nid].projectId)
  {
  }

  // ----- seed_demo_if_empty -----

  /** Seeding an empty store adds the demo project row and then the demo
      lines under it. */
  lemma SeedShape(t: Tables) returns (t1: Tables, p: Project)
    requires t.projects == map[]
    ensures (t1, p) == AddProjectRow(t, DemoFields())
    ensures SeedDemoIfEmpty(t).after == AddLines(t1, p.id, DemoLines)
    ensures SeedDemoIfEmpty(t).after.projects == map[p.id := p]
  {
    t1, p := AddProjectRow(t, DemoFields()).0, AddProjectRow(t, DemoFields()).1;
    AddLinesEffect(t1, p.id, DemoLines);
  }

  /** Seeding an empty database leaves exactly one project: the demo one. */
  lemma SeedOnEmpty(t: Tables)
    requires t.projects == map[]
    ensures var a := SeedDemoIfEmpty(t).after;
      && |ListProjects(a)| == 1
      && ListProjects(a)[0].fields == DemoFields()
      && ListProjects(a)[0].fields.code == "PRJ-2025-001"
  {
    var t1, p := SeedShape(t);
    assert p in ListProjects(SeedDemoIfEmpty(t).after);
  }

  /** After seeding an empty database, the demo project lists as many lines
      as there are demo drafts, each made from one of them. */
  lemma SeedLinesListed(t: Tables, pid: Id)
    requires Valid(t) && t.projects == map[]
    requires pid in SeedDemoIfEmpty(t).after.projects
    ensures var listed := ListBudgetLines(SeedDemoIfEmpty(t).after, pid);
      && |listed| == |DemoLines|
      && (forall l :: l in listed ==> Draft(l) in DemoLines)
  {
    assert t.lines == map[] by {
      assert forall k :: k !in t.lines;
    }
    SeedLinesOwned(t, pid);
  }

  /** Seeding a database with no projects and no lines: the demo project
      owns every line, and each comes from a demo draft. */
  lemma SeedLinesOwned(t: Tables, pid: Id)
    requires t.projects == map[] && t.lines == map[]
    requires pid in SeedDemoIfEmpty(t).after.projects
    ensures var listed := ListBudgetLines(SeedDemoIfEmpty(t).after, pid);
      && |listed| == |DemoLines|
      && (forall l :: l in listed ==> Draft(l) in DemoLines)
  {
    var t1, p := SeedShape(t);
    var a := SeedDemoIfEmpty(t).after;
    AddLinesNew(t1, p.id, DemoLines);
    assert pid == p.id;
    assert LinesOf(a, pid) == a.lines.Keys;
    assert |a.lines.Keys| == |DemoLines|;
  }

  /** A line the store holds under a project is listed under it. */
  lemma HeldLineListed(t: Tables, pid: Id, d: LineDraft)
    requires exists k :: k in t.lines && t.lines[k].projectId == pid && Draft(t.lines[k]) == d
    ensures exists l :: l in ListBudgetLines(t, pid) && Draft(l) == d
  {
    var k :| k in t.lines && t.lines[k].projectId == pid && Draft(t.lines[k]) == d;
    assert t.lines[k] in ListBudgetLines(t, pid);
  }

  /** After seeding an empty database, every demo draft is listed under the
      demo project. */
  lemma SeedLinesCovered(t: Tables, pid: Id)
    requires Valid(t) && t.projects == map[]
    requires pid in SeedDemoIfEmpty(t).after.projects
    ensures forall d :: d in DemoLines ==> exists l :: l in ListBudgetLines(SeedDemoIfEmpty(t).after, pid) && Draft(l) == d
  {
    var t1, p := SeedShape(t);
    var a := SeedDemoIfEmpty(t).after;
    AddLinesEffect(t1, p.id, DemoLines);
    AddLinesCover(t1, p.id, DemoLines);
    assert pid == p.id;
    forall d | d in DemoLines
      ensures exists l :: l in ListBudgetLines(a, pid) && Draft(l) == d
    {
      HeldLineListed(a, pid, d);
    }
  }

  /** Seeding a second time changes nothing. */
  lemma SeedIdempotent(t: Tables)
    ensures var once := SeedDemoIfEmpty(t).after;
      SeedDemoIfEmpty(once) == Step(Returned(()), once)
  {
    var once := SeedDemoIfEmpty(t).after;
    if t.projects == map[] {
      assert |once.projects| == 1;
    }
  }

  /** In a consistent store no two projects share a code. */
  lemma AtMostOneWithCode(t: Tables, code: string)
    requires Valid(t)
    ensures |set k | k in t.projects && t.projects[k].fields.code == code| <= 1
  {
    var holders := set k | k in t.projects && t.projects[k].fields.code == code;
    if holders != {} {
      var k :| k in holders;
      assert holders == {k};
    }
  }

  /** The store after `seed_demo_if_empty()` has run `n` times in a row
      (once per start of the application). */
  function SeedTimes(t: Tables, n: nat): Tables
    decreases n
  {
    if n == 0 then t else SeedTimes(SeedDemoIfEmpty(t).after, n - 1)
  }

  /** Every run of the seed after the first changes nothing. */
  lemma {:induction false} SeedTimesOnce(t: Tables, n: nat)
    requires n >= 1
    ensures SeedTimes(t, n) == SeedDemoIfEmpty(t).after
    decreases n
  {
    var once := SeedDemoIfEmpty(t).after;
    assert SeedTimes(t, n) == SeedTimes(once, n - 1);
    if n >= 2 {
      SeedIdempotent(t);
      assert SeedDemoIfEmpty(once).after == once;
      SeedTimesOnce(once, n - 1);
    }
  }

  /** Any number of runs of the seed leaves a consistent store consistent. */
  lemma SeedTimesValid(t: Tables, n: nat)
    requires Valid(t)
    ensures Valid(SeedTimes(t, n))
  {
    if n >= 1 {
      SeedTimesOnce(t, n);
    }
  }

  /** However often the seed runs, there is never more than one demo
      project. */
  lemma DemoAtMostOnce(t: Tables, n: nat)
    requires Valid(t)
    ensures var after := SeedTimes(t, n);
      |set k | k in after.projects && after.projects[k].fields.code == DemoCode| <= 1
  {
    SeedTimesValid(t, n);
    AtMostOneWithCode(SeedTimes(t, n), DemoCode);
  }

  // ----- a whole session -----

  /** Create a project in a new database, give it one line, list, delete,
      list again. */
  lemma NewDatabaseSession()
    ensures var c := CreateProject(Empty, NewProjectFields("PRJ-X", "Test"));
      && c.out.Returned? && c.out.value.id == 1
      && var a := AddBudgetLine(c.after, 1, "Licences", 120000, true);
      && a.out.Returned? && a.out.value.Some? && a.out.value.value.amountCents == 120000
      && ListBudgetLines(a.after, 1) == [a.out.value.value]
      && var d := DeleteProject(a.after, 1);
      && d.out == Returned(true)
      && ListBudgetLines(d.after, 1) == []
  {
    EmptyIsValid();
    var c := CreateProject(Empty, NewProjectFields("PRJ-X", "Test"));
    assert !CodeInUse(Empty.projects, "PRJ-X");
    assert c.out.value.id == 1;
    var a := AddBudgetLine(c.after, 1, "Licences", 120000, true);
    var l := a.out.value.value;
    UnknownProject(Empty, 1, "Licences", 120000);
    AddedLineListedLast(c.after, 1, "Licences", 120000, true, None, 2);
    DeleteCascade(a.after, 1);
  }
}
