/** The three mapped record kinds of app/db/models.py: their columns, the
    defaults their constructors fill in, the errors the database raises when
    a row breaks a column's declaration, and `BudgetLine.__repr__`. */
module Models {
  import opened PyText

  datatype Option<T> = None | Some(value: T) {
    function GetOr(default: T): T {
      match this
      case Some(v) => v
      case None => default
    }
  }

  /** Store-assigned row id (an INTEGER PRIMARY KEY). */
  type Id = nat

  /** A point of the store's clock; later writes get larger stamps. */
  type Stamp = nat

  /** A Python `date`; the repository stores it without looking inside. */
  datatype Date = Date(year: int, month: int, day: int)

  /** A Python `float`; no arithmetic is done on it in the repository. */
  datatype Double = Double(bits: int)

  /** The contents of a JSON column, kept as the encoded document. */
  datatype Json = Json(encoded: string)

  /** The data columns of `Project` (everything but `id` and the timestamps). */
  datatype ProjectFields = ProjectFields(
    code: string,
    name: string,
    owner: Option<string>,
    startDate: Option<Date>,
    endDate: Option<Date>,
    description: Option<string>,
    deliverables: Option<string>,
    status: Option<string>,
    cir: bool,
    cirMontant: Option<Double>,
    subvention: bool,
    subventionMontant: Option<Double>,
    amortissement: bool,
    investissement: Option<Json>,
    themes: Option<Json>,
    images: Option<Json>)

  datatype Project = Project(id: Id, fields: ProjectFields, createdAt: Stamp, updatedAt: Stamp)

  datatype BudgetLine = BudgetLine(
    id: Id,
    projectId: Id,
    labelText: string,
    isCapex: bool,
    amountCents: int,
    valueDate: Option<Date>,
    createdAt: Stamp,
    updatedAt: Stamp)

  datatype ProjectNews = ProjectNews(id: Id, projectId: Id, text: string, createdAt: Stamp)

  /** What a unit of work can raise. */
  datatype Error =
    | UniqueViolation(column: string)   // IntegrityError from uq_project_code
    | NotNullViolation(column: string)  // IntegrityError from a NOT NULL column
    | WrongType(column: string)         // StatementError from a column type's bind processor
    | Unbindable(column: string)        // InterfaceError from sqlite3: a parameter it cannot bind
    | IntegerOverflow(column: string)   // OverflowError: an int outside SQLite's 64-bit INTEGER
    | InvalidKeyword(name: string)      // TypeError from the declarative constructor
    | ProjectNotFound                   // ValueError("Projet introuvable")

  /** `Project(code=..., name=..., ...)`: the nullable columns left out are
      NULL and the three flags default to false. */
  function NewProjectFields(code: string, name: string, owner: Option<string> := None,
                            startDate: Option<Date> := None, endDate: Option<Date> := None,
                            description: Option<string> := None, deliverables: Option<string> := None,
                            status: Option<string> := None, cir: bool := false,
                            cirMontant: Option<Double> := None, subvention: bool := false,
                            subventionMontant: Option<Double> := None, amortissement: bool := false,
                            investissement: Option<Json> := None, themes: Option<Json> := None,
                            images: Option<Json> := None): (r: ProjectFields)
  {
    ProjectFields(code, name, owner, startDate, endDate, description, deliverables, status,
                  cir, cirMontant, subvention, subventionMontant, amortissement,
                  investissement, themes, images)
  }

  /** Only `code` and `name` must be given; every other column of a new
      project is NULL or false unless the caller sets it. */
  lemma NewProjectDefaults(code: string, name: string)
    ensures var f := NewProjectFields(code, name);
      && f.code == code && f.name == name
      && !f.cir && !f.subvention && !f.amortissement
      && f.owner.None? && f.startDate.None? && f.endDate.None? && f.description.None?
      && f.deliverables.None? && f.status.None? && f.cirMontant.None? && f.subventionMontant.None?
      && f.investissement.None? && f.themes.None? && f.images.None?
  {
  }

  /** Each keyword given to `Project(...)` lands in the column of the same
      name, as `getattr` reads it back. */
  lemma NewProjectKeywords(code: string, name: string, owner: Option<string>, startDate: Option<Date>,
                           endDate: Option<Date>, description: Option<string>, deliverables: Option<string>,
                           status: Option<string>, cir: bool, cirMontant: Option<Double>, subvention: bool,
                           subventionMontant: Option<Double>, amortissement: bool, investissement: Option<Json>,
                           themes: Option<Json>, images: Option<Json>)
    ensures var f := NewProjectFields(code, name, owner, startDate, endDate, description, deliverables, status,
                                      cir, cirMontant, subvention, subventionMontant, amortissement,
                                      investissement, themes, images);
      && GetColumn(f, "code") == Text(code) && GetColumn(f, "name") == Text(name)
      && GetColumn(f, "owner") == FromText(owner)
      && GetColumn(f, "start_date") == FromDay(startDate) && GetColumn(f, "end_date") == FromDay(endDate)
      && GetColumn(f, "description") == FromText(description)
      && GetColumn(f, "deliverables") == FromText(deliverables)
      && GetColumn(f, "status") == FromText(status)
      && GetColumn(f, "cir") == Flag(cir) && GetColumn(f, "cir_montant") == FromNumber(cirMontant)
      && GetColumn(f, "subvention") == Flag(subvention)
      && GetColumn(f, "subvention_montant") == FromNumber(subventionMontant)
      && GetColumn(f, "amortissement") == Flag(amortissement)
      && GetColumn(f, "investissement") == FromDocument(investissement)
      && GetColumn(f, "themes") == FromDocument(themes) && GetColumn(f, "images") == FromDocument(images)
  {
    var f := NewProjectFields(code, name, owner, startDate, endDate, description, deliverables, status,
                              cir, cirMontant, subvention, subventionMontant, amortissement,
                              investissement, themes, images);
    TextColumnsRead(f);
    OtherColumnsRead(f);
  }

  /** `getattr` of a `String` or `Text` column reads the field of that name. */
  lemma TextColumnsRead(f: ProjectFields)
    ensures && GetColumn(f, "code") == Text(f.code) && GetColumn(f, "name") == Text(f.name)
            && GetColumn(f, "owner") == FromText(f.owner) && GetColumn(f, "description") == FromText(f.description)
            && GetColumn(f, "deliverables") == FromText(f.deliverables) && GetColumn(f, "status") == FromText(f.status)
  {
  }

  /** `getattr` of a `Date`, `Boolean`, `Float` or `JSON` column reads the
      field of that name. */
  lemma OtherColumnsRead(f: ProjectFields)
    ensures && GetColumn(f, "start_date") == FromDay(f.startDate) && GetColumn(f, "end_date") == FromDay(f.endDate)
            && GetColumn(f, "cir") == Flag(f.cir) && GetColumn(f, "cir_montant") == FromNumber(f.cirMontant)
            && GetColumn(f, "subvention") == Flag(f.subvention)
            && GetColumn(f, "subvention_montant") == FromNumber(f.subventionMontant)
            && GetColumn(f, "amortissement") == Flag(f.amortissement)
            && GetColumn(f, "investissement") == FromDocument(f.investissement)
            && GetColumn(f, "themes") == FromDocument(f.themes) && GetColumn(f, "images") == FromDocument(f.images)
  {
  }

  /** `BudgetLine(project_id=..., label=..., ...)`: `is_capex` defaults to
      true, `amount_cents` to 0, `value_date` to NULL. */
  function NewBudgetLine(id: Id, projectId: Id, labelText: string, stamp: Stamp,
                         isCapex: bool := true, amountCents: int := 0,
                         valueDate: Option<Date> := None): (r: BudgetLine)
    ensures r.id == id && r.projectId == projectId
    ensures r.createdAt == stamp && r.updatedAt == stamp
  {
    BudgetLine(id, projectId, labelText, isCapex, amountCents, valueDate, stamp, stamp)
  }

  lemma NewBudgetLineDefaults(id: Id, projectId: Id, labelText: string, stamp: Stamp)
    ensures var l := NewBudgetLine(id, projectId, labelText, stamp);
      l.isCapex && l.amountCents == 0 && l.valueDate.None?
      && l.projectId == projectId && l.labelText == labelText
  {
  }

  // ----- SQLite's INTEGER -----

  const MinInt64: int := -0x8000_0000_0000_0000
  const MaxInt64: int := 0x7FFF_FFFF_FFFF_FFFF

  predicate FitsInt64(n: int) {
    MinInt64 <= n <= MaxInt64
  }

  // ----- attributes of Project, by name -----

  /** A Python value handed to `update_project(**fields)`. */
  datatype Value = Null | Text(s: string) | Day(d: Date) | Flag(b: bool) | Number(x: Double) | Document(j: Json)

  predicate IsColumn(name: string) {
    name in {"code", "name", "owner", "start_date", "end_date", "description", "deliverables",
             "status", "cir", "cir_montant", "subvention", "subvention_montant", "amortissement",
             "investissement", "themes", "images"}
  }

  /** Mapped attributes the store manages itself: the key, the timestamps
      and the `budget_lines` relationship. */
  predicate IsManagedAttribute(name: string) {
    name in {"id", "created_at", "updated_at", "budget_lines"}
  }

  /** `hasattr(Project, name)` for the mapped attributes. */
  predicate HasAttribute(name: string)
    ensures IsManagedAttribute(name) ==> HasAttribute(name) && !IsColumn(name)
  {
    IsColumn(name) || IsManagedAttribute(name)
  }

  predicate IsNullable(name: string) {
    IsColumn(name) && name !in {"code", "name", "cir", "subvention", "amortissement"}
  }

  /** Whether the column `name` can hold `v` when the row is flushed. */
  predicate Fits(name: string, v: Value)
    requires IsColumn(name)
  {
    if v.Null? then IsNullable(name)
    else if name in {"code", "name", "owner", "description", "deliverables", "status"} then v.Text?
    else if name in {"start_date", "end_date"} then v.Day?
    else if name in {"cir", "subvention", "amortissement"} then v.Flag?
    else if name in {"cir_montant", "subvention_montant"} then v.Number?
    else v.Document?
  }

  /** Whether SQLAlchemy converts a value for the column before handing it
      to the driver: the `Date`, `Boolean`, `Float` (`float(value)`) and
      `JSON` types do; `String` and `Text` pass the value through unchanged. */
  predicate HasBindConverter(name: string) {
    name in {"start_date", "end_date", "cir", "cir_montant", "subvention", "subvention_montant",
             "amortissement", "investissement", "themes", "images"}
  }

  /** What the flush raises for a value the column cannot hold: the NOT NULL
      check for None, the column type's converter where there is one, and
      otherwise the driver when it binds the parameter. */
  function Rejection(name: string, v: Value): Error {
    if v.Null? then NotNullViolation(name)
    else if HasBindConverter(name) then WrongType(name)
    else Unbindable(name)
  }

  /** Position of a column in the table, as declared. */
  function ColumnIndex(name: string): (i: nat)
    requires IsColumn(name)
    ensures i < 16
  {
    match name
    case "code" => 0
    case "name" => 1
    case "owner" => 2
    case "start_date" => 3
    case "end_date" => 4
    case "description" => 5
    case "deliverables" => 6
    case "status" => 7
    case "cir" => 8
    case "cir_montant" => 9
    case "subvention" => 10
    case "subvention_montant" => 11
    case "amortissement" => 12
    case "investissement" => 13
    case "themes" => 14
    case _ => 15
  }

  /** When a flush meets an error: the converters run first, while the
      parameter list is built in column order; then the driver binds the
      parameters, again in column order; only then does SQLite check the
      NOT NULL constraints, in column order. */
  function FlushOrder(e: Error): nat {
    match e
    case WrongType(c) => if IsColumn(c) then ColumnIndex(c) else 48
    case Unbindable(c) => if IsColumn(c) then 16 + ColumnIndex(c) else 48
    case NotNullViolation(c) => if IsColumn(c) then 32 + ColumnIndex(c) else 48
    case _ => 48
  }

  /** Of two errors pending in one flush, the one raised: the earlier met. */
  function FirstRaised(prev: Option<Error>, e: Error): (r: Error)
    ensures r == e || Some(r) == prev
    ensures FlushOrder(r) <= FlushOrder(e)
    ensures prev.Some? ==> FlushOrder(r) <= FlushOrder(prev.value)
  {
    if prev.Some? && FlushOrder(prev.value) <= FlushOrder(e) then prev.value else e
  }

  function TextOr(v: Value): Option<string> {
    if v.Text? then Some(v.s) else None
  }

  function DayOr(v: Value): Option<Date> {
    if v.Day? then Some(v.d) else None
  }

  function NumberOr(v: Value): Option<Double> {
    if v.Number? then Some(v.x) else None
  }

  function DocumentOr(v: Value): Option<Json> {
    if v.Document? then Some(v.j) else None
  }

  function FromText(o: Option<string>): Value {
    if o.Some? then Text(o.value) else Null
  }

  function FromDay(o: Option<Date>): Value {
    if o.Some? then Day(o.value) else Null
  }

  function FromNumber(o: Option<Double>): Value {
    if o.Some? then Number(o.value) else Null
  }

  function FromDocument(o: Option<Json>): Value {
    if o.Some? then Document(o.value) else Null
  }

  /** `getattr(p, name)` for a column. */
  function GetColumn(f: ProjectFields, name: string): (v: Value)
    requires IsColumn(name)
    ensures Fits(name, v)
  {
    match name
    case "code" => Text(f.code)
    case "name" => Text(f.name)
    case "owner" => FromText(f.owner)
    case "start_date" => FromDay(f.startDate)
    case "end_date" => FromDay(f.endDate)
    case "description" => FromText(f.description)
    case "deliverables" => FromText(f.deliverables)
    case "status" => FromText(f.status)
    case "cir" => Flag(f.cir)
    case "cir_montant" => FromNumber(f.cirMontant)
    case "subvention" => Flag(f.subvention)
    case "subvention_montant" => FromNumber(f.subventionMontant)
    case "amortissement" => Flag(f.amortissement)
    case "investissement" => FromDocument(f.investissement)
    case "themes" => FromDocument(f.themes)
    case _ => FromDocument(f.images)
  }

  /** `setattr(p, name, v)` for a column and a value the column can hold. */
  function SetColumn(f: ProjectFields, name: string, v: Value): (g: ProjectFields)
    requires IsColumn(name) && Fits(name, v)
    ensures GetColumn(g, name) == v
    ensures forall other :: IsColumn(other) && other != name ==> GetColumn(g, other) == GetColumn(f, other)
  {
    match name
    case "code" => f.(code := v.s)
    case "name" => f.(name := v.s)
    case "owner" => f.(owner := TextOr(v))
    case "start_date" => f.(startDate := DayOr(v))
    case "end_date" => f.(endDate := DayOr(v))
    case "description" => f.(description := TextOr(v))
    case "deliverables" => f.(deliverables := TextOr(v))
    case "status" => f.(status := TextOr(v))
    case "cir" => f.(cir := v.b)
    case "cir_montant" => f.(cirMontant := NumberOr(v))
    case "subvention" => f.(subvention := v.b)
    case "subvention_montant" => f.(subventionMontant := NumberOr(v))
    case "amortissement" => f.(amortissement := v.b)
    case "investissement" => f.(investissement := DocumentOr(v))
    case "themes" => f.(themes := DocumentOr(v))
    case _ => f.(images := DocumentOr(v))
  }

  /** Two records that agree on every column are the same record. */
  lemma ColumnsDetermineRecord(f: ProjectFields, g: ProjectFields)
    requires forall name :: IsColumn(name) ==> GetColumn(f, name) == GetColumn(g, name)
    ensures f == g
  {
    SameText(f, g);
    SameDates(f, g);
    SameFunding(f, g);
    SameDocuments(f, g);
  }

  lemma SameText(f: ProjectFields, g: ProjectFields)
    requires forall name :: IsColumn(name) ==> GetColumn(f, name) == GetColumn(g, name)
    ensures f.code == g.code && f.name == g.name && f.owner == g.owner
    ensures f.description == g.description && f.deliverables == g.deliverables && f.status == g.status
  {
    assert GetColumn(f, "code") == GetColumn(g, "code");
    assert GetColumn(f, "name") == GetColumn(g, "name");
    assert GetColumn(f, "owner") == GetColumn(g, "owner");
    assert GetColumn(f, "description") == GetColumn(g, "description");
    assert GetColumn(f, "deliverables") == GetColumn(g, "deliverables");
    assert GetColumn(f, "status") == GetColumn(g, "status");
  }

  lemma SameDates(f: ProjectFields, g: ProjectFields)
    requires forall name :: IsColumn(name) ==> GetColumn(f, name) == GetColumn(g, name)
    ensures f.startDate == g.startDate && f.endDate == g.endDate
  {
    assert GetColumn(f, "start_date") == GetColumn(g, "start_date");
    assert GetColumn(f, "end_date") == GetColumn(g, "end_date");
  }

  lemma SameFunding(f: ProjectFields, g: ProjectFields)
    requires forall name :: IsColumn(name) ==> GetColumn(f, name) == GetColumn(g, name)
    ensures f.cir == g.cir && f.cirMontant == g.cirMontant && f.subvention == g.subvention
    ensures f.subventionMontant == g.subventionMontant && f.amortissement == g.amortissement
  {
    assert GetColumn(f, "cir") == GetColumn(g, "cir");
    assert GetColumn(f, "cir_montant") == GetColumn(g, "cir_montant");
    assert GetColumn(f, "subvention") == GetColumn(g, "subvention");
    assert GetColumn(f, "subvention_montant") == GetColumn(g, "subvention_montant");
    assert GetColumn(f, "amortissement") == GetColumn(g, "amortissement");
  }

  lemma SameDocuments(f: ProjectFields, g: ProjectFields)
    requires forall name :: IsColumn(name) ==> GetColumn(f, name) == GetColumn(g, name)
    ensures f.investissement == g.investissement && f.themes == g.themes && f.images == g.images
  {
    assert GetColumn(f, "investissement") == GetColumn(g, "investissement");
    assert GetColumn(f, "themes") == GetColumn(g, "themes");
    assert GetColumn(f, "images") == GetColumn(g, "images");
  }

  // ----- BudgetLine.__repr__ -----

  /** `<BudgetLine id={id} {sign}{abs(amount_cents)}c {label!r}>`. */
  function LineRepr(l: BudgetLine): (r: string)
    ensures |r| > |"<BudgetLine id="| + |Decimal(l.id)|
    ensures r[..|"<BudgetLine id="|] == "<BudgetLine id=" && r[|r| - 1] == '>'
  {
    "<BudgetLine id=" + Decimal(l.id) + " " + SignedDecimal(l.amountCents) + "c " + PyRepr(l.labelText) + ">"
  }

  /** The amount field of the repr starts with "-" exactly when the amount is
      negative, reads back as the amount, and is followed by "c". */
  lemma LineReprShowsAmount(l: BudgetLine)
    ensures var s := LineRepr(l);
      var k := |"<BudgetLine id="| + |Decimal(l.id)| + 1;
      var n := |SignedDecimal(l.amountCents)|;
      && k + n < |s|
      && s[k..k + n] == SignedDecimal(l.amountCents)
      && (s[k] == '-' <==> l.amountCents < 0)
      && IsSignedNumeral(s[k..k + n]) && ParseSigned(s[k..k + n]) == l.amountCents
      && s[k + n] == 'c'
  {
    var s := LineRepr(l);
    var k := |"<BudgetLine id="| + |Decimal(l.id)| + 1;
    var amount := SignedDecimal(l.amountCents);
    assert k + |amount| < |s| && s[k..k + |amount|] == amount && s[k + |amount|] == 'c' by {
      var head := "<BudgetLine id=" + Decimal(l.id) + " ";
      var tail := "c " + PyRepr(l.labelText) + ">";
      assert s == head + amount + tail;
      SliceOfConcat(head, amount, tail);
    }
    SignedDecimalRoundTrip(l.amountCents);
  }

  lemma SliceOfConcat(a: string, b: string, c: string)
    requires c != []
    ensures (a + b + c)[|a|..|a| + |b|] == b
    ensures (a + b + c)[|a| + |b|] == c[0]
  {
    var s := a + b + c;
    assert forall i :: 0 <= i < |b| ==> s[|a| + i] == b[i];
  }
}
