/** The emission-limit screen (`SetEmission.tsx`): the compliance classifier,
    the status/sector/name filter, the sector list, the CSV export text, and
    the two in-memory updates -- editing one company and setting a new limit
    for a whole sector. React state becomes the `Screen` record; every handler
    is a function from screen to screen. */
module Emission {
  import opened Wrappers
  import opened Text
  import Seqs
  import Csv

  datatype Company = Company(id: int, name: string, sector: string, current: int, limit: int)

  datatype Status = Compliant | Approaching | Exceeded

  /** The string `statusOf` returns for each status. */
  function Label(s: Status): string
  {
    match s
    case Compliant => "Compliant"
    case Approaching => "Approaching"
    case Exceeded => "Exceeded"
  }

  /** `statusOf` divides `current` by `limit` only when `current <= limit`; the
      division is meaningful when the limit is then nonzero. */
  predicate Classifiable(c: Company)
  {
    c.current > c.limit || c.limit != 0
  }

  predicate AllClassifiable(companies: seq<Company>)
  {
    forall c | c in companies :: Classifiable(c)
  }

  /** `current / limit >= 0.85`, decided in integers by cross-multiplying; the
      inequality flips for a negative limit. */
  predicate ReachesThreshold(current: int, limit: int)
    requires limit != 0
  {
    if limit > 0 then 100 * current >= 85 * limit else 100 * current <= 85 * limit
  }

  /** Multiplying by a positive number keeps the order. */
  lemma ScaleKeepsOrder(a: real, b: real, m: real)
    requires m > 0.0
    ensures a >= b <==> a * m >= b * m
  {
    assert a * m - b * m == (a - b) * m;
  }

  /** The integer test is the ratio test in exact arithmetic. */
  lemma ThresholdIsRatio(current: int, limit: int)
    requires limit != 0
    ensures ReachesThreshold(current, limit) <==> (current as real) / (limit as real) >= 0.85
  {
    var c, l := current as real, limit as real;
    var q := c / l;
    assert q * l == c;
    assert (100 * current) as real == 100.0 * c && (85 * limit) as real == 85.0 * l;
    if limit > 0 {
      ScaleKeepsOrder(q, 0.85, l);
    } else {
      ScaleKeepsOrder(q, 0.85, -l);
      assert q * -l == -c;
    }
  }

  /** `statusOf`: over the limit is Exceeded; otherwise a ratio of at least 0.85
      is Approaching, and anything lower is Compliant. */
  function StatusOf(c: Company): (s: Status)
    requires Classifiable(c)
    ensures s == Exceeded <==> c.current > c.limit
    ensures s == Approaching <==> c.current <= c.limit && (c.current as real) / (c.limit as real) >= 0.85
    ensures s == Compliant <==> c.current <= c.limit && (c.current as real) / (c.limit as real) < 0.85
  {
    if c.current > c.limit then Exceeded
    else
      ThresholdIsRatio(c.current, c.limit);
      if ReachesThreshold(c.current, c.limit) then Approaching else Compliant
  }

  /** A ratio of exactly 0.85 is already Approaching. */
  lemma ExactThresholdApproaches(c: Company)
    requires c.limit > 0 && 100 * c.current == 85 * c.limit
    ensures StatusOf(c) == Approaching
  {
  }

  /** The values the `statusFilter` state can hold. */
  datatype StatusFilter = AllStatuses | CompliantOnly | ExceededOnly | ApproachingOnly

  /** The status test of `filtered`, as written: the lower-cased label is
      compared with the value of `statusFilter`. */
  predicate StatusTest(c: Company, f: StatusFilter)
    requires f.AllStatuses? || Classifiable(c)
  {
    if f.AllStatuses? then true
    else
      var st := Lower(Label(StatusOf(c)));
      && !(f.CompliantOnly? && st != "compliant")
      && !(f.ExceededOnly? && st != "exceeded")
      && !(f.ApproachingOnly? && st != "approaching")
  }

  predicate SectorTest(c: Company, sectorFilter: string)
  {
    sectorFilter == "all" || c.sector == sectorFilter
  }

  /** `if (search && !c.name.toLowerCase().includes(search.toLowerCase())) return false`. */
  predicate NameTest(c: Company, search: string)
  {
    search == "" || Includes(Lower(c.name), Lower(search))
  }

  function Wanted(f: StatusFilter): Status
    requires !f.AllStatuses?
  {
    match f
    case CompliantOnly => Compliant
    case ExceededOnly => Exceeded
    case ApproachingOnly => Approaching
  }

  /** The lower-case labels the `statusFilter` values are compared with. */
  function LowerLabel(s: Status): string
  {
    match s
    case Compliant => "compliant"
    case Approaching => "approaching"
    case Exceeded => "exceeded"
  }

  lemma LowerLabelIsLower(s: Status)
    ensures Lower(Label(s)) == LowerLabel(s)
  {
    var l, w := Lower(Label(s)), LowerLabel(s);
    assert |l| == |w|;
    assert forall i :: 0 <= i < |w| ==> l[i] == w[i];
  }

  /** Comparing lower-cased labels selects exactly the companies of the chosen status. */
  lemma StatusTestMeaning(c: Company, f: StatusFilter)
    requires !f.AllStatuses? && Classifiable(c)
    ensures StatusTest(c, f) <==> StatusOf(c) == Wanted(f)
  {
    LowerLabelIsLower(StatusOf(c));
  }

  /** An empty search passes every name, so the guard `search &&` changes nothing. */
  lemma NameTestIsIncludes(c: Company, search: string)
    ensures NameTest(c, search) <==> Includes(Lower(c.name), Lower(search))
  {
  }

  predicate Keeps(c: Company, f: StatusFilter, sectorFilter: string, search: string)
  {
    // The first conjunct is always true where `Filtered` is called; it only
    // makes the predicate total, as `StatusOf` needs a classifiable company.
    && (f.AllStatuses? || Classifiable(c))
    && StatusTest(c, f)
    && SectorTest(c, sectorFilter)
    && NameTest(c, search)
  }

  /** `filtered`: the companies passing the status, sector and name tests, in list order. */
  function Filtered(companies: seq<Company>, f: StatusFilter, sectorFilter: string, search: string): (r: seq<Company>)
    requires f.AllStatuses? || AllClassifiable(companies)
    ensures Seqs.IsSubsequence(r, companies)
    ensures forall c | c in r :: c in companies && StatusTest(c, f) && SectorTest(c, sectorFilter) && NameTest(c, search)
    ensures forall c | c in companies && StatusTest(c, f) && SectorTest(c, sectorFilter) && NameTest(c, search) :: c in r
    ensures forall c | c in companies && StatusTest(c, f) && SectorTest(c, sectorFilter) && NameTest(c, search) ::
              multiset(r)[c] == multiset(companies)[c]
  {
    Seqs.Filter(c => Keeps(c, f, sectorFilter, search), companies)
  }

  /** With every filter at its default the view is the whole list. */
  lemma FilteredDefault(companies: seq<Company>)
    ensures Filtered(companies, AllStatuses, "all", "") == companies
  {
    Seqs.FilterKeepsAll(c => Keeps(c, AllStatuses, "all", ""), companies);
  }

  /** Choosing a status narrows the view: the result is a subsequence of the
      all-statuses view with the same sector and search. */
  lemma StatusNarrows(companies: seq<Company>, f: StatusFilter, sectorFilter: string, search: string)
    requires AllClassifiable(companies)
    ensures Seqs.IsSubsequence(Filtered(companies, f, sectorFilter, search), Filtered(companies, AllStatuses, sectorFilter, search))
  {
    Seqs.FilterMonotone(c => Keeps(c, f, sectorFilter, search), c => Keeps(c, AllStatuses, sectorFilter, search), companies);
  }

  /** The three criteria are independent: status alone applied after sector
      and name, or sector and name applied after status alone, give the
      combined view. */
  lemma FiltersCompose(companies: seq<Company>, f: StatusFilter, sectorFilter: string, search: string)
    requires AllClassifiable(companies)
    ensures Filtered(Filtered(companies, AllStatuses, sectorFilter, search), f, "all", "")
         == Filtered(companies, f, sectorFilter, search)
    ensures Filtered(Filtered(companies, f, "all", ""), AllStatuses, sectorFilter, search)
         == Filtered(companies, f, sectorFilter, search)
  {
    var both := (c: Company) => Keeps(c, f, sectorFilter, search);
    var status := (c: Company) => Keeps(c, f, "all", "");
    var rest := (c: Company) => Keeps(c, AllStatuses, sectorFilter, search);
    Seqs.FilterConjunction(status, rest, both, companies);
    Seqs.FilterConjunction(rest, status, both, companies);
  }

  /** Search terms that differ only in letter case select the same companies. */
  lemma SearchIgnoresCase(companies: seq<Company>, f: StatusFilter, sectorFilter: string, search1: string, search2: string)
    requires f.AllStatuses? || AllClassifiable(companies)
    requires Lower(search1) == Lower(search2)
    ensures Filtered(companies, f, sectorFilter, search1) == Filtered(companies, f, sectorFilter, search2)
  {
    Seqs.FilterAgree(c => Keeps(c, f, sectorFilter, search1), c => Keeps(c, f, sectorFilter, search2), companies);
  }

  function SectorColumn(companies: seq<Company>): (r: seq<string>)
    ensures |r| == |companies|
  {
    seq(|companies|, i requires 0 <= i < |companies| => companies[i].sector)
  }

  /** `sectors`: "all" followed by every sector once, in order of first appearance. */
  method Sectors(companies: seq<Company>) returns (r: seq<string>)
    ensures |r| >= 1 && r[0] == "all"
    ensures forall i :: 0 <= i < |companies| ==> companies[i].sector in r[1..]
    ensures forall k :: 1 <= k < |r| ==> exists i :: 0 <= i < |companies| && companies[i].sector == r[k]
    ensures Seqs.NoDuplicates(r[1..])
    ensures forall j, k :: 1 <= j < k < |r| ==>
              r[j] in SectorColumn(companies) && r[k] in SectorColumn(companies) &&
              Seqs.FirstIndex(SectorColumn(companies), r[j]) < Seqs.FirstIndex(SectorColumn(companies), r[k])
  {
    var column := SectorColumn(companies);
    var distinct := Seqs.DistinctInOrder(column);
    r := ["all"] + distinct;
    assert r[1..] == distinct;
    forall i | 0 <= i < |companies| ensures companies[i].sector in r[1..] {
      assert column[i] == companies[i].sector;
    }
    forall k | 1 <= k < |r| ensures exists i :: 0 <= i < |companies| && companies[i].sector == r[k] {
      assert r[k] == distinct[k - 1];
      var i := Seqs.FirstIndex(column, r[k]);
    }
  }

  const Header: seq<string> := ["Company", "Sector", "Current Emissions", "Emission Limit", "Status"]

  /** One exported row: name, sector, both numbers in decimal, and the status label. */
  function Row(c: Company): (cells: seq<string>)
    requires Classifiable(c)
    ensures |cells| == |Header|
    ensures cells[0] == c.name && cells[1] == c.sector && cells[4] == Label(StatusOf(c))
    ensures cells[2] == Csv.IntToString(c.current) && cells[3] == Csv.IntToString(c.limit)
    ensures Csv.ParseInt(cells[2]) == Some(c.current) && Csv.ParseInt(cells[3]) == Some(c.limit)
  {
    Csv.IntRoundTrip(c.current);
    Csv.IntRoundTrip(c.limit);
    [c.name, c.sector, Csv.IntToString(c.current), Csv.IntToString(c.limit), Label(StatusOf(c))]
  }

  /** The header and one row per company of the whole list (not of the filtered view). */
  function ExportRows(companies: seq<Company>): (rows: seq<seq<string>>)
    requires AllClassifiable(companies)
    ensures |rows| == |companies| + 1
    ensures rows[0] == Header
    ensures forall i :: 0 <= i < |companies| ==> rows[i + 1] == Row(companies[i])
  {
    [Header] + seq(|companies|, i requires 0 <= i < |companies| => Row(companies[i]))
  }

  /** The text `exportCSV` puts into the downloaded file. */
  function ExportCsv(companies: seq<Company>): string
    requires AllClassifiable(companies)
  {
    Csv.Document(ExportRows(companies))
  }

  /** Names and sectors are the only free-text cells of the export. */
  predicate TextCellsSafe(companies: seq<Company>)
  {
    forall c | c in companies :: Csv.Safe(c.name) && Csv.Safe(c.sector)
  }

  lemma LabelSafe(s: Status)
    ensures Csv.Safe(Label(s))
  {
    match s
    case Compliant => assert Label(s) == "Compliant";
    case Approaching => assert Label(s) == "Approaching";
    case Exceeded => assert Label(s) == "Exceeded";
  }

  lemma FixedCellsSafe(c: Company)
    requires Classifiable(c)
    ensures forall i :: 2 <= i < 5 ==> Csv.Safe(Row(c)[i])
  {
    var cells := Row(c);
    Csv.IntTextSafe(c.current);
    Csv.IntTextSafe(c.limit);
    LabelSafe(StatusOf(c));
    assert cells[2] == Csv.IntToString(c.current) && cells[3] == Csv.IntToString(c.limit);
  }

  /** A row has a line break only where its name or sector has one. */
  lemma RowLineFree(c: Company)
    requires Classifiable(c)
    requires '\n' !in c.name && '\n' !in c.sector
    ensures forall i :: 0 <= i < |Row(c)| ==> '\n' !in Row(c)[i]
  {
    FixedCellsSafe(c);
  }

  lemma RowSafeIff(c: Company)
    requires Classifiable(c)
    ensures Csv.SafeRow(Row(c)) <==> Csv.Safe(c.name) && Csv.Safe(c.sector)
  {
    FixedCellsSafe(c);
    assert Row(c)[0] == c.name && Row(c)[1] == c.sector;
  }

  lemma ExportSafeIff(companies: seq<Company>)
    requires AllClassifiable(companies)
    ensures Csv.SafeRows(ExportRows(companies)) <==> TextCellsSafe(companies)
  {
    var rows := ExportRows(companies);
    assert Csv.SafeRow(rows[0]) by {
      assert rows[0] == Header;
    }
    forall i | 0 <= i < |companies|
      ensures Csv.SafeRow(rows[i + 1]) <==> Csv.Safe(companies[i].name) && Csv.Safe(companies[i].sector)
    {
      assert rows[i + 1] == Row(companies[i]);
      RowSafeIff(companies[i]);
    }
    if Csv.SafeRows(rows) {
      forall c | c in companies ensures Csv.Safe(c.name) && Csv.Safe(c.sector) {
        var i :| 0 <= i < |companies| && companies[i] == c;
        assert Csv.SafeRow(rows[i + 1]);
      }
    }
    if TextCellsSafe(companies) {
      forall k | 0 <= k < |rows| ensures Csv.SafeRow(rows[k]) {
        if k > 0 {
          assert companies[k - 1] in companies;
        }
      }
    }
  }

  lemma ExportRowsLineFree(companies: seq<Company>)
    requires AllClassifiable(companies)
    requires forall c | c in companies :: '\n' !in c.name && '\n' !in c.sector
    ensures var rows := ExportRows(companies);
      forall k, i :: 0 <= k < |rows| && 0 <= i < |rows[k]| ==> '\n' !in rows[k][i]
  {
    var rows := ExportRows(companies);
    forall k, i | 0 <= k < |rows| && 0 <= i < |rows[k]| ensures '\n' !in rows[k][i] {
      if k > 0 {
        assert companies[k - 1] in companies;
        RowLineFree(companies[k - 1]);
      }
    }
  }

  /** The export has one line per company after the header, as long as no
      name or sector holds a line break; quotes do not disturb the lines. */
  lemma ExportLines(companies: seq<Company>)
    requires AllClassifiable(companies)
    requires forall c | c in companies :: '\n' !in c.name && '\n' !in c.sector
    ensures var lines := Split(ExportCsv(companies), '\n');
      && |lines| == |companies| + 1
      && lines[0] == Csv.Line(Header)
      && forall i :: 0 <= i < |companies| ==> lines[i + 1] == Csv.Line(Row(companies[i]))
  {
    ExportRowsLineFree(companies);
    Csv.LineCount(ExportRows(companies));
  }

  /** Reading the exported text back gives the header and the rows -- with both
      numbers recovered -- exactly when no name or sector holds a quote or a
      line break; the export escapes nothing. */
  lemma ExportRoundTrip(companies: seq<Company>)
    requires AllClassifiable(companies)
    ensures Csv.ParseDocument(ExportCsv(companies)) == Some(ExportRows(companies)) <==> TextCellsSafe(companies)
    ensures forall i :: 0 <= i < |companies| ==>
              && Csv.ParseInt(ExportRows(companies)[i + 1][2]) == Some(companies[i].current)
              && Csv.ParseInt(ExportRows(companies)[i + 1][3]) == Some(companies[i].limit)
  {
    ExportSafeIff(companies);
    Csv.DocumentRoundTrip(ExportRows(companies));
    forall i | 0 <= i < |companies|
      ensures Csv.ParseInt(ExportRows(companies)[i + 1][2]) == Some(companies[i].current)
      ensures Csv.ParseInt(ExportRows(companies)[i + 1][3]) == Some(companies[i].limit)
    {
      Csv.IntRoundTrip(companies[i].current);
      Csv.IntRoundTrip(companies[i].limit);
    }
  }

  /** The `number | ""` state of a numeric input. */
  datatype Draft = Blank | Num(n: int)

  /** `Number(d)`: the empty string converts to 0. */
  function NumberOf(d: Draft): int
  {
    match d
    case Blank => 0
    case Num(n) => n
  }

  /** `!d`: the empty string and 0 are falsy. */
  predicate Falsy(d: Draft)
  {
    d == Blank || d == Num(0)
  }

  datatype Screen = Screen(
    companies: seq<Company>,
    editingId: Option<int>,
    draftName: string,
    draftValue: Draft,
    showNewLimitModal: bool,
    newLimitSector: string,
    newLimitValue: Draft)

  /** `startEdit(c)`: remember the company's id and copy its name and emissions into the drafts. */
  function StartEdit(st: Screen, c: Company): (r: Screen)
    ensures r.editingId == Some(c.id) && r.draftName == c.name && r.draftValue == Num(c.current)
    ensures r.companies == st.companies && r.showNewLimitModal == st.showNewLimitModal
    ensures r.newLimitSector == st.newLimitSector && r.newLimitValue == st.newLimitValue
  {
    st.(editingId := Some(c.id), draftName := c.name, draftValue := Num(c.current))
  }

  /** `cancelEdit`: no company is being edited and both drafts are empty. */
  function CancelEdit(st: Screen): (r: Screen)
    ensures r.editingId == None && r.draftName == "" && r.draftValue == Blank
    ensures r.companies == st.companies && r.showNewLimitModal == st.showNewLimitModal
    ensures r.newLimitSector == st.newLimitSector && r.newLimitValue == st.newLimitValue
  {
    st.(editingId := None, draftName := "", draftValue := Blank)
  }

  /** The list after saving: every company carrying `id` takes the new name and
      emissions; ids, sectors, limits and every other company stay as they were. */
  function EditCompanies(companies: seq<Company>, id: int, name: string, current: int): (r: seq<Company>)
    ensures |r| == |companies|
    ensures forall i :: 0 <= i < |r| ==>
              r[i].id == companies[i].id && r[i].sector == companies[i].sector && r[i].limit == companies[i].limit
    ensures forall i :: 0 <= i < |r| && companies[i].id == id ==> r[i].name == name && r[i].current == current
    ensures forall i :: 0 <= i < |r| && companies[i].id != id ==> r[i] == companies[i]
  {
    seq(|companies|, i requires 0 <= i < |companies| =>
      if companies[i].id == id then companies[i].(name := name, current := current) else companies[i])
  }

  /** `saveEdit`: without an edited company nothing happens; otherwise the
      drafts are written into the company and the edit state is cleared. */
  function SaveEdit(st: Screen): (r: Screen)
    ensures st.editingId == None ==> r == st
    ensures st.editingId != None ==>
              && r.companies == EditCompanies(st.companies, st.editingId.value, st.draftName, NumberOf(st.draftValue))
              && r.editingId == None && r.draftName == "" && r.draftValue == Blank
              && r.showNewLimitModal == st.showNewLimitModal
              && r.newLimitSector == st.newLimitSector && r.newLimitValue == st.newLimitValue
  {
    match st.editingId
    case None => st
    case Some(id) =>
      CancelEdit(st.(companies := EditCompanies(st.companies, id, st.draftName, NumberOf(st.draftValue))))
  }

  /** The list after applying a limit: every company of `sector` takes the new
      limit; every other field and every other company stays as it was. */
  function SetSectorLimit(companies: seq<Company>, sector: string, limit: int): (r: seq<Company>)
    ensures |r| == |companies|
    ensures forall i :: 0 <= i < |r| ==>
              && r[i].id == companies[i].id && r[i].name == companies[i].name
              && r[i].sector == companies[i].sector && r[i].current == companies[i].current
    ensures forall i :: 0 <= i < |r| && companies[i].sector == sector ==> r[i].limit == limit
    ensures forall i :: 0 <= i < |r| && companies[i].sector != sector ==> r[i] == companies[i]
  {
    seq(|companies|, i requires 0 <= i < |companies| =>
      if companies[i].sector == sector then companies[i].(limit := limit) else companies[i])
  }

  /** `applyNewLimits`: a blank or zero value is ignored and the dialog stays
      open; otherwise the sector's companies take the value and the dialog closes. */
  function ApplyNewLimits(st: Screen): (r: Screen)
    ensures Falsy(st.newLimitValue) ==> r == st
    ensures !Falsy(st.newLimitValue) ==>
              && r.companies == SetSectorLimit(st.companies, st.newLimitSector, st.newLimitValue.n)
              && r == st.(companies := r.companies, showNewLimitModal := false)
  {
    if Falsy(st.newLimitValue) then st
    else st.(companies := SetSectorLimit(st.companies, st.newLimitSector, NumberOf(st.newLimitValue)),
             showNewLimitModal := false)
  }

  predicate UniqueIds(companies: seq<Company>)
  {
    forall i, j :: 0 <= i < j < |companies| ==> companies[i].id != companies[j].id
  }

  predicate NoZeroLimits(companies: seq<Company>)
  {
    forall c | c in companies :: c.limit != 0
  }

  /** Without a zero limit every company can be classified, so the filter and
      the export are defined. */
  lemma NoZeroLimitsClassifiable(companies: seq<Company>)
    requires NoZeroLimits(companies)
    ensures AllClassifiable(companies)
  {
  }

  /** The sample data the screen starts with. */
  const InitialCompanies: seq<Company> := [
    Company(1, "EcoTech Solutions", "Manufacturing", 480, 500),
    Company(2, "GreenDrive Motors", "Transportation", 850, 800),
    Company(3, "Solaris Energy", "Energy", 1150, 1200),
    Company(4, "BioFuel Innovations", "Agriculture", 450, 400),
    Company(5, "AquaPure Systems", "Manufacturing", 780, 800),
    Company(6, "CarbonCapture Inc.", "Energy", 950, 1000),
    Company(7, "HeavyMetal Corp", "Manufacturing", 1500, 1200),
    Company(8, "AeroLogistics", "Transportation", 750, 800)
  ]

  /** The sample list has distinct ids and no zero limit. */
  lemma SampleWellFormed()
    ensures UniqueIds(InitialCompanies) && NoZeroLimits(InitialCompanies)
  {
  }

  /** The sample list classifies as its ratios 0.96, 0.958, 0.975, 0.95 and
      0.9375 and its three overruns say. */
  lemma SampleStatuses()
    ensures StatusOf(InitialCompanies[0]) == Approaching
    ensures StatusOf(InitialCompanies[1]) == Exceeded
    ensures StatusOf(InitialCompanies[2]) == Approaching
    ensures StatusOf(InitialCompanies[3]) == Exceeded
    ensures StatusOf(InitialCompanies[4]) == Approaching
    ensures StatusOf(InitialCompanies[5]) == Approaching
    ensures StatusOf(InitialCompanies[6]) == Exceeded
    ensures StatusOf(InitialCompanies[7]) == Approaching
  {
  }

  function InitialScreen(): Screen
  {
    Screen(InitialCompanies, None, "", Blank, false, "Manufacturing", Blank)
  }

  /** Starting an edit and saving it without touching the drafts gives back the
      list unchanged, when ids are unique. */
  lemma StartThenSaveKeepsList(st: Screen, c: Company)
    requires c in st.companies && UniqueIds(st.companies)
    ensures SaveEdit(StartEdit(st, c)).companies == st.companies
  {
    var cs := st.companies;
    var r := SaveEdit(StartEdit(st, c)).companies;
    var k :| 0 <= k < |cs| && cs[k] == c;
    forall i | 0 <= i < |cs| ensures r[i] == cs[i] {
      if cs[i].id == c.id {
        assert i == k;
      }
    }
  }

  /** Saving clears the edited id, so a second save changes nothing. */
  lemma SaveEditIdempotent(st: Screen)
    ensures SaveEdit(SaveEdit(st)) == SaveEdit(st)
  {
  }

  /** Applying the same sector limit twice is applying it once. */
  lemma ApplyNewLimitsIdempotent(st: Screen)
    ensures ApplyNewLimits(ApplyNewLimits(st)) == ApplyNewLimits(st)
  {
    if !Falsy(st.newLimitValue) {
      var once := ApplyNewLimits(st);
      assert SetSectorLimit(once.companies, st.newLimitSector, st.newLimitValue.n) == once.companies;
    }
  }

  /** The handlers the screen wires to its controls. */
  datatype Event =
    | EditClicked(c: Company)
    | DraftNameTyped(name: string)
    | CancelClicked
    | SaveClicked
    | SetNewLimitsClicked
    | DialogCancelClicked
    | SectorChosen(sector: string)
    | LimitTyped(value: Draft)
    | ApplyClicked

  /** One handler call. It keeps the positions, ids and sectors of the list,
      and every limit is either the old one or the nonzero value typed into
      the new-limit dialog. */
  function Step(st: Screen, e: Event): (r: Screen)
    ensures |r.companies| == |st.companies|
    ensures forall i :: 0 <= i < |st.companies| ==>
              && r.companies[i].id == st.companies[i].id
              && r.companies[i].sector == st.companies[i].sector
              && (r.companies[i].limit == st.companies[i].limit
                  || (!Falsy(st.newLimitValue) && r.companies[i].limit == NumberOf(st.newLimitValue)))
  {
    match e
    case EditClicked(c) => StartEdit(st, c)
    case DraftNameTyped(name) => st.(draftName := name)
    case CancelClicked => CancelEdit(st)
    case SaveClicked => SaveEdit(st)
    case SetNewLimitsClicked => st.(showNewLimitModal := true)
    case DialogCancelClicked => st.(showNewLimitModal := false)
    case SectorChosen(sector) => st.(newLimitSector := sector)
    case LimitTyped(value) => st.(newLimitValue := value)
    case ApplyClicked => ApplyNewLimits(st)
  }

  function Run(st: Screen, events: seq<Event>): Screen
    decreases |events|
  {
    if |events| == 0 then st else Run(Step(st, events[0]), events[1..])
  }

  /** No handler introduces a zero limit: a zero value is refused by
      `applyNewLimits` and `saveEdit` never writes a limit. */
  lemma {:induction false} LimitsStayNonzero(st: Screen, events: seq<Event>)
    requires NoZeroLimits(st.companies)
    ensures NoZeroLimits(Run(st, events).companies)
    decreases |events|
  {
    if |events| > 0 {
      var next := Step(st, events[0]);
      assert NoZeroLimits(next.companies) by {
        forall c | c in next.companies ensures c.limit != 0 {
          var i :| 0 <= i < |next.companies| && next.companies[i] == c;
          assert st.companies[i] in st.companies;
        }
      }
      LimitsStayNonzero(next, events[1..]);
    }
  }

  /** An edit button is only shown for a company of the current list. */
  ghost predicate Legal(st: Screen, events: seq<Event>)
    decreases |events|
  {
    |events| == 0
    || ((events[0].EditClicked? ==> events[0].c in st.companies) && Legal(Step(st, events[0]), events[1..]))
  }

  /** The emissions draft holds the emissions of the company being edited. */
  predicate DraftMatches(st: Screen)
  {
    st.editingId.Some? ==>
      st.draftValue.Num? &&
      forall i :: 0 <= i < |st.companies| && st.companies[i].id == st.editingId.value ==>
        st.companies[i].current == st.draftValue.n
  }

  /** Same length, and at every position the same id, sector and emissions. */
  predicate SameSkeleton(a: seq<Company>, b: seq<Company>)
  {
    && |a| == |b|
    && forall i :: 0 <= i < |a| ==> a[i].id == b[i].id && a[i].sector == b[i].sector && a[i].current == b[i].current
  }

  /** The edit row offers an input for the name only, so the emissions draft
      always holds what `startEdit` copied: through any sequence of the screen's
      handlers, ids, sectors and emissions stay as they were; only names and
      limits change. */
  lemma {:induction false} EmissionsNeverEdited(st: Screen, events: seq<Event>)
    requires UniqueIds(st.companies) && DraftMatches(st) && Legal(st, events)
    ensures SameSkeleton(st.companies, Run(st, events).companies)
    decreases |events|
  {
    if |events| == 0 {
      return;
    }
    var next := Step(st, events[0]);
    assert SameSkeleton(st.companies, next.companies);
    assert UniqueIds(next.companies);
    assert DraftMatches(next) by {
      match events[0]
      case EditClicked(c) =>
        var k :| 0 <= k < |st.companies| && st.companies[k] == c;
        forall i | 0 <= i < |next.companies| && next.companies[i].id == c.id
          ensures next.companies[i].current == c.current
        {
          assert i == k;
        }
      case _ =>
    }
    EmissionsNeverEdited(next, events[1..]);
    var last := Run(next, events[1..]).companies;
    assert SameSkeleton(st.companies, last);
  }

  /** From the sample data, whatever the user does on this screen, every
      company keeps a nonzero limit -- so it can always be classified, filtered
      and exported -- and its id, sector and emissions. */
  lemma SessionFromSampleData(events: seq<Event>)
    requires Legal(InitialScreen(), events)
    ensures NoZeroLimits(Run(InitialScreen(), events).companies)
    ensures AllClassifiable(Run(InitialScreen(), events).companies)
    ensures SameSkeleton(InitialCompanies, Run(InitialScreen(), events).companies)
  {
    SampleWellFormed();
    LimitsStayNonzero(InitialScreen(), events);
    NoZeroLimitsClassifiable(Run(InitialScreen(), events).companies);
    EmissionsNeverEdited(InitialScreen(), events);
  }
}
