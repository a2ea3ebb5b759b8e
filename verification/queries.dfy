/** The query-management screen (`Queries_Gov.tsx`): the search-and-status
    filter over support queries, and the pure mappings from a status or a
    priority to its badge class and icon. */
module Queries {
  import opened Wrappers
  import opened Text
  import Seqs

  datatype Query = Query(
    id: int,
    company: string,
    category: string,
    status: string,
    priority: string,
    submittedDate: string,
    sla: string,
    description: string)

  /** The lower-cased search term occurs in the lower-cased company or category. */
  predicate MatchesSearch(q: Query, term: string)
  {
    Includes(Lower(q.company), Lower(term)) || Includes(Lower(q.category), Lower(term))
  }

  /** "All", or the status exactly as written -- this comparison is case-sensitive. */
  predicate MatchesStatus(q: Query, statusFilter: string)
  {
    statusFilter == "All" || q.status == statusFilter
  }

  /** `filteredQueries`: the queries matching both the search and the status, in list order. */
  function FilteredQueries(queries: seq<Query>, term: string, statusFilter: string): (r: seq<Query>)
    ensures Seqs.IsSubsequence(r, queries)
    ensures forall q | q in r :: q in queries && MatchesSearch(q, term) && MatchesStatus(q, statusFilter)
    ensures forall q | q in queries && MatchesSearch(q, term) && MatchesStatus(q, statusFilter) :: q in r
    ensures forall q | q in queries && MatchesSearch(q, term) && MatchesStatus(q, statusFilter) ::
              multiset(r)[q] == multiset(queries)[q]
  {
    Seqs.Filter(q => MatchesSearch(q, term) && MatchesStatus(q, statusFilter), queries)
  }

  /** "All" with an empty search shows every query in its place. */
  lemma DefaultShowsAll(queries: seq<Query>)
    ensures FilteredQueries(queries, "", "All") == queries
  {
    Seqs.FilterKeepsAll(q => MatchesSearch(q, "") && MatchesStatus(q, "All"), queries);
  }

  /** Picking a status narrows the "All" view with the same search term. */
  lemma StatusNarrows(queries: seq<Query>, term: string, statusFilter: string)
    ensures Seqs.IsSubsequence(FilteredQueries(queries, term, statusFilter), FilteredQueries(queries, term, "All"))
  {
    Seqs.FilterMonotone(
      q => MatchesSearch(q, term) && MatchesStatus(q, statusFilter),
      q => MatchesSearch(q, term) && MatchesStatus(q, "All"),
      queries);
  }

  /** The status view is the search view filtered once more by status. */
  lemma StatusAfterSearch(queries: seq<Query>, term: string, statusFilter: string)
    ensures FilteredQueries(queries, term, statusFilter)
         == Seqs.Filter(q => MatchesStatus(q, statusFilter), FilteredQueries(queries, term, "All"))
  {
    var both := (q: Query) => MatchesSearch(q, term) && MatchesStatus(q, statusFilter);
    var search := (q: Query) => MatchesSearch(q, term) && MatchesStatus(q, "All");
    var status := (q: Query) => MatchesStatus(q, statusFilter);
    Seqs.FilterConjunction(status, search, both, queries);
  }

  /** Search terms that differ only in letter case select the same queries. */
  lemma SearchIgnoresCase(queries: seq<Query>, term1: string, term2: string, statusFilter: string)
    requires Lower(term1) == Lower(term2)
    ensures FilteredQueries(queries, term1, statusFilter) == FilteredQueries(queries, term2, statusFilter)
  {
    Seqs.FilterAgree(
      q => MatchesSearch(q, term1) && MatchesStatus(q, statusFilter),
      q => MatchesSearch(q, term2) && MatchesStatus(q, statusFilter),
      queries);
  }

  /** The status test is not case-insensitive like the search: the lower-case
      value "open" selects none of the queries whose status is one of the three
      the screen uses. */
  lemma StatusIsCaseSensitive(queries: seq<Query>, term: string)
    requires forall q | q in queries :: IsKnownStatus(q.status)
    ensures FilteredQueries(queries, term, "open") == []
  {
  }

  predicate IsKnownStatus(status: string)
  {
    status == "Open" || status == "In Progress" || status == "Resolved"
  }

  predicate IsKnownPriority(priority: string)
  {
    priority == "High" || priority == "Medium" || priority == "Low"
  }

  const DefaultStatusClass := "bg-gray-100 text-gray-800"
  const DefaultPriorityClass := "text-gray-600"

  /** `getStatusColor`: a badge class per known status, gray for anything else. */
  function StatusColor(status: string): (cls: string)
    ensures cls == DefaultStatusClass <==> !IsKnownStatus(status)
  {
    match status
    case "Open" => "bg-red-100 text-red-800"
    case "In Progress" => "bg-amber-100 text-amber-800"
    case "Resolved" => "bg-green-100 text-green-800"
    case _ => DefaultStatusClass
  }

  /** `getPriorityColor`: a text class per known priority, gray for anything else. */
  function PriorityColor(priority: string): (cls: string)
    ensures cls == DefaultPriorityClass <==> !IsKnownPriority(priority)
  {
    match priority
    case "High" => "text-red-600"
    case "Medium" => "text-amber-600"
    case "Low" => "text-green-600"
    case _ => DefaultPriorityClass
  }

  datatype Icon = AlertCircle | Clock | CheckCircle

  /** `getStatusIcon`: an icon for each known status, `null` otherwise. */
  function StatusIcon(status: string): (icon: Option<Icon>)
    ensures icon.Some? <==> IsKnownStatus(status)
  {
    match status
    case "Open" => Some(AlertCircle)
    case "In Progress" => Some(Clock)
    case "Resolved" => Some(CheckCircle)
    case _ => None
  }

  /** The known statuses have pairwise different classes and icons, and a
      status gets an icon exactly when it gets a colour other than gray. */
  lemma StatusStylesDistinguish(s: string, t: string)
    requires IsKnownStatus(s) && IsKnownStatus(t) && s != t
    ensures StatusColor(s) != StatusColor(t)
    ensures StatusIcon(s) != StatusIcon(t)
  {
  }

  lemma IconIffColored(status: string)
    ensures StatusIcon(status).Some? <==> StatusColor(status) != DefaultStatusClass
  {
  }

  /** The known priorities have pairwise different classes. */
  lemma PriorityStylesDistinguish(p: string, q: string)
    requires IsKnownPriority(p) && IsKnownPriority(q) && p != q
    ensures PriorityColor(p) != PriorityColor(q)
  {
  }
}
