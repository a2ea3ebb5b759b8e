/** The registration-verification screen (`VerifyCompany.tsx`): a
    case-insensitive search over pending registrations, and the confirmation
    dialog through which a registration is approved or rejected -- both of
    which simply drop it from the in-memory list. */
module Registrations {
  import opened Wrappers
  import opened Text
  import Seqs

  datatype Registration = Registration(name: string, email: string, organization: string, role: string, daysPending: int)

  datatype Action = Approve | Reject

  /** The selection the confirmation dialog is about. */
  datatype Screen = Screen(companies: seq<Registration>, selected: Option<Registration>, action: Option<Action>)

  /** The search term, lower-cased, occurs in the lower-cased name, email or organization. */
  predicate Matches(c: Registration, term: string)
  {
    || Includes(Lower(c.name), Lower(term))
    || Includes(Lower(c.email), Lower(term))
    || Includes(Lower(c.organization), Lower(term))
  }

  /** `filteredCompanies`: the registrations matching the search term, in list order. */
  function FilteredCompanies(companies: seq<Registration>, term: string): (r: seq<Registration>)
    ensures Seqs.IsSubsequence(r, companies)
    ensures forall c | c in r :: c in companies && Matches(c, term)
    ensures forall c | c in companies && Matches(c, term) :: c in r
    ensures forall c | c in companies && Matches(c, term) :: multiset(r)[c] == multiset(companies)[c]
  {
    Seqs.Filter(c => Matches(c, term), companies)
  }

  /** The empty search keeps every registration in its place. */
  lemma EmptySearchKeepsAll(companies: seq<Registration>)
    ensures FilteredCompanies(companies, "") == companies
  {
    Seqs.FilterKeepsAll(c => Matches(c, ""), companies);
  }

  /** Search terms that differ only in letter case select the same registrations. */
  lemma SearchIgnoresCase(companies: seq<Registration>, term1: string, term2: string)
    requires Lower(term1) == Lower(term2)
    ensures FilteredCompanies(companies, term1) == FilteredCompanies(companies, term2)
  {
    Seqs.FilterAgree(c => Matches(c, term1), c => Matches(c, term2), companies);
  }

  /** A term found verbatim in a name, email or organization is also found by
      the case-insensitive search. */
  lemma VerbatimMatchFound(c: Registration, term: string)
    requires Includes(c.name, term) || Includes(c.email, term) || Includes(c.organization, term)
    ensures Matches(c, term)
  {
    if Includes(c.name, term) {
      IncludesLower(c.name, term);
    } else if Includes(c.email, term) {
      IncludesLower(c.email, term);
    } else {
      IncludesLower(c.organization, term);
    }
  }

  /** `handleAction(company, type)`: open the dialog for this registration; the list is untouched. */
  function HandleAction(st: Screen, c: Registration, a: Action): (r: Screen)
    ensures r.companies == st.companies
    ensures r.selected == Some(c) && r.action == Some(a)
  {
    Screen(st.companies, Some(c), Some(a))
  }

  /** The dialog's Cancel button: close it, leaving the list untouched. */
  function Cancel(st: Screen): (r: Screen)
    ensures r.companies == st.companies
    ensures r.selected == None && r.action == None
  {
    Screen(st.companies, None, None)
  }

  /** The list without the registrations carrying `email`. */
  function WithoutEmail(companies: seq<Registration>, email: string): (r: seq<Registration>)
    ensures Seqs.IsSubsequence(r, companies)
    ensures forall c | c in r :: c in companies && c.email != email
    ensures forall c | c in companies && c.email != email :: c in r
    ensures forall c | c in companies && c.email != email :: multiset(r)[c] == multiset(companies)[c]
  {
    Seqs.Filter((c: Registration) => c.email != email, companies)
  }

  /** The text `alert` shows after a confirmation: the registration's name
      and organization, then the verb, whose first letter tells an approval
      from a rejection. */
  function AlertText(c: Registration, a: Action): (text: string)
    ensures var prefix := c.name + " from " + c.organization + " has been ";
      && |prefix| < |text| && text[..|prefix|] == prefix
      && (text[|prefix|] == 'a' <==> a == Approve)
      && text[|text| - 1] == '.'
  {
    c.name + " from " + c.organization + " has been " + (if a == Approve then "approved" else "rejected") + "."
  }

  /** `confirmAction`: with a selection and an action, drop every registration
      sharing the selected email, close the dialog and report the alert text;
      with either missing, nothing happens and nothing is reported. */
  function ConfirmAction(st: Screen): (r: (Screen, Option<string>))
    ensures st.selected.None? || st.action.None? ==> r == (st, None)
    ensures st.selected.Some? && st.action.Some? ==>
              && r.0.companies == WithoutEmail(st.companies, st.selected.value.email)
              && r.0.selected == None && r.0.action == None
              && r.1 == Some(AlertText(st.selected.value, st.action.value))
  {
    if st.selected.Some? && st.action.Some? then
      (Screen(WithoutEmail(st.companies, st.selected.value.email), None, None),
       Some(AlertText(st.selected.value, st.action.value)))
    else (st, None)
  }

  /** Confirming leaves no registration with the selected email, and keeps the
      others, in order and with their multiplicities. */
  lemma ConfirmRemovesExactlyEmail(st: Screen)
    requires st.selected.Some? && st.action.Some?
    ensures var after := ConfirmAction(st).0.companies;
      && Seqs.IsSubsequence(after, st.companies)
      && (forall c | c in after :: c.email != st.selected.value.email)
      && (forall c | c in st.companies && c.email != st.selected.value.email :: multiset(after)[c] == multiset(st.companies)[c])
  {
  }

  /** Confirming a registration that is on the list makes the list shorter. */
  lemma ConfirmShrinks(st: Screen)
    requires st.selected.Some? && st.action.Some? && st.selected.value in st.companies
    ensures |ConfirmAction(st).0.companies| < |st.companies|
  {
    var e := st.selected.value.email;
    var after := ConfirmAction(st).0.companies;
    Seqs.SubsequenceMultiset(after, st.companies);
    assert st.selected.value !in after;
    var gone := multiset(st.companies) - multiset(after);
    assert multiset(st.companies) == multiset(after) + gone;
    assert st.selected.value in gone;
    assert |multiset(st.companies)| == |multiset(after)| + |gone|;
  }

  /** Approving and rejecting do the same thing to the list and the dialog;
      only the reported text differs. */
  lemma ApproveRejectSameEffect(st: Screen, c: Registration)
    ensures ConfirmAction(HandleAction(st, c, Approve)).0 == ConfirmAction(HandleAction(st, c, Reject)).0
    ensures ConfirmAction(HandleAction(st, c, Approve)).1 != ConfirmAction(HandleAction(st, c, Reject)).1
  {
    var a, b := AlertText(c, Approve), AlertText(c, Reject);
    var prefix := c.name + " from " + c.organization + " has been ";
    assert a[|prefix|] == 'a' && b[|prefix|] == 'r';
  }

  /** The controls of the screen that touch the list or the dialog. */
  datatype Event = ActionClicked(c: Registration, a: Action) | CancelClicked | ConfirmClicked

  /** One click: the list only loses entries, and an open dialog has both a
      registration and an action. */
  function Step(st: Screen, e: Event): (r: Screen)
    ensures Seqs.IsSubsequence(r.companies, st.companies)
    ensures (st.selected.Some? <==> st.action.Some?) ==> (r.selected.Some? <==> r.action.Some?)
  {
    match e
    case ActionClicked(c, a) => Seqs.SubsequenceRefl(st.companies); HandleAction(st, c, a)
    case CancelClicked => Seqs.SubsequenceRefl(st.companies); Cancel(st)
    case ConfirmClicked => Seqs.SubsequenceRefl(st.companies); ConfirmAction(st).0
  }

  function Run(st: Screen, events: seq<Event>): Screen
    decreases |events|
  {
    if |events| == 0 then st else Run(Step(st, events[0]), events[1..])
  }

  /** The dialog is either fully open (a registration and an action) or fully closed. */
  predicate DialogConsistent(st: Screen)
  {
    st.selected.Some? <==> st.action.Some?
  }

  /** Over any sequence of clicks the dialog stays consistent and the list only
      loses entries: it is always an order-preserving subsequence of the start. */
  lemma {:induction false} RunOnlyRemoves(st: Screen, events: seq<Event>)
    requires DialogConsistent(st)
    ensures DialogConsistent(Run(st, events))
    ensures Seqs.IsSubsequence(Run(st, events).companies, st.companies)
    decreases |events|
  {
    if |events| == 0 {
      Seqs.SubsequenceRefl(st.companies);
    } else {
      var next := Step(st, events[0]);
      assert Seqs.IsSubsequence(next.companies, st.companies) by {
        if events[0].ConfirmClicked? && st.selected.Some? {
        } else {
          Seqs.SubsequenceRefl(st.companies);
        }
      }
      RunOnlyRemoves(next, events[1..]);
      Seqs.SubsequenceTrans(Run(next, events[1..]).companies, next.companies, st.companies);
    }
  }
}
