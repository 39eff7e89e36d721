/** The selection behind the "reset" button: the entries shown in the current
    view are the ones deleted. The deletion requests themselves are network
    calls and are not part of this model. */
module Reset {
  import opened Dates
  import opened Summary

  /** `entries.filter(e => daysInView.includes(e.date))`, in the entries' order. */
  function Selected(entries: seq<Entry>, daysInView: seq<string>): (r: seq<Entry>)
    ensures |r| <= |entries|
    decreases |entries|
  {
    if entries == [] then []
    else (if entries[0].date in daysInView then [entries[0]] else []) + Selected(entries[1..], daysInView)
  }

  /** The entries a reset leaves in place: those dated outside the view. */
  function Kept(entries: seq<Entry>, daysInView: seq<string>): (r: seq<Entry>)
    ensures |r| <= |entries|
    decreases |entries|
  {
    if entries == [] then []
    else (if entries[0].date !in daysInView then [entries[0]] else []) + Kept(entries[1..], daysInView)
  }

  /** `confirmReset`: the entries dated on one of the days in view. */
  function ConfirmResetSelection(days: seq<int>, entries: seq<Entry>): (r: seq<Entry>)
    ensures |r| <= |entries|
  {
    Selected(entries, DaysInView(days))
  }

  /** Every copy of an entry dated in view is selected, and nothing else. */
  lemma {:induction false} SelectedCount(entries: seq<Entry>, daysInView: seq<string>, e: Entry)
    ensures multiset(Selected(entries, daysInView))[e]
            == if e.date in daysInView then multiset(entries)[e] else 0
    decreases |entries|
  {
    if entries != [] {
      SelectedCount(entries[1..], daysInView, e);
      assert entries == [entries[0]] + entries[1..];
    }
  }

  lemma {:induction false} KeptCount(entries: seq<Entry>, daysInView: seq<string>, e: Entry)
    ensures multiset(Kept(entries, daysInView))[e]
            == if e.date in daysInView then 0 else multiset(entries)[e]
    decreases |entries|
  {
    if entries != [] {
      KeptCount(entries[1..], daysInView, e);
      assert entries == [entries[0]] + entries[1..];
    }
  }

  /** An entry is selected exactly when it is one of the entries and its date
      is in view. */
  lemma SelectedMembership(entries: seq<Entry>, daysInView: seq<string>, e: Entry)
    ensures e in Selected(entries, daysInView) <==> e in entries && e.date in daysInView
  {
    SelectedCount(entries, daysInView, e);
  }

  /** Selected and kept entries together are the entries, each exactly once. */
  lemma ResetPartition(entries: seq<Entry>, daysInView: seq<string>)
    ensures multiset(Selected(entries, daysInView)) + multiset(Kept(entries, daysInView)) == multiset(entries)
  {
    forall e
      ensures (multiset(Selected(entries, daysInView)) + multiset(Kept(entries, daysInView)))[e]
              == multiset(entries)[e]
    {
      SelectedCount(entries, daysInView, e);
      KeptCount(entries, daysInView, e);
    }
  }

  /** Filtering keeps order: the selection of two runs of entries is the
      selection of the first followed by that of the second. */
  lemma {:induction false} SelectedAppend(a: seq<Entry>, b: seq<Entry>, daysInView: seq<string>)
    ensures Selected(a + b, daysInView) == Selected(a, daysInView) + Selected(b, daysInView)
    decreases |a|
  {
    if a != [] {
      SelectedAppend(a[1..], b, daysInView);
      assert (a + b)[0] == a[0] && (a + b)[1..] == a[1..] + b;
      var h := if a[0].date in daysInView then [a[0]] else [];
      assert h + (Selected(a[1..], daysInView) + Selected(b, daysInView))
          == (h + Selected(a[1..], daysInView)) + Selected(b, daysInView);
    } else {
      assert a + b == b;
    }
  }

  /** An entry whose date is the printed date of day d is deleted exactly
      when d is one of the days in view; entries dated outside the view are
      never selected. */
  lemma ResetSelectsVisibleDays(days: seq<int>, entries: seq<Entry>, e: Entry, d: int)
    requires e in entries && e.date == FormatDate(d)
    ensures e in ConfirmResetSelection(days, entries) <==> d in days
  {
    var keys := DaysInView(days);
    SelectedMembership(entries, keys, e);
    if d in days {
      var i :| 0 <= i < |days| && days[i] == d;
      DaysInViewIndex(days, i);
    }
    if e.date in keys {
      var i :| 0 <= i < |keys| && keys[i] == e.date;
      DaysInViewIndex(days, i);
      FormatDateInjective(d, days[i]);
    }
  }
}
