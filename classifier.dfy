/** The growth-state classifier in its two variants: the plain decision tree of
    scripts/2_compute_user_state_daily.py and the weekend-folding one of
    src/daulingo/classifier.py, selected by `weekendFold`. */
module Classifier {
  import opened Dates
  import opened Tables
  import opened Wrappers

  /** The `ValueError` raised for a date before the user's first-seen date. */
  datatype ClassifyError = BeforeFirstSeen

  /** Some date of `active` lies in the inclusive range [start, end]; an
      inverted range holds none. */
  predicate InWindow(active: set<Date>, start: Date, end: Date) {
    exists d :: d in active && start <= d <= end
  }

  /** `_any_in_window` / `any_in_window`: probes `start + i` for each offset. */
  method AnyInWindow(active: set<Date>, start: Date, end: Date) returns (found: bool)
    ensures found <==> InWindow(active, start, end)
    ensures start > end ==> !found
  {
    if start > end {
      return false;
    }
    var delta := end - start;
    for i := 0 to delta + 1
      invariant forall d :: start <= d < start + i ==> d !in active
    {
      if start + i in active {
        return true;
      }
    }
    return false;
  }

  /** Where weekend folding puts an active date: Saturday (weekday 5) one day
      back and Sunday (weekday 6) two days back, onto the Friday; weekdays stay. */
  function FoldDay(d: Date): Date {
    var wd := Weekday(d);
    if wd >= 5 then d - (wd - 4) else d
  }

  /** The set the decision tree looks at: the active dates, weekend-folded when asked. */
  function Normalized(active: set<Date>, weekendFold: bool): set<Date> {
    if weekendFold then set d | d in active :: FoldDay(d) else active
  }

  /** The decision tree: active today, then first day, last week, last month. */
  function Decide(activeToday: bool, firstDay: bool, weekHas: bool, monthHas: bool): State {
    if activeToday then
      if firstDay then New
      else if weekHas then Current
      else if monthHas then Reactivated
      else Resurrected
    else if weekHas then AtRiskWau
    else if monthHas then AtRiskMau
    else Dormant
  }

  /** The state on `asOf` from the week window [asOf-7, asOf-1] and the month
      window [asOf-30, asOf-8] of the (normalised) active dates. */
  function StateOn(asOf: Date, firstSeen: Date, active: set<Date>, weekendFold: bool): State {
    var adjusted := Normalized(active, weekendFold);
    Decide(asOf in adjusted, asOf == firstSeen,
           InWindow(adjusted, asOf - 7, asOf - 1), InWindow(adjusted, asOf - 30, asOf - 8))
  }

  /** `classify_state`, including the error it raises before `first_seen`. */
  function Classify(asOf: Date, firstSeen: Date, active: set<Date>, weekendFold: bool): Result<State, ClassifyError> {
    if asOf < firstSeen then Failure(BeforeFirstSeen) else Success(StateOn(asOf, firstSeen, active, weekendFold))
  }

  /** Folding one more date adds exactly that date's folded image. */
  lemma FoldOneMore(done: set<Date>, d: Date)
    ensures Normalized(done + {d}, true) == Normalized(done, true) + {FoldDay(d)}
  {
  }

  /** The normalisation loop of src/daulingo/classifier.py, one date at a time. */
  method NormalizeWeekends(active: set<Date>) returns (adjusted: set<Date>)
    ensures adjusted == Normalized(active, true)
  {
    adjusted := {};
    var rest := active;
    while exists x :: x in rest
      invariant rest <= active
      invariant adjusted == Normalized(active - rest, true)
      decreases |rest|
    {
      var d :| d in rest;
      var wd: int := Weekday(d);
      if wd >= 5 {
        adjusted := adjusted + {d - (wd - 4)};
      } else {
        adjusted := adjusted + {d};
      }
      FoldOneMore(active - rest, d);
      assert active - (rest - {d}) == (active - rest) + {d};
      rest := rest - {d};
    }
    assert rest == {};
    assert active - rest == active;
  }

  /** `classify_state` as the source runs it: reject, normalise (weekend-folding
      variant only), derive the three booleans, walk the decision tree. */
  method ClassifyState(asOf: Date, firstSeen: Date, active: set<Date>, weekendFold: bool)
    returns (r: Result<State, ClassifyError>)
    ensures r == Classify(asOf, firstSeen, active, weekendFold)
  {
    if asOf < firstSeen {
      return Failure(BeforeFirstSeen);
    }
    var adjusted := active;
    if weekendFold {
      adjusted := NormalizeWeekends(active);
    }
    var activeToday := asOf in adjusted;
    var weekHas := AnyInWindow(adjusted, asOf - 7, asOf - 1);
    var monthNotWeekHas := AnyInWindow(adjusted, asOf - 30, asOf - 8);
    if activeToday {
      if asOf == firstSeen {
        return Success(New);
      }
      if weekHas {
        return Success(Current);
      }
      if monthNotWeekHas {
        return Success(Reactivated);
      }
      return Success(Resurrected);
    }
    if weekHas {
      return Success(AtRiskWau);
    }
    if monthNotWeekHas {
      return Success(AtRiskMau);
    }
    return Success(Dormant);
  }

  // ----------------------------------------------------------------------------
  // Properties of the classifier

  /** The call fails exactly when `asOf` is before the first-seen date. */
  lemma ClassifyFailsIffBeforeFirstSeen(asOf: Date, firstSeen: Date, active: set<Date>, weekendFold: bool)
    ensures Classify(asOf, firstSeen, active, weekendFold).Failure? <==> asOf < firstSeen
    ensures asOf >= firstSeen ==> Classify(asOf, firstSeen, active, weekendFold) == Success(StateOn(asOf, firstSeen, active, weekendFold))
  {
  }

  /** The full decision table, both directions, over the normalised dates. */
  lemma DecisionTable(asOf: Date, firstSeen: Date, active: set<Date>, weekendFold: bool)
    ensures var adj := Normalized(active, weekendFold);
      var today := asOf in adj;
      var week := InWindow(adj, asOf - 7, asOf - 1);
      var month := InWindow(adj, asOf - 30, asOf - 8);
      var s := StateOn(asOf, firstSeen, active, weekendFold);
      && (s == New <==> today && asOf == firstSeen)
      && (s == Current <==> today && asOf != firstSeen && week)
      && (s == Reactivated <==> today && asOf != firstSeen && !week && month)
      && (s == Resurrected <==> today && asOf != firstSeen && !week && !month)
      && (s == AtRiskWau <==> !today && week)
      && (s == AtRiskMau <==> !today && !week && month)
      && (s == Dormant <==> !today && !week && !month)
      && (IsActiveState(s) <==> today)
  {
  }

  /** The folded set holds no Saturday or Sunday. */
  lemma {:induction false} NormalizedHasNoWeekend(active: set<Date>)
    ensures forall d :: d in Normalized(active, true) ==> Weekday(d) < 5
  {
    forall x | x in Normalized(active, true)
      ensures Weekday(x) < 5
    {
      var d :| d in active && FoldDay(d) == x;
      var wd: int := Weekday(d);
      if wd >= 5 {
        WeekdayShift(d, 4 - wd);
      }
    }
  }

  /** Membership in the folded set: a weekday other than Friday is in it iff it
      is active; a Friday iff it, the Saturday after or the Sunday after is active;
      a weekend day never. */
  lemma {:induction false} FoldedMembership(active: set<Date>, x: Date)
    ensures x in Normalized(active, true) <==>
      Weekday(x) < 5 && (x in active || (Weekday(x) == 4 && (x + 1 in active || x + 2 in active)))
  {
    NormalizedHasNoWeekend(active);
    WeekdayShift(x, 1);
    WeekdayShift(x, 2);
    if x in Normalized(active, true) {
      var d :| d in active && FoldDay(d) == x;
      var wd: int := Weekday(d);
      if wd >= 5 {
        WeekdayShift(d, 4 - wd);
        assert d == x + (wd - 4);
      }
    }
    if Weekday(x) < 5 && x in active {
      assert FoldDay(x) == x;
    }
    if Weekday(x) == 4 && x + 1 in active {
      assert FoldDay(x + 1) == x;
    }
    if Weekday(x) == 4 && x + 2 in active {
      assert FoldDay(x + 2) == x;
    }
  }

  /** With weekend folding, a Saturday or Sunday is never an active state, so a
      user whose first-seen day is a weekend day is not NEW on it. */
  lemma WeekendIsNeverActive(asOf: Date, firstSeen: Date, active: set<Date>)
    requires Weekday(asOf) >= 5
    ensures StateOn(asOf, firstSeen, active, true) in {AtRiskWau, AtRiskMau, Dormant}
  {
    NormalizedHasNoWeekend(active);
  }

  /** With weekend folding, a Friday counts as active today iff the Friday or the
      Saturday or Sunday after it is active. */
  lemma FridaySeesFollowingWeekend(asOf: Date, firstSeen: Date, active: set<Date>)
    requires Weekday(asOf) == 4
    ensures IsActiveState(StateOn(asOf, firstSeen, active, true)) <==>
      (asOf in active || asOf + 1 in active || asOf + 2 in active)
  {
    FoldedMembership(active, asOf);
  }

  /** The plain classifier calls a user's first active day NEW; with weekend
      folding, only when that day is a weekday. */
  lemma NewOnFirstActiveDay(firstSeen: Date, active: set<Date>, weekendFold: bool)
    requires firstSeen in active
    requires weekendFold ==> Weekday(firstSeen) < 5
    ensures StateOn(firstSeen, firstSeen, active, weekendFold) == New
  {
    if weekendFold {
      FoldedMembership(active, firstSeen);
    }
  }

  /** The state depends only on the normalised dates in [asOf-30, asOf]. */
  lemma OnlyLast30DaysMatter(asOf: Date, firstSeen: Date, a: set<Date>, b: set<Date>, weekendFold: bool)
    requires forall d :: asOf - 30 <= d <= asOf ==> (d in Normalized(a, weekendFold) <==> d in Normalized(b, weekendFold))
    ensures StateOn(asOf, firstSeen, a, weekendFold) == StateOn(asOf, firstSeen, b, weekendFold)
  {
    var na, nb := Normalized(a, weekendFold), Normalized(b, weekendFold);
    assert InWindow(na, asOf - 7, asOf - 1) == InWindow(nb, asOf - 7, asOf - 1);
    assert InWindow(na, asOf - 30, asOf - 8) == InWindow(nb, asOf - 30, asOf - 8);
  }

  /** Reading activity from `start - 30` on is enough for the plain classifier:
      on any day of [start, end] it gives the same state as on the full history. */
  lemma LookbackOf30DaysSuffices(asOf: Date, firstSeen: Date, full: set<Date>, start: Date, end: Date)
    requires start <= asOf <= end
    ensures StateOn(asOf, firstSeen, set d | d in full && start - 30 <= d <= end, false)
         == StateOn(asOf, firstSeen, full, false)
  {
    OnlyLast30DaysMatter(asOf, firstSeen, (set d | d in full && start - 30 <= d <= end), full, false);
  }

  /** With weekend folding, the reads must also reach the weekend after the
      window: from `start - 30` to `end + 2`, every day of [start, end] gets the
      state of the full history. */
  lemma LookbackOf30DaysSufficesFolded(asOf: Date, firstSeen: Date, full: set<Date>, start: Date, end: Date)
    requires start <= asOf <= end
    ensures StateOn(asOf, firstSeen, set d | d in full && start - 30 <= d <= end + 2, true)
         == StateOn(asOf, firstSeen, full, true)
  {
    var part := set d | d in full && start - 30 <= d <= end + 2;
    forall x | asOf - 30 <= x <= asOf
      ensures x in Normalized(part, true) <==> x in Normalized(full, true)
    {
      FoldedMembership(part, x);
      FoldedMembership(full, x);
    }
    OnlyLast30DaysMatter(asOf, firstSeen, part, full, true);
  }

  /** Reads that stop at the window's end are not enough with weekend folding:
      on a Friday ending the window, a user active only on the weekend after it
      is active in the full history but not on the dates read. */
  lemma FoldedReadsToEndMissWeekend(asOf: Date, firstSeen: Date, full: set<Date>, start: Date)
    requires start <= asOf && Weekday(asOf) == 4
    requires asOf !in full && asOf + 1 in full
    ensures IsActiveState(StateOn(asOf, firstSeen, full, true))
    ensures !IsActiveState(StateOn(asOf, firstSeen, set d | d in full && start - 30 <= d <= asOf, true))
  {
    FridaySeesFollowingWeekend(asOf, firstSeen, full);
    FridaySeesFollowingWeekend(asOf, firstSeen, set d | d in full && start - 30 <= d <= asOf);
  }
}
