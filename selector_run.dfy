/** The `select` methods of the anonymous classes in `Selectors`, written as
    the Java code runs them: a scan with an early return, one selector or one
    preference at a time. Each is proved to compute `Select`. */
module SelectorRun {
  import opened Wrappers
  import opened Selectors
  import opened SelectorLaws

  /** Calls `select` on selector `s`: dispatches to the code of the factory
      that built it. */
  method Run<T(==)>(s: Selector<T>, items: seq<T>) returns (r: Option<T>)
    ensures r == Select(s, items)
    decreases s, 1
  {
    match s
    case Chain(head, tail) =>
      ghost var consulted;
      r, consulted := RunChain(head, tail, items);
    case Preferences(preferences) =>
      r := RunPreferences(preferences, items);
    case Single(preference) =>
      r := if preference in items then Some(preference) else None;
    case Nothing =>
      r := None;
  }

  /** `select` of `firstAvailable(function, functions...)`: asks the head,
      then each tail selector in order, and stops at the first answer.
      `consulted` counts the selectors asked: exactly those up to the first
      that answers, so when the head answers no tail selector is asked. */
  method RunChain<T(==)>(head: Selector<T>, tail: seq<Selector<T>>, items: seq<T>)
      returns (r: Option<T>, ghost consulted: nat)
    ensures r == Select(Chain(head, tail), items)
    ensures 1 <= consulted <= 1 + |tail|
    ensures Select(head, items).Some? ==> consulted == 1
    ensures forall j :: 0 <= j < consulted - 1 ==> Select(([head] + tail)[j], items).None?
    ensures r.Some? ==> r == Select(([head] + tail)[consulted - 1], items)
    ensures r.None? ==> consulted == 1 + |tail|
    decreases Chain(head, tail), 0
  {
    r := Run(head, items);
    consulted := 1;
    if r.Some? {
      return;
    }
    for i := 0 to |tail|
      invariant consulted == 1 + i
      invariant forall j :: 0 <= j < i ==> Select(tail[j], items).None?
    {
      r := Run(tail[i], items);
      consulted := consulted + 1;
      if r.Some? {
        ChainFirstAnswer(head, tail, items, i);
        return;
      }
    }
    ChainNoneIff(head, tail, items);
    r := None;
  }

  /** `select` of `firstAvailable(preferences...)`: returns the first
      preference the items contain. */
  method RunPreferences<T(==)>(preferences: seq<T>, items: seq<T>) returns (r: Option<T>)
    ensures r == Select(Preferences(preferences), items)
  {
    for i := 0 to |preferences|
      invariant forall j :: 0 <= j < i ==> preferences[j] !in items
    {
      if preferences[i] in items {
        PreferencesFirstAvailable(preferences, items, i);
        return Some(preferences[i]);
      }
    }
    PreferencesNoneIff(preferences, items);
    r := None;
  }
}
