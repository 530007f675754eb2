/** The selector functions of `io.fotoapparat.parameter.selector.Selectors`.

    A selector is given the candidate items (a Java `Collection`, of which only
    `contains` is used, so a sequence stands for it here) and picks one of them,
    or answers `None` where the Java code returns `null`. The four factories of
    the class become the four constructors of `Selector`; what the anonymous
    `select` method of each one computes is `Select`.
 */
module Selectors {
  import opened Wrappers

  /** A selector as built by one of the four factories. It holds the selectors
      or preferences its factory was given, as a value taken when it is built.
      The Java selectors instead keep the caller's varargs array. */
  datatype Selector<T> =
      /** `firstAvailable(function, functions...)`: the head selector, then the
          others in order. Taking the head apart makes an empty chain impossible. */
    | Chain(head: Selector<T>, tail: seq<Selector<T>>)
      /** `firstAvailable(preferences...)`: preferred items, most important first. */
    | Preferences(preferences: seq<T>)
      /** `single(preference)`. */
    | Single(preference: T)
      /** `nothing()`. */
    | Nothing

  /** What selector `s` returns for the candidate items `items`. Whatever it
      returns is one of the candidates: no selector invents an item. */
  function Select<T(==)>(s: Selector<T>, items: seq<T>): (r: Option<T>)
    ensures r.Some? ==> r.value in items
    decreases s, 1
  {
    match s
    case Chain(head, tail) =>
      var first := Select(head, items);
      if first.Some? then first else FirstSome(SelectEach(tail, items))
    case Preferences(preferences) => FirstContained(preferences, items)
    case Single(preference) => if preference in items then Some(preference) else None
    case Nothing => None
  }

  /** The results of the selectors `ss`, in order, on the same items; each of
      them, when present, is one of the items. */
  function SelectEach<T(==)>(ss: seq<Selector<T>>, items: seq<T>): (rs: seq<Option<T>>)
    ensures |rs| == |ss|
    ensures forall i :: 0 <= i < |rs| && rs[i].Some? ==> rs[i].value in items
    decreases ss, 0
  {
    if ss == [] then [] else [Select(ss[0], items)] + SelectEach(ss[1..], items)
  }

  /** The first present result of `results`, scanning from the front; `None`
      when every result is absent. A present answer is one of the results. */
  function FirstSome<T>(results: seq<Option<T>>): (r: Option<T>)
    ensures r.Some? ==> r in results
  {
    if results == [] then None
    else if results[0].Some? then results[0]
    else FirstSome(results[1..])
  }

  /** The first of `preferences` that is among `items`, or `None`. A present
      answer is both a preference and a candidate. */
  function FirstContained<T(==)>(preferences: seq<T>, items: seq<T>): (r: Option<T>)
    ensures r.Some? ==> r.value in items && r.value in preferences
  {
    if preferences == [] then None
    else if preferences[0] in items then Some(preferences[0])
    else FirstContained(preferences[1..], items)
  }

  /** Reference definition of "first": the least index whose result is
      present, or `|results|` when there is none. */
  ghost function FirstSomeIndex<T>(results: seq<Option<T>>): (k: nat)
    ensures k <= |results|
    ensures forall j :: 0 <= j < k ==> results[j].None?
    ensures k < |results| ==> results[k].Some?
  {
    if results == [] || results[0].Some? then 0 else 1 + FirstSomeIndex(results[1..])
  }

  /** Reference definition of "first preference available": the least index of
      a preference among `items`, or `|preferences|` when there is none. */
  ghost function FirstContainedIndex<T>(preferences: seq<T>, items: seq<T>): (k: nat)
    ensures k <= |preferences|
    ensures forall j :: 0 <= j < k ==> preferences[j] !in items
    ensures k < |preferences| ==> preferences[k] in items
  {
    if preferences == [] || preferences[0] in items then 0
    else 1 + FirstContainedIndex(preferences[1..], items)
  }
}
