/** Laws of the selector combinators: first match wins, fallback along a
    chain, order sensitivity, and how the factories relate to each other. */
module SelectorLaws {
  import opened Wrappers
  import opened Selectors

  // ---------------------------------------------------------------------------
  // "First present result", against its reference definition

  /** `FirstSome` answers the result at the least index whose result is
      present, and `None` exactly when there is no such index. */
  lemma {:induction false} FirstSomeIsEarliest<T>(results: seq<Option<T>>)
    ensures var k := FirstSomeIndex(results);
      FirstSome(results) == if k < |results| then results[k] else None
  {
    if results != [] && results[0].None? {
      FirstSomeIsEarliest(results[1..]);
    }
  }

  /** A present result preceded only by absent ones is the answer. */
  lemma FirstSomeAt<T>(results: seq<Option<T>>, k: nat)
    requires k < |results| && results[k].Some?
    requires forall j :: 0 <= j < k ==> results[j].None?
    ensures FirstSome(results) == results[k]
  {
    FirstSomeIsEarliest(results);
    var m := FirstSomeIndex(results);
    assert !(m < k) && !(k < m);
  }

  /** The answer is absent exactly when every result is absent. */
  lemma FirstSomeNoneIff<T>(results: seq<Option<T>>)
    ensures FirstSome(results).None? <==> forall i :: 0 <= i < |results| ==> results[i].None?
  {
    FirstSomeIsEarliest(results);
  }

  /** Scanning a concatenation scans the first part, then the second. */
  lemma {:induction false} FirstSomeAppend<T>(a: seq<Option<T>>, b: seq<Option<T>>)
    ensures FirstSome(a + b) == if FirstSome(a).Some? then FirstSome(a) else FirstSome(b)
  {
    if a == [] {
      assert a + b == b;
    } else {
      assert (a + b)[0] == a[0];
      assert (a + b)[1..] == a[1..] + b;
      FirstSomeAppend(a[1..], b);
    }
  }

  /** `SelectEach` runs each selector on the same items. */
  lemma {:induction false} SelectEachAt<T>(ss: seq<Selector<T>>, items: seq<T>, i: nat)
    requires i < |ss|
    ensures SelectEach(ss, items)[i] == Select(ss[i], items)
  {
    if i > 0 {
      SelectEachAt(ss[1..], items, i - 1);
    }
  }

  /** Running a concatenation of selectors runs each part. */
  lemma SelectEachAppend<T>(a: seq<Selector<T>>, b: seq<Selector<T>>, items: seq<T>)
    ensures SelectEach(a + b, items) == SelectEach(a, items) + SelectEach(b, items)
  {
    var l, r := SelectEach(a + b, items), SelectEach(a, items) + SelectEach(b, items);
    forall i | 0 <= i < |l| ensures l[i] == r[i] {
      SelectEachAt(a + b, items, i);
      if i < |a| {
        SelectEachAt(a, items, i);
      } else {
        SelectEachAt(b, items, i - |a|);
      }
    }
  }

  // ---------------------------------------------------------------------------
  // firstAvailable(function, functions...)

  /** A chain answers the first present result of its selectors, head first,
      then the tail in order. */
  lemma ChainIsFirstAvailable<T>(head: Selector<T>, tail: seq<Selector<T>>, items: seq<T>)
    ensures Select(Chain(head, tail), items) == FirstSome(SelectEach([head] + tail, items))
  {
    assert ([head] + tail)[1..] == tail;
  }

  /** When the head answers, the chain answers the same. */
  lemma ChainHeadAnswers<T>(head: Selector<T>, tail: seq<Selector<T>>, items: seq<T>)
    requires Select(head, items).Some?
    ensures Select(Chain(head, tail), items) == Select(head, items)
  {
  }

  /** When the head does not answer, the chain answers what the earliest
      answering tail selector answers. */
  lemma ChainFirstAnswer<T>(head: Selector<T>, tail: seq<Selector<T>>, items: seq<T>, k: nat)
    requires Select(head, items).None?
    requires k < |tail| && Select(tail[k], items).Some?
    requires forall j :: 0 <= j < k ==> Select(tail[j], items).None?
    ensures Select(Chain(head, tail), items) == Select(tail[k], items)
  {
    var rs := SelectEach(tail, items);
    forall j | 0 <= j < k ensures rs[j].None? {
      SelectEachAt(tail, items, j);
    }
    SelectEachAt(tail, items, k);
    FirstSomeAt(rs, k);
  }

  /** A chain answers nothing exactly when its head and every tail selector
      answer nothing on the same items. */
  lemma ChainNoneIff<T>(head: Selector<T>, tail: seq<Selector<T>>, items: seq<T>)
    ensures Select(Chain(head, tail), items).None? <==>
      Select(head, items).None? && forall i :: 0 <= i < |tail| ==> Select(tail[i], items).None?
  {
    var rs := SelectEach(tail, items);
    FirstSomeNoneIff(rs);
    forall i | 0 <= i < |tail| ensures rs[i] == Select(tail[i], items) {
      SelectEachAt(tail, items, i);
    }
  }

  /** A chain with an empty tail behaves as its head. */
  lemma ChainOfOne<T>(head: Selector<T>, items: seq<T>)
    ensures Select(Chain(head, []), items) == Select(head, items)
  {
  }

  /** When the head answers nothing, the chain falls back to the chain of the
      remaining selectors. */
  lemma ChainFallsBack<T>(head: Selector<T>, next: Selector<T>, rest: seq<Selector<T>>, items: seq<T>)
    requires Select(head, items).None?
    ensures Select(Chain(head, [next] + rest), items) == Select(Chain(next, rest), items)
  {
    assert ([next] + rest)[0] == next;
    assert ([next] + rest)[1..] == rest;
  }

  /** Order matters: of two selectors that both answer, the one placed first
      decides the chain's answer. */
  lemma ChainOrderSensitive<T>(a: Selector<T>, b: Selector<T>, items: seq<T>)
    requires Select(a, items).Some? && Select(b, items).Some?
    ensures Select(Chain(a, [b]), items) == Select(a, items)
    ensures Select(Chain(b, [a]), items) == Select(b, items)
  {
  }

  /** A chain used as the head of a chain is the same as its selectors
      written out in one chain. */
  lemma ChainFlatten<T>(head: Selector<T>, inner: seq<Selector<T>>, outer: seq<Selector<T>>, items: seq<T>)
    ensures Select(Chain(Chain(head, inner), outer), items) == Select(Chain(head, inner + outer), items)
  {
    SelectEachAppend(inner, outer, items);
    FirstSomeAppend(SelectEach(inner, items), SelectEach(outer, items));
  }

  /** `nothing()` is neutral in a chain, on either side. */
  lemma NothingIsNeutral<T>(s: Selector<T>, items: seq<T>)
    ensures Select(Chain(Nothing, [s]), items) == Select(s, items)
    ensures Select(Chain(s, [Nothing]), items) == Select(s, items)
  {
  }

  // ---------------------------------------------------------------------------
  // firstAvailable(preferences...)

  /** The preference selector answers the preference at the least index that
      is among the items, and nothing when no preference is. */
  lemma {:induction false} PreferencesIsEarliest<T>(preferences: seq<T>, items: seq<T>)
    ensures var k := FirstContainedIndex(preferences, items);
      Select(Preferences(preferences), items) ==
        if k < |preferences| then Some(preferences[k]) else None
  {
    if preferences != [] && preferences[0] !in items {
      PreferencesIsEarliest(preferences[1..], items);
    }
  }

  /** A preference among the items, all earlier ones absent, is the answer. */
  lemma PreferencesFirstAvailable<T>(preferences: seq<T>, items: seq<T>, k: nat)
    requires k < |preferences| && preferences[k] in items
    requires forall j :: 0 <= j < k ==> preferences[j] !in items
    ensures Select(Preferences(preferences), items) == Some(preferences[k])
  {
    PreferencesIsEarliest(preferences, items);
    var m := FirstContainedIndex(preferences, items);
    assert !(m < k) && !(k < m);
  }

  /** The preference selector answers nothing exactly when no preference is
      among the items. */
  lemma PreferencesNoneIff<T>(preferences: seq<T>, items: seq<T>)
    ensures Select(Preferences(preferences), items).None? <==>
      forall i :: 0 <= i < |preferences| ==> preferences[i] !in items
  {
    PreferencesIsEarliest(preferences, items);
  }

  /** With no preferences, or with no candidates, nothing is selected. */
  lemma PreferencesEmpty<T>(preferences: seq<T>, items: seq<T>)
    ensures Select(Preferences([]), items) == None
    ensures Select(Preferences(preferences), []) == None
  {
    PreferencesNoneIff(preferences, []);
  }

  /** Order matters: of two distinct candidates, the one preferred first wins. */
  lemma PreferencesOrderSensitive<T>(p: T, q: T, items: seq<T>)
    requires p in items && q in items
    ensures Select(Preferences([p, q]), items) == Some(p)
    ensures Select(Preferences([q, p]), items) == Some(q)
  {
  }

  /** A preference appended at the end is consulted only when no earlier
      preference is among the items. */
  lemma {:induction false} PreferencesAppend<T>(preferences: seq<T>, p: T, items: seq<T>)
    ensures Select(Preferences(preferences + [p]), items) ==
      var before := Select(Preferences(preferences), items);
      if before.Some? then before else Select(Single(p), items)
  {
    if preferences == [] {
      assert preferences + [p] == [p];
    } else {
      assert (preferences + [p])[0] == preferences[0];
      assert (preferences + [p])[1..] == preferences[1..] + [p];
      PreferencesAppend(preferences[1..], p, items);
    }
  }

  /** Inserting a preference changes nothing when it can never be the answer
      at that position: it already occurs earlier, or it is not among the
      items. */
  lemma {:induction false} PreferencesInsertShadowed<T>(preferences: seq<T>, i: nat, p: T, items: seq<T>)
    requires i <= |preferences|
    requires p in preferences[..i] || p !in items
    ensures Select(Preferences(preferences[..i] + [p] + preferences[i..]), items) ==
      Select(Preferences(preferences), items)
  {
    var longer := preferences[..i] + [p] + preferences[i..];
    if i == 0 {
      assert longer == [p] + preferences;
      assert longer[1..] == preferences;
    } else {
      var rest := preferences[1..];
      assert longer[0] == preferences[0];
      assert longer[1..] == rest[..i - 1] + [p] + rest[i - 1..];
      if preferences[0] !in items {
        assert p in preferences[..i] ==> p == preferences[0] || p in rest[..i - 1];
        PreferencesInsertShadowed(rest, i - 1, p, items);
      }
    }
  }

  /** Repeating a preference anywhere after an earlier occurrence of it
      changes nothing. */
  lemma PreferencesRepeatHarmless<T>(preferences: seq<T>, i: nat, p: T, items: seq<T>)
    requires i <= |preferences| && p in preferences[..i]
    ensures Select(Preferences(preferences[..i] + [p] + preferences[i..]), items) ==
      Select(Preferences(preferences), items)
  {
    PreferencesInsertShadowed(preferences, i, p, items);
  }

  /** A preference list behaves as the chain of `single` selectors of its
      preferences, in the same order. */
  lemma {:induction false} PreferencesAsChain<T>(p: T, ps: seq<T>, items: seq<T>)
    ensures Select(Preferences([p] + ps), items) ==
      Select(Chain(Single(p), seq(|ps|, i requires 0 <= i < |ps| => Single(ps[i]))), items)
  {
    var singles := seq(|ps|, i requires 0 <= i < |ps| => Single(ps[i]));
    assert ([p] + ps)[0] == p;
    assert ([p] + ps)[1..] == ps;
    if p !in items && ps != [] {
      PreferencesAsChain(ps[0], ps[1..], items);
      assert [ps[0]] + ps[1..] == ps;
      var rest := seq(|ps[1..]|, i requires 0 <= i < |ps[1..]| => Single(ps[1..][i]));
      assert singles == [Single(ps[0])] + rest;
      ChainFallsBack(Single(p), Single(ps[0]), rest, items);
    }
  }

  // ---------------------------------------------------------------------------
  // single(preference) and nothing()

  /** `single(p)` answers `p` exactly when `p` is a candidate, and nothing
      exactly when it is not. */
  lemma SingleIff<T>(p: T, items: seq<T>)
    ensures Select(Single(p), items) == Some(p) <==> p in items
    ensures Select(Single(p), items) == None <==> p !in items
  {
  }

  /** `single(p)` agrees with a preference list holding only `p`. */
  lemma SingleIsOnePreference<T>(p: T, items: seq<T>)
    ensures Select(Single(p), items) == Select(Preferences([p]), items)
  {
  }

  /** `nothing()` answers nothing, whatever the candidates. */
  lemma NothingNeverSelects<T>(items: seq<T>)
    ensures Select(Nothing, items) == None
  {
  }
}
