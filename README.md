# Selector functions of Fotoapparat

This project models `io.fotoapparat.parameter.selector.Selectors` in Dafny. The class builds
selector functions. A selector is given a collection of candidate items and returns one of them.
It returns `null` when it selects nothing. The class has four factories:

- `firstAvailable(function, functions...)` is a chain of selectors. It asks the head selector
  first, then each further selector in order, all on the same items. It returns the first
  non-null answer.
- `firstAvailable(preferences...)` takes a ranked list of items. It returns the first preference
  that the candidates contain.
- `single(preference)` returns the preference if the candidates contain it.
- `nothing()` always returns `null`.

The model works as follows:

- `Selectors.Selector<T>` has one constructor per factory: `Chain(head, tail)`,
  `Preferences(preferences)`, `Single(preference)` and `Nothing`. A chain keeps its head
  separate, so an empty chain cannot be built. The Java signature has the same effect.
- `Select(s, items)` is what the anonymous `select` method of each factory computes.
  `Wrappers.Option` takes the place of `null`: `None` means "no selection".
- The candidate collection is a `seq<T>`. The Java code only calls `contains` on it, and
  Dafny's `in` stands for that.
- The two `for` loops with early return are the methods in `SelectorRun`. `RunChain` and
  `RunPreferences` are proved to compute `Select`. `RunChain` also reports, as a ghost count,
  how many selectors it asked. Those are exactly the selectors up to the first one that
  answers.
- `SelectorLaws` holds the laws: first match wins, fallback along a chain, order sensitivity,
  flattening of nested chains, `nothing()` as a neutral element, and how `single` and the
  preference list relate to chains.

Files:

- `wrappers.dfy`: `Option`.
- `selectors.dfy`: the datatype, `Select` and its helpers, and reference definitions of "first".
- `selector_laws.dfy`: the lemmas.
- `selector_run.dfy`: the imperative `select` methods.

## Model

| member | source | states |
|---|---|---|
| `Selectors.Select` | library/src/main/java/io/fotoapparat/parameter/selector/Selectors.java:15-89 | Any answer of any selector is one of the candidate items. No factory invents an item. This holds for chains because it holds for their parts. |
| `Selectors.SelectEach` | library/src/main/java/io/fotoapparat/parameter/selector/Selectors.java:27-28 | Runs each tail selector on the same items. Gives one result per selector, and every present result is a candidate. |
| `Selectors.FirstSome` | library/src/main/java/io/fotoapparat/parameter/selector/Selectors.java:27-35 | The chain's scan for the first non-null result. A present answer is one of the scanned results. |
| `Selectors.FirstContained` | library/src/main/java/io/fotoapparat/parameter/selector/Selectors.java:52-58 | The preference scan. A present answer is both a preference and a candidate. |
| `Selectors.FirstSomeIndex` | library/src/main/java/io/fotoapparat/parameter/selector/Selectors.java:27-33 | Reference meaning of "first non-null": the least index with a present result. Every earlier result is absent. The index is the length when there is no such result. |
| `Selectors.FirstContainedIndex` | library/src/main/java/io/fotoapparat/parameter/selector/Selectors.java:52-56 | Reference meaning of "first available preference": the least index of a contained preference. Every earlier preference is absent from the items. |
| `SelectorLaws.FirstSomeIsEarliest` | library/src/main/java/io/fotoapparat/parameter/selector/Selectors.java:27-35 | The scan answers the result at the least present index. It answers nothing when there is none. |
| `SelectorLaws.FirstSomeAt` | library/src/main/java/io/fotoapparat/parameter/selector/Selectors.java:27-33 | A present result with only absent results before it is the answer. |
| `SelectorLaws.FirstSomeNoneIff` | library/src/main/java/io/fotoapparat/parameter/selector/Selectors.java:27-35 | The scan answers nothing if and only if every result is absent. |
| `SelectorLaws.FirstSomeAppend` | library/src/main/java/io/fotoapparat/parameter/selector/Selectors.java:27-35 | Scanning `a + b` scans `a`. It reaches `b` only when nothing in `a` answers. |
| `SelectorLaws.SelectEachAt` | library/src/main/java/io/fotoapparat/parameter/selector/Selectors.java:27-28 | The i-th result of a run is the i-th selector's answer on the same items. |
| `SelectorLaws.SelectEachAppend` | library/src/main/java/io/fotoapparat/parameter/selector/Selectors.java:27-28 | Running a concatenation of selectors runs each part in turn. |
| `SelectorLaws.ChainIsFirstAvailable` | library/src/main/java/io/fotoapparat/parameter/selector/Selectors.java:10-35 | A chain answers the first present result among head then tail, in argument order. |
| `SelectorLaws.ChainHeadAnswers` | library/src/main/java/io/fotoapparat/parameter/selector/Selectors.java:22-25 | When the head answers, the chain returns the head's answer. |
| `SelectorLaws.ChainFirstAnswer` | library/src/main/java/io/fotoapparat/parameter/selector/Selectors.java:27-33 | When the head answers nothing, the chain returns the answer of the earliest tail selector that answers. |
| `SelectorLaws.ChainNoneIff` | library/src/main/java/io/fotoapparat/parameter/selector/Selectors.java:12-13 | A chain returns nothing if and only if the head and every tail selector return nothing on the same items. |
| `SelectorLaws.ChainOfOne` | library/src/main/java/io/fotoapparat/parameter/selector/Selectors.java:22-35 | A chain with an empty tail behaves as its head. |
| `SelectorLaws.ChainFallsBack` | library/src/main/java/io/fotoapparat/parameter/selector/Selectors.java:27-33 | When the head answers nothing, the chain behaves as the chain of the remaining selectors. |
| `SelectorLaws.ChainOrderSensitive` | library/src/main/java/io/fotoapparat/parameter/selector/Selectors.java:11-12 | Two selectors that both answer: whichever comes first decides, in either order. |
| `SelectorLaws.ChainFlatten` | library/src/main/java/io/fotoapparat/parameter/selector/Selectors.java:22-35 | A chain as the head of a chain equals one chain of all their selectors in order. |
| `SelectorLaws.NothingIsNeutral` | library/src/main/java/io/fotoapparat/parameter/selector/Selectors.java:79-89 | `nothing()` before or after a selector in a chain does not change that selector's answer. |
| `SelectorLaws.PreferencesIsEarliest` | library/src/main/java/io/fotoapparat/parameter/selector/Selectors.java:52-58 | The preference selector answers the contained preference of least index. It answers nothing when no preference is contained. |
| `SelectorLaws.PreferencesFirstAvailable` | library/src/main/java/io/fotoapparat/parameter/selector/Selectors.java:52-56 | A contained preference with every earlier preference absent is the answer. |
| `SelectorLaws.PreferencesNoneIff` | library/src/main/java/io/fotoapparat/parameter/selector/Selectors.java:42-43 | The preference selector answers nothing if and only if no preference is contained. |
| `SelectorLaws.PreferencesEmpty` | library/src/main/java/io/fotoapparat/parameter/selector/Selectors.java:52-58 | An empty preference list and an empty candidate collection both give no selection. |
| `SelectorLaws.PreferencesOrderSensitive` | library/src/main/java/io/fotoapparat/parameter/selector/Selectors.java:41 | Of two contained preferences, the one listed first wins, in either order. |
| `SelectorLaws.PreferencesAppend` | library/src/main/java/io/fotoapparat/parameter/selector/Selectors.java:52-58 | A preference added at the end is consulted only when no earlier preference is contained. |
| `SelectorLaws.PreferencesInsertShadowed` | library/src/main/java/io/fotoapparat/parameter/selector/Selectors.java:52-56 | Inserting a preference at any position changes nothing when it occurs earlier in the list or is not among the items. |
| `SelectorLaws.PreferencesRepeatHarmless` | library/src/main/java/io/fotoapparat/parameter/selector/Selectors.java:52-56 | Repeating a preference at any position after an earlier occurrence of it does not change the answer. |
| `SelectorLaws.PreferencesAsChain` | library/src/main/java/io/fotoapparat/parameter/selector/Selectors.java:45-58 | A preference list behaves as the chain of `single` selectors of its preferences, in the same order. |
| `SelectorLaws.SingleIff` | library/src/main/java/io/fotoapparat/parameter/selector/Selectors.java:72-74 | `single(p)` returns `p` if and only if the items contain `p`. Otherwise it returns nothing. |
| `SelectorLaws.SingleIsOnePreference` | library/src/main/java/io/fotoapparat/parameter/selector/Selectors.java:68-76 | `single(p)` agrees with a preference list holding only `p`. |
| `SelectorLaws.NothingNeverSelects` | library/src/main/java/io/fotoapparat/parameter/selector/Selectors.java:80-87 | `nothing()` returns nothing for every candidate collection. |
| `SelectorRun.Run` | library/src/main/java/io/fotoapparat/parameter/selector/Selectors.java:17-88 | Calling `select` on any selector computes `Select`. |
| `SelectorRun.RunChain` | library/src/main/java/io/fotoapparat/parameter/selector/Selectors.java:21-35 | The chain loop computes `Select` of the chain. It asks selectors only up to the first that answers, so it asks no tail selector when the head answers. It asks every selector when it returns nothing. |
| `SelectorRun.RunPreferences` | library/src/main/java/io/fotoapparat/parameter/selector/Selectors.java:50-59 | The preference loop computes `Select` of the preference selector. |

## Left out

- The `SelectorFunction` interface and user-written implementations of it. Its source is not
  part of this model. The model has a closed set of selectors, the four factories.
- `null` itself. Absence is `Option.None`. A `null` preference or a `null` candidate is not
  modelled, and neither is a `null` varargs array.
- `Chain`: does not model a `null` element of `functions`. Java throws a `NullPointerException`
  at line 28 when the loop reaches such an element. The model's sequences hold only selectors.
- `Select`: does not model a `null` `items` collection. Java throws a `NullPointerException` at
  lines 53 and 72 (the `contains` calls). The model's items are always a sequence.
- `Chain` and `Preferences`: do not model aliasing of the varargs array. Both `firstAvailable`
  overloads keep the caller's array without copying it: `functions` (line 16, read at line 27)
  and `preferences` (line 45, read at line 52). A caller who later writes into that array changes
  what the selector returns. The model's `seq` is a value taken when the selector is built, so
  it describes a selector whose array is never written after construction.
- The `@SuppressWarnings("unchecked")` raw-type casts at lines 16, 19 and 28. They have no
  behaviour.
- The `equals`/`contains` semantics of particular `Collection` classes. Membership is
  mathematical equality, and the collection is a sequence.
- Idempotence (asking the same selector twice gives the same answer) is not stated as a lemma.
  `Select` is a function and the methods read no state, so it holds by construction.
- Callers of selectors, such as camera capability resolution, are not part of this model.
