# Localization store: a verified model

Everit Localization is a service that stores short localized strings under a
(key, locale) pair and answers lookups through a fallback chain. For every key
that holds values, one locale is the key's default. A lookup for `en_GB` tries
`en_GB`, then the cropped `en`, then the key's default locale, and finally a
value supplied by the caller (or the key itself). The interface
`org.everit.osgi.localization.Localization` states these rules in its
documentation; this project is a reference implementation of that contract in
Dafny, with the rules proved.

The project has four files:

- `wrappers.dfy`: `Option`, which stands for Java's `null` and `java.util.Optional`.
- `locales.dfy`: `Locale` has a language and an optional script, region and
  variant. `Candidates` builds the cropping chain that lookups probe.
- `store.dfy`: the store as a value. `Store` maps each key to its
  locale→value map and records each key's default locale. It holds the invariant
  `Valid`, the queries (`GetExactValue`, `GetSupportedLocalesForKey`, `Resolve`,
  `ValueOrKey`), one transition function per mutator (each with its error
  cases), and the lemmas.
- `service.dfy`: the class `Localization`. It holds the two maps and a cache of
  resolved lookups. Its methods change state step by step, and each is
  specified by the transition function it implements. Its `Valid()` predicate
  adds cache coherence: every cached answer equals what resolving the request
  against the current store would return. Every mutator drops the cached
  answers for the key it changed. The `Greeting…` methods are clients that
  walk through the documented lookup example and state its outcomes as assertions.

Errors are values of the datatype `Error`:
- `NullArgument`: a required argument is null.
- `ValueTooLong`: a value has more than 2000 characters.
- `EntryDoesNotExist`: the `EntryDoesNotExistException` of the interface.
- `DeletingNotAllowed`: the `DeletingNotAllowedException` of the interface.

A call that fails leaves the store and the cache unchanged.

Decisions where the documentation leaves room or contradicts itself:
- Three-argument `getValue`. The description (Localization.java:81-82) says the
  key is returned when nothing matches. The `@return` clause (90-92) says
  `defaultValue` is returned. The model follows `@return`: the three-argument
  form returns `defaultValue`, and returns null when `defaultValue` is null.
  The two-argument form returns the key.
- `updateValue` only changes an entry that already exists ("Updating an
  existing ... data"). It fails with `EntryDoesNotExist` when there is none.
  This error is the model's own choice: the interface documents
  `EntryDoesNotExistException` only for `switchDefaultLocale`, and
  `updateValue`'s "@return The number of rows affected" would also allow a
  silent update of zero rows.
- `addValue` on a (key, locale) pair that already holds a value overwrites it.
  The key's default does not change. The interface does not say otherwise.
- `updateValue`'s parameter comments say a null argument throws
  `IllegalArgumentException`, while its `@throws` clause says
  `NullPointerException`. Both become `NullArgument`.
- "The default locale" in the `getValue` fallback is the key's own default
  locale, the one that `addValue` and `switchDefaultLocale` maintain.

## Model

| member | source | states |
|---|---|---|
| Locales.Crop | core/src/main/java/org/everit/osgi/localization/Localization.java:79-81 | one cropping step yields the truncation of the locale that is one subtag less specific (variant dropped first, then region, then script), keeping the language and every other subtag; only a bare language cannot be cropped |
| Locales.Candidates | core/src/main/java/org/everit/osgi/localization/Localization.java:79-82 | the chain starts with the requested locale, ends with its bare language, and is strictly ordered from most to least specific |
| Locales.CandidatesDistinct | core/src/main/java/org/everit/osgi/localization/Localization.java:79-82 | no locale is probed twice |
| Locales.CandidatesAreTruncations | core/src/main/java/org/everit/osgi/localization/Localization.java:79-82 | the chain holds exactly the truncations of the requested locale (variant, then region, then script dropped) and nothing else |
| LocalizationStore.FirstStored | core/src/main/java/org/everit/osgi/localization/Localization.java:79-82 | returns the least chain index holding a value, or none when no chain locale holds one |
| LocalizationStore.GetSupportedLocalesForKey | core/src/main/java/org/everit/osgi/localization/Localization.java:64-71 | a locale is supported for a key exactly when getExactValue finds a value for it there |
| LocalizationStore.ExactValueNoFallback | core/src/main/java/org/everit/osgi/localization/Localization.java:52-62 | at a locale of a known key that holds no value of its own, getExactValue finds nothing even though getValue answers |
| LocalizationStore.ValueOrKey | core/src/main/java/org/everit/osgi/localization/Localization.java:73-82 | the two-argument lookup answers with one of the key's values or with the key itself, and with the key when the key has no values |
| LocalizationStore.Resolve | core/src/main/java/org/everit/osgi/localization/Localization.java:78-96 | the answer is always one of the key's stored values or the caller's default, and is never absent when the caller supplies a default |
| LocalizationStore.CheckArguments | core/src/main/java/org/everit/osgi/localization/Localization.java:36-43 | an argument is refused exactly when key, locale or value is null or the value exceeds 2000 characters; a null argument gives NullArgument, an over-long value ValueTooLong |
| LocalizationStore.Add | core/src/main/java/org/everit/osgi/localization/Localization.java:28-44 | null or over-long arguments fail; otherwise the value is stored at (key, locale), the locale joins the key's locales, a new key takes the locale as default, an existing key keeps its default, and every other entry and key is unchanged |
| LocalizationStore.Update | core/src/main/java/org/everit/osgi/localization/Localization.java:137-152 | argument errors as for addValue; a missing entry fails with EntryDoesNotExist; otherwise only the value at (key, locale) changes, and no default and no locale set changes |
| LocalizationStore.RemoveValue | core/src/main/java/org/everit/osgi/localization/Localization.java:110-123 | the call fails exactly when an argument is null (NullArgument) or the locale is the default while other locales hold values (DeletingNotAllowed); a missing entry has no effect; otherwise the locale leaves the key, the key's default stays unless the key is emptied, other entries and keys are unchanged, and the last value removes the key and its default |
| LocalizationStore.RemoveKey | core/src/main/java/org/everit/osgi/localization/Localization.java:98-108 | a null key fails; otherwise it returns the number of locales the key had and leaves the key with no locales and no default, other keys unchanged |
| LocalizationStore.SwitchDefault | core/src/main/java/org/everit/osgi/localization/Localization.java:125-135 | fails with EntryDoesNotExist exactly when (key, locale) has no value; otherwise the locale becomes the key's default and no value changes |
| LocalizationStore.EmptyValid | core/src/main/java/org/everit/osgi/localization/Localization.java:28-30 | the empty store satisfies the invariant |
| LocalizationStore.AddPreservesValid | core/src/main/java/org/everit/osgi/localization/Localization.java:28-44 | addValue keeps one default per non-empty key, stored, and all values within 2000 characters |
| LocalizationStore.UpdatePreservesValid | core/src/main/java/org/everit/osgi/localization/Localization.java:137-152 | updateValue keeps the invariant |
| LocalizationStore.RemoveValuePreservesValid | core/src/main/java/org/everit/osgi/localization/Localization.java:110-123 | removeValue keeps the invariant, so the default is never removed while others remain |
| LocalizationStore.RemoveKeyPreservesValid | core/src/main/java/org/everit/osgi/localization/Localization.java:98-108 | removeKey keeps the invariant |
| LocalizationStore.SwitchDefaultPreservesValid | core/src/main/java/org/everit/osgi/localization/Localization.java:125-135 | switchDefaultLocale keeps the invariant |
| LocalizationStore.DefaultExactlyWhenValues | core/src/main/java/org/everit/osgi/localization/Localization.java:28-30 | in a valid store a key has a default exactly when it has supported locales, and the default is one of them |
| LocalizationStore.AddToNewKey | core/src/main/java/org/everit/osgi/localization/Localization.java:28-31 | the first value of a key succeeds, the key then supports exactly that locale, and that locale is its default |
| LocalizationStore.AddThenRemoveValue | core/src/main/java/org/everit/osgi/localization/Localization.java:110-123 | removing the sole value of a freshly added key restores the store exactly |
| LocalizationStore.RemoveKeyTwice | core/src/main/java/org/everit/osgi/localization/Localization.java:98-108 | a second removeKey returns 0 and changes nothing |
| LocalizationStore.SwitchThenRemoveFormerDefault | core/src/main/java/org/everit/osgi/localization/Localization.java:119-135 | after the default moves to another stored locale, removing the former default is allowed |
| LocalizationStore.ExactValueAgreesWithResolve | core/src/main/java/org/everit/osgi/localization/Localization.java:52-71 | getExactValue finds a value exactly at the key's supported locales, and there getValue returns the same value |
| LocalizationStore.ResolveExact | core/src/main/java/org/everit/osgi/localization/Localization.java:79-81 | a value stored at the requested locale is returned first |
| LocalizationStore.ResolveFirstCandidate | core/src/main/java/org/everit/osgi/localization/Localization.java:79-82 | otherwise the value at the most specific crop holding one is returned |
| LocalizationStore.ResolveDefault | core/src/main/java/org/everit/osgi/localization/Localization.java:81-90 | with no crop stored, or a null locale, a known key answers with its default locale's value |
| LocalizationStore.ResolveUnknownKey | core/src/main/java/org/everit/osgi/localization/Localization.java:73-96 | a key without values answers with the caller's default in the three-argument form and with the key itself in the two-argument form |
| LocalizationStore.ResolveNeverFallsThrough | core/src/main/java/org/everit/osgi/localization/Localization.java:90-92 | a key that has values always answers with one of them, never with the caller's default |
| LocalizationStore.ResolveDependsOnKeyOnly | core/src/main/java/org/everit/osgi/localization/Localization.java:78-96 | a lookup depends only on the looked-up key's values and default |
| LocalizationService.Localization.constructor | core/src/main/java/org/everit/osgi/localization/Localization.java:26 | a new service is empty, valid and has an empty cache |
| LocalizationService.Localization.Invalidate | core/src/main/java/org/everit/osgi/localization/Localization.java:46-50 | dropping one key's cached answers restores cache coherence after that key changed |
| LocalizationService.Localization.AddValue | core/src/main/java/org/everit/osgi/localization/Localization.java:28-44 | performs Add on the fields, keeps the invariant and the cache coherent, and leaves no cached answer for the key |
| LocalizationService.Localization.UpdateValue | core/src/main/java/org/everit/osgi/localization/Localization.java:137-152 | performs Update on the fields, keeps the invariant and the cache coherent, and leaves no cached answer for the key |
| LocalizationService.Localization.RemoveValue | core/src/main/java/org/everit/osgi/localization/Localization.java:110-123 | performs RemoveValue on the fields, keeps the invariant and the cache coherent, and leaves no cached answer for a key it changed |
| LocalizationService.Localization.RemoveKey | core/src/main/java/org/everit/osgi/localization/Localization.java:98-108 | performs RemoveKey and returns its count, keeps the invariant and the cache coherent, and leaves no cached answer for the key |
| LocalizationService.Localization.SwitchDefaultLocale | core/src/main/java/org/everit/osgi/localization/Localization.java:125-135 | performs SwitchDefault on the fields, keeps the invariant and the cache coherent, and leaves no cached answer for the key |
| LocalizationService.Localization.ClearCache | core/src/main/java/org/everit/osgi/localization/Localization.java:46-50 | empties the cache and leaves the store, and so every later lookup, unchanged |
| LocalizationService.Localization.GetValueOrDefault | core/src/main/java/org/everit/osgi/localization/Localization.java:78-96 | a null key fails; otherwise the answer, cached or not, is Resolve on the current store, and the store is unchanged |
| LocalizationService.Localization.GetValue | core/src/main/java/org/everit/osgi/localization/Localization.java:73-82 | a null key fails; otherwise the answer is the lookup with the key as value of last resort |

## Left out

- Persistence, OSGi service registration and any database implementation are not modelled. The interface names no backend; the store is held in memory.
- Concurrency and per-key locking are not modelled. The model is sequential, so every operation is atomic by construction.
- Locale cropping is simple truncation of the subtags: variant, then region, then script. `java.util.ResourceBundle` also tries forms such as language_region without the script, and it handles extensions and special script rules. Neither is modelled.
- Locales are assumed to be normalized before they reach the store (lower-case language, upper-case region, no empty subtag). The model compares subtags as plain strings, so `EN` and `en`, or an empty script and an absent one, are different locales here, while `java.util.Locale` treats them as equal.
- Value length is the length of a character sequence. Java's UTF-16 code units are not modelled.
- The exception classes (NullPointerException, IllegalArgumentException) are not distinguished. The model keeps only the cause, as `NullArgument` or `ValueTooLong`.
- The interface does not document what `switchDefaultLocale`, `getExactValue` and `getSupportedLocalesForKey` do with a null argument, so the model gives them non-null parameters.
- `getSupportedLocalesForKey` returns an array in Java. The model returns a set, because the interface promises no order.
- `removeKey` returns a `long` in Java. The model returns an unbounded `nat`.
- Bulk updates made outside the service's API are not modelled. `clearCache` exists for those, so the model states only that clearing keeps every lookup unchanged.
