/**
 * The store of localized values as a value: key -> (locale -> value) plus the
 * default locale of every key. The transition functions say what each mutator
 * of the Localization service does, including its error cases; the queries and
 * the fallback resolution are functions over the same value.
 */
module LocalizationStore {
  import opened Wrappers
  import opened Locales

  /** Longest value the store accepts, in characters. */
  const MaxValueLength: nat := 2000

  /** Why a call is refused. NullArgument and ValueTooLong are the argument errors; the other two name the exceptions of the interface. */
  datatype Error = NullArgument | ValueTooLong | EntryDoesNotExist | DeletingNotAllowed

  datatype Result<T> = Ok(value: T) | Err(error: Error)

  datatype Store = Store(values: map<string, map<Locale, string>>, defaults: map<string, Locale>)

  const Empty: Store := Store(map[], map[])

  /**
   * The store invariant: exactly the keys holding values have a default locale
   * (a map gives each key at most one), that locale holds a value, and no value
   * is longer than MaxValueLength.
   */
  ghost predicate Valid(s: Store) {
    && s.defaults.Keys == s.values.Keys
    && (forall k | k in s.values :: s.defaults[k] in s.values[k])
    && (forall k, l | k in s.values && l in s.values[k] :: |s.values[k][l]| <= MaxValueLength)
  }

  // ---------------------------------------------------------------- queries

  /** getExactValue: the value stored at (key, locale), with no fallback. */
  function GetExactValue(s: Store, key: string, locale: Locale): Option<string> {
    if key in s.values && locale in s.values[key] then Some(s.values[key][locale]) else None
  }

  /** getSupportedLocalesForKey: every locale holding a value for the key. */
  function GetSupportedLocalesForKey(s: Store, key: string): (r: set<Locale>)
    ensures forall l :: l in r <==> GetExactValue(s, key, l).Some?
  {
    if key in s.values then s.values[key].Keys else {}
  }

  /** The key's default locale, if the key has one. */
  function DefaultLocale(s: Store, key: string): Option<Locale> {
    if key in s.defaults then Some(s.defaults[key]) else None
  }

  /** The values stored for one key (empty for an unknown key). */
  function Group(s: Store, key: string): map<Locale, string> {
    if key in s.values then s.values[key] else map[]
  }

  /** Two stores hold the same values and the same default for `key`. */
  predicate AgreeOn(s1: Store, s2: Store, key: string) {
    Group(s1, key) == Group(s2, key) && DefaultLocale(s1, key) == DefaultLocale(s2, key)
  }

  /** The least index of the chain whose locale holds a value in `group`. */
  function FirstStored(group: map<Locale, string>, chain: seq<Locale>): (r: Option<nat>)
    ensures r.Some? ==> r.value < |chain| && chain[r.value] in group
    ensures r.Some? ==> forall j :: 0 <= j < r.value ==> chain[j] !in group
    ensures r.None? ==> forall j :: 0 <= j < |chain| ==> chain[j] !in group
  {
    if chain == [] then None
    else if chain[0] in group then Some(0)
    else match FirstStored(group, chain[1..])
      case None => None
      case Some(i) => Some(i + 1)
  }

  /**
   * getValue(key, locale, defaultValue): the value at the first locale of the
   * requested locale's chain that holds one, else the value at the key's default
   * locale, else `defaultValue`. An absent locale goes straight to the default.
   */
  function Resolve(s: Store, key: string, locale: Option<Locale>, defaultValue: Option<string>): (r: Option<string>)
    ensures defaultValue.Some? ==> r.Some?
    ensures r == defaultValue || (r.Some? && r.value in Group(s, key).Values)
  {
    var group := Group(s, key);
    var chain := if locale.Some? then Candidates(locale.value) else [];
    match FirstStored(group, chain)
    case Some(i) => Some(group[chain[i]])
    case None =>
      if key in s.defaults && s.defaults[key] in group then Some(group[s.defaults[key]])
      else defaultValue
  }

  /** getValue(key, locale): as Resolve, with the key itself as the value of last resort. */
  function ValueOrKey(s: Store, key: string, locale: Option<Locale>): (r: string)
    ensures r == key || r in Group(s, key).Values
    ensures Group(s, key) == map[] ==> r == key
  {
    Resolve(s, key, locale, Some(key)).value
  }

  // ---------------------------------------------------------------- mutators

  /** The argument error of addValue and updateValue, if any: absent arguments first, then the length bound. */
  function CheckArguments(key: Option<string>, locale: Option<Locale>, value: Option<string>): (r: Option<Error>)
    ensures r.None? <==> key.Some? && locale.Some? && value.Some? && |value.value| <= MaxValueLength
    ensures key.None? || locale.None? || value.None? ==> r == Some(NullArgument)
    ensures key.Some? && locale.Some? && value.Some? && |value.value| > MaxValueLength ==> r == Some(ValueTooLong)
  {
    if key.None? || locale.None? || value.None? then Some(NullArgument)
    else if |value.value| > MaxValueLength then Some(ValueTooLong)
    else None
  }

  /** addValue: stores the value; the first value of a key makes its locale the key's default. */
  function Add(s: Store, key: Option<string>, locale: Option<Locale>, value: Option<string>): (r: Result<Store>)
    ensures r.Err? <==> CheckArguments(key, locale, value).Some?
    ensures r.Err? ==> r.error == CheckArguments(key, locale, value).value
    ensures r.Ok? ==> GetExactValue(r.value, key.value, locale.value) == Some(value.value)
    ensures r.Ok? ==> GetSupportedLocalesForKey(r.value, key.value) == GetSupportedLocalesForKey(s, key.value) + {locale.value}
    ensures r.Ok? ==> DefaultLocale(r.value, key.value)
                      == if key.value in s.values then DefaultLocale(s, key.value) else Some(locale.value)
    ensures r.Ok? ==> forall l | l != locale.value :: GetExactValue(r.value, key.value, l) == GetExactValue(s, key.value, l)
    ensures r.Ok? ==> forall k | k != key.value :: AgreeOn(s, r.value, k)
  {
    if CheckArguments(key, locale, value).Some? then Err(CheckArguments(key, locale, value).value)
    else
      var k, l, v := key.value, locale.value, value.value;
      if k in s.values then Ok(Store(s.values[k := s.values[k][l := v]], s.defaults))
      else Ok(Store(s.values[k := map[l := v]], s.defaults[k := l]))
  }

  /** updateValue: replaces the value of an existing entry; no entry is created. */
  function Update(s: Store, key: Option<string>, locale: Option<Locale>, value: Option<string>): (r: Result<Store>)
    ensures CheckArguments(key, locale, value).Some? ==> r == Err(CheckArguments(key, locale, value).value)
    ensures CheckArguments(key, locale, value).None? ==>
              (r.Err? <==> GetExactValue(s, key.value, locale.value).None?)
    ensures r.Err? && CheckArguments(key, locale, value).None? ==> r.error == EntryDoesNotExist
    ensures r.Ok? ==> GetExactValue(r.value, key.value, locale.value) == Some(value.value)
    ensures r.Ok? ==> r.value.defaults == s.defaults
    ensures r.Ok? ==> GetSupportedLocalesForKey(r.value, key.value) == GetSupportedLocalesForKey(s, key.value)
    ensures r.Ok? ==> forall l | l != locale.value :: GetExactValue(r.value, key.value, l) == GetExactValue(s, key.value, l)
    ensures r.Ok? ==> forall k | k != key.value :: AgreeOn(s, r.value, k)
  {
    if CheckArguments(key, locale, value).Some? then Err(CheckArguments(key, locale, value).value)
    else
      var k, l, v := key.value, locale.value, value.value;
      if k in s.values && l in s.values[k] then Ok(Store(s.values[k := s.values[k][l := v]], s.defaults))
      else Err(EntryDoesNotExist)
  }

  /**
   * removeValue: no effect without an entry; refused for the default locale while
   * other locales hold values; removing the last value deletes the key.
   */
  function RemoveValue(s: Store, key: Option<string>, locale: Option<Locale>): (r: Result<Store>)
    ensures key.None? || locale.None? ==> r == Err(NullArgument)
    ensures r.Err? <==>
              || key.None? || locale.None?
              || (&& locale.value in GetSupportedLocalesForKey(s, key.value)
                  && DefaultLocale(s, key.value) == locale
                  && GetSupportedLocalesForKey(s, key.value) != {locale.value})
    ensures key.Some? && locale.Some? && GetExactValue(s, key.value, locale.value).None? ==> r == Ok(s)
    ensures r == Err(DeletingNotAllowed) <==>
              && key.Some? && locale.Some?
              && locale.value in GetSupportedLocalesForKey(s, key.value)
              && DefaultLocale(s, key.value) == locale
              && GetSupportedLocalesForKey(s, key.value) != {locale.value}
    ensures r.Ok? ==> GetSupportedLocalesForKey(r.value, key.value) == GetSupportedLocalesForKey(s, key.value) - {locale.value}
    ensures r.Ok? && GetSupportedLocalesForKey(s, key.value) == {locale.value} ==>
              key.value !in r.value.values && key.value !in r.value.defaults
    ensures r.Ok? && GetSupportedLocalesForKey(r.value, key.value) != {} ==>
              DefaultLocale(r.value, key.value) == DefaultLocale(s, key.value)
    ensures r.Ok? ==> forall l | l != locale.value :: GetExactValue(r.value, key.value, l) == GetExactValue(s, key.value, l)
    ensures r.Ok? ==> forall k | k != key.value :: AgreeOn(s, r.value, k)
  {
    if key.None? || locale.None? then Err(NullArgument)
    else
      var k, l := key.value, locale.value;
      if k !in s.values || l !in s.values[k] then Ok(s)
      else if s.values[k].Keys == {l} then Ok(Store(s.values - {k}, s.defaults - {k}))
      else if k in s.defaults && s.defaults[k] == l then Err(DeletingNotAllowed)
      else Ok(Store(s.values[k := s.values[k] - {l}], s.defaults))
  }

  /** removeKey: deletes every value of the key and reports how many locales held one. */
  function RemoveKey(s: Store, key: Option<string>): (r: Result<(Store, nat)>)
    ensures key.None? <==> r.Err?
    ensures r.Err? ==> r.error == NullArgument
    ensures r.Ok? ==> r.value.1 == |GetSupportedLocalesForKey(s, key.value)|
    ensures r.Ok? ==> GetSupportedLocalesForKey(r.value.0, key.value) == {}
    ensures r.Ok? ==> DefaultLocale(r.value.0, key.value) == None
    ensures r.Ok? ==> forall k | k != key.value :: AgreeOn(s, r.value.0, k)
  {
    if key.None? then Err(NullArgument)
    else
      var k := key.value;
      Ok((Store(s.values - {k}, s.defaults - {k}), |GetSupportedLocalesForKey(s, k)|))
  }

  /** switchDefaultLocale: makes an existing entry the key's default; values are untouched. */
  function SwitchDefault(s: Store, key: string, locale: Locale): (r: Result<Store>)
    ensures r.Err? <==> GetExactValue(s, key, locale).None?
    ensures r.Err? ==> r.error == EntryDoesNotExist
    ensures r.Ok? ==> r.value.values == s.values && DefaultLocale(r.value, key) == Some(locale)
    ensures r.Ok? ==> forall k | k != key :: AgreeOn(s, r.value, k)
  {
    if key in s.values && locale in s.values[key] then Ok(Store(s.values, s.defaults[key := locale]))
    else Err(EntryDoesNotExist)
  }

  // ---------------------------------------------------------------- the invariant

  lemma EmptyValid()
    ensures Valid(Empty)
  {
  }

  lemma AddPreservesValid(s: Store, key: Option<string>, locale: Option<Locale>, value: Option<string>)
    requires Valid(s) && Add(s, key, locale, value).Ok?
    ensures Valid(Add(s, key, locale, value).value)
  {
  }

  lemma UpdatePreservesValid(s: Store, key: Option<string>, locale: Option<Locale>, value: Option<string>)
    requires Valid(s) && Update(s, key, locale, value).Ok?
    ensures Valid(Update(s, key, locale, value).value)
  {
  }

  lemma RemoveValuePreservesValid(s: Store, key: Option<string>, locale: Option<Locale>)
    requires Valid(s) && RemoveValue(s, key, locale).Ok?
    ensures Valid(RemoveValue(s, key, locale).value)
  {
  }

  lemma RemoveKeyPreservesValid(s: Store, key: Option<string>)
    requires Valid(s) && RemoveKey(s, key).Ok?
    ensures Valid(RemoveKey(s, key).value.0)
  {
  }

  lemma SwitchDefaultPreservesValid(s: Store, key: string, locale: Locale)
    requires Valid(s) && SwitchDefault(s, key, locale).Ok?
    ensures Valid(SwitchDefault(s, key, locale).value)
  {
  }

  /** In a valid store a key has a default exactly when it holds a value, and the default holds one. */
  lemma DefaultExactlyWhenValues(s: Store, key: string)
    requires Valid(s)
    ensures DefaultLocale(s, key).Some? <==> GetSupportedLocalesForKey(s, key) != {}
    ensures DefaultLocale(s, key).Some? ==> DefaultLocale(s, key).value in GetSupportedLocalesForKey(s, key)
  {
  }

  // ---------------------------------------------------------------- mutator properties

  /** The first value of a key becomes its only locale and its default. */
  lemma AddToNewKey(s: Store, key: string, locale: Locale, value: string)
    requires Valid(s) && GetSupportedLocalesForKey(s, key) == {} && |value| <= MaxValueLength
    ensures Add(s, Some(key), Some(locale), Some(value)).Ok?
    ensures var t := Add(s, Some(key), Some(locale), Some(value)).value;
            GetSupportedLocalesForKey(t, key) == {locale} && DefaultLocale(t, key) == Some(locale)
  {
  }

  /** Adding the first value of a key and removing it again restores the store. */
  lemma AddThenRemoveValue(s: Store, key: string, locale: Locale, value: string)
    requires Valid(s) && key !in s.values && |value| <= MaxValueLength
    ensures RemoveValue(Add(s, Some(key), Some(locale), Some(value)).value, Some(key), Some(locale)) == Ok(s)
  {
    var t := Add(s, Some(key), Some(locale), Some(value)).value;
    assert t.values[key].Keys == {locale};
    assert t.values - {key} == s.values;
    assert t.defaults - {key} == s.defaults;
  }

  /** A second removeKey finds nothing to remove and changes nothing. */
  lemma RemoveKeyTwice(s: Store, key: string)
    ensures RemoveKey(s, Some(key)).Ok?
    ensures var t := RemoveKey(s, Some(key)).value.0;
            RemoveKey(t, Some(key)) == Ok((t, 0))
  {
    var t := RemoveKey(s, Some(key)).value.0;
    assert t.values - {key} == t.values;
    assert t.defaults - {key} == t.defaults;
  }

  /** After the default moves away, the former default locale may be removed. */
  lemma SwitchThenRemoveFormerDefault(s: Store, key: string, other: Locale)
    requires Valid(s) && key in s.values && other in s.values[key] && other != s.defaults[key]
    ensures var t := SwitchDefault(s, key, other).value;
            RemoveValue(t, Some(key), Some(s.defaults[key])).Ok?
  {
  }

  // ---------------------------------------------------------------- resolution

  /** A value stored at the exact locale is what getValue returns. */
  lemma ResolveExact(s: Store, key: string, locale: Locale, defaultValue: Option<string>)
    requires locale in Group(s, key)
    ensures Resolve(s, key, Some(locale), defaultValue) == Some(Group(s, key)[locale])
  {
  }

  /**
   * getExactValue finds a value exactly at the supported locales of the key, and
   * where it finds one getValue returns the same value; elsewhere it applies no fallback.
   */
  lemma ExactValueAgreesWithResolve(s: Store, key: string, locale: Locale, defaultValue: Option<string>)
    ensures GetExactValue(s, key, locale).Some? <==> locale in GetSupportedLocalesForKey(s, key)
    ensures GetExactValue(s, key, locale).Some? ==> Resolve(s, key, Some(locale), defaultValue) == GetExactValue(s, key, locale)
  {
  }

  /**
   * getExactValue applies no fallback: at a locale without a value of its own it
   * finds nothing, even where getValue answers from a crop or the default.
   */
  lemma ExactValueNoFallback(s: Store, key: string, locale: Locale, defaultValue: Option<string>)
    requires Valid(s) && key in s.values && locale !in s.values[key]
    ensures GetExactValue(s, key, locale) == None
    ensures Resolve(s, key, Some(locale), defaultValue).Some?
  {
  }

  /** Otherwise getValue returns the value at the most specific crop of the locale that holds one. */
  lemma ResolveFirstCandidate(s: Store, key: string, locale: Locale, i: nat, defaultValue: Option<string>)
    requires i < |Candidates(locale)| && Candidates(locale)[i] in Group(s, key)
    requires forall j :: 0 <= j < i ==> Candidates(locale)[j] !in Group(s, key)
    ensures Resolve(s, key, Some(locale), defaultValue) == Some(Group(s, key)[Candidates(locale)[i]])
  {
    var r := FirstStored(Group(s, key), Candidates(locale));
    assert r.Some? && r.value == i;
  }

  /** With no crop of the locale stored, or no locale requested, a known key resolves to its default locale's value. */
  lemma ResolveDefault(s: Store, key: string, locale: Option<Locale>, defaultValue: Option<string>)
    requires Valid(s) && key in s.values
    requires locale.Some? ==> forall c | c in Candidates(locale.value) :: c !in s.values[key]
    ensures Resolve(s, key, locale, defaultValue) == Some(s.values[key][s.defaults[key]])
  {
  }

  /** A key with no values resolves to the caller's default, and the two-argument form to the key. */
  lemma ResolveUnknownKey(s: Store, key: string, locale: Option<Locale>, defaultValue: Option<string>)
    requires Valid(s) && key !in s.values
    ensures Resolve(s, key, locale, defaultValue) == defaultValue
    ensures ValueOrKey(s, key, locale) == key
  {
  }

  /** A key that holds values always resolves to one of them, whatever the caller's default. */
  lemma ResolveNeverFallsThrough(s: Store, key: string, locale: Option<Locale>, defaultValue: Option<string>)
    requires Valid(s) && key in s.values
    ensures Resolve(s, key, locale, defaultValue).Some?
    ensures Resolve(s, key, locale, defaultValue).value in s.values[key].Values
  {
  }

  /** A lookup depends only on the looked-up key's values and default. */
  lemma ResolveDependsOnKeyOnly(s1: Store, s2: Store, key: string)
    requires AgreeOn(s1, s2, key)
    ensures forall locale, defaultValue :: Resolve(s1, key, locale, defaultValue) == Resolve(s2, key, locale, defaultValue)
  {
  }
}
