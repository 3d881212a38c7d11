/**
 * The Localization service: a mutable store of localized values with a cache of
 * resolved lookups. Every mutator enforces the default-locale rule through the
 * transition functions of LocalizationStore and drops the cached lookups of the
 * key it changed, so the cache always agrees with the store.
 */
module LocalizationService {
  import opened Wrappers
  import opened Locales
  import opened LocalizationStore

  /** The fingerprint of a getValue call: key, requested locale (absent means the default) and caller default. */
  datatype Request = Request(key: string, locale: Option<Locale>, defaultValue: Option<string>)

  /** A mutator's reply, given the transition it is specified by: success with the new store, or the error with nothing changed. */
  ghost predicate Applied(r: Result<()>, transition: Result<Store>, before: Store, after: Store) {
    match transition
    case Ok(s) => r == Ok(()) && after == s
    case Err(e) => r == Err(e) && after == before
  }

  class Localization {
    var values: map<string, map<Locale, string>>
    var defaults: map<string, Locale>
    var cache: map<Request, Option<string>>

    /** The stored values and defaults as a LocalizationStore value. */
    function Model(): Store
      reads this
    {
      Store(values, defaults)
    }

    /** The store invariant, and every cached lookup equal to resolving it afresh. */
    ghost predicate Valid()
      reads this
    {
      && LocalizationStore.Valid(Model())
      && forall q | q in cache :: cache[q] == Resolve(Model(), q.key, q.locale, q.defaultValue)
    }

    constructor ()
      ensures Valid() && Model() == Empty && cache == map[]
    {
      values, defaults, cache := map[], map[], map[];
    }

    /** Drops the cached lookups of `key`; the others stay valid because the store changed only at `key`. */
    method Invalidate(key: string, ghost before: Store)
      requires LocalizationStore.Valid(Model())
      requires forall q | q in cache :: cache[q] == Resolve(before, q.key, q.locale, q.defaultValue)
      requires forall k | k != key :: AgreeOn(before, Model(), k)
      modifies this`cache
      ensures Valid()
      ensures cache == map q | q in old(cache) && q.key != key :: old(cache)[q]
    {
      cache := map q | q in cache && q.key != key :: cache[q];
      forall q | q in cache
        ensures cache[q] == Resolve(Model(), q.key, q.locale, q.defaultValue)
      {
        ResolveDependsOnKeyOnly(before, Model(), q.key);
      }
    }

    /** addValue */
    method AddValue(key: Option<string>, locale: Option<Locale>, value: Option<string>) returns (r: Result<()>)
      requires Valid()
      modifies this
      ensures Valid()
      ensures Applied(r, Add(old(Model()), key, locale, value), old(Model()), Model())
      ensures r.Ok? ==> forall q | q in cache :: q.key != key.value
    {
      if key.None? || locale.None? || value.None? {
        return Err(NullArgument);
      }
      var k, l, v := key.value, locale.value, value.value;
      if |v| > MaxValueLength {
        return Err(ValueTooLong);
      }
      ghost var before := Model();
      if k in values {
        values := values[k := values[k][l := v]];
      } else {
        values := values[k := map[l := v]];
        defaults := defaults[k := l];
      }
      AddPreservesValid(before, key, locale, value);
      Invalidate(k, before);
      r := Ok(());
    }

    /** updateValue */
    method UpdateValue(key: Option<string>, locale: Option<Locale>, value: Option<string>) returns (r: Result<()>)
      requires Valid()
      modifies this
      ensures Valid()
      ensures Applied(r, Update(old(Model()), key, locale, value), old(Model()), Model())
      ensures r.Ok? ==> forall q | q in cache :: q.key != key.value
    {
      if key.None? || locale.None? || value.None? {
        return Err(NullArgument);
      }
      var k, l, v := key.value, locale.value, value.value;
      if |v| > MaxValueLength {
        return Err(ValueTooLong);
      }
      if k !in values || l !in values[k] {
        return Err(EntryDoesNotExist);
      }
      ghost var before := Model();
      values := values[k := values[k][l := v]];
      UpdatePreservesValid(before, key, locale, value);
      Invalidate(k, before);
      r := Ok(());
    }

    /** removeValue */
    method RemoveValue(key: Option<string>, locale: Option<Locale>) returns (r: Result<()>)
      requires Valid()
      modifies this
      ensures Valid()
      ensures Applied(r, LocalizationStore.RemoveValue(old(Model()), key, locale), old(Model()), Model())
      ensures Model() != old(Model()) ==> forall q | q in cache :: q.key != key.value
    {
      if key.None? || locale.None? {
        return Err(NullArgument);
      }
      var k, l := key.value, locale.value;
      if k !in values || l !in values[k] {
        return Ok(());
      }
      ghost var before := Model();
      if values[k].Keys == {l} {
        values, defaults := values - {k}, defaults - {k};
      } else if defaults[k] == l {
        return Err(DeletingNotAllowed);
      } else {
        values := values[k := values[k] - {l}];
      }
      RemoveValuePreservesValid(before, key, locale);
      Invalidate(k, before);
      r := Ok(());
    }

    /** removeKey: the number of locales that held a value for the key. */
    method RemoveKey(key: Option<string>) returns (r: Result<nat>)
      requires Valid()
      modifies this
      ensures Valid()
      ensures match LocalizationStore.RemoveKey(old(Model()), key)
              case Ok((s, n)) => r == Ok(n) && Model() == s
              case Err(e) => r == Err(e) && Model() == old(Model())
      ensures r.Ok? ==> forall q | q in cache :: q.key != key.value
    {
      if key.None? {
        return Err(NullArgument);
      }
      var k := key.value;
      var count := if k in values then |values[k].Keys| else 0;
      ghost var before := Model();
      values, defaults := values - {k}, defaults - {k};
      RemoveKeyPreservesValid(before, key);
      Invalidate(k, before);
      r := Ok(count);
    }

    /** switchDefaultLocale */
    method SwitchDefaultLocale(key: string, locale: Locale) returns (r: Result<()>)
      requires Valid()
      modifies this
      ensures Valid()
      ensures Applied(r, SwitchDefault(old(Model()), key, locale), old(Model()), Model())
      ensures r.Ok? ==> forall q | q in cache :: q.key != key
    {
      if key !in values || locale !in values[key] {
        return Err(EntryDoesNotExist);
      }
      ghost var before := Model();
      defaults := defaults[key := locale];
      SwitchDefaultPreservesValid(before, key, locale);
      Invalidate(key, before);
      r := Ok(());
    }

    /** clearCache: forgets every cached lookup; the store is untouched. */
    method ClearCache()
      requires Valid()
      modifies this`cache
      ensures Valid() && Model() == old(Model()) && cache == map[]
    {
      cache := map[];
    }

    /**
     * getValue(key, locale, defaultValue): answered from the cache when the same
     * request was resolved before, otherwise resolved and remembered.
     */
    method GetValueOrDefault(key: Option<string>, locale: Option<Locale>, defaultValue: Option<string>)
      returns (r: Result<Option<string>>)
      requires Valid()
      modifies this`cache
      ensures Valid() && Model() == old(Model())
      ensures key.None? ==> r == Err(NullArgument)
      ensures key.Some? ==> r == Ok(Resolve(Model(), key.value, locale, defaultValue))
    {
      if key.None? {
        return Err(NullArgument);
      }
      var q := Request(key.value, locale, defaultValue);
      if q in cache {
        r := Ok(cache[q]);
      } else {
        var v := Resolve(Model(), key.value, locale, defaultValue);
        cache := cache[q := v];
        r := Ok(v);
      }
    }

    /** getValue(key, locale): the key itself is the value of last resort. */
    method GetValue(key: Option<string>, locale: Option<Locale>) returns (r: Result<string>)
      requires Valid()
      modifies this`cache
      ensures Valid() && Model() == old(Model())
      ensures key.None? ==> r == Err(NullArgument)
      ensures key.Some? ==> r == Ok(ValueOrKey(Model(), key.value, locale))
    {
      var v := GetValueOrDefault(key, locale, key);
      r := if v.Ok? then Ok(v.value.GetOr(key.value)) else Err(v.error);
    }
  }

  /** The greeting key with en as default and en_GB beside it. */
  function TwoGreetings(): Store {
    Store(map["greeting" := map[Locale("en", None, None, None) := "Hello", Locale("en", None, Some("GB"), None) := "Hiya"]],
          map["greeting" := Locale("en", None, None, None)])
  }

  /**
   * A client of the service: a greeting stored for en and then en_GB is looked
   * up for en_US (cropped to en), for fr (the default locale) and for en_GB itself.
   */
  method GreetingLookup(service: Localization)
    requires service.Valid() && service.Model() == TwoGreetings()
    modifies service
  {
    var en := Locale("en", None, None, None);
    var enGB := Locale("en", None, Some("GB"), None);
    var enUS := Locale("en", None, Some("US"), None);
    var v := service.GetValueOrDefault(Some("greeting"), Some(enUS), Some("?"));
    assert Candidates(enUS) == [enUS, en];
    ResolveFirstCandidate(service.Model(), "greeting", enUS, 1, Some("?"));
    assert v == Ok(Some("Hello"));
    v := service.GetValueOrDefault(Some("greeting"), Some(Locale("fr", None, None, None)), Some("?"));
    assert v == Ok(Some("Hello"));
    v := service.GetValueOrDefault(Some("greeting"), Some(enGB), Some("?"));
    ResolveExact(service.Model(), "greeting", enGB, Some("?"));
    assert v == Ok(Some("Hiya"));
  }

  /** A client of the service: the default of a two-locale key cannot be removed. */
  method GreetingKeepDefault() {
    var en := Locale("en", None, None, None);
    var enGB := Locale("en", None, Some("GB"), None);
    var service := new Localization();
    var ok := service.AddValue(Some("greeting"), Some(en), Some("Hello"));
    ok := service.AddValue(Some("greeting"), Some(enGB), Some("Hiya"));
    assert service.Model() == TwoGreetings();
    assert GetSupportedLocalesForKey(service.Model(), "greeting") == {en, enGB};
    ok := service.RemoveValue(Some("greeting"), Some(en));
    assert ok == Err(DeletingNotAllowed) && service.Model() == TwoGreetings();
  }

  /** A client of the service: once the default is switched to en_GB, en can be removed and fr resolves to en_GB's value. */
  method GreetingSwitchDefault(service: Localization)
    requires service.Valid() && service.Model() == TwoGreetings()
    modifies service
  {
    var en := Locale("en", None, None, None);
    var enGB := Locale("en", None, Some("GB"), None);
    var ok := service.SwitchDefaultLocale("greeting", enGB);
    assert service.Model() == Store(map["greeting" := map[en := "Hello", enGB := "Hiya"]], map["greeting" := enGB]);
    ok := service.RemoveValue(Some("greeting"), Some(en));
    assert ok == Ok(());
    assert map[en := "Hello", enGB := "Hiya"] - {en} == map[enGB := "Hiya"];
    assert service.Model() == Store(map["greeting" := map[enGB := "Hiya"]], map["greeting" := enGB]);
    var v := service.GetValueOrDefault(Some("greeting"), Some(Locale("fr", None, None, None)), Some("?"));
    assert v == Ok(Some("Hiya"));
  }

  /**
   * A client of the service: removing a key twice reports 1 and then 0, after
   * which lookups fall back to the caller's default or the key.
   */
  method GreetingRemoveKey() {
    var en := Locale("en", None, None, None);
    var fr := Locale("fr", None, None, None);
    var service := new Localization();
    var ok := service.AddValue(Some("greeting"), Some(en), Some("Hello"));
    assert service.Model() == Store(map["greeting" := map[en := "Hello"]], map["greeting" := en]);

    var n := service.RemoveKey(Some("greeting"));
    assert n == Ok(1);
    n := service.RemoveKey(Some("greeting"));
    assert n == Ok(0);
    var v := service.GetValueOrDefault(Some("greeting"), Some(fr), Some("?"));
    assert v == Ok(Some("?"));
    var w := service.GetValue(Some("greeting"), None);
    assert w == Ok("greeting");
  }
}
