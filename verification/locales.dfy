/**
 * Locales and the candidate chain probed when a value is looked up.
 * A locale is a language plus optional script, region and variant subtags.
 * Cropping drops the least significant subtag present (variant, then region,
 * then script), the way resource bundles widen a request such as en_GB to en.
 */
module Locales {
  import opened Wrappers

  datatype Locale = Locale(language: string, script: Option<string>, region: Option<string>, variant: Option<string>)

  /** How many optional subtags the locale carries: 0 for a bare language, at most 3. */
  function Specificity(l: Locale): (n: nat)
    ensures n <= 3
  {
    (if l.script.Some? then 1 else 0) + (if l.region.Some? then 1 else 0) + (if l.variant.Some? then 1 else 0)
  }

  /** The locale cut down to its first `n` subtag levels (1 keeps the script, 2 also the region, 3 also the variant). */
  function Keep(l: Locale, n: nat): Locale {
    Locale(l.language,
           if n >= 1 then l.script else None,
           if n >= 2 then l.region else None,
           if n >= 3 then l.variant else None)
  }

  /** Every truncation of `l`: the reference definition of what the chain may contain. */
  function Truncations(l: Locale): set<Locale> {
    {Keep(l, 3), Keep(l, 2), Keep(l, 1), Keep(l, 0)}
  }

  /** One cropping step: `l` with its least significant present subtag dropped, or None for a bare language. */
  function Crop(l: Locale): (r: Option<Locale>)
    ensures r.None? <==> Specificity(l) == 0
    ensures r.Some? ==> r.value.language == l.language && Specificity(r.value) + 1 == Specificity(l)
    ensures r.Some? ==> r.value in Truncations(l)
  {
    if l.variant.Some? then Some(l.(variant := None))
    else if l.region.Some? then Some(l.(region := None))
    else if l.script.Some? then Some(l.(script := None))
    else None
  }

  /**
   * The locales probed for a request of `l`, most specific first: `l` itself,
   * then each successive crop, ending with the bare language.
   */
  function Candidates(l: Locale): (r: seq<Locale>)
    ensures |r| == Specificity(l) + 1
    ensures r[0] == l && r[|r| - 1] == Keep(l, 0)
    ensures forall i, j :: 0 <= i < j < |r| ==> Specificity(r[i]) > Specificity(r[j])
    decreases Specificity(l)
  {
    match Crop(l)
    case None => [l]
    case Some(c) => [l] + Candidates(c)
  }

  /** The chain never probes the same locale twice. */
  lemma CandidatesDistinct(l: Locale)
    ensures forall i, j :: 0 <= i < j < |Candidates(l)| ==> Candidates(l)[i] != Candidates(l)[j]
  {
  }

  /** The chain holds exactly the truncations of the requested locale: nothing else is ever substituted. */
  lemma {:induction false} CandidatesAreTruncations(l: Locale)
    ensures (set c | c in Candidates(l)) == Truncations(l)
    decreases Specificity(l)
  {
    match Crop(l)
    case None =>
    case Some(c) =>
      CandidatesAreTruncations(c);
  }
}
