/** The audit result the remediation driver consumes, and the extraction of its
    three finding categories. The result is a nested mapping in which every level
    may lack the key the driver reads; each such absence is a fatal error that the
    driver raises before it dispatches anything. */
module Audit {

  datatype Option<+T> = None | Some(value: T)

  /** One reported issue: the finding type (the key in its category's `items`
      mapping) and the provider's payload, which the driver never inspects. */
  datatype Finding<P> = Finding(findingType: string, payload: P)

  /** A category entry. `items` is a mapping from finding type to payload; it is
      kept as a sequence in the mapping's iteration order. */
  datatype Category<P> = Category(items: Option<seq<Finding<P>>>)

  /** Summary statistics; only read for display, but reading them fails when absent. */
  datatype Statistics = Statistics(waveUrl: Option<string>, totalElements: Option<int>)

  datatype Categories<P> = Categories(
    error: Option<Category<P>>,
    alert: Option<Category<P>>,
    contrast: Option<Category<P>>)

  datatype AuditResult<P> = AuditResult(
    statistics: Option<Statistics>,
    categories: Option<Categories<P>>)

  /** Every key the driver looks up, one per lookup path. */
  datatype Key =
    | StatisticsKey | WaveUrlKey | TotalElementsKey
    | CategoriesKey
    | ErrorKey | ErrorItemsKey
    | AlertKey | AlertItemsKey
    | ContrastKey | ContrastItemsKey

  /** Position of a key in the order the driver reads them. */
  function Rank(k: Key): nat
  {
    match k
    case StatisticsKey => 0
    case WaveUrlKey => 1
    case TotalElementsKey => 2
    case CategoriesKey => 3
    case ErrorKey => 4
    case ErrorItemsKey => 5
    case AlertKey => 6
    case AlertItemsKey => 7
    case ContrastKey => 8
    case ContrastItemsKey => 9
  }

  predicate HasItems<P>(c: Option<Category<P>>)
  {
    c.Some? && c.value.items.Some?
  }

  /** True when the whole path to `k` exists in `r`. */
  predicate Present<P>(r: AuditResult<P>, k: Key)
  {
    match k
    case StatisticsKey => r.statistics.Some?
    case WaveUrlKey => r.statistics.Some? && r.statistics.value.waveUrl.Some?
    case TotalElementsKey => r.statistics.Some? && r.statistics.value.totalElements.Some?
    case CategoriesKey => r.categories.Some?
    case ErrorKey => r.categories.Some? && r.categories.value.error.Some?
    case ErrorItemsKey => r.categories.Some? && HasItems(r.categories.value.error)
    case AlertKey => r.categories.Some? && r.categories.value.alert.Some?
    case AlertItemsKey => r.categories.Some? && HasItems(r.categories.value.alert)
    case ContrastKey => r.categories.Some? && r.categories.value.contrast.Some?
    case ContrastItemsKey => r.categories.Some? && HasItems(r.categories.value.contrast)
  }

  /** The three item sequences the driver works on. */
  datatype Findings<P> = Findings(
    errors: seq<Finding<P>>,
    alerts: seq<Finding<P>>,
    contrast: seq<Finding<P>>)

  datatype Extraction<P> = Extracted(findings: Findings<P>) | Missing(key: Key)

  /** The lookups of the driver's prologue, in source order. Extraction fails with
      the first key, in read order, that is absent, so it succeeds exactly when
      every key is present; and then yields the three `items` mappings unchanged. */
  function Extract<P>(r: AuditResult<P>): (x: Extraction<P>)
    ensures x.Extracted? ==> forall k: Key :: Present(r, k)
    ensures x.Missing? ==>
      && !Present(r, x.key)
      && forall k: Key :: Rank(k) < Rank(x.key) ==> Present(r, k)
    ensures x.Extracted? ==>
      && r.categories.Some?
      && HasItems(r.categories.value.error)
      && HasItems(r.categories.value.alert)
      && HasItems(r.categories.value.contrast)
      && x.findings.errors == r.categories.value.error.value.items.value
      && x.findings.alerts == r.categories.value.alert.value.items.value
      && x.findings.contrast == r.categories.value.contrast.value.items.value
  {
    match r.statistics
    case None => Missing(StatisticsKey)
    case Some(stats) =>
      if stats.waveUrl.None? then Missing(WaveUrlKey)
      else if stats.totalElements.None? then Missing(TotalElementsKey)
      else match r.categories
        case None => Missing(CategoriesKey)
        case Some(cats) =>
          if cats.error.None? then Missing(ErrorKey)
          else if cats.error.value.items.None? then Missing(ErrorItemsKey)
          else if cats.alert.None? then Missing(AlertKey)
          else if cats.alert.value.items.None? then Missing(AlertItemsKey)
          else if cats.contrast.None? then Missing(ContrastKey)
          else if cats.contrast.value.items.None? then Missing(ContrastItemsKey)
          else Extracted(Findings(
            cats.error.value.items.value,
            cats.alert.value.items.value,
            cats.contrast.value.items.value))
  }

  /** A mapping's keys are unique: no finding type occurs twice in one category. */
  predicate DistinctTypes<P>(items: seq<Finding<P>>)
  {
    forall i, j :: 0 <= i < j < |items| ==> items[i].findingType != items[j].findingType
  }

  /** `r` with its alert items replaced by `alerts` (keeping every other key). */
  function WithAlerts<P>(r: AuditResult<P>, alerts: seq<Finding<P>>): AuditResult<P>
    requires r.categories.Some?
  {
    r.(categories := Some(r.categories.value.(alert := Some(Category(Some(alerts))))))
  }
}
