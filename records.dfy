/**
 * The catalog records the sampler and the report consume, with the fields the
 * script extracts from each record already pulled out of the nested metadata.
 */
module Records {

  /** A calendar month, as `datetime.month` returns it. */
  type Month = m: int | 1 <= m <= 12 witness 1

  /**
   * One catalog granule: the month of its end-of-acquisition timestamp, its
   * native id, the ISO-8601 acquisition date, the size already formatted as
   * text, the thumbnail URL and the visualization URL.
   */
  datatype Granule = Granule(
    month: Month,
    id: string,
    date: string,
    size: string,
    thumb: string,
    vis: string)

  /** The observation month of every granule, in input order (`get_observation_month`). */
  function ObservationMonths(results: seq<Granule>): (months: seq<Month>)
    ensures |months| == |results|
    ensures forall i :: 0 <= i < |results| ==> months[i] == results[i].month
  {
    if results == [] then []
    else ObservationMonths(results[..|results| - 1]) + [results[|results| - 1].month]
  }

  /** The set of distinct months present in `results` (`set(months)`). */
  ghost function MonthSet(results: seq<Granule>): (ms: set<Month>)
    ensures forall m :: m in ms <==> m in ObservationMonths(results)
    ensures |ms| <= |results|
  {
    CardImage(results);
    set i | 0 <= i < |results| :: results[i].month
  }

  lemma {:induction false} CardImage(results: seq<Granule>)
    ensures |set i | 0 <= i < |results| :: results[i].month| <= |results|
  {
    if results != [] {
      var init := results[..|results| - 1];
      CardImage(init);
      assert (set i | 0 <= i < |results| :: results[i].month)
          == (set i | 0 <= i < |init| :: init[i].month) + {results[|results| - 1].month};
    }
  }
}
