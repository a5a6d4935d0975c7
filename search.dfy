/** The display part of `searchFont` (utilities/fs_utility.js): the
    `forEach` that counts the results, lists the first `maxResultLimit` of
    them numbered from 1 and reports how many more there were. The results
    themselves come from a fuzzy-search library and are an input here. */
module Search {
  import opened Catalog
  import opened Console

  /** `maxResultLimit` as the comparisons `count > maxResultLimit` see it:
      an integer (the default 10, or the `--max` option text read as a
      number), or NaN when the option text is not a number, which makes
      every comparison false. */
  datatype Limit = Finite(n: int) | NotANumber

  /** `count > maxResultLimit`. */
  predicate Exceeds(count: int, limit: Limit)
  {
    limit.Finite? && count > limit.n
  }

  /** How many results are listed: all of them, or the first `limit` when
      the count exceeds it (none for a negative limit). */
  function Shown(total: nat, limit: Limit): (k: nat)
    ensures k <= total
    ensures limit.Finite? && limit.n >= 0 ==> k <= limit.n
    ensures limit.NotANumber? ==> k == total
    ensures k < total <==> total > 0 && Exceeds(total, limit)
    ensures Exceeds(total, limit) && limit.n >= 0 ==> k == limit.n
  {
    match limit
    case NotANumber => total
    case Finite(n) => if n < 0 then 0 else if n < total then n else total
  }

  /** The numbered lines of the first `k` results. */
  function Listing(results: seq<FontItem>, k: nat): (r: seq<Event>)
    requires k <= |results|
    ensures |r| == k
  {
    seq(k, i requires 0 <= i < k => Listed(i + 1, results[i].family))
  }

  /** What the display prints for `results`, as one sequence of lines. */
  function ResultLines(results: seq<FontItem>, limit: Limit): seq<Event>
  {
    if results == [] then [NoFontFound]
    else
      [FoundFonts(|results|)] + Listing(results, Shown(|results|, limit))
        + if Exceeds(|results|, limit) then [MoreResults(|results| - limit.n)] else []
  }

  /** The lines printed for `results`: "No font found!" when there are none;
      otherwise the count, then the first `Shown` families numbered from 1
      in result order, then the number of results left out when the count
      exceeds the limit. */
  lemma ResultLinesSpec(results: seq<FontItem>, limit: Limit)
    ensures results == [] ==> ResultLines(results, limit) == [NoFontFound]
    ensures results != [] ==>
      |ResultLines(results, limit)| == 1 + Shown(|results|, limit) + (if Exceeds(|results|, limit) then 1 else 0)
    ensures results != [] ==> ResultLines(results, limit)[0] == FoundFonts(|results|)
    ensures results != [] ==> forall i :: 0 <= i < Shown(|results|, limit) ==>
      ResultLines(results, limit)[1 + i] == Listed(i + 1, results[i].family)
    ensures results != [] && Exceeds(|results|, limit) ==>
      ResultLines(results, limit)[1 + Shown(|results|, limit)] == MoreResults(|results| - limit.n)
  {
    if results != [] {
      var lines := ResultLines(results, limit);
      var k := Shown(|results|, limit);
      var listing := Listing(results, k);
      var head := [FoundFonts(|results|)] + listing;
      assert lines == head + if Exceeds(|results|, limit) then [MoreResults(|results| - limit.n)] else [];
      forall i | 0 <= i < k ensures lines[1 + i] == Listed(i + 1, results[i].family) {
        assert lines[1 + i] == head[1 + i] == listing[i];
      }
    }
  }

  /** The `forEach` of `searchFont`: it counts every result and prints the
      lines of `ResultLines`. */
  method ShowResults(results: seq<FontItem>, limit: Limit) returns (lines: seq<Event>)
    ensures lines == ResultLines(results, limit)
  {
    if |results| == 0 {
      return [NoFontFound];
    }
    lines := [FoundFonts(|results|)];
    var count := 0;
    while count < |results|
      invariant 0 <= count <= |results|
      invariant lines == [FoundFonts(|results|)] + Listing(results, Shown(count, limit))
    {
      var item := results[count];
      count := count + 1;
      if Exceeds(count, limit) {
        assert Shown(count, limit) == Shown(count - 1, limit);
        continue;
      }
      assert Shown(count, limit) == Shown(count - 1, limit) + 1;
      ListingStep(results, count - 1);
      lines := lines + [Listed(count, item.family)];
    }
    if Exceeds(count, limit) {
      lines := lines + [MoreResults(count - limit.n)];
    }
  }

  /** One more result listed adds its numbered line. */
  lemma ListingStep(results: seq<FontItem>, k: nat)
    requires k < |results|
    ensures Listing(results, k + 1) == Listing(results, k) + [Listed(k + 1, results[k].family)]
  {
  }
}
