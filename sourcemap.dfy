/** Where the source map of a hot-reloaded build lies. Builds are re-imported with a
    cache-busting query (`?update=<uuid>`), so the map of a source inside the build
    cache is found by cutting that query off and appending `.map`. */
module SourceMap {
  import opened Wrappers
  import opened JsString

  /** Sources under the build cache contain this. */
  const CacheMarker := ".quartz-cache"

  const MapExtension := ".map"

  /** `source.split("?", 2)[0]`: the text before the first `?`, or all of it. */
  function BeforeQuery(source: string): (r: string)
    ensures '?' !in r
    ensures StartsWith(source, r)
    ensures r == source || source[|r|] == '?'
  {
    SplitFirst(source, '?');
    SplitLimit(source, '?', 2)[0]
  }

  /** The location `retrieveSourceMap` reads the map from, or `None` where it returns
      null. Turning the location into a file path and reading it are not modelled. */
  function SourceMapLocation(source: string): (r: Option<string>)
    ensures r.Some? <==> Includes(source, CacheMarker)
    ensures r.Some? ==> EndsWith(r.value, MapExtension) && '?' !in r.value
    ensures r.Some? ==> var base := r.value[..|r.value| - |MapExtension|];
              StartsWith(source, base) && (base == source || source[|base|] == '?')
  {
    if Includes(source, CacheMarker) then
      var r := BeforeQuery(source) + MapExtension;
      assert r[..|r| - |MapExtension|] == BeforeQuery(source);
      Some(r)
    else None
  }

  /** A cache source without a query has its map right beside it. */
  lemma SourceMapWithoutQuery(source: string)
    requires Includes(source, CacheMarker) && '?' !in source
    ensures SourceMapLocation(source) == Some(source + MapExtension)
  {
  }

  /** Two cache sources that differ only after their first `?` share one map. */
  lemma SourceMapIgnoresQuery(base: string, q1: string, q2: string)
    requires '?' !in base
    requires Includes(base + "?" + q1, CacheMarker) && Includes(base + "?" + q2, CacheMarker)
    ensures SourceMapLocation(base + "?" + q1) == SourceMapLocation(base + "?" + q2)
    ensures SourceMapLocation(base + "?" + q1) == Some(base + MapExtension)
  {
    BeforeQueryAfter(base, q1);
    BeforeQueryAfter(base, q2);
  }

  lemma BeforeQueryAfter(base: string, q: string)
    requires '?' !in base
    ensures BeforeQuery(base + "?" + q) == base
  {
    var s := base + "?" + q;
    var b := BeforeQuery(s);
    assert s[|base|] == '?';
    assert b == s[..|b|];
  }

  /** A build in the cache, loaded with any cache-busting query, maps to the build
      file's own name with `.map` appended (`transpiled-build.mjs?update=<uuid>` to
      `transpiled-build.mjs.map`). */
  lemma SourceMapOfQueriedBuild(base: string, q: string)
    requires '?' !in base && Includes(base, CacheMarker)
    ensures SourceMapLocation(base + "?" + q) == Some(base + MapExtension)
  {
    IncludesAppend(base, "?" + q, CacheMarker);
    assert base + "?" + q == base + ("?" + q);
    BeforeQueryAfter(base, q);
  }

  /** Sources outside the build cache get no map. */
  lemma SourceMapOutsideCache(source: string)
    requires !Includes(source, CacheMarker)
    ensures SourceMapLocation(source) == None
  {
  }
}
