/** Which fields a search fetches and which it returns (buildProjection, resolveSourceFields). */
module Projection {
  import opened Wrappers
  import opened Rows

  // The _source parameter: patterns are exact names, "prefix.*" or "*".
  datatype SourceFilter = SourceFilter(fetchSource: bool, includes: seq<string>, excludes: seq<string>)

  datatype Projection = Projection(fetch: seq<string>, source: seq<string>)

  predicate HasSuffix(s: string, suffix: string) {
    |suffix| <= |s| && s[|s| - |suffix|..] == suffix
  }

  // A stem and everything below it.
  ghost predicate IsSubtree(pattern: string, stem: string) {
    pattern == stem + ".*"
  }

  // What a pattern matches, one name at a time: what lies below its stem, any name, or the name it is.
  ghost predicate Covers(pattern: string, name: string) {
    if exists stem :: IsSubtree(pattern, stem)
    then exists stem :: IsSubtree(pattern, stem) && stem + "." <= name
    else pattern == "*" || pattern == name
  }

  lemma {:induction false} SubtreePattern(pattern: string)
    ensures HasSuffix(pattern, ".*") <==> exists stem :: IsSubtree(pattern, stem)
    ensures forall stem :: IsSubtree(pattern, stem) ==> |pattern| >= 2 && stem == pattern[..|pattern| - 2]
  {
    if HasSuffix(pattern, ".*") {
      assert IsSubtree(pattern, pattern[..|pattern| - 2]);
    }
    if stem :| IsSubtree(pattern, stem) {
      assert pattern[|pattern| - 2..] == ".*";
    }
    forall stem | IsSubtree(pattern, stem) ensures |pattern| >= 2 && stem == pattern[..|pattern| - 2] {
      assert |pattern| == |stem| + 2;
    }
  }

  lemma {:induction false} CoversIs(pattern: string, name: string)
    ensures HasSuffix(pattern, ".*") ==> (Covers(pattern, name) <==> pattern[..|pattern| - 2] + "." <= name)
    ensures !HasSuffix(pattern, ".*") ==> (Covers(pattern, name) <==> pattern == "*" || pattern == name)
  {
    SubtreePattern(pattern);
    if HasSuffix(pattern, ".*") {
      var stem :| IsSubtree(pattern, stem);
    }
  }

  function AppendUnique(list: seq<string>, v: string): seq<string> {
    if v in list then list else list + [v]
  }

  // ----- matchPattern -----

  method MatchPattern(names: seq<string>, pattern: string) returns (out: seq<string>)
    ensures forall n :: n in out <==> n in names && Covers(pattern, n)
  {
    hide Covers;
    forall n ensures Covers(pattern, n) <==> if HasSuffix(pattern, ".*") then pattern[..|pattern| - 2] + "." <= n
                                             else pattern == "*" || pattern == n
    {
      CoversIs(pattern, n);
    }
    if HasSuffix(pattern, ".*") {
      var prefix := pattern[..|pattern| - 2];
      out := [];
      for i := 0 to |names|
        invariant forall n :: n in out <==> n in names[..i] && Covers(pattern, n)
      {
        assert names[..i + 1] == names[..i] + [names[i]];
        if prefix + "." <= names[i] {
          out := out + [names[i]];
        }
      }
      assert names[..|names|] == names;
    } else if pattern == "*" {
      return names;
    } else {
      for i := 0 to |names|
        invariant pattern !in names[..i]
      {
        if names[i] == pattern {
          return [names[i]];
        }
        assert names[..i + 1] == names[..i] + [names[i]];
      }
      assert names[..|names|] == names;
      return [];
    }
  }

  ghost predicate Wanted(name: string, filter: SourceFilter) {
    && filter.fetchSource
    && (filter.includes == [] || exists p :: p in filter.includes && Covers(p, name))
    && forall p :: p in filter.excludes ==> !Covers(p, name)
  }

  ghost predicate Distinct(list: seq<string>) {
    forall i, j :: 0 <= i < j < |list| ==> list[i] != list[j]
  }

  /** resolveSourceFields: each field some include covers and no exclude does, once; unknown names are
      dropped silently. */
  method ResolveSourceFields(names: seq<string>, filter: SourceFilter) returns (kept: seq<string>)
    ensures Distinct(kept) && forall n :: n in kept <==> n in names && Wanted(n, filter)
  {
    if !filter.fetchSource {
      return [];
    }
    var keep: seq<string> := [];
    if |filter.includes| == 0 {
      keep := names;
    } else {
      for i := 0 to |filter.includes|
        invariant forall n :: n in keep <==> n in names && exists p :: p in filter.includes[..i] && Covers(p, n)
      {
        var more := MatchPattern(names, filter.includes[i]);
        assert filter.includes[..i + 1] == filter.includes[..i] + [filter.includes[i]];
        keep := keep + more;
      }
      assert filter.includes[..|filter.includes|] == filter.includes;
    }
    kept := [];
    for i := 0 to |keep|
      invariant Distinct(kept)
      invariant forall n :: n in kept <==> n in keep[..i] && forall p :: p in filter.excludes ==> !Covers(p, n)
    {
      assert keep[..i + 1] == keep[..i] + [keep[i]];
      var excluded := Excluded(keep[i], filter.excludes);
      if !excluded {
        kept := AppendUnique(kept, keep[i]);
      }
    }
    assert keep[..|keep|] == keep;
  }

  method Excluded(name: string, excludes: seq<string>) returns (excluded: bool)
    ensures excluded <==> exists p :: p in excludes && Covers(p, name)
  {
    for i := 0 to |excludes|
      invariant forall p :: p in excludes[..i] ==> !Covers(p, name)
    {
      var hits := MatchPattern([name], excludes[i]);
      if |hits| > 0 {
        assert hits[0] in hits;
        return true;
      }
      assert name !in hits && name in [name];
      assert excludes[..i + 1] == excludes[..i] + [excludes[i]];
    }
    assert excludes[..|excludes|] == excludes;
    return false;
  }

  /** buildProjection: the sort keys and the primary key come back whether or not they are returned. */
  method BuildProjection(names: seq<string>, sortable: set<string>, filter: SourceFilter, sorts: seq<SortClause>,
    pk: string)
    returns (r: Result<Projection>)
    ensures r.Ok? <==> forall c :: c in sorts ==> c.field in sortable
    ensures r.Ok? ==>
      && Distinct(r.value.source) && (forall n :: n in r.value.source <==> n in names && Wanted(n, filter))
      && Distinct(r.value.fetch)
      && forall n :: n in r.value.fetch <==> n in r.value.source || n == pk || exists c :: c in sorts && c.field == n
  {
    var source := ResolveSourceFields(names, filter);
    var fetch := source;
    for i := 0 to |sorts|
      invariant Distinct(fetch) && forall c :: c in sorts[..i] ==> c.field in sortable
      invariant forall n :: n in fetch <==> n in source || exists c :: c in sorts[..i] && c.field == n
    {
      if sorts[i].field !in sortable {
        assert sorts[i] in sorts;
        return Err(Internal);
      }
      assert sorts[..i + 1] == sorts[..i] + [sorts[i]];
      fetch := AppendUnique(fetch, sorts[i].field);
    }
    assert sorts[..|sorts|] == sorts;
    fetch := AppendUnique(fetch, pk);
    return Ok(Projection(fetch, source));
  }
}
