/** Listing support of s3archivefs-lambda/src/main.rs: the repository prefix
    of an object path, the search top and key of a listing request under a
    virtual prefix, and the in-place trimming, filtering and paging of a
    file listing resumed from a continuation token. */
module Listing {
  import opened Wrappers
  import opened Strings
  import opened Archive

  // ---------------------------------------------------------------------
  // Paths

  /** `get_repo_prefix`: the path without its last '/'-component, when that
      component is the repository object. */
  function GetRepoPrefix(repoPath: string, repoObject: string): (r: Option<string>)
  {
    var parts := Split(repoPath, '/');
    if parts[|parts| - 1] == repoObject then Some(Join(parts[..|parts| - 1], '/')) else None
  }

  /** What `get_repo_prefix` returns puts the path back together: the path
      is the object itself, or the prefix, '/' and the object. */
  lemma GetRepoPrefixSound(repoPath: string, repoObject: string)
    requires GetRepoPrefix(repoPath, repoObject).Some?
    ensures var p := GetRepoPrefix(repoPath, repoObject).value;
            '/' !in repoObject &&
            ((p == "" && repoPath == repoObject) || repoPath == p + "/" + repoObject)
  {
    SplitLast(repoPath, '/');
  }

  /** The prefix of `prefix/object` is `prefix`, for any object name without
      '/'; a path ending in another name has none. */
  lemma GetRepoPrefixRoundTrip(prefix: string, repoObject: string, other: string)
    requires '/' !in repoObject && '/' !in other && other != repoObject
    ensures GetRepoPrefix(prefix + "/" + repoObject, repoObject) == Some(prefix)
    ensures GetRepoPrefix(repoObject, repoObject) == Some("")
    ensures GetRepoPrefix(prefix + "/" + other, repoObject).None?
  {
    assert prefix + "/" + repoObject == prefix + ['/'] + repoObject;
    SplitSnoc(prefix, '/', repoObject);
    var parts := Split(prefix, '/') + [repoObject];
    assert parts[..|parts| - 1] == Split(prefix, '/');
    JoinSplit(prefix, '/');
    SplitNoSep(repoObject, '/');
    assert prefix + "/" + other == prefix + ['/'] + other;
    SplitSnoc(prefix, '/', other);
  }

  /** `get_repo_search_top_and_key`: nothing for a search prefix shorter
      than the virtual prefix; otherwise the search key is the search prefix
      with every leading copy of the virtual prefix removed, and the top is
      that key without its last '/'-component. */
  function SearchTopAndKey(searchPrefix: string, virtualPrefix: string): (r: (string, string))
  {
    if |searchPrefix| < |virtualPrefix| then ("", "")
    else
      var key := TrimStartMatches(searchPrefix, virtualPrefix);
      var parts := Split(key, '/');
      (Join(parts[..|parts| - 1], '/'), key)
  }

  /** The search prefix is some copies of the virtual prefix followed by the
      key, and the key is the top, '/' and a last component without '/' (or,
      with an empty top, has no '/' at all). */
  lemma SearchTopAndKeySound(searchPrefix: string, virtualPrefix: string)
    requires |searchPrefix| >= |virtualPrefix|
    ensures var r := SearchTopAndKey(searchPrefix, virtualPrefix);
            searchPrefix == Repeat(virtualPrefix, TrimmedCount(searchPrefix, virtualPrefix)) + r.1 &&
            (virtualPrefix != "" ==> !StartsWith(r.1, virtualPrefix)) &&
            ((r.0 == "" && '/' !in r.1) || (exists last :: '/' !in last && r.1 == r.0 + "/" + last))
  {
    var r := SearchTopAndKey(searchPrefix, virtualPrefix);
    TrimStartMatchesRepeat(searchPrefix, virtualPrefix);
    TopOfKey(r.1);
  }

  /** The key without its last '/'-component, and that component. */
  lemma TopOfKey(key: string)
    ensures var parts := Split(key, '/');
            var top := Join(parts[..|parts| - 1], '/');
            (top == "" && '/' !in key) || (exists last :: '/' !in last && key == top + "/" + last)
  {
    var parts := Split(key, '/');
    SplitLast(key, '/');
    if |parts| == 1 {
      assert parts[..0] == [];
    } else {
      var top, last := Join(parts[..|parts| - 1], '/'), parts[|parts| - 1];
      assert '/' !in last;
      assert key == top + "/" + last;
    }
  }

  // ---------------------------------------------------------------------
  // Paging

  /** The first position of `name` in the listing (`position`). */
  function IndexOf(entries: seq<Entry>, name: string): (r: Option<nat>)
    ensures r.Some? ==> r.value < |entries| && entries[r.value].path == name
    ensures r.Some? ==> forall k :: 0 <= k < r.value ==> entries[k].path != name
    ensures r.None? ==> forall k :: 0 <= k < |entries| ==> entries[k].path != name
  {
    if entries == [] then None
    else if entries[0].path == name then Some(0)
    else match IndexOf(entries[1..], name)
      case None => None
      case Some(i) => Some(i + 1)
  }

  /** The entries whose path starts with `key`, in their order (`retain`). */
  function KeepMatching(entries: seq<Entry>, key: string): (r: seq<Entry>)
    ensures |r| <= |entries|
  {
    if entries == [] then []
    else
      var last := entries[|entries| - 1];
      KeepMatching(entries[..|entries| - 1], key) + (if StartsWith(last.path, key) then [last] else [])
  }

  /** What `retain` keeps: exactly the entries that start with the key, in
      their original order (it distributes over concatenation). */
  lemma {:induction false} KeepMatchingExact(entries: seq<Entry>, key: string)
    ensures forall e :: e in KeepMatching(entries, key) <==> e in entries && StartsWith(e.path, key)
  {
    if entries != [] {
      var init := entries[..|entries| - 1];
      KeepMatchingExact(init, key);
      assert entries == init + [entries[|entries| - 1]];
    }
  }

  /** One more entry: it is kept after the others exactly when it matches. */
  lemma KeepMatchingSnoc(entries: seq<Entry>, x: Entry, key: string)
    ensures KeepMatching(entries + [x], key)
         == KeepMatching(entries, key) + (if StartsWith(x.path, key) then [x] else [])
  {
    assert (entries + [x])[..|entries|] == entries;
  }

  lemma {:induction false} KeepMatchingAppend(a: seq<Entry>, b: seq<Entry>, key: string)
    ensures KeepMatching(a + b, key) == KeepMatching(a, key) + KeepMatching(b, key)
    decreases |b|
  {
    if b == [] {
      assert a + b == a;
    } else {
      var init, x := b[..|b| - 1], b[|b| - 1];
      var kx := if StartsWith(x.path, key) then [x] else [];
      var ka, ki := KeepMatching(a, key), KeepMatching(init, key);
      assert KeepMatching(a + init, key) == ka + ki by {
        KeepMatchingAppend(a, init, key);
      }
      assert KeepMatching(b, key) == ki + kx by {
        assert b == init + [x];
        KeepMatchingSnoc(init, x, key);
      }
      assert KeepMatching(a + b, key) == (ka + ki) + kx by {
        assert a + b == (a + init) + [x];
        KeepMatchingSnoc(a + init, x, key);
      }
      assert (ka + ki) + kx == ka + (ki + kx);
    }
  }

  /** Where the page starts: at the head without a token, just after the
      entry named by the token, and nowhere when no entry has that name. */
  function StartOf(entries: seq<Entry>, lastEnd: Option<string>): (r: Option<nat>)
    ensures r.Some? ==> r.value <= |entries|
  {
    if lastEnd.None? then Some(0)
    else match IndexOf(entries, lastEnd.value)
      case None => None
      case Some(i) => Some(i + 1)
  }

  /** Cutting the kept entries to `maxCount`: the last kept name is returned
      when some were cut, and cutting to no entries panics
      (`last().unwrap()` of an empty list). */
  function PageOf(kept: seq<Entry>, maxCount: nat): (r: Outcome<(seq<Entry>, Option<string>)>)
    ensures r.Done? ==> |r.value.0| <= maxCount && r.value.0 <= kept
    ensures r.Done? && r.value.1.Some? ==>
              |r.value.0| == maxCount > 0 && r.value.1.value == r.value.0[maxCount - 1].path
    ensures r.Done? && r.value.1.None? ==> r.value.0 == kept
    ensures r.Panic? <==> maxCount == 0 && kept != []
  {
    if |kept| <= maxCount then Done((kept, None))
    else if maxCount == 0 then Panic("called `Option::unwrap()` on a `None` value")
    else Done((kept[..maxCount], Some(kept[maxCount - 1].path)))
  }

  /** The page `filter_result` leaves in the listing and the continuation
      token it returns: resume after the entry named `lastEnd` (none: the
      listing empties), keep the entries starting with `filterKey`, and cut
      to `maxCount` entries. */
  function Page(entries: seq<Entry>, filterKey: string, maxCount: nat, lastEnd: Option<string>)
    : (r: Outcome<(seq<Entry>, Option<string>)>)
    ensures r.Done? ==> |r.value.0| <= maxCount
    ensures r.Done? ==> forall k :: 0 <= k < |r.value.0| ==> StartsWith(r.value.0[k].path, filterKey)
    ensures r.Done? && r.value.1.Some? ==>
              |r.value.0| == maxCount > 0 && r.value.1.value == r.value.0[maxCount - 1].path
  {
    match StartOf(entries, lastEnd)
    case None => Done(([], None))
    case Some(start) =>
      var kept := KeepMatching(entries[start..], filterKey);
      KeepMatchingExact(entries[start..], filterKey);
      assert forall k :: 0 <= k < |kept| ==> StartsWith(kept[k].path, filterKey) by {
        forall k | 0 <= k < |kept| ensures StartsWith(kept[k].path, filterKey) {
          assert kept[k] in kept;
        }
      }
      PageOf(kept, maxCount)
  }

  /** `iter().position`: the first index whose path is `name`. */
  method Position(entries: seq<Entry>, name: string) returns (r: Option<nat>)
    ensures r == IndexOf(entries, name)
  {
    var index := 0;
    while index < |entries| && entries[index].path != name
      invariant 0 <= index <= |entries|
      invariant forall k :: 0 <= k < index ==> entries[k].path != name
    {
      index := index + 1;
    }
    if index == |entries| {
      assert forall k :: 0 <= k < |entries| ==> entries[k].path != name;
      IndexOfAbsent(entries, name);
      return None;
    }
    IndexOfFirst(entries, name, index);
    return Some(index);
  }

  lemma {:induction false} IndexOfAbsent(entries: seq<Entry>, name: string)
    requires forall k :: 0 <= k < |entries| ==> entries[k].path != name
    ensures IndexOf(entries, name) == None
  {
    if entries != [] {
      IndexOfAbsent(entries[1..], name);
    }
  }

  lemma {:induction false} IndexOfFirst(entries: seq<Entry>, name: string, i: nat)
    requires i < |entries| && entries[i].path == name
    requires forall k :: 0 <= k < i ==> entries[k].path != name
    ensures IndexOf(entries, name) == Some(i)
  {
    if i > 0 {
      IndexOfFirst(entries[1..], name, i - 1);
    }
  }

  /** `retain`: the matching entries, collected front to back. */
  method Retain(entries: seq<Entry>, key: string) returns (kept: seq<Entry>)
    ensures kept == KeepMatching(entries, key)
  {
    kept := [];
    var i := 0;
    while i < |entries|
      invariant 0 <= i <= |entries|
      invariant kept == KeepMatching(entries[..i], key)
    {
      assert entries[..i + 1] == entries[..i] + [entries[i]];
      KeepMatchingSnoc(entries[..i], entries[i], key);
      if StartsWith(entries[i].path, key) {
        kept := kept + [entries[i]];
      }
      i := i + 1;
    }
    assert entries[..i] == entries;
  }

  /** `filter_result`: edits the listing in place to the page and returns
      the continuation token. */
  method FilterResult(v: FileList, filterKey: string, maxCount: nat, lastEnd: Option<string>)
    returns (r: Outcome<Option<string>>)
    modifies v
    ensures var p := Page(old(v.entries), filterKey, maxCount, lastEnd);
            (r.Panic? <==> p.Panic?) &&
            (p.Done? ==> r == Done(p.value.1) && v.entries == p.value.0)
  {
    ghost var entries := v.entries;
    if lastEnd.Some? {
      var index := Position(v.entries, lastEnd.value);
      if index.None? {
        v.entries := [];
        return Done(None);
      }
      v.entries := v.entries[index.value + 1..];
    }
    assert StartOf(entries, lastEnd).Some? && v.entries == entries[StartOf(entries, lastEnd).value..];
    var kept := Retain(v.entries, filterKey);
    PageAt(entries, filterKey, maxCount, lastEnd);
    v.entries := kept;
    r := Truncate(v, maxCount);
  }

  /** The end of `filter_result`: the listing cut to `maxCount` entries in
      place, and the token naming the last one left when some were cut. */
  method Truncate(v: FileList, maxCount: nat) returns (r: Outcome<Option<string>>)
    modifies v
    ensures var p := PageOf(old(v.entries), maxCount);
            (r.Panic? <==> p.Panic?) &&
            (p.Done? ==> r == Done(p.value.1) && v.entries == p.value.0)
  {
    if |v.entries| <= maxCount {
      return Done(None);
    }
    v.entries := v.entries[..maxCount];
    if |v.entries| == 0 {
      return Panic("called `Option::unwrap()` on a `None` value");
    }
    return Done(Some(v.entries[|v.entries| - 1].path));
  }

  /** Paths that occur once each in the listing. */
  predicate DistinctPaths(entries: seq<Entry>)
  {
    forall i, j :: 0 <= i < j < |entries| ==> entries[i].path != entries[j].path
  }

  /** With distinct paths, the position of an entry's path is its index. */
  lemma IndexOfDistinct(entries: seq<Entry>, i: nat)
    requires DistinctPaths(entries) && i < |entries|
    ensures IndexOf(entries, entries[i].path) == Some(i)
  {
  }

  /** The step of `KeepMatchingSplit` that adds the listing's last entry. */
  lemma KeepMatchingSplitStep(entries: seq<Entry>, key: string, p: nat, m: nat)
    requires |entries| > 0
    requires var init := entries[..|entries| - 1];
      && p < |init| && m < |KeepMatching(init, key)|
      && init[p] == KeepMatching(init, key)[m]
      && KeepMatching(init[p + 1..], key) == KeepMatching(init, key)[m + 1..]
    ensures p < |entries| && entries[p] == KeepMatching(entries, key)[m]
    ensures KeepMatching(entries[p + 1..], key) == KeepMatching(entries, key)[m + 1..]
  {
    var init, x := entries[..|entries| - 1], entries[|entries| - 1];
    var kx := if StartsWith(x.path, key) then [x] else [];
    var ki := KeepMatching(init, key);
    assert KeepMatching(entries, key) == ki + kx;
    assert KeepMatching(entries[p + 1..], key) == KeepMatching(init[p + 1..], key) + kx by {
      assert entries[p + 1..] == init[p + 1..] + [x];
      KeepMatchingSnoc(init[p + 1..], x, key);
    }
    assert (ki + kx)[m + 1..] == ki[m + 1..] + kx;
  }

  /** The `m`-th kept entry sits at some position `p` of the listing; the
      kept entries up to and after it come from the listing up to and after
      `p`. */
  lemma {:induction false} KeepMatchingSplit(entries: seq<Entry>, key: string, m: nat)
    returns (p: nat)
    requires m < |KeepMatching(entries, key)|
    ensures p < |entries| && entries[p] == KeepMatching(entries, key)[m]
    ensures KeepMatching(entries[p + 1..], key) == KeepMatching(entries, key)[m + 1..]
  {
    var init := entries[..|entries| - 1];
    if m < |KeepMatching(init, key)| {
      p := KeepMatchingSplit(init, key, m);
      KeepMatchingSplitStep(entries, key, p, m);
    } else {
      p := |entries| - 1;
      assert entries[p + 1..] == [];
    }
  }

  /** A page that starts somewhere is the cut of the entries kept from there. */
  lemma PageAt(entries: seq<Entry>, filterKey: string, maxCount: nat, lastEnd: Option<string>)
    requires StartOf(entries, lastEnd).Some?
    ensures Page(entries, filterKey, maxCount, lastEnd)
         == PageOf(KeepMatching(entries[StartOf(entries, lastEnd).value..], filterKey), maxCount)
  {
  }

  /** With distinct paths, the listing resumed after the `m`-th entry kept
      from `start` keeps exactly the entries kept after it. */
  lemma ResumePoint(entries: seq<Entry>, start: nat, key: string, m: nat) returns (p: nat)
    requires DistinctPaths(entries) && start <= |entries|
    requires m < |KeepMatching(entries[start..], key)|
    ensures StartOf(entries, Some(KeepMatching(entries[start..], key)[m].path)) == Some(p)
    ensures p <= |entries|
    ensures KeepMatching(entries[p..], key) == KeepMatching(entries[start..], key)[m + 1..]
  {
    var suffix := entries[start..];
    var q := KeepMatchingSplit(suffix, key, m);
    assert entries[start + q] == suffix[q];
    IndexOfDistinct(entries, start + q);
    p := start + q + 1;
    assert entries[p..] == suffix[q + 1..];
  }

  /** Resuming: with distinct paths, asking again with the returned token
      over the same listing and key gives the page that follows the
      previous one. */
  lemma ResumeContinues(entries: seq<Entry>, filterKey: string, maxCount: nat, lastEnd: Option<string>)
    requires DistinctPaths(entries)
    requires Page(entries, filterKey, maxCount, lastEnd).Done?
    requires Page(entries, filterKey, maxCount, lastEnd).value.1.Some?
    ensures StartOf(entries, lastEnd).Some?
    ensures var token := Page(entries, filterKey, maxCount, lastEnd).value.1;
            var kept := KeepMatching(entries[StartOf(entries, lastEnd).value..], filterKey);
            Page(entries, filterKey, maxCount, token) == PageOf(kept[maxCount..], maxCount)
  {
    var start := StartOf(entries, lastEnd).value;
    var kept := KeepMatching(entries[start..], filterKey);
    PageAt(entries, filterKey, maxCount, lastEnd);
    var p := ResumePoint(entries, start, filterKey, maxCount - 1);
    PageAt(entries, filterKey, maxCount, Some(kept[maxCount - 1].path));
  }
}
