/** The virtual-prefix map of s3archivefs-lambda/src/vmap.rs: mapping lines
    `virtual/prefix|s3://bucket/path/object` are loaded from numbered
    environment entries and an optional mapping file; a query picks the
    mapping whose virtual prefix and the queried prefix are prefixes of one
    another, and splits its target into bucket, object prefix and object. */
module VMap {
  import opened Wrappers
  import opened Strings

  // ---------------------------------------------------------------------
  // Byte-wise string order (Rust's `Ord` for `String`)

  /** `a < b` in lexicographic byte order: a proper prefix comes first. */
  predicate Less(a: string, b: string)
    decreases |a|
  {
    if |a| == 0 then |b| > 0
    else if |b| == 0 then false
    else a[0] < b[0] || (a[0] == b[0] && Less(a[1..], b[1..]))
  }

  lemma {:induction false} LessIrreflexive(a: string)
    ensures !Less(a, a)
    decreases |a|
  {
    if |a| > 0 {
      LessIrreflexive(a[1..]);
    }
  }

  lemma {:induction false} LessTransitive(a: string, b: string, c: string)
    requires Less(a, b) && Less(b, c)
    ensures Less(a, c)
    decreases |a|
  {
    if |a| > 0 && a[0] == b[0] && b[0] == c[0] {
      LessTransitive(a[1..], b[1..], c[1..]);
    }
  }

  lemma {:induction false} LessTotal(a: string, b: string)
    requires a != b
    ensures Less(a, b) || Less(b, a)
    decreases |a|
  {
    if |a| > 0 && |b| > 0 && a[0] == b[0] {
      assert a == [a[0]] + a[1..] && b == [b[0]] + b[1..];
      LessTotal(a[1..], b[1..]);
    }
  }

  lemma LessAsymmetric(a: string, b: string)
    requires Less(a, b)
    ensures !Less(b, a)
  {
    if Less(b, a) {
      LessTransitive(a, b, a);
      LessIrreflexive(a);
    }
  }

  /** Strictly increasing, hence also free of duplicates. */
  predicate Sorted(s: seq<string>)
  {
    forall i, j :: 0 <= i < j < |s| ==> Less(s[i], s[j])
  }

  /** `x` put into its place in a sorted sequence. */
  function InsertSorted(s: seq<string>, x: string): (r: seq<string>)
    requires Sorted(s) && x !in s
    ensures Sorted(r) && |r| == |s| + 1
    ensures forall y :: y in r <==> y in s || y == x
  {
    if s == [] then [x]
    else if Less(x, s[0]) then
      assert forall j :: 0 < j < |s| ==> Less(x, s[j]) by {
        forall j | 0 < j < |s| ensures Less(x, s[j]) { LessTransitive(x, s[0], s[j]); }
      }
      [x] + s
    else
      LessTotal(x, s[0]);
      var rest := InsertSorted(s[1..], x);
      assert forall j :: 0 <= j < |rest| ==> Less(s[0], rest[j]) by {
        forall j | 0 <= j < |rest| ensures Less(s[0], rest[j]) {
          assert rest[j] in rest;
          if rest[j] != x {
            var k :| 0 <= k < |s[1..]| && s[1..][k] == rest[j];
            assert s[k + 1] == rest[j];
          }
        }
      }
      [s[0]] + rest
  }

  // ---------------------------------------------------------------------
  // Loading

  /** How many numbered environment entries are read. */
  const MAX_ENV_PREFIX_VMAP: nat := 20

  /** One mapping line: exactly two '|'-separated parts, the virtual prefix
      with every leading '/' removed and the target; anything else is
      skipped. */
  function ParseLine(line: string): (r: Option<(string, string)>)
    ensures r.Some? ==> !StartsWith(r.value.0, "/")
  {
    var parts := Split(line, '|');
    if |parts| != 2 then None
    else Some((TrimStartMatches(parts[0], "/"), parts[1]))
  }

  /** A line written as `prefix|target` is read back as that pair, with the
      prefix's leading '/' dropped; in particular `/|target` is the root
      mapping "". */
  lemma ParseLineRoundTrip(prefix: string, target: string)
    requires '|' !in prefix && '|' !in target
    ensures ParseLine(prefix + "|" + target) == Some((TrimStartMatches(prefix, "/"), target))
    ensures ParseLine("/|" + target) == Some(("", target))
  {
    SplitAppend(prefix, '|', target);
    SplitNoSep(target, '|');
    assert prefix + "|" + target == prefix + ['|'] + target;
    SplitAppend("/", '|', target);
    assert "/|" + target == "/" + ['|'] + target;
  }

  /** A line with no '|' or with more than one is skipped. */
  lemma ParseLineSkips(a: string, b: string, c: string)
    requires '|' !in a
    ensures ParseLine(a).None?
    ensures ParseLine(a + "|" + b + "|" + c).None?
  {
    SplitNoSep(a, '|');
    var rest := b + "|" + c;
    assert a + "|" + b + "|" + c == a + ['|'] + rest;
    SplitAppend(a, '|', rest);
    assert rest[|b|] == '|';
    JoinSplit(rest, '|');
    assert |Split(rest, '|')| != 1;
  }

  /** One insertion of a parsed line; a repeated prefix overwrites. */
  function LoadLine(m: map<string, string>, line: string): map<string, string>
  {
    match ParseLine(line)
    case None => m
    case Some(kv) => m[kv.0 := kv.1]
  }

  /** The map after inserting `lines` in order. */
  function Load(m: map<string, string>, lines: seq<string>): map<string, string>
  {
    if lines == [] then m
    else LoadLine(Load(m, lines[..|lines| - 1]), lines[|lines| - 1])
  }

  /** Loading one more line is one more insertion. */
  lemma LoadSnoc(m: map<string, string>, lines: seq<string>, line: string)
    ensures Load(m, lines + [line]) == LoadLine(Load(m, lines), line)
  {
    assert (lines + [line])[..|lines|] == lines;
  }

  /** The last line naming a prefix decides its target. */
  lemma {:induction false} LoadLastWins(m: map<string, string>, lines: seq<string>, i: nat, k: string, v: string)
    requires i < |lines| && ParseLine(lines[i]) == Some((k, v))
    requires forall j :: i < j < |lines| ==> ParseLine(lines[j]).None? || ParseLine(lines[j]).value.0 != k
    ensures k in Load(m, lines) && Load(m, lines)[k] == v
  {
    if i < |lines| - 1 {
      var init := lines[..|lines| - 1];
      assert init[i] == lines[i];
      LoadLastWins(m, init, i, k, v);
    }
  }

  /** The number of leading environment entries read, starting from entry
      `j`: up to the first missing one, never more than 20 in all. */
  function EnvCountFrom(env: seq<Option<string>>, j: nat): (n: nat)
    requires j <= MAX_ENV_PREFIX_VMAP && j <= |env|
    requires forall k :: 0 <= k < j ==> env[k].Some?
    ensures j <= n <= MAX_ENV_PREFIX_VMAP && n <= |env|
    ensures forall k :: 0 <= k < n ==> env[k].Some?
    ensures n < MAX_ENV_PREFIX_VMAP && n < |env| ==> env[n].None?
    decreases MAX_ENV_PREFIX_VMAP - j
  {
    if j == MAX_ENV_PREFIX_VMAP || j == |env| || env[j].None? then j
    else EnvCountFrom(env, j + 1)
  }

  /** The lines taken from the environment (`env[i - 1]` is entry `i`). */
  function EnvLines(env: seq<Option<string>>): (r: seq<string>)
    ensures |r| <= MAX_ENV_PREFIX_VMAP && |r| <= |env|
    ensures forall k :: 0 <= k < |r| ==> env[k] == Some(r[k])
    ensures |r| < MAX_ENV_PREFIX_VMAP && |r| < |env| ==> env[|r|].None?
  {
    var n := EnvCountFrom(env, 0);
    seq(n, k requires 0 <= k < n => env[k].value)
  }

  /** The mapping: the prefix map and its keys in sorted order. */
  datatype PrefixVMap = PrefixVMap(vmap: map<string, string>, keys: seq<string>)
  {
    /** `keys` is exactly the set of prefixes, sorted. */
    ghost predicate Valid()
    {
      Sorted(keys) && (forall k :: k in keys <==> k in vmap)
    }
  }

  /** `vmap.keys()` collected and sorted (`keys.sort()`): every prefix once,
      in increasing byte order. */
  method SortedKeys(vmap: map<string, string>) returns (keys: seq<string>)
    ensures Sorted(keys)
    ensures forall k :: k in keys <==> k in vmap
  {
    keys := [];
    var rest := vmap.Keys;
    while rest != {}
      invariant Sorted(keys)
      invariant forall k :: k in keys <==> k in vmap && k !in rest
      invariant rest <= vmap.Keys
      decreases |rest|
    {
      var k :| k in rest;
      keys := InsertSorted(keys, k);
      rest := rest - {k};
    }
  }

  /** The environment part of `PrefixVMap::new`: entries 1 to 20 are read in
      order until the first missing one, and each is inserted. */
  method LoadEnv(env: seq<Option<string>>) returns (vmap: map<string, string>)
    ensures vmap == Load(map[], EnvLines(env))
  {
    ghost var envLines := EnvLines(env);
    vmap := map[];
    var i := 1;
    while i <= MAX_ENV_PREFIX_VMAP
      invariant 1 <= i <= MAX_ENV_PREFIX_VMAP + 1
      invariant i - 1 <= |envLines|
      invariant vmap == Load(map[], envLines[..i - 1])
    {
      if i > |env| || env[i - 1].None? {
        break;
      }
      var line := env[i - 1].value;
      assert envLines[..i] == envLines[..i - 1] + [line];
      LoadSnoc(map[], envLines[..i - 1], line);
      vmap := LoadLine(vmap, line);
      i := i + 1;
    }
    assert envLines[..i - 1] == envLines;
  }

  /** The mapping-file part of `PrefixVMap::new`: each line is inserted in
      order. */
  method LoadFile(vmap0: map<string, string>, lines: seq<string>) returns (vmap: map<string, string>)
    ensures vmap == Load(vmap0, lines)
  {
    vmap := vmap0;
    var j := 0;
    while j < |lines|
      invariant 0 <= j <= |lines|
      invariant vmap == Load(vmap0, lines[..j])
    {
      assert lines[..j + 1] == lines[..j] + [lines[j]];
      LoadSnoc(vmap0, lines[..j], lines[j]);
      vmap := LoadLine(vmap, lines[j]);
      j := j + 1;
    }
    assert lines[..j] == lines;
  }

  /** Loading two runs of lines one after the other is loading them
      together. */
  lemma {:induction false} LoadAppend(m: map<string, string>, a: seq<string>, b: seq<string>)
    ensures Load(Load(m, a), b) == Load(m, a + b)
    decreases |b|
  {
    if b == [] {
      assert a + b == a;
    } else {
      var init, x := b[..|b| - 1], b[|b| - 1];
      LoadAppend(m, a, init);
      assert a + b == (a + init) + [x];
      LoadSnoc(m, a + init, x);
    }
  }

  /** `PrefixVMap::new`: insert the environment lines, then the lines of the
      mapping file (`extLines`, when the file is configured, exists and is
      readable), then collect and sort the keys. */
  method NewPrefixVMap(env: seq<Option<string>>, extLines: Option<seq<string>>) returns (pv: PrefixVMap)
    ensures pv.Valid()
    ensures pv.vmap == Load(map[], EnvLines(env) + (if extLines.Some? then extLines.value else []))
  {
    var vmap := LoadEnv(env);
    if extLines.Some? {
      vmap := LoadFile(vmap, extLines.value);
    }
    LoadAppend(map[], EnvLines(env), if extLines.Some? then extLines.value else []);
    var keys := SortedKeys(vmap);
    pv := PrefixVMap(vmap, keys);
  }

  // ---------------------------------------------------------------------
  // Query

  /** The `rfind` test: the key, cut to the query's length, is a prefix of
      the query, or the query is a prefix of the key. */
  predicate Matches(key: string, prefix: string)
  {
    if |prefix| > |key| then StartsWith(key, prefix[..|key|]) else StartsWith(key, prefix)
  }

  /** The test is a two-way prefix test; the root key "" matches every
      query. */
  lemma MatchesTwoWay(key: string, prefix: string)
    ensures Matches(key, prefix) <==> StartsWith(prefix, key) || StartsWith(key, prefix)
    ensures Matches("", prefix)
  {
  }

  /** `rfind` over `keys`: the index of the last key that matches. */
  function RFind(keys: seq<string>, prefix: string): (r: Option<nat>)
    ensures r.Some? ==> r.value < |keys| && Matches(keys[r.value], prefix)
    ensures r.Some? ==> forall j :: r.value < j < |keys| ==> !Matches(keys[j], prefix)
    ensures r.None? ==> forall j :: 0 <= j < |keys| ==> !Matches(keys[j], prefix)
  {
    if keys == [] then None
    else if Matches(keys[|keys| - 1], prefix) then Some(|keys| - 1)
    else RFind(keys[..|keys| - 1], prefix)
  }

  /** The virtual prefix `query` settles on: the last matching key, else
      the root key "" when it is mapped. */
  function SelectKey(pv: PrefixVMap, prefix: string): (r: Option<string>)
  {
    match RFind(pv.keys, prefix)
    case Some(i) => Some(pv.keys[i])
    case None => if "" in pv.vmap then Some("") else None
  }

  /** The selected key is the greatest mapped prefix, in byte order, that
      matches the query; nothing is selected only when no mapped prefix
      matches, which cannot happen once the root "" is mapped. */
  lemma SelectKeyGreatest(pv: PrefixVMap, prefix: string)
    requires pv.Valid()
    ensures SelectKey(pv, prefix).Some? ==>
              var key := SelectKey(pv, prefix).value;
              key in pv.vmap && Matches(key, prefix) &&
              forall k :: k in pv.vmap && Less(key, k) ==> !Matches(k, prefix)
    ensures SelectKey(pv, prefix).None? <==> forall k :: k in pv.vmap ==> !Matches(k, prefix)
    ensures "" in pv.vmap ==> SelectKey(pv, prefix).Some?
  {
    MatchesTwoWay("", prefix);
    match RFind(pv.keys, prefix)
    case Some(i) =>
      forall k | k in pv.vmap && Less(pv.keys[i], k)
        ensures !Matches(k, prefix)
      {
        var j :| 0 <= j < |pv.keys| && pv.keys[j] == k;
        if j < i {
          LessAsymmetric(pv.keys[j], pv.keys[i]);
        } else if j == i {
          LessIrreflexive(k);
        }
      }
    case None =>
      forall k | k in pv.vmap
        ensures !Matches(k, prefix)
      {
        var j :| 0 <= j < |pv.keys| && pv.keys[j] == k;
      }
  }

  /** The parts of an `s3://bucket/path` URL: scheme, host and path (the
      path starts with '/' unless it is empty). */
  datatype Url = Url(scheme: string, host: string, path: string)

  /** A string is its prefix followed by the rest. */
  lemma PrefixSplit(s: string, p: string)
    requires StartsWith(s, p)
    ensures s == p + s[|p|..]
  {
  }

  /** Putting the pieces of a URL split back together. */
  lemma UrlParts(s: string, scheme: string, rest: string, after: string, host: string, path: string)
    requires s == scheme + rest && rest == "://" + after && after == host + path
    ensures s == scheme + "://" + host + path
  {
    assert scheme + "://" + host + path == scheme + ("://" + (host + path));
  }

  /** A literal `scheme://host/path` split of a target. */
  function ParseUrl(s: string): (r: Option<Url>)
    ensures r.Some? ==> s == r.value.scheme + "://" + r.value.host + r.value.path
    ensures r.Some? ==> '/' !in r.value.host && (r.value.path == "" || r.value.path[0] == '/')
  {
    var scheme := TakeUntil(s, ':');
    var rest := s[|scheme|..];
    if !StartsWith(rest, "://") then None
    else
      var after := rest[3..];
      var host := TakeUntil(after, '/');
      var path := after[|host|..];
      PrefixSplit(s, scheme);
      PrefixSplit(rest, "://");
      PrefixSplit(after, host);
      UrlParts(s, scheme, rest, after, host, path);
      Some(Url(scheme, host, path))
  }

  /** A mapping's target: the bucket, the object's prefix (the path's
      segments but the last, joined by '/') and the object (the last
      segment, which must not be empty). Only the schemes s3 and S3 with a
      bucket are accepted. */
  function ParseTarget(target: string): (r: Option<(string, string, string)>)
  {
    match ParseUrl(target)
    case None => None
    case Some(url) =>
      if url.scheme != "s3" && url.scheme != "S3" then None
      else if url.host == "" then None
      else
        var parts := Split(TrimStartMatches(url.path, "/"), '/');
        var obj := parts[|parts| - 1];
        if obj == "" then None
        else Some((url.host, Join(parts[..|parts| - 1], '/'), obj))
  }

  /** What `ParseTarget` accepts puts the obj key back together: the
      path of the target, without leading '/', is the prefix, '/', and the
      obj (or just the obj when there is no prefix). */
  lemma ParseTargetSound(target: string)
    requires ParseTarget(target).Some?
    ensures var (bucket, prefix, obj) := ParseTarget(target).value;
            var url := ParseUrl(target).value;
            var key := TrimStartMatches(url.path, "/");
            bucket == url.host && bucket != "" && obj != "" && '/' !in obj &&
            (key == obj || key == prefix + "/" + obj)
  {
    var url := ParseUrl(target).value;
    var key := TrimStartMatches(url.path, "/");
    SplitLast(key, '/');
  }

  /** A target written as `s3://bucket/prefix/object` (or `s3://bucket/object`
      when the prefix is empty) is read back as those three parts. */
  lemma ParseTargetRoundTrip(bucket: string, prefix: string, obj: string)
    requires bucket != "" && '/' !in bucket && ':' !in bucket
    requires obj != "" && '/' !in obj
    requires !StartsWith(prefix, "/")
    ensures var path := if prefix == "" then obj else prefix + "/" + obj;
            ParseTarget("s3://" + bucket + "/" + path) == Some((bucket, prefix, obj))
  {
    var path := if prefix == "" then obj else prefix + "/" + obj;
    ParseUrlOf(bucket, path);
    TrimOneSlash(path);
    ObjectKeySplit(prefix, obj);
  }

  /** The URL split of an `s3://bucket/path` target. */
  lemma ParseUrlOf(bucket: string, path: string)
    requires '/' !in bucket && ':' !in bucket
    ensures ParseUrl("s3://" + bucket + "/" + path) == Some(Url("s3", bucket, "/" + path))
  {
    var after := bucket + "/" + path;
    var target := "s3://" + bucket + "/" + path;
    assert target == "s3" + ("://" + after);
    TakeUntilStops("s3", ':', "://" + after);
    assert target[2..] == "://" + after;
    assert ("://" + after)[3..] == after;
    assert after == bucket + ("/" + path);
    TakeUntilStops(bucket, '/', "/" + path);
    assert after[|bucket|..] == "/" + path;
  }

  /** Trimming the leading '/' of `/path` gives `path` when `path` does not
      start with '/' itself. */
  lemma TrimOneSlash(path: string)
    requires !StartsWith(path, "/")
    ensures TrimStartMatches("/" + path, "/") == path
  {
    assert ("/" + path)[1..] == path;
  }

  /** An object key `prefix/object` (or `object`) splits into the prefix's
      segments and the object. */
  lemma ObjectKeySplit(prefix: string, obj: string)
    requires obj != "" && '/' !in obj && !StartsWith(prefix, "/")
    ensures var key := if prefix == "" then obj else prefix + "/" + obj;
            var parts := Split(key, '/');
            !StartsWith(key, "/") && parts[|parts| - 1] == obj && Join(parts[..|parts| - 1], '/') == prefix
  {
    if prefix == "" {
      SplitNoSep(obj, '/');
      assert obj[0] in obj;
    } else {
      assert prefix + "/" + obj == prefix + ['/'] + obj;
      SplitSnoc(prefix, '/', obj);
      var parts := Split(prefix, '/') + [obj];
      assert parts[..|parts| - 1] == Split(prefix, '/');
      JoinSplit(prefix, '/');
      assert (prefix + "/" + obj)[..1] == prefix[..1];
    }
  }

  /** `TakeUntil` stops at the first occurrence of the character. */
  lemma {:induction false} TakeUntilStops(a: string, c: char, b: string)
    requires c !in a && |b| > 0 && b[0] == c
    ensures TakeUntil(a + b, c) == a
    decreases |a|
  {
    if |a| > 0 {
      assert (a + b)[1..] == a[1..] + b;
      TakeUntilStops(a[1..], c, b);
    }
  }

  /** `PrefixVMap::query`: the selected virtual prefix with the bucket,
      obj prefix and obj of its target. */
  function Query(pv: PrefixVMap, prefix: string): (r: Option<(string, string, string, string)>)
    requires pv.Valid()
    ensures r.Some? ==> SelectKey(pv, prefix) == Some(r.value.0) && r.value.0 in pv.vmap
    ensures r.Some? ==> ParseTarget(pv.vmap[r.value.0]) == Some((r.value.1, r.value.2, r.value.3))
    ensures SelectKey(pv, prefix).Some? && ParseTarget(pv.vmap[SelectKey(pv, prefix).value]).Some? ==> r.Some?
  {
    SelectKeyGreatest(pv, prefix);
    match SelectKey(pv, prefix)
    case None => None
    case Some(key) =>
      match ParseTarget(pv.vmap[key])
      case None => None
      case Some(t) => Some((key, t.0, t.1, t.2))
  }
}
