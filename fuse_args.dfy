/** The command line of the FUSE front end (s3archivefs-fuse/src/main.rs):
    the application's own options are taken out of the argument list, the
    rest is handed to libfuse with single-threaded mode forced, and two
    access guards of the FUSE callbacks. */
module FuseArgs {
  import opened Wrappers
  import opened Strings

  /** The options that take a value and panic without one. */
  datatype ValueFlag = Region | Bucket | Key | Cache

  /** `-r/--region`, `-b/--bucket`, `-k/--key`, `-c/--cache`. */
  function ValueFlagOf(arg: string): Option<ValueFlag>
  {
    if arg == "-r" || arg == "--region" then Some(Region)
    else if arg == "-b" || arg == "--bucket" then Some(Bucket)
    else if arg == "-k" || arg == "--key" then Some(Key)
    else if arg == "-c" || arg == "--cache" then Some(Cache)
    else None
  }

  predicate IsSizeFlag(arg: string) { arg == "-s" || arg == "--size" }

  predicate IsHelpFlag(arg: string) { arg == "-h" || arg == "--help" }

  /** An argument that can be taken as an option's value. */
  predicate IsValue(arg: string) { !StartsWith(arg, "-") }

  /** What the filter loop has collected: the flags' values, the help flag
      and the arguments forwarded to libfuse (`rest_args`). */
  datatype Collected = Collected(help: bool, region: Option<string>, bucket: Option<string>,
                                 key: Option<string>, cachefile: Option<string>,
                                 chunksize: Option<string>, rest: seq<string>)

  function SetValue(c: Collected, f: ValueFlag, v: string): Collected
  {
    match f
    case Region => c.(region := Some(v))
    case Bucket => c.(bucket := Some(v))
    case Key => c.(key := Some(v))
    case Cache => c.(cachefile := Some(v))
  }

  /** One pass of the filter loop: the argument at the head of the queue,
      with the value it takes, is consumed; a value option without a value
      panics, and `-s/--size` without one is dropped. */
  function Step(args: seq<string>, c: Collected): (r: Outcome<(seq<string>, Collected)>)
    requires args != []
    ensures r.Done? ==> |r.value.0| < |args|
  {
    var arg, tail := args[0], args[1..];
    var hasValue := |tail| > 0 && IsValue(tail[0]);
    match ValueFlagOf(arg)
    case Some(f) =>
      if hasValue then Done((tail[1..], SetValue(c, f, tail[0])))
      else Panic("please specify the option's value")
    case None =>
      if IsSizeFlag(arg) then
        if hasValue then Done((tail[1..], c.(chunksize := Some(tail[0]))))
        else Done((tail, c))
      else if IsHelpFlag(arg) then Done((tail, c.(help := true, rest := c.rest + [arg])))
      else Done((tail, c.(rest := c.rest + [arg])))
  }

  /** The filter loop over the arguments still queued. */
  function FilterFrom(args: seq<string>, c: Collected): Outcome<Collected>
    decreases |args|
  {
    if args == [] then Done(c)
    else match Step(args, c)
      case Panic(msg) => Panic(msg)
      case Done(next) => FilterFrom(next.0, next.1)
  }

  /** Values were taken only from arguments not starting with '-', and
      nothing forwarded past the executable name is one of the
      application's options. */
  predicate Clean(c: Collected)
  {
    (c.region.Some? ==> IsValue(c.region.value)) &&
    (c.bucket.Some? ==> IsValue(c.bucket.value)) &&
    (c.key.Some? ==> IsValue(c.key.value)) &&
    (c.cachefile.Some? ==> IsValue(c.cachefile.value)) &&
    (c.chunksize.Some? ==> IsValue(c.chunksize.value)) &&
    |c.rest| >= 1 &&
    forall k :: 1 <= k < |c.rest| ==> ValueFlagOf(c.rest[k]).None? && !IsSizeFlag(c.rest[k])
  }

  /** One pass keeps `Clean` and only appends to the forwarded list. */
  lemma StepClean(args: seq<string>, c: Collected)
    requires args != [] && Clean(c)
    ensures Step(args, c).Done? ==> Clean(Step(args, c).value.1) && c.rest <= Step(args, c).value.1.rest
  {
    var arg, tail := args[0], args[1..];
    if ValueFlagOf(arg).Some? {
      if |tail| > 0 && IsValue(tail[0]) {
        SetValueClean(c, ValueFlagOf(arg).value, tail[0]);
      }
    } else if !IsSizeFlag(arg) {
      ForwardClean(c, arg, IsHelpFlag(arg) || c.help);
    }
  }

  lemma SetValueClean(c: Collected, f: ValueFlag, v: string)
    requires Clean(c) && IsValue(v)
    ensures Clean(SetValue(c, f, v)) && SetValue(c, f, v).rest == c.rest
  {
  }

  lemma ForwardClean(c: Collected, arg: string, help: bool)
    requires Clean(c) && ValueFlagOf(arg).None? && !IsSizeFlag(arg)
    ensures Clean(c.(help := help, rest := c.rest + [arg]))
  {
    var rest := c.rest + [arg];
    forall k | 1 <= k < |rest| ensures ValueFlagOf(rest[k]).None? && !IsSizeFlag(rest[k]) {
      if k < |c.rest| { assert rest[k] == c.rest[k]; }
    }
  }

  /** The loop keeps `Clean` and only ever appends to the forwarded list. */
  lemma {:induction false} FilterFromClean(args: seq<string>, c: Collected)
    requires Clean(c)
    ensures FilterFrom(args, c).Done? ==>
              Clean(FilterFrom(args, c).value) && c.rest <= FilterFrom(args, c).value.rest
    decreases |args|
  {
    if args != [] {
      StepClean(args, c);
      match Step(args, c)
      case Panic(_) =>
      case Done(next) =>
        FilterFromClean(next.0, next.1);
    }
  }

  /** Arguments none of which is an application option are all forwarded,
      in order; help is set exactly when one of them asks for it. */
  lemma {:induction false} FilterFromForwardsOthers(args: seq<string>, c: Collected)
    requires forall k :: 0 <= k < |args| ==> ValueFlagOf(args[k]).None? && !IsSizeFlag(args[k])
    ensures FilterFrom(args, c) ==
              Done(c.(rest := c.rest + args,
                      help := c.help || exists k :: 0 <= k < |args| && IsHelpFlag(args[k])))
    decreases |args|
  {
    if args == [] {
      assert c.rest + args == c.rest;
    } else {
      var arg, tail := args[0], args[1..];
      var c' := if IsHelpFlag(arg) then c.(help := true, rest := c.rest + [arg]) else c.(rest := c.rest + [arg]);
      assert Step(args, c) == Done((tail, c'));
      FilterFromForwardsOthers(tail, c');
      assert c.rest + [arg] + tail == c.rest + args;
      assert (exists k :: 0 <= k < |args| && IsHelpFlag(args[k])) <==>
             IsHelpFlag(arg) || (exists k :: 0 <= k < |tail| && IsHelpFlag(tail[k])) by {
        if exists k :: 0 <= k < |args| && IsHelpFlag(args[k]) {
          var k :| 0 <= k < |args| && IsHelpFlag(args[k]);
          if k > 0 { assert tail[k - 1] == args[k]; }
        }
        if exists k :: 0 <= k < |tail| && IsHelpFlag(tail[k]) {
          var k :| 0 <= k < |tail| && IsHelpFlag(tail[k]);
          assert args[k + 1] == tail[k];
        }
      }
    }
  }

  /** The mount configuration handed on after the checks. */
  datatype Config = Config(region: Option<string>, bucket: string, key: string, cachefile: string,
                           chunkSize: Option<nat>)

  /** How `main` goes on: show the help with the forwarded arguments, or
      mount with a configuration and the libfuse arguments. */
  datatype Launch = ShowHelp(args: seq<string>) | Mount(config: Config, fuseArgs: seq<string>)

  /** The argument handling of `main`: take the executable name (panics on
      an empty list), run the filter loop over a queue, stop at help, check
      that bucket, key and cache file were given, parse the chunk size, and
      append "-s" unless the forwarded list already holds it. */
  method ParseCommandLine(argv: seq<string>) returns (r: Outcome<Launch>)
    ensures argv == [] ==> r.Panic?
    ensures argv != [] ==>
              var f := FilterFrom(argv[1..], Collected(false, None, None, None, None, None, [argv[0]]));
              match f
              case Panic(_) => r.Panic?
              case Done(c) =>
                if c.help then r == Done(ShowHelp(c.rest))
                else if c.bucket.None? || c.key.None? || c.cachefile.None? then r.Panic?
                else r.Done? && r.value.Mount? &&
                     r.value.config == Config(c.region, c.bucket.value, c.key.value, c.cachefile.value,
                                              if c.chunksize.None? then None else ParseUsize(c.chunksize.value)) &&
                     r.value.fuseArgs == if "-s" in c.rest then c.rest else c.rest + ["-s"]
  {
    if argv == [] {
      return Panic("called `Option::unwrap()` on a `None` value");
    }
    var args := argv[1..];
    var c := Collected(false, None, None, None, None, None, [argv[0]]);
    ghost var final := FilterFrom(args, c);
    while args != []
      invariant FilterFrom(args, c) == final
      decreases |args|
    {
      ghost var step := Step(args, c);
      var arg := args[0];
      args := args[1..];
      var flag := ValueFlagOf(arg);
      if flag.Some? {
        if args != [] && IsValue(args[0]) {
          c := SetValue(c, flag.value, args[0]);
          args := args[1..];
          continue;
        }
        return Panic("please specify the option's value");
      } else if IsSizeFlag(arg) {
        if args != [] && IsValue(args[0]) {
          c := c.(chunksize := Some(args[0]));
          args := args[1..];
          continue;
        }
      } else if IsHelpFlag(arg) {
        c := c.(help := true, rest := c.rest + [arg]);
      } else {
        c := c.(rest := c.rest + [arg]);
      }
    }
    if c.help {
      return Done(ShowHelp(c.rest));
    }
    if c.bucket.None? {
      return Panic("please specify -b|--bucket <bucket>");
    }
    if c.key.None? {
      return Panic("please specify -k|--key <key>");
    }
    if c.cachefile.None? {
      return Panic("please specify -c|--cache <cachefile>");
    }
    var chunkSize := if c.chunksize.None? then None else ParseUsize(c.chunksize.value);
    var rest := c.rest;
    if "-s" !in rest {
      rest := rest + ["-s"];
    }
    return Done(Mount(Config(c.region, c.bucket.value, c.key.value, c.cachefile.value, chunkSize), rest));
  }

  /** libfuse always runs single-threaded: on the mount path the forwarded
      list starts with the executable name and holds "-s" exactly once after
      it, as its last element (a user's own "-s" is never forwarded); only an
      executable literally named "-s" suppresses the append. All values taken
      for the options do not start with '-'. */
  lemma SingleThreaded(argv: seq<string>)
    requires argv != []
    ensures var f := FilterFrom(argv[1..], Collected(false, None, None, None, None, None, [argv[0]]));
            f.Done? && !f.value.help && f.value.bucket.Some? && f.value.key.Some? && f.value.cachefile.Some? ==>
              var c := f.value;
              var fuseArgs := if "-s" in c.rest then c.rest else c.rest + ["-s"];
              fuseArgs[0] == argv[0] &&
              (argv[0] != "-s" ==>
                fuseArgs == c.rest + ["-s"] &&
                forall k :: 1 <= k < |fuseArgs| - 1 ==> fuseArgs[k] != "-s") &&
              (argv[0] == "-s" ==> fuseArgs == c.rest) &&
              IsValue(c.bucket.value) && IsValue(c.key.value) && IsValue(c.cachefile.value)
  {
    var c0 := Collected(false, None, None, None, None, None, [argv[0]]);
    FilterFromClean(argv[1..], c0);
    var f := FilterFrom(argv[1..], c0);
    if f.Done? {
      var c := f.value;
      assert c.rest[0] == argv[0] by { assert [argv[0]] <= c.rest; }
      if argv[0] != "-s" {
        assert "-s" !in c.rest by {
          forall k | 0 <= k < |c.rest| ensures c.rest[k] != "-s" {
            if k >= 1 { assert !IsSizeFlag(c.rest[k]); }
          }
        }
      }
    }
  }

  // ---------------------------------------------------------------------
  // Callback guards

  /** `O_ACCMODE` and `O_RDONLY` of Linux `<fcntl.h>`, and `EACCES`. */
  const O_ACCMODE: int := 3
  const O_RDONLY: int := 0
  const EACCES: int := 13

  /** `ops_open`: anything but a read-only open is refused with `-EACCES`.
      `flags & O_ACCMODE` of a two's complement `int` is `flags` modulo 4. */
  function OpsOpen(flags: int): (r: int)
    ensures r == 0 || r == -EACCES
  {
    if flags % 4 != O_RDONLY then -EACCES else 0
  }

  /** Read-only opens pass whatever other flags they carry; write-only and
      read-write opens are refused. */
  lemma OpsOpenAccess(other: int)
    ensures OpsOpen(4 * other + O_RDONLY) == 0
    ensures OpsOpen(4 * other + 1) == -EACCES
    ensures OpsOpen(4 * other + 2) == -EACCES
  {
  }

  /** `ops_getxattr`: a null or empty attribute name is answered with 0
      without asking the archive; otherwise the archive's answer
      (`archiveResult`) is returned. */
  function OpsGetxattr(name: Option<string>, archiveResult: int): (r: int)
    ensures name.None? || name.value == "" ==> r == 0
    ensures name.Some? && name.value != "" ==> r == archiveResult
  {
    if name.None? then 0
    else if |name.value| == 0 then 0
    else archiveResult
  }
}
