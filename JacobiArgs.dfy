/** parse_arguments of a6/ompjacobi.c: a scan over the command line that
    sets the timing flag, the iteration count, the thread count and the input
    file name. `atoi` is a parameter (any function from tokens to integers);
    the error exit becomes a Failure result. */
module JacobiArgs {
  import opened Wrappers

  datatype Config = Config(timing: bool, iterations: int, numThreads: int, filename: Option<string>)

  datatype ParseError = NoInputFile

  /** The values before the scan (a6/ompjacobi.c:11-14). */
  const Defaults := Config(false, 1, 1, None)

  /** What one step of the scan recognised. */
  datatype Item = Timing | Iterations(arg: string) | Threads(arg: string) | File(name: string)

  /** The tokens from argv[i] on, read as the loop reads them
      (a6/ompjacobi.c:16-26): "-T" alone; "-i" and "-t" take the next token
      when there is one; everything else, including a last "-i" or "-t", is a
      file name. */
  function Items(argv: seq<string>, i: nat): seq<Item>
    decreases |argv| - i
  {
    if i >= |argv| then []
    else if argv[i] == "-T" then [Timing] + Items(argv, i + 1)
    else if argv[i] == "-i" && i + 1 < |argv| then [Iterations(argv[i + 1])] + Items(argv, i + 2)
    else if argv[i] == "-t" && i + 1 < |argv| then [Threads(argv[i + 1])] + Items(argv, i + 2)
    else [File(argv[i])] + Items(argv, i + 1)
  }

  /** The effect of one item on the out-parameters. */
  function Set(cfg: Config, item: Item, atoi: string -> int): Config
  {
    match item
    case Timing => cfg.(timing := true)
    case Iterations(arg) => cfg.(iterations := atoi(arg))
    case Threads(arg) => cfg.(numThreads := atoi(arg))
    case File(name) => cfg.(filename := Some(name))
  }

  /** The items applied from left to right. */
  function Apply(cfg: Config, items: seq<Item>, atoi: string -> int): Config
    decreases |items|
  {
    if |items| == 0 then cfg else Apply(Set(cfg, items[0], atoi), items[1..], atoi)
  }

  /** The whole of parse_arguments: the scan from argv[1], then the check
      that a file name was seen (a6/ompjacobi.c:28-31). */
  function Parse(argv: seq<string>, atoi: string -> int): Result<Config, ParseError>
  {
    var cfg := Apply(Defaults, Items(argv, 1), atoi);
    if cfg.filename.None? then Failure(NoInputFile) else Success(cfg)
  }

  /** The same scan as a recursion over the index, one token or one flag
      with its argument at a time, as the loop takes them. */
  function Scan(cfg: Config, argv: seq<string>, i: nat, atoi: string -> int): Config
    decreases |argv| - i
  {
    if i >= |argv| then cfg
    else if argv[i] == "-T" then Scan(cfg.(timing := true), argv, i + 1, atoi)
    else if argv[i] == "-i" && i + 1 < |argv| then Scan(cfg.(iterations := atoi(argv[i + 1])), argv, i + 2, atoi)
    else if argv[i] == "-t" && i + 1 < |argv| then Scan(cfg.(numThreads := atoi(argv[i + 1])), argv, i + 2, atoi)
    else Scan(cfg.(filename := Some(argv[i])), argv, i + 1, atoi)
  }

  /** The index recursion and the item fold agree from every start. */
  lemma {:induction false} ScanIsApply(cfg: Config, argv: seq<string>, i: nat, atoi: string -> int)
    ensures Scan(cfg, argv, i, atoi) == Apply(cfg, Items(argv, i), atoi)
    decreases |argv| - i
  {
    if i < |argv| {
      if argv[i] == "-T" {
        ScanIsApply(cfg.(timing := true), argv, i + 1, atoi);
        ApplyCons(cfg, Timing, Items(argv, i + 1), atoi);
      } else if argv[i] == "-i" && i + 1 < |argv| {
        ScanIsApply(cfg.(iterations := atoi(argv[i + 1])), argv, i + 2, atoi);
        ApplyCons(cfg, Iterations(argv[i + 1]), Items(argv, i + 2), atoi);
      } else if argv[i] == "-t" && i + 1 < |argv| {
        ScanIsApply(cfg.(numThreads := atoi(argv[i + 1])), argv, i + 2, atoi);
        ApplyCons(cfg, Threads(argv[i + 1]), Items(argv, i + 2), atoi);
      } else {
        ScanIsApply(cfg.(filename := Some(argv[i])), argv, i + 1, atoi);
        ApplyCons(cfg, File(argv[i]), Items(argv, i + 1), atoi);
      }
    }
  }

  /** parse_arguments (a6/ompjacobi.c:10-32), with the index advanced inside
      the loop body for the argument of "-i" and "-t". */
  method ParseArguments(argv: seq<string>, atoi: string -> int) returns (r: Result<Config, ParseError>)
    ensures r == Parse(argv, atoi)
  {
    var timing := false;
    var iterations := 1;
    var numThreads := 1;
    var filename: Option<string> := None;
    var i := 1;
    while i < |argv|
      invariant 1 <= i && (i <= |argv| || i == 1)
      invariant Scan(Config(timing, iterations, numThreads, filename), argv, i, atoi) == Scan(Defaults, argv, 1, atoi)
      decreases |argv| - i
    {
      if argv[i] == "-T" {
        timing := true;
      } else if argv[i] == "-i" && i + 1 < |argv| {
        i := i + 1;
        iterations := atoi(argv[i]);
      } else if argv[i] == "-t" && i + 1 < |argv| {
        i := i + 1;
        numThreads := atoi(argv[i]);
      } else {
        filename := Some(argv[i]);
      }
      i := i + 1;
    }
    var cfg := Config(timing, iterations, numThreads, filename);
    ScanIsApply(Defaults, argv, 1, atoi);
    if filename.None? {
      r := Failure(NoInputFile);
    } else {
      r := Success(cfg);
    }
  }

  lemma ApplyCons(cfg: Config, item: Item, rest: seq<Item>, atoi: string -> int)
    ensures Apply(cfg, [item] + rest, atoi) == Apply(Set(cfg, item, atoi), rest, atoi)
  {
    assert ([item] + rest)[1..] == rest;
  }

  // ---------------------------------------------------------------------
  // What the scan leaves in each field

  predicate IsFile(item: Item) { item.File? }
  predicate IsIterations(item: Item) { item.Iterations? }
  predicate IsThreads(item: Item) { item.Threads? }

  /** The last file item wins; without one the file name is unchanged. */
  lemma {:induction false} ApplyFilename(cfg: Config, items: seq<Item>, atoi: string -> int)
    ensures (forall k :: 0 <= k < |items| ==> !IsFile(items[k])) ==>
      Apply(cfg, items, atoi).filename == cfg.filename
    ensures forall k ::
      0 <= k < |items| && IsFile(items[k]) && (forall m :: k < m < |items| ==> !IsFile(items[m])) ==>
      Apply(cfg, items, atoi).filename == Some(items[k].name)
    decreases |items|
  {
    if |items| > 0 {
      ApplyFilename(Set(cfg, items[0], atoi), items[1..], atoi);
      forall k | 0 <= k < |items| && IsFile(items[k]) && (forall m :: k < m < |items| ==> !IsFile(items[m]))
        ensures Apply(cfg, items, atoi).filename == Some(items[k].name)
      {
        if k > 0 {
          assert items[1..][k - 1] == items[k];
          forall m | k - 1 < m < |items| - 1
            ensures !IsFile(items[1..][m])
          {
            assert items[1..][m] == items[m + 1];
          }
        } else {
          forall m | 0 <= m < |items| - 1
            ensures !IsFile(items[1..][m])
          {
            assert items[1..][m] == items[m + 1];
          }
        }
      }
    }
  }

  /** The last "-i n" wins; without one the count is unchanged. */
  lemma {:induction false} ApplyIterations(cfg: Config, items: seq<Item>, atoi: string -> int)
    ensures (forall k :: 0 <= k < |items| ==> !IsIterations(items[k])) ==>
      Apply(cfg, items, atoi).iterations == cfg.iterations
    ensures forall k ::
      0 <= k < |items| && IsIterations(items[k]) && (forall m :: k < m < |items| ==> !IsIterations(items[m])) ==>
      Apply(cfg, items, atoi).iterations == atoi(items[k].arg)
    decreases |items|
  {
    if |items| > 0 {
      ApplyIterations(Set(cfg, items[0], atoi), items[1..], atoi);
      forall k | 0 <= k < |items| && IsIterations(items[k]) && (forall m :: k < m < |items| ==> !IsIterations(items[m]))
        ensures Apply(cfg, items, atoi).iterations == atoi(items[k].arg)
      {
        if k > 0 {
          assert items[1..][k - 1] == items[k];
          forall m | k - 1 < m < |items| - 1
            ensures !IsIterations(items[1..][m])
          {
            assert items[1..][m] == items[m + 1];
          }
        } else {
          forall m | 0 <= m < |items| - 1
            ensures !IsIterations(items[1..][m])
          {
            assert items[1..][m] == items[m + 1];
          }
        }
      }
    }
  }

  /** The last "-t n" wins; without one the count is unchanged. */
  lemma {:induction false} ApplyThreads(cfg: Config, items: seq<Item>, atoi: string -> int)
    ensures (forall k :: 0 <= k < |items| ==> !IsThreads(items[k])) ==>
      Apply(cfg, items, atoi).numThreads == cfg.numThreads
    ensures forall k ::
      0 <= k < |items| && IsThreads(items[k]) && (forall m :: k < m < |items| ==> !IsThreads(items[m])) ==>
      Apply(cfg, items, atoi).numThreads == atoi(items[k].arg)
    decreases |items|
  {
    if |items| > 0 {
      ApplyThreads(Set(cfg, items[0], atoi), items[1..], atoi);
      forall k | 0 <= k < |items| && IsThreads(items[k]) && (forall m :: k < m < |items| ==> !IsThreads(items[m]))
        ensures Apply(cfg, items, atoi).numThreads == atoi(items[k].arg)
      {
        if k > 0 {
          assert items[1..][k - 1] == items[k];
          forall m | k - 1 < m < |items| - 1
            ensures !IsThreads(items[1..][m])
          {
            assert items[1..][m] == items[m + 1];
          }
        } else {
          forall m | 0 <= m < |items| - 1
            ensures !IsThreads(items[1..][m])
          {
            assert items[1..][m] == items[m + 1];
          }
        }
      }
    }
  }

  /** Timing is on exactly when some "-T" was read as a flag. */
  lemma {:induction false} ApplyTiming(cfg: Config, items: seq<Item>, atoi: string -> int)
    ensures Apply(cfg, items, atoi).timing <==> cfg.timing || Timing in items
    decreases |items|
  {
    if |items| > 0 {
      ApplyTiming(Set(cfg, items[0], atoi), items[1..], atoi);
      assert items == [items[0]] + items[1..];
    }
  }

  // ---------------------------------------------------------------------
  // How tokens become items

  /** Every item comes from a token at index i or later: a file name is one of
      those tokens, and so is the argument of "-i" and "-t". In particular
      argv[0] is never read. */
  lemma {:induction false} ItemsFromTokens(argv: seq<string>, i: nat)
    ensures forall item :: item in Items(argv, i) && item.File? ==> exists q :: i <= q < |argv| && argv[q] == item.name
    ensures forall item :: item in Items(argv, i) && (item.Iterations? || item.Threads?) ==>
      exists q :: i < q < |argv| && argv[q] == item.arg
    decreases |argv| - i
  {
    if i < |argv| {
      if argv[i] == "-T" {
        ItemsFromTokens(argv, i + 1);
      } else if (argv[i] == "-i" || argv[i] == "-t") && i + 1 < |argv| {
        ItemsFromTokens(argv, i + 2);
      } else {
        ItemsFromTokens(argv, i + 1);
      }
    }
  }

  /** The items from index i on depend only on argv[i..]. */
  lemma {:induction false} ItemsOfSuffix(argv: seq<string>, other: seq<string>, i: nat)
    requires i <= |argv| && i <= |other| && argv[i..] == other[i..]
    ensures Items(argv, i) == Items(other, i)
    decreases |argv| - i
  {
    assert |argv| == |other|;
    if i < |argv| {
      assert argv[i] == argv[i..][0] && other[i] == other[i..][0];
      if i + 1 < |argv| {
        assert argv[i + 1] == argv[i..][1] && other[i + 1] == other[i..][1];
      }
      if i + 1 <= |argv| {
        assert argv[i + 1..] == argv[i..][1..] && other[i + 1..] == other[i..][1..];
        ItemsOfSuffix(argv, other, i + 1);
      }
      if i + 2 <= |argv| {
        assert argv[i + 2..] == argv[i..][2..] && other[i + 2..] == other[i..][2..];
        ItemsOfSuffix(argv, other, i + 2);
      }
    }
  }

  /** The program name argv[0] does not affect the result. */
  lemma ProgramNameIgnored(argv: seq<string>, name: string, atoi: string -> int)
    requires |argv| >= 1
    ensures Parse(argv, atoi) == Parse([name] + argv[1..], atoi)
  {
    ItemsOfSuffix(argv, [name] + argv[1..], 1);
  }

  /** A token list of "-T" flags only yields no item but Timing. */
  lemma {:induction false} FlagsOnlyItems(argv: seq<string>, i: nat)
    requires forall q :: i <= q < |argv| ==> argv[q] == "-T"
    ensures forall item :: item in Items(argv, i) ==> item == Timing
    decreases |argv| - i
  {
    if i < |argv| {
      FlagsOnlyItems(argv, i + 1);
    }
  }

  /** With no arguments, or with "-T" flags only, no file name is seen and
      the parser fails (a6/ompjacobi.c:28-31). */
  lemma FlagsOnlyFail(argv: seq<string>, atoi: string -> int)
    requires forall q :: 1 <= q < |argv| ==> argv[q] == "-T"
    ensures Parse(argv, atoi) == Failure(NoInputFile)
  {
    var items := Items(argv, 1);
    FlagsOnlyItems(argv, 1);
    assert forall k :: 0 <= k < |items| ==> items[k] in items;
    ApplyFilename(Defaults, items, atoi);
  }

  predicate HasFile(items: seq<Item>)
  {
    exists k :: 0 <= k < |items| && IsFile(items[k])
  }

  /** A file name is set after the items exactly when it was set before or
      some item is a file name. */
  lemma {:induction false} FilenameSeen(cfg: Config, items: seq<Item>, atoi: string -> int)
    ensures Apply(cfg, items, atoi).filename.Some? <==> cfg.filename.Some? || HasFile(items)
    decreases |items|
  {
    if |items| > 0 {
      FilenameSeen(Set(cfg, items[0], atoi), items[1..], atoi);
      if exists k :: 0 <= k < |items| - 1 && IsFile(items[1..][k]) {
        var k :| 0 <= k < |items| - 1 && IsFile(items[1..][k]);
        assert IsFile(items[k + 1]);
      }
      if exists k :: 1 <= k < |items| && IsFile(items[k]) {
        var k :| 1 <= k < |items| && IsFile(items[k]);
        assert IsFile(items[1..][k - 1]);
      }
    }
  }

  /** The parser succeeds exactly when some token was read as a file name. */
  lemma SuccessIffFile(argv: seq<string>, atoi: string -> int)
    ensures Parse(argv, atoi).Success? <==> HasFile(Items(argv, 1))
  {
    var items := Items(argv, 1);
    FilenameSeen(Defaults, items, atoi);
  }

  /** A worked command line: "-i 5" sets the iterations, "-T" sets timing,
      the last plain token is the file, and a last "-t" with nothing after it
      is taken as a file name too. */
  lemma ExampleCommandLines(atoi: string -> int)
    ensures Parse(["jacobi", "-i", "5", "-T", "grid.txt"], atoi)
         == Success(Config(true, atoi("5"), 1, Some("grid.txt")))
    ensures Parse(["jacobi", "grid.txt", "-t"], atoi) == Success(Config(false, 1, 1, Some("-t")))
    ensures Parse(["jacobi", "-i", "-T"], atoi) == Failure(NoInputFile)
  {
    var a := ["jacobi", "-i", "5", "-T", "grid.txt"];
    assert a[1] == "-i" && a[3] == "-T";
    assert Items(a, 1) == [Iterations("5"), Timing, File("grid.txt")];
    var b := ["jacobi", "grid.txt", "-t"];
    assert b[1] != "-T" && b[1] != "-i" && b[1] != "-t" && b[2] == "-t";
    assert Items(b, 1) == [File("grid.txt"), File("-t")];
    var c := ["jacobi", "-i", "-T"];
    assert c[1] == "-i";
    assert Items(c, 1) == [Iterations("-T")];
  }
}
