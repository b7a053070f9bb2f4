/** The non-I/O part of `main` in tvsort/cli.py: the threshold check, the
    `key=value` mappings, the per-file parse and best-match loop, the filter
    against existing files and the review loop that sorts the plan and drops
    the entries the user skips. The file system, the terminal and the fuzzy
    scorer are parameters. */
module Cli {
  import opened Wrappers
  import opened PyStr
  import opened Common
  import opened Parser
  import opened Planning

  /** How `main` stops before it links anything: argparse's error on the
      threshold, and the exceptions it does not catch. */
  datatype CliError =
    | ThresholdError             // parser.error("--match-thresh must be 1-100")
    | MappingError(item: string) // ValueError from `key, value = item.split("=")`
    | UnboundEpInfo(fname: string) // UnboundLocalError: `epinfo` before any parse succeeded
    | EndOfInput                 // EOFError from input()
    | IndexValueError(token: string) // ValueError from int(number)
    | PopIndexError(index: int)  // results.pop(number) fails: IndexError (OverflowError beyond the C ssize_t range is not told apart)

  /** The accepted values of `--match-thresh`. */
  predicate ValidThreshold(t: int)
  {
    !(t <= 0 || t > 100)
  }

  /** An insertion-ordered dict from strings to strings. */
  type Mapping = seq<(string, string)>

  function Keys(m: Mapping): seq<string>
  {
    if m == [] then [] else [m[0].0] + Keys(m[1..])
  }

  predicate DistinctKeys(m: Mapping)
  {
    forall i, j :: 0 <= i < j < |m| ==> m[i].0 != m[j].0
  }

  /** `m.get(k)` */
  function Lookup(m: Mapping, k: string): Option<string>
  {
    if m == [] then None else if m[0].0 == k then Some(m[0].1) else Lookup(m[1..], k)
  }

  /** `m[k] = v`: a key already there keeps its place and takes the new
      value; a new key goes at the end. */
  function Put(m: Mapping, k: string, v: string): (r: Mapping)
  {
    if m == [] then [(k, v)]
    else if m[0].0 == k then [(k, v)] + m[1..]
    else [m[0]] + Put(m[1..], k, v)
  }

  lemma {:induction false} PutSpec(m: Mapping, k: string, v: string)
    ensures Keys(Put(m, k, v)) == if k in Keys(m) then Keys(m) else Keys(m) + [k]
    ensures Lookup(Put(m, k, v), k) == Some(v)
    ensures forall k' :: k' != k ==> Lookup(Put(m, k, v), k') == Lookup(m, k')
  {
    if m != [] && m[0].0 != k {
      PutSpec(m[1..], k, v);
      assert Keys(m) == [m[0].0] + Keys(m[1..]);
    }
  }

  /** The two halves of a well-formed mapping argument: exactly one `=`. */
  function KeyValue(item: string): Option<(string, string)>
  {
    var parts := Split(item, "=");
    if |parts| == 2 then Some((parts[0], parts[1])) else None
  }

  /** The `mappings` dict built from the `--mappings` arguments, or the
      first argument that does not split into exactly two parts. */
  function Mappings(items: seq<string>): (r: Result<Mapping, CliError>)
    ensures r.Err? ==> r.error.MappingError? && r.error.item in items
  {
    if items == [] then Ok([])
    else
      match Mappings(items[..|items| - 1])
      case Err(e) => Err(e)
      case Ok(m) =>
        var item := items[|items| - 1];
        match KeyValue(item)
        case None => Err(MappingError(item))
        case Some((k, v)) => Ok(Put(m, k, v))
  }

  lemma {:induction false} MappingsErrPersists(items: seq<string>, n: nat)
    requires n <= |items|
    requires Mappings(items[..n]).Err?
    ensures Mappings(items) == Mappings(items[..n])
    decreases |items| - n
  {
    if n < |items| {
      var c := items[..n + 1];
      assert c[..|c| - 1] == items[..n];
      MappingsErrPersists(items, n + 1);
    } else {
      assert items[..n] == items;
    }
  }

  /** Lines 39-42: one pass over the mapping arguments. */
  method ParseMappings(items: seq<string>) returns (r: Result<Mapping, CliError>)
    ensures r == Mappings(items)
  {
    var mappings: Mapping := [];
    for i := 0 to |items|
      invariant Mappings(items[..i]) == Ok(mappings)
    {
      var item := items[i];
      var parts := Split(item, "=");
      assert items[..i + 1][..i] == items[..i];
      if |parts| != 2 {
        MappingsErrPersists(items, i + 1);
        return Err(MappingError(item));
      }
      mappings := Put(mappings, parts[0], parts[1]);
    }
    assert items[..|items|] == items;
    r := Ok(mappings);
  }

  /** The keys of the well-formed arguments, each where it first appears. */
  function FirstKeys(items: seq<string>): seq<string>
  {
    if items == [] then []
    else
      var ks := FirstKeys(items[..|items| - 1]);
      var kv := KeyValue(items[|items| - 1]);
      if kv.Some? && kv.value.0 !in ks then ks + [kv.value.0] else ks
  }

  /** The value of the last well-formed argument with key `k`. */
  function LastValue(items: seq<string>, k: string): Option<string>
  {
    if items == [] then None
    else
      var kv := KeyValue(items[|items| - 1]);
      if kv.Some? && kv.value.0 == k then Some(kv.value.1) else LastValue(items[..|items| - 1], k)
  }

  /** Building the dict fails exactly when some argument does not hold
      exactly one `=`. */
  lemma {:induction false} MappingsErrIff(items: seq<string>)
    ensures Mappings(items).Err? <==> exists i :: 0 <= i < |items| && CountChar(items[i], '=') != 1
  {
    if items != [] {
      var n := |items| - 1;
      var init := items[..n];
      MappingsErrIff(init);
      SplitCharCount(items[n], '=');
      assert forall i :: 0 <= i < n ==> init[i] == items[i];
      if Mappings(init).Err? {
        var i :| 0 <= i < n && CountChar(init[i], '=') != 1;
        assert CountChar(items[i], '=') != 1;
      }
    }
  }

  /** A repeated key keeps the place where it first appears and takes the
      value it was given last; the keys are distinct. */
  lemma {:induction false} MappingsDict(items: seq<string>)
    requires Mappings(items).Ok?
    ensures var m := Mappings(items).value;
      && Keys(m) == FirstKeys(items)
      && (forall k :: Lookup(m, k) == LastValue(items, k))
  {
    if items != [] {
      var init := items[..|items| - 1];
      MappingsDict(init);
      var kv := KeyValue(items[|items| - 1]);
      PutSpec(Mappings(init).value, kv.value.0, kv.value.1);
    }
  }

  lemma {:induction false} KeysDistinct(m: Mapping)
    requires forall i, j :: 0 <= i < j < |Keys(m)| ==> Keys(m)[i] != Keys(m)[j]
    ensures DistinctKeys(m)
  {
    KeysAt(m);
  }

  lemma {:induction false} KeysAt(m: Mapping)
    ensures |Keys(m)| == |m|
    ensures forall i :: 0 <= i < |m| ==> Keys(m)[i] == m[i].0
  {
    if m != [] {
      KeysAt(m[1..]);
    }
  }

  lemma {:induction false} FirstKeysDistinct(items: seq<string>)
    ensures forall i, j :: 0 <= i < j < |FirstKeys(items)| ==> FirstKeys(items)[i] != FirstKeys(items)[j]
  {
    if items != [] {
      FirstKeysDistinct(items[..|items| - 1]);
    }
  }

  /** The dict never holds a key twice. */
  lemma MappingsDistinct(items: seq<string>)
    requires Mappings(items).Ok?
    ensures DistinctKeys(Mappings(items).value)
  {
    MappingsDict(items);
    FirstKeysDistinct(items);
    KeysDistinct(Mappings(items).value);
  }

  /** `for old, new in mappings.items(): item = item.replace(old, new)`, as
      a value. */
  function Mapped(s: string, m: Mapping): string
  {
    if m == [] then s else Replace(Mapped(s, m[..|m| - 1]), m[|m| - 1].0, m[|m| - 1].1)
  }

  /** Lines 71-73. */
  method ApplyMappings(fname: string, m: Mapping) returns (item: string)
    ensures item == Mapped(fname, m)
  {
    item := fname;
    for i := 0 to |m|
      invariant item == Mapped(fname, m[..i])
    {
      var (key, value) := m[i];
      assert m[..i + 1][..i] == m[..i];
      item := Replace(item, key, value);
    }
    assert m[..|m|] == m;
  }

  /** Each mapping works on the string the earlier ones left: applying a
      dict in two parts is applying the first part, then the second. */
  lemma {:induction false} MappedConcat(s: string, m1: Mapping, m2: Mapping)
    ensures Mapped(s, m1 + m2) == Mapped(Mapped(s, m1), m2)
  {
    if m2 == [] {
      assert m1 + m2 == m1;
    } else {
      var m := m1 + m2;
      assert m[..|m| - 1] == m1 + m2[..|m2| - 1];
      MappedConcat(s, m1, m2[..|m2| - 1]);
    }
  }

  /** `fuzz.token_set_ratio(show.name.lower(), item.lower())` */
  function Score(show: Show, item: string, ratio: (string, string) -> int): int
  {
    ratio(Lower(show.name), Lower(item))
  }

  /** The best-match scan over the library: the score and the position of
      the best show so far. */
  function Best(library: seq<Show>, item: string, ratio: (string, string) -> int): (r: (int, Option<nat>))
    ensures r.0 >= 0
    ensures r.1.None? ==> r.0 == 0
    ensures r.1.Some? ==> r.1.value < |library|
  {
    if library == [] then (0, None)
    else
      var b := Best(library[..|library| - 1], item, ratio);
      var v := Score(library[|library| - 1], item, ratio);
      if v > b.0 then (v, Some(|library| - 1)) else b
  }

  /** The best show itself. */
  function BestShow(library: seq<Show>, item: string, ratio: (string, string) -> int): Option<Show>
  {
    var b := Best(library, item, ratio).1;
    if b.Some? then Some(library[b.value]) else None
  }

  /** Lines 82-88. */
  method BestMatch(library: seq<Show>, item: string, ratio: (string, string) -> int) returns (matchScore: int, bestMatchShow: Option<Show>)
    ensures matchScore == Best(library, item, ratio).0
    ensures bestMatchShow == BestShow(library, item, ratio)
  {
    matchScore := 0;
    bestMatchShow := None;
    ghost var best: Option<nat> := None;
    for i := 0 to |library|
      invariant (matchScore, best) == Best(library[..i], item, ratio)
      invariant bestMatchShow == if best.Some? then Some(library[best.value]) else None
    {
      var show := library[i];
      var value := ratio(Lower(show.name), Lower(item));
      assert library[..i + 1][..i] == library[..i];
      if value > matchScore {
        matchScore := value;
        bestMatchShow := Some(show);
        best := Some(i);
      }
    }
    assert library[..|library|] == library;
  }

  /** The scan starts at 0 with no show and moves only on a strictly higher
      score, so it ends on the FIRST show with the highest score, or on no
      show with score 0 when no show scores above 0. */
  lemma {:induction false} BestIsFirstMaximum(library: seq<Show>, item: string, ratio: (string, string) -> int)
    ensures var (m, b) := Best(library, item, ratio);
      && m >= 0
      && (forall j :: 0 <= j < |library| ==> Score(library[j], item, ratio) <= m)
      && (b.None? <==> forall j :: 0 <= j < |library| ==> Score(library[j], item, ratio) <= 0)
      && (b.None? ==> m == 0)
      && (b.Some? ==> Score(library[b.value], item, ratio) == m)
      && (b.Some? ==> forall j :: 0 <= j < b.value ==> Score(library[j], item, ratio) < m)
  {
    if library != [] {
      var init := library[..|library| - 1];
      BestIsFirstMaximum(init, item, ratio);
      assert forall j :: 0 <= j < |init| ==> init[j] == library[j];
    }
  }

  /** What `main` reads from outside: the show library (the cache or
      create_index), `os.listdir`, `os.path.isfile` on (srcdir, fname),
      the fuzzy scorer, `os.path.exists` on the four destination path
      components, and the lines `input()` returns, in order. */
  datatype World = World(
    library: seq<Show>,
    listdir: string -> seq<string>,
    isFile: (string, string) -> bool,
    ratio: (string, string) -> int,
    pathExists: (string, string, string, string) -> bool,
    responses: seq<string>)

  /** The command line: `--src`, `--match-thresh` and `--mappings`. */
  datatype Args = Args(src: seq<string>, matchThresh: int, mappings: seq<string>)

  /** One child of a source directory. */
  datatype SourceFile = SourceFile(dir: string, name: string)

  /** The children of one source directory, in listing order. */
  function DirFiles(dir: string, names: seq<string>): (r: seq<SourceFile>)
    ensures |r| == |names|
    ensures forall i :: 0 <= i < |names| ==> r[i] == SourceFile(dir, names[i])
  {
    seq(|names|, i requires 0 <= i < |names| => SourceFile(dir, names[i]))
  }

  /** The children of every source directory, directory by directory. */
  function Listing(src: seq<string>, listdir: string -> seq<string>): seq<SourceFile>
  {
    if src == [] then [] else Listing(src[..|src| - 1], listdir) + DirFiles(src[|src| - 1], listdir(src[|src| - 1]))
  }

  lemma ListingSnoc(a: seq<string>, d: string, listdir: string -> seq<string>)
    ensures Listing(a + [d], listdir) == Listing(a, listdir) + DirFiles(d, listdir(d))
  {
    assert (a + [d])[..|a|] == a;
  }

  lemma {:induction false} ListingConcat(a: seq<string>, b: seq<string>, listdir: string -> seq<string>)
    ensures Listing(a + b, listdir) == Listing(a, listdir) + Listing(b, listdir)
  {
    if b == [] {
      assert a + b == a;
    } else {
      var init, d := b[..|b| - 1], b[|b| - 1];
      assert b == init + [d];
      assert a + b == (a + init) + [d];
      ListingConcat(a, init, listdir);
      ListingSnoc(a + init, d, listdir);
      ListingSnoc(init, d, listdir);
    }
  }

  /** The variables the file loop carries from one file to the next:
      `epinfo` (unbound until a parse succeeds), `results` and `failures`. */
  datatype ScanState = ScanState(epinfo: Option<EpInfo>, results: seq<MatchedEpisode>, failures: seq<string>)

  /** A file name after the mappings, and what parse_episode makes of it. */
  datatype Reading = Reading(mapped: string, parsed: Result<(EpInfo, string), ParseError>)

  /** Lines 71-79 on one file name. */
  function ReadName(name: string, m: Mapping): (rd: Reading)
    ensures rd.parsed.Ok? ==> WellFormedEpInfo(rd.parsed.value.0)
  {
    var mapped := Mapped(name, m);
    if Parse(mapped).Ok? then ParseWellFormed(mapped); Reading(mapped, Parse(mapped))
    else Reading(mapped, Parse(mapped))
  }

  /** The name matched against the library: the parsed title, or the
      mapped name itself when it does not parse. */
  function ItemOf(rd: Reading): string
  {
    if rd.parsed.Ok? then rd.parsed.value.1 else rd.mapped
  }

  /** Lines 71-95 for one file that is a regular file. A name that does
      not parse is recorded as a failure and still matched, with the
      `epinfo` of the last name that did parse. */
  function Step(st: ScanState, f: SourceFile, rd: Reading, thresh: int, w: World): Result<ScanState, CliError>
    requires ValidThreshold(thresh)
  {
    var parsed := rd.parsed;
    var epinfo := if parsed.Ok? then Some(parsed.value.0) else st.epinfo;
    var failures := if parsed.Ok? then st.failures else st.failures + [f.name];
    var (score, best) := Best(w.library, ItemOf(rd), w.ratio);
    if score >= thresh then
      if epinfo.None? then Err(UnboundEpInfo(f.name))
      else
        var show := w.library[best.value];
        var e := epinfo.value;
        Ok(ScanState(epinfo, st.results + [MatchedEpisode(f.dir, e, show, SubBucketName(show, e.major, e.minor, e.extra), score)], failures))
    else
      Ok(ScanState(epinfo, st.results, failures + [f.name]))
  }

  /** A listed child together with the reading of its name. */
  datatype FileRead = FileRead(file: SourceFile, rd: Reading)

  /** Every listed child with the reading of its name, in listing order. */
  function ReadAll(files: seq<SourceFile>, m: Mapping): (r: seq<FileRead>)
    ensures |r| == |files|
  {
    if files == [] then []
    else ReadAll(files[..|files| - 1], m) + [FileRead(files[|files| - 1], ReadName(files[|files| - 1].name, m))]
  }

  lemma ReadAllSnoc(p: seq<SourceFile>, f: SourceFile, m: Mapping)
    ensures ReadAll(p + [f], m) == ReadAll(p, m) + [FileRead(f, ReadName(f.name, m))]
  {
    assert (p + [f])[..|p|] == p;
  }

  lemma {:induction false} ReadAllConcat(p: seq<SourceFile>, q: seq<SourceFile>, m: Mapping)
    ensures ReadAll(p + q, m) == ReadAll(p, m) + ReadAll(q, m)
  {
    if q == [] {
      assert p + q == p;
    } else {
      var init, f := q[..|q| - 1], q[|q| - 1];
      assert q == init + [f];
      assert p + q == (p + init) + [f];
      ReadAllConcat(p, init, m);
      ReadAllSnoc(p + init, f, m);
      ReadAllSnoc(init, f, m);
    }
  }

  /** Each child is read by its own name. */
  lemma {:induction false} ReadAllAt(files: seq<SourceFile>, m: Mapping, k: nat)
    requires k < |files|
    ensures ReadAll(files, m)[k].rd == ReadName(files[k].name, m)
  {
    var n := |files| - 1;
    var init := files[..n];
    assert files == init + [files[n]];
    ReadAllSnoc(init, files[n], m);
    if k < n {
      ReadAllAt(init, m, k);
      assert init[k] == files[k];
    }
  }

  predicate IsFile(x: FileRead, w: World)
  {
    w.isFile(x.file.dir, x.file.name)
  }

  /** Lines 64-95 from a given state of the loop variables: the file loop
      over every listed child, skipping those that are not regular files. */
  function ScanFrom(st: ScanState, xs: seq<FileRead>, thresh: int, w: World): Result<ScanState, CliError>
    requires ValidThreshold(thresh)
  {
    if xs == [] then Ok(st)
    else
      match ScanFrom(st, xs[..|xs| - 1], thresh, w)
      case Err(e) => Err(e)
      case Ok(cur) =>
        var x := xs[|xs| - 1];
        if IsFile(x, w) then Step(cur, x.file, x.rd, thresh, w) else Ok(cur)
  }

  /** Lines 60-95: the loop starts with `epinfo` unbound and both lists
      empty. */
  function Scan(xs: seq<FileRead>, thresh: int, w: World): Result<ScanState, CliError>
    requires ValidThreshold(thresh)
  {
    ScanFrom(ScanState(None, [], []), xs, thresh, w)
  }

  lemma ScanFromSnoc(st: ScanState, p: seq<FileRead>, x: FileRead, thresh: int, w: World)
    requires ValidThreshold(thresh)
    ensures ScanFrom(st, p + [x], thresh, w) == match ScanFrom(st, p, thresh, w)
      case Err(e) => Err(e)
      case Ok(cur) => if IsFile(x, w) then Step(cur, x.file, x.rd, thresh, w) else Ok(cur)
  {
    assert (p + [x])[..|p|] == p;
  }

  /** Scanning two runs of files is scanning the first, then the second
      from where the first left off; a crash ends the scan. */
  lemma {:induction false} ScanFromConcat(st: ScanState, p: seq<FileRead>, q: seq<FileRead>, thresh: int, w: World)
    requires ValidThreshold(thresh)
    ensures ScanFrom(st, p + q, thresh, w) ==
      match ScanFrom(st, p, thresh, w)
      case Err(e) => Err(e)
      case Ok(mid) => ScanFrom(mid, q, thresh, w)
  {
    if q == [] {
      assert p + q == p;
    } else {
      var init, x := q[..|q| - 1], q[|q| - 1];
      assert q == init + [x];
      assert p + q == (p + init) + [x];
      ScanFromConcat(st, p, init, thresh, w);
      ScanFromSnoc(st, p + init, x, thresh, w);
      match ScanFrom(st, p, thresh, w) {
        case Err(_) =>
        case Ok(mid) => ScanFromSnoc(mid, init, x, thresh, w);
      }
    }
  }

  /** The best library score for a reading reaches the threshold. */
  predicate Reaches(rd: Reading, thresh: int, w: World)
  {
    Best(w.library, ItemOf(rd), w.ratio).0 >= thresh
  }

  /** What every planned link satisfies: its score reaches the threshold,
      its show is in the library, its sub-folder is the one
      sub_bucket_name gives for its episode, and the episode is one
      parse_episode can return. */
  predicate Planned(r: MatchedEpisode, thresh: int, w: World)
  {
    && r.score >= thresh
    && r.dest in w.library
    && r.subdest == SubBucketName(r.dest, r.ep.major, r.ep.minor, r.ep.extra)
    && WellFormedEpInfo(r.ep)
  }

  /** One file crashes the loop exactly when it reaches the threshold while
      `epinfo` is still unbound: its own name did not parse and no earlier
      one did. */
  lemma StepCrash(st: ScanState, f: SourceFile, rd: Reading, thresh: int, w: World)
    requires ValidThreshold(thresh)
    ensures var r := Step(st, f, rd, thresh, w);
      && (r.Err? <==> Reaches(rd, thresh, w) && rd.parsed.Err? && st.epinfo.None?)
      && (r.Err? ==> r.error == UnboundEpInfo(f.name))
  {
  }

  /** One file: a successful parse rebinds `epinfo`; a parse failure and a
      score below the threshold each add the file name to the failures, so
      a file can be listed twice. */
  lemma StepState(st: ScanState, f: SourceFile, rd: Reading, thresh: int, w: World)
    requires ValidThreshold(thresh)
    requires Step(st, f, rd, thresh, w).Ok?
    ensures var n := Step(st, f, rd, thresh, w).value;
      && n.epinfo == (if rd.parsed.Ok? then Some(rd.parsed.value.0) else st.epinfo)
      && n.failures == st.failures
           + (if rd.parsed.Ok? then [] else [f.name])
           + (if Reaches(rd, thresh, w) then [] else [f.name])
  {
  }

  /** One file: a file that reaches the threshold adds one planned link,
      from its own source directory, whose episode is the current `epinfo`
      (after a failed parse, that of an earlier file); the earlier links
      stay as they were. */
  lemma StepResults(st: ScanState, f: SourceFile, rd: Reading, thresh: int, w: World)
    requires ValidThreshold(thresh)
    requires st.epinfo.Some? ==> WellFormedEpInfo(st.epinfo.value)
    requires rd.parsed.Ok? ==> WellFormedEpInfo(rd.parsed.value.0)
    requires Step(st, f, rd, thresh, w).Ok?
    ensures var n := Step(st, f, rd, thresh, w).value;
      && |n.results| == |st.results| + (if Reaches(rd, thresh, w) then 1 else 0)
      && n.results[..|st.results|] == st.results
      && (Reaches(rd, thresh, w) ==> var last := n.results[|st.results|];
           && last.root == f.dir
           && last.ep == n.epinfo.value
           && last.score == Best(w.library, ItemOf(rd), w.ratio).0
           && Planned(last, thresh, w))
  {
  }

  /** The stale episode: a name that does not parse but still matches a
      show is planned with the episode of the last name that did parse. */
  lemma StepStale(st: ScanState, f: SourceFile, rd: Reading, thresh: int, w: World, e: EpInfo)
    requires ValidThreshold(thresh) && WellFormedEpInfo(e)
    requires st.epinfo == Some(e) && rd.parsed.Err? && Reaches(rd, thresh, w)
    ensures Step(st, f, rd, thresh, w).Ok?
    ensures var n := Step(st, f, rd, thresh, w).value;
      && n.results == st.results + [n.results[|st.results|]]
      && n.results[|st.results|].ep == e
      && n.failures == st.failures + [f.name]
  {
    StepCrash(st, f, rd, thresh, w);
    StepState(st, f, rd, thresh, w);
    StepResults(st, f, rd, thresh, w);
    var n := Step(st, f, rd, thresh, w).value;
    assert n.results == n.results[..|st.results|] + [n.results[|st.results|]];
  }

  /** The episode of the last regular file whose name parsed. */
  function LastParsed(xs: seq<FileRead>, w: World): Option<EpInfo>
  {
    if xs == [] then None
    else
      var x := xs[|xs| - 1];
      if IsFile(x, w) && x.rd.parsed.Ok? then Some(x.rd.parsed.value.0)
      else LastParsed(xs[..|xs| - 1], w)
  }

  /** The failures list, file by file, independent of the loop state. */
  function FailuresOf(xs: seq<FileRead>, thresh: int, w: World): seq<string>
  {
    if xs == [] then []
    else
      var x := xs[|xs| - 1];
      FailuresOf(xs[..|xs| - 1], thresh, w)
        + (if IsFile(x, w) && x.rd.parsed.Err? then [x.file.name] else [])
        + (if IsFile(x, w) && !Reaches(x.rd, thresh, w) then [x.file.name] else [])
  }

  /** The number of regular files that reach the threshold. */
  function CountAccepted(xs: seq<FileRead>, thresh: int, w: World): nat
  {
    if xs == [] then 0
    else
      var x := xs[|xs| - 1];
      CountAccepted(xs[..|xs| - 1], thresh, w) + (if IsFile(x, w) && Reaches(x.rd, thresh, w) then 1 else 0)
  }

  lemma LastParsedSnoc(init: seq<FileRead>, x: FileRead, w: World)
    ensures LastParsed(init + [x], w) ==
      if IsFile(x, w) && x.rd.parsed.Ok? then Some(x.rd.parsed.value.0) else LastParsed(init, w)
  {
    assert (init + [x])[..|init|] == init;
  }

  /** After a scan that does not crash: `epinfo` is the last parsed
      episode, the failures are each file's own, there is one planned link
      per accepted file, and every link is planned soundly. */
  lemma {:induction false} ScanSummary(xs: seq<FileRead>, thresh: int, w: World)
    requires ValidThreshold(thresh)
    requires Scan(xs, thresh, w).Ok?
    requires ReadsWellFormed(xs)
    ensures var st := Scan(xs, thresh, w).value;
      && st.epinfo == LastParsed(xs, w)
      && (st.epinfo.Some? ==> WellFormedEpInfo(st.epinfo.value))
      && st.failures == FailuresOf(xs, thresh, w)
      && |st.results| == CountAccepted(xs, thresh, w)
      && (forall r :: r in st.results ==> Planned(r, thresh, w))
  {
    if xs != [] {
      var init, x := xs[..|xs| - 1], xs[|xs| - 1];
      assert xs == init + [x];
      ScanFromSnoc(ScanState(None, [], []), init, x, thresh, w);
      LastParsedSnoc(init, x, w);
      ScanSummary(init, thresh, w);
      var cur := Scan(init, thresh, w).value;
      if IsFile(x, w) {
        StepCrash(cur, x.file, x.rd, thresh, w);
        StepState(cur, x.file, x.rd, thresh, w);
        StepResults(cur, x.file, x.rd, thresh, w);
        var n := Step(cur, x.file, x.rd, thresh, w).value;
        if Reaches(x.rd, thresh, w) {
          assert n.results == cur.results + [n.results[|cur.results|]];
        }
      }
    }
  }

  /** Child `k` is a regular file that reaches the threshold while no name
      up to and including its own has parsed. */
  predicate CrashesAt(xs: seq<FileRead>, k: int, thresh: int, w: World)
  {
    && 0 <= k < |xs|
    && IsFile(xs[k], w)
    && Reaches(xs[k].rd, thresh, w)
    && LastParsed(xs[..k + 1], w).None?
  }

  lemma CrashesAtSnoc(init: seq<FileRead>, x: FileRead, thresh: int, w: World)
    ensures (exists k :: CrashesAt(init + [x], k, thresh, w)) <==>
      (exists k :: CrashesAt(init, k, thresh, w)) || CrashesAt(init + [x], |init|, thresh, w)
  {
    var xs := init + [x];
    if k :| CrashesAt(xs, k, thresh, w) {
      if k < |init| {
        assert init[..k + 1] == xs[..k + 1];
        assert CrashesAt(init, k, thresh, w);
      }
    }
    if k :| CrashesAt(init, k, thresh, w) {
      assert init[..k + 1] == xs[..k + 1];
      assert CrashesAt(xs, k, thresh, w);
    }
  }

  /** The loop crashes exactly when some regular file reaches the threshold
      while no name up to and including its own has parsed. */
  lemma {:induction false} ScanCrashIff(xs: seq<FileRead>, thresh: int, w: World)
    requires ValidThreshold(thresh)
    requires ReadsWellFormed(xs)
    ensures Scan(xs, thresh, w).Err? <==> exists k :: CrashesAt(xs, k, thresh, w)
    ensures Scan(xs, thresh, w).Err? ==> Scan(xs, thresh, w).error.UnboundEpInfo?
  {
    if xs != [] {
      var n := |xs| - 1;
      var init, x := xs[..n], xs[n];
      assert xs == init + [x];
      ScanFromSnoc(ScanState(None, [], []), init, x, thresh, w);
      LastParsedSnoc(init, x, w);
      ScanCrashIff(init, thresh, w);
      CrashesAtSnoc(init, x, thresh, w);
      assert xs[..n + 1] == xs;
      if Scan(init, thresh, w).Ok? {
        ScanSummary(init, thresh, w);
        StepCrash(Scan(init, thresh, w).value, x.file, x.rd, thresh, w);
      }
    }
  }

  /** Every episode in the readings is one parse_episode can return. */
  predicate ReadsWellFormed(xs: seq<FileRead>)
  {
    forall k :: 0 <= k < |xs| && xs[k].rd.parsed.Ok? ==> WellFormedEpInfo(xs[k].rd.parsed.value.0)
  }

  lemma {:induction false} ReadAllWellFormed(files: seq<SourceFile>, m: Mapping)
    ensures ReadsWellFormed(ReadAll(files, m))
  {
    if files != [] {
      ReadAllWellFormed(files[..|files| - 1], m);
    }
  }

  /** Lines 71-95 for one regular file, on the loop's variables. */
  method MatchFile(st: ScanState, f: SourceFile, m: Mapping, thresh: int, w: World) returns (r: Result<ScanState, CliError>)
    requires ValidThreshold(thresh)
    ensures r == Step(st, f, ReadName(f.name, m), thresh, w)
  {
    var epinfo, results, failures := st.epinfo, st.results, st.failures;
    var item := ApplyMappings(f.name, m);
    var parsed := ParseEpisode(item);
    assert ReadName(f.name, m) == Reading(item, parsed);
    if parsed.Ok? {
      epinfo := Some(parsed.value.0);
      item := parsed.value.1;
    } else {
      failures := failures + [f.name];
    }
    var matchScore, bestMatchShow := BestMatch(w.library, item, w.ratio);
    if matchScore >= thresh {
      if epinfo.None? {
        return Err(UnboundEpInfo(f.name));
      }
      var show := bestMatchShow.value;
      var e := epinfo.value;
      results := results + [MatchedEpisode(f.dir, e, show, SubBucketName(show, e.major, e.minor, e.extra), matchScore)];
    } else {
      failures := failures + [f.name];
    }
    r := Ok(ScanState(epinfo, results, failures));
  }

  lemma DirFilesSplit(dir: string, names: seq<string>, j: nat)
    requires j < |names|
    ensures DirFiles(dir, names[..j + 1]) == DirFiles(dir, names[..j]) + [SourceFile(dir, names[j])]
    ensures DirFiles(dir, names) == DirFiles(dir, names[..j + 1]) + DirFiles(dir, names[j + 1..])
  {
  }

  /** Lines 65-95: the inner loop over the children of one source
      directory. */
  method MatchDir(st: ScanState, srcdir: string, names: seq<string>, m: Mapping, thresh: int, w: World) returns (r: Result<ScanState, CliError>)
    requires ValidThreshold(thresh)
    ensures r == ScanFrom(st, ReadAll(DirFiles(srcdir, names), m), thresh, w)
  {
    var cur := st;
    for j := 0 to |names|
      invariant ScanFrom(st, ReadAll(DirFiles(srcdir, names[..j]), m), thresh, w) == Ok(cur)
    {
      var fname := names[j];
      var f := SourceFile(srcdir, fname);
      ghost var done := DirFiles(srcdir, names[..j]);
      DirFilesSplit(srcdir, names, j);
      ReadAllSnoc(done, f, m);
      ScanFromSnoc(st, ReadAll(done, m), FileRead(f, ReadName(fname, m)), thresh, w);
      if !w.isFile(srcdir, fname) {
        continue;
      }
      var next := MatchFile(cur, f, m, thresh, w);
      if next.Err? {
        ReadAllConcat(DirFiles(srcdir, names[..j + 1]), DirFiles(srcdir, names[j + 1..]), m);
        ScanFromConcat(st, ReadAll(DirFiles(srcdir, names[..j + 1]), m), ReadAll(DirFiles(srcdir, names[j + 1..]), m), thresh, w);
        return next;
      }
      cur := next.value;
    }
    assert names[..|names|] == names;
    r := Ok(cur);
  }

  /** The scan over the first `i + 1` source directories is the scan over
      the first `i` followed by the scan over directory `i`. */
  lemma ScanListingSnoc(src: seq<string>, i: nat, m: Mapping, thresh: int, w: World)
    requires i < |src| && ValidThreshold(thresh)
    ensures ScanFrom(ScanState(None, [], []), ReadAll(Listing(src[..i + 1], w.listdir), m), thresh, w) ==
      match ScanFrom(ScanState(None, [], []), ReadAll(Listing(src[..i], w.listdir), m), thresh, w)
      case Err(e) => Err(e)
      case Ok(mid) => ScanFrom(mid, ReadAll(DirFiles(src[i], w.listdir(src[i])), m), thresh, w)
  {
    var done := Listing(src[..i], w.listdir);
    var dir := DirFiles(src[i], w.listdir(src[i]));
    assert src[..i + 1] == src[..i] + [src[i]];
    ListingSnoc(src[..i], src[i], w.listdir);
    ReadAllConcat(done, dir, m);
    ScanFromConcat(ScanState(None, [], []), ReadAll(done, m), ReadAll(dir, m), thresh, w);
  }

  /** A crash within the first `i + 1` source directories ends the scan. */
  lemma ScanListingErr(src: seq<string>, i: nat, m: Mapping, thresh: int, w: World)
    requires i < |src| && ValidThreshold(thresh)
    requires ScanFrom(ScanState(None, [], []), ReadAll(Listing(src[..i + 1], w.listdir), m), thresh, w).Err?
    ensures Scan(ReadAll(Listing(src, w.listdir), m), thresh, w) ==
      ScanFrom(ScanState(None, [], []), ReadAll(Listing(src[..i + 1], w.listdir), m), thresh, w)
  {
    ReadListingSplit(src, i + 1, m, w.listdir);
    ScanErrPrefix(ReadAll(Listing(src[..i + 1], w.listdir), m), ReadAll(Listing(src[i + 1..], w.listdir), m), thresh, w);
  }

  lemma ReadListingSplit(src: seq<string>, j: nat, m: Mapping, listdir: string -> seq<string>)
    requires j <= |src|
    ensures ReadAll(Listing(src, listdir), m) == ReadAll(Listing(src[..j], listdir), m) + ReadAll(Listing(src[j..], listdir), m)
  {
    assert src == src[..j] + src[j..];
    ListingConcat(src[..j], src[j..], listdir);
    ReadAllConcat(Listing(src[..j], listdir), Listing(src[j..], listdir), m);
  }

  lemma ScanErrPrefix(xs: seq<FileRead>, ys: seq<FileRead>, thresh: int, w: World)
    requires ValidThreshold(thresh) && Scan(xs, thresh, w).Err?
    ensures Scan(xs + ys, thresh, w) == Scan(xs, thresh, w)
  {
    ScanFromConcat(ScanState(None, [], []), xs, ys, thresh, w);
  }

  /** Lines 60-95: the outer loop over the source directories. */
  method MatchFiles(src: seq<string>, m: Mapping, thresh: int, w: World) returns (r: Result<ScanState, CliError>)
    requires ValidThreshold(thresh)
    ensures r == Scan(ReadAll(Listing(src, w.listdir), m), thresh, w)
  {
    var st := ScanState(None, [], []);
    for i := 0 to |src|
      invariant ScanFrom(ScanState(None, [], []), ReadAll(Listing(src[..i], w.listdir), m), thresh, w) == Ok(st)
    {
      var srcdir := src[i];
      var names := w.listdir(srcdir);
      ScanListingSnoc(src, i, m, thresh, w);
      var next := MatchDir(st, srcdir, names, m, thresh, w);
      if next.Err? {
        ScanListingErr(src, i, m, thresh, w);
        return next;
      }
      st := next.value;
    }
    assert src[..|src|] == src;
    r := Ok(st);
  }

  /** Line 134: the answer as `main` compares it. */
  function Response(raw: string): string
  {
    Strip(Lower(raw))
  }

  /** `tokens[k]` is the first token `int()` rejects. */
  predicate FirstRejected(tokens: seq<string>, k: int)
    requires 0 <= k < |tokens|
  {
    ParseInt(tokens[k]).None? && forall j :: 0 <= j < k ==> ParseInt(tokens[j]).Some?
  }


  /** Each token read by `read`, or the first one it rejects. */
  function ReadEach(tokens: seq<string>, read: string -> Option<int>): (r: Result<seq<int>, CliError>)
    ensures r.Ok? ==> |r.value| == |tokens|
    ensures r.Err? ==> r.error.IndexValueError?
  {
    if tokens == [] then Ok([])
    else
      match ReadEach(tokens[..|tokens| - 1], read)
      case Err(e) => Err(e)
      case Ok(ns) =>
        var t := tokens[|tokens| - 1];
        match read(t)
        case None => Err(IndexValueError(t))
        case Some(n) => Ok(ns + [n])
  }

  /** Lines 143-144: each token read by `int()`, or the first one it
      rejects. */
  function Indices(tokens: seq<string>): (r: Result<seq<int>, CliError>)
    ensures r.Ok? ==> |r.value| == |tokens|
    ensures r.Err? ==> r.error.IndexValueError?
  {
    ReadEach(tokens, ParseInt)
  }

  /** The indices are `int()` of the tokens, one each and in order; the
      indices fail exactly when some token is rejected, and the error names
      the first rejected one. */
  lemma IndicesSpec(tokens: seq<string>)
    ensures var r := Indices(tokens);
      && (r.Ok? <==> forall k :: 0 <= k < |tokens| ==> ParseInt(tokens[k]).Some?)
      && (r.Ok? ==> forall k :: 0 <= k < |tokens| ==> ParseInt(tokens[k]) == Some(r.value[k]))
      && (r.Err? ==> exists k :: 0 <= k < |tokens| && FirstRejected(tokens, k) && r.error == IndexValueError(tokens[k]))
  {
    ReadEachOk(tokens, ParseInt);
    if Indices(tokens).Err? {
      ReadEachErr(tokens, ParseInt);
    }
  }

  /** The answer "1 3" names the positions 1 and 3. */
  lemma IndicesExample()
    ensures Indices(SplitSpace("1 3")) == Ok([1, 3])
  {
    SplitSpaceExample();
    IndicesOfDigits("1", "3");
  }

  lemma IndicesOfDigits(a: string, b: string)
    requires |a| == 1 && IsDigit(a[0]) && |b| == 1 && IsDigit(b[0])
    ensures Indices([a, b]) == Ok([a[0] as int - '0' as int, b[0] as int - '0' as int])
  {
    ParseIntOfDigit(a);
    ParseIntOfDigit(b);
    ReadEachAll([a, b], ParseInt, [a[0] as int - '0' as int, b[0] as int - '0' as int]);
  }

  /** When every token is read, the result is the list of their values. */
  lemma {:induction false} ReadEachAll(tokens: seq<string>, read: string -> Option<int>, ns: seq<int>)
    requires |ns| == |tokens| && forall k :: 0 <= k < |tokens| ==> read(tokens[k]) == Some(ns[k])
    ensures ReadEach(tokens, read) == Ok(ns)
  {
    if tokens != [] {
      var n := |tokens| - 1;
      ReadEachAll(tokens[..n], read, ns[..n]);
      assert ns == ns[..n] + [ns[n]];
    }
  }

  lemma SplitSpaceExample()
    ensures SplitSpace("1 3") == ["1", "3"]
  {
    assert Join(["1", "3"], " ") == "1 3";
    assert IsSpace(' ') && !IsSpace('1') && !IsSpace('3');
    SplitSpaceOfJoin(["1", "3"], " ");
  }

  /** `tokens[k]` is the first token `read` rejects. */
  predicate FirstRejectedBy(tokens: seq<string>, read: string -> Option<int>, k: int)
    requires 0 <= k < |tokens|
  {
    read(tokens[k]).None? && forall j :: 0 <= j < k ==> read(tokens[j]).Some?
  }

  lemma {:induction false} ReadEachOk(tokens: seq<string>, read: string -> Option<int>)
    ensures ReadEach(tokens, read).Ok? ==> forall k :: 0 <= k < |tokens| ==> read(tokens[k]) == Some(ReadEach(tokens, read).value[k])
    ensures ReadEach(tokens, read).Err? ==> exists k :: 0 <= k < |tokens| && read(tokens[k]).None?
  {
    if tokens != [] {
      var init := tokens[..|tokens| - 1];
      ReadEachOk(init, read);
      assert forall k :: 0 <= k < |init| ==> init[k] == tokens[k];
      if ReadEach(init, read).Err? {
        var k :| 0 <= k < |init| && read(init[k]).None?;
        assert read(tokens[k]).None?;
      } else if ReadEach(tokens, read).Err? {
        assert read(tokens[|init|]).None?;
      }
    }
  }

  lemma {:induction false} ReadEachErr(tokens: seq<string>, read: string -> Option<int>)
    requires ReadEach(tokens, read).Err?
    ensures exists k :: 0 <= k < |tokens| && FirstRejectedBy(tokens, read, k) && ReadEach(tokens, read).error == IndexValueError(tokens[k])
  {
    var init := tokens[..|tokens| - 1];
    assert forall k :: 0 <= k < |init| ==> init[k] == tokens[k];
    if ReadEach(init, read).Err? {
      ReadEachErr(init, read);
      var k :| 0 <= k < |init| && FirstRejectedBy(init, read, k) && ReadEach(init, read).error == IndexValueError(init[k]);
      assert FirstRejectedBy(tokens, read, k);
    } else {
      ReadEachOk(init, read);
      assert FirstRejectedBy(tokens, read, |init|);
    }
  }

  /** How the review loop ends without a crash: the plan to link, the user
      declining, or nothing left to link. */
  datatype Outcome = Link(plan: seq<MatchedEpisode>) | Aborted | NoCandidates

  /** Lines 104-147 as a value: each round sorts the candidates by show
      folder; an empty list ends the loop; otherwise the next answer either
      declines (empty or "n"), accepts ("y"), or names the positions to
      drop, which are popped from the highest down before the next round. */
  function Review(results: seq<MatchedEpisode>, responses: seq<string>): Result<Outcome, CliError>
    decreases |responses|
  {
    var sorted := SortByDir(results);
    if sorted == [] then Ok(NoCandidates)
    else if responses == [] then Err(EndOfInput)
    else
      var resp := Response(responses[0]);
      if resp == [] || resp == "n" then Ok(Aborted)
      else if resp == "y" then Ok(Link(sorted))
      else
        match Indices(SplitSpace(resp))
        case Err(e) => Err(e)
        case Ok(exclude) =>
          match PopAll(sorted, SortDesc(exclude))
          case Err(n) => Err(PopIndexError(n))
          case Ok(rest) => Review(rest, responses[1..])
  }

  /** Lines 104-147, with `input()` reading `responses` in turn. */
  method ReviewLoop(results: seq<MatchedEpisode>, responses: seq<string>) returns (r: Result<Outcome, CliError>)
    ensures r == Review(results, responses)
  {
    var cur := results;
    var k := 0;
    while true
      invariant 0 <= k <= |responses|
      invariant Review(cur, responses[k..]) == Review(results, responses)
      decreases |responses| - k
    {
      cur := SortByDir(cur);
      if cur == [] {
        return Ok(NoCandidates);
      }
      if k == |responses| {
        return Err(EndOfInput);
      }
      var resp := Strip(Lower(responses[k]));
      if resp == [] || resp == "n" {
        return Ok(Aborted);
      }
      if resp == "y" {
        return Ok(Link(cur));
      }
      var exclude := ParseIndices(SplitSpace(resp));
      if exclude.Err? {
        return Err(exclude.error);
      }
      var rest := PopEach(cur, SortDesc(exclude.value));
      if rest.Err? {
        return Err(PopIndexError(rest.error));
      }
      cur := rest.value;
      assert responses[k..][1..] == responses[k + 1..];
      k := k + 1;
    }
  }

  /** Lines 142-144. */
  method ParseIndices(tokens: seq<string>) returns (r: Result<seq<int>, CliError>)
    ensures r == Indices(tokens)
  {
    var exclude: seq<int> := [];
    for t := 0 to |tokens|
      invariant Indices(tokens[..t]) == Ok(exclude)
    {
      assert tokens[..t + 1][..t] == tokens[..t];
      var number := ParseInt(tokens[t]);
      if number.None? {
        IndicesErrPersists(tokens, t + 1);
        return Err(IndexValueError(tokens[t]));
      }
      exclude := exclude + [number.value];
    }
    assert tokens[..|tokens|] == tokens;
    r := Ok(exclude);
  }

  /** Lines 146-147: `results.pop(number)` for each index in turn. */
  method PopEach<T>(s: seq<T>, ns: seq<int>) returns (r: Result<seq<T>, int>)
    ensures r == PopAll(s, ns)
  {
    var cur := s;
    for j := 0 to |ns|
      invariant PopAll(s, ns) == PopAll(cur, ns[j..])
    {
      assert ns[j..][1..] == ns[j + 1..];
      var popped := Pop(cur, ns[j]);
      if popped.Err? {
        return Err(ns[j]);
      }
      cur := popped.value;
    }
    assert ns[|ns|..] == [];
    r := Ok(cur);
  }

  lemma {:induction false} IndicesErrPersists(tokens: seq<string>, n: nat)
    requires n <= |tokens|
    requires Indices(tokens[..n]).Err?
    ensures Indices(tokens) == Indices(tokens[..n])
    decreases |tokens| - n
  {
    if n < |tokens| {
      var c := tokens[..n + 1];
      assert c[..|c| - 1] == tokens[..n];
      IndicesErrPersists(tokens, n + 1);
    } else {
      assert tokens[..n] == tokens;
    }
  }

  /** Every successful pop removes one element, so what is left is a
      sub-multiset of what there was. */
  lemma {:induction false} PopAllShrinks<T>(s: seq<T>, ns: seq<int>)
    requires PopAll(s, ns).Ok?
    ensures multiset(PopAll(s, ns).value) <= multiset(s)
  {
    if ns != [] {
      var t := Pop(s, ns[0]).value;
      PopShrinks(s, ns[0]);
      PopAllShrinks(t, ns[1..]);
    }
  }

  lemma PopShrinks<T>(s: seq<T>, n: int)
    requires Pop(s, n).Ok?
    ensures multiset(Pop(s, n).value) <= multiset(s)
  {
    var i := if n < 0 then n + |s| else n;
    assert s == s[..i] + [s[i]] + s[i + 1..];
  }

  /** A plan the user accepts is sorted by show folder and consists of
      candidates, each at most as often as it was found. */
  lemma {:induction false} ReviewLink(results: seq<MatchedEpisode>, responses: seq<string>)
    requires Review(results, responses).Ok? && Review(results, responses).value.Link?
    ensures SortedByDir(Review(results, responses).value.plan)
    ensures multiset(Review(results, responses).value.plan) <= multiset(results)
    decreases |responses|
  {
    var sorted := SortByDir(results);
    SortByDirSorted(results);
    var resp := Response(responses[0]);
    if resp != [] && resp != "n" && resp != "y" {
      var exclude := Indices(SplitSpace(resp)).value;
      var rest := PopAll(sorted, SortDesc(exclude)).value;
      PopAllShrinks(sorted, SortDesc(exclude));
      ReviewLink(rest, responses[1..]);
    }
  }

  /** The first answer decides: none left crashes `input()`, an empty
      answer or "n" declines, "y" accepts every candidate, sorted by show
      folder, and an empty candidate list ends the loop before asking. */
  lemma ReviewFirstAnswer(results: seq<MatchedEpisode>, responses: seq<string>)
    ensures results == [] ==> Review(results, responses) == Ok(NoCandidates)
    ensures results != [] && responses == [] ==> Review(results, responses) == Err(EndOfInput)
    ensures results != [] && responses != [] && Response(responses[0]) in {"", "n"} ==>
      Review(results, responses) == Ok(Aborted)
    ensures results != [] && responses != [] && Response(responses[0]) == "y" ==>
      && Review(results, responses).Ok? && Review(results, responses).value.Link?
      && var plan := Review(results, responses).value.plan;
         SortedByDir(plan) && multiset(plan) == multiset(results)
  {
    SortByDirSorted(results);
    if results != [] {
      assert |SortByDir(results)| != 0;
    }
  }

  /** An answer listing distinct positions of the displayed table drops
      exactly those candidates and asks again. */
  lemma ReviewSkip(results: seq<MatchedEpisode>, responses: seq<string>, exclude: seq<int>)
    requires results != [] && responses != []
    requires Response(responses[0]) !in {"", "n", "y"}
    requires Indices(SplitSpace(Response(responses[0]))) == Ok(exclude)
    requires forall i, j :: 0 <= i < j < |exclude| ==> exclude[i] != exclude[j]
    requires forall i :: 0 <= i < |exclude| ==> 0 <= exclude[i] < |results|
    ensures Review(results, responses) ==
      Review(RemovePositions(SortByDir(results), set i | i in exclude), responses[1..])
  {
    assert |SortByDir(results)| != 0;
    ExcludeDistinct(SortByDir(results), exclude);
  }

  /** What `main` reports: how the review ended, the files it could not
      match and how many candidates were already in the library. */
  datatype Report = Report(outcome: Outcome, failures: seq<string>, alreadyThere: int)

  /** `main` as a value, from the command line and the outside world. */
  function Main(args: Args, w: World): Result<Report, CliError>
  {
    if args.matchThresh <= 0 || args.matchThresh > 100 then Err(ThresholdError)
    else
      match Mappings(args.mappings)
      case Err(e) => Err(e)
      case Ok(m) =>
        match Scan(ReadAll(Listing(args.src, w.listdir), m), args.matchThresh, w)
        case Err(e) => Err(e)
        case Ok(st) =>
          var kept := KeepMissing(st.results, w.pathExists);
          match Review(kept, w.responses)
          case Err(e) => Err(e)
          case Ok(outcome) => Ok(Report(outcome, st.failures, |st.results| - |kept|))
  }

  /** `main` up to the links it would create. */
  method Run(args: Args, w: World) returns (r: Result<Report, CliError>)
    ensures r == Main(args, w)
  {
    if args.matchThresh <= 0 || args.matchThresh > 100 {
      return Err(ThresholdError);
    }
    var mappings := ParseMappings(args.mappings);
    if mappings.Err? {
      return Err(mappings.error);
    }
    var scanned := MatchFiles(args.src, mappings.value, args.matchThresh, w);
    if scanned.Err? {
      return Err(scanned.error);
    }
    var results := scanned.value.results;
    var before := |results|;
    results := KeepMissing(results, w.pathExists);
    var alreadyThere := before - |results|;
    var outcome := ReviewLoop(results, w.responses);
    if outcome.Err? {
      return Err(outcome.error);
    }
    r := Ok(Report(outcome.value, scanned.value.failures, alreadyThere));
  }

  /** The review loop crashes only in `input()`, `int()` or `pop`. */
  lemma {:induction false} ReviewErrors(results: seq<MatchedEpisode>, responses: seq<string>)
    requires Review(results, responses).Err?
    ensures Review(results, responses).error.EndOfInput?
      || Review(results, responses).error.IndexValueError?
      || Review(results, responses).error.PopIndexError?
    decreases |responses|
  {
    var sorted := SortByDir(results);
    if sorted != [] && responses != [] {
      var resp := Response(responses[0]);
      if resp != [] && resp != "n" && resp != "y" && Indices(SplitSpace(resp)).Ok? {
        var exclude := Indices(SplitSpace(resp)).value;
        if PopAll(sorted, SortDesc(exclude)).Ok? {
          ReviewErrors(PopAll(sorted, SortDesc(exclude)).value, responses[1..]);
        }
      }
    }
  }

  /** `main` refuses the threshold exactly when it is outside 1-100. */
  lemma MainThreshold(args: Args, w: World)
    ensures Main(args, w) == Err(ThresholdError) <==> !ValidThreshold(args.matchThresh)
  {
    if ValidThreshold(args.matchThresh) && Mappings(args.mappings).Ok? {
      var m := Mappings(args.mappings).value;
      var files := Listing(args.src, w.listdir);
      var xs := ReadAll(files, m);
      ReadAllWellFormed(files, m);
      ScanCrashIff(xs, args.matchThresh, w);
      if Scan(xs, args.matchThresh, w).Ok? {
        var kept := KeepMissing(Scan(xs, args.matchThresh, w).value.results, w.pathExists);
        if Review(kept, w.responses).Err? {
          ReviewErrors(kept, w.responses);
        }
      }
    }
  }

  /** A plan `main` would link is sorted by show folder, and every entry in
      it is a planned link whose destination file does not exist yet; the
      count of those already there is the number the filter dropped. */
  lemma MainPlan(args: Args, w: World)
    requires Main(args, w).Ok?
    ensures var rep := Main(args, w).value;
      var xs := ReadAll(Listing(args.src, w.listdir), Mappings(args.mappings).value);
      && rep.failures == FailuresOf(xs, args.matchThresh, w)
      && rep.alreadyThere == CountThere(Scan(xs, args.matchThresh, w).value.results, w.pathExists)
      && (rep.outcome.Link? ==>
           && SortedByDir(rep.outcome.plan)
           && forall r :: r in rep.outcome.plan ==> Planned(r, args.matchThresh, w) && !AlreadyThere(r, w.pathExists))
  {
    var m := Mappings(args.mappings).value;
    var files := Listing(args.src, w.listdir);
    var xs := ReadAll(files, m);
    var st := Scan(xs, args.matchThresh, w).value;
    ReadAllWellFormed(files, m);
    ScanSummary(xs, args.matchThresh, w);
    var kept := KeepMissing(st.results, w.pathExists);
    KeepMissingSpec(st.results, w.pathExists);
    var outcome := Review(kept, w.responses).value;
    if outcome.Link? {
      ReviewLink(kept, w.responses);
      forall r | r in outcome.plan
        ensures Planned(r, args.matchThresh, w) && !AlreadyThere(r, w.pathExists)
      {
        assert r in multiset(outcome.plan);
        assert r in kept;
      }
    }
  }
}
