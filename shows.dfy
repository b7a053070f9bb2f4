/** tvsort/shows.py: create_show, which guesses a show's numbering scheme
    from the names of the folders already inside it. The listing of the show
    directory is given as a sequence of child names. */
module Shows {
  import opened Wrappers
  import opened PyStr
  import opened Common

  /** The `ValueError` create_show lets escape when a "season " folder name
      does not hold exactly one run of digits. */
  datatype ShowError = SeasonNumberError(item: string)

  /** `item.lower().startswith("season ")` */
  predicate IsSeasonName(item: string)
  {
    "season " <= Lower(item)
  }

  /** Every character outside `string.digits` replaced by a space. */
  function DigitsOnly(s: string): (r: string)
    ensures |r| == |s|
    ensures forall i :: 0 <= i < |s| ==> r[i] == if IsDigit(s[i]) then s[i] else ' '
  {
    seq(|s|, i requires 0 <= i < |s| => if IsDigit(s[i]) then s[i] else ' ')
  }

  /** `int(''.join(...).strip())` on a season folder name. */
  function SeasonNumber(item: string): Option<int>
  {
    ParseInt(Strip(DigitsOnly(item)))
  }

  /** What the loop body of create_show makes of one child name: a season
      folder with the number `int()` reads from its digits (or none, when it
      raises), a name `int()` reads, or anything else. */
  datatype Entry = SeasonFolder(name: string, number: Option<int>) | IntName(value: int) | OtherName

  function Classify(item: string): (e: Entry)
    ensures e.SeasonFolder? <==> IsSeasonName(item)
    ensures e.SeasonFolder? ==> e.name == item
  {
    if IsSeasonName(item) then SeasonFolder(item, SeasonNumber(item))
    else match ParseInt(item)
      case Some(v) => IntName(v)
      case None => OtherName
  }

  /** The listing, classified name by name. */
  function Classified(children: seq<string>): (r: seq<Entry>)
    ensures |r| == |children|
  {
    if children == [] then []
    else Classified(children[..|children| - 1]) + [Classify(children[|children| - 1])]
  }

  /** The counter a child name increments. */
  datatype Kind = SeasonLike | YearLike | Other

  /** A year-like name: one `int()` reads, strictly between 1900 and 2050. */
  predicate InYearRange(y: int)
  {
    1900 < y < 2050
  }

  function KindOf(e: Entry): Kind
  {
    match e
    case SeasonFolder(_, _) => SeasonLike
    case IntName(v) => if InYearRange(v) then YearLike else Other
    case OtherName => Other
  }

  /** How many of the entries count as `k`. */
  function Count(entries: seq<Entry>, k: Kind): nat
  {
    if entries == [] then 0
    else Count(entries[..|entries| - 1], k) + (if KindOf(entries[|entries| - 1]) == k then 1 else 0)
  }

  /** `buckets_season`: the numbers of the season folders, in listing order,
      or the first season folder whose number `int()` rejects. */
  function SeasonBuckets(entries: seq<Entry>): Result<seq<int>, ShowError>
  {
    if entries == [] then Ok([])
    else
      var e := entries[|entries| - 1];
      match SeasonBuckets(entries[..|entries| - 1])
      case Err(err) => Err(err)
      case Ok(b) =>
        match e
        case SeasonFolder(name, None) => Err(SeasonNumberError(name))
        case SeasonFolder(_, Some(n)) => Ok(b + [n])
        case _ => Ok(b)
  }

  /** `buckets_year`: every value `int()` reads from a name that is not a
      season folder, in or out of the year range, in listing order. */
  function YearBuckets(entries: seq<Entry>): seq<int>
  {
    if entries == [] then []
    else
      var e := entries[|entries| - 1];
      YearBuckets(entries[..|entries| - 1]) + (if e.IntName? then [e.value] else [])
  }

  /** The scheme chosen from the three counters: the one whose counter is
      greater than each of the other two; a tie gives none. */
  function Decide(seasonish: nat, yearish: nat, wtfish: nat): Season
  {
    if yearish > seasonish && yearish > wtfish then ByDate
    else if seasonish > yearish && seasonish > wtfish then BySeason
    else NoScheme
  }

  /** The show built from a classified listing. */
  function ShowOf(rootPath: string, dirname: string, entries: seq<Entry>): Result<Show, ShowError>
  {
    match SeasonBuckets(entries)
    case Err(e) => Err(e)
    case Ok(seasons) =>
      var mode := Decide(Count(entries, SeasonLike), Count(entries, YearLike), Count(entries, Other));
      var buckets := if mode == ByDate then YearBuckets(entries) else if mode == BySeason then seasons else [];
      Ok(Show(rootPath, dirname, Lower(dirname), mode, buckets))
  }

  /** create_show(root_path, dirname) with the listing of the show directory
      given as `children`. */
  function InferShow(rootPath: string, dirname: string, children: seq<string>): Result<Show, ShowError>
  {
    ShowOf(rootPath, dirname, Classified(children))
  }

  /** Once a prefix of the entries has raised, so have all of them, with the
      same name. */
  lemma {:induction false} SeasonBucketsErrPersists(entries: seq<Entry>, n: nat)
    requires n <= |entries|
    requires SeasonBuckets(entries[..n]).Err?
    ensures SeasonBuckets(entries) == SeasonBuckets(entries[..n])
    decreases |entries| - n
  {
    if n < |entries| {
      var c := entries[..n + 1];
      assert c[..|c| - 1] == entries[..n];
      SeasonBucketsErrPersists(entries, n + 1);
    } else {
      assert entries[..n] == entries;
    }
  }

  /** What one more child name adds to the classified listing. */
  lemma ClassifiedStep(children: seq<string>, i: nat)
    requires i < |children|
    ensures Classified(children[..i + 1]) == Classified(children[..i]) + [Classify(children[i])]
  {
    var c' := children[..i + 1];
    assert c'[..|c'| - 1] == children[..i];
    assert c'[|c'| - 1] == children[i];
  }

  /** Each entry of the classified listing is the classification of the name
      at the same position. */
  lemma {:induction false} ClassifiedAt(children: seq<string>, i: nat)
    requires i < |children|
    ensures Classified(children)[i] == Classify(children[i])
  {
    if i < |children| - 1 {
      var init := children[..|children| - 1];
      ClassifiedAt(init, i);
    }
  }

  /** Classifying a prefix of the listing gives a prefix of its
      classification. */
  lemma {:induction false} ClassifiedPrefix(children: seq<string>, n: nat)
    requires n <= |children|
    ensures Classified(children[..n]) == Classified(children)[..n]
  {
    if n < |children| {
      var init := children[..|children| - 1];
      ClassifiedPrefix(init, n);
      assert init[..n] == children[..n];
    } else {
      assert children[..n] == children;
    }
  }

  /** What one more entry adds to each counter and bucket list. */
  lemma EntryStep(before: seq<Entry>, e: Entry)
    ensures var after := before + [e];
      && Count(after, SeasonLike) == Count(before, SeasonLike) + (if e.SeasonFolder? then 1 else 0)
      && Count(after, YearLike) == Count(before, YearLike) + (if KindOf(e) == YearLike then 1 else 0)
      && Count(after, Other) == Count(before, Other) + (if KindOf(e) == Other then 1 else 0)
      && YearBuckets(after) == YearBuckets(before) + (if e.IntName? then [e.value] else [])
      && SeasonBuckets(after) ==
           match SeasonBuckets(before)
           case Err(err) => Err(err)
           case Ok(b) =>
             match e
             case SeasonFolder(name, None) => Err(SeasonNumberError(name))
             case SeasonFolder(_, Some(n)) => Ok(b + [n])
             case _ => Ok(b)
  {
    var after := before + [e];
    assert after[..|after| - 1] == before;
  }

  /** The show built from entries whose season numbers all parse. */
  lemma ShowOfBuckets(rootPath: string, dirname: string, entries: seq<Entry>)
    requires SeasonBuckets(entries).Ok?
    ensures var mode := Decide(Count(entries, SeasonLike), Count(entries, YearLike), Count(entries, Other));
      ShowOf(rootPath, dirname, entries) == Ok(Show(rootPath, dirname, Lower(dirname), mode,
        if mode == ByDate then YearBuckets(entries) else if mode == BySeason then SeasonBuckets(entries).value else []))
  {
  }

  /** create_show: one pass over the listing that increments the three
      counters and fills the two bucket lists, then the scheme decision. */
  method CreateShow(rootPath: string, dirname: string, children: seq<string>) returns (r: Result<Show, ShowError>)
    ensures r == InferShow(rootPath, dirname, children)
  {
    var dirLower := Lower(dirname);
    var yearish, seasonish, wtfish := 0, 0, 0;
    var bucketsSeason: seq<int> := [];
    var bucketsYear: seq<int> := [];
    for i := 0 to |children|
      invariant seasonish == Count(Classified(children[..i]), SeasonLike)
      invariant yearish == Count(Classified(children[..i]), YearLike)
      invariant wtfish == Count(Classified(children[..i]), Other)
      invariant SeasonBuckets(Classified(children[..i])) == Ok(bucketsSeason)
      invariant bucketsYear == YearBuckets(Classified(children[..i]))
    {
      var item := children[i];
      if IsSeasonName(item) {
        seasonish := seasonish + 1;
        var n := SeasonNumber(item);
        if n.None? {
          BadSeasonChild(children, i);
          return Err(SeasonNumberError(item));
        }
        SeasonChild(children, i, n.value);
        bucketsSeason := bucketsSeason + [n.value];
        continue;
      }
      var year := ParseInt(item);
      if year.Some? {
        IntChild(children, i, year.value);
        bucketsYear := bucketsYear + [year.value];
        if 1900 < year.value < 2050 {
          yearish := yearish + 1;
          continue;
        }
      } else {
        OtherChild(children, i);
      }
      wtfish := wtfish + 1;
    }
    assert children[..|children|] == children;
    ShowOfBuckets(rootPath, dirname, Classified(children));
    var mode: Season;
    var episodes: seq<int>;
    if yearish > seasonish && yearish > wtfish {
      mode, episodes := ByDate, bucketsYear;
    } else if seasonish > yearish && seasonish > wtfish {
      mode, episodes := BySeason, bucketsSeason;
    } else {
      mode, episodes := NoScheme, [];
    }
    r := Ok(Show(rootPath, dirname, dirLower, mode, episodes));
  }

  /** A season folder whose number `int()` reads adds one to `seasonish`
      and its number to `buckets_season`. */
  lemma SeasonChild(children: seq<string>, i: nat, n: int)
    requires i < |children| && IsSeasonName(children[i]) && SeasonNumber(children[i]) == Some(n)
    ensures var before, after := Classified(children[..i]), Classified(children[..i + 1]);
      && Count(after, SeasonLike) == Count(before, SeasonLike) + 1
      && Count(after, YearLike) == Count(before, YearLike)
      && Count(after, Other) == Count(before, Other)
      && YearBuckets(after) == YearBuckets(before)
      && (SeasonBuckets(before).Ok? ==> SeasonBuckets(after) == Ok(SeasonBuckets(before).value + [n]))
  {
    ClassifiedStep(children, i);
    assert Classify(children[i]) == SeasonFolder(children[i], Some(n));
    EntryStep(Classified(children[..i]), SeasonFolder(children[i], Some(n)));
  }

  /** A season folder whose number `int()` rejects makes create_show raise,
      naming that folder, when no earlier one has. */
  lemma BadSeasonChild(children: seq<string>, i: nat)
    requires i < |children| && IsSeasonName(children[i]) && SeasonNumber(children[i]).None?
    requires SeasonBuckets(Classified(children[..i])).Ok?
    ensures forall rootPath, dirname :: InferShow(rootPath, dirname, children) == Err(SeasonNumberError(children[i]))
  {
    ClassifiedStep(children, i);
    assert Classify(children[i]) == SeasonFolder(children[i], None);
    EntryStep(Classified(children[..i]), SeasonFolder(children[i], None));
    ClassifiedPrefix(children, i + 1);
    SeasonBucketsErrPersists(Classified(children), i + 1);
  }

  /** A name `int()` reads that is not a season folder adds its value to
      `buckets_year`, and one to `yearish` or `wtfish`. */
  lemma IntChild(children: seq<string>, i: nat, v: int)
    requires i < |children| && !IsSeasonName(children[i]) && ParseInt(children[i]) == Some(v)
    ensures var before, after := Classified(children[..i]), Classified(children[..i + 1]);
      && Count(after, SeasonLike) == Count(before, SeasonLike)
      && Count(after, YearLike) == Count(before, YearLike) + (if InYearRange(v) then 1 else 0)
      && Count(after, Other) == Count(before, Other) + (if InYearRange(v) then 0 else 1)
      && YearBuckets(after) == YearBuckets(before) + [v]
      && SeasonBuckets(after) == SeasonBuckets(before)
  {
    ClassifiedStep(children, i);
    assert Classify(children[i]) == IntName(v);
    EntryStep(Classified(children[..i]), IntName(v));
  }

  /** Any other name adds one to `wtfish` only. */
  lemma OtherChild(children: seq<string>, i: nat)
    requires i < |children| && !IsSeasonName(children[i]) && ParseInt(children[i]).None?
    ensures var before, after := Classified(children[..i]), Classified(children[..i + 1]);
      && Count(after, SeasonLike) == Count(before, SeasonLike)
      && Count(after, YearLike) == Count(before, YearLike)
      && Count(after, Other) == Count(before, Other) + 1
      && YearBuckets(after) == YearBuckets(before)
      && SeasonBuckets(after) == SeasonBuckets(before)
  {
    ClassifiedStep(children, i);
    assert Classify(children[i]) == OtherName;
    EntryStep(Classified(children[..i]), OtherName);
  }

  /** Each name increments exactly one counter, so the three counters add up
      to the number of names. */
  lemma {:induction false} CountsPartition(entries: seq<Entry>)
    ensures Count(entries, SeasonLike) + Count(entries, YearLike) + Count(entries, Other) == |entries|
  {
    if entries != [] {
      CountsPartition(entries[..|entries| - 1]);
    }
  }

  /** A season folder whose number `int()` rejects. */
  predicate IsBadSeason(e: Entry)
  {
    e.SeasonFolder? && e.number.None?
  }

  /** What `int()` makes of the digits of a season folder name: a value
      exactly when they strip to a non-empty run of digits. */
  lemma DigitsOnlyUnsigned(item: string)
    ensures var t := Strip(DigitsOnly(item));
      && (SeasonNumber(item).Some? <==> t != [] && AllDigits(t))
      && (SeasonNumber(item).Some? ==> SeasonNumber(item) == Some(DecimalValue(t)))
  {
    var x := DigitsOnly(item);
    var t := Strip(x);
    StripBounds(x);
    assert forall i :: 0 <= i < |t| ==> t[i] == x[LeadingSpaces(x) + i];
    StripUnchanged(t);
    ParseUnsigned(t);
  }

  /** A season folder's number is never negative: its digits are read
      without any sign. */
  lemma SeasonNumberNonNegative(item: string)
    requires SeasonNumber(item).Some?
    ensures SeasonNumber(item).value >= 0
  {
    DigitsOnlyUnsigned(item);
  }

  /** `buckets_season` gets one number per season folder, so its length is
      `seasonish`. */
  lemma {:induction false} SeasonBucketsLength(entries: seq<Entry>)
    requires SeasonBuckets(entries).Ok?
    ensures |SeasonBuckets(entries).value| == Count(entries, SeasonLike)
  {
    if entries != [] {
      SeasonBucketsLength(entries[..|entries| - 1]);
    }
  }

  /** Every number in `buckets_season` is non-negative. */
  lemma {:induction false} SeasonBucketsNonNegative(children: seq<string>)
    requires SeasonBuckets(Classified(children)).Ok?
    ensures forall k :: 0 <= k < |SeasonBuckets(Classified(children)).value| ==> SeasonBuckets(Classified(children)).value[k] >= 0
  {
    if children != [] {
      var init := children[..|children| - 1];
      var item := children[|children| - 1];
      EntryStep(Classified(init), Classify(item));
      SeasonBucketsNonNegative(init);
      if IsSeasonName(item) {
        SeasonNumberNonNegative(item);
      }
    }
  }

  /** `buckets_year` gets every value `int()` reads outside the season
      folders: at least `yearish` values, and no more than `yearish` plus
      `wtfish`. */
  lemma {:induction false} YearBucketsLength(entries: seq<Entry>)
    ensures Count(entries, YearLike) <= |YearBuckets(entries)| <= Count(entries, YearLike) + Count(entries, Other)
  {
    if entries != [] {
      YearBucketsLength(entries[..|entries| - 1]);
    }
  }

  /** create_show raises exactly when some season folder has no number
      `int()` reads. */
  lemma {:induction false} SeasonBucketsErrIff(entries: seq<Entry>)
    ensures SeasonBuckets(entries).Err? <==> exists i :: 0 <= i < |entries| && IsBadSeason(entries[i])
  {
    if entries != [] {
      var n := |entries| - 1;
      var init := entries[..n];
      SeasonBucketsErrIff(init);
      assert forall i :: 0 <= i < n ==> init[i] == entries[i];
      if SeasonBuckets(init).Err? {
        var i :| 0 <= i < n && IsBadSeason(init[i]);
        assert IsBadSeason(entries[i]);
      }
    }
  }

  /** The error names the first such folder in listing order. */
  lemma SeasonBucketsErrFirst(entries: seq<Entry>, i: nat)
    requires i < |entries| && IsBadSeason(entries[i])
    requires forall j :: 0 <= j < i ==> !IsBadSeason(entries[j])
    ensures SeasonBuckets(entries) == Err(SeasonNumberError(entries[i].name))
  {
    var c := entries[..i + 1];
    SeasonBucketsErrIff(entries[..i]);
    assert c[..i] == entries[..i];
    SeasonBucketsErrPersists(entries, i + 1);
  }

  /** The result keeps `root_path` and `dirname`, its name is the lower-case
      folder name, and its scheme is by date (with `buckets_year`) exactly
      when `yearish` beats both other counters, by season (with
      `buckets_season`) exactly when `seasonish` does, and otherwise none
      with no seasons, ties included; it is never `special`. */
  lemma InferShowResult(rootPath: string, dirname: string, children: seq<string>)
    requires InferShow(rootPath, dirname, children).Ok?
    ensures var show := InferShow(rootPath, dirname, children).value;
      var entries := Classified(children);
      var s, y, w := Count(entries, SeasonLike), Count(entries, YearLike), Count(entries, Other);
      && show.root == rootPath && show.dir == dirname && show.name == Lower(dirname)
      && WellFormedShow(show)
      && (show.mode == ByDate <==> y > s && y > w)
      && (show.mode == BySeason <==> s > y && s > w)
      && (show.mode == ByDate ==> show.seasons == YearBuckets(entries))
      && (show.mode == BySeason ==> show.seasons == SeasonBuckets(entries).value)
      && (show.mode == NoScheme ==> show.seasons == [])
  {
  }

  /** The digits of `item` form the one non-empty run `item[a..b]`. */
  predicate OneDigitRun(item: string, a: int, b: int)
  {
    && 0 <= a < b <= |item|
    && (forall i :: a <= i < b ==> IsDigit(item[i]))
    && (forall i :: 0 <= i < |item| && !(a <= i < b) ==> !IsDigit(item[i]))
  }

  /** A season folder's number is read exactly when its digits form one
      non-empty run, and it is the value of that run: "Season 1 part 2" and
      "Season one" raise. */
  lemma SeasonNumberOneRun(item: string)
    ensures SeasonNumber(item).Some? <==> exists a, b :: OneDigitRun(item, a, b)
    ensures forall a, b :: OneDigitRun(item, a, b) ==> SeasonNumber(item) == Some(DecimalValue(item[a..b]))
  {
    forall a, b | OneDigitRun(item, a, b) ensures SeasonNumber(item) == Some(DecimalValue(item[a..b])) {
      SeasonNumberOfRun(item, a, b);
    }
    if SeasonNumber(item).Some? {
      DigitsOnlyUnsigned(item);
      StrippedIsRun(item);
    }
  }

  lemma SeasonNumberOfRun(item: string, a: int, b: int)
    requires OneDigitRun(item, a, b)
    ensures SeasonNumber(item) == Some(DecimalValue(item[a..b]))
  {
    RunIsStripped(item, a, b);
    DigitsOnlyUnsigned(item);
  }

  /** The digits of one run, with spaces around them, strip to the run. */
  lemma RunIsStripped(item: string, a: int, b: int)
    requires OneDigitRun(item, a, b)
    ensures Strip(DigitsOnly(item)) == item[a..b]
  {
    var x := DigitsOnly(item);
    assert IsSpace(' ');
    StripWindow(x, a, b);
    SliceOf(x[a..b], item, a, b);
  }

  lemma SliceOf(t: string, s: string, a: int, b: int)
    requires 0 <= a <= b <= |s| && |t| == b - a
    requires forall k :: 0 <= k < |t| ==> t[k] == s[a + k]
    ensures t == s[a..b]
  {
  }

  /** A stripped digit string with nothing but digits comes from one run. */
  lemma StrippedIsRun(item: string)
    requires Strip(DigitsOnly(item)) != [] && AllDigits(Strip(DigitsOnly(item)))
    ensures exists a, b :: OneDigitRun(item, a, b)
  {
    var x := DigitsOnly(item);
    var t := Strip(x);
    StripBounds(x);
    var a := LeadingSpaces(x);
    var b := a + |t|;
    forall i | a <= i < b ensures IsDigit(item[i]) {
      assert t[i - a] == x[i];
    }
    forall i | 0 <= i < |item| && !(a <= i < b) ensures !IsDigit(item[i]) {
      assert IsSpace(x[i]);
    }
    assert OneDigitRun(item, a, b);
  }
}
