/** tvsort/parser.py: parse_episode and sub_bucket_name. */
module Parser {
  import opened Wrappers
  import opened PyStr
  import opened Common
  import opened Patterns

  /** EpisodeParseException, raised when no episode pattern occurs in the name. */
  datatype ParseError = EpisodeParseException(fname: string)

  /** The characters `fname.rstrip(".mkv")` removes from the end of a name:
      a set of characters, not a suffix. */
  const ExtensionChars: set<char> := {'.', 'm', 'k', 'v'}

  /** The working name: trailing extension characters removed, then
      lower-cased (the removal sees the original case). */
  function WorkingName(fname: string): string
  {
    Lower(RStripChars(fname, ExtensionChars))
  }

  /** `fname[k:]` is a run of `.`, `m`, `k` and `v` that cannot be made
      longer. */
  predicate ExtensionTail(fname: string, k: int)
  {
    && 0 <= k <= |fname|
    && (forall i :: k <= i < |fname| ==> fname[i] in ExtensionChars)
    && (k == 0 || fname[k - 1] !in ExtensionChars)
  }

  /** The working name is the lower-cased prefix of `fname` left once the
      trailing run of `.`, `m`, `k` and `v` is gone; the set is tested
      before lower-casing, so an upper-case `.MKV` stays. */
  lemma WorkingNameSpec(fname: string)
    ensures exists k :: ExtensionTail(fname, k) && WorkingName(fname) == Lower(fname[..k])
  {
    var r := RStripChars(fname, ExtensionChars);
    assert r == fname[..|r|];
    assert ExtensionTail(fname, |r|);
  }

  /** "Jack.mkv" loses the `k` of its name too, and ".MKV" is kept. */
  lemma WorkingNameExamples()
    ensures WorkingName("Jack.mkv") == "jac"
    ensures WorkingName("Show.MKV") == "show.mkv"
  {
    JackStrip();
    assert RStripChars("Show.MKV", ExtensionChars) == "Show.MKV";
  }

  lemma JackStrip()
    ensures RStripChars("Jack.mkv", ExtensionChars) == "Jac"
  {
    var e := ExtensionChars;
    assert RStripChars("Jac", e) == "Jac";
    StripExtensionStep("Jack", "Jac");
    StripExtensionStep("Jack.", "Jack");
    StripExtensionStep("Jack.m", "Jack.");
    StripExtensionStep("Jack.mk", "Jack.m");
    StripExtensionStep("Jack.mkv", "Jack.mk");
  }

  lemma StripExtensionStep(s: string, t: string)
    requires s != [] && t == s[..|s| - 1] && s[|s| - 1] in ExtensionChars
    ensures RStripChars(s, ExtensionChars) == RStripChars(t, ExtensionChars)
  {
  }

  /** The pattern parse_episode settles on and its leftmost match: the
      `s01e02` form, else the `21x04` form, else the date form. */
  function FindEpisode(item: string): (r: Option<(Pattern, Match)>)
    ensures r.Some? ==> Search(r.value.0, item) == Some(r.value.1)
    ensures r.Some? ==> GoodMatch(item, r.value.1.start, r.value.1)
  {
    var se := Search(SeasonEpisode, item);
    if se.Some? then Some((SeasonEpisode, se.value))
    else
      var nx := Search(NumberX, item);
      if nx.Some? then Some((NumberX, nx.value))
      else
        var dt := Search(Date, item);
        if dt.Some? then Some((Date, dt.value)) else None
  }

  /** `int()` of an optional group of digits. */
  function OptionalNumber(g: Option<string>): (r: Option<int>)
    requires g.Some? ==> AllDigits(g.value)
    ensures r.Some? <==> g.Some?
  {
    if g.Some? then Some(DecimalValue(g.value)) else None
  }

  /** The EpInfo parse_episode builds from a match (`int()` of a string of
      ASCII digits is its decimal value). */
  function EpisodeOf(fname: string, p: Pattern, m: Match): EpInfo
    requires AllDigits(m.major)
    requires m.minor.Some? ==> AllDigits(m.minor.value)
    requires m.extra.Some? ==> AllDigits(m.extra.value)
  {
    match p
    case Date => EpInfo(fname, ByDate, DecimalValue(m.major), OptionalNumber(m.minor), OptionalNumber(m.extra))
    case _ =>
      if m.minor.None? then EpInfo(fname, Special, DecimalValue(m.major), None, None)
      else EpInfo(fname, BySeason, DecimalValue(m.major), OptionalNumber(m.minor), None)
  }

  /** The title before cleanup. `whole` is looked up again with `find`: from
      offset 10 on, everything from there is cut off; earlier, every
      occurrence of `whole` is deleted instead. */
  function CutMatch(item: string, whole: string): string
  {
    var pos := Find(item, whole);
    if pos >= 10 then item[..pos] else Replace(item, whole, "")
  }

  /** `string.ascii_lowercase + string.digits` */
  predicate AllowedChar(c: char)
  {
    IsAsciiLower(c) || IsDigit(c)
  }

  function CleanChar(c: char): char
  {
    if AllowedChar(c) then c else ' '
  }

  /** Every character outside `[a-z0-9]` replaced by a space. */
  function CleanChars(s: string): (r: string)
    ensures |r| == |s|
    ensures forall i :: 0 <= i < |s| ==> r[i] == CleanChar(s[i])
  {
    if s == [] then [] else CleanChars(s[..|s| - 1]) + [CleanChar(s[|s| - 1])]
  }

  /** The title parse_episode returns for the cut name: release tags removed,
      disallowed characters blanked, surrounding whitespace stripped. */
  function TitleOf(cut: string): string
  {
    Strip(CleanChars(StripTags(cut, CommonCrap)))
  }

  /** parse_episode(fname) as a value: the EpInfo and the title, or the
      exception. */
  function Parse(fname: string): Result<(EpInfo, string), ParseError>
  {
    var item := WorkingName(fname);
    var found := FindEpisode(item);
    if found.None? then Err(EpisodeParseException(fname))
    else
      var m := found.value.1;
      Ok((EpisodeOf(fname, found.value.0, m), TitleOf(CutMatch(item, Whole(item, m)))))
  }

  /** parse_episode: rebinds the working name step by step, strips each
      release tag in turn and rebuilds the title character by character. */
  method ParseEpisode(fname: string) returns (r: Result<(EpInfo, string), ParseError>)
    ensures r == Parse(fname)
  {
    var item := WorkingName(fname);
    var found := FindEpisode(item);
    if found.None? {
      return Err(EpisodeParseException(fname));
    }
    var p, m := found.value.0, found.value.1;
    var epinfo := EpisodeOf(fname, p, m);
    item := CutMatch(item, Whole(item, m));
    item := RemoveCommonCrap(item);
    var cleaned := CleanTitle(item);
    r := Ok((epinfo, Strip(cleaned)));
  }

  /** The loop over COMMON_CRAP: each release tag removed in turn. */
  method RemoveCommonCrap(cut: string) returns (item: string)
    ensures item == StripTags(cut, CommonCrap)
  {
    item := cut;
    for k := 0 to |CommonCrap|
      invariant StripTags(item, CommonCrap[k..]) == StripTags(cut, CommonCrap)
    {
      StripTagsStep(item, CommonCrap, k);
      item := RemoveTag(CommonCrap[k], item);
    }
  }

  lemma StripTagsStep(s: string, tags: seq<Tag>, k: nat)
    requires k < |tags|
    ensures StripTags(s, tags[k..]) == StripTags(RemoveTag(tags[k], s), tags[k + 1..])
  {
    assert tags[k..][1..] == tags[k + 1..];
  }

  /** The rebuild of the title character by character, keeping `a-z` and
      `0-9` and blanking the rest. */
  method CleanTitle(item: string) returns (cleaned: string)
    ensures cleaned == CleanChars(item)
  {
    cleaned := "";
    for k := 0 to |item|
      invariant cleaned == CleanChars(item[..k])
    {
      assert item[..k + 1][..k] == item[..k];
      cleaned := cleaned + [if AllowedChar(item[k]) then item[k] else ' '];
    }
    assert item[..|item|] == item;
  }

  /** sub_bucket_name: the folder of a show an episode goes in: the year
      for a date-based show, "Season " and the number for a season-based
      show, and nothing otherwise. */
  function SubBucketName(show: Show, major: int, minor: Option<int>, extra: Option<int>): (r: string)
    ensures show.mode == BySeason ==> "Season " <= r
    ensures show.mode != ByDate && show.mode != BySeason ==> r == []
  {
    var t := IntToStr(major);
    if show.mode == ByDate then t
    else if show.mode == BySeason then "Season " + t
    else ""
  }

  /** The folder name holds the episode's major number written as `str()`
      writes it (no leading zero), which `int()` reads back: the whole name
      for a date-based show, the part after "Season " for a season-based
      one. */
  lemma SubBucketNameReadsBack(show: Show, major: int, minor: Option<int>, extra: Option<int>)
    ensures var r := SubBucketName(show, major, minor, extra);
      && (show.mode == ByDate ==> ParseInt(r) == Some(major) && CanonicalInt(r))
      && (show.mode == BySeason ==> |r| >= 7 && ParseInt(r[7..]) == Some(major) && CanonicalInt(r[7..]))
  {
    IntToStrRoundTrip(major);
    IntToStrCanonical(major);
    var r := SubBucketName(show, major, minor, extra);
    if show.mode == BySeason {
      assert r[7..] == IntToStr(major);
    }
  }

  /** The folder depends on the show's scheme and the major number only,
      never on the episode's `minor` or `extra` part. */
  lemma SubBucketNameIgnoresEpisode(show: Show, major: int, m1: Option<int>, e1: Option<int>, m2: Option<int>, e2: Option<int>)
    ensures SubBucketName(show, major, m1, e1) == SubBucketName(show, major, m2, e2)
  {
  }

  /** parse_episode raises exactly when none of the three patterns matches
      anywhere in the working name, and the exception names the file. */
  lemma ParseFailsIffNoPattern(fname: string)
    ensures var w := WorkingName(fname);
      Parse(fname).Err? <==> forall p: Pattern, j :: 0 <= j <= |w| ==> MatchAt(p, w, j).None?
    ensures Parse(fname).Err? ==> Parse(fname).error == EpisodeParseException(fname)
  {
    var w := WorkingName(fname);
    ParseErrIffNotFound(fname);
    if FindEpisode(w).Some? {
      var m := FindEpisode(w).value.1;
      assert MatchAt(FindEpisode(w).value.0, w, m.start).Some?;
    } else {
      assert Search(SeasonEpisode, w).None? && Search(NumberX, w).None? && Search(Date, w).None?;
      forall p: Pattern, j | 0 <= j <= |w| ensures MatchAt(p, w, j).None? {
        match p
        case SeasonEpisode =>
        case NumberX =>
        case Date =>
      }
    }
  }

  lemma ParseErrIffNotFound(fname: string)
    ensures Parse(fname).Err? <==> FindEpisode(WorkingName(fname)).None?
    ensures Parse(fname).Err? ==> Parse(fname).error == EpisodeParseException(fname)
  {
  }

  /** Two digits make a number below 100. */
  lemma TwoDigits(d: string)
    requires |d| == 2 && AllDigits(d)
    ensures 0 <= DecimalValue(d) < 100
  {
    DecimalValueBound(d);
  }

  lemma ShortNumberBound(g: Option<string>)
    requires g.Some? ==> ShortNumber(g.value)
    ensures OptionalNumber(g).Some? ==> 0 <= OptionalNumber(g).value < 100
  {
    if g.Some? {
      DecimalValueBound(g.value);
      assert Pow10(|g.value|) <= 100;
    }
  }

  /** A `s`+two-digit match decides the episode: with an `e`+two-digit part
      it is by season (season, episode, no day); without one it is a special
      with only its season. */
  lemma ParseSeasonEpisode(fname: string)
    requires Search(SeasonEpisode, WorkingName(fname)).Some?
    ensures var w := WorkingName(fname);
      var m := Search(SeasonEpisode, w).value;
      && Parse(fname).Ok?
      && var ep := Parse(fname).value.0;
      && ep.file == fname
      && ep.major == DecimalValue(w[m.start + 1..m.start + 3]) && 0 <= ep.major < 100
      && (m.minor.Some? ==>
            && ep.mode == BySeason && ep.extra.None?
            && ep.minor == Some(DecimalValue(m.minor.value)) && 0 <= ep.minor.value < 100)
      && (m.minor.None? ==> ep.mode == Special && ep.minor.None? && ep.extra.None?)
  {
    var w := WorkingName(fname);
    var m := Search(SeasonEpisode, w).value;
    assert FindEpisode(w) == Some((SeasonEpisode, m));
    ParseIsEpisodeOf(fname);
    assert SeasonEpisodeAt(w, m.start) == Some(m);
    TwoDigits(m.major);
    if m.minor.Some? {
      TwoDigits(m.minor.value);
    }
  }

  /** The EpInfo half of Parse. */
  lemma ParseIsEpisodeOf(fname: string)
    requires FindEpisode(WorkingName(fname)).Some?
    ensures var f := FindEpisode(WorkingName(fname)).value;
      Parse(fname).Ok? && Parse(fname).value.0 == EpisodeOf(fname, f.0, f.1)
  {
  }

  /** The `21x04` form is used only when no `s01` form occurs anywhere, and
      it always gives a by-season episode. */
  lemma ParseNumberX(fname: string)
    requires Search(SeasonEpisode, WorkingName(fname)).None?
    requires Search(NumberX, WorkingName(fname)).Some?
    ensures var m := Search(NumberX, WorkingName(fname)).value;
      && Parse(fname).Ok?
      && var ep := Parse(fname).value.0;
      && ep.file == fname && ep.mode == BySeason && ep.extra.None?
      && ep.major == DecimalValue(m.major) && ep.major >= 0
      && ep.minor == Some(DecimalValue(m.minor.value)) && 0 <= ep.minor.value < 100
  {
    var m := Search(NumberX, WorkingName(fname)).value;
    TwoDigits(m.minor.value);
  }

  /** A year `201d` is between 2010 and 2019. */
  lemma YearBound(y: string)
    requires |y| == 4 && AllDigits(y) && y[..3] == "201"
    ensures 2010 <= DecimalValue(y) <= 2019
  {
    var h := y[..3];
    assert y[..|y| - 1] == h;
    assert h[..2] == "20" && "20"[..1] == "2" && "2"[..0] == "";
    assert DecimalValue(h) == 201;
  }

  /** The date form is used only when neither season form occurs; it gives a
      date-based episode whose year is in 2010..2019 and whose month and day
      are each a number below 100 or absent. */
  lemma ParseDate(fname: string)
    requires Search(SeasonEpisode, WorkingName(fname)).None?
    requires Search(NumberX, WorkingName(fname)).None?
    requires Search(Date, WorkingName(fname)).Some?
    ensures var m := Search(Date, WorkingName(fname)).value;
      && Parse(fname).Ok?
      && var ep := Parse(fname).value.0;
      && ep.file == fname && ep.mode == ByDate
      && 2010 <= ep.major <= 2019
      && ep.minor == OptionalNumber(m.minor) && ep.extra == OptionalNumber(m.extra)
      && (ep.minor.Some? ==> 0 <= ep.minor.value < 100)
      && (ep.extra.Some? ==> 0 <= ep.extra.value < 100)
  {
    var m := Search(Date, WorkingName(fname)).value;
    YearBound(m.major);
    ShortNumberBound(m.minor);
    ShortNumberBound(m.extra);
  }

  /** Every EpInfo parse_episode returns keeps the record invariants and
      carries the file name it was given, unchanged. */
  lemma ParseWellFormed(fname: string)
    requires Parse(fname).Ok?
    ensures WellFormedEpInfo(Parse(fname).value.0)
    ensures Parse(fname).value.0.file == fname
  {
    var w := WorkingName(fname);
    if Search(SeasonEpisode, w).Some? {
      ParseSeasonEpisode(fname);
    } else if Search(NumberX, w).Some? {
      ParseNumberX(fname);
    } else {
      ParseDate(fname);
    }
  }

  /** The title depends on where the match starts in the working name: from
      offset 10 on, the title is made from the text before the match; before
      that, from the name with the matched text deleted wherever it occurs. */
  lemma ParseTitle(fname: string)
    requires Parse(fname).Ok?
    ensures var w := WorkingName(fname);
      var m := FindEpisode(w).value.1;
      Parse(fname).value.1 ==
        TitleOf(if m.start >= 10 then w[..m.start] else Replace(w, Whole(w, m), ""))
  {
    var w := WorkingName(fname);
    var f := FindEpisode(w).value;
    FindWholeIsStart(f.0, w);
    var m := f.1;
    assert Find(w, Whole(w, m)) == m.start;
    assert Parse(fname).value.1 == TitleOf(CutMatch(w, Whole(w, m)));
  }

  /** A title holds only `a-z`, `0-9` and spaces, and neither starts nor ends
      with a space. */
  lemma TitleIsClean(cut: string)
    ensures var t := TitleOf(cut);
      && (forall i :: 0 <= i < |t| ==> AllowedChar(t[i]) || t[i] == ' ')
      && (t == [] || (t[0] != ' ' && t[|t| - 1] != ' '))
  {
    var c := CleanChars(StripTags(cut, CommonCrap));
    StrippedClean(c);
    assert IsSpace(' ');
  }

  /** Stripping a string of allowed characters and spaces keeps it one. */
  lemma StrippedClean(c: string)
    requires forall i :: 0 <= i < |c| ==> AllowedChar(c[i]) || c[i] == ' '
    ensures forall i :: 0 <= i < |Strip(c)| ==> AllowedChar(Strip(c)[i]) || Strip(c)[i] == ' '
  {
    StripIsSlice(c);
    var a := |c| - |LStrip(c)|;
    var t := Strip(c);
    forall i | 0 <= i < |t| ensures AllowedChar(t[i]) || t[i] == ' ' {
      assert t[i] == c[a + i];
    }
  }

  /** The working name of "Show.Name.S01E02.720p.x264.mkv". */
  lemma ExampleWorkingName()
    ensures WorkingName("Show.Name.S01E02.720p.x264.mkv") == "show.name.s01e02.720p.x264"
  {
    ExampleRStrip();
    ExampleLower();
  }

  lemma ExampleRStrip()
    ensures RStripChars("Show.Name.S01E02.720p.x264.mkv", ExtensionChars) == "Show.Name.S01E02.720p.x264"
  {
    var r := "Show.Name.S01E02.720p.x264";
    var d, c, b, f := r + ".", r + ".m", r + ".mk", r + ".mkv";
    assert f == "Show.Name.S01E02.720p.x264.mkv";
    assert f[..|f| - 1] == b && b[..|b| - 1] == c && c[..|c| - 1] == d && d[..|d| - 1] == r;
    assert RStripChars(r, ExtensionChars) == r;
    assert RStripChars(d, ExtensionChars) == r;
    assert RStripChars(c, ExtensionChars) == r;
    assert RStripChars(b, ExtensionChars) == r;
  }

  lemma ExampleLower()
    ensures Lower("Show.Name.S01E02.720p.x264") == "show.name.s01e02.720p.x264"
  {
    LowerConcat("Show.Name.", "S01E02.720p.x264");
  }

  /** In that working name the leftmost `s01e02` form starts at offset 10. */
  lemma ExampleSlices()
    ensures var w := "show.name.s01e02.720p.x264";
      w[11..13] == "01" && w[14..16] == "02" && w[..10] == "show.name."
  {
  }

  lemma ExampleSearch()
    ensures Search(SeasonEpisode, "show.name.s01e02.720p.x264") == Some(Match(10, 6, "01", Some("02"), None))
  {
    ExampleMatchAtTen();
    ExampleNoEarlierMatch();
    SearchLeftmost(SeasonEpisode, "show.name.s01e02.720p.x264", 10);
  }

  lemma ExampleMatchAtTen()
    ensures MatchAt(SeasonEpisode, "show.name.s01e02.720p.x264", 10) == Some(Match(10, 6, "01", Some("02"), None))
  {
    ExampleSlices();
  }

  lemma ExampleNoEarlierMatch()
    ensures var w := "show.name.s01e02.720p.x264";
      forall j :: 0 <= j < 10 ==> MatchAt(SeasonEpisode, w, j).None?
  {
    var w := "show.name.s01e02.720p.x264";
    forall j | 0 <= j < 10 ensures MatchAt(SeasonEpisode, w, j).None? {
      assert w[j] != 'S' && (w[j] == 's' ==> !IsDigit(w[j + 1]));
    }
  }

  /** No release tag occurs in "show.name.". */
  lemma ExampleNoTags()
    ensures StripTags("show.name.", CommonCrap) == "show.name."
  {
    forall t, j | t in CommonCrap && 0 <= j < 10 ensures TagAt(t, "show.name.", j) == 0 {
      ExampleNoTag(t, j);
    }
    StripTagsNoMatch("show.name.", CommonCrap);
  }

  lemma ExampleNoTag(t: Tag, j: nat)
    requires j < 10
    ensures TagAt(t, "show.name.", j) == 0
  {
    match t
    case X264 => ExampleNoX264(j);
    case Resolution => ExampleNoLetterTag(t, j);
    case Hdtv => ExampleNoLetterTag(t, j);
    case Ddp => ExampleNoLetterTag(t, j);
    case _ => ExampleNoAudioTag(t, j);
  }

  lemma ExampleNoX264(j: nat)
    requires j < 10
    ensures TagAt(X264, "show.name.", j) == 0
  {
    var u := "show.name.";
    assert u[j] != 'x' && u[j] != '2';
    assert u[j] == 'h' ==> j == 1 && u[2] == 'o' && u[3] == 'w';
  }

  lemma ExampleNoLetterTag(t: Tag, j: nat)
    requires j < 10 && (t == Resolution || t == Hdtv || t == Ddp)
    ensures TagAt(t, "show.name.", j) == 0
  {
    var u := "show.name.";
    assert u[j] != '7' && u[j] != '1' && u[j] != 'd';
    assert u[j] == 'h' ==> j == 1 && u[2] == 'o';
  }

  lemma ExampleNoAudioTag(t: Tag, j: nat)
    requires j < 10 && (t == Web || t == Amazon || t == DolbyDigital || t == Aac)
    ensures TagAt(t, "show.name.", j) == 0
  {
    var u := "show.name.";
    assert u[j] != 'd';
    assert u[j] == 'w' ==> j == 3 && u[4] == '.';
    assert IsTagSeparator(u[j]) ==> j == 4 || j == 9;
    assert u[5] == 'n';
    assert u[j] == 'a' ==> j == 6 && u[7] == 'm';
  }

  /** The title made from "show.name.". */
  lemma ExampleTitle()
    ensures TitleOf("show.name.") == "show name"
  {
    ExampleNoTags();
    ExampleClean();
    ExampleStrip();
  }

  lemma ExampleClean()
    ensures CleanChars("show.name.") == "show name "
  {
    var c, t := CleanChars("show.name."), "show name ";
    forall i | 0 <= i < 10 ensures c[i] == t[i] {
    }
  }

  lemma ExampleStrip()
    ensures Strip("show name ") == "show name"
  {
    var c := "show name ";
    assert IsSpace(c[9]) && !IsSpace(c[0]) && !IsSpace(c[8]);
    StripWindow(c, 0, 9);
    assert c[0..9] == "show name";
  }

  /** parse_episode on the name "Show.Name.S01E02.720p.x264.mkv": season 1,
      episode 2, titled "show name". */
  lemma ParseExample()
    ensures Parse("Show.Name.S01E02.720p.x264.mkv") ==
      Ok((EpInfo("Show.Name.S01E02.720p.x264.mkv", BySeason, 1, Some(2), None), "show name"))
  {
    ExampleWorkingName();
    ExampleSearch();
    ExampleSlices();
    ParseOfExampleName("Show.Name.S01E02.720p.x264.mkv", "show.name.s01e02.720p.x264");
  }

  /** Any name whose working name has the `s01e02` match at offset 10,
      after "show.name.". */
  lemma ParseOfExampleName(f: string, w: string)
    requires WorkingName(f) == w
    requires Search(SeasonEpisode, w) == Some(Match(10, 6, "01", Some("02"), None))
    requires w[11..13] == "01" && w[..10] == "show.name."
    ensures Parse(f) == Ok((EpInfo(f, BySeason, 1, Some(2), None), "show name"))
  {
    ParseSeasonEpisode(f);
    ExampleTwoDigits();
    ParseTitle(f);
    ExampleTitle();
    var r := Parse(f);
    assert r == Ok((r.value.0, r.value.1));
  }

  lemma ExampleTwoDigits()
    ensures DecimalValue("01") == 1 && DecimalValue("02") == 2
  {
    assert "01"[..1] == "0" && "02"[..1] == "0" && "0"[..0] == [];
  }
}
