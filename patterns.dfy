/** The regular expressions of tvsort/parser.py, each written as a matcher
    that follows Python's `re` engine: leftmost match first, then at that
    offset the greedy choice the backtracking engine settles on. Python's
    `.` is any character but a newline. */
module Patterns {
  import opened Wrappers
  import opened PyStr

  /** One match of an episode pattern: its offset, the length of the whole
      match and the groups parse_episode reads (season or year; episode or
      month; day). */
  datatype Match = Match(start: nat, len: nat, major: string, minor: Option<string>, extra: Option<string>)

  /** NORMAL_SEASON_EP_RE (`s01e02`), NORMAL_SEASON_EP_RE2 (`21x04`) and
      DATE_SEASON_EP_RE (`2017-08-3`). */
  datatype Pattern = SeasonEpisode | NumberX | Date

  predicate Fits(s: string, m: Match)
  {
    m.start + m.len <= |s|
  }

  /** The text of the whole match (group 1 of each pattern). */
  function Whole(s: string, m: Match): string
    requires Fits(s, m)
  {
    s[m.start..m.start + m.len]
  }

  /** Python's `.` without DOTALL. */
  predicate AnyChar(c: char)
  {
    c != '\n'
  }

  /** A group of one or two decimal digits. */
  predicate ShortNumber(d: string)
  {
    1 <= |d| <= 2 && AllDigits(d)
  }

  /** What every match of the three patterns provides. */
  predicate GoodMatch(s: string, i: nat, m: Match)
  {
    && m.start == i && Fits(s, m) && m.len > 0
    && m.major != [] && AllDigits(m.major)
    && (m.minor.Some? ==> ShortNumber(m.minor.value))
    && (m.extra.Some? ==> ShortNumber(m.extra.value))
  }

  /** `(([sS]([0-9]{2}))x?([eE]([0-9]{2}))?)` at offset `i`. The optional
      parts are greedy and never force a backtrack, since the pattern can end
      after either of them. */
  function SeasonEpisodeAt(s: string, i: nat): (r: Option<Match>)
    ensures r.Some? <==> i + 3 <= |s| && (s[i] == 's' || s[i] == 'S') && IsDigit(s[i + 1]) && IsDigit(s[i + 2])
    ensures r.Some? ==> GoodMatch(s, i, r.value) && r.value.major == s[i + 1..i + 3] && r.value.extra.None?
    ensures r.Some? && r.value.minor.Some? ==> |r.value.minor.value| == 2
  {
    if i + 3 <= |s| && (s[i] == 's' || s[i] == 'S') && IsDigit(s[i + 1]) && IsDigit(s[i + 2]) then
      var j := if i + 3 < |s| && s[i + 3] == 'x' then i + 4 else i + 3;
      if j + 3 <= |s| && (s[j] == 'e' || s[j] == 'E') && IsDigit(s[j + 1]) && IsDigit(s[j + 2]) then
        Some(Match(i, j + 3 - i, s[i + 1..i + 3], Some(s[j + 1..j + 3]), None))
      else
        Some(Match(i, j - i, s[i + 1..i + 3], None, None))
    else None
  }

  /** The end of the run of decimal digits that starts at `i`. */
  function DigitRunEnd(s: string, i: nat): (k: nat)
    requires i <= |s|
    ensures i <= k <= |s|
    ensures forall j :: i <= j < k ==> IsDigit(s[j])
    ensures k == |s| || !IsDigit(s[k])
    decreases |s| - i
  {
    if i < |s| && IsDigit(s[i]) then DigitRunEnd(s, i + 1) else i
  }

  /** `(([0-9]+)[xX]([0-9]{2}))` at offset `i`. Only the longest digit run
      can be followed by `x`: every shorter one is followed by a digit, so the
      engine's backtracking into `[0-9]+` never succeeds. */
  function NumberXAt(s: string, i: nat): (r: Option<Match>)
    requires i <= |s|
    ensures r.Some? <==>
      var k := DigitRunEnd(s, i);
      i < k && k + 3 <= |s| && (s[k] == 'x' || s[k] == 'X') && IsDigit(s[k + 1]) && IsDigit(s[k + 2])
    ensures r.Some? ==> GoodMatch(s, i, r.value) && r.value.minor.Some? && |r.value.minor.value| == 2
    ensures r.Some? ==> r.value.extra.None?
  {
    var k := DigitRunEnd(s, i);
    if i < k && k + 3 <= |s| && (s[k] == 'x' || s[k] == 'X') && IsDigit(s[k + 1]) && IsDigit(s[k + 2]) then
      Some(Match(i, k + 3 - i, s[i..k], Some(s[k + 1..k + 3]), None))
    else None
  }

  /** The year part of the date pattern, `201[0-9]`, then its first
      separator. */
  predicate DateHead(s: string, i: nat)
  {
    i + 5 <= |s| && s[i..i + 3] == "201" && IsDigit(s[i + 3]) && AnyChar(s[i + 4])
  }

  /** `((201[0-9]).([0-9]{1,2})?.([0-9]{1,2})?)` at offset `i`. Both `.`
      separators are mandatory. The month group tries two digits, then one,
      then none, taking the first choice after which the second `.` still
      finds a character; the day group takes as many digits as it can. */
  function DateAt(s: string, i: nat): (r: Option<Match>)
    ensures r.Some? <==> DateHead(s, i) && i + 6 <= |s| && AnyChar(s[i + 5])
    ensures r.Some? ==> GoodMatch(s, i, r.value) && |r.value.major| == 4 && r.value.len >= 6
    ensures r.Some? ==> r.value.major[..3] == "201"
  {
    if DateHead(s, i) && i + 6 <= |s| && AnyChar(s[i + 5]) then
      var m :=
        if i + 8 <= |s| && IsDigit(s[i + 5]) && IsDigit(s[i + 6]) && AnyChar(s[i + 7]) then 2
        else if i + 7 <= |s| && IsDigit(s[i + 5]) && AnyChar(s[i + 6]) then 1
        else 0;
      var p := i + 5 + m + 1;
      var d :=
        if p + 2 <= |s| && IsDigit(s[p]) && IsDigit(s[p + 1]) then 2
        else if p + 1 <= |s| && IsDigit(s[p]) then 1
        else 0;
      var year := s[i..i + 4];
      assert year[..3] == s[i..i + 3];
      assert AllDigits(year) by {
        assert s[i..i + 3][0] == '2' && s[i..i + 3][1] == '0' && s[i..i + 3][2] == '1';
      }
      assert d > 0 ==> ShortNumber(s[p..p + d]);
      assert m > 0 ==> ShortNumber(s[i + 5..i + 5 + m]);
      Some(Match(i, p + d - i, year,
                 if m == 0 then None else Some(s[i + 5..i + 5 + m]),
                 if d == 0 then None else Some(s[p..p + d])))
    else None
  }

  function MatchAt(p: Pattern, s: string, i: nat): (r: Option<Match>)
    requires i <= |s|
    ensures r.Some? ==> GoodMatch(s, i, r.value)
  {
    match p
    case SeasonEpisode => SeasonEpisodeAt(s, i)
    case NumberX => NumberXAt(s, i)
    case Date => DateAt(s, i)
  }

  /** `pattern.search(s[i:])`: the match at the least offset from `i` on. */
  function SearchFrom(p: Pattern, s: string, i: nat): (r: Option<Match>)
    requires i <= |s|
    ensures r.Some? ==> i <= r.value.start <= |s| && MatchAt(p, s, r.value.start) == r
    ensures r.Some? ==> forall j :: i <= j < r.value.start ==> MatchAt(p, s, j).None?
    ensures r.None? ==> forall j :: i <= j <= |s| ==> MatchAt(p, s, j).None?
    decreases |s| - i
  {
    var here := MatchAt(p, s, i);
    if here.Some? then here
    else if i == |s| then None
    else SearchFrom(p, s, i + 1)
  }

  /** In "2017.08" the month group gives back its second digit so that the
      second `.` has a character to match. */
  lemma DateBacktracks()
    ensures DateAt("2017.08", 0) == Some(Match(0, 7, "2017", Some("0"), None))
  {
    var s := "2017.08";
    assert s[0..3] == "201" && s[0..4] == "2017" && s[5..6] == "0";
  }

  /** `pattern.search(s)` */
  function Search(p: Pattern, s: string): (r: Option<Match>)
    ensures r.Some? ==> r.value.start <= |s| && MatchAt(p, s, r.value.start) == r
    ensures r.Some? ==> GoodMatch(s, r.value.start, r.value)
    ensures r.Some? ==> forall j :: 0 <= j < r.value.start ==> MatchAt(p, s, j).None?
    ensures r.None? ==> forall j :: 0 <= j <= |s| ==> MatchAt(p, s, j).None?
  {
    SearchFrom(p, s, 0)
  }

  /** The search result is the match at the first offset where the pattern
      matches. */
  lemma SearchLeftmost(p: Pattern, s: string, k: nat)
    requires k <= |s| && MatchAt(p, s, k).Some?
    requires forall j :: 0 <= j < k ==> MatchAt(p, s, j).None?
    ensures Search(p, s) == MatchAt(p, s, k)
  {
  }

  /** Wherever the text of a match occurs again, the pattern matches there
      too: none of the patterns looks behind its start. */
  lemma MatchAtCopy(p: Pattern, s: string, i: nat, j: nat)
    requires i <= |s| && MatchAt(p, s, i).Some?
    requires OccursAt(s, Whole(s, MatchAt(p, s, i).value), j)
    ensures MatchAt(p, s, j).Some?
  {
    var m := MatchAt(p, s, i).value;
    var w := Whole(s, m);
    match p
    case SeasonEpisode => SeasonEpisodeCopy(s, i, j, w);
    case NumberX => NumberXCopy(s, i, j, w);
    case Date => DateCopy(s, i, j, w);
  }

  lemma SeasonEpisodeCopy(s: string, i: nat, j: nat, w: string)
    requires SeasonEpisodeAt(s, i).Some? && w == Whole(s, SeasonEpisodeAt(s, i).value)
    requires OccursAt(s, w, j)
    ensures SeasonEpisodeAt(s, j).Some?
  {
    assert s[j..j + |w|] == w && s[i..i + |w|] == w;
    assert s[j] == w[0] == s[i] && s[j + 1] == w[1] == s[i + 1] && s[j + 2] == w[2] == s[i + 2];
  }

  lemma NumberXCopy(s: string, i: nat, j: nat, w: string)
    requires i <= |s| && NumberXAt(s, i).Some? && w == Whole(s, NumberXAt(s, i).value)
    requires OccursAt(s, w, j)
    ensures NumberXAt(s, j).Some?
  {
    assert s[j..j + |w|] == w && s[i..i + |w|] == w;
    var k := DigitRunEnd(s, i);
    var n := k - i;
    assert |w| == n + 3;
    forall t | j <= t < j + n ensures IsDigit(s[t]) {
      assert s[t] == w[t - j] == s[i + (t - j)];
    }
    assert s[j + n] == w[n] == s[k];
    assert s[j + n + 1] == w[n + 1] == s[k + 1];
    assert s[j + n + 2] == w[n + 2] == s[k + 2];
    DigitRunEndAt(s, j, j + n);
  }

  lemma DateCopy(s: string, i: nat, j: nat, w: string)
    requires DateAt(s, i).Some? && w == Whole(s, DateAt(s, i).value)
    requires OccursAt(s, w, j)
    ensures DateAt(s, j).Some?
  {
    assert s[j..j + |w|] == w && s[i..i + |w|] == w;
    assert s[j..j + 3] == w[..3] == s[i..i + 3];
    assert s[j + 3] == w[3] == s[i + 3] && s[j + 4] == w[4] == s[i + 4] && s[j + 5] == w[5] == s[i + 5];
  }

  lemma DigitRunEndAt(s: string, i: nat, k: nat)
    requires i <= k < |s|
    requires forall t :: i <= t < k ==> IsDigit(s[t])
    requires !IsDigit(s[k])
    ensures DigitRunEnd(s, i) == k
    decreases k - i
  {
    if i < k {
      DigitRunEndAt(s, i + 1, k);
    }
  }

  /** `s.find(whole)` finds the match itself: the text of the leftmost match
      does not occur any earlier. */
  lemma FindWholeIsStart(p: Pattern, s: string)
    requires Search(p, s).Some?
    ensures Find(s, Whole(s, Search(p, s).value)) == Search(p, s).value.start
  {
    var m := Search(p, s).value;
    var w := Whole(s, m);
    assert OccursAt(s, w, m.start);
    var f := Find(s, w);
    assert f != -1;
    if f < m.start {
      MatchAtCopy(p, s, m.start, f);
      assert false;
    }
  }

  /** The entries of COMMON_CRAP, in order. */
  datatype Tag = Resolution | Hdtv | X264 | Ddp | Web | Amazon | DolbyDigital | Aac

  /** The release tags parse_episode removes, in the order it removes them. */
  const CommonCrap: seq<Tag> := [Resolution, Hdtv, X264, Ddp, Web, Amazon, DolbyDigital, Aac]

  /** `s` holds the lower-case literal `lit` at offset `i`, ignoring ASCII
      case (the `re.I` flag of every COMMON_CRAP entry). */
  predicate LitAt(s: string, i: nat, lit: string)
    ensures LitAt(s, i, lit) ==> i + |lit| <= |s|
    decreases lit
  {
    if lit == [] then i <= |s|
    else i < |s| && LowerChar(s[i]) == lit[0] && LitAt(s, i + 1, lit[1..])
  }

  /** `[a-z0-9]` under `re.I` */
  predicate IsAlnum(c: char)
  {
    IsAsciiLower(LowerChar(c)) || IsDigit(c)
  }

  /** `[\.\-\s]` */
  predicate IsTagSeparator(c: char)
  {
    c == '.' || c == '-' || IsSpace(c)
  }

  /** Length of the `[a-z0-9]+` run at `j` (greedy, the last item of its pattern). */
  function AlnumRun(s: string, j: nat): (n: nat)
    requires j <= |s|
    ensures j + n <= |s|
    decreases |s| - j
  {
    if j < |s| && IsAlnum(s[j]) then 1 + AlnumRun(s, j + 1) else 0
  }

  /** `x?264` at `j`: length of the match, 0 when there is none. */
  function X264Core(s: string, j: nat): (n: nat)
    requires j <= |s|
    ensures j + n <= |s|
  {
    if LitAt(s, j, "x264") then 4 else if LitAt(s, j, "264") then 3 else 0
  }

  /** Length of the match of a COMMON_CRAP entry at offset `i`; 0 when it
      has none or only the empty match. */
  function TagAt(t: Tag, s: string, i: nat): (n: nat)
    requires i <= |s|
    ensures i + n <= |s|
  {
    match t
    // (720|1080)p
    case Resolution =>
      if LitAt(s, i, "720p") then 4 else if LitAt(s, i, "1080p") then 5 else 0
    // hdtv
    case Hdtv =>
      if LitAt(s, i, "hdtv") then 4 else 0
    // (h.?)?x?264(.[a-z0-9]+)?: the alternatives of (h.?)? in the engine's
    // order, then the optional tail, which takes the whole alphanumeric run
    case X264 =>
      var h := i < |s| && LowerChar(s[i]) == 'h';
      var head :=
        if h && i + 1 < |s| && AnyChar(s[i + 1]) && X264Core(s, i + 2) > 0 then 2 + X264Core(s, i + 2)
        else if h && X264Core(s, i + 1) > 0 then 1 + X264Core(s, i + 1)
        else X264Core(s, i);
      if head == 0 then 0
      else if i + head + 1 < |s| && AnyChar(s[i + head]) && IsAlnum(s[i + head + 1]) then
        head + 1 + AlnumRun(s, i + head + 1)
      else head
    // (ddp\d\.\d)? — its empty match removes nothing
    case Ddp =>
      if LitAt(s, i, "ddp") && i + 6 <= |s| && IsDigit(s[i + 3]) && s[i + 4] == '.' && IsDigit(s[i + 5]) then 6
      else 0
    // web(\-?(dl|rip))?
    case Web =>
      if !LitAt(s, i, "web") then 0
      else if LitAt(s, i + 3, "-dl") then 6
      else if LitAt(s, i + 3, "-rip") then 7
      else if LitAt(s, i + 3, "dl") then 5
      else if LitAt(s, i + 3, "rip") then 6
      else 3
    // [\.\-\s](amzn|amazon)[\.\-\s]
    case Amazon =>
      if i < |s| && IsTagSeparator(s[i]) then
        if LitAt(s, i + 1, "amzn") && i + 5 < |s| && IsTagSeparator(s[i + 5]) then 6
        else if LitAt(s, i + 1, "amazon") && i + 7 < |s| && IsTagSeparator(s[i + 7]) then 8
        else 0
      else 0
    // dd.5.\d
    case DolbyDigital =>
      if LitAt(s, i, "dd") && i + 6 <= |s| && AnyChar(s[i + 2]) && s[i + 3] == '5' && AnyChar(s[i + 4]) && IsDigit(s[i + 5]) then 6
      else 0
    // AAC2.\d
    case Aac =>
      if LitAt(s, i, "aac2") && i + 6 <= |s| && AnyChar(s[i + 4]) && IsDigit(s[i + 5]) then 6
      else 0
  }

  function RemoveTagFrom(t: Tag, s: string, i: nat): (r: string)
    requires i <= |s|
    ensures |r| <= |s| - i
    decreases |s| - i
  {
    if i == |s| then []
    else
      var n := TagAt(t, s, i);
      if n > 0 then RemoveTagFrom(t, s, i + n) else [s[i]] + RemoveTagFrom(t, s, i + 1)
  }

  /** `re.sub(pattern, "", s)`: every non-overlapping match, leftmost first,
      is deleted. */
  function RemoveTag(t: Tag, s: string): (r: string)
    ensures |r| <= |s|
  {
    RemoveTagFrom(t, s, 0)
  }

  /** A tag that matches nowhere leaves the string as it is. */
  lemma {:induction false} RemoveTagNoMatch(t: Tag, s: string, i: nat)
    requires i <= |s|
    requires forall j :: i <= j < |s| ==> TagAt(t, s, j) == 0
    ensures RemoveTagFrom(t, s, i) == s[i..]
    decreases |s| - i
  {
    if i < |s| {
      RemoveTagNoMatch(t, s, i + 1);
      assert s[i..] == [s[i]] + s[i + 1..];
    }
  }

  /** The length of the match of `t` at each offset of `s`. */
  ghost function TagLens(t: Tag, s: string): (lens: seq<nat>)
  {
    seq(|s|, p requires 0 <= p < |s| => TagAt(t, s, p))
  }

  /** Match lengths for `s`, one per offset, each ending inside `s`. */
  ghost predicate FitLens(s: string, lens: seq<nat>)
  {
    |lens| == |s| && forall p :: 0 <= p < |s| ==> p + lens[p] <= |s|
  }

  /** The scan of `re.sub` from `i` with the match lengths `lens`. */
  ghost function DeleteFrom(s: string, lens: seq<nat>, i: nat): string
    decreases |s| - i
  {
    if i >= |s| then []
    else if i < |lens| && lens[i] > 0 then DeleteFrom(s, lens, i + lens[i])
    else [s[i]] + DeleteFrom(s, lens, i + 1)
  }

  /** A match `re.sub` deletes: where it starts and how long it is. */
  datatype Span = Span(start: nat, len: nat)

  /** `spans` are the matches `re.sub` deletes when it scans from `i`: each
      is the non-empty match at the first offset, from the end of the one
      before on, where there is a match at all, and no match starts after
      the last of them. */
  ghost predicate LeftmostSpans(lens: seq<nat>, i: nat, spans: seq<Span>)
    decreases |spans|
  {
    if spans == [] then forall p :: i <= p < |lens| ==> lens[p] == 0
    else
      && i <= spans[0].start < |lens|
      && (forall p :: i <= p < spans[0].start ==> lens[p] == 0)
      && lens[spans[0].start] == spans[0].len > 0
      && LeftmostSpans(lens, spans[0].start + spans[0].len, spans[1..])
  }

  /** The spans lie in order inside `s[i..]`, without overlap. */
  ghost predicate SpansFit(s: string, i: nat, spans: seq<Span>)
    decreases |spans|
  {
    if spans == [] then i <= |s|
    else i <= spans[0].start && spans[0].start + spans[0].len <= |s| && SpansFit(s, spans[0].start + spans[0].len, spans[1..])
  }

  /** The characters of `s[i..]` that no span covers, in order. */
  ghost function Outside(s: string, i: nat, spans: seq<Span>): string
    requires SpansFit(s, i, spans)
    decreases |spans|
  {
    if spans == [] then s[i..]
    else s[i..spans[0].start] + Outside(s, spans[0].start + spans[0].len, spans[1..])
  }

  /** Removing a tag keeps exactly the characters outside its leftmost
      non-overlapping matches, in order; those matches always exist and are
      determined by the string. */
  lemma RemoveTagKeepsOutside(t: Tag, s: string, spans: seq<Span>)
    ensures exists sp :: LeftmostSpans(TagLens(t, s), 0, sp)
    ensures LeftmostSpans(TagLens(t, s), 0, spans) ==> SpansFit(s, 0, spans) && RemoveTag(t, s) == Outside(s, 0, spans)
  {
    var lens := TagLens(t, s);
    assert FitLens(s, lens) by {
      forall p | 0 <= p < |s| ensures p + lens[p] <= |s| {
        assert lens[p] == TagAt(t, s, p);
      }
    }
    LeftmostSpansExist(s, lens, 0);
    RemoveTagIsDelete(t, s, 0);
    if LeftmostSpans(lens, 0, spans) {
      DeleteKeepsOutside(s, lens, 0, spans);
    }
  }

  lemma {:induction false} RemoveTagIsDelete(t: Tag, s: string, i: nat)
    requires i <= |s|
    ensures RemoveTagFrom(t, s, i) == DeleteFrom(s, TagLens(t, s), i)
    decreases |s| - i
  {
    if i < |s| {
      var lens := TagLens(t, s);
      var n := TagAt(t, s, i);
      assert lens[i] == n;
      RemoveTagFromStep(t, s, i);
      DeleteFromStep(s, lens, i);
      if n > 0 {
        RemoveTagIsDelete(t, s, i + n);
      } else {
        RemoveTagIsDelete(t, s, i + 1);
      }
    }
  }

  lemma DeleteFromStep(s: string, lens: seq<nat>, i: nat)
    requires |lens| == |s| && i < |s|
    ensures DeleteFrom(s, lens, i) == if lens[i] > 0 then DeleteFrom(s, lens, i + lens[i]) else [s[i]] + DeleteFrom(s, lens, i + 1)
  {
  }

  lemma RemoveTagFromStep(t: Tag, s: string, i: nat)
    requires i < |s|
    ensures var n := TagAt(t, s, i);
      RemoveTagFrom(t, s, i) == if n > 0 then RemoveTagFrom(t, s, i + n) else [s[i]] + RemoveTagFrom(t, s, i + 1)
  {
  }

  lemma {:induction false} DeleteKeepsOutside(s: string, lens: seq<nat>, i: nat, spans: seq<Span>)
    requires FitLens(s, lens) && i <= |s| && LeftmostSpans(lens, i, spans)
    ensures SpansFit(s, i, spans) && DeleteFrom(s, lens, i) == Outside(s, i, spans)
    decreases |s| - i
  {
    LeftmostSpansFit(s, lens, i, spans);
    if i == |s| {
      assert spans == [];
    } else {
      DeleteFromStep(s, lens, i);
      if lens[i] > 0 {
        LeftmostAtMatch(lens, i, spans);
        DeleteKeepsOutside(s, lens, i + lens[i], spans[1..]);
        OutsideAtSpan(s, i, spans);
      } else {
        LeftmostAtNoMatch(lens, i, spans);
        LeftmostSpansFit(s, lens, i + 1, spans);
        DeleteKeepsOutside(s, lens, i + 1, spans);
        OutsideCons(s, i, spans);
      }
    }
  }

  lemma LeftmostAtMatch(lens: seq<nat>, i: nat, spans: seq<Span>)
    requires i < |lens| && lens[i] > 0 && LeftmostSpans(lens, i, spans)
    ensures spans != [] && spans[0] == Span(i, lens[i])
    ensures LeftmostSpans(lens, i + lens[i], spans[1..])
  {
  }

  lemma LeftmostAtNoMatch(lens: seq<nat>, i: nat, spans: seq<Span>)
    requires i < |lens| && lens[i] == 0 && LeftmostSpans(lens, i, spans)
    ensures LeftmostSpans(lens, i + 1, spans)
  {
  }

  lemma OutsideAtSpan(s: string, i: nat, spans: seq<Span>)
    requires spans != [] && spans[0].start == i && SpansFit(s, i, spans)
    ensures Outside(s, i, spans) == Outside(s, i + spans[0].len, spans[1..])
  {
    assert s[i..i] == [];
  }

  lemma {:induction false} OutsideCons(s: string, i: nat, spans: seq<Span>)
    requires i < |s| && SpansFit(s, i + 1, spans) && SpansFit(s, i, spans)
    ensures Outside(s, i, spans) == [s[i]] + Outside(s, i + 1, spans)
  {
    if spans == [] {
      assert s[i..] == [s[i]] + s[i + 1..];
    } else {
      OutsideHead(s, i, spans);
      OutsideHead(s, i + 1, spans);
      var st := spans[0].start;
      SliceCons(s, i, st);
      var rest := Outside(s, st + spans[0].len, spans[1..]);
      assert [s[i]] + (s[i + 1..st] + rest) == ([s[i]] + s[i + 1..st]) + rest;
    }
  }

  lemma OutsideHead(s: string, i: nat, spans: seq<Span>)
    requires spans != [] && SpansFit(s, i, spans)
    ensures Outside(s, i, spans) == s[i..spans[0].start] + Outside(s, spans[0].start + spans[0].len, spans[1..])
  {
  }

  lemma SliceCons(s: string, i: nat, j: nat)
    requires i < j <= |s|
    ensures s[i..j] == [s[i]] + s[i + 1..j]
  {
  }

  lemma {:induction false} LeftmostSpansFit(s: string, lens: seq<nat>, i: nat, spans: seq<Span>)
    requires FitLens(s, lens) && i <= |s| && LeftmostSpans(lens, i, spans)
    ensures SpansFit(s, i, spans)
    decreases |spans|
  {
    if spans != [] {
      LeftmostSpansFit(s, lens, spans[0].start + spans[0].len, spans[1..]);
    }
  }

  lemma {:induction false} LeftmostSpansExist(s: string, lens: seq<nat>, i: nat)
    requires FitLens(s, lens) && i <= |s|
    ensures exists spans :: LeftmostSpans(lens, i, spans)
    decreases |s| - i
  {
    if i == |s| {
      assert LeftmostSpans(lens, i, []);
    } else if lens[i] > 0 {
      LeftmostSpansExist(s, lens, i + lens[i]);
      var rest :| LeftmostSpans(lens, i + lens[i], rest);
      var spans := [Span(i, lens[i])] + rest;
      assert spans[1..] == rest;
      assert LeftmostSpans(lens, i, spans);
    } else {
      LeftmostSpansExist(s, lens, i + 1);
      var rest :| LeftmostSpans(lens, i + 1, rest);
      assert LeftmostSpans(lens, i, rest);
    }
  }

  /** There is only one sequence of leftmost matches. */
  lemma {:induction false} LeftmostSpansUnique(lens: seq<nat>, i: nat, a: seq<Span>, b: seq<Span>)
    requires LeftmostSpans(lens, i, a) && LeftmostSpans(lens, i, b)
    ensures a == b
    decreases |a|
  {
    if a != [] && b != [] {
      assert a[0].start == b[0].start by {
        if a[0].start < b[0].start {
          assert false;
        } else if b[0].start < a[0].start {
          assert false;
        }
      }
      LeftmostSpansUnique(lens, a[0].start + a[0].len, a[1..], b[1..]);
      assert a == [a[0]] + a[1..] && b == [b[0]] + b[1..];
    } else if a != [] {
      assert false;
    } else if b != [] {
      assert false;
    }
  }

  /** `LitAt` is a case-insensitive comparison: the lower-cased text at `i`
      is the literal. */
  lemma {:induction false} LitAtIsLower(s: string, i: nat, lit: string)
    ensures LitAt(s, i, lit) <==> i + |lit| <= |s| && Lower(s[i..i + |lit|]) == lit
    decreases lit
  {
    if lit != [] && i < |s| {
      LitAtIsLower(s, i + 1, lit[1..]);
      if i + |lit| <= |s| {
        var w := s[i..i + |lit|];
        assert w[1..] == s[i + 1..i + 1 + |lit[1..]|];
        assert Lower(w) == [LowerChar(w[0])] + Lower(w[1..]);
        if Lower(w) == lit {
          assert Lower(w)[0] == lit[0] && Lower(w)[1..] == lit[1..];
        }
      }
    }
  }

  /** The two literal tags: `hdtv`, and `720p` or `1080p`, in any case. */
  lemma LiteralTags(s: string, i: nat)
    requires i <= |s|
    ensures TagAt(Hdtv, s, i) > 0 <==> i + 4 <= |s| && Lower(s[i..i + 4]) == "hdtv"
    ensures TagAt(Hdtv, s, i) > 0 ==> TagAt(Hdtv, s, i) == 4
    ensures TagAt(Resolution, s, i) > 0 <==>
      (i + 4 <= |s| && Lower(s[i..i + 4]) == "720p") || (i + 5 <= |s| && Lower(s[i..i + 5]) == "1080p")
    ensures TagAt(Resolution, s, i) > 0 ==> TagAt(Resolution, s, i) == |Lower(s[i..i + TagAt(Resolution, s, i)])|
  {
    LitAtIsLower(s, i, "hdtv");
    LitAtIsLower(s, i, "720p");
    LitAtIsLower(s, i, "1080p");
  }

  /** The entries of `tags` applied one after the other. */
  function StripTags(s: string, tags: seq<Tag>): (r: string)
    ensures |r| <= |s|
    decreases tags
  {
    if tags == [] then s else StripTags(RemoveTag(tags[0], s), tags[1..])
  }

  /** A string in which none of the tags matches is left as it is. */
  lemma {:induction false} StripTagsNoMatch(s: string, tags: seq<Tag>)
    requires forall t, j :: t in tags && 0 <= j < |s| ==> TagAt(t, s, j) == 0
    ensures StripTags(s, tags) == s
    decreases tags
  {
    if tags != [] {
      RemoveTagNoMatch(tags[0], s, 0);
      StripTagsNoMatch(s, tags[1..]);
    }
  }
}
