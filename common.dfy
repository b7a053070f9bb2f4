/** The record types of tvsort/common.py. */
module Common {
  import opened Wrappers

  /** The chronological scheme an episode or a show uses. `NoScheme` is the
      Python constant `Season.none`. */
  datatype Season = NoScheme | BySeason | ByDate | Special

  /** The integer code of each scheme in the Python class. */
  function Code(s: Season): (c: int)
    ensures 0 <= c <= 3
  {
    match s
    case NoScheme => 0
    case BySeason => 1
    case ByDate => 2
    case Special => 3
  }

  /** The scheme with a given integer code, if any. */
  function FromCode(c: int): (r: Option<Season>)
    ensures r.Some? <==> 0 <= c <= 3
  {
    if c == 0 then Some(NoScheme)
    else if c == 1 then Some(BySeason)
    else if c == 2 then Some(ByDate)
    else if c == 3 then Some(Special)
    else None
  }

  /** The four codes are distinct: decoding a scheme's code gives it back. */
  lemma CodeRoundTrip(s: Season)
    ensures FromCode(Code(s)) == Some(s)
    ensures forall t: Season :: Code(t) == Code(s) ==> t == s
  {
    forall t: Season | Code(t) == Code(s) ensures t == s {
      assert FromCode(Code(t)) == Some(t);
    }
  }

  /** An in-library show: the folder holding it, its directory name, its
      lower-case name, its scheme and the numbers of its season folders. */
  datatype Show = Show(root: string, dir: string, name: string, mode: Season, seasons: seq<int>)

  /** An episode file: its name and the units parsed from it, from least to
      most granular (season or year; episode or month; day). */
  datatype EpInfo = EpInfo(file: string, mode: Season, major: int, minor: Option<int>, extra: Option<int>)

  /** The invariants every EpInfo built by tvsort keeps: a by-season episode
      has an episode number and no day, a special has only its season, and
      only date-based episodes carry `extra`. */
  predicate WellFormedEpInfo(e: EpInfo)
  {
    && e.mode != NoScheme
    && (e.mode == BySeason ==> e.minor.Some? && e.extra.None?)
    && (e.mode == Special ==> e.minor.None? && e.extra.None?)
    && (e.extra.Some? ==> e.mode == ByDate)
    && (e.mode == ByDate ==> 2010 <= e.major <= 2019)
    && e.major >= 0
  }

  /** A show's scheme is never `Special`. */
  predicate WellFormedShow(s: Show)
  {
    s.mode != Special
  }
}
