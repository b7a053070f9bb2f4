# tvsort core in Dafny

tvsort sorts downloaded TV episode files into a library of show folders.
This project models the logic between the file names and the plan of links:

- **Record types** (`common.dfy`, module `Common`): the `Season` schemes with their integer codes, `Show` and `EpInfo`.
- **Episode-name parser** (`patterns.dfy` and `parser.dfy`, modules `Patterns` and `Parser`):
  - `parse_episode` strips the extension characters and lower-cases the name;
  - it finds the first of three episode patterns (`s01e02`, `21x04`, `2017-08-3`), each written as the leftmost match Python's `re` engine finds, backtracking included;
  - it builds the `EpInfo`, cuts the match out of the title, removes the release tags of `COMMON_CRAP` one after the other, and blanks every character outside `[a-z0-9]`.
  - `sub_bucket_name` maps a show's scheme and an episode's major number to a sub-folder.
- **Show-mode inference** (`shows.dfy`, module `Shows`): `create_show` classifies every child of a show folder as season-like, year-like or other, then picks the scheme whose counter is greater than each of the other two; a tie gives none.
- **Matching and planning** (`planning.dfy` and `cli.dfy`, modules `Planning` and `Cli`). This is the non-I/O part of `main`:
  - the threshold check;
  - the `key=value` mappings, an insertion-ordered dict applied with `str.replace`;
  - the per-file loop: parse the name, pick the best library show with a strictly improving scan, accept the file at or above the threshold;
  - the `results` and `failures` lists;
  - the filter against files already in the library, with the `already_there` count;
  - the interactive review loop: a stable sort by show folder, then the answers "", "n", "y" or a list of positions popped from the highest down.
- **Python built-ins** (`pystr.dfy`, module `PyStr`): the ones the core relies on, on `seq<char>`:
  - `lower`, `rstrip(chars)`, `strip`, `find`, `replace`;
  - `split(sep)` and `split()`;
  - `int(str)` (whitespace, sign and `_` digit separators) and `str(int)`.
- `wrappers.dfy` holds `Option` and `Result`.

The code that changes state step by step is written as methods with loops:
- `Parser.ParseEpisode`, with its tag loop and its character rebuild;
- `Shows.CreateShow`;
- `Cli.ParseMappings`, `Cli.ApplyMappings`, `Cli.BestMatch`, `Cli.MatchFile`, `Cli.MatchDir` and `Cli.MatchFiles`;
- `Cli.ReviewLoop`, `Cli.ParseIndices`, `Cli.PopEach` and `Cli.Run`.

Each method is proved equal to a specification function. The properties are lemmas about those functions.

What `main` reads from outside is a `Cli.World` value:
- the show library;
- `os.listdir`;
- `os.path.isfile`;
- the fuzzy scorer;
- `os.path.exists`;
- the lines `input()` returns.

The review loop returns the plan it would link instead of linking it.

Two behaviours of `main` are modelled as written:
- After a name fails to parse there is no `continue`. The file is still matched, using its mapped raw name and the `epinfo` of the last name that did parse. `main` crashes when no name has parsed yet: `UnboundLocalError`, here `Cli.UnboundEpInfo`.
- `EpInfo.file` is the mapped name that `parse_episode` receives.

## Model

| member | source | states |
|---|---|---|
| Common.CodeRoundTrip | tvsort/common.py:10-13 | the four schemes have distinct codes 0-3, and decoding a scheme's code gives the scheme back |
| Common.FromCode | tvsort/common.py:10-13 | an integer names a scheme exactly when it is between 0 and 3 |
| Patterns.SeasonEpisodeAt | tvsort/parser.py:6 | matches at an offset exactly when `s`/`S` and two digits start there; the season group is those two digits; the episode, when present, is two digits; there is no day group |
| Patterns.DigitRunEnd | tvsort/parser.py:7 | the end of the maximal run of digits from an offset: all digits before it, none at it |
| Patterns.NumberXAt | tvsort/parser.py:7 | matches exactly when the maximal digit run at the offset is non-empty and is followed by `x`/`X` and two digits; the episode group is two digits; there is no day group |
| Patterns.DateAt | tvsort/parser.py:8 | matches exactly when `201`, a digit and two more characters other than a newline start there (both separators are mandatory); the year group is 4 digits starting `201`; month and day are 1-2 digits or absent |
| Patterns.DateBacktracks | tvsort/parser.py:8 | on "2017.08" the month group gives back a digit: year "2017", month "0", no day, a 7-character match |
| Patterns.MatchAt | tvsort/parser.py:6-8 | every match starts at its offset, fits in the string, is non-empty and has digit groups |
| Patterns.SearchFrom | tvsort/parser.py:36 | the result is the match at the least offset from the start point; when there is none, no offset from there matches |
| Patterns.Search | tvsort/parser.py:58 | `search` gives the leftmost match, no earlier offset matches, and None means no offset matches |
| Patterns.SearchLeftmost | tvsort/parser.py:36 | when the pattern matches at an offset and at no earlier one, `search` returns the match at that offset |
| Patterns.MatchAtCopy | tvsort/parser.py:51 | wherever the text of a match occurs again, the pattern matches there too |
| Patterns.FindWholeIsStart | tvsort/parser.py:51 | `item.find(whole)` returns the offset of the leftmost match itself |
| Patterns.TagAt | tvsort/parser.py:9-17 | the length of the match of each `COMMON_CRAP` entry at an offset (case-insensitive, greedy with the engine's alternation order) stays inside the string |
| Patterns.LitAtIsLower | tvsort/parser.py:9-17 | a literal of a tag matches at an offset exactly when the lower-cased text there equals it |
| Patterns.LiteralTags | tvsort/parser.py:10-11 | `hdtv` matches exactly where the lower-cased text is "hdtv", over 4 characters; `(720\|1080)p` matches exactly where it is "720p" or "1080p", over that many characters |
| Patterns.RemoveTagKeepsOutside | tvsort/parser.py:79 | `sub("", item)` keeps exactly the characters outside the leftmost non-overlapping matches, in order, and such a run of matches always exists |
| Patterns.LeftmostSpansUnique | tvsort/parser.py:79 | the run of leftmost non-overlapping matches is unique, so what `sub` deletes is determined |
| Patterns.RemoveTagNoMatch | tvsort/parser.py:79 | a tag that matches nowhere leaves the string unchanged |
| Patterns.StripTags | tvsort/parser.py:78-79 | removing the tags in order never makes the name longer |
| Patterns.StripTagsNoMatch | tvsort/parser.py:78-79 | a name in which no tag matches anywhere comes through the loop unchanged |
| Parser.WorkingNameSpec | tvsort/parser.py:31 | the working name is the lower-cased prefix left after removing the longest trailing run of `.`, `m`, `k`, `v`, tested before lower-casing |
| Parser.WorkingNameExamples | tvsort/parser.py:31 | "Jack.mkv" becomes "jac", and "Show.MKV" keeps its upper-case extension as "show.mkv" |
| Parser.FindEpisode | tvsort/parser.py:36 | the chosen pattern's result is its leftmost match in the working name, and it is a well-formed match |
| Parser.OptionalNumber | tvsort/parser.py:62-65 | an optional month or day group gives a number exactly when the group matched |
| Parser.CleanChars | tvsort/parser.py:82-83 | the rebuild keeps the length, keeps every `a-z`/`0-9` character and turns every other one into a space |
| Parser.ParseEpisode | tvsort/parser.py:24-85 | the method returns exactly the `EpInfo` and title of `Parser.Parse`, or the exception naming the file |
| Parser.RemoveCommonCrap | tvsort/parser.py:78-79 | the loop removes each release tag in turn, in the order of `COMMON_CRAP` |
| Parser.CleanTitle | tvsort/parser.py:82-83 | the character-by-character rebuild equals `Parser.CleanChars` |
| Parser.ParseErrIffNotFound | tvsort/parser.py:74-75 | the exception is raised exactly when no pattern is found, and it names the file |
| Parser.ParseFailsIffNoPattern | tvsort/parser.py:36-75 | parse_episode raises exactly when none of the three patterns matches at any offset of the working name |
| Parser.ParseSeasonEpisode | tvsort/parser.py:44-48 | an `s`+two-digit match gives `by_season` (season, episode, no day) with an `e` part and `special` (season only) without; both numbers are below 100 and the file is `fname` |
| Parser.ParseNumberX | tvsort/parser.py:36-48 | the `21x04` form is used only when no `s01` form occurs, and it gives `by_season` with the digit run as season and a two-digit episode |
| Parser.YearBound | tvsort/parser.py:66 | a year matched as `201d` is between 2010 and 2019 |
| Parser.ParseDate | tvsort/parser.py:57-66 | the date form is used only when neither season form occurs, and gives `by_date` with the year in 2010-2019 and month and day each a number below 100 or None |
| Parser.ParseWellFormed | tvsort/parser.py:44-66 | every EpInfo parse_episode returns keeps the record invariants (`extra` only when by date, a by-season episode has its episode) and carries `fname` unchanged |
| Parser.ParseTitle | tvsort/parser.py:50-56 | when the match starts at offset 10 or later, the title is built from the text before it; otherwise from the name with every occurrence of the matched text deleted |
| Parser.TitleIsClean | tvsort/parser.py:82-83 | the title holds only `a-z`, `0-9` and spaces, and neither starts nor ends with a space |
| Parser.SubBucketName | tvsort/parser.py:88-94 | a by-season show's folder starts with "Season "; a show that is neither by date nor by season gets "" |
| Parser.SubBucketNameReadsBack | tvsort/parser.py:89-92 | `int()` reads the major number back from the whole folder name of a by-date show and from what follows "Season " for a by-season show, and that text is in `str()`'s canonical form: digits without a leading zero, a `-` only before a non-zero number |
| Parser.SubBucketNameIgnoresEpisode | tvsort/parser.py:88-94 | the folder name depends on the show and the major number only; `minor` and `extra` change nothing |
| Parser.ParseExample | tvsort/parser.py:24-85 | "Show.Name.S01E02.720p.x264.mkv" parses as by season, season 1, episode 2, no day, titled "show name" |
| Shows.Classify | tvsort/shows.py:16 | a child is a season folder exactly when its lower-case name starts with "season " |
| Shows.ClassifiedAt | tvsort/shows.py:15-28 | the classification of the listing is the classification of each child at its own position |
| Shows.CreateShow | tvsort/shows.py:6-43 | the counting loop and the scheme decision return exactly `Shows.InferShow` of the listing: the show, or the `ValueError` of the first bad season folder |
| Shows.SeasonChild | tvsort/shows.py:16-19 | a season folder with a readable number adds one to `seasonish` and its number to `buckets_season`, and changes nothing else |
| Shows.BadSeasonChild | tvsort/shows.py:18 | a season folder whose number `int()` rejects makes create_show raise, naming that folder, when no earlier folder did |
| Shows.IntChild | tvsort/shows.py:20-28 | a name `int()` reads adds its value to `buckets_year` whatever it is, and one to `yearish` when 1900 < year < 2050, else to `wtfish` |
| Shows.OtherChild | tvsort/shows.py:26-28 | any other name adds one to `wtfish` only |
| Shows.CountsPartition | tvsort/shows.py:15-28 | the three counters add up to the number of children |
| Shows.SeasonBucketsLength | tvsort/shows.py:16-19 | `len(buckets_season) == seasonish` |
| Shows.YearBucketsLength | tvsort/shows.py:20-28 | `buckets_year` has at least `yearish` and at most `yearish + wtfish` entries |
| Shows.DigitsOnlyUnsigned | tvsort/shows.py:18 | a season folder's number is read exactly when its blanked digits strip to a non-empty run of digits, and it is that run's value |
| Shows.SeasonNumberNonNegative | tvsort/shows.py:18 | a season number read from a folder name is never negative |
| Shows.SeasonBucketsNonNegative | tvsort/shows.py:18 | every number in `buckets_season` is non-negative |
| Shows.SeasonNumberOneRun | tvsort/shows.py:18 | a season number is read exactly when the name's digits form one non-empty run, and it is the value of that run ("Season 1 part 2" and "Season one" raise) |
| Shows.SeasonBucketsErrIff | tvsort/shows.py:18 | create_show raises exactly when some season folder has no number `int()` reads |
| Shows.SeasonBucketsErrFirst | tvsort/shows.py:15-18 | the error names the first such folder in listing order |
| Shows.InferShowResult | tvsort/shows.py:33-43 | root and dir are kept, the name is `dirname.lower()`, the scheme is by date with `buckets_year` exactly when `yearish` beats both others, by season with `buckets_season` exactly when `seasonish` does, otherwise none with `[]`, and never special |
| Planning.KeepMissingSpec | tvsort/cli.py:97-102 | the filter keeps, in order, exactly the entries whose destination file is missing, and `already_there` is the number of entries whose file exists |
| Planning.StrLeTotal | tvsort/cli.py:108 | any two folder names compare one way or the other |
| Planning.StrLeTrans | tvsort/cli.py:108 | string order is transitive |
| Planning.StrLeAntisymmetric | tvsort/cli.py:108 | two names that compare both ways are equal |
| Planning.InsertPerm | tvsort/cli.py:108 | inserting an entry adds exactly that entry |
| Planning.InsertSorted | tvsort/cli.py:108 | inserting into a list sorted by folder keeps it sorted |
| Planning.InsertStable | tvsort/cli.py:108 | an inserted entry goes after every entry with the same folder |
| Planning.SortByDirSorted | tvsort/cli.py:108 | the sort gives a list sorted by `dest.dir` with the same entries |
| Planning.SortByDirStable | tvsort/cli.py:108 | the sort is stable: the entries bound for any one folder keep their order |
| Planning.SortByDirSortedId | tvsort/cli.py:105-108 | re-sorting an already sorted list changes nothing, so each new round of the review keeps the order of the previous one |
| Planning.Pop | tvsort/cli.py:147 | `pop(n)` succeeds exactly when `-len <= n < len` and removes one element |
| Planning.SortDescSpec | tvsort/cli.py:145 | `exclude.sort(reverse=True)` orders from the highest down and keeps every index, repeats included |
| Planning.PopAllDescending | tvsort/cli.py:146-147 | popping strictly decreasing in-range positions removes exactly those positions and keeps the rest in order |
| Planning.ExcludeDistinct | tvsort/cli.py:142-147 | with distinct in-range indices, the exclusion removes exactly those positions of the displayed list |
| Planning.RepeatedIndexRemovesTwo | tvsort/cli.py:142-147 | a repeated index pops two different entries: "1 1" on [a, b, c] leaves [a] |
| Cli.MainThreshold | tvsort/cli.py:35-36 | `main` stops with the threshold error exactly when the threshold is outside 1-100 |
| Cli.PutSpec | tvsort/cli.py:42 | `mappings[key] = value` keeps an existing key in place and appends a new one; the key maps to the new value and every other key is unchanged |
| Cli.Mappings | tvsort/cli.py:39-42 | a failure is a `ValueError` naming one of the arguments |
| Cli.ParseMappings | tvsort/cli.py:39-42 | the loop builds exactly `Cli.Mappings` |
| Cli.MappingsErrIff | tvsort/cli.py:41 | building the dict fails exactly when some argument does not contain exactly one `=` |
| Cli.MappingsDict | tvsort/cli.py:39-42 | the dict's keys are in order of first appearance, and each key maps to the value it was given last |
| Cli.MappingsDistinct | tvsort/cli.py:39-42 | the dict never holds a key twice |
| Cli.ApplyMappings | tvsort/cli.py:71-73 | the loop applies every replacement in dict order to the cumulative string |
| Cli.MappedConcat | tvsort/cli.py:72-73 | applying a dict in two parts is applying the first part, then the second, to its result |
| Cli.Best | tvsort/cli.py:82-88 | the best score is non-negative, 0 when no show is chosen, and a chosen show is in the library |
| Cli.BestMatch | tvsort/cli.py:82-88 | the loop ends with the score and show of `Cli.Best` |
| Cli.BestIsFirstMaximum | tvsort/cli.py:82-88 | the score is the maximum (at least 0); no show is chosen exactly when no show scores above 0; a chosen show reaches the maximum and every earlier show scores strictly less |
| Cli.ListingConcat | tvsort/cli.py:64-65 | the listing of two runs of source directories is the first listing followed by the second |
| Cli.ReadName | tvsort/cli.py:71-79 | a name that parses yields a well-formed EpInfo |
| Cli.ReadAll | tvsort/cli.py:64-79 | one reading per listed child |
| Cli.ReadAllAt | tvsort/cli.py:71-77 | each child is read by its own name, after the mappings |
| Cli.ReadAllConcat | tvsort/cli.py:64-79 | reading two runs of children is reading each in turn |
| Cli.ReadAllWellFormed | tvsort/cli.py:77 | every EpInfo among the readings is well formed |
| Cli.ScanFromConcat | tvsort/cli.py:64-95 | the loop over two runs of files is the loop over the first, then over the second from where it left off; a crash ends it |
| Cli.StepCrash | tvsort/cli.py:76-92 | one file crashes the loop exactly when it reaches the threshold while its own name did not parse and `epinfo` is still unbound |
| Cli.StepState | tvsort/cli.py:76-95 | a successful parse rebinds `epinfo`; a parse failure and a score below the threshold each add the name to `failures`, so a name can be listed twice |
| Cli.StepResults | tvsort/cli.py:89-93 | a file at or above the threshold adds exactly one link, from its own directory, with the current `epinfo`, the best score, a library show and `sub_bucket_name` of the show and episode; the earlier links are unchanged |
| Cli.StepStale | tvsort/cli.py:76-93 | a name that does not parse but still matches a show is planned with the episode of the last name that did parse, and is also a failure |
| Cli.ScanSummary | tvsort/cli.py:60-95 | after a loop without crash: `epinfo` is the last parsed episode, `failures` is each file's own failures in order, there is one link per accepted file, and every link is planned soundly |
| Cli.ScanCrashIff | tvsort/cli.py:60-95 | the loop crashes exactly when a regular file reaches the threshold before any name up to and including its own has parsed, and the crash is the unbound `epinfo` |
| Cli.MatchFile | tvsort/cli.py:71-95 | the loop body for one regular file computes exactly `Cli.Step` on its reading |
| Cli.MatchDir | tvsort/cli.py:65-95 | the inner loop over one directory's children, non-files skipped, computes exactly `Cli.ScanFrom` on their readings |
| Cli.MatchFiles | tvsort/cli.py:60-95 | the outer loop over the source directories computes exactly `Cli.Scan` of the whole listing |
| Cli.IndicesSpec | tvsort/cli.py:143-144 | the indices are read exactly when `int()` reads every token, and then each index is the value of its own token; otherwise the `ValueError` names the first token `int()` rejects |
| Cli.IndicesExample | tvsort/cli.py:143-144 | the answer "1 3" gives the indices [1, 3] |
| Cli.ParseIndices | tvsort/cli.py:142-144 | the loop builds exactly `Cli.Indices` |
| Cli.PopEach | tvsort/cli.py:146-147 | the pop loop computes exactly `Planning.PopAll` |
| Cli.PopAllShrinks | tvsort/cli.py:146-147 | what the pops leave is a sub-multiset of the list |
| Cli.ReviewLoop | tvsort/cli.py:104-147 | the review loop, reading the responses in turn, ends exactly as `Cli.Review` |
| Cli.ReviewFirstAnswer | tvsort/cli.py:130-140 | no candidates ends the loop before asking; no answer left is `EOFError`; "" or "n" aborts; "y" links every candidate, sorted by folder |
| Cli.ReviewSkip | tvsort/cli.py:142-147 | an answer naming distinct displayed positions drops exactly those candidates and asks again |
| Cli.ReviewLink | tvsort/cli.py:104-147 | an accepted plan is sorted by show folder and holds each candidate at most as often as it was found |
| Cli.ReviewErrors | tvsort/cli.py:134-147 | the review loop fails only in `input()`, `int()` or `pop` |
| Cli.Run | tvsort/cli.py:35-147 | `main` up to the links computes exactly `Cli.Main` |
| Cli.MainPlan | tvsort/cli.py:60-147 | `failures` is each file's own failures; `already_there` is the number of found links whose destination file already exists; a plan `main` would link is sorted by show folder, and every entry is a soundly planned link whose destination file does not exist |
| PyStr.LowerSpec | tvsort/parser.py:31 | same length, no upper-case ASCII letter left, a character changes exactly when it is an upper-case ASCII letter and becomes the lower-case letter at the same place in the alphabet, and lower-casing twice is lower-casing once |
| PyStr.RStripChars | tvsort/parser.py:31 | the result is a prefix, everything removed is in the character set, and the last kept character is not |
| PyStr.Strip | tvsort/parser.py:83 | never longer, neither starts nor ends with whitespace |
| PyStr.StripBounds | tvsort/parser.py:83 | `strip()` keeps the slice between the leading and the trailing whitespace |
| PyStr.Find | tvsort/parser.py:51 | `find` returns the least offset of an occurrence, or -1 when there is none |
| PyStr.ReplaceIsSplitJoin | tvsort/parser.py:56 | `replace` equals splitting on the pattern and joining with the replacement |
| PyStr.SplitCharCount | tvsort/cli.py:41 | splitting on one character gives one more part than there are occurrences |
| PyStr.SplitSpace | tvsort/cli.py:143 | `split()` gives non-empty words without whitespace |
| PyStr.SplitSpaceJoin | tvsort/cli.py:143 | the words, concatenated, are the characters of the string that are not whitespace, in order |
| PyStr.SplitSpaceEmpty | tvsort/cli.py:143 | `split()` gives no word exactly when `strip()` gives the empty string |
| PyStr.SplitSpaceOfJoin | tvsort/cli.py:143 | joining non-empty, whitespace-free words with a whitespace separator and splitting gives the words back |
| PyStr.ParseUnsigned | tvsort/shows.py:18 | on digits and spaces, `int()` succeeds exactly when the stripped string is a non-empty run of digits, and reads its value |
| PyStr.IntToStrRoundTrip | tvsort/parser.py:90 | `int(str(n)) == n` for every integer |
| PyStr.IntToStrCanonical | tvsort/parser.py:90 | `str(n)` is a non-empty run of digits with no leading zero (unless it is "0"), after a `-` exactly when `n` is negative |

## Left out

- argparse, the options `--dest`, `--soft` and `--rescan`, `appdirs` and the pickle library cache (tvsort/cli.py:26-33, 45-58): the library is an input of `Cli.World`.
- `create_index` (tvsort/shows.py:46-53): it only lists directories and calls `create_show`. `Shows.CreateShow` takes the listing as a sequence of names.
- `os.listdir`, `os.path.isfile` and `os.path.exists` are functions in `Cli.World`. `input()` is the sequence of its responses; when it runs out, that is `EOFError`.
- Cli.Score: `fuzz.token_set_ratio` comes from a library that is not part of this model. It is an uninterpreted integer function, and no bound on its range is assumed.
- The terminal output, `tabulate` and `pprint` (tvsort/cli.py:106-128): only the values they show are modelled (the plan, `failures`, `already_there`).
- Creating the links, `os.makedirs`, `os.symlink` and `os.link` (tvsort/cli.py:149-158): `Cli.Run` returns the plan it would link.
- PyStr.Lower: case mapping covers ASCII letters only, and `re.I` in the release tags is ASCII case folding. Python also lower-cases and folds other scripts.
- File names with undecodable bytes: on POSIX, `os.listdir` returns them as strings holding lone surrogate code points, which a Dafny `string` cannot hold. Such names cannot be represented in the model.
- PyStr.ParseInt: decimal digits are the ASCII digits only. Python's `int()` and `\d` also accept other Unicode decimal digits.
- PyStr.ParseInt: there is no limit on the number of digits. Python 3.11 and later raise `ValueError` for a string of more than 4300 digits. At tvsort/cli.py:144 that would be `Cli.IndexValueError`; the model reads the token and `pop` then fails with `Cli.PopIndexError`.
- Cli.PopIndexError: `pop` is modelled with unbounded indices (tvsort/cli.py:147). An index outside the C `ssize_t` range makes Python raise `OverflowError` instead of `IndexError`; the model reports both as `PopIndexError`. Either way the review loop fails before anything is linked.
- Planning.SortByDir: `list.sort` is written as the insertion sort its stable result equals. The library's algorithm is not modelled.
- setup.py: packaging metadata only.
