/** The Python string built-ins the tvsort core calls, on `seq<char>`:
    `str.lower`, `str.rstrip(chars)`, `str.strip()`, `str.find`,
    `str.replace`, `str.split(sep)`, `str.split()`, `str.join`, `int(str)`
    and `str(int)`. Characters are code points; case mapping is ASCII only. */
module PyStr {
  import opened Wrappers

  predicate IsDigit(c: char) { '0' <= c <= '9' }

  predicate IsAsciiLower(c: char) { 'a' <= c <= 'z' }

  /** The characters for which Python's `str.isspace()` holds: what `strip()`,
      `split()` and `int()` skip as whitespace. */
  predicate IsSpace(c: char)
  {
    var n := c as int;
    (0x09 <= n <= 0x0D) || (0x1C <= n <= 0x20) || n == 0x85 || n == 0xA0 || n == 0x1680
    || (0x2000 <= n <= 0x200A) || n == 0x2028 || n == 0x2029 || n == 0x202F || n == 0x205F
    || n == 0x3000
  }

  function LowerChar(c: char): char
  {
    if 'A' <= c <= 'Z' then (c as int + 32) as char else c
  }

  /** `s.lower()`, restricted to ASCII letters. */
  function Lower(s: string): (r: string)
    ensures |r| == |s|
    ensures forall i :: 0 <= i < |s| ==> r[i] == LowerChar(s[i])
  {
    seq(|s|, i requires 0 <= i < |s| => LowerChar(s[i]))
  }

  /** Lower-casing leaves no ASCII capital behind, changes a character
      exactly when it is one (into the small letter at the same place in the
      alphabet), and doing it twice is doing it once. */
  lemma LowerSpec(s: string)
    ensures |Lower(s)| == |s|
    ensures forall i :: 0 <= i < |s| ==> !('A' <= Lower(s)[i] <= 'Z')
    ensures forall i :: 0 <= i < |s| ==> (Lower(s)[i] != s[i] <==> 'A' <= s[i] <= 'Z')
    ensures forall i :: 0 <= i < |s| && 'A' <= s[i] <= 'Z' ==>
      IsAsciiLower(Lower(s)[i]) && Lower(s)[i] as int - 'a' as int == s[i] as int - 'A' as int
    ensures Lower(Lower(s)) == Lower(s)
  {
  }

  lemma LowerConcat(a: string, b: string)
    ensures Lower(a + b) == Lower(a) + Lower(b)
  {
  }

  /** `s.rstrip(chars)`: removes every trailing character that is in the set
      `chars` (a set, not a suffix). */
  function RStripChars(s: string, chars: set<char>): (r: string)
    ensures r <= s
    ensures r == [] || r[|r| - 1] !in chars
    ensures forall i :: |r| <= i < |s| ==> s[i] in chars
  {
    if s != [] && s[|s| - 1] in chars then RStripChars(s[..|s| - 1], chars) else s
  }

  /** How many whitespace characters `s` starts with. */
  function LeadingSpaces(s: string): (n: nat)
    ensures n <= |s|
    ensures forall i :: 0 <= i < n ==> IsSpace(s[i])
    ensures n == |s| || !IsSpace(s[n])
  {
    if s == [] || !IsSpace(s[0]) then 0
    else
      var n := 1 + LeadingSpaces(s[1..]);
      assert forall i :: 1 <= i < n ==> s[i] == s[1..][i - 1];
      n
  }

  /** Where the trailing whitespace of `s` starts. */
  function TrailingSpaces(s: string): (n: nat)
    ensures n <= |s|
    ensures forall i :: n <= i < |s| ==> IsSpace(s[i])
    ensures n == 0 || !IsSpace(s[n - 1])
  {
    if s == [] || !IsSpace(s[|s| - 1]) then |s|
    else TrailingSpaces(s[..|s| - 1])
  }

  /** `s.lstrip()` */
  function LStrip(s: string): (r: string)
  {
    s[LeadingSpaces(s)..]
  }

  /** `s.rstrip()` */
  function RStrip(s: string): (r: string)
  {
    s[..TrailingSpaces(s)]
  }

  /** `s.strip()` */
  function Strip(s: string): (r: string)
    ensures |r| <= |s|
    ensures r == [] || (!IsSpace(r[0]) && !IsSpace(r[|r| - 1]))
  {
    RStrip(LStrip(s))
  }

  /** `strip()` keeps the slice between the leading and the trailing
      whitespace. */
  lemma StripBounds(s: string)
    ensures var a := LeadingSpaces(s);
      && a + |Strip(s)| <= |s|
      && Strip(s) == s[a..a + |Strip(s)|]
      && (forall i :: 0 <= i < a ==> IsSpace(s[i]))
      && (forall i :: a + |Strip(s)| <= i < |s| ==> IsSpace(s[i]))
  {
    var a := LeadingSpaces(s);
    var l := s[a..];
    assert LStrip(s) == l;
    var t := TrailingSpaces(l);
    assert Strip(s) == l[..t];
    assert l[..t] == s[a..a + t];
    forall i | a + t <= i < |s| ensures IsSpace(s[i]) {
      assert s[i] == l[i - a];
    }
  }

  /** A slice with no whitespace at its ends and only whitespace around it
      is what `strip()` keeps. */
  lemma StripWindow(s: string, a: nat, b: nat)
    requires a < b <= |s| && !IsSpace(s[a]) && !IsSpace(s[b - 1])
    requires forall i :: 0 <= i < a ==> IsSpace(s[i])
    requires forall i :: b <= i < |s| ==> IsSpace(s[i])
    ensures Strip(s) == s[a..b]
  {
    LeadingSpacesAt(s, a);
    var l := s[a..];
    assert LStrip(s) == l;
    TrailingSpacesAt(l, b - a);
    assert l[..b - a] == s[a..b];
  }

  lemma LeadingSpacesAt(s: string, a: nat)
    requires a < |s| && !IsSpace(s[a])
    requires forall i :: 0 <= i < a ==> IsSpace(s[i])
    ensures LeadingSpaces(s) == a
  {
  }

  lemma TrailingSpacesAt(l: string, t: nat)
    requires 0 < t <= |l| && !IsSpace(l[t - 1])
    requires forall i :: t <= i < |l| ==> IsSpace(l[i])
    ensures TrailingSpaces(l) == t
  {
  }

  /** Every character of the stripped string comes from the original, at
      the same position after the removed leading whitespace. */
  lemma StripIsSlice(s: string)
    ensures forall i :: 0 <= i < |Strip(s)| ==> Strip(s)[i] == s[|s| - |LStrip(s)| + i]
  {
    StripBounds(s);
  }

  lemma StripUnchanged(s: string)
    requires s == [] || (!IsSpace(s[0]) && !IsSpace(s[|s| - 1]))
    ensures Strip(s) == s
  {
    if s != [] {
      StripWindow(s, 0, |s|);
    }
  }

  /** `s` holds `w` starting at offset `i`. */
  predicate OccursAt(s: string, w: string, i: int)
  {
    0 <= i && i + |w| <= |s| && s[i..i + |w|] == w
  }

  function FindFrom(s: string, w: string, i: nat): (r: int)
    decreases |s| - i
    ensures r == -1 || (i <= r && OccursAt(s, w, r))
    ensures r == -1 ==> forall j :: i <= j ==> !OccursAt(s, w, j)
    ensures r != -1 ==> forall j :: i <= j < r ==> !OccursAt(s, w, j)
  {
    if i + |w| > |s| then -1
    else if s[i..i + |w|] == w then i
    else FindFrom(s, w, i + 1)
  }

  /** `s.find(w)`: the least offset at which `w` occurs, or -1. */
  function Find(s: string, w: string): (r: int)
    ensures r == -1 || OccursAt(s, w, r)
    ensures r == -1 ==> forall j :: 0 <= j ==> !OccursAt(s, w, j)
    ensures r != -1 ==> forall j :: 0 <= j < r ==> !OccursAt(s, w, j)
  {
    FindFrom(s, w, 0)
  }

  /** `s.replace(pat, repl)` for an empty `pat`: `repl` before every character
      and at the end. */
  function ReplaceEmpty(s: string, repl: string): string
  {
    if s == [] then repl else repl + [s[0]] + ReplaceEmpty(s[1..], repl)
  }

  /** `s.replace(pat, repl)` for a non-empty `pat`: every occurrence, scanned
      left to right without overlap. */
  function ReplaceNonEmpty(s: string, pat: string, repl: string): string
    requires pat != []
  {
    if |s| < |pat| then s
    else if s[..|pat|] == pat then repl + ReplaceNonEmpty(s[|pat|..], pat, repl)
    else [s[0]] + ReplaceNonEmpty(s[1..], pat, repl)
  }

  /** `s.replace(pat, repl)` */
  function Replace(s: string, pat: string, repl: string): string
  {
    if pat == [] then ReplaceEmpty(s, repl) else ReplaceNonEmpty(s, pat, repl)
  }

  /** `s.split(sep)` for a non-empty separator. */
  function Split(s: string, sep: string): (r: seq<string>)
    requires sep != []
    ensures |r| >= 1
  {
    if |s| < |sep| then [s]
    else if s[..|sep|] == sep then [[]] + Split(s[|sep|..], sep)
    else
      var t := Split(s[1..], sep);
      [[s[0]] + t[0]] + t[1..]
  }

  /** `sep.join(parts)` */
  function Join(parts: seq<string>, sep: string): string
  {
    if parts == [] then []
    else if |parts| == 1 then parts[0]
    else parts[0] + sep + Join(parts[1..], sep)
  }

  lemma {:induction false} JoinHead(c: char, t: seq<string>, sep: string)
    requires |t| >= 1
    ensures Join([[c] + t[0]] + t[1..], sep) == [c] + Join(t, sep)
  {
    var u := [[c] + t[0]] + t[1..];
    assert u[1..] == t[1..];
    if |t| == 1 {
    } else {
      assert Join(u, sep) == ([c] + t[0]) + sep + Join(t[1..], sep);
    }
  }

  /** `str.replace` is the same as splitting on the pattern and joining the
      pieces with the replacement. */
  lemma {:induction false} ReplaceIsSplitJoin(s: string, pat: string, repl: string)
    requires pat != []
    ensures Replace(s, pat, repl) == Join(Split(s, pat), repl)
    decreases |s|
  {
    if |s| < |pat| {
    } else if s[..|pat|] == pat {
      ReplaceIsSplitJoin(s[|pat|..], pat, repl);
      var t := Split(s[|pat|..], pat);
      assert Split(s, pat) == [[]] + t;
      assert ([[]] + t)[1..] == t;
    } else {
      ReplaceIsSplitJoin(s[1..], pat, repl);
      JoinHead(s[0], Split(s[1..], pat), repl);
    }
  }

  /** Number of occurrences of the character `c` in `s`. */
  function CountChar(s: string, c: char): nat
  {
    if s == [] then 0 else (if s[0] == c then 1 else 0) + CountChar(s[1..], c)
  }

  /** Splitting on a one-character separator gives one more piece than there
      are separators. */
  lemma {:induction false} SplitCharCount(s: string, c: char)
    ensures |Split(s, [c])| == CountChar(s, c) + 1
    decreases |s|
  {
    if |s| < 1 {
    } else if s[..1] == [c] {
      SplitCharCount(s[1..], c);
    } else {
      SplitCharCount(s[1..], c);
    }
  }

  /** Length of the run of non-whitespace characters that starts `s`. */
  function WordLength(s: string): (n: nat)
    ensures n <= |s|
    ensures forall i :: 0 <= i < n ==> !IsSpace(s[i])
    ensures n == |s| || IsSpace(s[n])
  {
    if s == [] || IsSpace(s[0]) then 0 else 1 + WordLength(s[1..])
  }

  /** `s.split()`: the maximal runs of non-whitespace characters. */
  function SplitSpace(s: string): (r: seq<string>)
    ensures forall k :: 0 <= k < |r| ==> r[k] != [] && forall i :: 0 <= i < |r[k]| ==> !IsSpace(r[k][i])
    decreases |s|
  {
    var t := LStrip(s);
    if t == [] then []
    else
      var n := WordLength(t);
      [t[..n]] + SplitSpace(t[n..])
  }

  /** `s` with every whitespace character removed. */
  function RemoveSpaces(s: string): string
  {
    if s == [] then [] else (if IsSpace(s[0]) then [] else [s[0]]) + RemoveSpaces(s[1..])
  }

  lemma {:induction false} RemoveSpacesConcat(a: string, b: string)
    ensures RemoveSpaces(a + b) == RemoveSpaces(a) + RemoveSpaces(b)
    decreases |a|
  {
    if a != [] {
      assert (a + b)[0] == a[0] && (a + b)[1..] == a[1..] + b;
      RemoveSpacesConcat(a[1..], b);
    } else {
      assert a + b == b;
    }
  }

  lemma {:induction false} RemoveSpacesOfSpaces(a: string)
    requires forall i :: 0 <= i < |a| ==> IsSpace(a[i])
    ensures RemoveSpaces(a) == []
    decreases |a|
  {
    if a != [] {
      RemoveSpacesOfSpaces(a[1..]);
    }
  }

  lemma {:induction false} RemoveSpacesOfWord(a: string)
    requires forall i :: 0 <= i < |a| ==> !IsSpace(a[i])
    ensures RemoveSpaces(a) == a
    decreases |a|
  {
    if a != [] {
      RemoveSpacesOfWord(a[1..]);
      assert a == [a[0]] + a[1..];
    }
  }

  lemma {:induction false} JoinCons(w: string, rest: seq<string>, sep: string)
    ensures Join([w] + rest, sep) == if rest == [] then w else w + sep + Join(rest, sep)
  {
    assert ([w] + rest)[1..] == rest;
  }

  /** The words of `s.split()`, put back together, are the characters of
      `s` that are not whitespace, in order. */
  lemma {:induction false} SplitSpaceJoin(s: string)
    ensures Join(SplitSpace(s), "") == RemoveSpaces(s)
    decreases |s|
  {
    var t := LStrip(s);
    RemoveSpacesLStrip(s);
    if t != [] {
      var n := WordLength(t);
      var w, rest := t[..n], SplitSpace(t[n..]);
      SplitSpaceStep(s);
      SplitSpaceJoin(t[n..]);
      RemoveSpacesWordThen(t, n);
      JoinCons(w, rest, "");
      assert w + "" == w;
    }
  }

  lemma SplitSpaceStep(s: string)
    requires LStrip(s) != []
    ensures var t := LStrip(s);
      SplitSpace(s) == [t[..WordLength(t)]] + SplitSpace(t[WordLength(t)..])
  {
  }

  lemma RemoveSpacesLStrip(s: string)
    ensures RemoveSpaces(s) == RemoveSpaces(LStrip(s))
  {
    var a := LeadingSpaces(s);
    assert s == s[..a] + LStrip(s);
    RemoveSpacesConcat(s[..a], LStrip(s));
    RemoveSpacesOfSpaces(s[..a]);
  }

  lemma RemoveSpacesWordThen(t: string, n: nat)
    requires n <= |t| && forall i :: 0 <= i < n ==> !IsSpace(t[i])
    ensures RemoveSpaces(t) == t[..n] + RemoveSpaces(t[n..])
  {
    assert t == t[..n] + t[n..];
    RemoveSpacesConcat(t[..n], t[n..]);
    RemoveSpacesOfWord(t[..n]);
  }

  /** `s.split()` is empty exactly when `s.strip()` is. */
  lemma SplitSpaceEmpty(s: string)
    ensures SplitSpace(s) == [] <==> Strip(s) == []
  {
    var l := LStrip(s);
    if l != [] {
      assert l[0] == s[LeadingSpaces(s)];
      var n := TrailingSpaces(l);
      assert n > 0;
      assert Strip(s) == l[..n];
    }
  }

  /** Leading whitespace changes nothing in `split()`. */
  lemma {:induction false} SplitSpaceSkip(sp: string, x: string)
    requires forall i :: 0 <= i < |sp| ==> IsSpace(sp[i])
    ensures SplitSpace(sp + x) == SplitSpace(x)
    decreases |sp|
  {
    LeadingSpacesSkip(sp, x);
    var a := LeadingSpaces(x);
    assert (sp + x)[|sp| + a..] == x[a..];
    SplitSpaceByLStrip(sp + x, x);
  }

  lemma {:induction false} LeadingSpacesSkip(sp: string, x: string)
    requires forall i :: 0 <= i < |sp| ==> IsSpace(sp[i])
    ensures LeadingSpaces(sp + x) == |sp| + LeadingSpaces(x)
    decreases |sp|
  {
    if sp != [] {
      assert (sp + x)[0] == sp[0] && (sp + x)[1..] == sp[1..] + x;
      LeadingSpacesSkip(sp[1..], x);
    } else {
      assert sp + x == x;
    }
  }

  lemma SplitSpaceByLStrip(a: string, b: string)
    requires LStrip(a) == LStrip(b)
    ensures SplitSpace(a) == SplitSpace(b)
  {
  }

  lemma {:induction false} WordLengthAt(s: string, n: nat)
    requires n <= |s| && (n == |s| || IsSpace(s[n]))
    requires forall i :: 0 <= i < n ==> !IsSpace(s[i])
    ensures WordLength(s) == n
    decreases n
  {
    if n > 0 {
      WordLengthAt(s[1..], n - 1);
    }
  }

  /** `split()` undoes joining words with a whitespace separator: words
      that are not empty and hold no whitespace come back out, in order. */
  lemma {:induction false} SplitSpaceOfJoin(ws: seq<string>, sep: string)
    requires sep != [] && forall i :: 0 <= i < |sep| ==> IsSpace(sep[i])
    requires forall k :: 0 <= k < |ws| ==> ws[k] != [] && forall i :: 0 <= i < |ws[k]| ==> !IsSpace(ws[k][i])
    ensures SplitSpace(Join(ws, sep)) == ws
    decreases |ws|
  {
    if ws != [] {
      var w, rest := ws[0], ws[1..];
      assert ws == [w] + rest;
      JoinCons(w, rest, sep);
      var j := Join(ws, sep);
      var tail := if rest == [] then [] else sep + Join(rest, sep);
      assert j == w + tail;
      assert j[..|w|] == w && j[|w|..] == tail;
      assert LeadingSpaces(j) == 0 by {
        assert j[0] == w[0];
      }
      assert LStrip(j) == j;
      WordLengthAt(j, |w|);
      SplitSpaceOfJoin(rest, sep);
      if rest != [] {
        SplitSpaceSkip(sep, Join(rest, sep));
      }
    }
  }

  predicate AllDigits(d: string)
  {
    forall i :: 0 <= i < |d| ==> IsDigit(d[i])
  }

  /** The value of a string of decimal digits. */
  function DecimalValue(d: string): nat
    requires AllDigits(d)
  {
    if d == [] then 0 else DecimalValue(d[..|d| - 1]) * 10 + (d[|d| - 1] as int - '0' as int)
  }

  function Pow10(n: nat): nat
  {
    if n == 0 then 1 else 10 * Pow10(n - 1)
  }

  /** A string of n digits is worth less than 10^n. */
  lemma {:induction false} DecimalValueBound(d: string)
    requires AllDigits(d)
    ensures DecimalValue(d) < Pow10(|d|)
  {
    if d != [] {
      DecimalValueBound(d[..|d| - 1]);
    }
  }

  /** The digit part `int()` accepts: digits, with single underscores between
      digits. */
  predicate IsDigitGroups(b: string)
  {
    && b != [] && IsDigit(b[0]) && IsDigit(b[|b| - 1])
    && (forall i :: 0 <= i < |b| ==> IsDigit(b[i]) || b[i] == '_')
    && (forall i :: 0 < i < |b| ==> b[i - 1] == '_' ==> b[i] != '_')
  }

  function RemoveUnderscores(b: string): (r: string)
    requires forall i :: 0 <= i < |b| ==> IsDigit(b[i]) || b[i] == '_'
    ensures AllDigits(r)
  {
    if b == [] then []
    else (if b[0] == '_' then [] else [b[0]]) + RemoveUnderscores(b[1..])
  }

  lemma {:induction false} RemoveUnderscoresOfDigits(d: string)
    requires AllDigits(d)
    ensures RemoveUnderscores(d) == d
  {
    if d != [] {
      RemoveUnderscoresOfDigits(d[1..]);
    }
  }

  /** Python's `int(s)` in base 10: surrounding whitespace, an optional sign,
      then digit groups; `None` where Python raises `ValueError`. */
  function ParseInt(s: string): (r: Option<int>)
  {
    var t := Strip(s);
    var signed := t != [] && (t[0] == '-' || t[0] == '+');
    var body := if signed then t[1..] else t;
    if IsDigitGroups(body) then
      var n: int := DecimalValue(RemoveUnderscores(body));
      Some(if signed && t[0] == '-' then -n else n)
    else None
  }

  /** On a string of digits and spaces only, `int()` succeeds exactly
      when the stripped string is a non-empty run of digits, and reads its
      value. */
  lemma ParseUnsigned(s: string)
    requires forall i :: 0 <= i < |s| ==> IsDigit(s[i]) || s[i] == ' '
    ensures ParseInt(s).Some? <==> Strip(s) != [] && AllDigits(Strip(s))
    ensures ParseInt(s).Some? ==> ParseInt(s) == Some(DecimalValue(Strip(s)))
  {
    var t := Strip(s);
    StripIsSlice(s);
    forall i | 0 <= i < |t| ensures IsDigit(t[i]) || t[i] == ' ' {
      assert t[i] == s[|s| - |LStrip(s)| + i];
    }
    if t != [] {
      assert t[0] != '-' && t[0] != '+';
    }
    if IsDigitGroups(t) || (t != [] && AllDigits(t)) {
      assert AllDigits(t);
      assert IsDigitGroups(t);
      RemoveUnderscoresOfDigits(t);
    }
  }

  function DigitChar(d: nat): (c: char)
    requires d < 10
    ensures IsDigit(c)
  {
    ('0' as int + d) as char
  }

  /** `str(n)` for a non-negative integer. */
  function NatToStr(n: nat): (r: string)
    ensures r != [] && AllDigits(r)
    ensures DecimalValue(r) == n
    ensures r[0] == '0' ==> n == 0
  {
    if n < 10 then [DigitChar(n)]
    else
      var h := NatToStr(n / 10);
      var r := h + [DigitChar(n % 10)];
      assert r[..|r| - 1] == h;
      r
  }

  /** `str(n)` */
  function IntToStr(n: int): string
  {
    if n < 0 then "-" + NatToStr(-n) else NatToStr(n)
  }

  /** The way `str()` writes an integer: an optional minus sign, then digits
      with no leading zero, and no sign in front of zero. */
  predicate CanonicalInt(d: string)
  {
    var u := if d != [] && d[0] == '-' then d[1..] else d;
    && u != [] && AllDigits(u)
    && (u[0] != '0' || u == "0")
    && (d != [] && d[0] == '-' ==> u[0] != '0')
  }

  /** `str(n)` is written canonically. */
  lemma IntToStrCanonical(n: int)
    ensures CanonicalInt(IntToStr(n))
    ensures IntToStr(n)[0] == '-' <==> n < 0
  {
    if n < 0 {
      var d := NatToStr(-n);
      assert ("-" + d)[1..] == d;
    } else {
      var d := NatToStr(n);
      assert d[0] == '0' ==> d == "0" by {
        if d[0] == '0' {
          assert n == 0;
        }
      }
    }
  }

  /** `int()` of a plain run of digits. */
  lemma ParseIntOfDigits(d: string)
    requires d != [] && AllDigits(d)
    ensures ParseInt(d) == Some(DecimalValue(d))
  {
    assert IsDigit(d[0]) && IsDigit(d[|d| - 1]);
    StripUnchanged(d);
    RemoveUnderscoresOfDigits(d);
    assert IsDigitGroups(d);
    assert !(d[0] == '-' || d[0] == '+');
  }

  /** `int()` of a single digit. */
  lemma ParseIntOfDigit(d: string)
    requires |d| == 1 && IsDigit(d[0])
    ensures ParseInt(d) == Some(d[0] as int - '0' as int)
  {
    ParseIntOfDigits(d);
    assert d[..0] == [];
  }

  /** `int()` of a minus sign and a plain run of digits. */
  lemma ParseIntOfNegative(d: string)
    requires d != [] && AllDigits(d)
    ensures ParseInt("-" + d) == Some(-(DecimalValue(d) as int))
  {
    var s := "-" + d;
    assert s[|s| - 1] == d[|d| - 1];
    assert IsDigit(d[0]) && IsDigit(d[|d| - 1]);
    StripUnchanged(s);
    assert s[1..] == d;
    RemoveUnderscoresOfDigits(d);
    ParseIntMinus(s, d);
  }

  lemma ParseIntMinus(s: string, d: string)
    requires Strip(s) == s && s != [] && s[0] == '-' && s[1..] == d
    requires IsDigitGroups(d) && RemoveUnderscores(d) == d
    ensures ParseInt(s) == Some(-(DecimalValue(d) as int))
  {
  }

  /** `int(str(n)) == n` */
  lemma IntToStrRoundTrip(n: int)
    ensures ParseInt(IntToStr(n)) == Some(n)
  {
    if n < 0 {
      ParseIntOfNegative(NatToStr(-n));
    } else {
      ParseIntOfDigits(NatToStr(n));
    }
  }
}
