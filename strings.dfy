/** The Python string operations the Markdown pipeline relies on, written out
    over `seq<char>`: `str.split` with a separator (all occurrences, or only the
    first), `str.join`, `str.replace`, `str.strip`/`lstrip`/`rstrip` (with and
    without a character set), slicing `s[:n]` / `s[n:]` and decimal formatting
    of integers. */
module Strings {
  import opened Wrappers

  predicate StartsWith(s: string, p: string) {
    |p| <= |s| && s[..|p|] == p
  }

  predicate EndsWith(s: string, p: string) {
    |p| <= |s| && s[|s| - |p|..] == p
  }

  /** Python `s[:n]` for `n >= 0`. */
  function Take(s: string, n: nat): (r: string)
    ensures |r| == if n <= |s| then n else |s|
    ensures StartsWith(s, r)
  {
    if n <= |s| then s[..n] else s
  }

  /** Python `s[n:]` for `n >= 0`. */
  function Drop(s: string, n: nat): (r: string)
    ensures |r| == if n <= |s| then |s| - n else 0
    ensures EndsWith(s, r)
  {
    if n <= |s| then s[n..] else ""
  }

  // ---------------------------------------------------------------------------
  // str.split(sep), "sep".join(parts), str.replace(old, new)
  // ---------------------------------------------------------------------------

  /** How many occurrences of `sep` a left-to-right scan finds when it skips
      over each occurrence it finds (the occurrences `str.split` cuts at). */
  function Count(s: string, sep: string): nat
    requires |sep| > 0
    decreases |s|
  {
    if |s| == 0 then 0
    else if StartsWith(s, sep) then 1 + Count(s[|sep|..], sep)
    else Count(s[1..], sep)
  }

  /** `s` with every occurrence that `Count` finds deleted. */
  function Erase(s: string, sep: string): string
    requires |sep| > 0
    decreases |s|
  {
    if |s| == 0 then ""
    else if StartsWith(s, sep) then Erase(s[|sep|..], sep)
    else [s[0]] + Erase(s[1..], sep)
  }

  /** The scan behind `Split`: `cur` is the piece collected so far. */
  function SplitFrom(s: string, sep: string, cur: string): (parts: seq<string>)
    requires |sep| > 0
    ensures |parts| == Count(s, sep) + 1
    decreases |s|
  {
    if |s| == 0 then [cur]
    else if StartsWith(s, sep) then [cur] + SplitFrom(s[|sep|..], sep, "")
    else SplitFrom(s[1..], sep, cur + [s[0]])
  }

  /** Python `s.split(sep)` for a non-empty separator. */
  function Split(s: string, sep: string): (parts: seq<string>)
    requires |sep| > 0
    ensures |parts| == Count(s, sep) + 1
    ensures Join(parts, sep) == s
    ensures Join(parts, "") == Erase(s, sep)
  {
    SplitFromJoin(s, sep, "");
    SplitFromErase(s, sep, "");
    SplitFrom(s, sep, "")
  }

  /** Python `sep.join(parts)`. */
  function Join(parts: seq<string>, sep: string): string
    decreases |parts|
  {
    if |parts| == 0 then ""
    else if |parts| == 1 then parts[0]
    else parts[0] + sep + Join(parts[1..], sep)
  }

  /** Python `s.replace(target, replacement)` for a non-empty `target`. */
  function Replace(s: string, target: string, replacement: string): string
    requires |target| > 0
  {
    Join(Split(s, target), replacement)
  }

  /** Python `s.split("\n")`. */
  function Lines(s: string): (lines: seq<string>)
    ensures |lines| == Count(s, "\n") + 1
  {
    Split(s, "\n")
  }

  lemma {:induction false} JoinPrepend(x: string, sep: string, parts: seq<string>)
    requires |parts| > 0
    ensures Join([x + parts[0]] + parts[1..], sep) == x + Join(parts, sep)
  {
  }

  lemma {:induction false} SplitFromJoin(s: string, sep: string, cur: string)
    requires |sep| > 0
    ensures Join(SplitFrom(s, sep, cur), sep) == cur + s
    decreases |s|
  {
    if |s| == 0 {
    } else if StartsWith(s, sep) {
      SplitFromJoin(s[|sep|..], sep, "");
      assert s == sep + s[|sep|..];
    } else {
      SplitFromJoin(s[1..], sep, cur + [s[0]]);
      assert s == [s[0]] + s[1..];
    }
  }

  lemma {:induction false} SplitFromErase(s: string, sep: string, cur: string)
    requires |sep| > 0
    ensures Join(SplitFrom(s, sep, cur), "") == cur + Erase(s, sep)
    decreases |s|
  {
    if |s| == 0 {
    } else if StartsWith(s, sep) {
      SplitFromErase(s[|sep|..], sep, "");
    } else {
      SplitFromErase(s[1..], sep, cur + [s[0]]);
    }
  }

  /** A prefix that does not contain the separator's first character is
      simply collected into the current piece. */
  lemma {:induction false} SplitFromSkip(x: string, y: string, sep: string, cur: string)
    requires |sep| > 0 && sep[0] !in x
    ensures SplitFrom(x + y, sep, cur) == SplitFrom(y, sep, cur + x)
    decreases |x|
  {
    if |x| > 0 {
      assert (x + y)[0] == x[0] != sep[0];
      assert (x + y)[1..] == x[1..] + y;
      SplitFromSkip(x[1..], y, sep, cur + [x[0]]);
      assert cur + [x[0]] + x[1..] == cur + x;
    } else {
      assert x + y == y && cur + x == cur;
    }
  }

  lemma {:induction false} JoinAppend(parts: seq<string>, x: string)
    ensures Join(parts + [x], "") == Join(parts, "") + x
    decreases |parts|
  {
    if |parts| == 0 {
      assert parts + [x] == [x];
    } else if |parts| == 1 {
      assert parts + [x] == [parts[0], x];
      assert [parts[0], x][1..] == [x];
    } else {
      assert (parts + [x])[1..] == parts[1..] + [x];
      JoinAppend(parts[1..], x);
    }
  }
  /** Text without the separator's first character holds no occurrence. */
  lemma CountWithout(s: string, sep: string)
    requires |sep| > 0 && sep[0] !in s
    ensures Count(s, sep) == 0
  {
    SplitFromSkip(s, "", sep, "");
    assert s + "" == s;
  }

  /** Splitting text that holds no occurrence gives the text back as the only piece. */
  lemma SplitWithout(s: string, sep: string)
    requires |sep| > 0 && Count(s, sep) == 0
    ensures Split(s, sep) == [s]
  {
  }

  /** Splitting `x + sep + y`, where `x` cannot start an occurrence, cuts
      exactly after `x`. */
  lemma {:induction false} SplitAround(x: string, y: string, sep: string)
    requires |sep| > 0 && sep[0] !in x
    ensures Split(x + sep + y, sep) == [x] + Split(y, sep)
  {
    SplitFromSkip(x, sep + y, sep, "");
    assert x + sep + y == x + (sep + y);
    assert StartsWith(sep + y, sep);
    assert (sep + y)[|sep|..] == y;
    assert "" + x == x;
  }

  /** A prefix at which no occurrence starts is simply collected into the current piece. */
  lemma {:induction false} SplitFromNoOccurrence(x: string, y: string, sep: string, cur: string)
    requires |sep| > 0
    requires forall p: nat :: p < |x| ==> !OccursAt(x + y, sep, p)
    ensures SplitFrom(x + y, sep, cur) == SplitFrom(y, sep, cur + x)
    decreases |x|
  {
    if |x| == 0 {
      assert x + y == y && cur + x == cur;
    } else {
      assert !OccursAt(x + y, sep, 0);
      assert !StartsWith(x + y, sep) by {
        if |sep| <= |x + y| {
          assert (x + y)[..|sep|] == (x + y)[0..0 + |sep|];
        }
      }
      assert (x + y)[1..] == x[1..] + y;
      forall p: nat | p < |x[1..]|
        ensures !OccursAt(x[1..] + y, sep, p)
      {
        assert !OccursAt(x + y, sep, p + 1);
        if p + |sep| <= |x[1..] + y| {
          assert (x[1..] + y)[p..p + |sep|] == (x + y)[p + 1..p + 1 + |sep|];
        }
      }
      SplitFromNoOccurrence(x[1..], y, sep, cur + [x[0]]);
      assert cur + [x[0]] + x[1..] == cur + x;
    }
  }

  /** No piece of a split holds the separator: the scan cuts at the first
      occurrence it reaches. The piece being collected holds none so far. */
  lemma {:induction false} SplitFromAvoids(s: string, sep: string, cur: string)
    requires |sep| > 0
    requires forall p: nat :: p < |cur| ==> !OccursAt(cur + s, sep, p)
    ensures forall i, p: nat :: 0 <= i < |SplitFrom(s, sep, cur)| ==> !OccursAt(SplitFrom(s, sep, cur)[i], sep, p)
    decreases |s|
  {
    var parts := SplitFrom(s, sep, cur);
    if |s| == 0 {
      forall p: nat ensures !OccursAt(cur, sep, p) {
        assert cur + s == cur;
      }
    } else if StartsWith(s, sep) {
      forall p: nat ensures !OccursAt(cur, sep, p) {
        if p + |sep| <= |cur| {
          assert !OccursAt(cur + s, sep, p);
          assert (cur + s)[p..p + |sep|] == cur[p..p + |sep|];
        }
      }
      SplitFromAvoids(s[|sep|..], sep, "");
      assert parts == [cur] + SplitFrom(s[|sep|..], sep, "");
    } else {
      var next := cur + [s[0]];
      assert next + s[1..] == cur + s;
      assert !OccursAt(cur + s, sep, |cur|) by {
        if |cur| + |sep| <= |cur + s| {
          assert (cur + s)[|cur|..|cur| + |sep|] == s[..|sep|];
        }
      }
      SplitFromAvoids(s[1..], sep, next);
    }
  }

  /** Splitting the join of pieces that do not hold the one-character separator gives the pieces back. */
  lemma {:induction false} SplitJoinChar(parts: seq<string>, c: char)
    requires |parts| > 0
    requires forall i :: 0 <= i < |parts| ==> c !in parts[i]
    ensures Split(Join(parts, [c]), [c]) == parts
    decreases |parts|
  {
    if |parts| == 1 {
      CountWithout(parts[0], [c]);
    } else {
      SplitJoinChar(parts[1..], c);
      SplitAround(parts[0], Join(parts[1..], [c]), [c]);
      assert [parts[0]] + parts[1..] == parts;
    }
  }

  /** With a one-character separator no piece contains that character. */
  lemma {:induction false} SplitFromOmitsChar(s: string, c: char, cur: string)
    requires c !in cur
    ensures forall i :: 0 <= i < |SplitFrom(s, [c], cur)| ==> c !in SplitFrom(s, [c], cur)[i]
    decreases |s|
  {
    if |s| == 0 {
    } else if StartsWith(s, [c]) {
      SplitFromOmitsChar(s[1..], c, "");
    } else {
      assert s[0] != c;
      SplitFromOmitsChar(s[1..], c, cur + [s[0]]);
    }
  }

  lemma {:induction false} JoinOmitsChar(parts: seq<string>, sep: string, c: char)
    requires c !in sep
    requires forall i :: 0 <= i < |parts| ==> c !in parts[i]
    ensures c !in Join(parts, sep)
    decreases |parts|
  {
    if |parts| > 1 {
      JoinOmitsChar(parts[1..], sep, c);
    }
  }

  /** `s.replace(c, replacement)` leaves no `c` behind unless `replacement` brings one. */
  lemma ReplaceRemovesChar(s: string, c: char, replacement: string)
    requires c !in replacement
    ensures c !in Replace(s, [c], replacement)
  {
    SplitFromOmitsChar(s, c, "");
    JoinOmitsChar(Split(s, [c]), replacement, c);
  }

  // ---------------------------------------------------------------------------
  // str.split(sep, 1)
  // ---------------------------------------------------------------------------

  /** The index of the leftmost occurrence of `sep` in `s`, as `str.find` gives it. */
  function IndexOf(s: string, sep: string): (r: Option<nat>)
    requires |sep| > 0
    ensures r.Some? ==> r.value + |sep| <= |s|
    decreases |s|
  {
    if StartsWith(s, sep) then Some(0)
    else if |s| == 0 then None
    else
      match IndexOf(s[1..], sep)
      case None => None
      case Some(i) => Some(i + 1)
  }

  /** `sep` occurs in `s` starting at position `i`. */
  predicate OccursAt(s: string, sep: string, i: nat) {
    i + |sep| <= |s| && s[i..i + |sep|] == sep
  }

  /** A separator that occurs at no position is not found. */
  lemma {:induction false} IndexOfAbsent(s: string, sep: string)
    requires |sep| > 0
    requires forall i: nat :: !OccursAt(s, sep, i)
    ensures IndexOf(s, sep) == None
    decreases |s|
  {
    if |s| > 0 {
      assert !OccursAt(s, sep, 0);
      forall i: nat
        ensures !OccursAt(s[1..], sep, i)
      {
        if i + |sep| <= |s[1..]| {
          assert s[1..][i..i + |sep|] == s[i + 1..i + 1 + |sep|];
          assert !OccursAt(s, sep, i + 1);
        }
      }
      IndexOfAbsent(s[1..], sep);
    }
  }

  /** The text is the part before the occurrence found, the separator and the part after it. */
  lemma IndexOfSplits(s: string, sep: string)
    requires |sep| > 0 && IndexOf(s, sep).Some?
    ensures var i := IndexOf(s, sep).value;
            s == s[..i] + sep + s[i + |sep|..]
  {
    var i := IndexOf(s, sep).value;
    IndexOfOccurs(s, sep);
    assert s == s[..i] + s[i..i + |sep|] + s[i + |sep|..];
  }

  /** The separator occurs at the position found. */
  lemma {:induction false} IndexOfOccurs(s: string, sep: string)
    requires |sep| > 0 && IndexOf(s, sep).Some?
    ensures OccursAt(s, sep, IndexOf(s, sep).value)
    decreases |s|
  {
    if !StartsWith(s, sep) {
      IndexOfOccurs(s[1..], sep);
      var i := IndexOf(s[1..], sep).value;
      assert s[1..][i..i + |sep|] == s[i + 1..i + 1 + |sep|];
    }
  }

  /** No occurrence starts before the position found: it is the leftmost one,
      which is what makes `split(sep, 1)` cut at the first occurrence. */
  lemma {:induction false} IndexOfLeftmost(s: string, sep: string)
    requires |sep| > 0 && IndexOf(s, sep).Some?
    ensures forall p: nat :: p < IndexOf(s, sep).value ==> !OccursAt(s, sep, p)
    decreases |s|
  {
    if !StartsWith(s, sep) {
      IndexOfLeftmost(s[1..], sep);
      forall p: nat | p < IndexOf(s, sep).value
        ensures !OccursAt(s, sep, p)
      {
        if p > 0 && p + |sep| <= |s| {
          assert s[1..][p - 1..p - 1 + |sep|] == s[p..p + |sep|];
          assert !OccursAt(s[1..], sep, p - 1);
        }
      }
    }
  }

  /** A separator that is not found occurs at no position: with `IndexOfAbsent`,
      `IndexOf` fails exactly when the separator does not occur. */
  lemma {:induction false} IndexOfNone(s: string, sep: string)
    requires |sep| > 0 && IndexOf(s, sep) == None
    ensures forall p: nat :: !OccursAt(s, sep, p)
    decreases |s|
  {
    if |s| > 0 {
      IndexOfNone(s[1..], sep);
      forall p: nat
        ensures !OccursAt(s, sep, p)
      {
        if p > 0 && p + |sep| <= |s| {
          assert s[1..][p - 1..p - 1 + |sep|] == s[p..p + |sep|];
          assert !OccursAt(s[1..], sep, p - 1);
        }
      }
    }
  }

  /** An occurrence right after a prefix that cannot start one is the leftmost. */
  lemma {:induction false} IndexOfAfter(x: string, sep: string, y: string)
    requires |sep| > 0 && sep[0] !in x
    ensures IndexOf(x + sep + y, sep) == Some(|x|)
    decreases |x|
  {
    var s := x + sep + y;
    if |x| == 0 {
      assert s == sep + y;
      assert StartsWith(s, sep);
    } else {
      assert s[0] == x[0] != sep[0];
      assert !StartsWith(s, sep);
      IndexOfAfter(x[1..], sep, y);
      assert s[1..] == x[1..] + sep + y;
    }
  }

  // ---------------------------------------------------------------------------
  // str.strip / lstrip / rstrip
  // ---------------------------------------------------------------------------

  /** The characters Python's `str.isspace` accepts, which `strip()` removes. */
  const Whitespace: set<char> := {
    '\t', '\n', '\U{B}', '\U{C}', '\r', '\U{1C}', '\U{1D}', '\U{1E}', '\U{1F}', ' ',
    '\U{85}', '\U{A0}', '\U{1680}',
    '\U{2000}', '\U{2001}', '\U{2002}', '\U{2003}', '\U{2004}', '\U{2005}',
    '\U{2006}', '\U{2007}', '\U{2008}', '\U{2009}', '\U{200A}',
    '\U{2028}', '\U{2029}', '\U{202F}', '\U{205F}', '\U{3000}'
  }

  /** Python `s.lstrip(chars)`: the suffix left after removing leading characters of `cs`. */
  function LStrip(s: string, cs: set<char>): (r: string)
    ensures EndsWith(s, r)
    ensures forall i :: 0 <= i < |s| - |r| ==> s[i] in cs
    ensures |r| > 0 ==> r[0] !in cs
    decreases |s|
  {
    if |s| > 0 && s[0] in cs then
      var r := LStrip(s[1..], cs);
      LStripStep(s, r, cs);
      r
    else s
  }

  lemma LStripStep(s: string, r: string, cs: set<char>)
    requires |s| > 0 && s[0] in cs && EndsWith(s[1..], r)
    requires forall i :: 0 <= i < |s| - 1 - |r| ==> s[1..][i] in cs
    ensures EndsWith(s, r)
    ensures forall i :: 0 <= i < |s| - |r| ==> s[i] in cs
  {
    assert s[|s| - |r|..] == s[1..][|s| - 1 - |r|..];
    forall i | 1 <= i < |s| - |r| ensures s[i] in cs {
      assert s[i] == s[1..][i - 1];
    }
  }

  /** Python `s.rstrip(chars)`: the prefix left after removing trailing characters of `cs`. */
  function RStrip(s: string, cs: set<char>): (r: string)
    ensures StartsWith(s, r)
    ensures forall i :: |r| <= i < |s| ==> s[i] in cs
    ensures |r| > 0 ==> r[|r| - 1] !in cs
    decreases |s|
  {
    if |s| > 0 && s[|s| - 1] in cs then
      var r := RStrip(s[..|s| - 1], cs);
      RStripStep(s, s[..|s| - 1], r, cs);
      r
    else s
  }

  lemma RStripStep(s: string, init: string, r: string, cs: set<char>)
    requires |s| > 0 && s[|s| - 1] in cs && init == s[..|s| - 1] && StartsWith(init, r)
    requires forall i :: |r| <= i < |init| ==> init[i] in cs
    ensures StartsWith(s, r)
    ensures forall i :: |r| <= i < |s| ==> s[i] in cs
  {
    assert s[..|r|] == init[..|r|];
    forall i | |r| <= i < |s| - 1 ensures s[i] in cs {
      assert s[i] == init[i];
    }
  }


  /** Python `s.strip(chars)`. */
  function StripChars(s: string, cs: set<char>): (r: string)
    ensures |r| > 0 ==> r[0] !in cs && r[|r| - 1] !in cs
  {
    RStrip(LStrip(s, cs), cs)
  }

  /** Python `s.strip()`. */
  function Strip(s: string): (r: string)
    ensures |r| > 0 ==> r[0] !in Whitespace && r[|r| - 1] !in Whitespace
  {
    StripChars(s, Whitespace)
  }

  /** Leading characters of `cs` in front of a character outside `cs` are exactly what `lstrip` removes. */
  lemma {:induction false} LStripPrefix(x: string, y: string, cs: set<char>)
    requires forall i :: 0 <= i < |x| ==> x[i] in cs
    requires |y| > 0 && y[0] !in cs
    ensures LStrip(x + y, cs) == y
    decreases |x|
  {
    if |x| == 0 {
      assert x + y == y;
    } else {
      assert (x + y)[1..] == x[1..] + y;
      LStripPrefix(x[1..], y, cs);
    }
  }

  /** Trailing characters of `cs` after a character outside `cs` are exactly what `rstrip` removes. */
  lemma {:induction false} RStripSuffix(x: string, y: string, cs: set<char>)
    requires |x| > 0 && x[|x| - 1] !in cs
    requires forall i :: 0 <= i < |y| ==> y[i] in cs
    ensures RStrip(x + y, cs) == x
    decreases |y|
  {
    if |y| == 0 {
      assert x + y == x;
    } else {
      assert (x + y)[..|x + y| - 1] == x + y[..|y| - 1];
      RStripSuffix(x, y[..|y| - 1], cs);
    }
  }

  lemma SliceOfSlice<T>(s: seq<T>, lo: nat, hi: nat, a: nat, b: nat)
    requires lo <= hi <= |s| && a <= b <= hi - lo
    ensures s[lo..hi][a..b] == s[lo + a..lo + b]
  {
    forall i | 0 <= i < b - a
      ensures s[lo..hi][a..b][i] == s[lo + a..lo + b][i]
    {
    }
  }

  /** A slice of text that holds no occurrence of `sep` holds none either. */
  lemma SliceAvoids(s: string, sep: string, lo: nat, hi: nat)
    requires lo <= hi <= |s|
    requires forall p: nat :: !OccursAt(s, sep, p)
    ensures forall p: nat :: !OccursAt(s[lo..hi], sep, p)
  {
    forall p: nat
      ensures !OccursAt(s[lo..hi], sep, p)
    {
      if p + |sep| <= hi - lo {
        SliceOfSlice(s, lo, hi, p, p + |sep|);
        assert !OccursAt(s, sep, lo + p);
      }
    }
  }

  /** Stripping text that holds no occurrence of `sep` cannot create one. */
  lemma StripAvoids(s: string, sep: string)
    requires forall p: nat :: !OccursAt(s, sep, p)
    ensures forall p: nat :: !OccursAt(Strip(s), sep, p)
  {
    var l := LStrip(s, Whitespace);
    SliceAvoids(s, sep, |s| - |l|, |s|);
    assert s[|s| - |l|..|s|] == l;
    SliceAvoids(l, sep, 0, |RStrip(l, Whitespace)|);
    assert l[0..|RStrip(l, Whitespace)|] == RStrip(l, Whitespace);
  }

  /** `strip` leaves a string whose ends are already outside `cs` as it is. */
  lemma StripCharsKeeps(s: string, cs: set<char>)
    requires |s| > 0 ==> s[0] !in cs && s[|s| - 1] !in cs
    ensures StripChars(s, cs) == s
  {
  }

  // ---------------------------------------------------------------------------
  // f"{n}" for integers
  // ---------------------------------------------------------------------------

  function DigitChar(d: nat): char
    requires d < 10
  {
    "0123456789"[d]
  }

  /** The decimal digits of `n`, as `str(n)` writes them. */
  function NatToString(n: nat): (r: string)
    ensures |r| >= 1
    ensures n >= 10 ==> |r| >= 2
    ensures forall i :: 0 <= i < |r| ==> '0' <= r[i] <= '9'
    decreases n
  {
    if n < 10 then [DigitChar(n)] else NatToString(n / 10) + [DigitChar(n % 10)]
  }

  /** `str(i)` for any integer: a minus sign in front of negative numbers. */
  function IntToString(i: int): string {
    if i < 0 then "-" + NatToString(-i) else NatToString(i)
  }
}
