/** The two regular expressions of the inline tokenizer, `!\[(.*?)\]\((.*?)\)`
    for images and `\[(.*?)\]\((.*?)\)` for links, as hand-written leftmost
    scanners: `re.findall` semantics with lazy groups, where `.` matches any
    character except a newline. */
module Scanner {
  import opened Wrappers
  import opened Strings

  datatype MarkerKind = ImageMarker | LinkMarker {
    /** What the pattern matches before the alt text. */
    function Opener(): string {
      if ImageMarker? then "![" else "["
    }
  }

  /** The Markdown text of a marker: `![alt](url)` or `[alt](url)`. */
  function Markup(kind: MarkerKind, alt: string, url: string): string {
    kind.Opener() + alt + "](" + url + ")"
  }

  /** An alt text and url that the pattern reads back exactly as written. */
  predicate Clean(alt: string, url: string) {
    ']' !in alt && '\n' !in alt && ')' !in url && '\n' !in url
  }

  /** The lazy `(.*?)\)`: the shortest run of non-newline characters that a
      `)` follows. */
  function MatchUrl(s: string): (r: Option<string>)
    ensures r.Some? ==> |r.value| < |s| && s[..|r.value| + 1] == r.value + ")"
    ensures r.Some? ==> ')' !in r.value && '\n' !in r.value
    decreases |s|
  {
    if |s| == 0 then None
    else if s[0] == ')' then Some("")
    else if s[0] == '\n' then None
    else
      match MatchUrl(s[1..])
      case None => None
      case Some(u) => Some([s[0]] + u)
  }

  /** The lazy `(.*?)\]\((.*?)\)` after the opening bracket: the shortest alt
      text (without a newline) that `](`, a url and `)` can follow. */
  function MatchAltUrl(s: string): (r: Option<(string, string)>)
    ensures r.Some? ==> |r.value.0| + |r.value.1| + 3 <= |s|
    ensures r.Some? ==> s[..|r.value.0| + |r.value.1| + 3] == r.value.0 + "](" + r.value.1 + ")"
    ensures r.Some? ==> '\n' !in r.value.0 && '\n' !in r.value.1 && ')' !in r.value.1
    decreases |s|
  {
    if StartsWith(s, "](") && MatchUrl(s[2..]).Some? then
      var u := MatchUrl(s[2..]).value;
      UrlAfterOpener(s, u);
      Some(("", u))
    else if |s| == 0 || s[0] == '\n' then None
    else
      match MatchAltUrl(s[1..])
      case None => None
      case Some((a, u)) =>
        AltGrows(s, a, u);
        Some(([s[0]] + a, u))
  }

  lemma UrlAfterOpener(s: string, u: string)
    requires StartsWith(s, "](") && |u| < |s| - 2 && s[2..][..|u| + 1] == u + ")"
    ensures s[..|u| + 3] == "" + "](" + u + ")"
  {
    assert s[..|u| + 3] == s[..2] + s[2..][..|u| + 1];
  }

  lemma AltGrows(s: string, a: string, u: string)
    requires |s| > 0 && |a| + |u| + 3 <= |s| - 1 && s[1..][..|a| + |u| + 3] == a + "](" + u + ")"
    ensures s[..|a| + |u| + 4] == [s[0]] + a + "](" + u + ")"
  {
    assert s[..|a| + |u| + 4] == [s[0]] + s[1..][..|a| + |u| + 3];
  }

  /** How many characters a match spans after its opener. */
  function MatchLength(m: (string, string)): nat {
    |m.0| + |m.1| + 3
  }

  /** `re.findall` of the image or link pattern: every position is tried from
      the left, the first position where the pattern matches gives a match and
      the scan resumes after it. */
  function FindAll(s: string, kind: MarkerKind): seq<(string, string)>
    decreases |s|
  {
    var open := kind.Opener();
    if |s| == 0 then []
    else if StartsWith(s, open) && MatchAltUrl(s[|open|..]).Some? then
      var m := MatchAltUrl(s[|open|..]).value;
      [m] + FindAll(s[|open| + MatchLength(m)..], kind)
    else FindAll(s[1..], kind)
  }

  /** Every match is on one line, and its url stops at the first `)`. */
  lemma {:induction false} FindAllClean(s: string, kind: MarkerKind)
    ensures forall i :: 0 <= i < |FindAll(s, kind)| ==>
              '\n' !in FindAll(s, kind)[i].0 && '\n' !in FindAll(s, kind)[i].1 && ')' !in FindAll(s, kind)[i].1
    decreases |s|
  {
    var open := kind.Opener();
    if |s| == 0 {
    } else if StartsWith(s, open) && MatchAltUrl(s[|open|..]).Some? {
      var m := MatchAltUrl(s[|open|..]).value;
      FindAllClean(s[|open| + MatchLength(m)..], kind);
      FindAllAtMatch(s, kind, open, m);
    } else {
      FindAllClean(s[1..], kind);
    }
  }

  /** `extract_markdown_images`. */
  function ExtractImages(text: string): seq<(string, string)> {
    FindAll(text, ImageMarker)
  }

  /** The text with the first image match of `re.search` cut out. */
  function RemoveFirstImage(s: string): string
    decreases |s|
  {
    if |s| == 0 then s
    else if StartsWith(s, "![") && MatchAltUrl(s[2..]).Some? then
      s[2 + MatchLength(MatchAltUrl(s[2..]).value)..]
    else [s[0]] + RemoveFirstImage(s[1..])
  }

  /** `extract_markdown_links`: the link pattern over the text with only its
      first image removed. */
  function ExtractLinks(text: string): seq<(string, string)> {
    FindAll(RemoveFirstImage(text), LinkMarker)
  }

  // ---------------------------------------------------------------------------
  // Reading back what was written
  // ---------------------------------------------------------------------------

  lemma {:induction false} MatchUrlOf(u: string, rest: string)
    requires ')' !in u && '\n' !in u
    ensures MatchUrl(u + ")" + rest) == Some(u)
    decreases |u|
  {
    var s := u + ")" + rest;
    if |u| > 0 {
      assert s[0] == u[0];
      assert s[1..] == u[1..] + ")" + rest;
      MatchUrlOf(u[1..], rest);
      assert [u[0]] + u[1..] == u;
    } else {
      assert s[0] == ')';
    }
  }

  lemma {:induction false} MatchAltUrlOf(alt: string, url: string, rest: string)
    requires Clean(alt, url)
    ensures MatchAltUrl(alt + "](" + url + ")" + rest) == Some((alt, url))
    decreases |alt|
  {
    var s := alt + "](" + url + ")" + rest;
    if |alt| == 0 {
      assert s == "](" + (url + ")" + rest);
      assert StartsWith(s, "](");
      assert s[2..] == url + ")" + rest;
      MatchUrlOf(url, rest);
    } else {
      assert s[0] == alt[0] != ']';
      assert !StartsWith(s, "](");
      assert s[1..] == alt[1..] + "](" + url + ")" + rest;
      MatchAltUrlOf(alt[1..], url, rest);
      assert [alt[0]] + alt[1..] == alt;
    }
  }

  /** Text that cannot start a marker is skipped over. */
  lemma {:induction false} FindAllSkips(x: string, y: string, kind: MarkerKind)
    requires kind.Opener()[0] !in x
    ensures FindAll(x + y, kind) == FindAll(y, kind)
    decreases |x|
  {
    if |x| == 0 {
      assert x + y == y;
    } else {
      assert (x + y)[0] == x[0];
      assert !StartsWith(x + y, kind.Opener());
      assert (x + y)[1..] == x[1..] + y;
      FindAllSkips(x[1..], y, kind);
    }
  }

  /** A clean marker at the front is found with its alt text and url, and the
      scan resumes right after it. */
  lemma {:induction false} FindAllMarker(alt: string, url: string, rest: string, kind: MarkerKind)
    requires Clean(alt, url)
    ensures FindAll(Markup(kind, alt, url) + rest, kind) == [(alt, url)] + FindAll(rest, kind)
  {
    var open := kind.Opener();
    var s := Markup(kind, alt, url) + rest;
    assert StartsWith(s, open);
    assert s[|open|..] == alt + "](" + url + ")" + rest;
    MatchAltUrlOf(alt, url, rest);
    assert s[|open| + MatchLength((alt, url))..] == rest;
    FindAllAtMatch(s, kind, open, (alt, url));
  }

  /** Where the pattern matches at the front, the match is reported and the
      scan resumes after it. */
  lemma {:induction false} FindAllAtMatch(s: string, kind: MarkerKind, open: string, m: (string, string))
    requires open == kind.Opener() && |s| > 0 && StartsWith(s, open) && MatchAltUrl(s[|open|..]) == Some(m)
    ensures FindAll(s, kind) == [m] + FindAll(s[|open| + MatchLength(m)..], kind)
  {
  }

  /** Text pieces with clean markers between them, as a writer would produce it. */
  function Interleave(gaps: seq<string>, marks: seq<(string, string)>, kind: MarkerKind): string
    requires |gaps| == |marks| + 1
    decreases |marks|
  {
    if |marks| == 0 then gaps[0]
    else gaps[0] + Markup(kind, marks[0].0, marks[0].1) + Interleave(gaps[1..], marks[1..], kind)
  }

  predicate CleanMarks(marks: seq<(string, string)>) {
    forall i :: 0 <= i < |marks| ==> Clean(marks[i].0, marks[i].1)
  }

  predicate PlainGaps(gaps: seq<string>, kind: MarkerKind) {
    forall i :: 0 <= i < |gaps| ==> kind.Opener()[0] !in gaps[i]
  }

  /** `re.findall` reports exactly the markers of a text built from plain text
      and clean markers, in left-to-right order. */
  lemma {:induction false} FindAllInterleaved(gaps: seq<string>, marks: seq<(string, string)>, kind: MarkerKind)
    requires |gaps| == |marks| + 1 && PlainGaps(gaps, kind) && CleanMarks(marks)
    ensures FindAll(Interleave(gaps, marks, kind), kind) == marks
    decreases |marks|
  {
    if |marks| == 0 {
      FindAllSkips(gaps[0], "", kind);
      assert gaps[0] + "" == gaps[0];
    } else {
      var m := Markup(kind, marks[0].0, marks[0].1);
      var rest := Interleave(gaps[1..], marks[1..], kind);
      assert Interleave(gaps, marks, kind) == gaps[0] + (m + rest);
      FindAllSkips(gaps[0], m + rest, kind);
      FindAllMarker(marks[0].0, marks[0].1, rest, kind);
      FindAllInterleaved(gaps[1..], marks[1..], kind);
    }
  }

  /** `extract_markdown_images` of such a text gives its images in order. */
  lemma ExtractImagesInterleaved(gaps: seq<string>, marks: seq<(string, string)>)
    requires |gaps| == |marks| + 1 && PlainGaps(gaps, ImageMarker) && CleanMarks(marks)
    ensures ExtractImages(Interleave(gaps, marks, ImageMarker)) == marks
  {
    FindAllInterleaved(gaps, marks, ImageMarker);
  }

  /** Text without an image opener passes through `RemoveFirstImage` while the scan looks for one. */
  lemma {:induction false} RemoveFirstImageSkips(x: string, y: string)
    requires '!' !in x
    ensures RemoveFirstImage(x + y) == x + RemoveFirstImage(y)
    decreases |x|
  {
    if |x| == 0 {
      assert x + y == y;
    } else {
      var s := x + y;
      assert s[0] == x[0];
      assert s[1..] == x[1..] + y;
      RemoveFirstImageStep(s);
      RemoveFirstImageSkips(x[1..], y);
      assert [x[0]] + (x[1..] + RemoveFirstImage(y)) == x + RemoveFirstImage(y);
    }
  }

  /** A character other than `!` is kept and the search goes on after it. */
  lemma {:induction false} RemoveFirstImageStep(s: string)
    requires |s| > 0 && s[0] != '!'
    ensures RemoveFirstImage(s) == [s[0]] + RemoveFirstImage(s[1..])
  {
    assert !StartsWith(s, "![");
  }

  /** An image at the front is what `re.search` finds first, and it is cut out. */
  lemma RemoveLeadingImage(alt: string, url: string, after: string)
    requires Clean(alt, url)
    ensures RemoveFirstImage(Markup(ImageMarker, alt, url) + after) == after
  {
    var s := Markup(ImageMarker, alt, url) + after;
    assert StartsWith(s, "![");
    assert s[2..] == alt + "](" + url + ")" + after;
    MatchAltUrlOf(alt, url, after);
    assert s[2 + MatchLength((alt, url))..] == after;
  }

  /** `extract_markdown_links` never reports the first image as a link, and
      still finds the links around it. */
  lemma ExtractLinksAfterImage(before: string, alt: string, url: string, after: string)
    requires '!' !in before && Clean(alt, url)
    ensures ExtractLinks(before + Markup(ImageMarker, alt, url) + after)
         == FindAll(before + after, LinkMarker)
  {
    RemoveImageBetween(before, alt, url, after);
  }

  /** The first image, behind text without a `!`, is cut out and nothing else changes. */
  lemma RemoveImageBetween(before: string, alt: string, url: string, after: string)
    requires '!' !in before && Clean(alt, url)
    ensures RemoveFirstImage(before + Markup(ImageMarker, alt, url) + after) == before + after
  {
    var img := Markup(ImageMarker, alt, url);
    assert before + img + after == before + (img + after);
    RemoveFirstImageSkips(before, img + after);
    RemoveLeadingImage(alt, url, after);
  }

  /** A lone image is not a link. */
  lemma ExtractLinksOfImage(alt: string, url: string)
    requires Clean(alt, url)
    ensures ExtractLinks(Markup(ImageMarker, alt, url)) == []
  {
    RemoveLeadingImage(alt, url, "");
    assert Markup(ImageMarker, alt, url) + "" == Markup(ImageMarker, alt, url);
  }

  /** Only the first image is removed: the bracketed part of a second image is
      reported as a link. */
  lemma ExtractLinksSeesSecondImage(a1: string, u1: string, a2: string, u2: string)
    requires Clean(a1, u1) && Clean(a2, u2)
    ensures ExtractLinks(Markup(ImageMarker, a1, u1) + Markup(ImageMarker, a2, u2)) == [(a2, u2)]
  {
    RemoveLeadingImage(a1, u1, Markup(ImageMarker, a2, u2));
    LinkInsideImage(a2, u2);
  }

  lemma LinkInsideImage(alt: string, url: string)
    requires Clean(alt, url)
    ensures FindAll(Markup(ImageMarker, alt, url), LinkMarker) == [(alt, url)]
  {
    var link := Markup(LinkMarker, alt, url);
    assert Markup(ImageMarker, alt, url) == "!" + link;
    FindAllSkips("!", link, LinkMarker);
    FindAllMarker(alt, url, "", LinkMarker);
    assert link + "" == link;
  }

  /** Both patterns need a `[`: text without one holds no marker. */
  lemma {:induction false} FindAllWithoutBracket(s: string, kind: MarkerKind)
    requires '[' !in s
    ensures FindAll(s, kind) == []
    decreases |s|
  {
    if |s| > 0 {
      var open := kind.Opener();
      assert open[|open| - 1] == '[';
      assert !StartsWith(s, open);
      FindAllWithoutBracket(s[1..], kind);
    }
  }

  /** Text without a `[` holds no image, so nothing is cut out of it. */
  lemma {:induction false} RemoveFirstImageWithoutBracket(s: string)
    requires '[' !in s
    ensures RemoveFirstImage(s) == s
    decreases |s|
  {
    if |s| > 0 {
      assert |s| >= 2 ==> s[..2][1] == s[1] != '[';
      assert !StartsWith(s, "![");
      RemoveFirstImageWithoutBracket(s[1..]);
    }
  }

  /** Text without a `!` holds no image either. */
  lemma RemoveFirstImageWithoutBang(s: string)
    requires '!' !in s
    ensures RemoveFirstImage(s) == s
  {
    RemoveFirstImageSkips(s, "");
    assert s + "" == s;
  }
}
