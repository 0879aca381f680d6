/** The block layer of the Markdown pipeline: `markdown_to_blocks` cuts a
    document into blocks at blank lines, `block_to_block_type` classifies
    one block. */
module Blocks {
  import opened Wrappers
  import opened Errors
  import opened Strings

  // ---------------------------------------------------------------------------
  // markdown_to_blocks
  // ---------------------------------------------------------------------------

  /** The paragraph separator: an empty line. */
  const BlankLine: string := "\n\n"

  /** Text without whitespace at either end, as `strip()` leaves it. */
  predicate Stripped(b: string) {
    |b| > 0 ==> b[0] !in Whitespace && b[|b| - 1] !in Whitespace
  }

  /** Text without an empty line inside it. */
  ghost predicate NoBlankLine(b: string) {
    forall p: nat :: !OccursAt(b, BlankLine, p)
  }

  /** `markdown_to_blocks`: the document cut at every empty line, each piece
      stripped of surrounding whitespace and then of leading newlines. Empty
      pieces are kept, so runs of blank lines give empty blocks. */
  function MarkdownToBlocks(markdown: string): (blocks: seq<string>)
    ensures |blocks| == Count(markdown, BlankLine) + 1
    ensures forall i :: 0 <= i < |blocks| ==> Stripped(blocks[i]) && NoBlankLine(blocks[i])
  {
    var pieces := Split(markdown, BlankLine);
    PiecesAvoidBlankLine(markdown);
    seq(|pieces|, i requires 0 <= i < |pieces| => Sanitize(pieces[i]))
  }

  /** `text.strip().lstrip("\n")`: once `strip()` has run the `lstrip` has
      nothing left to remove. */
  function Sanitize(piece: string): (b: string)
    ensures b == Strip(piece)
    ensures Stripped(b)
  {
    var s := Strip(piece);
    assert |s| > 0 ==> s[0] !in {'\n'} by {
      assert '\n' in Whitespace;
    }
    LStrip(s, {'\n'})
  }

  /** No piece of the split holds an empty line, and stripping keeps it so. */
  lemma PiecesAvoidBlankLine(markdown: string)
    ensures forall i :: 0 <= i < |Split(markdown, BlankLine)| ==> NoBlankLine(Strip(Split(markdown, BlankLine)[i]))
  {
    var pieces := Split(markdown, BlankLine);
    SplitFromAvoids(markdown, BlankLine, "");
    forall i | 0 <= i < |pieces|
      ensures NoBlankLine(Strip(pieces[i]))
    {
      StripAvoids(pieces[i], BlankLine);
    }
  }

  /** A block that is stripped and holds no empty line. */
  ghost predicate Separable(b: string) {
    Stripped(b) && NoBlankLine(b)
  }

  /** The scan over `x + "\n\n" + y` cuts exactly after a separable `x`. */
  lemma SplitAtBlankLine(x: string, y: string)
    requires Separable(x)
    ensures Split(x + BlankLine + y, BlankLine) == [x] + Split(y, BlankLine)
  {
    var s := x + BlankLine + y;
    assert s == x + (BlankLine + y);
    forall p: nat | p < |x|
      ensures !OccursAt(s, BlankLine, p)
    {
      if p + 2 <= |x| {
        assert s[p..p + 2] == x[p..p + 2];
        assert !OccursAt(x, BlankLine, p);
      } else {
        assert s[p] == x[|x| - 1] != '\n';
      }
    }
    SplitFromNoOccurrence(x, BlankLine + y, BlankLine, "");
    assert StartsWith(BlankLine + y, BlankLine);
    assert (BlankLine + y)[2..] == y;
    assert "" + x == x;
  }

  /** A separable block on its own is one piece. */
  lemma SplitAlone(x: string)
    requires Separable(x)
    ensures Split(x, BlankLine) == [x]
  {
    assert x + "" == x;
    SplitFromNoOccurrence(x, "", BlankLine, "");
    assert "" + x == x;
  }

  /** Cutting separable blocks joined by empty lines gives the blocks back. */
  lemma {:induction false} SplitJoinBlocks(blocks: seq<string>)
    requires |blocks| > 0
    requires forall i :: 0 <= i < |blocks| ==> Separable(blocks[i])
    ensures Split(Join(blocks, BlankLine), BlankLine) == blocks
    decreases |blocks|
  {
    if |blocks| == 1 {
      SplitAlone(blocks[0]);
    } else {
      SplitJoinBlocks(blocks[1..]);
      SplitAtBlankLine(blocks[0], Join(blocks[1..], BlankLine));
      assert [blocks[0]] + blocks[1..] == blocks;
    }
  }

  /** `markdown_to_blocks` undoes joining blocks with empty lines, whenever
      the blocks are what it produces: stripped, with no empty line inside. */
  lemma BlocksRoundTrip(blocks: seq<string>)
    requires |blocks| > 0
    requires forall i :: 0 <= i < |blocks| ==> Separable(blocks[i])
    ensures MarkdownToBlocks(Join(blocks, BlankLine)) == blocks
  {
    SplitJoinBlocks(blocks);
    forall i | 0 <= i < |blocks|
      ensures Strip(blocks[i]) == blocks[i]
    {
      StripCharsKeeps(blocks[i], Whitespace);
    }
  }

  /** Four newlines in a row leave an empty block between the two texts. */
  lemma BlankRunGivesEmptyBlock(a: string, b: string)
    requires a != "" && b != "" && Separable(a) && Separable(b)
    ensures MarkdownToBlocks(a + "\n\n\n\n" + b) == [a, "", b]
  {
    BlocksRoundTrip([a, "", b]);
    assert Join(["", b], BlankLine) == "" + BlankLine + b;
    assert [a, "", b][1..] == ["", b];
    assert Join([a, "", b], BlankLine) == a + BlankLine + ("" + BlankLine + b);
    assert a + BlankLine + ("" + BlankLine + b) == a + "\n\n\n\n" + b;
  }

  // ---------------------------------------------------------------------------
  // block_to_block_type
  // ---------------------------------------------------------------------------

  datatype BlockKind = Heading | Code | Quote | UnorderedList | OrderedList | Paragraph
  {
    /** The string `block_to_block_type` returns for this kind. */
    function Name(): string {
      match this
      case Heading => "heading"
      case Code => "code"
      case Quote => "quote"
      case UnorderedList => "unordered_list"
      case OrderedList => "ordered_list"
      case Paragraph => "paragraph"
    }
  }

  /** A line that `#{1,6} ` matches at its start: one to six `#` and then a space. */
  predicate HeadingLine(line: string) {
    exists k :: 1 <= k <= 6 && k < |line| && line[k] == ' ' && forall j :: 0 <= j < k ==> line[j] == '#'
  }

  /** `re.search(r"(?<!.)(#{1,6} )", block)`. The pattern's `.` matches any
      character but a newline, so the lookbehind holds exactly at the start
      of a line: a heading line anywhere in the block makes it a heading. */
  predicate IsHeading(block: string) {
    exists i :: 0 <= i < |Lines(block)| && HeadingLine(Lines(block)[i])
  }

  /** `re.search(r"^```", block) and re.search(r"```$", block)`; `$` also
      matches just before a final newline. */
  predicate IsCode(block: string) {
    StartsWith(block, "```") && (EndsWith(block, "```") || EndsWith(block, "```\n"))
  }

  /** `all(">" == x[0] for x in lines)`: the generator stops at the first line
      that does not start with `>`, and `x[0]` raises `IndexError` on an empty
      line reached before that. */
  function AllQuoted(lines: seq<string>): (r: Result<bool, Error>)
    ensures r == Ok(true) <==> forall i :: 0 <= i < |lines| ==> lines[i] != "" && lines[i][0] == '>'
    ensures r.Err? <==> exists k :: 0 <= k < |lines| && lines[k] == "" && QuotedUpTo(lines, k)
    ensures r.Err? ==> r.error == IndexOutOfRange
    decreases |lines|
  {
    if |lines| == 0 then Ok(true)
    else if lines[0] == "" then
      assert QuotedUpTo(lines, 0);
      Err(IndexOutOfRange)
    else if lines[0][0] != '>' then
      assert forall k :: 0 < k < |lines| ==> !QuotedUpTo(lines, k);
      Ok(false)
    else
      var r := AllQuoted(lines[1..]);
      assert forall k :: 0 <= k < |lines[1..]| ==> (QuotedUpTo(lines[1..], k) <==> QuotedUpTo(lines, k + 1));
      assert r.Err? ==> exists k :: 0 <= k < |lines| && lines[k] == "" && QuotedUpTo(lines, k) by {
        if r.Err? {
          var k :| 0 <= k < |lines[1..]| && lines[1..][k] == "" && QuotedUpTo(lines[1..], k);
          assert lines[k + 1] == "" && QuotedUpTo(lines, k + 1);
        }
      }
      r
  }

  /** Every line before the `k`-th starts with `>`. */
  predicate QuotedUpTo(lines: seq<string>, k: nat)
    requires k <= |lines|
  {
    forall i :: 0 <= i < k ==> lines[i] != "" && lines[i][0] == '>'
  }

  /** A line that `x[:2]` shows to start an unordered list item. */
  predicate UnorderedItem(line: string) {
    Take(line, 2) == "* " || Take(line, 2) == "- "
  }

  /** The line at index `i` starts with `f"{i+1}. "` (as far as `x[:3]` can show it). */
  predicate OrderedItem(i: nat, line: string) {
    Take(line, 3) == NatToString(i + 1) + ". "
  }

  /** `block_to_block_type`. The tests run in the source's order, so a block
      that qualifies for several kinds takes the first. */
  function BlockType(block: string): (r: Result<BlockKind, Error>)
    ensures r == Ok(Heading) <==> IsHeading(block)
    ensures r == Ok(Code) <==> !IsHeading(block) && IsCode(block)
    ensures r.Err? ==> r.error == IndexOutOfRange && exists k :: 0 <= k < |Lines(block)| && Lines(block)[k] == ""
    ensures r == Ok(Quote) ==> forall i :: 0 <= i < |Lines(block)| ==> Lines(block)[i] != "" && Lines(block)[i][0] == '>'
    ensures r == Ok(UnorderedList) ==> forall i :: 0 <= i < |Lines(block)| ==> UnorderedItem(Lines(block)[i])
    ensures r == Ok(OrderedList) ==> forall i :: 0 <= i < |Lines(block)| ==> OrderedItem(i, Lines(block)[i])
  {
    if IsHeading(block) then Ok(Heading)
    else if IsCode(block) then Ok(Code)
    else
      var lines := Lines(block);
      var quoted :- AllQuoted(lines);
      if quoted then Ok(Quote)
      else if forall i :: 0 <= i < |lines| ==> UnorderedItem(lines[i]) then Ok(UnorderedList)
      else if forall i :: 0 <= i < |lines| ==> OrderedItem(i, lines[i]) then Ok(OrderedList)
      else Ok(Paragraph)
  }

  /** `block_to_block_type` as the source runs it: the ordered-list test is a
      flag cleared by a loop over the numbered lines. */
  method BlockToBlockType(block: string) returns (r: Result<BlockKind, Error>)
    ensures r == BlockType(block)
  {
    if IsHeading(block) {
      return Ok(Heading);
    }
    if IsCode(block) {
      return Ok(Code);
    }
    var lines := Lines(block);
    var quoted := AllQuoted(lines);
    if quoted.Err? {
      return Err(quoted.error);
    }
    if quoted.value {
      return Ok(Quote);
    }
    if forall i :: 0 <= i < |lines| ==> UnorderedItem(lines[i]) {
      return Ok(UnorderedList);
    }
    var ordered := IsOrderedList(lines);
    r := if ordered then Ok(OrderedList) else Ok(Paragraph);
  }

  /** The loop in `block_to_block_type` that clears a flag on every line
      not numbered by its position. */
  method IsOrderedList(lines: seq<string>) returns (ordered: bool)
    ensures ordered <==> forall i :: 0 <= i < |lines| ==> OrderedItem(i, lines[i])
  {
    ordered := true;
    for i := 0 to |lines|
      invariant ordered <==> forall j :: 0 <= j < i ==> OrderedItem(j, lines[j])
    {
      if NatToString(i + 1) + ". " != Take(lines[i], 3) {
        ordered := false;
      }
    }
  }

  // ---------------------------------------------------------------------------
  // What the classification gives
  // ---------------------------------------------------------------------------

  /** The empty block has one empty line, and `x[0]` raises on it. */
  lemma EmptyBlockFails()
    ensures BlockType("") == Err(IndexOutOfRange)
  {
    assert Lines("") == [""];
    assert !HeadingLine("");
  }

  /** A block never raises unless it has an empty line: a non-empty block
      that `markdown_to_blocks` produces always gets a kind. */
  lemma SeparableBlockHasKind(block: string)
    requires block != "" && Separable(block)
    ensures BlockType(block).Ok?
  {
    LinesNonEmpty(block, "");
  }

  /** The lines of a non-empty stripped block with no empty line are all non-empty. */
  lemma {:induction false} LinesNonEmpty(s: string, cur: string)
    requires cur != "" || (|s| > 0 && s[0] != '\n')
    requires |s| > 0 ==> s[|s| - 1] != '\n'
    requires NoBlankLine(s)
    ensures forall i :: 0 <= i < |SplitFrom(s, "\n", cur)| ==> SplitFrom(s, "\n", cur)[i] != ""
    decreases |s|
  {
    if |s| == 0 {
    } else if StartsWith(s, "\n") {
      assert s[0] == '\n';
      assert |s| >= 2 && s[1] != '\n' by {
        assert |s| >= 2;
        assert !OccursAt(s, BlankLine, 0);
        assert s[0..2] != BlankLine;
      }
      NoBlankLineSuffix(s);
      LinesNonEmpty(s[1..], "");
    } else {
      NoBlankLineSuffix(s);
      LinesNonEmpty(s[1..], cur + [s[0]]);
    }
  }

  lemma NoBlankLineSuffix(s: string)
    requires |s| > 0 && NoBlankLine(s)
    ensures NoBlankLine(s[1..])
  {
    SliceAvoids(s, BlankLine, 1, |s|);
    assert s[1..|s|] == s[1..];
  }

  /** The first character of lines joined by newlines is the first line's first character. */
  lemma JoinFirstChar(lines: seq<string>)
    requires |lines| > 0 && lines[0] != ""
    ensures Join(lines, "\n") != "" && Join(lines, "\n")[0] == lines[0][0]
  {
  }

  /** Lines whose first characters rule out every earlier test: no `#`, no backtick, no `>`. */
  lemma PlainStartsPassEarlyTests(lines: seq<string>)
    requires |lines| > 0
    requires forall i :: 0 <= i < |lines| ==> '\n' !in lines[i] && lines[i] != "" && lines[i][0] != '#'
    requires lines[0][0] != '`' && lines[0][0] != '>'
    ensures Lines(Join(lines, "\n")) == lines
    ensures !IsHeading(Join(lines, "\n")) && !IsCode(Join(lines, "\n"))
    ensures AllQuoted(lines) == Ok(false)
  {
    SplitJoinChar(lines, '\n');
    JoinFirstChar(lines);
  }

  /** Lines that all start with `>` make a quote block. */
  lemma QuoteLines(lines: seq<string>)
    requires |lines| > 0
    requires forall i :: 0 <= i < |lines| ==> '\n' !in lines[i] && lines[i] != "" && lines[i][0] == '>'
    ensures BlockType(Join(lines, "\n")) == Ok(Quote)
  {
    var block := Join(lines, "\n");
    SplitJoinChar(lines, '\n');
    JoinFirstChar(lines);
    NoHashNoHeading(block);
    assert !IsCode(block) by {
      assert block[0] == '>';
    }
    assert AllQuoted(Lines(block)) == Ok(true);
  }

  /** A block none of whose lines starts with `#` is not a heading. */
  lemma NoHashNoHeading(block: string)
    requires forall i :: 0 <= i < |Lines(block)| ==> Lines(block)[i] != "" && Lines(block)[i][0] != '#'
    ensures !IsHeading(block)
  {
    forall i | 0 <= i < |Lines(block)|
      ensures !HeadingLine(Lines(block)[i])
    {
      assert Lines(block)[i][0] != '#';
    }
  }

  /** Lines that all start with `* ` or `- ` make an unordered list. */
  lemma UnorderedLines(lines: seq<string>)
    requires |lines| > 0
    requires forall i :: 0 <= i < |lines| ==> '\n' !in lines[i] && UnorderedItem(lines[i])
    ensures BlockType(Join(lines, "\n")) == Ok(UnorderedList)
  {
    forall i | 0 <= i < |lines|
      ensures lines[i] != "" && lines[i][0] != '#'
    {
      assert Take(lines[i], 2)[0] == lines[i][0];
    }
    assert Take(lines[0], 2)[0] == lines[0][0];
    PlainStartsPassEarlyTests(lines);
  }

  /** The line `f"{i+1}. {item}"`. */
  function Numbered(i: nat, item: string): string {
    NatToString(i + 1) + ". " + item
  }

  /** Items numbered `1. ` to `9. ` in order make an ordered list. */
  lemma NumberedLines(items: seq<string>)
    requires 0 < |items| <= 9
    requires forall i :: 0 <= i < |items| ==> '\n' !in items[i]
    ensures BlockType(Join(seq(|items|, i requires 0 <= i < |items| => Numbered(i, items[i])), "\n")) == Ok(OrderedList)
  {
    var lines := seq(|items|, i requires 0 <= i < |items| => Numbered(i, items[i]));
    forall i | 0 <= i < |lines|
      ensures '\n' !in lines[i] && lines[i] != "" && lines[i][0] != '#' && lines[i][0] != '*' && lines[i][0] != '-'
      ensures OrderedItem(i, lines[i])
    {
      var d := NatToString(i + 1);
      assert |d| == 1;
      assert lines[i] == d + ". " + items[i];
      assert lines[i][0] == d[0];
      assert Take(lines[i], 3) == d + ". ";
    }
    assert Take(lines[0], 2)[0] == lines[0][0];
    PlainStartsPassEarlyTests(lines);
  }

  /** From the tenth line on, `f"{i+1}. "` has four characters and `x[:3]` only
      three, so a block of ten or more lines is never an ordered list. */
  lemma TenLinesNeverOrdered(block: string)
    requires |Lines(block)| >= 10
    ensures BlockType(block) != Ok(OrderedList)
  {
    assert !OrderedItem(9, Lines(block)[9]);
  }

  /** Plain lines that are neither all bullet items nor all correctly numbered
      items make a paragraph. */
  lemma MixedLinesAreParagraph(lines: seq<string>, u: nat, o: nat)
    requires |lines| > 0
    requires forall i :: 0 <= i < |lines| ==> '\n' !in lines[i] && lines[i] != "" && lines[i][0] != '#'
    requires lines[0][0] != '`' && lines[0][0] != '>'
    requires u < |lines| && !UnorderedItem(lines[u])
    requires o < |lines| && !OrderedItem(o, lines[o])
    ensures BlockType(Join(lines, "\n")) == Ok(Paragraph)
  {
    PlainStartsPassEarlyTests(lines);
  }

  /** A number that skips one breaks the ordered list: the block is a paragraph. */
  lemma SkippedNumberIsParagraph()
    ensures BlockType("1. a\n3. b") == Ok(Paragraph)
  {
    var lines := ["1. a", "3. b"];
    assert Join(lines, "\n") == "1. a\n3. b";
    assert !UnorderedItem(lines[0]) by {
      assert Take(lines[0], 2)[0] == '1';
    }
    assert !OrderedItem(1, lines[1]) by {
      assert NatToString(2) == "2";
      assert Take(lines[1], 3)[0] == '3';
    }
    MixedLinesAreParagraph(lines, 0, 1);
  }

  /** Seven `#` are too many for a heading: the line is a paragraph. */
  lemma SevenHashesIsParagraph(text: string)
    requires '\n' !in text
    ensures BlockType("####### " + text) == Ok(Paragraph)
  {
    var line := "####### " + text;
    assert '\n' !in line by {
      assert forall j :: 0 <= j < 8 ==> line[j] != '\n';
    }
    CountWithout(line, "\n");
    assert Lines(line) == [line];
    assert forall k :: 1 <= k <= 6 ==> line[k] == '#';
    assert !HeadingLine(line);
    assert !IsCode(line) by {
      assert line[..3][0] == '#';
    }
    assert AllQuoted([line]) == Ok(false);
    assert !UnorderedItem(line) by {
      assert Take(line, 2)[1] == '#';
    }
    assert !OrderedItem(0, line) by {
      assert Take(line, 3)[0] == '#';
    }
  }

  /** The heading test looks at every line: a `# ` line after a paragraph line
      makes the whole block a heading. */
  lemma HeadingOnLaterLine(first: string, title: string)
    requires '\n' !in first && '\n' !in title
    ensures BlockType(first + "\n# " + title) == Ok(Heading)
  {
    var lines := [first, "# " + title];
    var block := first + "\n# " + title;
    assert '\n' !in lines[1] by {
      assert forall j :: 0 <= j < 2 ==> lines[1][j] != '\n';
    }
    SplitJoinChar(lines, '\n');
    assert Join(lines, "\n") == block;
    assert Lines(block)[1] == "# " + title;
    assert HeadingLine(Lines(block)[1]) by {
      assert lines[1][1] == ' ' && lines[1][0] == '#';
    }
  }

  /** One line of plain text that starts none of the other kinds is a paragraph. */
  lemma PlainLineIsParagraph(line: string)
    requires line != "" && '\n' !in line
    requires line[0] != '#' && line[0] != '`' && line[0] != '>' && line[0] != '*' && line[0] != '-'
    requires !('0' <= line[0] <= '9')
    ensures BlockType(line) == Ok(Paragraph)
  {
    PlainStartsPassEarlyTests([line]);
    assert Join([line], "\n") == line;
    assert !UnorderedItem(line) by {
      assert Take(line, 2)[0] == line[0];
    }
    assert !OrderedItem(0, line) by {
      assert Take(line, 3)[0] == line[0];
      assert NatToString(1) == "1";
    }
  }
}
