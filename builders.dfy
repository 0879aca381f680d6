/** The block builders of the Markdown pipeline and its two entry points:
    `markdown_to_html_node` turns a document into one `div` node and
    `extract_title` finds the document's title. */
module Builders {
  import opened Wrappers
  import opened Errors
  import opened Strings
  import opened HtmlNode
  import opened TextNodes
  import opened Scanner
  import opened Inline
  import Blocks

  /** `list(map(text_node_to_html_node, nodes))`. */
  function HtmlNodes(nodes: seq<TextNode>): (hs: seq<Node>)
    ensures |hs| == |nodes|
    ensures forall i :: 0 <= i < |nodes| ==> hs[i] == TextNodeToHtml(nodes[i])
  {
    seq(|nodes|, i requires 0 <= i < |nodes| => TextNodeToHtml(nodes[i]))
  }

  // ---------------------------------------------------------------------------
  // _heading_to_html_node
  // ---------------------------------------------------------------------------

  /** `block.lstrip("# ")`. */
  function HeadingText(block: string): string {
    LStrip(block, {'#', ' '})
  }

  /** `len(block) - len(heading_text) - 1`: how many `#` and spaces lead the
      block, less one. */
  function HeadingLevel(block: string): int {
    |block| - |HeadingText(block)| - 1
  }

  function HeadingTag(block: string): string {
    "h" + IntToString(HeadingLevel(block))
  }

  /** `_heading_to_html_node`: one leaf holding the stripped text when the
      tokenizer finds a single node, else a parent of the nodes' HTML. */
  function HeadingToHtml(block: string): (r: Result<Node, Error>)
    ensures r.Err? <==> TextToTextNodes(HeadingText(block)).Err?
    ensures r.Ok? ==> r.value.tag == Some(HeadingTag(block)) && r.value.props == []
  {
    var text := HeadingText(block);
    var tag := HeadingTag(block);
    var nodes :- TextToTextNodes(text);
    if |nodes| == 1 then Ok(Leaf(Some(tag), text, []))
    else Ok(Parent(Some(tag), HtmlNodes(nodes), []))
  }

  /** `"#" * k`. */
  function Hashes(k: nat): (h: string)
    ensures |h| == k && forall i :: 0 <= i < k ==> h[i] == '#'
  {
    seq(k, _ => '#')
  }

  /** `k` hashes and a space in front of the text give level `k`. */
  lemma HeadingLevelOfHashes(k: nat, text: string)
    requires text != "" && text[0] != '#' && text[0] != ' '
    ensures HeadingText(Hashes(k) + " " + text) == text
    ensures HeadingLevel(Hashes(k) + " " + text) == k
  {
    var prefix := Hashes(k) + " ";
    assert Hashes(k) + " " + text == prefix + text;
    LStripPrefix(prefix, text, {'#', ' '});
  }

  /** A heading with plain text is a leaf `h1` to `h6` holding the text. */
  lemma PlainHeading(k: nat, title: string)
    requires 1 <= k <= 6
    requires title != "" && title[0] != '#' && title[0] != ' '
    requires '*' !in title && '`' !in title && '[' !in title
    ensures HeadingToHtml(Hashes(k) + " " + title) == Ok(Leaf(Some("h" + NatToString(k)), title, []))
  {
    var block := Hashes(k) + " " + title;
    HeadingLevelOfHashes(k, title);
    assert HeadingTag(block) == "h" + NatToString(k);
    PlainTextIsOneNode(title);
  }

  /** A leaf with a tag, a value and no attributes renders as the value between
      the opening and the closing tag. */
  lemma TaggedLeaf(tag: string, value: string)
    requires tag != "" && value != ""
    ensures Render(Leaf(Some(tag), value, [])) == Ok(OpenTag(tag, []) + value + CloseTag(tag))
  {
  }

  /** A parent with one child and no attributes wraps the child's HTML in its tag. */
  lemma WrappedChild(tag: string, child: Node, out: string)
    requires tag != "" && Render(child) == Ok(out)
    ensures Render(Parent(Some(tag), [child], [])) == Ok(OpenTag(tag, []) + out + CloseTag(tag))
  {
    assert [child][..0] == [];
    assert RenderAll([child]) == Ok("" + out);
    assert "" + out == out;
  }

  /** The opening tag without attributes. */
  lemma BareOpenTag(tag: string)
    ensures OpenTag(tag, []) == "<" + tag + ">"
  {
    assert PropsText([]) == "";
    assert tag + "" == tag;
  }

  /** `lstrip("# ")` also eats the spaces after the hashes, and each one
      raises the level: `#  x` is an `h2`. */
  lemma ExtraSpaceRaisesLevel(text: string)
    requires text != "" && text[0] != '#' && text[0] != ' '
    ensures HeadingLevel("#  " + text) == 2
  {
    var prefix := "#  ";
    assert forall i :: 0 <= i < |prefix| ==> prefix[i] in {'#', ' '};
    LStripPrefix(prefix, text, {'#', ' '});
    assert |prefix + text| == 3 + |text|;
  }

  /** A block classified as a heading for a `# ` line after its first line
      gets level -1: nothing at its start is stripped. */
  lemma HeadingAfterTextHasLevelMinusOne(first: string, title: string)
    requires first != "" && first[0] != '#' && first[0] != ' '
    ensures HeadingTag(first + "\n# " + title) == "h-1"
  {
    var block := first + "\n# " + title;
    assert block[0] == first[0];
    UnstrippedLevel(block);
    MinusOne();
  }

  /** A block that starts with neither `#` nor a space loses nothing to the strip. */
  lemma UnstrippedLevel(block: string)
    requires block != "" && block[0] != '#' && block[0] != ' '
    ensures HeadingLevel(block) == -1
  {
    assert HeadingText(block) == block;
  }

  lemma MinusOne()
    ensures IntToString(-1) == "-1"
  {
    assert DigitChar(1) == '1';
    assert NatToString(1) == "1";
  }

  /** When the tokenizer finds one node, the leaf holds the raw text with its
      markup: a heading that is one link keeps the `[alt](url)` text. */
  lemma LoneLinkHeadingKeepsMarkup(alt: string, url: string)
    requires alt != "" && Clean(alt, url)
    requires '*' !in alt + url && '`' !in alt + url && '!' !in alt + url
    ensures HeadingToHtml("# " + Markup(LinkMarker, alt, url))
         == Ok(Leaf(Some("h1"), Markup(LinkMarker, alt, url), []))
  {
    var text := Markup(LinkMarker, alt, url);
    assert text == "[" + alt + "](" + url + ")" by {
      assert LinkMarker.Opener() == "[";
    }
    var block := "# " + text;
    assert Hashes(1) + " " + text == block;
    HeadingLevelOfHashes(1, text);
    assert DigitChar(1) == '1';
    assert NatToString(1) == "1";
    assert HeadingTag(block) == "h1";
    LoneLinkIsOneNode(alt, url);
    assert TextToTextNodes(HeadingText(block)) == Ok([TextNode(alt, Link, Some(url))]);
  }

  // ---------------------------------------------------------------------------
  // _code_to_html_node
  // ---------------------------------------------------------------------------

  /** `block.strip("`").strip()`. */
  function CodeText(block: string): (t: string)
    ensures Blocks.Stripped(t)
  {
    Strip(StripChars(block, {'`'}))
  }

  /** `_code_to_html_node`: the code text in a `code` leaf inside a `pre`. */
  function CodeToHtml(block: string): (n: Node)
    ensures n.Parent? && n.tag == Some("pre") && |n.children| == 1
    ensures n.children[0] == Leaf(Some("code"), CodeText(block), [])
  {
    Parent(Some("pre"), [Leaf(Some("code"), CodeText(block), [])], [])
  }

  /** A fenced block renders as its body inside `<pre><code>`; the fences and
      the newlines next to them are gone (a language name after the opening
      fence stays in the body). */
  lemma FencedCode(body: string)
    requires body != "" && Blocks.Stripped(body)
    requires body[0] != '`' && body[|body| - 1] != '`'
    ensures CodeText("```\n" + body + "\n```") == body
    ensures Render(CodeToHtml("```\n" + body + "\n```")) == Ok("<pre>" + ("<code>" + body + "</code>") + "</pre>")
  {
    FencesStripped(body);
    NewlinesStripped(body);
    CodeRendered(body);
  }

  /** A `pre` around a `code` leaf renders as both tags around the code. */
  lemma CodeRendered(body: string)
    requires body != ""
    ensures Render(Parent(Some("pre"), [Leaf(Some("code"), body, [])], []))
         == Ok("<pre>" + ("<code>" + body + "</code>") + "</pre>")
  {
    var code := Leaf(Some("code"), body, []);
    TaggedLeaf("code", body);
    BareOpenTag("code");
    assert "<" + "code" + ">" == "<code>";
    assert "</" + "code" + ">" == "</code>";
    assert Render(code) == Ok("<code>" + body + "</code>");
    WrappedChild("pre", code, "<code>" + body + "</code>");
    BareOpenTag("pre");
    assert "<" + "pre" + ">" == "<pre>";
    assert "</" + "pre" + ">" == "</pre>";
  }

  /** Stripping the backticks leaves the newlines inside the fences. */
  lemma FencesStripped(body: string)
    requires body != ""
    ensures StripChars("```\n" + body + "\n```", {'`'}) == "\n" + body + "\n"
  {
    var fence := "```";
    var inner := "\n" + body + "\n";
    assert forall i :: 0 <= i < |fence| ==> fence[i] in {'`'};
    assert "```\n" + body + "\n```" == fence + (inner + fence);
    LStripPrefix(fence, inner + fence, {'`'});
    RStripSuffix(inner, fence, {'`'});
  }

  /** Stripping whitespace removes the newlines around a stripped body. */
  lemma NewlinesStripped(body: string)
    requires body != "" && Blocks.Stripped(body)
    ensures Strip("\n" + body + "\n") == body
  {
    assert '\n' in Whitespace;
    assert "\n" + body + "\n" == "\n" + (body + "\n");
    LStripPrefix("\n", body + "\n", Whitespace);
    RStripSuffix(body, "\n", Whitespace);
  }

  // ---------------------------------------------------------------------------
  // _quote_to_html_node
  // ---------------------------------------------------------------------------

  /** `block.replace(">", "").replace("\n ", " ").strip()`. */
  function QuoteText(block: string): (t: string)
    ensures '>' !in t
  {
    var unmarked := Replace(block, ">", "");
    ReplaceRemovesChar(block, '>', "");
    ReplaceKeepsOut(unmarked, "\n ", " ", '>');
    StripKeepsOut(Replace(unmarked, "\n ", " "), '>');
    Strip(Replace(unmarked, "\n ", " "))
  }

  /** `_quote_to_html_node`: the quote's text, unformatted, in one leaf. */
  function QuoteToHtml(block: string): (n: Node)
    ensures n.Leaf? && n.tag == Some("blockquote") && '>' !in n.leafValue
  {
    Leaf(Some("blockquote"), QuoteText(block), [])
  }

  /** Replacing keeps a character out that neither the text nor the replacement has. */
  lemma ReplaceKeepsOut(s: string, target: string, replacement: string, c: char)
    requires |target| > 0 && c !in s && c !in replacement
    ensures c !in Replace(s, target, replacement)
  {
    SplitFromKeepsOut(s, target, "", c);
    JoinOmitsChar(Split(s, target), replacement, c);
  }

  lemma {:induction false} SplitFromKeepsOut(s: string, sep: string, cur: string, c: char)
    requires |sep| > 0 && c !in s && c !in cur
    ensures forall i :: 0 <= i < |SplitFrom(s, sep, cur)| ==> c !in SplitFrom(s, sep, cur)[i]
    decreases |s|
  {
    if |s| == 0 {
    } else if StartsWith(s, sep) {
      assert c !in s[|sep|..];
      SplitFromKeepsOut(s[|sep|..], sep, "", c);
    } else {
      assert c !in s[1..];
      SplitFromKeepsOut(s[1..], sep, cur + [s[0]], c);
    }
  }

  lemma StripKeepsOut(s: string, c: char)
    requires c !in s
    ensures c !in Strip(s)
  {
    var l := LStrip(s, Whitespace);
    assert l == s[|s| - |l|..];
    var r := RStrip(l, Whitespace);
    assert r == l[..|r|];
  }

  /** One quoted line becomes a blockquote of its text. */
  lemma QuoteLine(text: string)
    requires text != "" && Blocks.Stripped(text) && '>' !in text && '\n' !in text
    ensures QuoteToHtml("> " + text) == Leaf(Some("blockquote"), text, [])
  {
    UnmarkLine(text);
    ReplaceAbsent(" " + text, "\n ", " ");
    StripLeadingSpace(text);
  }

  /** Two quoted lines become one line of text: the `>` go and the line break
      with the space after it becomes a space. */
  lemma QuoteTwoLines(a: string, b: string)
    requires a != "" && b != "" && Blocks.Stripped(a) && Blocks.Stripped(b)
    requires '>' !in a && '>' !in b && '\n' !in a && '\n' !in b
    ensures QuoteToHtml("> " + a + "\n> " + b) == Leaf(Some("blockquote"), a + " " + b, [])
  {
    UnmarkTwoLines(a, b);
    JoinQuotedLines(a, b);
    var joined := a + " " + b;
    assert joined[0] == a[0] && joined[|joined| - 1] == b[|b| - 1];
    StripLeadingSpace(joined);
  }

  /** A replacement whose target cannot start anywhere in the text changes nothing. */
  lemma ReplaceAbsent(s: string, target: string, replacement: string)
    requires |target| > 0 && target[0] !in s
    ensures Replace(s, target, replacement) == s
  {
    CountWithout(s, target);
    SplitWithout(s, target);
  }

  /** `strip()` removes one leading space from a stripped text. */
  lemma StripLeadingSpace(text: string)
    requires text != "" && Blocks.Stripped(text)
    ensures Strip(" " + text) == text
  {
    assert ' ' in Whitespace;
    LStripPrefix(" ", text, Whitespace);
    StripCharsKeeps(text, Whitespace);
  }

  lemma UnmarkLine(text: string)
    requires '>' !in text
    ensures Replace("> " + text, ">", "") == " " + text
  {
    assert "> " + text == "" + ">" + (" " + text);
    SplitAround("", " " + text, ">");
    assert '>' !in " " + text;
    CountWithout(" " + text, ">");
    SplitWithout(" " + text, ">");
    assert Split("> " + text, ">") == ["", " " + text];
    assert Join(["", " " + text], "") == "" + "" + (" " + text);
  }

  lemma UnmarkTwoLines(a: string, b: string)
    requires '>' !in a && '>' !in b
    ensures Replace("> " + a + "\n> " + b, ">", "") == " " + a + "\n " + b
  {
    var x := " " + a + "\n";
    var y := " " + b;
    assert "> " + a + "\n> " + b == "" + ">" + (x + ">" + y);
    SplitAround("", x + ">" + y, ">");
    assert '>' !in x && '>' !in y;
    SplitAround(x, y, ">");
    CountWithout(y, ">");
    SplitWithout(y, ">");
    assert Split("> " + a + "\n> " + b, ">") == ["", x, y];
    assert Join(["", x, y], "") == "" + "" + (x + "" + y);
  }

  lemma JoinQuotedLines(a: string, b: string)
    requires '\n' !in a && '\n' !in b
    ensures Replace(" " + a + "\n " + b, "\n ", " ") == " " + (a + " " + b)
  {
    var x := " " + a;
    assert " " + a + "\n " + b == x + "\n " + b;
    assert '\n' !in x;
    SplitAround(x, b, "\n ");
    CountWithout(b, "\n ");
    SplitWithout(b, "\n ");
    assert Split(x + "\n " + b, "\n ") == [x, b];
    assert Join([x, b], " ") == x + " " + b;
  }

  // ---------------------------------------------------------------------------
  // _unordered_list_to_html_node and _ordered_list_to_html_node
  // ---------------------------------------------------------------------------

  /** A fallible step mapped over a list, first element first: the first
      result goes in front of the rest's, and a failure of either is a
      failure of the whole. */
  lemma MapAllCons<A, B>(f: A -> Result<B, Error>, xs: seq<A>, rest: seq<A>, first: Result<B, Error>,
                         tail: Result<seq<B>, Error>, r: Result<seq<B>, Error>)
    requires |xs| > 0 && rest == xs[1..] && first == f(xs[0])
    requires tail.Ok? ==> |tail.value| == |rest|
    requires tail.Ok? ==> forall i :: 0 <= i < |rest| ==> f(rest[i]) == Ok(tail.value[i])
    requires tail.Err? <==> exists k :: 0 <= k < |rest| && f(rest[k]).Err?
    requires r == if first.Err? then Err(first.error) else if tail.Err? then Err(tail.error) else Ok([first.value] + tail.value)
    ensures r.Ok? ==> |r.value| == |xs|
    ensures r.Ok? ==> forall i :: 0 <= i < |xs| ==> f(xs[i]) == Ok(r.value[i])
    ensures r.Err? <==> exists k :: 0 <= k < |xs| && f(xs[k]).Err?
    ensures r.Err? ==> (first.Err? && r.error == first.error) || (tail.Err? && r.error == tail.error)
  {
    if r.Ok? {
      forall i | 0 <= i < |xs| ensures f(xs[i]) == Ok(r.value[i]) {
        if i > 0 {
          assert xs[i] == rest[i - 1];
        }
      }
    } else if tail.Err? && first.Ok? {
      var k :| 0 <= k < |rest| && f(rest[k]).Err?;
      assert xs[k + 1] == rest[k];
    }
  }

  /** `list(map(text_to_textnodes, texts))`: every text tokenized in order;
      the first failure is what propagates. */
  function TokenizeAll(texts: seq<string>): (r: Result<seq<seq<TextNode>>, Error>)
    ensures r.Ok? ==> |r.value| == |texts|
    ensures r.Ok? ==> forall i :: 0 <= i < |texts| ==> TextToTextNodes(texts[i]) == Ok(r.value[i])
    ensures r.Err? <==> exists k :: 0 <= k < |texts| && TextToTextNodes(texts[k]).Err?
    decreases |texts|
  {
    if |texts| == 0 then Ok([])
    else
      var first := TextToTextNodes(texts[0]);
      var tail := TokenizeAll(texts[1..]);
      var r := if first.Err? then Err(first.error) else if tail.Err? then Err(tail.error) else Ok([first.value] + tail.value);
      MapAllCons(TextToTextNodes, texts, texts[1..], first, tail, r);
      r
  }

  /** The `li` for one tokenized entry: a leaf of the single node's text, or a
      parent of the nodes' HTML. */
  function ListItem(entry: seq<TextNode>): Node {
    if |entry| != 1 then Parent(Some("li"), HtmlNodes(entry), [])
    else Leaf(Some("li"), entry[0].text, [])
  }

  /** `[x[marker:] for x in block.split("\n")]`. */
  function ItemTexts(block: string, marker: nat): (texts: seq<string>)
    ensures |texts| == |Lines(block)|
    ensures forall i :: 0 <= i < |texts| ==> texts[i] == Drop(Lines(block)[i], marker)
  {
    var lines := Lines(block);
    seq(|lines|, i requires 0 <= i < |lines| => Drop(lines[i], marker))
  }

  /** The list node for a block whose items start after `marker` characters:
      one `li` per line, in order. */
  function ListToHtml(block: string, marker: nat, tag: string): (r: Result<Node, Error>)
    ensures r.Err? <==> exists k :: 0 <= k < |Lines(block)| && TextToTextNodes(Drop(Lines(block)[k], marker)).Err?
    ensures r.Ok? ==> r.value.Parent? && r.value.tag == Some(tag) && r.value.props == []
    ensures r.Ok? ==> |r.value.children| == |Lines(block)|
    ensures r.Ok? ==> forall i :: 0 <= i < |Lines(block)| ==>
              r.value.children[i] == ListItem(TextToTextNodes(Drop(Lines(block)[i], marker)).value)
  {
    var entries :- TokenizeAll(ItemTexts(block, marker));
    Ok(Parent(Some(tag), ListItems(entries), []))
  }

  /** One `li` per tokenized entry, in order. */
  function ListItems(entries: seq<seq<TextNode>>): (items: seq<Node>)
    ensures |items| == |entries|
    ensures forall i :: 0 <= i < |entries| ==> items[i] == ListItem(entries[i])
  {
    seq(|entries|, i requires 0 <= i < |entries| => ListItem(entries[i]))
  }

  /** The list builders' loop: one `li` appended per tokenized entry. */
  method ListToHtmlNode(block: string, marker: nat, tag: string) returns (r: Result<Node, Error>)
    ensures r == ListToHtml(block, marker, tag)
  {
    var entries :- TokenizeAll(ItemTexts(block, marker));
    var children := BuildListItems(entries);
    r := Ok(Parent(Some(tag), children, []));
  }

  method BuildListItems(entries: seq<seq<TextNode>>) returns (children: seq<Node>)
    ensures children == ListItems(entries)
  {
    children := [];
    for i := 0 to |entries|
      invariant |children| == i
      invariant forall j :: 0 <= j < i ==> children[j] == ListItem(entries[j])
    {
      children := children + [ListItem(entries[i])];
    }
  }

  /** `_unordered_list_to_html_node`: items follow the two-character marker. */
  method UnorderedListToHtml(block: string) returns (r: Result<Node, Error>)
    ensures r == ListToHtml(block, 2, "ul")
  {
    r := ListToHtmlNode(block, 2, "ul");
  }

  /** `_ordered_list_to_html_node`: items follow the three-character number. */
  method OrderedListToHtml(block: string) returns (r: Result<Node, Error>)
    ensures r == ListToHtml(block, 3, "ol")
  {
    r := ListToHtmlNode(block, 3, "ol");
  }

  /** Plain text that the tokenizer keeps whole. */
  predicate PlainText(t: string) {
    t != "" && '*' !in t && '`' !in t && '[' !in t && '\n' !in t
  }

  /** A list of plain items is a `ul` of one `li` leaf per item, in order. */
  lemma PlainUnorderedList(items: seq<string>)
    requires |items| > 0
    requires forall i :: 0 <= i < |items| ==> PlainText(items[i])
    ensures ListToHtml(Join(seq(|items|, i requires 0 <= i < |items| => "* " + items[i]), "\n"), 2, "ul")
         == Ok(Parent(Some("ul"), seq(|items|, i requires 0 <= i < |items| => Leaf(Some("li"), items[i], [])), []))
  {
    var lines := seq(|items|, i requires 0 <= i < |items| => "* " + items[i]);
    forall i | 0 <= i < |lines|
      ensures '\n' !in lines[i] && Drop(lines[i], 2) == items[i]
    {
      assert lines[i] == "* " + items[i];
      assert lines[i][2..] == items[i];
    }
    PlainItems(lines, items, 2, "ul");
  }

  /** Items numbered `1. ` to `9. ` are an `ol` of one `li` leaf per item, in order. */
  lemma PlainOrderedList(items: seq<string>)
    requires 0 < |items| <= 9
    requires forall i :: 0 <= i < |items| ==> PlainText(items[i])
    ensures ListToHtml(Join(seq(|items|, i requires 0 <= i < |items| => Blocks.Numbered(i, items[i])), "\n"), 3, "ol")
         == Ok(Parent(Some("ol"), seq(|items|, i requires 0 <= i < |items| => Leaf(Some("li"), items[i], [])), []))
  {
    var lines := seq(|items|, i requires 0 <= i < |items| => Blocks.Numbered(i, items[i]));
    forall i | 0 <= i < |lines|
      ensures '\n' !in lines[i] && Drop(lines[i], 3) == items[i]
    {
      var d := NatToString(i + 1);
      assert |d| == 1;
      assert lines[i] == (d + ". ") + items[i];
      assert lines[i][3..] == items[i];
      assert '\n' !in d + ". ";
    }
    PlainItems(lines, items, 3, "ol");
  }

  /** Lines whose items, past the marker, are plain give one `li` leaf each. */
  lemma {:induction false} PlainItems(lines: seq<string>, items: seq<string>, marker: nat, tag: string)
    requires |lines| == |items| > 0
    requires forall i :: 0 <= i < |lines| ==> '\n' !in lines[i] && Drop(lines[i], marker) == items[i]
    requires forall i :: 0 <= i < |items| ==> PlainText(items[i])
    ensures ListToHtml(Join(lines, "\n"), marker, tag)
         == Ok(Parent(Some(tag), seq(|items|, i requires 0 <= i < |items| => Leaf(Some("li"), items[i], [])), []))
  {
    var block := Join(lines, "\n");
    SplitJoinChar(lines, '\n');
    assert Lines(block) == lines;
    assert ItemTexts(block, marker) == items;
    var entries := seq(|items|, i requires 0 <= i < |items| => [TextNode(items[i], Text, None)]);
    PlainTokenized(items, entries);
    PlainListItems(items, entries);
  }

  /** Plain item texts tokenize to one text node each. */
  lemma {:induction false} PlainTokenized(items: seq<string>, entries: seq<seq<TextNode>>)
    requires forall i :: 0 <= i < |items| ==> PlainText(items[i])
    requires entries == seq(|items|, i requires 0 <= i < |items| => [TextNode(items[i], Text, None)])
    ensures TokenizeAll(items) == Ok(entries)
  {
    forall i | 0 <= i < |items|
      ensures TextToTextNodes(items[i]) == Ok(entries[i])
    {
      PlainTextIsOneNode(items[i]);
    }
    var r := TokenizeAll(items);
    assert r.Ok?;
    assert forall i :: 0 <= i < |items| ==> r.value[i] == entries[i];
    assert r.value == entries;
  }

  /** One text node per entry makes one `li` leaf per entry. */
  lemma PlainListItems(items: seq<string>, entries: seq<seq<TextNode>>)
    requires entries == seq(|items|, i requires 0 <= i < |items| => [TextNode(items[i], Text, None)])
    ensures ListItems(entries) == seq(|items|, i requires 0 <= i < |items| => Leaf(Some("li"), items[i], []))
  {
  }

  /** An item with nothing after its marker gets no node from the tokenizer,
      and the empty `li` parent it becomes cannot be rendered. */
  lemma EmptyItemCannotRender()
    ensures ListItem(TextToTextNodes("").value) == Parent(Some("li"), [], [])
    ensures Render(Parent(Some("li"), [], [])) == Err(ParentWithoutChildren)
  {
    EmptyTextHasNoNodes();
  }

  // ---------------------------------------------------------------------------
  // _paragraph_to_html_node
  // ---------------------------------------------------------------------------

  /** `block.strip("\n").strip().replace("\n", " ")`: the paragraph on one line. */
  function ParagraphText(block: string): (t: string)
    ensures '\n' !in t
  {
    ReplaceRemovesChar(Strip(StripChars(block, {'\n'})), '\n', " ");
    Replace(Strip(StripChars(block, {'\n'})), "\n", " ")
  }

  /** `_paragraph_to_html_node`: a lone link or image with a url stands on its
      own; any other single node gives a `p` leaf of the paragraph's text; several
      nodes give a `p` parent of their HTML. */
  function ParagraphToHtml(block: string): (r: Result<Node, Error>)
    ensures r.Err? <==> TextToTextNodes(ParagraphText(block)).Err?
  {
    var text := ParagraphText(block);
    var nodes :- TextToTextNodes(text);
    if |nodes| == 1 then
      var node := nodes[0];
      if node.textType == Link && Truthy(node.url) then Ok(Leaf(Some("a"), node.text, [("href", node.url.value)]))
      else if node.textType == Image && Truthy(node.url) then
        Ok(Leaf(Some("img"), "", [("src", node.url.value), ("alt", node.text)]))
      else Ok(Leaf(Some("p"), text, []))
    else Ok(Parent(Some("p"), HtmlNodes(nodes), []))
  }

  /** Only a paragraph that is one link or one image, with a url, comes out
      without its `p`. */
  lemma UnwrappedParagraph(block: string)
    requires ParagraphToHtml(block).Ok? && ParagraphToHtml(block).value.tag != Some("p")
    ensures |TextToTextNodes(ParagraphText(block)).value| == 1
    ensures TextToTextNodes(ParagraphText(block)).value[0].textType in {Link, Image}
    ensures Truthy(TextToTextNodes(ParagraphText(block)).value[0].url)
    ensures ParagraphToHtml(block).value.Leaf?
  {
    var text := ParagraphText(block);
    UnwrappedNodes(block, text, TextToTextNodes(text).value, ParagraphToHtml(block).value);
  }

  lemma UnwrappedNodes(block: string, text: string, nodes: seq<TextNode>, node: Node)
    requires text == ParagraphText(block) && TextToTextNodes(text) == Ok(nodes)
    requires ParagraphToHtml(block) == Ok(node) && node.tag != Some("p")
    ensures |nodes| == 1 && nodes[0].textType in {Link, Image} && Truthy(nodes[0].url) && node.Leaf?
  {
  }

  /** A plain one-line paragraph is a `p` leaf of its text. */
  lemma PlainParagraph(text: string)
    requires PlainText(text) && Blocks.Stripped(text)
    ensures ParagraphToHtml(text) == Ok(Leaf(Some("p"), text, []))
  {
    OneLineParagraphText(text);
    PlainTextIsOneNode(text);
  }

  /** A stripped line is its own paragraph text. */
  lemma OneLineParagraphText(text: string)
    requires text != "" && '\n' !in text && Blocks.Stripped(text)
    ensures ParagraphText(text) == text
  {
    assert '\n' in Whitespace;
    StripCharsKeeps(text, {'\n'});
    StripCharsKeeps(text, Whitespace);
    ReplaceAbsent(text, "\n", " ");
  }

  /** The lines of a paragraph are joined by spaces. */
  lemma TwoLineParagraph(a: string, b: string)
    requires PlainText(a) && PlainText(b) && Blocks.Stripped(a) && Blocks.Stripped(b)
    ensures ParagraphToHtml(a + "\n" + b) == Ok(Leaf(Some("p"), a + " " + b, []))
  {
    var text := a + " " + b;
    TwoLineParagraphText(a, b);
    assert PlainText(text);
    PlainTextIsOneNode(text);
    OneTextNodeParagraph(a + "\n" + b, text);
  }

  /** A paragraph whose text is one plain node is a `p` leaf of that text. */
  lemma OneTextNodeParagraph(block: string, text: string)
    requires ParagraphText(block) == text
    requires TextToTextNodes(text) == Ok([TextNode(text, Text, None)])
    ensures ParagraphToHtml(block) == Ok(Leaf(Some("p"), text, []))
  {
  }

  /** A paragraph whose text is one link node with a url is an `a` leaf. */
  lemma OneLinkParagraph(block: string, alt: string, url: string)
    requires url != ""
    requires TextToTextNodes(ParagraphText(block)) == Ok([TextNode(alt, Link, Some(url))])
    ensures ParagraphToHtml(block) == Ok(Leaf(Some("a"), alt, [("href", url)]))
  {
  }

  lemma TwoLineParagraphText(a: string, b: string)
    requires a != "" && b != "" && '\n' !in a && '\n' !in b
    requires Blocks.Stripped(a) && Blocks.Stripped(b)
    ensures ParagraphText(a + "\n" + b) == a + " " + b
  {
    var block := a + "\n" + b;
    assert block[0] == a[0] && block[|block| - 1] == b[|b| - 1];
    assert '\n' in Whitespace;
    StripCharsKeeps(block, {'\n'});
    StripCharsKeeps(block, Whitespace);
    SplitAround(a, b, "\n");
    CountWithout(b, "\n");
    SplitWithout(b, "\n");
    assert Split(block, "\n") == [a, b];
    assert Join([a, b], " ") == a + " " + b;
  }

  /** A paragraph that is one link is the link itself, with no `p` around it. */
  lemma LoneLinkParagraph(alt: string, url: string)
    requires alt != "" && url != "" && Clean(alt, url)
    requires '*' !in alt + url && '`' !in alt + url && '!' !in alt + url
    ensures ParagraphToHtml(Markup(LinkMarker, alt, url)) == Ok(Leaf(Some("a"), alt, [("href", url)]))
  {
    var text := Markup(LinkMarker, alt, url);
    assert text == "[" + alt + "](" + url + ")" by {
      assert LinkMarker.Opener() == "[";
    }
    assert text[0] == '[' && text[|text| - 1] == ')';
    assert '\n' !in text;
    OneLineParagraphText(text);
    LoneLinkIsOneNode(alt, url);
    OneLinkParagraph(text, alt, url);
  }

  // ---------------------------------------------------------------------------
  // markdown_to_html_node
  // ---------------------------------------------------------------------------

  /** The builder `block_type_conversion_map` picks for a block's kind. */
  function BlockToHtml(block: string, kind: Blocks.BlockKind): Result<Node, Error> {
    match kind
    case Heading => HeadingToHtml(block)
    case Code => Ok(CodeToHtml(block))
    case Quote => Ok(QuoteToHtml(block))
    case UnorderedList => ListToHtml(block, 2, "ul")
    case OrderedList => ListToHtml(block, 3, "ol")
    case Paragraph => ParagraphToHtml(block)
  }

  /** The list of `(block, block_to_block_type(block))` pairs: every block is
      classified before any is built, and the first failure propagates. */
  function KindsOf(blocks: seq<string>): (r: Result<seq<Blocks.BlockKind>, Error>)
    ensures r.Ok? ==> |r.value| == |blocks|
    ensures r.Ok? ==> forall i :: 0 <= i < |blocks| ==> Blocks.BlockType(blocks[i]) == Ok(r.value[i])
    ensures r.Err? <==> exists k :: 0 <= k < |blocks| && Blocks.BlockType(blocks[k]).Err?
    ensures r.Err? ==> r.error == IndexOutOfRange
    decreases |blocks|
  {
    if |blocks| == 0 then Ok([])
    else
      var first := Blocks.BlockType(blocks[0]);
      var tail := KindsOf(blocks[1..]);
      var r := if first.Err? then Err(first.error) else if tail.Err? then Err(tail.error) else Ok([first.value] + tail.value);
      MapAllCons(Blocks.BlockType, blocks, blocks[1..], first, tail, r);
      r
  }

  /** Every block built by its kind's builder, in order; the first failure propagates. */
  function BuildAll(blocks: seq<string>, kinds: seq<Blocks.BlockKind>): Result<seq<Node>, Error>
    requires |blocks| == |kinds|
    decreases |blocks|
  {
    if |blocks| == 0 then Ok([])
    else
      var first := BlockToHtml(blocks[0], kinds[0]);
      var tail := BuildAll(blocks[1..], kinds[1..]);
      if first.Err? then Err(first.error) else if tail.Err? then Err(tail.error) else Ok([first.value] + tail.value)
  }

  /** The nodes are the builders' results block by block, and the whole fails
      exactly when some block's builder fails. */
  lemma {:induction false} BuildAllSpec(blocks: seq<string>, kinds: seq<Blocks.BlockKind>)
    requires |blocks| == |kinds|
    ensures BuildAll(blocks, kinds).Ok? ==> |BuildAll(blocks, kinds).value| == |blocks|
    ensures BuildAll(blocks, kinds).Ok? ==>
              forall i :: 0 <= i < |blocks| ==> BlockToHtml(blocks[i], kinds[i]) == Ok(BuildAll(blocks, kinds).value[i])
    ensures BuildAll(blocks, kinds).Err? <==> exists k :: 0 <= k < |blocks| && BlockToHtml(blocks[k], kinds[k]).Err?
    decreases |blocks|
  {
    if |blocks| > 0 {
      BuildAllSpec(blocks[1..], kinds[1..]);
      BuildAllCons(blocks, kinds, blocks[1..], kinds[1..], BlockToHtml(blocks[0], kinds[0]),
                   BuildAll(blocks[1..], kinds[1..]), BuildAll(blocks, kinds));
    }
  }

  /** The first block's node goes in front of the rest's; a failure of either
      is a failure of the whole. */
  lemma BuildAllCons(blocks: seq<string>, kinds: seq<Blocks.BlockKind>, restBlocks: seq<string>,
                     restKinds: seq<Blocks.BlockKind>, first: Result<Node, Error>,
                     tail: Result<seq<Node>, Error>, r: Result<seq<Node>, Error>)
    requires |blocks| == |kinds| > 0 && restBlocks == blocks[1..] && restKinds == kinds[1..]
    requires first == BlockToHtml(blocks[0], kinds[0])
    requires tail.Ok? ==> |tail.value| == |restBlocks|
    requires tail.Ok? ==> forall i :: 0 <= i < |restBlocks| ==> BlockToHtml(restBlocks[i], restKinds[i]) == Ok(tail.value[i])
    requires tail.Err? <==> exists k :: 0 <= k < |restBlocks| && BlockToHtml(restBlocks[k], restKinds[k]).Err?
    requires r == if first.Err? then Err(first.error) else if tail.Err? then Err(tail.error) else Ok([first.value] + tail.value)
    ensures r.Ok? ==> |r.value| == |blocks|
    ensures r.Ok? ==> forall i :: 0 <= i < |blocks| ==> BlockToHtml(blocks[i], kinds[i]) == Ok(r.value[i])
    ensures r.Err? <==> exists k :: 0 <= k < |blocks| && BlockToHtml(blocks[k], kinds[k]).Err?
  {
    if r.Ok? {
      forall i | 0 <= i < |blocks| ensures BlockToHtml(blocks[i], kinds[i]) == Ok(r.value[i]) {
        if i > 0 {
          assert blocks[i] == restBlocks[i - 1] && kinds[i] == restKinds[i - 1];
        }
      }
    } else if tail.Err? && first.Ok? {
      var k :| 0 <= k < |restBlocks| && BlockToHtml(restBlocks[k], restKinds[k]).Err?;
      assert blocks[k + 1] == restBlocks[k] && kinds[k + 1] == restKinds[k];
    }
  }

  /** The block has a kind, and the builder for that kind makes `node` from it. */
  predicate BuiltAs(block: string, node: Node) {
    Blocks.BlockType(block).Ok? && BlockToHtml(block, Blocks.BlockType(block).value) == Ok(node)
  }

  /** The block has a kind, and the builder for that kind succeeds on it. */
  predicate Builds(block: string) {
    Blocks.BlockType(block).Ok? && BlockToHtml(block, Blocks.BlockType(block).value).Ok?
  }

  /** `markdown_to_html_node`: a `div` with one child per block, each built
      by the builder for the block's kind. It succeeds exactly when every
      block is classified and built. A document with an empty block fails
      while classifying it. */
  function MarkdownToHtml(document: string): (r: Result<Node, Error>)
    ensures r.Ok? ==> r.value.Parent? && r.value.tag == Some("div") && r.value.props == []
    ensures r.Ok? ==> |r.value.children| == |Blocks.MarkdownToBlocks(document)|
    ensures r.Ok? ==> forall i :: 0 <= i < |r.value.children| ==> BuiltAs(Blocks.MarkdownToBlocks(document)[i], r.value.children[i])
    ensures r.Ok? <==> forall i :: 0 <= i < |Blocks.MarkdownToBlocks(document)| ==> Builds(Blocks.MarkdownToBlocks(document)[i])
    ensures (exists k :: 0 <= k < |Blocks.MarkdownToBlocks(document)| && Blocks.MarkdownToBlocks(document)[k] == "")
            ==> r == Err(IndexOutOfRange)
  {
    var blocks := Blocks.MarkdownToBlocks(document);
    EmptyBlocksFail(blocks);
    var kinds :- KindsOf(blocks);
    BuildAllSpec(blocks, kinds);
    BuildsAll(blocks, kinds);
    var children :- BuildAll(blocks, kinds);
    Ok(Parent(Some("div"), children, []))
  }

  /** Once every block has its kind, building all of them succeeds exactly
      when each block builds. */
  lemma BuildsAll(blocks: seq<string>, kinds: seq<Blocks.BlockKind>)
    requires |kinds| == |blocks|
    requires forall i :: 0 <= i < |blocks| ==> Blocks.BlockType(blocks[i]) == Ok(kinds[i])
    requires BuildAll(blocks, kinds).Err? <==> exists k :: 0 <= k < |blocks| && BlockToHtml(blocks[k], kinds[k]).Err?
    ensures BuildAll(blocks, kinds).Ok? <==> forall i :: 0 <= i < |blocks| ==> Builds(blocks[i])
  {
    if BuildAll(blocks, kinds).Err? {
      var k :| 0 <= k < |blocks| && BlockToHtml(blocks[k], kinds[k]).Err?;
      assert !Builds(blocks[k]);
    }
  }

  /** Any empty block makes classification fail. */
  lemma EmptyBlocksFail(blocks: seq<string>)
    ensures (exists k :: 0 <= k < |blocks| && blocks[k] == "") ==> KindsOf(blocks) == Err(IndexOutOfRange)
  {
    if k :| 0 <= k < |blocks| && blocks[k] == "" {
      Blocks.EmptyBlockFails();
      assert Blocks.BlockType(blocks[k]).Err?;
    }
  }

  /** The empty document is one empty block, and classifying it fails. */
  lemma EmptyDocumentFails()
    ensures MarkdownToHtml("") == Err(IndexOutOfRange)
  {
    assert Blocks.MarkdownToBlocks("")[0] == "";
  }

  /** A document whose blocks are all non-empty gets a kind for every block. */
  lemma NonEmptyBlocksClassify(document: string)
    requires forall i :: 0 <= i < |Blocks.MarkdownToBlocks(document)| ==> Blocks.MarkdownToBlocks(document)[i] != ""
    ensures KindsOf(Blocks.MarkdownToBlocks(document)).Ok?
  {
    var blocks := Blocks.MarkdownToBlocks(document);
    forall i | 0 <= i < |blocks|
      ensures Blocks.BlockType(blocks[i]).Ok?
    {
      Blocks.SeparableBlockHasKind(blocks[i]);
    }
  }

  /** A document of one plain line is a `div` holding one `p`; `ParagraphRendered`
      gives its HTML. */
  lemma PlainLineDocument(text: string)
    requires PlainText(text) && Blocks.Stripped(text) && text[0] != '#' && text[0] != '>'
    requires text[0] != '-' && text[0] != '*' && !('0' <= text[0] <= '9')
    ensures MarkdownToHtml(text) == Ok(Parent(Some("div"), [Leaf(Some("p"), text, [])], []))
  {
    var p := Leaf(Some("p"), text, []);
    LineIsOneBlock(text);
    Blocks.PlainLineIsParagraph(text);
    PlainParagraph(text);
    ParagraphDispatch(text, Blocks.Paragraph);
    OneBlockDocument(text, Blocks.Paragraph, p);
  }

  lemma ParagraphDispatch(block: string, kind: Blocks.BlockKind)
    requires kind == Blocks.Paragraph
    ensures BlockToHtml(block, kind) == ParagraphToHtml(block)
  {
  }

  /** A stripped line without line breaks is a document of one block. */
  lemma LineIsOneBlock(text: string)
    requires '\n' !in text && Blocks.Stripped(text)
    ensures Blocks.MarkdownToBlocks(text) == [text]
  {
    LineIsSeparable(text);
    Blocks.BlocksRoundTrip([text]);
    assert Join([text], Blocks.BlankLine) == text;
  }

  /** A line without line breaks is a block on its own once it is stripped. */
  lemma LineIsSeparable(text: string)
    requires '\n' !in text && Blocks.Stripped(text)
    ensures Blocks.Separable(text)
  {
    forall p: nat ensures !OccursAt(text, Blocks.BlankLine, p) {
      if p + 2 <= |text| {
        assert text[p] != '\n';
      }
    }
  }

  /** A document that is a single block is a `div` of that block's node. */
  lemma OneBlockDocument(document: string, kind: Blocks.BlockKind, node: Node)
    requires Blocks.MarkdownToBlocks(document) == [document]
    requires Blocks.BlockType(document) == Ok(kind)
    requires BlockToHtml(document, kind) == Ok(node)
    ensures MarkdownToHtml(document) == Ok(Parent(Some("div"), [node], []))
  {
    KindsOfOne(document, kind);
    BuildAllOne(document, kind, node);
  }

  lemma KindsOfOne(block: string, kind: Blocks.BlockKind)
    requires Blocks.BlockType(block) == Ok(kind)
    ensures KindsOf([block]) == Ok([kind])
  {
    assert [block][1..] == [];
    assert KindsOf([]) == Ok([]);
    assert [kind] + [] == [kind];
  }

  lemma BuildAllOne(block: string, kind: Blocks.BlockKind, node: Node)
    requires BlockToHtml(block, kind) == Ok(node)
    ensures BuildAll([block], [kind]) == Ok([node])
  {
    BuildAllSpec([block], [kind]);
    var r := BuildAll([block], [kind]);
    assert [block][0] == block && [kind][0] == kind;
    assert r.Ok?;
    assert r.value == [node];
  }

  /** The `div` of one `p` renders as `<div><p>…</p></div>`. */
  lemma ParagraphRendered(text: string)
    requires text != ""
    ensures Render(Parent(Some("div"), [Leaf(Some("p"), text, [])], [])) == Ok("<div>" + ("<p>" + text + "</p>") + "</div>")
  {
    var p := Leaf(Some("p"), text, []);
    TaggedLeaf("p", text);
    BareOpenTag("p");
    assert "<" + "p" + ">" == "<p>";
    assert "</" + "p" + ">" == "</p>";
    assert Render(p) == Ok("<p>" + text + "</p>");
    WrappedChild("div", p, "<p>" + text + "</p>");
    BareOpenTag("div");
    assert "<" + "div" + ">" == "<div>";
    assert "</" + "div" + ">" == "</div>";
  }

  // ---------------------------------------------------------------------------
  // extract_title
  // ---------------------------------------------------------------------------

  /** `re.search(r"(?<!.)(# )", block)`: some line of the block starts with `# `. */
  predicate TitleBlock(block: string) {
    TitleLines(Lines(block))
  }

  predicate TitleLines(lines: seq<string>) {
    exists i :: 0 <= i < |lines| && StartsWith(lines[i], "# ")
  }

  /** The index of the first title block. */
  function FirstTitle(blocks: seq<string>): (r: Option<nat>)
    ensures r.Some? ==> r.value < |blocks| && TitleBlock(blocks[r.value])
    ensures r.Some? ==> forall j :: 0 <= j < r.value ==> !TitleBlock(blocks[j])
    ensures r.None? <==> forall j :: 0 <= j < |blocks| ==> !TitleBlock(blocks[j])
    decreases |blocks|
  {
    if |blocks| == 0 then None
    else if TitleBlock(blocks[0]) then Some(0)
    else
      match FirstTitle(blocks[1..])
      case None => None
      case Some(k) => Some(k + 1)
  }

  /** Block `k` is a title block and no block before it is one. */
  predicate FirstTitleAt(blocks: seq<string>, k: int) {
    0 <= k < |blocks| && TitleBlock(blocks[k]) && forall j :: 0 <= j < k ==> !TitleBlock(blocks[j])
  }

  /** `extract_title`: the first title block less its first two characters,
      or `MarkdownFormattingError` when no block has a `# ` line. */
  function Title(document: string): (r: Result<string, Error>)
    ensures r.Err? <==> forall j :: 0 <= j < |Blocks.MarkdownToBlocks(document)| ==> !TitleBlock(Blocks.MarkdownToBlocks(document)[j])
    ensures r.Err? ==> r.error == NoTitle(document)
    ensures r.Ok? ==>
      exists k :: FirstTitleAt(Blocks.MarkdownToBlocks(document), k) && r.value == Drop(Blocks.MarkdownToBlocks(document)[k], 2)
  {
    var blocks := Blocks.MarkdownToBlocks(document);
    match FirstTitle(blocks)
    case None => Err(NoTitle(document))
    case Some(k) => Ok(Drop(blocks[k], 2))
  }

  /** `extract_title` as the source runs it: a loop over the blocks that
      returns at the first title block. */
  method ExtractTitle(document: string) returns (r: Result<string, Error>)
    ensures r == Title(document)
  {
    var blocks := Blocks.MarkdownToBlocks(document);
    var found := FindTitle(blocks);
    if found.Some? {
      return Ok(Drop(blocks[found.value], 2));
    }
    return Err(NoTitle(document));
  }

  /** The loop of `extract_title`: the blocks in order until one is a title block. */
  method FindTitle(blocks: seq<string>) returns (found: Option<nat>)
    ensures found == FirstTitle(blocks)
  {
    for i := 0 to |blocks|
      invariant forall j :: 0 <= j < i ==> !TitleBlock(blocks[j])
    {
      if TitleBlock(blocks[i]) {
        FirstTitleIs(blocks, i);
        return Some(i);
      }
    }
    NoFirstTitle(blocks);
    return None;
  }

  /** Without a title block there is no first one. */
  lemma NoFirstTitle(blocks: seq<string>)
    requires forall j :: 0 <= j < |blocks| ==> !TitleBlock(blocks[j])
    ensures FirstTitle(blocks) == None
  {
  }

  /** The title comes from the first title block. */
  lemma TitleIs(document: string, k: nat)
    requires FirstTitleAt(Blocks.MarkdownToBlocks(document), k)
    ensures Title(document) == Ok(Drop(Blocks.MarkdownToBlocks(document)[k], 2))
  {
    FirstTitleIs(Blocks.MarkdownToBlocks(document), k);
  }

  /** Without a title block there is no title. */
  lemma NoTitleIs(document: string)
    requires forall j :: 0 <= j < |Blocks.MarkdownToBlocks(document)| ==> !TitleBlock(Blocks.MarkdownToBlocks(document)[j])
    ensures Title(document) == Err(NoTitle(document))
  {
  }

  /** The first title block is the one no earlier block precedes. */
  lemma {:induction false} FirstTitleIs(blocks: seq<string>, k: nat)
    requires k < |blocks| && TitleBlock(blocks[k])
    requires forall j :: 0 <= j < k ==> !TitleBlock(blocks[j])
    ensures FirstTitle(blocks) == Some(k)
    decreases k
  {
    if k > 0 {
      var rest := blocks[1..];
      assert rest[k - 1] == blocks[k];
      assert forall j :: 0 <= j < k - 1 ==> rest[j] == blocks[j + 1];
      FirstTitleIs(rest, k - 1);
      assert !TitleBlock(blocks[0]);
    }
  }

  /** A document opening with a `# ` heading has that heading's text as its title. */
  lemma TitleOfHeadedDocument(title: string, body: string)
    requires '\n' !in title && Blocks.Separable("# " + title) && Blocks.Separable(body)
    ensures Title("# " + title + "\n\n" + body) == Ok(title)
  {
    var blocks := ["# " + title, body];
    Blocks.BlocksRoundTrip(blocks);
    assert Join(blocks, Blocks.BlankLine) == "# " + title + "\n\n" + body;
    assert '\n' !in "# " + title;
    CountWithout("# " + title, "\n");
    assert Lines(blocks[0]) == [blocks[0]];
    assert TitleBlock(blocks[0]);
    assert FirstTitle(blocks) == Some(0);
  }

  /** The title line need not be the block's first line, but the slice always
      starts two characters into the block: the first line loses its start and
      the title keeps its `# `. */
  lemma TitleOnSecondLine(first: string, title: string)
    requires |first| >= 2 && '\n' !in first && '\n' !in title
    requires Blocks.Separable(first + "\n# " + title)
    ensures Title(first + "\n# " + title) == Ok(first[2..] + "\n# " + title)
  {
    var block := first + "\n# " + title;
    Blocks.BlocksRoundTrip([block]);
    assert Join([block], Blocks.BlankLine) == block;
    SecondLineTitleBlock(first, title);
    TitleIs(block, 0);
    assert block[2..] == first[2..] + "\n# " + title;
  }

  lemma SecondLineTitleBlock(first: string, title: string)
    requires '\n' !in first && '\n' !in title
    ensures TitleBlock(first + "\n# " + title)
  {
    var block := first + "\n# " + title;
    var lines := [first, "# " + title];
    assert '\n' !in lines[1] by {
      assert forall j :: 0 <= j < 2 ==> lines[1][j] != '\n';
    }
    SplitJoinChar(lines, '\n');
    assert Join(lines, "\n") == block;
    assert StartsWith(Lines(block)[1], "# ");
  }

  /** A document without any `#` has no title. */
  lemma NoHashNoTitle(document: string)
    requires '#' !in document
    ensures Title(document) == Err(NoTitle(document))
  {
    var blocks := Blocks.MarkdownToBlocks(document);
    forall j | 0 <= j < |blocks|
      ensures !TitleBlock(blocks[j])
    {
      BlockOmitsChar(document, j, '#');
      LinesOmitChar(blocks[j], '#');
      forall i | 0 <= i < |Lines(blocks[j])|
        ensures !StartsWith(Lines(blocks[j])[i], "# ")
      {
        var line := Lines(blocks[j])[i];
        if |line| >= 2 {
          assert line[..2][0] == line[0];
          assert line[0] in line;
        }
      }
    }
    NoTitleIs(document);
  }

  /** A character the document does not hold is in none of its blocks. */
  lemma BlockOmitsChar(document: string, j: nat, c: char)
    requires c !in document && j < |Blocks.MarkdownToBlocks(document)|
    ensures c !in Blocks.MarkdownToBlocks(document)[j]
  {
    SplitFromKeepsOut(document, Blocks.BlankLine, "", c);
    StripKeepsOut(Split(document, Blocks.BlankLine)[j], c);
  }

  /** A character a block does not hold starts none of its lines. */
  lemma LinesOmitChar(block: string, c: char)
    requires c !in block
    ensures forall i :: 0 <= i < |Lines(block)| ==> c !in Lines(block)[i]
  {
    SplitFromKeepsOut(block, "\n", "", c);
  }
}
