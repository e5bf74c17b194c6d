/** The OPML feed manager (opml-editor/js/app.js): feeds are read from the
    `outline` elements of an OPML document, selected and deselected,
    filtered by a search term, removed, and written back as an OPML 2.0
    document.

    A parsed document is given as the sequence of its `outline` elements in
    document order, each as the map of its attributes; the XML parser itself
    is not modelled. An absent attribute and an empty one read alike
    (`Attribute` gives ""), as every use in the source only tests the value
    for truth. */
module OpmlEditor {
  import opened Text
  import opened Wrappers

  type Outline = map<string, string>

  const InvalidFileMessage := "Please select an OPML or XML file"
  const LoadedMessage := "OPML file loaded successfully!"
  const ParseErrorPrefix := "Error parsing OPML file: "
  const InvalidXmlMessage := "Invalid XML format"
  const NoFeedsMessage := "No valid feeds found in OPML file"
  const NothingToRemoveMessage := "No feeds selected for removal"
  const NothingToExportMessage := "No feeds selected for export"
  const UntitledFeed := "Untitled Feed"

  /** `outline.getAttribute(name)`, with a missing attribute read as "". */
  function Attribute(o: Outline, name: string): string
  {
    if name in o then o[name] else ""
  }

  /** JavaScript `a || b` on strings. */
  function Or(a: string, b: string): string
  {
    if a != [] then a else b
  }

  // ---------------------------------------------------------------------
  // the file-name check of `handleFile`

  /** The lower-cased name ends with `.opml` or `.xml`. */
  predicate IsOpmlFileName(name: string)
  {
    EndsWith(Lower(name), ".opml") || EndsWith(Lower(name), ".xml")
  }

  /** The extension check ignores case: any stem followed by any casing of
      `.opml` or `.xml` is accepted. */
  lemma AcceptedExtension(stem: string, ext: string)
    requires Lower(ext) == ".opml" || Lower(ext) == ".xml"
    ensures IsOpmlFileName(stem + ext)
  {
    var l := Lower(stem + ext);
    assert l[|l| - |ext|..] == Lower(ext) by {
      forall k | 0 <= k < |ext| ensures l[|l| - |ext| + k] == Lower(ext)[k] {
        assert (stem + ext)[|stem| + k] == ext[k];
      }
    }
  }

  /** A name shorter than four characters cannot end with either extension
      and is refused, whatever it holds. */
  lemma ShortNameRefused(name: string)
    requires |name| < 4
    ensures !IsOpmlFileName(name)
  {
  }

  // ---------------------------------------------------------------------
  // escaping

  /** The replacement `escapeXml` makes for one character. */
  function EscapeChar(c: char): (r: string)
    ensures |r| >= 1
  {
    match c
    case '<' => "&lt;"
    case '>' => "&gt;"
    case '&' => "&amp;"
    case '\'' => "&apos;"
    case '"' => "&quot;"
    case _ => [c]
  }

  /** `escapeXml`: each of `< > & ' "` becomes its predefined entity. */
  function EscapeXml(s: string): (r: string)
    ensures |r| >= |s|
  {
    if s == [] then [] else EscapeChar(s[0]) + EscapeXml(s[1..])
  }

  /** Reading the five predefined entities of XML 1.0 back into the
      characters they stand for, as an XML parser does in an attribute value;
      any other character stands for itself. */
  function UnescapeXml(s: string): string
    decreases |s|
  {
    if s == [] then []
    else if s[0] != '&' then [s[0]] + UnescapeXml(s[1..])
    else if StartsWith(s, "&lt;") then "<" + UnescapeXml(s[4..])
    else if StartsWith(s, "&gt;") then ">" + UnescapeXml(s[4..])
    else if StartsWith(s, "&amp;") then "&" + UnescapeXml(s[5..])
    else if StartsWith(s, "&apos;") then "'" + UnescapeXml(s[6..])
    else if StartsWith(s, "&quot;") then "\"" + UnescapeXml(s[6..])
    else "&" + UnescapeXml(s[1..])
  }

  lemma UnescapeLt(rest: string)
    ensures UnescapeXml("&lt;" + rest) == "<" + UnescapeXml(rest)
  {
    var s := "&lt;" + rest;
    assert s[..4] == "&lt;" && s[4..] == rest;
  }

  lemma UnescapeGt(rest: string)
    ensures UnescapeXml("&gt;" + rest) == ">" + UnescapeXml(rest)
  {
    var s := "&gt;" + rest;
    assert s[..4] == "&gt;" && s[4..] == rest;
    assert s[1] == 'g';
  }

  lemma UnescapeAmp(rest: string)
    ensures UnescapeXml("&amp;" + rest) == "&" + UnescapeXml(rest)
  {
    var s := "&amp;" + rest;
    assert s[..5] == "&amp;" && s[5..] == rest;
    assert s[1] == 'a';
  }

  lemma UnescapeApos(rest: string)
    ensures UnescapeXml("&apos;" + rest) == "'" + UnescapeXml(rest)
  {
    var s := "&apos;" + rest;
    assert s[..6] == "&apos;" && s[6..] == rest;
    assert s[1] == 'a' && s[2] == 'p';
  }

  lemma UnescapeQuot(rest: string)
    ensures UnescapeXml("&quot;" + rest) == "\"" + UnescapeXml(rest)
  {
    var s := "&quot;" + rest;
    assert s[..6] == "&quot;" && s[6..] == rest;
    assert s[1] == 'q';
  }

  lemma UnescapeEscapeChar(c: char, rest: string)
    ensures UnescapeXml(EscapeChar(c) + rest) == [c] + UnescapeXml(rest)
  {
    if c == '<' {
      UnescapeLt(rest);
    } else if c == '>' {
      UnescapeGt(rest);
    } else if c == '&' {
      UnescapeAmp(rest);
    } else if c == '\'' {
      UnescapeApos(rest);
    } else if c == '"' {
      UnescapeQuot(rest);
    } else {
      assert ([c] + rest)[1..] == rest;
    }
  }

  /** Escaping loses nothing: the XML reading of an escaped value is the value. */
  lemma {:induction false} UnescapeEscape(s: string)
    ensures UnescapeXml(EscapeXml(s)) == s
  {
    if s != [] {
      UnescapeEscape(s[1..]);
      UnescapeEscapeChar(s[0], EscapeXml(s[1..]));
      assert s == [s[0]] + s[1..];
    }
  }

  /** The markup characters: those that would end an attribute value or
      start a tag. */
  predicate IsMarkup(x: char)
  {
    x == '<' || x == '>' || x == '"' || x == '\''
  }

  lemma EscapeCharLacksMarkup(c: char, x: char)
    requires IsMarkup(x)
    ensures x !in EscapeChar(c)
  {
  }

  /** No markup character survives escaping, so an escaped value cannot end
      the attribute it is written into. */
  lemma {:induction false} EscapedHasNoMarkup(s: string, x: char)
    requires IsMarkup(x)
    ensures x !in EscapeXml(s)
  {
    if s != [] {
      EscapedHasNoMarkup(s[1..], x);
      EscapeCharLacksMarkup(s[0], x);
    }
  }

  /** A character that is in neither the value nor any entity is not in the
      escaped value either. */
  lemma {:induction false} EscapeKeepsAbsent(s: string, c: char)
    requires c !in s && c !in "&lt;gt;amp;apos;quot;"
    ensures c !in EscapeXml(s)
  {
    if s != [] {
      EscapeKeepsAbsent(s[1..], c);
    }
  }

  // ---------------------------------------------------------------------
  // feed records

  /** The values of one feed object. */
  datatype FeedRecord = FeedRecord(
    id: nat,
    title: string,
    xmlUrl: string,
    htmlUrl: string,
    description: string,
    category: string,
    selected: bool)

  /** What `parseOPML` guarantees of every feed it builds. */
  predicate IsImported(f: FeedRecord)
  {
    f.title != [] && f.xmlUrl != [] && f.htmlUrl != []
  }

  /** The feed `parseOPML` builds from the outline at index `i`, if any. */
  function FeedOf(i: nat, o: Outline): (r: Option<FeedRecord>)
    ensures r.Some? <==> Attribute(o, "xmlUrl") != []
    ensures r.Some? ==> r.value.id == i && r.value.selected && IsImported(r.value)
    ensures r.Some? ==> r.value.xmlUrl == Attribute(o, "xmlUrl")
    ensures r.Some? && Attribute(o, "title") != [] ==> r.value.title == Attribute(o, "title")
    ensures r.Some? && Attribute(o, "title") == [] && Attribute(o, "text") != [] ==>
      r.value.title == Attribute(o, "text")
    ensures r.Some? && Attribute(o, "title") == [] && Attribute(o, "text") == [] ==>
      r.value.title == UntitledFeed
    ensures r.Some? ==> r.value.htmlUrl == (if Attribute(o, "htmlUrl") != [] then Attribute(o, "htmlUrl") else r.value.xmlUrl)
  {
    var xmlUrl := Attribute(o, "xmlUrl");
    if xmlUrl == [] then None
    else
      Some(FeedRecord(
        i,
        Or(Or(Attribute(o, "title"), Attribute(o, "text")), UntitledFeed),
        xmlUrl,
        Or(Attribute(o, "htmlUrl"), xmlUrl),
        Attribute(o, "description"),
        Attribute(o, "category"),
        true))
  }

  function OptionToSeq<T>(o: Option<T>): seq<T>
  {
    match o
    case Some(x) => [x]
    case None => []
  }

  /** The feeds `parseOPML` builds from the outlines, in document order. */
  function FeedsOf(outlines: seq<Outline>): (r: seq<FeedRecord>)
    ensures |r| <= |outlines|
  {
    if outlines == [] then []
    else
      var n := |outlines| - 1;
      FeedsOf(outlines[..n]) + OptionToSeq(FeedOf(n, outlines[n]))
  }

  /** Every feed comes from the outline its id names. */
  lemma {:induction false} FeedsOfSound(outlines: seq<Outline>)
    ensures forall k :: 0 <= k < |FeedsOf(outlines)| ==>
      FeedsOf(outlines)[k].id < |outlines| &&
      FeedOf(FeedsOf(outlines)[k].id, outlines[FeedsOf(outlines)[k].id]) == Some(FeedsOf(outlines)[k])
  {
    if outlines != [] {
      var n := |outlines| - 1;
      var p := outlines[..n];
      FeedsOfSound(p);
      var a := FeedsOf(p);
      var r := FeedsOf(outlines);
      assert r == a + OptionToSeq(FeedOf(n, outlines[n]));
      forall k | 0 <= k < |a|
        ensures r[k].id < |outlines| && FeedOf(r[k].id, outlines[r[k].id]) == Some(r[k])
      {
        assert r[k] == a[k] && p[a[k].id] == outlines[a[k].id];
      }
    }
  }

  /** The ids of the feeds increase in document order. */
  lemma {:induction false} FeedsOfIncreasing(outlines: seq<Outline>)
    ensures forall k :: 0 <= k < |FeedsOf(outlines)| ==> FeedsOf(outlines)[k].id < |outlines|
    ensures forall k, l :: 0 <= k < l < |FeedsOf(outlines)| ==>
      FeedsOf(outlines)[k].id < FeedsOf(outlines)[l].id
  {
    if outlines != [] {
      var n := |outlines| - 1;
      FeedsOfIncreasing(outlines[..n]);
      var a := FeedsOf(outlines[..n]);
      var r := FeedsOf(outlines);
      assert r == a + OptionToSeq(FeedOf(n, outlines[n]));
      assert forall k :: 0 <= k < |a| ==> r[k] == a[k];
      if |r| > |a| {
        assert r[|a|].id == n;
      }
    }
  }

  /** Some feed has the id `i`. */
  predicate HasFeed(feeds: seq<FeedRecord>, i: nat)
  {
    exists k :: 0 <= k < |feeds| && feeds[k].id == i
  }

  /** Every outline with an `xmlUrl` gives a feed. */
  lemma {:induction false} FeedsOfComplete(outlines: seq<Outline>)
    ensures forall i :: 0 <= i < |outlines| && Attribute(outlines[i], "xmlUrl") != [] ==>
      HasFeed(FeedsOf(outlines), i)
  {
    if outlines != [] {
      var n := |outlines| - 1;
      var p := outlines[..n];
      FeedsOfComplete(p);
      var a := FeedsOf(p);
      var r := FeedsOf(outlines);
      assert r == a + OptionToSeq(FeedOf(n, outlines[n]));
      forall i | 0 <= i < |outlines| && Attribute(outlines[i], "xmlUrl") != []
        ensures HasFeed(r, i)
      {
        if i == n {
          assert FeedOf(n, outlines[n]).Some?;
          assert r[|a|] == FeedOf(n, outlines[n]).value;
          assert r[|a|].id == i;
        } else {
          assert p[i] == outlines[i];
          var k :| 0 <= k < |a| && a[k].id == i;
          assert r[k].id == i;
        }
      }
    }
  }

  /** `toggleFeed` on values: the first feed with that id has its selection
      flipped. */
  function Toggled(feeds: seq<FeedRecord>, id: int): (r: seq<FeedRecord>)
    ensures |r| == |feeds|
  {
    if feeds == [] then []
    else if feeds[0].id == id then [feeds[0].(selected := !feeds[0].selected)] + feeds[1..]
    else [feeds[0]] + Toggled(feeds[1..], id)
  }

  /** Toggling changes the first feed with that id and nothing else. */
  lemma {:induction false} ToggledAt(feeds: seq<FeedRecord>, id: int, k: nat)
    requires k < |feeds| && feeds[k].id == id
    requires forall j :: 0 <= j < k ==> feeds[j].id != id
    ensures Toggled(feeds, id) == feeds[k := feeds[k].(selected := !feeds[k].selected)]
  {
    if k > 0 {
      ToggledAt(feeds[1..], id, k - 1);
    }
  }

  /** An unknown id changes nothing. */
  lemma {:induction false} ToggledUnknown(feeds: seq<FeedRecord>, id: int)
    requires forall j :: 0 <= j < |feeds| ==> feeds[j].id != id
    ensures Toggled(feeds, id) == feeds
  {
    if feeds != [] {
      ToggledUnknown(feeds[1..], id);
    }
  }

  /** Toggling the same feed twice gives the feeds back. */
  lemma {:induction false} ToggledTwice(feeds: seq<FeedRecord>, id: int)
    ensures Toggled(Toggled(feeds, id), id) == feeds
  {
    if feeds != [] && feeds[0].id != id {
      ToggledTwice(feeds[1..], id);
      assert Toggled(feeds, id)[1..] == Toggled(feeds[1..], id);
    } else if feeds != [] {
      assert Toggled(feeds, id)[1..] == feeds[1..];
    }
  }

  /** `selectAll` (true) and `deselectAll` (false) on values. */
  function WithSelection(feeds: seq<FeedRecord>, value: bool): (r: seq<FeedRecord>)
    ensures |r| == |feeds|
    ensures forall k :: 0 <= k < |feeds| ==> r[k] == feeds[k].(selected := value)
  {
    seq(|feeds|, k requires 0 <= k < |feeds| => feeds[k].(selected := value))
  }

  /** The number of selected feeds. */
  function SelectedCount(feeds: seq<FeedRecord>): (r: nat)
    ensures r <= |feeds|
  {
    if feeds == [] then 0
    else (if feeds[0].selected then 1 else 0) + SelectedCount(feeds[1..])
  }

  /** After `selectAll` every feed is selected; after `deselectAll`, none. */
  lemma {:induction false} SelectedCountWithSelection(feeds: seq<FeedRecord>, value: bool)
    ensures SelectedCount(WithSelection(feeds, value)) == if value then |feeds| else 0
  {
    if feeds != [] {
      SelectedCountWithSelection(feeds[1..], value);
      assert WithSelection(feeds, value)[1..] == WithSelection(feeds[1..], value);
    }
  }

  /** The selected feeds, in order. */
  function SelectedOnly(feeds: seq<FeedRecord>): (r: seq<FeedRecord>)
    ensures |r| == SelectedCount(feeds)
  {
    if feeds == [] then []
    else (if feeds[0].selected then [feeds[0]] else []) + SelectedOnly(feeds[1..])
  }

  /** The feeds that are not selected, in order. */
  function Unselected(feeds: seq<FeedRecord>): (r: seq<FeedRecord>)
    ensures |r| + SelectedCount(feeds) == |feeds|
  {
    if feeds == [] then []
    else (if feeds[0].selected then [] else [feeds[0]]) + Unselected(feeds[1..])
  }

  /** `a` is `b` with some elements left out, the rest in their order. */
  predicate IsSubsequence<T(==)>(a: seq<T>, b: seq<T>)
    decreases |b|
  {
    a == [] ||
    (b != [] && ((a[0] == b[0] && IsSubsequence(a[1..], b[1..])) || IsSubsequence(a, b[1..])))
  }

  lemma {:induction false} SubsequenceMembers<T>(a: seq<T>, b: seq<T>, x: T)
    requires IsSubsequence(a, b) && x in a
    ensures x in b
    decreases |b|
  {
    if a[0] == b[0] && IsSubsequence(a[1..], b[1..]) {
      if x != a[0] {
        SubsequenceMembers(a[1..], b[1..], x);
      }
    } else {
      SubsequenceMembers(a, b[1..], x);
    }
  }

  /** Removal keeps exactly the unselected feeds, in their original order. */
  lemma {:induction false} UnselectedExactly(feeds: seq<FeedRecord>)
    ensures IsSubsequence(Unselected(feeds), feeds)
    ensures forall x :: x in Unselected(feeds) ==> !x.selected
    ensures forall x :: x in feeds && !x.selected ==> x in Unselected(feeds)
  {
    if feeds != [] {
      UnselectedExactly(feeds[1..]);
      var rest := Unselected(feeds[1..]);
      if !feeds[0].selected {
        assert Unselected(feeds) == [feeds[0]] + rest;
        assert Unselected(feeds)[1..] == rest;
      } else {
        assert Unselected(feeds) == rest;
        if rest != [] {
          assert IsSubsequence(rest, feeds[1..]);
        }
      }
      assert forall x :: x in feeds ==> x == feeds[0] || x in feeds[1..];
    }
  }

  // ---------------------------------------------------------------------
  // the exported document

  /** One attribute as `generateOPML` writes it: a space, the name, and the
      escaped value in double quotes. */
  function AttributeText(name: string, value: string): string
  {
    " " + name + "=\"" + EscapeXml(value) + "\""
  }

  function AttributesText(attrs: seq<(string, string)>): string
  {
    if attrs == [] then "" else AttributeText(attrs[0].0, attrs[0].1) + AttributesText(attrs[1..])
  }

  lemma {:induction false} AttributesTextConcat(a: seq<(string, string)>, b: seq<(string, string)>)
    ensures AttributesText(a + b) == AttributesText(a) + AttributesText(b)
  {
    if a != [] {
      var rest := a[1..];
      assert (a + b)[1..] == rest + b;
      AttributesTextConcat(rest, b);
      ConcatAssoc(AttributeText(a[0].0, a[0].1), AttributesText(rest), AttributesText(b));
    } else {
      assert a + b == b;
    }
  }

  lemma AttributesTextSnoc(a: seq<(string, string)>, name: string, value: string)
    ensures AttributesText(a + [(name, value)]) == AttributesText(a) + AttributeText(name, value)
  {
    AttributesTextConcat(a, [(name, value)]);
  }

  /** The attributes every exported outline carries. */
  function BaseAttributes(f: FeedRecord): seq<(string, string)>
  {
    [("text", f.title), ("title", f.title), ("type", "rss"), ("xmlUrl", f.xmlUrl), ("htmlUrl", f.htmlUrl)]
  }

  /** The attributes of an exported outline, in the order they are written:
      `description` and `category` only when they are not empty. */
  function OutlineAttributes(f: FeedRecord): seq<(string, string)>
  {
    BaseAttributes(f)
    + (if f.description != [] then [("description", f.description)] else [])
    + (if f.category != [] then [("category", f.category)] else [])
  }

  /** The line `generateOPML` writes for one feed. */
  function OutlineLine(f: FeedRecord): string
  {
    OutlineOpen + AttributesText(OutlineAttributes(f)) + "/>"
  }

  /** The indentation and tag name that open every outline line. */
  const OutlineOpen := "        <outline"

  /** Appending one more attribute to a line opened with `OutlineOpen`. */
  lemma OutlineAppend(a: seq<(string, string)>, name: string, value: string)
    ensures OutlineOpen + AttributesText(a) + AttributeText(name, value)
         == OutlineOpen + AttributesText(a + [(name, value)])
  {
    AttributesTextSnoc(a, name, value);
    ConcatAssoc(OutlineOpen, AttributesText(a), AttributeText(name, value));
  }

  function OutlineLines(feeds: seq<FeedRecord>): (r: seq<string>)
    ensures |r| == |feeds|
    ensures forall k :: 0 <= k < |feeds| ==> r[k] == OutlineLine(feeds[k])
  {
    seq(|feeds|, k requires 0 <= k < |feeds| => OutlineLine(feeds[k]))
  }

  const HeadOpenLines: seq<string> :=
    [ "<?xml version=\"1.0\" encoding=\"UTF-8\"?>",
      "<opml version=\"2.0\">",
      "    <head>",
      "        <title>My RSS Feeds</title>" ]

  const HeadCloseLines: seq<string> :=
    [ "        <ownerName>OPML Feed Manager</ownerName>",
      "    </head>",
      "    <body>" ]

  /** The header of the exported document, with both dates set to `now`. */
  function HeaderLines(now: string): seq<string>
  {
    HeadOpenLines
    + ["        <dateCreated>" + now + "</dateCreated>", "        <dateModified>" + now + "</dateModified>"]
    + HeadCloseLines
  }

  const FooterLines: seq<string> := ["    </body>", "</opml>"]

  /** Lines each followed by a newline. */
  function LinesText(lines: seq<string>): string
  {
    if lines == [] then "" else lines[0] + "\n" + LinesText(lines[1..])
  }

  lemma {:induction false} LinesTextConcat(a: seq<string>, b: seq<string>)
    ensures LinesText(a + b) == LinesText(a) + LinesText(b)
  {
    if a != [] {
      LinesTextConcat(a[1..], b);
      assert (a + b)[1..] == a[1..] + b;
    } else {
      assert a + b == b;
    }
  }

  lemma {:induction false} LinesTextJoin(a: seq<string>, b: seq<string>)
    requires b != []
    ensures LinesText(a) + Join(b, "\n") == Join(a + b, "\n")
  {
    if a != [] {
      LinesTextJoin(a[1..], b);
      assert (a + b)[1..] == a[1..] + b;
    } else {
      assert a + b == b;
    }
  }

  /** The template `generateOPML` starts from. */
  function Header(now: string): string
  {
    LinesText(HeaderLines(now))
  }

  /** The document `generateOPML` returns for these feeds at time `now`. */
  function OpmlDocument(feeds: seq<FeedRecord>, now: string): string
  {
    Header(now) + LinesText(OutlineLines(feeds)) + Join(FooterLines, "\n")
  }

  /** No field of the feed holds a line break. */
  predicate IsSingleLine(f: FeedRecord)
  {
    '\n' !in f.title && '\n' !in f.xmlUrl && '\n' !in f.htmlUrl &&
    '\n' !in f.description && '\n' !in f.category
  }

  lemma {:induction false} AttributesTextSingleLine(attrs: seq<(string, string)>)
    requires forall k :: 0 <= k < |attrs| ==> '\n' !in attrs[k].0 && '\n' !in attrs[k].1
    ensures '\n' !in AttributesText(attrs)
  {
    if attrs != [] {
      AttributesTextSingleLine(attrs[1..]);
      EscapeKeepsAbsent(attrs[0].1, '\n');
    }
  }

  lemma OutlineLineSingleLine(f: FeedRecord)
    requires IsSingleLine(f)
    ensures '\n' !in OutlineLine(f)
  {
    AttributesTextSingleLine(OutlineAttributes(f));
  }

  /** None of the lines holds a line break. */
  predicate SingleLines(lines: seq<string>)
  {
    forall k :: 0 <= k < |lines| ==> '\n' !in lines[k]
  }

  lemma HeadOpenSingleLines()
    ensures SingleLines(HeadOpenLines)
  {
  }

  lemma HeadCloseSingleLines()
    ensures SingleLines(HeadCloseLines) && SingleLines(FooterLines)
  {
  }

  lemma DateSingleLines(now: string)
    requires '\n' !in now
    ensures SingleLines(["        <dateCreated>" + now + "</dateCreated>", "        <dateModified>" + now + "</dateModified>"])
  {
  }

  lemma HeaderSingleLines(now: string)
    requires '\n' !in now
    ensures SingleLines(HeaderLines(now))
  {
    HeadOpenSingleLines();
    HeadCloseSingleLines();
    DateSingleLines(now);
    var dates := ["        <dateCreated>" + now + "</dateCreated>", "        <dateModified>" + now + "</dateModified>"];
    SingleLinesConcat(HeadOpenLines, dates);
    SingleLinesConcat(HeadOpenLines + dates, HeadCloseLines);
  }

  lemma {:induction false} OutlineSingleLines(feeds: seq<FeedRecord>)
    requires forall k :: 0 <= k < |feeds| ==> IsSingleLine(feeds[k])
    ensures SingleLines(OutlineLines(feeds))
  {
    forall k | 0 <= k < |feeds| ensures '\n' !in OutlineLines(feeds)[k] {
      OutlineLineSingleLine(feeds[k]);
    }
  }

  lemma {:induction false} SingleLinesConcat(a: seq<string>, b: seq<string>)
    requires SingleLines(a) && SingleLines(b)
    ensures SingleLines(a + b)
  {
    forall k | 0 <= k < |a + b| ensures '\n' !in (a + b)[k] {
      if k < |a| {
        assert (a + b)[k] == a[k];
      } else {
        assert (a + b)[k] == b[k - |a|];
      }
    }
  }

  /** The document is its lines joined by line breaks. */
  lemma DocumentJoin(feeds: seq<FeedRecord>, now: string)
    ensures OpmlDocument(feeds, now) == Join(HeaderLines(now) + OutlineLines(feeds) + FooterLines, "\n")
  {
    LinesTextConcat(HeaderLines(now), OutlineLines(feeds));
    LinesTextJoin(HeaderLines(now) + OutlineLines(feeds), FooterLines);
  }

  /** Read line by line, the document is the header, then one outline line
      per feed in the feeds' order, then the footer. */
  lemma DocumentLines(feeds: seq<FeedRecord>, now: string)
    requires '\n' !in now
    requires forall k :: 0 <= k < |feeds| ==> IsSingleLine(feeds[k])
    ensures Split(OpmlDocument(feeds, now), '\n') == HeaderLines(now) + OutlineLines(feeds) + FooterLines
  {
    var lines := HeaderLines(now) + OutlineLines(feeds) + FooterLines;
    DocumentJoin(feeds, now);
    HeaderSingleLines(now);
    HeadCloseSingleLines();
    OutlineSingleLines(feeds);
    SingleLinesConcat(HeaderLines(now), OutlineLines(feeds));
    SingleLinesConcat(HeaderLines(now) + OutlineLines(feeds), FooterLines);
    SplitJoin(lines, '\n');
  }

  /** The attribute map an XML parser gives for attributes written in this
      order, once it has read the entities back. */
  function AttributeMap(attrs: seq<(string, string)>): map<string, string>
  {
    if attrs == [] then map[]
    else AttributeMap(attrs[..|attrs| - 1])[attrs[|attrs| - 1].0 := attrs[|attrs| - 1].1]
  }

  /** Exporting and importing again gives every feed back: the outline a
      feed is written as is read by `parseOPML` into the same feed, with the
      id of its new position and selected. */
  lemma ExportImport(f: FeedRecord, i: nat)
    requires IsImported(f)
    ensures FeedOf(i, AttributeMap(OutlineAttributes(f))) == Some(f.(id := i, selected := true))
  {
    var base := BaseAttributes(f);
    var d: seq<(string, string)> := if f.description != [] then [("description", f.description)] else [];
    var c: seq<(string, string)> := if f.category != [] then [("category", f.category)] else [];
    assert AttributeMap(base[..1]) == map["text" := f.title] by {
      assert base[..1][..0] == [];
    }
    assert AttributeMap(base[..2]) == AttributeMap(base[..1])["title" := f.title] by {
      assert base[..2][..1] == base[..1];
    }
    assert AttributeMap(base[..3]) == AttributeMap(base[..2])["type" := "rss"] by {
      assert base[..3][..2] == base[..2];
    }
    assert AttributeMap(base[..4]) == AttributeMap(base[..3])["xmlUrl" := f.xmlUrl] by {
      assert base[..4][..3] == base[..3];
    }
    assert AttributeMap(base) == AttributeMap(base[..4])["htmlUrl" := f.htmlUrl] by {
      assert base[..4] == base[..|base| - 1];
    }
    var m0 := AttributeMap(base);
    var m1 := AttributeMap(base + d);
    if d != [] {
      assert (base + d)[..|base + d| - 1] == base;
      assert m1 == m0["description" := f.description];
    } else {
      assert base + d == base;
    }
    var m := AttributeMap(base + d + c);
    if c != [] {
      assert (base + d + c)[..|base + d + c| - 1] == base + d;
      assert m == m1["category" := f.category];
    } else {
      assert base + d + c == base + d;
    }
    assert Attribute(m, "title") == f.title;
    assert Attribute(m, "xmlUrl") == f.xmlUrl;
    assert Attribute(m, "htmlUrl") == f.htmlUrl;
    assert Attribute(m, "description") == f.description;
    assert Attribute(m, "category") == f.category;
  }

  // ---------------------------------------------------------------------
  // the feed objects

  /** A feed. Its `selected` flag is shared by every list that holds it. */
  class Feed {
    const id: nat
    const title: string
    const xmlUrl: string
    const htmlUrl: string
    const description: string
    const category: string
    var selected: bool

    constructor(f: FeedRecord)
      ensures Record() == f
    {
      id := f.id;
      title := f.title;
      xmlUrl := f.xmlUrl;
      htmlUrl := f.htmlUrl;
      description := f.description;
      category := f.category;
      selected := f.selected;
    }

    function Record(): FeedRecord
      reads this
    {
      FeedRecord(id, title, xmlUrl, htmlUrl, description, category, selected)
    }
  }

  /** The values the feeds hold now. */
  function Records(fs: seq<Feed>): (r: seq<FeedRecord>)
    reads fs
    ensures |r| == |fs|
    ensures forall k :: 0 <= k < |fs| ==> r[k] == fs[k].Record()
  {
    if fs == [] then [] else [fs[0].Record()] + Records(fs[1..])
  }

  /** The ids increase along the list, so no feed appears twice. */
  predicate IncreasingIds(fs: seq<Feed>)
  {
    forall i, j :: 0 <= i < j < |fs| ==> fs[i].id < fs[j].id
  }

  lemma {:induction false} SubsequenceIncreasing(a: seq<Feed>, b: seq<Feed>)
    requires IsSubsequence(a, b) && IncreasingIds(b)
    ensures IncreasingIds(a)
    decreases |b|
  {
    if a != [] {
      if a[0] == b[0] && IsSubsequence(a[1..], b[1..]) {
        SubsequenceIncreasing(a[1..], b[1..]);
        forall j | 1 <= j < |a| ensures a[0].id < a[j].id {
          SubsequenceMembers(a[1..], b[1..], a[j]);
        }
      } else {
        SubsequenceIncreasing(a, b[1..]);
      }
    }
  }

  /** The search of `filterFeeds`, against an already lower-cased term. */
  predicate Matches(f: Feed, term: string)
  {
    Includes(Lower(f.title), term) || Includes(Lower(f.xmlUrl), term) || Includes(Lower(f.description), term)
  }

  /** The filter of `filterFeeds` over the feed objects. */
  function Filtered(fs: seq<Feed>, term: string): (r: seq<Feed>)
    ensures |r| <= |fs|
  {
    if fs == [] then []
    else (if Matches(fs[0], term) then [fs[0]] else []) + Filtered(fs[1..], term)
  }

  /** The filtered list is the matching feeds, in their order. */
  lemma {:induction false} FilteredExactly(fs: seq<Feed>, term: string)
    ensures IsSubsequence(Filtered(fs, term), fs)
    ensures forall f :: f in Filtered(fs, term) ==> Matches(f, term)
    ensures forall f :: f in fs && Matches(f, term) ==> f in Filtered(fs, term)
  {
    if fs != [] {
      FilteredExactly(fs[1..], term);
      var rest := Filtered(fs[1..], term);
      if Matches(fs[0], term) {
        assert Filtered(fs, term) == [fs[0]] + rest;
        assert Filtered(fs, term)[1..] == rest;
      } else {
        assert Filtered(fs, term) == rest;
        if rest != [] {
          assert IsSubsequence(rest, fs[1..]);
        }
      }
      assert forall f :: f in fs ==> f == fs[0] || f in fs[1..];
    }
  }

  /** An empty search term keeps every feed. */
  lemma {:induction false} FilteredEmptyTerm(fs: seq<Feed>)
    ensures Filtered(fs, "") == fs
  {
    if fs != [] {
      EmptyIsContained(Lower(fs[0].title));
      FilteredEmptyTerm(fs[1..]);
      assert fs == [fs[0]] + fs[1..];
    }
  }

  /** The feed objects that are not selected, in order. */
  function UnselectedFeeds(fs: seq<Feed>): (r: seq<Feed>)
    reads fs
    ensures |r| <= |fs|
  {
    if fs == [] then []
    else (if fs[0].selected then [] else [fs[0]]) + UnselectedFeeds(fs[1..])
  }

  lemma {:induction false} UnselectedFeedsRecords(fs: seq<Feed>)
    ensures Records(UnselectedFeeds(fs)) == Unselected(Records(fs))
    ensures IsSubsequence(UnselectedFeeds(fs), fs)
  {
    if fs != [] {
      UnselectedFeedsRecords(fs[1..]);
      var rest := UnselectedFeeds(fs[1..]);
      assert Records(fs)[1..] == Records(fs[1..]);
      if !fs[0].selected {
        assert UnselectedFeeds(fs) == [fs[0]] + rest;
        assert UnselectedFeeds(fs)[1..] == rest;
        assert Records([fs[0]] + rest) == [fs[0].Record()] + Records(rest);
      } else {
        assert UnselectedFeeds(fs) == rest;
        if rest != [] {
          assert IsSubsequence(rest, fs[1..]);
        }
      }
    }
  }

  lemma RecordsAppend(fs: seq<Feed>, f: Feed)
    ensures Records(fs + [f]) == Records(fs) + [f.Record()]
  {
  }

  /** The loop of `parseOPML`: one new feed object per outline with an
      `xmlUrl`, in document order. */
  method BuildFeeds(outlines: seq<Outline>) returns (fs: seq<Feed>)
    ensures Records(fs) == FeedsOf(outlines)
    ensures IncreasingIds(fs)
  {
    fs := [];
    for i := 0 to |outlines|
      invariant Records(fs) == FeedsOf(outlines[..i])
    {
      FeedsOfStep(outlines, i);
      var feed := FeedOf(i, outlines[i]);
      if feed.Some? {
        var f := new Feed(feed.value);
        RecordsAppend(fs, f);
        fs := fs + [f];
      }
    }
    assert outlines[..|outlines|] == outlines;
    FeedsOfIncreasing(outlines);
    IncreasingOfRecords(fs);
  }

  lemma FeedsOfStep(outlines: seq<Outline>, i: nat)
    requires i < |outlines|
    ensures FeedsOf(outlines[..i + 1]) == FeedsOf(outlines[..i]) + OptionToSeq(FeedOf(i, outlines[i]))
  {
    assert outlines[..i + 1][..i] == outlines[..i];
  }

  /** Feeds whose records have increasing ids have increasing ids. */
  lemma IncreasingOfRecords(fs: seq<Feed>)
    requires forall k, l :: 0 <= k < l < |Records(fs)| ==> Records(fs)[k].id < Records(fs)[l].id
    ensures IncreasingIds(fs)
  {
    forall k, l | 0 <= k < l < |fs| ensures fs[k].id < fs[l].id {
      assert fs[k].id == Records(fs)[k].id && fs[l].id == Records(fs)[l].id;
    }
  }

  /** The position of the first feed with the given id. */
  function FirstWithId(fs: seq<Feed>, id: int): (r: Option<nat>)
    ensures r.Some? ==> r.value < |fs| && fs[r.value].id == id
    ensures r.Some? ==> forall j :: 0 <= j < r.value ==> fs[j].id != id
    ensures r.None? ==> forall j :: 0 <= j < |fs| ==> fs[j].id != id
  {
    if fs == [] then None
    else if fs[0].id == id then Some(0)
    else match FirstWithId(fs[1..], id)
      case Some(k) => Some(k + 1)
      case None => None
  }

  /** The page state: every feed read from the file, and the feeds the
      search currently shows. The two lists share their feed objects. */
  /** Feeds with increasing ids are distinct objects. */
  lemma DistinctOfIncreasing(fs: seq<Feed>, i: nat)
    requires IncreasingIds(fs) && i < |fs|
    ensures forall j :: 0 <= j < |fs| && j != i ==> fs[j] != fs[i]
  {
    forall j | 0 <= j < |fs| && j != i ensures fs[j] != fs[i] {
      assert fs[j].id != fs[i].id;
    }
  }

  class FeedManager {
    var feeds: seq<Feed>
    var filteredFeeds: seq<Feed>

    ghost predicate Valid()
      reads this
    {
      IncreasingIds(feeds)
    }

    constructor()
      ensures Valid() && feeds == [] && filteredFeeds == []
    {
      feeds := [];
      filteredFeeds := [];
    }

    /** `parseOPML`: the feeds are rebuilt from the outlines. When no outline
        gives a feed the error leaves `feeds` empty and `filteredFeeds` as it
        was. */
    method ParseOpml(document: Result<seq<Outline>>) returns (r: Result<()>)
      requires Valid()
      modifies this
      ensures Valid()
      ensures document.Err? ==>
        r == Err(InvalidXmlMessage) && feeds == old(feeds) && filteredFeeds == old(filteredFeeds)
      ensures document.Ok? ==>
        Records(feeds) == FeedsOf(document.value)
      ensures document.Ok? && feeds == [] ==> r == Err(NoFeedsMessage) && filteredFeeds == old(filteredFeeds)
      ensures document.Ok? && feeds != [] ==> r == Ok(()) && filteredFeeds == feeds
    {
      if document.Err? {
        return Err(InvalidXmlMessage);
      }
      var fs := BuildFeeds(document.value);
      feeds := fs;
      if fs == [] {
        return Err(NoFeedsMessage);
      }
      filteredFeeds := fs;
      r := Ok(());
    }

    /** `handleFile`: the name is checked, then the document parsed; the
        result is the notification shown. */
    method LoadFile(name: string, document: Result<seq<Outline>>) returns (r: Result<string>)
      requires Valid()
      modifies this
      ensures Valid()
      ensures !IsOpmlFileName(name) ==>
        r == Err(InvalidFileMessage) && feeds == old(feeds) && filteredFeeds == old(filteredFeeds)
      ensures IsOpmlFileName(name) && document.Err? ==>
        r == Err(ParseErrorPrefix + InvalidXmlMessage) && feeds == old(feeds) && filteredFeeds == old(filteredFeeds)
      ensures IsOpmlFileName(name) && document.Ok? ==> Records(feeds) == FeedsOf(document.value)
      ensures IsOpmlFileName(name) && document.Ok? && feeds == [] ==> filteredFeeds == old(filteredFeeds)
      ensures IsOpmlFileName(name) && document.Ok? && feeds != [] ==> filteredFeeds == feeds
      ensures IsOpmlFileName(name) && document.Ok? ==>
        (r == Ok(LoadedMessage) <==> FeedsOf(document.value) != [])
      ensures IsOpmlFileName(name) && document.Ok? && FeedsOf(document.value) == [] ==>
        r == Err(ParseErrorPrefix + NoFeedsMessage)
    {
      if !IsOpmlFileName(name) {
        return Err(InvalidFileMessage);
      }
      var parsed := ParseOpml(document);
      if parsed.Err? {
        r := Err(ParseErrorPrefix + parsed.message);
      } else {
        r := Ok(LoadedMessage);
      }
    }

    /** `toggleFeed`. Only feed objects change, so `Valid()` is kept. */
    method ToggleFeed(id: int)
      requires Valid()
      modifies feeds
      ensures Records(feeds) == Toggled(old(Records(feeds)), id)
    {
      var before := Records(feeds);
      var k := FirstWithId(feeds, id);
      if k.Some? {
        var i := k.value;
        var f := feeds[i];
        ToggledAt(before, id, i);
        DistinctOfIncreasing(feeds, i);
        f.selected := !f.selected;
        forall j | 0 <= j < |feeds| && j != i ensures feeds[j].Record() == before[j] {
          assert feeds[j].Record() == old(feeds[j].Record());
        }
        assert Records(feeds) == before[i := f.Record()];
      } else {
        ToggledUnknown(before, id);
      }
    }

    /** The loop shared by `selectAll` and `deselectAll`. */
    method SetAll(value: bool)
      requires Valid()
      modifies feeds
      ensures Records(feeds) == WithSelection(old(Records(feeds)), value)
    {
      for i := 0 to |feeds|
        invariant forall k :: 0 <= k < i ==> feeds[k].selected == value
        invariant forall k :: i <= k < |feeds| ==> feeds[k].selected == old(feeds[k].selected)
      {
        feeds[i].selected := value;
      }
    }

    method SelectAll()
      requires Valid()
      modifies feeds
      ensures Records(feeds) == WithSelection(old(Records(feeds)), true)
    {
      SetAll(true);
    }

    method DeselectAll()
      requires Valid()
      modifies feeds
      ensures Records(feeds) == WithSelection(old(Records(feeds)), false)
    {
      SetAll(false);
    }

    /** `filterFeeds`, with the search box's text passed in. */
    method FilterFeeds(searchInput: string)
      modifies this
      ensures feeds == old(feeds)
      ensures filteredFeeds == Filtered(feeds, Lower(searchInput))
    {
      filteredFeeds := Filtered(feeds, Lower(searchInput));
    }

    /** `removeSelected`, with the answer to the confirmation passed in. The
        result is the number of feeds removed. */
    method RemoveSelected(confirmed: bool, searchInput: string) returns (r: Result<nat>)
      requires Valid()
      modifies this
      ensures Valid()
      ensures SelectedCount(old(Records(feeds))) == 0 ==>
        r == Err(NothingToRemoveMessage) && feeds == old(feeds) && filteredFeeds == old(filteredFeeds)
      ensures SelectedCount(old(Records(feeds))) > 0 && !confirmed ==>
        r == Ok(0) && feeds == old(feeds) && filteredFeeds == old(filteredFeeds)
      ensures SelectedCount(old(Records(feeds))) > 0 && confirmed ==>
        r == Ok(SelectedCount(old(Records(feeds)))) &&
        Records(feeds) == Unselected(old(Records(feeds))) &&
        filteredFeeds == Filtered(feeds, Lower(searchInput))
    {
      var count := SelectedCount(Records(feeds));
      if count == 0 {
        return Err(NothingToRemoveMessage);
      }
      if !confirmed {
        return Ok(0);
      }
      UnselectedFeedsRecords(feeds);
      SubsequenceIncreasing(UnselectedFeeds(feeds), feeds);
      feeds := UnselectedFeeds(feeds);
      FilterFeeds(searchInput);
      r := Ok(count);
    }

    /** `exportOPML`: the selected feeds as a document, or the error when
        none is selected. */
    method ExportOpml(now: string) returns (r: Result<string>)
      ensures SelectedOnly(Records(feeds)) == [] ==> r == Err(NothingToExportMessage)
      ensures SelectedOnly(Records(feeds)) != [] ==> r == Ok(OpmlDocument(SelectedOnly(Records(feeds)), now))
    {
      var chosen := SelectedOnly(Records(feeds));
      if chosen == [] {
        return Err(NothingToExportMessage);
      }
      var document := GenerateOpml(chosen, now);
      r := Ok(document);
    }
  }

  lemma OutlinesTextStep(feeds: seq<FeedRecord>, i: nat)
    requires i < |feeds|
    ensures LinesText(OutlineLines(feeds[..i + 1])) == LinesText(OutlineLines(feeds[..i])) + OutlineLine(feeds[i]) + "\n"
  {
    assert OutlineLines(feeds[..i + 1]) == OutlineLines(feeds[..i]) + [OutlineLine(feeds[i])];
    LinesTextConcat(OutlineLines(feeds[..i]), [OutlineLine(feeds[i])]);
  }

  /** The text one turn of `generateOPML`'s loop writes for a feed, before
      its line break. */
  method WriteOutline(feed: FeedRecord) returns (line: string)
    ensures line == OutlineLine(feed)
  {
    var written := BaseAttributes(feed);
    line := OutlineOpen + AttributesText(written);
    if feed.description != [] {
      OutlineAppend(written, "description", feed.description);
      line := line + AttributeText("description", feed.description);
      written := written + [("description", feed.description)];
    }
    assert line == OutlineOpen + AttributesText(written);
    if feed.category != [] {
      OutlineAppend(written, "category", feed.category);
      line := line + AttributeText("category", feed.category);
      written := written + [("category", feed.category)];
    }
    assert line == OutlineOpen + AttributesText(written);
    assert written == OutlineAttributes(feed);
    line := line + "/>";
  }

  /** `generateOPML`: the header, one outline line per feed, the footer.
      The outline lines are gathered first and the header and footer put
      around them, which gives the same text as appending each line to the
      header in turn. */
  method GenerateOpml(feeds: seq<FeedRecord>, now: string) returns (opml: string)
    ensures opml == OpmlDocument(feeds, now)
  {
    var outlines := "";
    for i := 0 to |feeds|
      invariant outlines == LinesText(OutlineLines(feeds[..i]))
    {
      var line := WriteOutline(feeds[i]);
      OutlinesTextStep(feeds, i);
      outlines := outlines + line + "\n";
    }
    assert feeds[..|feeds|] == feeds;
    opml := Header(now) + outlines + Join(FooterLines, "\n");
  }
}
