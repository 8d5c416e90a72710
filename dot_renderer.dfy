/**
 * The string builders of the Graphviz DOT serializer: fixed fragments of a
 * DOT document (header, defaults, cluster blocks, node declarations, edge
 * statements) and the two text utilities used for record labels, joining
 * cells into lines and breaking long text with `\l` markers.
 *
 * A Java `String` that may be null is an `Option<string>`; Java's string
 * concatenation prints a null reference as the four letters `null`, which
 * `Text` reproduces.
 */
module DotRenderer {
  import opened Wrappers
  import Strings

  /** The platform line separator, fixed to a line feed. */
  const NEWLINE: string := "\n"
  const TAB: string := "\t"
  /** `\<\<` and `\>\>`: angle brackets escaped for a record label. */
  const OPEN_STEREOTYPE: string := "\\<\\<"
  const CLOSE_STEREOTYPE: string := "\\>\\>"
  /** What `toLines` puts between two cells: an escaped DOT line break and a space. */
  const CELL_SEPARATOR: string := "\\n "
  /** What `wrapText` inserts: a DOT left-justified line break. */
  const LINE_BREAK: string := "\\l"

  /** The text Java's `+` appends for a possibly null string. */
  function Text(s: Option<string>): string {
    s.GetOr("null")
  }

  predicate StartsWith(s: string, prefix: string) {
    |prefix| <= |s| && s[..|prefix|] == prefix
  }

  predicate EndsWith(s: string, suffix: string) {
    |suffix| <= |s| && s[|s| - |suffix|..] == suffix
  }

  /** `sub` stands in `s` starting at index `i`. */
  predicate OccursAt(s: string, sub: string, i: int) {
    0 <= i && i + |sub| <= |s| && s[i..i + |sub|] == sub
  }

  /** Concatenation regroups freely. */
  lemma Regroup(a: string, b: string, c: string)
    ensures a + (b + c) == a + b + c
  {
  }

  /** Where each part of a three-part concatenation stands. */
  lemma Parts(a: string, b: string, c: string)
    ensures StartsWith(a + b + c, a) && OccursAt(a + b + c, b, |a|) && EndsWith(a + b + c, c)
    ensures StartsWith(a + b + c, a + b) && EndsWith(a + b + c, b + c)
  {
    assert (a + b + c)[..|a + b|] == a + b;
    assert (a + b + c)[..|a|] == a;
    assert (a + b + c)[|a|..|a| + |b|] == b;
    assert (a + b + c)[|a| + |b|..] == c;
    assert (a + b + c)[|a|..] == b + c;
  }

  /** Where each part of a four-part concatenation stands. */
  lemma Parts4(a: string, b: string, c: string, d: string)
    ensures StartsWith(a + b + c + d, a) && OccursAt(a + b + c + d, b, |a|)
    ensures OccursAt(a + b + c + d, c, |a| + |b|) && EndsWith(a + b + c + d, d)
    ensures EndsWith(a + b + c + d, c + d)
  {
    assert (a + b + c + d)[|a| + |b|..] == c + d;
    assert (a + b + c + d)[..|a|] == a;
    assert (a + b + c + d)[|a|..|a| + |b|] == b;
    assert (a + b + c + d)[|a| + |b|..|a| + |b| + |c|] == c;
    assert (a + b + c + d)[|a| + |b| + |c|..] == d;
  }

  // ---------------------------------------------------------------------
  // Attribute fragments

  function Fontname(fontname: string): (r: string)
    ensures StartsWith(r, "fontname=\"") && EndsWith(r, "\"")
    ensures |r| == |fontname| + 11 && r[10..|r| - 1] == fontname
  {
    "fontname=\"" + fontname + "\""
  }

  function Fontsize(fontsize: int): (r: string)
    ensures StartsWith(r, "fontsize=")
    ensures Strings.IsIntLiteral(r[9..]) && Strings.ParseInt(r[9..]) == fontsize
    ensures Strings.CanonicalInt(r[9..])
  {
    Strings.IntToStringRoundTrip(fontsize);
    Strings.IntToStringCanonical(fontsize);
    var r := "fontsize=" + Strings.IntToString(fontsize);
    assert r[9..] == Strings.IntToString(fontsize);
    r
  }

  /** A font attribute and a size attribute separated by a comma. */
  function Options(fontname: string, fontsize: int): (r: string)
    ensures StartsWith(r, Fontname(fontname) + ",")
    ensures r[|Fontname(fontname)| + 1..] == Fontsize(fontsize)
  {
    Fontname(fontname) + "," + Fontsize(fontsize)
  }

  /** The font of a class box: italic exactly for an abstract class, size 9. */
  function OptionsFor(isAbstract: bool): (r: string)
    ensures StartsWith(r, Fontname("Verdana-Italic")) <==> isAbstract
    ensures isAbstract ==> StartsWith(r, Fontname("Verdana-Italic") + ", ")
    ensures !isAbstract ==> StartsWith(r, Fontname("Verdana") + ", ")
    ensures EndsWith(r, ", " + Fontsize(9))
    ensures |r| == |Fontname(if isAbstract then "Verdana-Italic" else "Verdana")| + 2 + |Fontsize(9)|
  {
    var font := Fontname(if isAbstract then "Verdana-Italic" else "Verdana");
    Parts(font, ", ", Fontsize(9));
    assert !isAbstract ==> font[17] == '"' && Fontname("Verdana-Italic")[17] == '-';
    font + ", " + Fontsize(9)
  }

  /** The tag between escaped double angle brackets. */
  function Stereotype(str: string): (r: string)
    ensures StartsWith(r, OPEN_STEREOTYPE) && EndsWith(r, CLOSE_STEREOTYPE)
    ensures |r| == |str| + 8 && r[4..|r| - 4] == str
  {
    OPEN_STEREOTYPE + str + CLOSE_STEREOTYPE
  }

  // ---------------------------------------------------------------------
  // Document header and footer

  /** The comment line and the opening of the graph, before any default. */
  function GraphHeading(title: Option<string>): string {
    "# Class diagram " + Text(title) + NEWLINE + "digraph G {"
  }

  /** `graph [labelloc=top,label="<title>",<Verdana 12>];` on its own line. */
  function GraphTitle(title: string): (r: string)
    ensures StartsWith(r, NEWLINE + TAB + "graph [labelloc=top,label=\"" + title + "\",")
    ensures EndsWith(r, Options("Verdana", 12) + "];")
    ensures |r| == |NEWLINE + TAB + "graph [labelloc=top,label=\"" + title + "\","| + |Options("Verdana", 12) + "];"|
  {
    var head := NEWLINE + TAB + "graph [labelloc=top,label=\"" + title + "\",";
    var tail := Options("Verdana", 12) + "];";
    var r := head + tail;
    assert r[..|head|] == head && r[|r| - |tail|..] == tail;
    r
  }

  /** The default attributes of every node: Verdana 9 in record-shaped boxes. */
  function OptionsNode(): (r: string)
    ensures StartsWith(r, NEWLINE + TAB + "node [")
    ensures OccursAt(r, Options("Verdana", 9), |NEWLINE + TAB + "node ["|)
    ensures EndsWith(r, ",shape=record];")
    ensures |r| == |NEWLINE + TAB + "node ["| + |Options("Verdana", 9)| + |",shape=record];"|
  {
    var head := NEWLINE + TAB + "node [";
    var tail := ",shape=record];";
    Parts(head, Options("Verdana", 9), tail);
    head + Options("Verdana", 9) + tail
  }

  /** The default attributes of every edge: Verdana 9 for the edge and its labels. */
  function OptionsEdge(): (r: string)
    ensures StartsWith(r, NEWLINE + TAB + "edge [")
    ensures OccursAt(r, Options("Verdana", 9), |NEWLINE + TAB + "edge ["|)
    ensures EndsWith(r, ",labelfontname=\"Verdana\",labelfontsize=" + Strings.IntToString(9) + "];")
    ensures |r| == |NEWLINE + TAB + "edge ["| + |Options("Verdana", 9)|
                   + |",labelfontname=\"Verdana\",labelfontsize=" + Strings.IntToString(9) + "];"|
  {
    var head := NEWLINE + TAB + "edge [";
    var tail := ",labelfontname=\"Verdana\",labelfontsize=" + Strings.IntToString(9) + "];";
    Parts(head, Options("Verdana", 9), tail);
    head + Options("Verdana", 9) + tail
  }

  /**
   * The document header: the heading line, the graph title statement only
   * when there is a title, then the edge defaults and last the node defaults.
   */
  function OpenGraph(title: Option<string>): (r: string)
    ensures StartsWith(r, GraphHeading(title))
    ensures title.Some? ==> OccursAt(r, GraphTitle(title.value), |GraphHeading(title)|)
    ensures EndsWith(r, OptionsEdge() + OptionsNode())
    ensures |r| == |GraphHeading(title)| + (if title.Some? then |GraphTitle(title.value)| else 0)
                   + |OptionsEdge()| + |OptionsNode()|
  {
    var head := GraphHeading(title);
    var titleLine := if title.Some? then GraphTitle(title.value) else "";
    var defaults := OptionsEdge() + OptionsNode();
    Parts(head, titleLine, defaults);
    head + titleLine + defaults
  }

  /** The closing brace of the document, as a cluster is closed, then a line end. */
  function CloseGraph(): (r: string)
    ensures r == CloseCluster() + NEWLINE
  {
    NEWLINE + "}" + NEWLINE
  }

  // ---------------------------------------------------------------------
  // Clusters, comments, nodes and edges

  /** `subgraph <id> {` on a new line. */
  function OpenCluster(id: string): (r: string)
    ensures StartsWith(r, NEWLINE + "subgraph ") && EndsWith(r, " {")
    ensures |r| == |NEWLINE| + 9 + |id| + 2 && r[|NEWLINE| + 9..|r| - 2] == id
  {
    NEWLINE + "subgraph " + id + " {"
  }

  /** `label = "<content>";` on a new line. */
  function Cluster(content: string): (r: string)
    ensures StartsWith(r, NEWLINE + "label = \"") && EndsWith(r, "\";")
    ensures |r| == |NEWLINE| + 9 + |content| + 2 && r[|NEWLINE| + 9..|r| - 2] == content
  {
    NEWLINE + "label = \"" + content + "\";"
  }

  /** A closing brace on a line of its own. */
  function CloseCluster(): (r: string)
    ensures StartsWith(r, NEWLINE) && EndsWith(r, "}") && |r| == |NEWLINE| + 1
  {
    NEWLINE + "}"
  }

  /** A `//` comment on a new line. */
  function WithDotNewLine(s: string): (r: string)
    ensures StartsWith(r, NEWLINE + "//")
    ensures r[|NEWLINE| + 2..] == s
  {
    NEWLINE + "//" + s
  }

  /** The start of a node declaration, up to the closing quote of its label. */
  function NodeHead(uniqueName: string, labelText: string): string {
    NEWLINE + TAB + uniqueName + " [label=\"" + labelText + "\""
  }

  /**
   * A node declaration: id and quoted label, then `, <options>` only when
   * there are options, then the closing bracket.
   */
  function Node(uniqueName: string, labelText: string, options: Option<string>): (r: string)
    ensures StartsWith(r, NodeHead(uniqueName, labelText)) && EndsWith(r, "]")
    ensures options.Some? ==> OccursAt(r, ", " + options.value, |NodeHead(uniqueName, labelText)|)
    ensures |r| == |NodeHead(uniqueName, labelText)| + (if options.Some? then 2 + |options.value| else 0) + 1
  {
    var head := NodeHead(uniqueName, labelText);
    var withOptions := if options.Some? then head + ", " + options.value else head;
    assert withOptions[..|head|] == head;
    withOptions + "]"
  }

  /** The comment line and the start of an edge statement, up to its opening bracket. */
  function EdgeHead(from: string, to: string, comment: Option<string>): string {
    NEWLINE + TAB + "// " + Text(comment) + NEWLINE + TAB + from + " -> " + to + " ["
  }

  /**
   * An edge statement: nothing when an endpoint is missing; otherwise the
   * comment line (printed even for a missing comment), `<from> -> <to> [`,
   * the labels followed by `  , ` only when there are labels, the style only
   * when there is one, and `];`.
   */
  function Edge(from: Option<string>, to: Option<string>, comment: Option<string>,
                labels: Option<string>, edgeStyle: Option<string>): (r: string)
    ensures from.None? || to.None? ==> r == ""
    ensures from.Some? && to.Some? ==>
      var head := EdgeHead(from.value, to.value, comment);
      && StartsWith(r, head) && EndsWith(r, "];")
      && (labels.Some? ==> OccursAt(r, labels.value + "  , ", |head|))
      && (edgeStyle.Some? ==> OccursAt(r, edgeStyle.value, |r| - 2 - |edgeStyle.value|))
      && |r| == |head| + (if labels.Some? then |labels.value| + 4 else 0)
                + (if edgeStyle.Some? then |edgeStyle.value| else 0) + 2
  {
    if from.None? || to.None? then ""
    else
      var head := EdgeHead(from.value, to.value, comment);
      var labelsPart := if labels.Some? then labels.value + "  , " else "";
      var style := if edgeStyle.Some? then edgeStyle.value else "";
      Parts4(head, labelsPart, style, "];");
      head + labelsPart + style + "];"
  }

  // ---------------------------------------------------------------------
  // Joining cells

  /** The concatenation of a sequence of strings. */
  function Concat(ss: seq<string>): string
    decreases |ss|
  {
    if ss == [] then "" else Concat(ss[..|ss| - 1]) + ss[|ss| - 1]
  }

  /** The cells in order with one `sep` between each two neighbours. */
  function Join(cells: seq<string>, sep: string): string
    decreases |cells|
  {
    if |cells| == 0 then ""
    else if |cells| == 1 then cells[0]
    else Join(cells[..|cells| - 1], sep) + sep + cells[|cells| - 1]
  }

  /** Every cell followed by `postfix`. */
  function Suffixed(cells: seq<string>, postfix: string): (r: seq<string>)
    ensures |r| == |cells|
  {
    seq(|cells|, i requires 0 <= i < |cells| => cells[i] + postfix)
  }

  lemma {:induction false} ConcatAppend(a: seq<string>, b: seq<string>)
    ensures Concat(a + b) == Concat(a) + Concat(b)
    decreases |b|
  {
    if b != [] {
      var b' := b[..|b| - 1];
      assert (a + b)[..|a + b| - 1] == a + b';
      assert (a + b)[|a + b| - 1] == b[|b| - 1];
      ConcatAppend(a, b');
      assert Concat(a + b) == Concat(a + b') + b[|b| - 1];
    } else {
      assert a + b == a;
    }
  }

  /**
   * Joining splits at every inner cell boundary: the cells before it, one
   * separator, the cells after it. Hence the cells appear in order and each
   * two neighbours are separated by exactly one separator.
   */
  lemma {:induction false} JoinSplit(cells: seq<string>, k: nat, sep: string)
    requires 0 < k < |cells|
    ensures Join(cells, sep) == Join(cells[..k], sep) + sep + Join(cells[k..], sep)
    decreases |cells|
  {
    var n := |cells|;
    if k < n - 1 {
      var init, tail := cells[..n - 1], cells[k..];
      assert init[..k] == cells[..k];
      assert init[k..] == tail[..n - 1 - k];
      assert tail[n - 1 - k] == cells[n - 1];
      JoinSplit(init, k, sep);
      assert Join(cells, sep) == Join(init, sep) + sep + cells[n - 1];
      assert Join(tail, sep) == Join(init[k..], sep) + sep + cells[n - 1];
    } else {
      assert cells[k..] == [cells[n - 1]];
    }
  }

  /** n cells contribute their own characters and n - 1 separators. */
  lemma {:induction false} JoinLength(cells: seq<string>, sep: string)
    requires |cells| >= 1
    ensures |Join(cells, sep)| == |Concat(cells)| + (|cells| - 1) * |sep|
    decreases |cells|
  {
    if |cells| == 1 {
      assert cells[..0] == [];
    } else {
      JoinLength(cells[..|cells| - 1], sep);
    }
  }

  /** Appending to the last cell appends to the joined text. */
  lemma JoinExtendLast(cells: seq<string>, t: string, sep: string)
    requires |cells| >= 1
    ensures Join(cells[..|cells| - 1] + [cells[|cells| - 1] + t], sep) == Join(cells, sep) + t
  {
    var n := |cells|;
    var ext := cells[..n - 1] + [cells[n - 1] + t];
    if n > 1 {
      assert ext[..n - 1] == cells[..n - 1];
    }
  }

  /**
   * `toLines(cells, prefix, postfix)`: every cell followed by `postfix`,
   * with `prefix` between two cells; nothing at all for no cells.
   */
  method JoinCells(cells: seq<string>, prefix: string, postfix: string) returns (r: string)
    ensures r == Join(Suffixed(cells, postfix), prefix)
  {
    if |cells| == 0 {
      return "";
    }
    var sb := "";
    ghost var done := Suffixed(cells, postfix);
    for i := 0 to |cells|
      invariant sb == Join(done[..i], prefix)
    {
      if i > 0 {
        sb := sb + prefix;
      }
      sb := sb + cells[i];
      sb := sb + postfix;
      assert done[..i + 1][..i] == done[..i];
    }
    assert done[..|cells|] == done;
    r := sb;
  }

  /** `toLines(cells)`: the cells joined by `\n `, each cell unchanged. */
  method ToLines(cells: seq<string>) returns (r: string)
    ensures r == Join(cells, CELL_SEPARATOR)
  {
    r := JoinCells(cells, CELL_SEPARATOR, "");
    assert forall i :: 0 <= i < |cells| ==> cells[i] + "" == cells[i];
    assert Suffixed(cells, "") == cells;
  }

  /** What `toLines` promises: nothing, the one cell, or cells around separators. */
  lemma ToLinesShape(cells: seq<string>)
    ensures |cells| == 0 ==> Join(cells, CELL_SEPARATOR) == ""
    ensures |cells| == 1 ==> Join(cells, CELL_SEPARATOR) == cells[0]
    ensures |cells| >= 1 ==>
      |Join(cells, CELL_SEPARATOR)| == |Concat(cells)| + (|cells| - 1) * |CELL_SEPARATOR|
    ensures forall k :: 0 < k < |cells| ==>
      Join(cells, CELL_SEPARATOR)
        == Join(cells[..k], CELL_SEPARATOR) + CELL_SEPARATOR + Join(cells[k..], CELL_SEPARATOR)
  {
    if |cells| >= 1 {
      JoinLength(cells, CELL_SEPARATOR);
    }
    forall k | 0 < k < |cells|
      ensures Join(cells, CELL_SEPARATOR)
        == Join(cells[..k], CELL_SEPARATOR) + CELL_SEPARATOR + Join(cells[k..], CELL_SEPARATOR)
    {
      JoinSplit(cells, k, CELL_SEPARATOR);
    }
  }

  // ---------------------------------------------------------------------
  // Tokenizing and wrapping

  /** The delimiters of `wrapText`'s tokenizer: space, tab and line feed. */
  predicate IsDelimiter(c: char) {
    c == ' ' || c == '\t' || c == '\n'
  }

  /** A maximal-run token: one or more characters, none a delimiter. */
  predicate IsWord(t: string) {
    t != [] && forall j :: 0 <= j < |t| ==> !IsDelimiter(t[j])
  }

  /** A token made of one delimiter. */
  predicate IsDelimiterToken(t: string) {
    |t| == 1 && IsDelimiter(t[0])
  }

  /** The length of the longest prefix of `s` holding no delimiter. */
  function WordLength(s: string): (k: nat)
    ensures k <= |s|
    ensures forall i :: 0 <= i < k ==> !IsDelimiter(s[i])
    ensures k < |s| ==> IsDelimiter(s[k])
    decreases |s|
  {
    if s == [] || IsDelimiter(s[0]) then 0 else 1 + WordLength(s[1..])
  }

  /**
   * The tokens of `java.util.StringTokenizer(text, " \t\n", true)`: every
   * delimiter is a token of its own, and every maximal run of other
   * characters is one token.
   */
  function Tokens(text: string): (r: seq<string>)
    ensures r == [] <==> text == []
    ensures |r| <= |text|
    ensures forall i :: 0 <= i < |r| ==> r[i] != []
    decreases |text|
  {
    if text == [] then []
    else if IsDelimiter(text[0]) then [text[..1]] + Tokens(text[1..])
    else
      var k := WordLength(text);
      [text[..k]] + Tokens(text[k..])
  }

  /**
   * The tokens partition the text: they concatenate to it, each is a single
   * delimiter or a word, and a word is never followed by another word.
   */
  lemma TokensSpec(text: string)
    ensures Concat(Tokens(text)) == text
    ensures forall i :: 0 <= i < |Tokens(text)| ==>
      IsWord(Tokens(text)[i]) || IsDelimiterToken(Tokens(text)[i])
    ensures forall i :: 0 <= i < |Tokens(text)| - 1 ==>
      IsWord(Tokens(text)[i]) ==> IsDelimiterToken(Tokens(text)[i + 1])
  {
    TokensConcat(text);
    TokensKinds(text);
    TokensAlternate(text);
  }

  /** One step of the tokenizer: the first token, and where the rest starts. */
  lemma TokensUnfold(text: string) returns (k: nat)
    requires text != []
    ensures 0 < k <= |text| && Tokens(text) == [text[..k]] + Tokens(text[k..])
    ensures IsDelimiter(text[0]) ==> IsDelimiterToken(text[..k])
    ensures !IsDelimiter(text[0]) ==> IsWord(text[..k]) && (k < |text| ==> IsDelimiter(text[k]))
  {
    k := if IsDelimiter(text[0]) then 1 else WordLength(text);
    if !IsDelimiter(text[0]) {
      forall j | 0 <= j < k ensures !IsDelimiter(text[..k][j]) {
        assert text[..k][j] == text[j];
      }
    }
  }

  /** A non-empty text starts with its first token. */
  lemma TokensHead(text: string)
    requires text != []
    ensures Tokens(text) != [] && Tokens(text)[0][0] == text[0]
  {
    var k := TokensUnfold(text);
  }

  lemma {:induction false} TokensConcat(text: string)
    ensures Concat(Tokens(text)) == text
    decreases |text|
  {
    if text != [] {
      var k := TokensUnfold(text);
      var rest := Tokens(text[k..]);
      TokensConcat(text[k..]);
      ConcatAppend([text[..k]], rest);
      assert Concat([text[..k]]) == text[..k] by {
        assert [text[..k]][..0] == [];
      }
      assert text == text[..k] + text[k..];
    }
  }

  lemma {:induction false} TokensKinds(text: string)
    ensures forall i :: 0 <= i < |Tokens(text)| ==>
      IsWord(Tokens(text)[i]) || IsDelimiterToken(Tokens(text)[i])
    decreases |text|
  {
    if text != [] {
      var k := TokensUnfold(text);
      var rest := Tokens(text[k..]);
      TokensKinds(text[k..]);
      forall i | 0 <= i < |Tokens(text)|
        ensures IsWord(Tokens(text)[i]) || IsDelimiterToken(Tokens(text)[i])
      {
        if i > 0 {
          assert Tokens(text)[i] == rest[i - 1];
        }
      }
    }
  }

  lemma {:induction false} TokensAlternate(text: string)
    ensures forall i :: 0 <= i < |Tokens(text)| - 1 ==>
      IsWord(Tokens(text)[i]) ==> IsDelimiterToken(Tokens(text)[i + 1])
    decreases |text|
  {
    if text != [] {
      var k := TokensUnfold(text);
      var rest := Tokens(text[k..]);
      TokensAlternate(text[k..]);
      TokensKinds(text[k..]);
      forall i | 0 <= i < |Tokens(text)| - 1 && IsWord(Tokens(text)[i])
        ensures IsDelimiterToken(Tokens(text)[i + 1])
      {
        assert Tokens(text)[i + 1] == rest[i];
        if i == 0 {
          // A word runs up to a delimiter, which the rest starts with.
          assert !IsDelimiter(text[0]);
          TokensHead(text[k..]);
          assert text[k..][0] == text[k];
          assert |rest[0]| >= 1 && IsDelimiter(rest[0][0]);
          assert !IsWord(rest[0]);
        } else {
          assert Tokens(text)[i] == rest[i - 1];
        }
      }
    }
  }

  /** All tokens of a grouping, in order. */
  function Flatten(g: seq<seq<string>>): seq<string>
    decreases |g|
  {
    if g == [] then [] else Flatten(g[..|g| - 1]) + g[|g| - 1]
  }

  /** The text of each group: the output lines between two markers. */
  function LineTexts(g: seq<seq<string>>): (lines: seq<string>)
    ensures |lines| == |g|
  {
    seq(|g|, i requires 0 <= i < |g| => Concat(g[i]))
  }

  /**
   * The tokens of `wrapText`, grouped into output lines. A token opens a new
   * line exactly when the current line is already longer than `length`;
   * otherwise it joins the current line. The first line starts out empty.
   */
  function Groups(toks: seq<string>, length: int): (g: seq<seq<string>>)
    ensures |g| >= 1
    decreases |toks|
  {
    if toks == [] then [[]]
    else NextGroups(Groups(toks[..|toks| - 1], length), toks[|toks| - 1], length)
  }

  /** The lines `wrapText(text, length)` separates with markers. */
  function WrapLines(text: string, length: int): seq<string> {
    LineTexts(Groups(Tokens(text), length))
  }

  /** The output so far, after the tokens in `toks`: the lines with a `\l` marker between two lines. */
  function WrappedTokens(toks: seq<string>, length: int): string {
    Join(LineTexts(Groups(toks, length)), LINE_BREAK)
  }

  /** `wrapText(text, length)`: the output after every token of `text`. */
  function Wrapped(text: string, length: int): string {
    WrappedTokens(Tokens(text), length)
  }

  /** The length of the current (last) line after the tokens in `toks`. */
  function CurrentLineLength(toks: seq<string>, length: int): nat {
    var g := Groups(toks, length);
    |Concat(g[|g| - 1])|
  }

  /** One more token, on a new line or on the current one. */
  lemma WrapStep(toks: seq<string>, token: string, length: int)
    ensures CurrentLineLength(toks, length) > length ==>
      WrappedTokens(toks + [token], length) == WrappedTokens(toks, length) + LINE_BREAK + token
      && CurrentLineLength(toks + [token], length) == |token|
    ensures CurrentLineLength(toks, length) <= length ==>
      WrappedTokens(toks + [token], length) == WrappedTokens(toks, length) + token
      && CurrentLineLength(toks + [token], length) == CurrentLineLength(toks, length) + |token|
  {
    assert (toks + [token])[..|toks|] == toks;
    var g := Groups(toks, length);
    var lines := LineTexts(g);
    NextLineTexts(g, token, length);
    if CurrentLineLength(toks, length) > length {
      assert (lines + [token])[..|lines|] == lines;
    } else {
      JoinExtendLast(lines, token, LINE_BREAK);
    }
  }

  /** The lines after one more token: a new line holding it, or the last line extended. */
  lemma NextLineTexts(g: seq<seq<string>>, t: string, length: int)
    requires |g| >= 1
    ensures var n, lines := |g|, LineTexts(g);
      && |NextGroups(g, t, length)| >= 1
      && (|Concat(g[n - 1])| > length ==> LineTexts(NextGroups(g, t, length)) == lines + [t])
      && (|Concat(g[n - 1])| <= length ==>
           LineTexts(NextGroups(g, t, length)) == lines[..n - 1] + [lines[n - 1] + t])
  {
    var n := |g|;
    assert Concat([t]) == t by { assert [t][..0] == []; }
    if |Concat(g[n - 1])| <= length {
      assert Concat(g[n - 1] + [t]) == Concat(g[n - 1]) + t by {
        assert (g[n - 1] + [t])[..|g[n - 1]|] == g[n - 1];
      }
    }
  }

  /**
   * `wrapText`: copy the tokens, and before a token insert a `\l` marker
   * and restart the line count whenever the current line is longer than
   * `length`.
   */
  method WrapText(text: string, length: int) returns (r: string)
    ensures r == Wrapped(text, length)
  {
    var toks := Tokens(text);
    var sb := "";
    var lineLength := 0;
    var i := 0;
    assert toks[..0] == [];
    while i < |toks|
      invariant 0 <= i <= |toks|
      invariant sb == WrappedTokens(toks[..i], length)
      invariant lineLength == CurrentLineLength(toks[..i], length)
    {
      var token := toks[i];
      assert toks[..i + 1] == toks[..i] + [token];
      WrapStep(toks[..i], token, length);
      if lineLength > length {
        lineLength := 0;
        sb := sb + LINE_BREAK;
      }
      sb := sb + token;
      lineLength := lineLength + |token|;
      i := i + 1;
    }
    assert toks[..|toks|] == toks;
    r := sb;
  }
  // ---------------------------------------------------------------------
  // What wrapping promises

  lemma {:induction false} FlattenAppendGroup(g: seq<seq<string>>, last: seq<string>)
    ensures Flatten(g + [last]) == Flatten(g) + last
  {
    assert (g + [last])[..|g|] == g;
  }

  /** Concatenating the lines gives the concatenation of all grouped tokens. */
  lemma {:induction false} ConcatLines(g: seq<seq<string>>)
    ensures Concat(LineTexts(g)) == Concat(Flatten(g))
    decreases |g|
  {
    if g != [] {
      var n := |g|;
      ConcatLines(g[..n - 1]);
      assert LineTexts(g)[..n - 1] == LineTexts(g[..n - 1]);
      ConcatAppend(Flatten(g[..n - 1]), g[n - 1]);
    }
  }

  /** Grouping keeps every token, in order. */
  lemma {:induction false} GroupsFlatten(toks: seq<string>, length: int)
    ensures Flatten(Groups(toks, length)) == toks
    decreases |toks|
  {
    if toks == [] {
      assert Flatten([[]]) == Flatten([]) + [];
    } else {
      var init := toks[..|toks| - 1];
      var t := toks[|toks| - 1];
      assert toks == init + [t];
      GroupsFlatten(init, length);
      NextGroupsFlatten(Groups(init, length), t, length);
    }
  }

  /** One more token is appended to the flattened grouping. */
  lemma NextGroupsFlatten(g: seq<seq<string>>, t: string, length: int)
    requires |g| >= 1
    ensures Flatten(NextGroups(g, t, length)) == Flatten(g) + [t]
  {
    var n := |g|;
    if |Concat(g[n - 1])| > length {
      FlattenAppendGroup(g, [t]);
    } else {
      FlattenAppendGroup(g[..n - 1], g[n - 1] + [t]);
      assert Flatten(g) == Flatten(g[..n - 1]) + g[n - 1];
    }
  }

  /**
   * Removing the inserted markers gives the text back: the lines between
   * markers concatenate to the text, and the output is longer than the text
   * by one marker per line break.
   */
  lemma WrapRoundTrip(text: string, length: int)
    ensures Concat(WrapLines(text, length)) == text
    ensures |Wrapped(text, length)| == |text| + |LINE_BREAK| * (|WrapLines(text, length)| - 1)
  {
    var toks := Tokens(text);
    TokensSpec(text);
    GroupsFlatten(toks, length);
    ConcatLines(Groups(toks, length));
    JoinLength(WrapLines(text, length), LINE_BREAK);
  }

  /**
   * The break rule of `wrapText` on a grouping: every line but the last is
   * longer than `length`; within a line, the tokens before its last one
   * never exceed `length` (a break comes at the first token where the
   * running length exceeds it); only the first line may be empty.
   */
  ghost predicate BreaksWhenLong(g: seq<seq<string>>, length: int) {
    && (forall i :: 0 <= i < |g| - 1 ==> |Concat(g[i])| > length)
    && (forall i, j :: 0 <= i < |g| && 0 < j < |g[i]| ==> |Concat(g[i][..j])| <= length)
    && (forall i :: 0 < i < |g| ==> g[i] != [])
  }

  /** The grouping after one more token, given the grouping before it. */
  function NextGroups(g: seq<seq<string>>, t: string, length: int): seq<seq<string>>
    requires |g| >= 1
  {
    if |Concat(g[|g| - 1])| > length then g + [[t]]
    else g[..|g| - 1] + [g[|g| - 1] + [t]]
  }

  /** One more token keeps the break rule. */
  lemma BreaksWhenLongStep(g: seq<seq<string>>, t: string, length: int)
    requires |g| >= 1 && BreaksWhenLong(g, length)
    ensures BreaksWhenLong(NextGroups(g, t, length), length)
  {
    var n := |g|;
    var g' := NextGroups(g, t, length);
    if |Concat(g[n - 1])| > length {
      assert forall i :: 0 <= i < n ==> g'[i] == g[i];
    } else {
      var last := g[n - 1] + [t];
      assert g' == g[..n - 1] + [last];
      assert forall i :: 0 <= i < n - 1 ==> g'[i] == g[i];
      forall j | 0 < j < |last|
        ensures |Concat(last[..j])| <= length
      {
        if j < |g[n - 1]| {
          assert last[..j] == g[n - 1][..j];
        } else {
          assert last[..j] == g[n - 1];
        }
      }
    }
  }

  lemma {:induction false} GroupsBreakWhenLong(toks: seq<string>, length: int)
    ensures BreaksWhenLong(Groups(toks, length), length)
    ensures Groups(toks, length)[0] == [] <==> (toks == [] || length < 0)
    decreases |toks|
  {
    if toks != [] {
      var init := toks[..|toks| - 1];
      var t := toks[|toks| - 1];
      var g := Groups(init, length);
      GroupsBreakWhenLong(init, length);
      BreaksWhenLongStep(g, t, length);
      var g' := NextGroups(g, t, length);
      if init == [] {
        assert g == [[]];
        assert Concat([]) == "";
        assert g'[0] == [] <==> length < 0;
      } else {
        assert g'[0] == [] <==> g[0] == [];
      }
    }
  }

  /**
   * `wrapText` puts a marker before a token exactly when the running length
   * of the line exceeds `length`, and restarts the count there: the lines it
   * separates obey `BreaksWhenLong` and hold all tokens in order. With a
   * non-negative `length` no marker precedes the first token; with a
   * negative one the output of a non-empty text starts with a marker.
   */
  lemma WrapBreaks(text: string, length: int)
    ensures Flatten(Groups(Tokens(text), length)) == Tokens(text)
    ensures BreaksWhenLong(Groups(Tokens(text), length), length)
    ensures WrapLines(text, length) == LineTexts(Groups(Tokens(text), length))
    ensures length >= 0 && text != [] ==> WrapLines(text, length)[0] != []
    ensures length < 0 && text != [] ==> StartsWith(Wrapped(text, length), LINE_BREAK)
  {
    var toks := Tokens(text);
    var g := Groups(toks, length);
    GroupsFlatten(toks, length);
    GroupsBreakWhenLong(toks, length);
    if text != [] {
      TokensSpec(text);
      assert toks != [];
      if length >= 0 {
        assert IsWord(toks[0]) || IsDelimiterToken(toks[0]);
        FirstLineNonEmpty(g, toks);
      } else {
        assert |g| >= 2 by {
          assert g[0] == [] && Flatten(g) != [];
        }
        LeadingBreak(g);
      }
    }
  }

  /** A first group opened by a non-empty token is a non-empty line. */
  lemma FirstLineNonEmpty(g: seq<seq<string>>, toks: seq<string>)
    requires |g| >= 1 && g[0] != [] && Flatten(g) == toks
    requires toks != [] && toks[0] != []
    ensures LineTexts(g)[0] != []
  {
    GroupsFirstToken(g, toks);
    assert [g[0][0]] + g[0][1..] == g[0];
    ConcatAppend([g[0][0]], g[0][1..]);
    assert Concat([g[0][0]]) == g[0][0] by { assert [g[0][0]][..0] == []; }
  }

  /** An empty first line makes the joined lines start with a marker. */
  lemma LeadingBreak(g: seq<seq<string>>)
    requires |g| >= 2 && g[0] == []
    ensures StartsWith(Join(LineTexts(g), LINE_BREAK), LINE_BREAK)
  {
    var lines := LineTexts(g);
    assert lines[0] == "";
    assert lines[..1] == [""];
    JoinSplit(lines, 1, LINE_BREAK);
  }

  /** The first token of a grouping with a non-empty first group opens it. */
  lemma {:induction false} GroupsFirstToken(g: seq<seq<string>>, toks: seq<string>)
    requires |g| >= 1 && g[0] != [] && Flatten(g) == toks
    ensures toks != [] && g[0][0] == toks[0]
    decreases |g|
  {
    if |g| == 1 {
      assert Flatten(g) == Flatten([]) + g[0];
    } else {
      var n := |g|;
      GroupsFirstToken(g[..n - 1], Flatten(g[..n - 1]));
      assert Flatten(g) == Flatten(g[..n - 1]) + g[n - 1];
    }
  }
}
