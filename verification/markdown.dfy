/**
 * The built-in Markdown converter of build.js (`basicMarkdownToHtml`,
 * `inlineMarkdown`) and the choice `renderContent` makes between it, the
 * optional external `marked` parser and raw HTML.  Every regular expression
 * is written out as a scanner with the JavaScript semantics: leftmost match,
 * greedy and lazy quantifiers as written, `.` not matching line terminators.
 */
module Markdown {
  import opened Text
  import opened Escape
  import Tags

  // ----------------------------------------------------------------------
  // Inline spans: `.replace(/D(.+?)D/g, '<tag>$1</tag>')` and
  // `.replace(/`([^`]+)`/g, '<code>$1</code>')`.
  // ----------------------------------------------------------------------

  predicate IsBacktick(c: char) { c == '`' }

  /** No character of `s[lo..hi]` is a stop character. */
  predicate FreeOf(s: string, lo: int, hi: int, stop: char -> bool)
    requires 0 <= lo <= hi <= |s|
  {
    forall k :: lo <= k < hi ==> !stop(s[k])
  }

  /** A closing delimiter `d` at `j` ends a span opened by `d` at index 0:
      the content `s[|d|..j]` is non-empty and free of stop characters. */
  predicate CloseAt(s: string, d: string, stop: char -> bool, j: int) {
    |d| < j && j + |d| <= |s| && OccursAt(s, d, j) && FreeOf(s, |d|, j, stop)
  }

  /** The lazy search for the closing delimiter, trying `j`, `j + 1`, …;
      the content before `j` is known to be free of stop characters. */
  function FindClose(s: string, d: string, stop: char -> bool, j: nat): (r: Option<nat>)
    requires |d| < j
    requires j <= |s| ==> FreeOf(s, |d|, j - 1, stop)
    ensures r.Some? ==> CloseAt(s, d, stop, r.value) && j <= r.value
    ensures r.Some? ==> forall m :: j <= m < r.value ==> !CloseAt(s, d, stop, m)
    ensures r.None? ==> forall m :: j <= m ==> !CloseAt(s, d, stop, m)
    decreases |s| - j
  {
    if j + |d| > |s| then None
    else if stop(s[j - 1]) then None
    else if OccursAt(s, d, j) then Some(j)
    else FindClose(s, d, stop, j + 1)
  }

  /** The span the regular expression matches at index 0, given by the
      index of its closing delimiter. */
  function SpanAt(s: string, d: string, stop: char -> bool): (r: Option<nat>)
    requires d != []
    ensures r.Some? ==> StartsWith(s, d) && CloseAt(s, d, stop, r.value)
    ensures r.Some? ==> forall m :: m < r.value ==> !CloseAt(s, d, stop, m)
    ensures r.None? ==> !StartsWith(s, d) || forall m :: !CloseAt(s, d, stop, m)
  {
    if StartsWith(s, d) then FindClose(s, d, stop, |d| + 1) else None
  }

  /** A global replacement of every span delimited by `d` with
      `open + content + close`, scanning left to right. */
  function ReplaceSpans(s: string, d: string, stop: char -> bool, open: string, close: string): string
    requires d != []
    decreases |s|
  {
    if s == [] then []
    else match SpanAt(s, d, stop)
      case Some(j) => open + s[|d|..j] + close + ReplaceSpans(s[j + |d|..], d, stop, open, close)
      case None => [s[0]] + ReplaceSpans(s[1..], d, stop, open, close)
  }

  /** `inlineMarkdown`: `**`, then `__`, then `*`, then `_`, then backticks. */
  function InlineMarkdown(text: string): string
  {
    AfterStrong(ReplaceSpans(text, "**", IsLineTerminator, "<strong>", "</strong>"))
  }

  /** The passes after `**`: `__`, `*`, then the rest. */
  function AfterStrong(strong: string): string
  {
    var strongU := ReplaceSpans(strong, "__", IsLineTerminator, "<strong>", "</strong>");
    AfterEm(ReplaceSpans(strongU, "*", IsLineTerminator, "<em>", "</em>"))
  }

  /** The passes after `*`: `_`, then backticks. */
  function AfterEm(em: string): string
  {
    var emU := ReplaceSpans(em, "_", IsLineTerminator, "<em>", "</em>");
    ReplaceSpans(emU, "`", IsBacktick, "<code>", "</code>")
  }

  /** A prefix that does not contain the delimiter's first character is
      copied, and the scan goes on after it. */
  lemma {:induction false} ReplaceSpansPlainPrefix(a: string, b: string, d: string, stop: char -> bool, open: string, close: string)
    requires d != []
    requires forall i :: 0 <= i < |a| ==> a[i] != d[0]
    ensures ReplaceSpans(a + b, d, stop, open, close) == a + ReplaceSpans(b, d, stop, open, close)
    decreases |a|
  {
    if a != [] {
      var s := a + b;
      assert s[0] == a[0] && !StartsWith(s, d);
      assert s[1..] == a[1..] + b;
      ReplaceSpansPlainPrefix(a[1..], b, d, stop, open, close);
    } else {
      assert a + b == b;
    }
  }

  /** Text without the delimiter's first character is left unchanged. */
  lemma ReplaceSpansPlain(s: string, d: string, stop: char -> bool, open: string, close: string)
    requires d != []
    requires forall i :: 0 <= i < |s| ==> s[i] != d[0]
    ensures ReplaceSpans(s, d, stop, open, close) == s
  {
    ReplaceSpansPlainPrefix(s, [], d, stop, open, close);
    assert s + [] == s;
  }

  predicate NoMarker(s: string) {
    forall i :: 0 <= i < |s| ==> s[i] != '*' && s[i] != '_' && s[i] != '`'
  }

  /** Text without `*`, `_` or a backtick passes through `inlineMarkdown`
      unchanged. */
  lemma InlinePlain(s: string)
    requires NoMarker(s)
    ensures InlineMarkdown(s) == s
  {
    ReplaceSpansPlain(s, "**", IsLineTerminator, "<strong>", "</strong>");
    AfterStrongPlain(s);
  }

  lemma AfterStrongPlain(s: string)
    requires NoMarker(s)
    ensures AfterStrong(s) == s
  {
    ReplaceSpansPlain(s, "__", IsLineTerminator, "<strong>", "</strong>");
    ReplaceSpansPlain(s, "*", IsLineTerminator, "<em>", "</em>");
    AfterEmPlain(s);
  }

  lemma AfterEmPlain(s: string)
    requires NoMarker(s)
    ensures AfterEm(s) == s
  {
    ReplaceSpansPlain(s, "_", IsLineTerminator, "<em>", "</em>");
    ReplaceSpansPlain(s, "`", IsBacktick, "<code>", "</code>");
  }

  /** Text between two markup tags keeps having no marker. */
  lemma WrapNoMarker(open: string, x: string, close: string)
    requires NoMarker(open) && NoMarker(x) && NoMarker(close)
    ensures NoMarker(open + x + close)
  {
    var r := open + x + close;
    forall i | 0 <= i < |r| ensures r[i] != '*' && r[i] != '_' && r[i] != '`' {
      if i < |open| {
        assert r[i] == open[i];
      } else if i < |open| + |x| {
        assert r[i] == x[i - |open|];
      } else {
        assert r[i] == close[i - |open| - |x|];
      }
    }
  }

  lemma TagsNoMarker()
    ensures NoMarker("<strong>") && NoMarker("</strong>") && NoMarker("<em>") && NoMarker("</em>")
  {
  }

  /** A two-character delimiter that never appears as a pair of neighbours
      does not occur. */
  lemma NoPair(s: string, d: string)
    requires |d| == 2 && forall i :: 0 <= i < |s| - 1 ==> !(s[i] == d[0] && s[i + 1] == d[1])
    ensures !Contains(s, d)
  {
    forall i | 0 <= i < |s| - 1 ensures !OccursAt(s, d, i) {
      assert s[i..i + 2][0] == s[i] && s[i..i + 2][1] == s[i + 1];
    }
  }

  /** `d + x + d` with plain content is one span. */
  lemma {:induction false} SpanWhole(x: string, d: string, stop: char -> bool, open: string, close: string)
    requires d != [] && x != []
    requires forall i :: 0 <= i < |x| ==> x[i] != d[0] && !stop(x[i])
    ensures ReplaceSpans(d + x + d, d, stop, open, close) == open + x + close
  {
    var s := d + x + d;
    var j := |d| + |x|;
    assert StartsWith(s, d);
    assert CloseAt(s, d, stop, j) by {
      assert s[j..j + |d|] == d;
      assert forall k :: |d| <= k < j ==> s[k] == x[k - |d|];
    }
    forall m | |d| < m < j ensures !CloseAt(s, d, stop, m) {
      assert s[m] == x[m - |d|];
      assert s[m..m + |d|][0] == s[m];
    }
    assert SpanAt(s, d, stop) == Some(j);
    assert s[|d|..j] == x;
    assert s[j + |d|..] == [];
  }

  /** `**x**`, with `x` non-empty and free of markers and line breaks, is
      bold and nothing else: the later `*` pass cannot turn it into `<em>`. */
  lemma InlineStrong(x: string)
    requires x != [] && NoMarker(x) && NoLineTerminator(x)
    ensures InlineMarkdown("**" + x + "**") == "<strong>" + x + "</strong>"
  {
    SpanWhole(x, "**", IsLineTerminator, "<strong>", "</strong>");
    TagsNoMarker();
    WrapNoMarker("<strong>", x, "</strong>");
    AfterStrongPlain("<strong>" + x + "</strong>");
  }

  /** `*x*` with the same kind of content is italic. */
  lemma InlineEmphasis(x: string)
    requires x != [] && NoMarker(x) && NoLineTerminator(x)
    ensures InlineMarkdown("*" + x + "*") == "<em>" + x + "</em>"
  {
    var s := "*" + x + "*";
    EmphasisNoStrong(x);
    NoSpanWithoutDelimiter(s, "**", IsLineTerminator, "<strong>", "</strong>");
    NoSpanWithoutDelimiter(s, "__", IsLineTerminator, "<strong>", "</strong>");
    SpanWhole(x, "*", IsLineTerminator, "<em>", "</em>");
    TagsNoMarker();
    WrapNoMarker("<em>", x, "</em>");
    AfterEmPlain("<em>" + x + "</em>");
  }

  /** Neither strong delimiter occurs in `*x*`. */
  lemma EmphasisNoStrong(x: string)
    requires x != [] && NoMarker(x)
    ensures !Contains("*" + x + "*", "**") && !Contains("*" + x + "*", "__")
  {
    var s := "*" + x + "*";
    assert forall i :: 0 < i < |s| - 1 ==> s[i] == x[i - 1];
    NoPair(s, "**");
    NoPair(s, "__");
  }

  /** Text in which the delimiter never occurs is left unchanged. */
  lemma {:induction false} NoSpanWithoutDelimiter(s: string, d: string, stop: char -> bool, open: string, close: string)
    requires d != []
    requires !Contains(s, d)
    ensures ReplaceSpans(s, d, stop, open, close) == s
    decreases |s|
  {
    if s != [] {
      assert !OccursAt(s, d, 0);
      assert forall i :: OccursAt(s[1..], d, i) ==> OccursAt(s, d, i + 1);
      NoSpanWithoutDelimiter(s[1..], d, stop, open, close);
    }
  }

  // ----------------------------------------------------------------------
  // Blocks: `split(/\n{2,}/)`.
  // ----------------------------------------------------------------------

  predicate BreakAt(s: string, k: int) {
    0 <= k && k + 1 < |s| && s[k] == '\n' && s[k + 1] == '\n'
  }

  /** The leftmost match of `\n\n` at or after `i`. */
  function NextBreak(s: string, i: nat): (r: Option<nat>)
    requires i <= |s|
    ensures r.Some? ==> i <= r.value && BreakAt(s, r.value)
    ensures r.Some? ==> forall k :: i <= k < r.value ==> !BreakAt(s, k)
    ensures r.None? ==> forall k :: i <= k ==> !BreakAt(s, k)
    decreases |s| - i
  {
    if i + 1 >= |s| then None
    else if BreakAt(s, i) then Some(i)
    else NextBreak(s, i + 1)
  }

  /** The end of the run of newlines starting at `j`: `\n{2,}` is greedy. */
  function RunEnd(s: string, j: nat): (r: nat)
    requires j <= |s|
    ensures j <= r <= |s|
    ensures forall k :: j <= k < r ==> s[k] == '\n'
    ensures r == |s| || s[r] != '\n'
    decreases |s| - j
  {
    if j < |s| && s[j] == '\n' then RunEnd(s, j + 1) else j
  }

  /** The pieces of `s[i..]` between runs of two or more newlines. */
  function SplitFrom(s: string, i: nat): (r: seq<string>)
    requires i <= |s|
    ensures r != []
    decreases |s| - i
  {
    match NextBreak(s, i)
    case None => [s[i..]]
    case Some(j) => [s[i..j]] + SplitFrom(s, RunEnd(s, j))
  }

  /** The runs of newlines `SplitFrom` cuts at, in order. */
  ghost function BreaksFrom(s: string, i: nat): seq<string>
    requires i <= |s|
    decreases |s| - i
  {
    match NextBreak(s, i)
    case None => []
    case Some(j) => [s[j..RunEnd(s, j)]] + BreaksFrom(s, RunEnd(s, j))
  }

  /** `markdown.split(/\n{2,}/)`. */
  function SplitBlocks(s: string): seq<string>
  {
    SplitFrom(s, 0)
  }

  /** Pieces and separators put back together, alternating. */
  function Weave(pieces: seq<string>, seps: seq<string>): string
    requires |pieces| == |seps| + 1
  {
    if seps == [] then pieces[0] else pieces[0] + seps[0] + Weave(pieces[1..], seps[1..])
  }

  predicate NoBreak(p: string) {
    forall k :: 0 <= k < |p| - 1 ==> !(p[k] == '\n' && p[k + 1] == '\n')
  }

  predicate IsNewlineRun(r: string) {
    |r| >= 2 && forall k :: 0 <= k < |r| ==> r[k] == '\n'
  }

  /** What `split(/\n{2,}/)` returns, described without the scan: the text
      is the pieces woven with separators that are runs of at least two
      newlines; no piece holds two newlines in a row; a separator is never
      next to a further newline and no piece between two separators is
      empty, so the runs are whole. */
  predicate SplitShape(s: string, pieces: seq<string>, seps: seq<string>) {
    && |pieces| == |seps| + 1
    && s == Weave(pieces, seps)
    && (forall m :: 0 <= m < |seps| ==> IsNewlineRun(seps[m]))
    && (forall m :: 0 <= m < |pieces| ==> NoBreak(pieces[m]))
    && (forall m :: 0 <= m < |seps| ==> pieces[m] == [] || pieces[m][|pieces[m]| - 1] != '\n')
    && (forall m :: 0 < m < |pieces| ==> pieces[m] == [] || pieces[m][0] != '\n')
    && (forall m :: 0 < m < |seps| ==> pieces[m] != [])
  }

  /** The scan cuts exactly at the whole runs of two or more newlines. */
  lemma {:induction false} SplitFromShape(s: string, i: nat)
    requires i <= |s|
    requires i == 0 || s[i - 1] != '\n' || i == |s| || s[i] != '\n'
    ensures SplitShape(s[i..], SplitFrom(s, i), BreaksFrom(s, i))
    decreases |s| - i
  {
    match NextBreak(s, i)
    case None =>
      LastPiece(s, i);
    case Some(j) =>
      var e := RunEnd(s, j);
      SplitFromShape(s, e);
      var pieces, seps := SplitFrom(s, e), BreaksFrom(s, e);
      BreakStep(s, i, j);
      FirstPieceStart(s, e, pieces, seps);
      SplitShapeCons(s[i..], s[i..j], s[j..e], s[e..], pieces, seps);
  }

  /** Without a further break the rest is one piece. */
  lemma LastPiece(s: string, i: nat)
    requires i <= |s| && NextBreak(s, i).None?
    ensures SplitShape(s[i..], [s[i..]], [])
  {
    forall k | 0 <= k < |s[i..]| - 1 ensures !(s[i..][k] == '\n' && s[i..][k + 1] == '\n') {
      assert !BreakAt(s, i + k);
    }
  }

  /** The piece before the next break and the run of newlines at it. */
  lemma BreakStep(s: string, i: nat, j: nat)
    requires i <= |s| && NextBreak(s, i) == Some(j)
    requires i == 0 || s[i - 1] != '\n' || i == |s| || s[i] != '\n'
    ensures var e := RunEnd(s, j);
      && NoBreak(s[i..j]) && IsNewlineRun(s[j..e])
      && (s[i..j] == [] || s[i..j][|s[i..j]| - 1] != '\n')
      && s[i..] == s[i..j] + s[j..e] + s[e..]
  {
    var e := RunEnd(s, j);
    ThreeSlices(s, i, j, e);
    forall k | 0 <= k < |s[i..j]| - 1 ensures !(s[i..j][k] == '\n' && s[i..j][k + 1] == '\n') {
      assert !BreakAt(s, i + k);
    }
    assert j > i ==> s[j - 1] != '\n' by {
      if j > i { assert !BreakAt(s, j - 1); }
    }
    assert e >= j + 2;
  }

  /** The piece after a whole run of newlines does not start with one. */
  lemma FirstPieceStart(s: string, e: nat, pieces: seq<string>, seps: seq<string>)
    requires e <= |s| && (e == |s| || s[e] != '\n') && SplitShape(s[e..], pieces, seps)
    ensures pieces[0] == [] || pieces[0][0] != '\n'
    ensures seps != [] ==> pieces[0] != []
  {
    if pieces[0] != [] {
      WeaveHead(pieces, seps);
      assert pieces[0][0] == s[e..][0];
    }
  }

  lemma ThreeSlices(s: string, i: nat, j: nat, e: nat)
    requires i <= j <= e <= |s|
    ensures s[i..] == s[i..j] + s[j..e] + s[e..]
  {
  }

  /** A piece and a separator in front of a split text. */
  lemma SplitShapeCons(whole: string, piece: string, sep: string, rest: string, pieces: seq<string>, seps: seq<string>)
    requires SplitShape(rest, pieces, seps) && NoBreak(piece) && IsNewlineRun(sep)
    requires piece == [] || piece[|piece| - 1] != '\n'
    requires pieces[0] == [] || pieces[0][0] != '\n'
    requires seps != [] ==> pieces[0] != []
    requires whole == piece + sep + rest
    ensures SplitShape(whole, [piece] + pieces, [sep] + seps)
  {
    var all, allSeps := [piece] + pieces, [sep] + seps;
    assert all[1..] == pieces && allSeps[1..] == seps;
    assert forall m :: 0 < m < |all| ==> all[m] == pieces[m - 1];
    assert forall m :: 0 < m < |allSeps| ==> allSeps[m] == seps[m - 1];
  }

  /** A woven text starts with its first piece. */
  lemma WeaveHead(pieces: seq<string>, seps: seq<string>)
    requires |pieces| == |seps| + 1
    ensures StartsWith(Weave(pieces, seps), pieces[0])
  {
  }

  lemma SplitBlocksShape(s: string)
    ensures SplitShape(s, SplitBlocks(s), BreaksFrom(s, 0))
  {
    SplitFromShape(s, 0);
    assert s[0..] == s;
  }

  // ----------------------------------------------------------------------
  // One block: fenced code, ATX heading or paragraph.
  // ----------------------------------------------------------------------

  /** The run of `\w` characters starting at `k`. */
  function WordRun(s: string, k: nat): (r: string)
    requires k <= |s|
    ensures k + |r| <= |s| && r == s[k..k + |r|]
    ensures forall i :: 0 <= i < |r| ==> IsWordChar(r[i])
    ensures k + |r| == |s| || !IsWordChar(s[k + |r|])
    decreases |s| - k
  {
    if k < |s| && IsWordChar(s[k]) then [s[k]] + WordRun(s, k + 1) else []
  }

  /** A block that starts with three backticks: the language is the word
      after the fence, the code is the rest without the opening line's
      fence, one newline and a closing fence at the very end. */
  function CodeBlock(t: string): string
    requires StartsWith(t, "```")
  {
    var language := WordRun(t, 3);
    "<pre><code" + LanguageAttr(language) + ">" + EscapeHtml(FenceCode(t[3 + |language|..])) + "</code></pre>"
  }

  /** The code after the opening word: at most one newline dropped, then a
      closing fence at the very end. */
  function FenceCode(rest: string): string
  {
    var body := if rest != [] && rest[0] == '\n' then rest[1..] else rest;
    if EndsWith(body, "```") then body[..|body| - 3] else body
  }

  /** The number of `#` characters that start `s`. */
  function HashRun(s: string): (r: nat)
    ensures r <= |s|
    ensures forall i :: 0 <= i < r ==> s[i] == '#'
    ensures r == |s| || s[r] != '#'
  {
    if s != [] && s[0] == '#' then 1 + HashRun(s[1..]) else 0
  }

  /** `/^(#{1,6})\s+(.*)$/`: the level and the heading text, if it matches. */
  function HeadingMatch(t: string): (r: Option<(nat, string)>)
    ensures r.Some? ==> 1 <= r.value.0 <= 6 && NoLineTerminator(r.value.1)
  {
    var level := HashRun(t);
    if 1 <= level <= 6 && level < |t| && IsWhite(t[level]) then
      var textStart := WhiteEnd(t, level);
      var text := t[textStart..];
      if NoLineTerminator(text) then Some((level, text)) else None
    else None
  }

  function LevelDigit(level: nat): char
    requires 1 <= level <= 6
  {
    ('0' as int + level) as char
  }

  function Heading(level: nat, text: string): string
    requires 1 <= level <= 6
  {
    "<h" + [LevelDigit(level)] + ">" + InlineMarkdown(text) + "</h" + [LevelDigit(level)] + ">"
  }

  function Paragraph(t: string): string
  {
    "<p>" + InlineMarkdown(t) + "</p>"
  }

  /** A trimmed, non-empty block: fenced code first, then a heading, else a
      paragraph. */
  function RenderTrimmed(t: string): (r: string)
    ensures r != ""
  {
    if StartsWith(t, "```") then CodeBlock(t)
    else match HeadingMatch(t)
      case Some((level, text)) => Heading(level, text)
      case None => Paragraph(t)
  }

  /** The HTML of one block of `basicMarkdownToHtml`, before filtering. */
  function RenderBlock(block: string): string
  {
    var t := Trim(block);
    if t == [] then "" else RenderTrimmed(t)
  }

  /** A block renders to nothing exactly when it is blank, so
      `filter(Boolean)` drops the blank blocks and only those. */
  lemma RenderBlockEmptyIff(block: string)
    ensures RenderBlock(block) == "" <==> AllWhite(block)
  {
    TrimEmptyIff(block);
  }

  function LanguageAttr(language: string): string
  {
    if language != [] then " class=\"language-" + language + "\"" else ""
  }

  predicate AllWord(s: string) {
    forall i :: 0 <= i < |s| ==> IsWordChar(s[i])
  }

  /** A block with nothing to trim is rendered by its kind. */
  lemma RenderBlockTrimmed(b: string)
    requires b != [] && !IsWhite(b[0]) && !IsWhite(b[|b| - 1])
    ensures RenderBlock(b) == RenderTrimmed(b)
  {
    TrimIdentity(b);
  }

  lemma RenderTrimmedCode(t: string)
    requires StartsWith(t, "```")
    ensures RenderTrimmed(t) == CodeBlock(t)
  {
  }

  lemma RenderTrimmedHeading(t: string, k: nat, text: string)
    requires 1 <= k <= 6
    requires !StartsWith(t, "```") && HeadingMatch(t) == Some((k, text))
    ensures RenderTrimmed(t) == Heading(k, text)
  {
  }

  lemma RenderTrimmedParagraph(t: string)
    requires !StartsWith(t, "```") && HeadingMatch(t) == None
    ensures RenderTrimmed(t) == Paragraph(t)
  {
  }

  /** The code of a fenced block is what lies between the opening line and
      the closing fence. */
  lemma CodeBlockOf(language: string, code: string)
    requires AllWord(language)
    ensures var t := "```" + language + "\n" + code + "```";
      StartsWith(t, "```") && CodeBlock(t) == "<pre><code" + LanguageAttr(language) + ">" + EscapeHtml(code) + "</code></pre>"
  {
    CodeBlockCases(language, "\n", code, "```");
  }


  /** A fenced block: the word after the fence becomes the language class
      (none when no word follows), and the code between the opening line
      and the closing fence is escaped and given no inline markup. */
  lemma FencedBlock(language: string, code: string)
    requires AllWord(language)
    ensures RenderBlock("```" + language + "\n" + code + "```")
      == "<pre><code" + LanguageAttr(language) + ">" + EscapeHtml(code) + "</code></pre>"
  {
    var t := "```" + language + "\n" + code + "```";
    assert t[0] == '`' && t[|t| - 1] == '`';
    RenderBlockTrimmed(t);
    CodeBlockOf(language, code);
    RenderTrimmedCode(t);
  }

  lemma {:induction false} WordRunOf(s: string, k: nat, n: nat)
    requires k + n < |s| && AllWord(s[k..k + n]) && !IsWordChar(s[k + n])
    ensures WordRun(s, k) == s[k..k + n]
    decreases n
  {
    if n > 0 {
      assert IsWordChar(s[k..k + n][0]);
      assert s[k + 1..k + n] == s[k..k + n][1..];
      WordRunOf(s, k + 1, n - 1);
      assert s[k..k + n] == [s[k]] + s[k + 1..k + n];
    }
  }

  /** Code without any of the five special characters appears verbatim, a
      final newline included. */
  lemma PlainFencedBlock(language: string, code: string)
    requires AllWord(language)
    requires forall i :: 0 <= i < |code| ==> !IsSpecial(code[i])
    ensures RenderBlock("```" + language + "\n" + code + "```")
      == "<pre><code" + LanguageAttr(language) + ">" + code + "</code></pre>"
  {
    FencedBlock(language, code);
    EscapeHtmlPlain(code);
  }

  /** What any block that starts with three backticks renders to: the
      fence, the longest word after it, at most one newline, the code, and a
      closing fence only when the block ends with one.  This covers an
      unclosed fence (a fenced block cut in two by a blank line) and a word
      followed by something other than a newline, which stays in the code. */
  lemma FencedBlockCases(language: string, sep: string, code: string, close: string)
    requires AllWord(language)
    requires sep == "\n" || (sep == [] && (code == [] || (code[0] != '\n' && !IsWordChar(code[0]))))
    requires close == "```" || (close == [] && !EndsWith(code, "```"))
    requires var t := "```" + language + sep + code + close; !IsWhite(t[|t| - 1])
    ensures RenderBlock("```" + language + sep + code + close)
      == "<pre><code" + LanguageAttr(language) + ">" + EscapeHtml(code) + "</code></pre>"
  {
    var t := "```" + language + sep + code + close;
    assert t[0] == '`';
    RenderBlockTrimmed(t);
    CodeBlockCases(language, sep, code, close);
    RenderTrimmedCode(t);
  }

  lemma CodeBlockCases(language: string, sep: string, code: string, close: string)
    requires AllWord(language)
    requires sep == "\n" || (sep == [] && (code == [] || (code[0] != '\n' && !IsWordChar(code[0]))))
    requires close == "```" || (close == [] && !EndsWith(code, "```"))
    ensures var t := "```" + language + sep + code + close;
      StartsWith(t, "```") && CodeBlock(t) == "<pre><code" + LanguageAttr(language) + ">" + EscapeHtml(code) + "</code></pre>"
  {
    var rest := sep + code + close;
    assert rest == [] || !IsWordChar(rest[0]) by {
      if sep == [] && code == [] && close != [] {
        assert rest[0] == '`';
      }
    }
    CodeBlockOfParts(language, rest);
    FenceCodeOf(sep, code, close);
    Assoc("```" + language, sep, code);
    Assoc("```" + language, sep + code, close);
  }

  lemma CodeBlockOfParts(language: string, rest: string)
    requires AllWord(language) && (rest == [] || !IsWordChar(rest[0]))
    ensures var t := "```" + language + rest;
      StartsWith(t, "```") && CodeBlock(t) == "<pre><code" + LanguageAttr(language) + ">" + EscapeHtml(FenceCode(rest)) + "</code></pre>"
  {
    var t := "```" + language + rest;
    var n := |language|;
    assert StartsWith(t, "```") by {
      assert t[..3] == "```";
    }
    assert t[3 + n..] == rest;
    assert WordRun(t, 3) == language by {
      assert t[3..3 + n] == language;
      WordRunBefore(t, 3, n);
    }
  }

  lemma FenceCodeOf(sep: string, code: string, close: string)
    requires sep == "\n" || (sep == [] && (code == [] || code[0] != '\n'))
    requires close == "```" || (close == [] && !EndsWith(code, "```"))
    ensures FenceCode(sep + code + close) == code
  {
    var body := code + close;
    assert sep + code + close == sep + body by {
      Assoc(sep, code, close);
    }
    if sep == [] && code == [] && close != [] {
      assert body[0] == '`';
    }
    DropNewline(sep, body);
    DropClose(code, close);
  }

  lemma DropNewline(sep: string, body: string)
    requires sep == "\n" || (sep == [] && (body == [] || body[0] != '\n'))
    ensures var rest := sep + body;
      (if rest != [] && rest[0] == '\n' then rest[1..] else rest) == body
  {
    if sep == "\n" {
      assert (sep + body)[1..] == body;
    } else {
      assert sep + body == body;
    }
  }

  lemma DropClose(code: string, close: string)
    requires close == "```" || (close == [] && !EndsWith(code, "```"))
    ensures var body := code + close;
      (if EndsWith(body, "```") then body[..|body| - 3] else body) == code
  {
    var body := code + close;
    if close == "```" {
      assert body[|body| - 3..] == close;
      assert body[..|body| - 3] == code;
    } else {
      assert body == code;
    }
  }


  /** The word run is exactly the `n` word characters at `k` when what
      follows them, if anything, is not a word character. */
  lemma WordRunBefore(s: string, k: nat, n: nat)
    requires k + n <= |s| && AllWord(s[k..k + n])
    requires k + n == |s| || !IsWordChar(s[k + n])
    ensures WordRun(s, k) == s[k..k + n]
  {
  }

  /** `/^(#{1,6})\s+(.*)$/` matches one to six `#`, white space and a
      line without a break. */
  lemma HeadingMatchOf(k: nat, w: string, text: string)
    requires 1 <= k <= 6
    requires w != [] && AllWhite(w)
    requires text == [] || !IsWhite(text[0])
    requires NoLineTerminator(text)
    ensures HeadingMatch(Hashes(k) + w + text) == Some((k, text))
  {
    var t := Hashes(k) + w + text;
    assert forall i :: 0 <= i < k ==> t[i] == '#';
    HashRunOf(t, k);
    assert t[k] == w[0];
    if text == [] {
      assert t[k..k + |w|] == w;
      WhiteEndAll(t, k);
    } else {
      WhiteEndOf(t, k, |w|);
    }
    assert t[k + |w|..] == text;
  }

  /** Conversely, a match is always one to six `#`, white space that
      cannot be empty, and the text. */
  lemma HeadingMatchShape(t: string)
    requires HeadingMatch(t).Some?
    ensures var k := HeadingMatch(t).value.0;
      exists w :: w != [] && AllWhite(w) && t == Hashes(k) + w + HeadingMatch(t).value.1
  {
    var k := HashRun(t);
    var e := WhiteEnd(t, k);
    var w := t[k..e];
    assert e != k;
    assert t[..k] == Hashes(k);
    assert t == t[..k] + t[k..e] + t[e..];
  }

  lemma {:induction false} WhiteEndAll(s: string, k: nat)
    requires k <= |s| && AllWhite(s[k..])
    ensures WhiteEnd(s, k) == |s|
    decreases |s| - k
  {
    if k < |s| {
      assert IsWhite(s[k..][0]);
      assert s[k + 1..] == s[k..][1..];
      WhiteEndAll(s, k + 1);
    }
  }

  /** A heading block: one to six `#`, white space, and text without a
      line break becomes `<hk>` around the inline markup of that text. */
  lemma HeadingBlock(k: nat, w: string, text: string)
    requires 1 <= k <= 6
    requires w != [] && AllWhite(w)
    requires text != [] && !IsWhite(text[0]) && !IsWhite(text[|text| - 1]) && NoLineTerminator(text)
    ensures RenderBlock(Hashes(k) + w + text) == Heading(k, text)
  {
    var t := Hashes(k) + w + text;
    assert t[0] == '#' && t[|t| - 1] == text[|text| - 1];
    assert !StartsWith(t, "```") by { assert t[0] != '`'; }
    HeadingMatchOf(k, w, text);
    RenderBlockHeading(t, k, text);
  }

  lemma RenderBlockHeading(t: string, k: nat, text: string)
    requires 1 <= k <= 6
    requires t != [] && !IsWhite(t[0]) && !IsWhite(t[|t| - 1])
    requires !StartsWith(t, "```") && HeadingMatch(t) == Some((k, text))
    ensures RenderBlock(t) == Heading(k, text)
  {
    RenderBlockTrimmed(t);
    RenderTrimmedHeading(t, k, text);
  }

  /** Seven or more `#` never make a heading: the block is a paragraph. */
  lemma DeepHashesParagraph(k: nat, rest: string)
    requires k >= 7
    requires rest == [] || !IsWhite(rest[|rest| - 1])
    ensures RenderBlock(Hashes(k) + rest) == Paragraph(Hashes(k) + rest)
  {
    var t := Hashes(k) + rest;
    assert t[0] == '#' && t[|t| - 1] == if rest == [] then '#' else rest[|rest| - 1];
    assert !StartsWith(t, "```") by { assert t[0] != '`'; }
    assert forall i :: 0 <= i < k ==> t[i] == '#';
    HashRunAtLeast(t, 7);
    NoHeadingPastSix(t);
    RenderBlockTrimmed(t);
    RenderTrimmedParagraph(t);
  }

  lemma NoHeadingPastSix(t: string)
    requires HashRun(t) >= 7
    ensures HeadingMatch(t) == None
  {
  }

  function Hashes(k: nat): (r: string)
    ensures |r| == k && forall i :: 0 <= i < k ==> r[i] == '#'
  {
    if k == 0 then [] else "#" + Hashes(k - 1)
  }

  lemma {:induction false} HashRunAtLeast(s: string, k: nat)
    requires k <= |s| && forall i :: 0 <= i < k ==> s[i] == '#'
    ensures HashRun(s) >= k
  {
    if k > 0 {
      HashRunAtLeast(s[1..], k - 1);
    }
  }

  lemma HashRunOf(s: string, k: nat)
    requires k < |s| && (forall i :: 0 <= i < k ==> s[i] == '#') && s[k] != '#'
    ensures HashRun(s) == k
  {
    HashRunAtLeast(s, k);
  }

  lemma {:induction false} WhiteEndOf(s: string, k: nat, n: nat)
    requires k + n < |s| && AllWhite(s[k..k + n]) && !IsWhite(s[k + n])
    ensures WhiteEnd(s, k) == k + n
    decreases n
  {
    if n > 0 {
      assert IsWhite(s[k..k + n][0]);
      assert s[k + 1..k + n] == s[k..k + n][1..];
      WhiteEndOf(s, k + 1, n - 1);
    }
  }

  // ----------------------------------------------------------------------
  // The whole converter and `renderContent`.
  // ----------------------------------------------------------------------

  predicate NotBlank(s: string) { !AllWhite(s) }

  /** `blocks.map(renderBlock).filter(Boolean)`. */
  function RenderBlocks(blocks: seq<string>): seq<string>
  {
    Filter(NonEmpty, Map(RenderBlock, blocks))
  }

  /** Filtering rendered blocks by non-emptiness is the same as rendering
      the non-blank blocks: one output per non-blank block, in order. */
  lemma RenderBlocksNonBlank(blocks: seq<string>)
    ensures RenderBlocks(blocks) == Map(RenderBlock, Filter(NotBlank, blocks))
  {
    forall b ensures NonEmpty(RenderBlock(b)) == NotBlank(b) {
      RenderBlockEmptyIff(b);
    }
    FilterMap(RenderBlock, NonEmpty, NotBlank, blocks);
  }

  /** `basicMarkdownToHtml`. */
  function BasicMarkdownToHtml(markdown: string): string
  {
    var normalized := ReplaceAll(markdown, "\r\n", "\n");
    Join(RenderBlocks(SplitBlocks(normalized)), "\n")
  }

  /** The converter is the non-blank blocks of the CRLF-normalised text,
      each rendered, joined by one newline. */
  lemma BasicMarkdownBlocks(markdown: string)
    ensures var normalized := ReplaceAll(markdown, "\r\n", "\n");
      && SplitShape(normalized, SplitBlocks(normalized), BreaksFrom(normalized, 0))
      && BasicMarkdownToHtml(markdown) == Join(Map(RenderBlock, Filter(NotBlank, SplitBlocks(normalized))), "\n")
  {
    var normalized := ReplaceAll(markdown, "\r\n", "\n");
    SplitBlocksShape(normalized);
    RenderBlocksNonBlank(SplitBlocks(normalized));
  }

  const EmptyContent := "<p class=\"article-empty\">Conteúdo indisponível.</p>"

  /** `looksLikeHtml`. */
  function LooksLikeHtml(content: string): bool
  {
    Tags.HasTag(Trim(content))
  }

  /** `renderContent`; `marked` is the optional external parser. */
  function RenderContent(content: string, marked: Option<string -> string>): string
  {
    if Trim(content) == [] then EmptyContent
    else if marked.Some? then marked.value(content)
    else if LooksLikeHtml(content) then content
    else BasicMarkdownToHtml(content)
  }

  /** The three outcomes of `renderContent`. */
  lemma RenderContentCases(content: string, marked: Option<string -> string>)
    ensures AllWhite(content) ==> RenderContent(content, marked) == EmptyContent
    ensures !AllWhite(content) && marked.Some? ==> RenderContent(content, marked) == marked.value(content)
    ensures !AllWhite(content) && marked.None? && (exists i, j :: Tags.TagAt(Trim(content), i, j))
      ==> RenderContent(content, marked) == content
    ensures !AllWhite(content) && marked.None? && !(exists i, j :: Tags.TagAt(Trim(content), i, j))
      ==> RenderContent(content, marked) == BasicMarkdownToHtml(content)
  {
    TrimEmptyIff(content);
    Tags.HasTagIff(Trim(content));
  }
}
