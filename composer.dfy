/**
 The text preprocessing of the documentation site's MailTo composer: the
 comma-separated address fields become lists of trimmed addresses, and the
 free-text body becomes a list of processed items (one markup string per
 non-blank line, one break per run of blank lines) that is rendered one item
 per line as the JSX preview of the `MailToBody` children.
 */
module Composer {
  import opened Wrappers
  import opened JsString
  import opened Seqs

  // ---------------------------------------------------------------------------
  // parseList

  /** `input.split(",").map(email => email.trim())`: one entry per comma plus
      one, so never empty, each trimmed and free of commas. */
  function ParseList(input: string): (r: seq<string>)
    ensures |r| == Count(input, ',') + 1
    ensures forall i :: 0 <= i < |r| ==> NoOuterWhiteSpace(r[i]) && ',' !in r[i]
  {
    var pieces := Split(input, ',');
    seq(|pieces|, i requires 0 <= i < |pieces| => Trim(pieces[i]))
  }

  /** Comma-free, already trimmed addresses joined by commas read back as themselves. */
  lemma ParseListJoin(xs: seq<string>)
    requires xs != []
    requires forall i :: 0 <= i < |xs| ==> ',' !in xs[i] && NoOuterWhiteSpace(xs[i])
    ensures ParseList(Join(xs, ",")) == xs
  {
    SplitJoin(xs, ',');
  }

  /** An empty field still parses to one (empty) address. */
  lemma ParseListEmpty()
    ensures ParseList("") == [""]
  {
  }

  /** Comma-free pieces joined by commas parse to the same pieces, each
      trimmed: the white space around an address is dropped, and only that. */
  lemma ParseListTrims(xs: seq<string>)
    requires xs != []
    requires forall i :: 0 <= i < |xs| ==> ',' !in xs[i]
    ensures ParseList(Join(xs, ",")) == seq(|xs|, i requires 0 <= i < |xs| => Trim(xs[i]))
  {
    SplitJoin(xs, ',');
  }

  // ---------------------------------------------------------------------------
  // Decimal rendering of a number in a template literal

  function Digit(d: nat): char
    requires d < 10
  {
    "0123456789"[d]
  }

  predicate IsDigit(c: char) {
    '0' <= c <= '9'
  }

  /** `${n}` for a non-negative integer: decimal digits without leading zeros. */
  function NatToString(n: nat): (r: string)
    ensures r != []
    ensures forall i :: 0 <= i < |r| ==> IsDigit(r[i])
    ensures r[0] == '0' ==> n == 0 && r == "0"
  {
    if n < 10 then [Digit(n)] else NatToString(n / 10) + [Digit(n % 10)]
  }

  /** The value of a string of decimal digits, read left to right. */
  function DecimalValue(s: string): nat
    requires forall i :: 0 <= i < |s| ==> IsDigit(s[i])
  {
    if s == [] then 0
    else
      assert IsDigit(s[|s| - 1]);
      10 * DecimalValue(s[..|s| - 1]) + (s[|s| - 1] as int - '0' as int)
  }

  /** Reading the digits back gives the number. */
  lemma {:induction false} NatToStringValue(n: nat)
    ensures DecimalValue(NatToString(n)) == n
  {
    if n >= 10 {
      NatToStringValue(n / 10);
      var s := NatToString(n);
      assert s[..|s| - 1] == NatToString(n / 10);
    }
  }

  // ---------------------------------------------------------------------------
  // processedBody

  /** An element of `processedBody`: a markup string or a break of some spacing. */
  datatype ProcessedBodyItem = Markup(text: string) | BreakItem(spacing: nat)

  /** The template prefix `${index === 0 ? "" : "  "}`. */
  function Prefix(index: nat): string {
    if index == 0 then "" else "  "
  }

  /** `line.match(/^\t+/)?.[0].length ?? 0`: the length of the run of tabs at the front. */
  function LeadingTabs(line: string): (k: nat)
    ensures k <= |line|
    ensures forall i :: 0 <= i < k ==> line[i] == '\t'
    ensures k < |line| ==> line[k] != '\t'
  {
    if line != [] && line[0] == '\t' then 1 + LeadingTabs(line[1..]) else 0
  }

  function IndentTag(spacing: nat): string {
    "<MailToIndent spacing={" + NatToString(spacing) + "}/>"
  }

  function BreakTag(spacing: nat): string {
    "<MailToBreak spacing={" + NatToString(spacing) + "} />"
  }

  predicate StartsWithTab(line: string) {
    |line| > 0 && line[0] == '\t'
  }

  /** The markup a non-blank line at position `index` of the body becomes. */
  function LineMarkup(line: string, index: nat): string {
    if StartsWithTab(line) then Prefix(index) + IndentTag(LeadingTabs(line) * 4) + Trim(line)
    else Prefix(index) + line
  }

  /** One step of the reduce: a blank line widens a break that is last or
      starts a new one; any other line is pushed as markup. */
  function Step(acc: seq<ProcessedBodyItem>, line: string, index: nat): (r: seq<ProcessedBodyItem>)
    ensures |acc| <= |r| <= |acc| + 1
    ensures |r| == |acc| ==> |acc| > 0 && acc[|acc| - 1].BreakItem? && r[|r| - 1].BreakItem?
    ensures forall i :: 0 <= i < |acc| - 1 ==> r[i] == acc[i]
    ensures |r| == |acc| + 1 ==> r[..|acc|] == acc
  {
    if Trim(line) == "" then
      if |acc| > 0 && acc[|acc| - 1].BreakItem? then
        acc[|acc| - 1 := BreakItem(acc[|acc| - 1].spacing + 1)]
      else acc + [BreakItem(1)]
    else acc + [Markup(LineMarkup(line, index))]
  }

  /** The reduce over all lines, starting from `[]`. */
  function Processed(lines: seq<string>): (r: seq<ProcessedBodyItem>)
    ensures |r| <= |lines|
    ensures lines != [] ==> r != []
  {
    if lines == [] then [] else Step(Processed(lines[..|lines| - 1]), lines[|lines| - 1], |lines| - 1)
  }

  /** `body.split("\n").reduce(…, [])`. */
  method ProcessBody(body: string) returns (items: seq<ProcessedBodyItem>)
    ensures items == Processed(Split(body, '\n'))
    ensures WellFormed(items)
    ensures Unfold(items) == LineCells(Split(body, '\n'))
  {
    items := ReduceLines(Split(body, '\n'));
  }

  /** `lines.reduce(reducer, [])`, with the last break widened in place. */
  method ReduceLines(lines: seq<string>) returns (items: seq<ProcessedBodyItem>)
    ensures items == Processed(lines)
    ensures WellFormed(items)
    ensures Unfold(items) == LineCells(lines)
  {
    items := [];
    var index := 0;
    while index < |lines|
      invariant 0 <= index <= |lines|
      invariant items == Processed(lines[..index])
    {
      items := Reducer(items, lines[index], index);
      ProcessedNext(lines, index);
      index := index + 1;
    }
    assert lines[..|lines|] == lines;
    ProcessedWellFormed(lines);
    ProcessedUnfolds(lines);
  }

  /** The reducer `(acc, line, index) => …`: a blank line adds one to the
      spacing of a break that is last or pushes a new break; any other line
      pushes its markup. */
  method Reducer(acc: seq<ProcessedBodyItem>, line: string, index: nat) returns (next: seq<ProcessedBodyItem>)
    ensures next == Step(acc, line, index)
  {
    next := acc;
    if Trim(line) == "" {
      if |next| > 0 && next[|next| - 1].BreakItem? {
        var lastItem := next[|next| - 1];
        next := next[|next| - 1 := BreakItem(lastItem.spacing + 1)];
      } else {
        next := next + [BreakItem(1)];
      }
    } else if StartsWithTab(line) {
      var indentLevel := LeadingTabs(line);
      next := next + [Markup(Prefix(index) + IndentTag(indentLevel * 4) + Trim(line))];
    } else {
      next := next + [Markup(Prefix(index) + line)];
    }
  }

  // ---------------------------------------------------------------------------
  // What processedBody is

  /** No two breaks side by side, and every break spans at least one line. */
  predicate WellFormed(items: seq<ProcessedBodyItem>) {
    && (forall i :: 0 <= i < |items| ==> items[i].BreakItem? ==> items[i].spacing >= 1)
    && (forall i :: 0 <= i < |items| - 1 ==> !(items[i].BreakItem? && items[i + 1].BreakItem?))
  }

  lemma StepWellFormed(acc: seq<ProcessedBodyItem>, line: string, index: nat)
    requires WellFormed(acc)
    ensures WellFormed(Step(acc, line, index))
  {
    var r := Step(acc, line, index);
    if Trim(line) == "" && |acc| > 0 && acc[|acc| - 1].BreakItem? {
      assert forall i :: 0 <= i < |acc| - 1 ==> r[i] == acc[i];
    } else {
      assert forall i :: 0 <= i < |acc| ==> r[i] == acc[i];
    }
  }

  lemma {:induction false} ProcessedWellFormed(lines: seq<string>)
    ensures WellFormed(Processed(lines))
  {
    if lines != [] {
      ProcessedWellFormed(lines[..|lines| - 1]);
      StepWellFormed(Processed(lines[..|lines| - 1]), lines[|lines| - 1], |lines| - 1);
    }
  }

  /** What each line of the body contributes: nothing visible when blank, its
      markup otherwise. */
  function Cell(line: string, index: nat): Option<string> {
    if AllWhiteSpace(line) then None else Some(LineMarkup(line, index))
  }

  /** The cells of the lines, one per line, in order. */
  function LineCells(lines: seq<string>): (r: seq<Option<string>>)
    ensures |r| == |lines|
  {
    seq(|lines|, i requires 0 <= i < |lines| => Cell(lines[i], i))
  }

  function Blanks(k: nat): (r: seq<Option<string>>)
    ensures |r| == k
  {
    seq(k, _ => None)
  }

  /** Expands each break into as many blank cells as its spacing. */
  function Unfold(items: seq<ProcessedBodyItem>): seq<Option<string>> {
    if items == [] then []
    else
      (match items[0]
       case Markup(t) => [Some(t)]
       case BreakItem(k) => Blanks(k))
      + Unfold(items[1..])
  }

  lemma {:induction false} UnfoldAppend(a: seq<ProcessedBodyItem>, b: seq<ProcessedBodyItem>)
    ensures Unfold(a + b) == Unfold(a) + Unfold(b)
  {
    if a == [] {
      assert a + b == b;
    } else {
      assert (a + b)[1..] == a[1..] + b;
      UnfoldAppend(a[1..], b);
    }
  }

  lemma UnfoldOne(item: ProcessedBodyItem)
    ensures Unfold([item]) == (match item case Markup(t) => [Some(t)] case BreakItem(k) => Blanks(k))
  {
    assert [item][1..] == [];
  }

  /** One step extends the unfolded items by the cell of its line. */
  lemma StepUnfolds(acc: seq<ProcessedBodyItem>, line: string, index: nat)
    ensures Unfold(Step(acc, line, index)) == Unfold(acc) + [Cell(line, index)]
  {
    if Trim(line) == "" {
      assert AllWhiteSpace(line);
      if |acc| > 0 && acc[|acc| - 1].BreakItem? {
        var front := acc[..|acc| - 1];
        var k := acc[|acc| - 1].spacing;
        assert acc == front + [BreakItem(k)];
        assert Step(acc, line, index) == front + [BreakItem(k + 1)];
        UnfoldAppend(front, [BreakItem(k)]);
        UnfoldAppend(front, [BreakItem(k + 1)]);
        UnfoldOne(BreakItem(k));
        UnfoldOne(BreakItem(k + 1));
        assert Blanks(k + 1) == Blanks(k) + [None];
      } else {
        UnfoldAppend(acc, [BreakItem(1)]);
        UnfoldOne(BreakItem(1));
      }
    } else {
      UnfoldAppend(acc, [Markup(LineMarkup(line, index))]);
      UnfoldOne(Markup(LineMarkup(line, index)));
    }
  }

  /** Conservation and order: unfolding the processed body gives back one cell
      per line of the body, in order — each blank line as a blank cell, each
      other line as its markup. Together with `WellFormed` this fixes the
      processed body completely. */
  lemma {:induction false} ProcessedUnfolds(lines: seq<string>)
    ensures Unfold(Processed(lines)) == LineCells(lines)
  {
    if lines != [] {
      var front := lines[..|lines| - 1];
      ProcessedUnfolds(front);
      StepUnfolds(Processed(front), lines[|lines| - 1], |lines| - 1);
      LineCellsSnoc(lines);
    }
  }

  lemma LineCellsSnoc(lines: seq<string>)
    requires lines != []
    ensures LineCells(lines) == LineCells(lines[..|lines| - 1]) + [Cell(lines[|lines| - 1], |lines| - 1)]
  {
  }

  /** The number of lines a list of items stands for: the spacings of the
      breaks plus one per markup string. */
  function Weight(items: seq<ProcessedBodyItem>): nat {
    if items == [] then 0
    else (match items[0] case Markup(_) => 1 case BreakItem(k) => k) + Weight(items[1..])
  }

  lemma {:induction false} UnfoldLength(items: seq<ProcessedBodyItem>)
    ensures |Unfold(items)| == Weight(items)
  {
    if items != [] {
      UnfoldLength(items[1..]);
    }
  }

  /** The lines of the body are the break spacings plus the markup strings. */
  lemma ProcessedConserves(lines: seq<string>)
    ensures Weight(Processed(lines)) == |lines|
  {
    ProcessedUnfolds(lines);
    UnfoldLength(Processed(lines));
  }

  // ---------------------------------------------------------------------------
  // Indented lines

  lemma {:induction false} TrimStartTabs(k: nat, rest: string)
    ensures TrimStart(Repeat('\t', k) + rest) == TrimStart(rest)
  {
    if k > 0 {
      var s := Repeat('\t', k) + rest;
      assert s[1..] == Repeat('\t', k - 1) + rest;
      TrimStartTabs(k - 1, rest);
    } else {
      assert Repeat('\t', 0) + rest == rest;
    }
  }

  lemma {:induction false} LeadingTabsOf(k: nat, rest: string)
    requires !StartsWithTab(rest)
    ensures LeadingTabs(Repeat('\t', k) + rest) == k
  {
    if k > 0 {
      var s := Repeat('\t', k) + rest;
      assert s[1..] == Repeat('\t', k - 1) + rest;
      LeadingTabsOf(k - 1, rest);
    } else {
      assert Repeat('\t', 0) + rest == rest;
    }
  }

  /** A line led by `k` tabs becomes an indent of spacing `4k` before the rest
      of the line, trimmed. */
  lemma IndentedLine(k: nat, rest: string, index: nat)
    requires k >= 1 && !StartsWithTab(rest)
    ensures LineMarkup(Repeat('\t', k) + rest, index) == Prefix(index) + IndentTag(4 * k) + Trim(rest)
  {
    var line := Repeat('\t', k) + rest;
    assert StartsWithTab(line) by {
      assert line[0] == '\t';
    }
    assert LeadingTabs(line) * 4 == 4 * k by {
      LeadingTabsOf(k, rest);
    }
    assert Trim(line) == Trim(rest) by {
      TrimStartTabs(k, rest);
    }
  }

  /** A line not led by a tab is kept as it is, behind its prefix. */
  lemma PlainLine(line: string, index: nat)
    requires !StartsWithTab(line)
    ensures LineMarkup(line, index) == Prefix(index) + line
    ensures index > 0 ==> LineMarkup(line, index) == "  " + line
  {
  }

  lemma ProcessedNext(lines: seq<string>, index: nat)
    requires index < |lines|
    ensures Processed(lines[..index + 1]) == Step(Processed(lines[..index]), lines[index], index)
  {
    assert lines[..index + 1][..index] == lines[..index];
  }

  /** Processing one more line is one more step. */
  lemma ProcessedSnoc(lines: seq<string>, line: string)
    ensures Processed(lines + [line]) == Step(Processed(lines), line, |lines|)
  {
    assert (lines + [line])[..|lines|] == lines;
  }

  lemma StepText(acc: seq<ProcessedBodyItem>, line: string, index: nat)
    requires !AllWhiteSpace(line)
    ensures Step(acc, line, index) == acc + [Markup(LineMarkup(line, index))]
  {
  }

  /** A blank line after a break widens that break. */
  lemma StepWiden(front: seq<ProcessedBodyItem>, k: nat, line: string, index: nat)
    requires AllWhiteSpace(line)
    ensures Step(front + [BreakItem(k)], line, index) == front + [BreakItem(k + 1)]
  {
    var acc := front + [BreakItem(k)];
    assert acc[..|acc| - 1] == front;
  }

  /** A blank line after markup, or at the start, opens a break of spacing 1. */
  lemma StepOpen(acc: seq<ProcessedBodyItem>, line: string, index: nat)
    requires AllWhiteSpace(line)
    requires acc == [] || acc[|acc| - 1].Markup?
    ensures Step(acc, line, index) == acc + [BreakItem(1)]
  {
  }

  /** A line, two blank lines and a tab-led line: the blank lines become a
      single break of spacing 2, widened in place, and the tab becomes an
      indent of spacing 4 behind the two-space prefix of a later line. */
  lemma ExampleBody(a: string, b: string)
    requires '\n' !in a && '\n' !in b
    requires !StartsWithTab(a) && !StartsWithTab(b)
    requires !AllWhiteSpace(a) && !AllWhiteSpace(b) && NoOuterWhiteSpace(b)
    ensures Processed(Split(a + "\n\n\n\t" + b, '\n')) ==
            [Markup(a), BreakItem(2), Markup("  " + IndentTag(4) + b)]
  {
    ExampleBodyLines(a, b);
    ExampleIndentAfterBlanks(a, b);
  }

  /** The tab-led fourth line becomes an indent of spacing 4 behind the
      two-space prefix. */
  lemma ExampleIndentAfterBlanks(a: string, b: string)
    requires !StartsWithTab(a) && !StartsWithTab(b)
    requires !AllWhiteSpace(a) && !AllWhiteSpace(b) && NoOuterWhiteSpace(b)
    ensures Processed([a, "", "", "\t" + b]) == [Markup(a), BreakItem(2), Markup("  " + IndentTag(4) + b)]
  {
    var t := "\t" + b;
    var m := Markup("  " + IndentTag(4) + b);
    ExampleBlankRun(a);
    ProcessedSnoc([a, "", ""], t);
    SnocThree(a, "", "", t);
    OneTabLine(b, 3);
    StepText([Markup(a), BreakItem(2)], t, 3);
    SnocTwo(Markup(a), BreakItem(2), m);
  }

  /** A line led by one tab is not blank, and becomes an indent of spacing 4. */
  lemma OneTabLine(b: string, index: nat)
    requires !StartsWithTab(b) && !AllWhiteSpace(b) && NoOuterWhiteSpace(b)
    ensures !AllWhiteSpace("\t" + b)
    ensures LineMarkup("\t" + b, index) == Prefix(index) + IndentTag(4) + b
  {
    var t := "\t" + b;
    var i :| 0 <= i < |b| && !IsWhiteSpace(b[i]);
    assert t[i + 1] == b[i];
    assert Repeat('\t', 1) + b == t;
    IndentedLine(1, b, index);
  }

  /** A first text line, not led by a tab, is kept as it is. */
  lemma ExampleTextLine(a: string)
    requires !StartsWithTab(a) && !AllWhiteSpace(a)
    ensures Processed([a]) == [Markup(a)]
  {
    var none: seq<string> := [];
    ProcessedSnoc(none, a);
    assert none + [a] == [a];
    StepText([], a, 0);
    PlainLine(a, 0);
    assert Prefix(0) + a == a;
  }

  /** The blank line after it opens a break of spacing 1. */
  lemma ExampleOneBlank(a: string)
    requires !StartsWithTab(a) && !AllWhiteSpace(a)
    ensures Processed([a, ""]) == [Markup(a), BreakItem(1)]
  {
    ExampleTextLine(a);
    ProcessedSnoc([a], "");
    StepOpen([Markup(a)], "", 1);
    SnocOne(a, "");
    SnocOne(Markup(a), BreakItem(1));
  }

  /** A second blank line widens that break to 2 instead of adding another. */
  lemma ExampleBlankRun(a: string)
    requires !StartsWithTab(a) && !AllWhiteSpace(a)
    ensures Processed([a, "", ""]) == [Markup(a), BreakItem(2)]
  {
    ExampleOneBlank(a);
    ProcessedSnoc([a, ""], "");
    StepWiden([Markup(a)], 1, "", 2);
    SnocOne(Markup(a), BreakItem(1));
    SnocOne(Markup(a), BreakItem(2));
    SnocTwo(a, "", "");
  }

  lemma ExampleBodyLines(a: string, b: string)
    requires '\n' !in a && '\n' !in b
    ensures Split(a + "\n\n\n\t" + b, '\n') == [a, "", "", "\t" + b]
  {
    var t := "\t" + b;
    assert '\n' !in t;
    SplitNoSeparator(t, '\n');
    SplitAfterPiece("", '\n', t);
    assert "" + ['\n'] + t == "\n" + t;
    SplitAfterPiece("", '\n', "\n" + t);
    assert "" + ['\n'] + ("\n" + t) == "\n\n" + t;
    SplitAfterPiece(a, '\n', "\n\n" + t);
    assert a + ['\n'] + ("\n\n" + t) == a + "\n\n\n\t" + b;
  }

  // ---------------------------------------------------------------------------
  // jsxString

  function RenderItem(item: ProcessedBodyItem, index: nat): string {
    match item
    case Markup(t) => Prefix(index) + t
    case BreakItem(k) => Prefix(index) + BreakTag(k)
  }

  function Rendered(items: seq<ProcessedBodyItem>): (r: seq<string>)
    ensures |r| == |items|
  {
    seq(|items|, i requires 0 <= i < |items| => RenderItem(items[i], i))
  }

  /** `jsxString`: the items rendered and joined by newlines, or nothing for an
      empty body. */
  function BodyJsx(body: string): string {
    if |body| == 0 then "" else Join(Rendered(Processed(Split(body, '\n'))), "\n")
  }

  /** An empty body renders to nothing, although its single empty line is a break. */
  lemma EmptyBodyJsx()
    ensures Processed(Split("", '\n')) == [BreakItem(1)]
    ensures BodyJsx("") == ""
  {
    assert Split("", '\n') == [""];
    assert Split("", '\n')[..0] == [];
  }

  lemma {:induction false} TrimAvoids(s: string, c: char)
    requires c !in s
    ensures c !in Trim(s)
  {
    var t := TrimStart(s);
    assert forall i :: 0 <= i < |t| ==> t[i] == s[|s| - |t| + i];
  }

  lemma NatToStringNoNewline(n: nat)
    ensures '\n' !in NatToString(n)
  {
    var r := NatToString(n);
    assert forall i :: 0 <= i < |r| ==> r[i] != '\n';
  }

  /** Every markup string comes from one line, so none holds a newline. */
  predicate SingleLines(items: seq<ProcessedBodyItem>) {
    forall i :: 0 <= i < |items| ==> items[i].Markup? ==> '\n' !in items[i].text
  }

  lemma IndentTagSingle(spacing: nat)
    ensures '\n' !in IndentTag(spacing)
  {
    var digits := NatToString(spacing);
    NatToStringNoNewline(spacing);
    assert '\n' !in "<MailToIndent spacing={" + digits;
  }

  lemma LineMarkupSingle(line: string, index: nat)
    requires '\n' !in line
    ensures '\n' !in LineMarkup(line, index)
  {
    if StartsWithTab(line) {
      var tag := IndentTag(LeadingTabs(line) * 4);
      IndentTagSingle(LeadingTabs(line) * 4);
      TrimAvoids(line, '\n');
      assert '\n' !in Prefix(index) + tag;
    }
  }

  lemma {:induction false} ProcessedSingleLines(lines: seq<string>)
    requires forall i :: 0 <= i < |lines| ==> '\n' !in lines[i]
    ensures SingleLines(Processed(lines))
  {
    if lines != [] {
      var front := lines[..|lines| - 1];
      assert forall i :: 0 <= i < |front| ==> front[i] == lines[i];
      var acc := Processed(front);
      var line := lines[|lines| - 1];
      ProcessedSingleLines(front);
      LineMarkupSingle(line, |lines| - 1);
      StepSingleLines(acc, line, |lines| - 1);
    }
  }

  lemma StepSingleLines(acc: seq<ProcessedBodyItem>, line: string, index: nat)
    requires SingleLines(acc) && '\n' !in LineMarkup(line, index)
    ensures SingleLines(Step(acc, line, index))
  {
    var r := Step(acc, line, index);
    assert forall i :: 0 <= i < |acc| && i < |r| - 1 ==> r[i] == acc[i];
  }

  lemma RenderedSingle(items: seq<ProcessedBodyItem>)
    requires SingleLines(items)
    ensures forall i :: 0 <= i < |Rendered(items)| ==> '\n' !in Rendered(items)[i]
  {
    forall i | 0 <= i < |items| ensures '\n' !in RenderItem(items[i], i) {
      if items[i].BreakItem? {
        NatToStringNoNewline(items[i].spacing);
        assert '\n' !in "<MailToBreak spacing={" && '\n' !in "} />";
      }
    }
  }

  /** A non-empty body renders one item per line: splitting the preview at
      its newlines gives back the rendered items. */
  lemma JsxLines(body: string)
    requires |body| > 0
    ensures Split(BodyJsx(body), '\n') == Rendered(Processed(Split(body, '\n')))
  {
    var items := Processed(Split(body, '\n'));
    ProcessedSingleLines(Split(body, '\n'));
    RenderedSingle(items);
    SplitJoin(Rendered(items), '\n');
  }
}
