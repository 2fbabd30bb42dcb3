/**
 `extractBodyContent`: a depth-first walk over the children of a `MailTo`
 that appends to one text buffer, then trims the buffer. Text is copied,
 breaks become newlines, an indent block becomes a run of spaces before its
 children, and lists become bullet lines indented four spaces per nesting
 level. Nodes in places the walk does not look at are dropped.
 */
module BodyContent {
  import opened Wrappers
  import opened JsString
  import opened Seqs

  /** MAIL_TO_INDENT_SPACING_DEFAULT: spaces per list level, and the default
      width of an indent block. */
  const IndentSpacingDefault: nat := 4

  /** MAIL_TO_BREAK_SPACING_DEFAULT: newlines of a break with no `spacing`. */
  const BreakSpacingDefault: nat := 1

  /** The React nodes the walk tells apart. A `spacing` prop that is not given
      is `None`; `?? default` replaces only that, so `Some(0)` stays 0. */
  datatype Node =
    | Text(value: string)                                 // a string child
    | Br                                                  // <br />
    | Break(spacing: Option<nat>)                         // <MailToBreak />
    | Indent(spacing: Option<nat>, children: seq<Node>)   // <MailToIndent>
    | List(ordered: bool, children: seq<Node>)            // <ul> or <ol>
    | Item(children: seq<Node>)                           // <li>
    | Body(children: seq<Node>)                           // <MailToBody>
    | Trigger(children: seq<Node>)                        // <MailToTrigger>
    | Other                                               // any other element, or a number, boolean or null

  function Spaces(n: nat): string {
    Repeat(' ', n)
  }

  function Newlines(n: nat): string {
    Repeat('\n', n)
  }

  /** A buffer to which a new line can be appended directly. */
  predicate AtLineStart(buf: string) {
    buf == "" || EndsWithNewline(buf)
  }

  /** What a list does before its items: a `\n` when the buffer holds text
      that does not end a line. */
  function FreshLine(buf: string): string {
    if buf != "" && !EndsWithNewline(buf) then buf + "\n" else buf
  }

  /** What an item does after its children: a `\n` when the buffer does not
      end with one (an empty buffer included). */
  function EndLine(buf: string): string {
    if !EndsWithNewline(buf) then buf + "\n" else buf
  }

  /** The bullet line of a text inside an item at `level`. */
  function Bullet(level: nat, text: string): string {
    Spaces(level * IndentSpacingDefault) + "- " + text
  }

  // ---------------------------------------------------------------------------
  // The walk, as functions from the buffer before a node to the buffer after it

  /** `traverse(n, level)`. The buffer only grows: the old buffer is a prefix
      of the new one. */
  function Walk(buf: string, n: Node, level: nat): (r: string)
    ensures buf <= r
    decreases n
  {
    match n
    case Text(s) => buf + s
    case Br => buf + "\n"
    case Break(sp) => buf + Newlines(sp.GetOr(BreakSpacingDefault))
    case Indent(sp, cs) => WalkAll(buf + Spaces(sp.GetOr(IndentSpacingDefault)), cs, level)
    case List(_, cs) => WalkItems(FreshLine(buf), cs, level)
    case Item(cs) => EndLine(WalkItemChildren(buf, cs, level))
    case Body(cs) => WalkAll(buf, cs, level)
    case Trigger(_) => buf
    case Other => buf
  }

  /** Every child, in order, at the same level. */
  function WalkAll(buf: string, cs: seq<Node>, level: nat): (r: string)
    ensures buf <= r
    decreases cs
  {
    if cs == [] then buf else WalkAll(Walk(buf, cs[0], level), cs[1..], level)
  }

  /** The children of a list: only the items are visited. */
  function WalkItems(buf: string, cs: seq<Node>, level: nat): (r: string)
    ensures buf <= r
    decreases cs
  {
    if cs == [] then buf
    else
      var next := if cs[0].Item? then Walk(buf, cs[0], level) else buf;
      WalkItems(next, cs[1..], level)
  }

  /** The children of an item: a nested list one level deeper, a text as a
      bullet, anything else not at all. */
  function WalkItemChildren(buf: string, cs: seq<Node>, level: nat): (r: string)
    ensures buf <= r
    decreases cs
  {
    if cs == [] then buf
    else
      var next :=
        if cs[0].List? then Walk(buf, cs[0], level + 1)
        else if cs[0].Text? then buf + Bullet(level, cs[0].value)
        else buf;
      WalkItemChildren(next, cs[1..], level)
  }

  /** `extractBodyContent(children, level)`. */
  function Extract(children: seq<Node>, level: nat): (r: string)
    ensures NoOuterWhiteSpace(r)
    ensures exists i :: TrimmedSliceAt(WalkAll("", children, level), r, i)
  {
    Trim(WalkAll("", children, level))
  }

  // ---------------------------------------------------------------------------
  // The walk as the source writes it: a recursive procedure appending to one buffer

  class BodyBuffer {
    /** `bodyContent`. */
    var content: string

    constructor ()
      ensures content == ""
    {
      content := "";
    }

    /** `traverse(node, level)`: appends exactly what `Walk` says. */
    method Traverse(node: Node, level: nat)
      modifies this
      ensures content == Walk(old(content), node, level)
      decreases node
    {
      match node {
        case Text(s) =>
          content := content + s;
        case Br =>
          content := content + "\n";
        case Break(sp) =>
          content := content + Newlines(sp.GetOr(BreakSpacingDefault));
        case Indent(sp, cs) =>
          content := content + Spaces(sp.GetOr(IndentSpacingDefault));
          TraverseEach(cs, level);
        case List(_, cs) =>
          if content != "" && !EndsWithNewline(content) {
            content := content + "\n";
          }
          TraverseItems(cs, level);
        case Item(cs) =>
          TraverseItemChildren(cs, level);
          if !EndsWithNewline(content) {
            content := content + "\n";
          }
        case Body(cs) =>
          TraverseEach(cs, level);
        case Trigger(_) =>
        case Other =>
      }
    }

    /** `React.Children.forEach(cs, child => traverse(child, level))`. */
    method TraverseEach(cs: seq<Node>, level: nat)
      modifies this
      ensures content == WalkAll(old(content), cs, level)
      decreases cs
    {
      ghost var start := content;
      var i := 0;
      while i < |cs|
        invariant 0 <= i <= |cs|
        invariant WalkAll(content, cs[i..], level) == WalkAll(start, cs, level)
      {
        DropOne(cs, i);
        Traverse(cs[i], level);
        i := i + 1;
      }
    }

    /** The `forEach` of a list: only its `li` children are traversed. */
    method TraverseItems(cs: seq<Node>, level: nat)
      modifies this
      ensures content == WalkItems(old(content), cs, level)
      decreases cs
    {
      ghost var start := content;
      var i := 0;
      while i < |cs|
        invariant 0 <= i <= |cs|
        invariant WalkItems(content, cs[i..], level) == WalkItems(start, cs, level)
      {
        DropOne(cs, i);
        if cs[i].Item? {
          Traverse(cs[i], level);
        }
        i := i + 1;
      }
    }

    /** The `forEach` of an item: a nested list one level deeper, a string as
        `${indent}${prefix}${child}`. */
    method TraverseItemChildren(cs: seq<Node>, level: nat)
      modifies this
      ensures content == WalkItemChildren(old(content), cs, level)
      decreases cs
    {
      var indent := Spaces(level * IndentSpacingDefault);
      var prefix := "- ";
      ghost var start := content;
      var i := 0;
      while i < |cs|
        invariant 0 <= i <= |cs|
        invariant WalkItemChildren(content, cs[i..], level) == WalkItemChildren(start, cs, level)
      {
        DropOne(cs, i);
        if cs[i].List? {
          Traverse(cs[i], level + 1);
        } else if cs[i].Text? {
          content := content + (indent + prefix + cs[i].value);
        }
        i := i + 1;
      }
    }
  }

  /** `extractBodyContent(children, level)`: walks every child into one fresh
      buffer and returns it trimmed, so that the text has no white space at
      either end. */
  method ExtractBodyContent(children: seq<Node>, level: nat) returns (text: string)
    ensures text == Extract(children, level)
    ensures NoOuterWhiteSpace(text)
  {
    var buffer := new BodyBuffer();
    var i := 0;
    while i < |children|
      invariant 0 <= i <= |children|
      invariant WalkAll(buffer.content, children[i..], level) == WalkAll("", children, level)
    {
      DropOne(children, i);
      buffer.Traverse(children[i], level);
      i := i + 1;
    }
    text := Trim(buffer.content);
  }

  // ---------------------------------------------------------------------------
  // Leaves, indent blocks and the final trim

  /** A text is copied as it is, `<br />` adds exactly one newline, and a
      break adds exactly `spacing` newlines, one when no spacing is given. */
  lemma LeafNodes(buf: string, s: string, n: nat, level: nat)
    ensures Walk(buf, Text(s), level) == buf + s
    ensures Walk(buf, Br, level) == buf + "\n"
    ensures Walk(buf, Break(Some(n)), level) == buf + Newlines(n)
    ensures Walk(buf, Break(None), level) == buf + "\n"
  {
    assert Newlines(1) == "\n";
  }

  /** An indent block is its run of spaces (four when no spacing is given)
      followed by its children walked at the same level: it never changes the
      indentation of a list inside it. */
  lemma IndentKeepsLevel(buf: string, n: nat, cs: seq<Node>, level: nat)
    ensures Walk(buf, Indent(Some(n), cs), level) == Walk(buf + Spaces(n), Body(cs), level)
    ensures Walk(buf, Indent(None, cs), level) == Walk(buf + "    ", Body(cs), level)
  {
    assert Spaces(4) == "    ";
  }

  /** The extracted text has no white space at either end, and extracting
      from a single text that is already an extracted text changes nothing. */
  lemma ExtractIdempotent(children: seq<Node>, level: nat, level': nat)
    ensures NoOuterWhiteSpace(Extract(children, level))
    ensures Extract([Text(Extract(children, level))], level') == Extract(children, level)
  {
    var x := Extract(children, level);
    assert WalkAll("", [Text(x)], level') == WalkAll(Walk("", Text(x), level'), [], level');
  }

  // ---------------------------------------------------------------------------
  // What the walk leaves out

  /** `MailToTrigger` and every unrecognised node. */
  predicate IsIgnored(n: Node) {
    n.Trigger? || n.Other?
  }

  function Recognised(cs: seq<Node>): seq<Node> {
    if cs == [] then [] else (if IsIgnored(cs[0]) then [] else [cs[0]]) + Recognised(cs[1..])
  }

  function ItemsOf(cs: seq<Node>): seq<Node> {
    if cs == [] then [] else (if cs[0].Item? then [cs[0]] else []) + ItemsOf(cs[1..])
  }

  function ItemContent(cs: seq<Node>): seq<Node> {
    if cs == [] then [] else (if cs[0].Text? || cs[0].List? then [cs[0]] else []) + ItemContent(cs[1..])
  }

  /** Unrecognised nodes and triggers add nothing wherever they stand. */
  lemma {:induction false} IgnoredAddNothing(buf: string, cs: seq<Node>, level: nat)
    ensures WalkAll(buf, cs, level) == WalkAll(buf, Recognised(cs), level)
    decreases cs
  {
    if cs != [] {
      IgnoredAddNothing(Walk(buf, cs[0], level), cs[1..], level);
      if !IsIgnored(cs[0]) {
        assert ([cs[0]] + Recognised(cs[1..]))[1..] == Recognised(cs[1..]);
      } else {
        IgnoredAddNothing(buf, cs[1..], level);
        assert Walk(buf, cs[0], level) == buf;
        assert Recognised(cs) == Recognised(cs[1..]);
      }
    }
  }

  /** So a body of nothing but ignored nodes, or of nothing at all, extracts to `""`. */
  lemma AllIgnoredIsEmpty(cs: seq<Node>, level: nat)
    requires forall i :: 0 <= i < |cs| ==> IsIgnored(cs[i])
    ensures Extract(cs, level) == ""
  {
    IgnoredAddNothing("", cs, level);
    NothingRecognised(cs);
  }

  lemma {:induction false} NothingRecognised(cs: seq<Node>)
    requires forall i :: 0 <= i < |cs| ==> IsIgnored(cs[i])
    ensures Recognised(cs) == []
  {
    if cs != [] {
      NothingRecognised(cs[1..]);
    }
  }

  /** A list visits its items in order at its own level, and nothing else. */
  lemma {:induction false} ListVisitsOnlyItems(buf: string, cs: seq<Node>, level: nat)
    ensures WalkItems(buf, cs, level) == WalkAll(buf, ItemsOf(cs), level)
    decreases cs
  {
    if cs != [] {
      if cs[0].Item? {
        ListVisitsOnlyItems(Walk(buf, cs[0], level), cs[1..], level);
        assert ([cs[0]] + ItemsOf(cs[1..]))[1..] == ItemsOf(cs[1..]);
      } else {
        ListVisitsOnlyItems(buf, cs[1..], level);
        assert ItemsOf(cs) == ItemsOf(cs[1..]);
      }
    }
  }

  /** Inside an item only texts and nested lists count. */
  lemma {:induction false} ItemKeepsTextsAndLists(buf: string, cs: seq<Node>, level: nat)
    ensures WalkItemChildren(buf, cs, level) == WalkItemChildren(buf, ItemContent(cs), level)
    decreases cs
  {
    if cs != [] {
      if cs[0].Text? || cs[0].List? {
        var next := if cs[0].List? then Walk(buf, cs[0], level + 1) else buf + Bullet(level, cs[0].value);
        ItemKeepsTextsAndLists(next, cs[1..], level);
        assert ([cs[0]] + ItemContent(cs[1..]))[1..] == ItemContent(cs[1..]);
      } else {
        ItemKeepsTextsAndLists(buf, cs[1..], level);
        assert ItemContent(cs) == ItemContent(cs[1..]);
      }
    }
  }

  // ---------------------------------------------------------------------------
  // Line structure around lists and items

  /** A list starts on a line of its own: the buffer before it gains at most
      one `\n`, and only when it holds text that does not end a line. After a
      list holding an item, the buffer ends with a newline. */
  lemma ListBoundaries(buf: string, ordered: bool, cs: seq<Node>, level: nat)
    ensures buf <= FreshLine(buf) && |FreshLine(buf)| <= |buf| + 1
    ensures AtLineStart(FreshLine(buf))
    ensures FreshLine(buf) <= Walk(buf, List(ordered, cs), level)
    ensures (exists i :: 0 <= i < |cs| && cs[i].Item?) ==> EndsWithNewline(Walk(buf, List(ordered, cs), level))
  {
    if exists i :: 0 <= i < |cs| && cs[i].Item? {
      ItemsEndLine(FreshLine(buf), cs, level);
    }
  }

  /** An item always leaves the buffer ending with a newline, so a list does
      once it has visited an item. */
  lemma {:induction false} ItemsEndLine(buf: string, cs: seq<Node>, level: nat)
    requires EndsWithNewline(buf) || exists i :: 0 <= i < |cs| && cs[i].Item?
    ensures EndsWithNewline(WalkItems(buf, cs, level))
    decreases cs
  {
    if cs != [] {
      var next := if cs[0].Item? then Walk(buf, cs[0], level) else buf;
      if !cs[0].Item? && !EndsWithNewline(buf) {
        var i :| 0 <= i < |cs| && cs[i].Item?;
        assert cs[1..][i - 1].Item?;
      }
      ItemsEndLine(next, cs[1..], level);
    }
  }

  /** An item holding only texts puts each of them after the bullet of its
      level, and ends the line. */
  lemma {:induction false} TextItem(buf: string, cs: seq<Node>, level: nat)
    requires forall i :: 0 <= i < |cs| ==> cs[i].Text?
    ensures Walk(buf, Item(cs), level) == EndLine(buf + Bullets(cs, level))
    ensures EndsWithNewline(Walk(buf, Item(cs), level))
  {
    TextChildren(buf, cs, level);
  }

  function Bullets(cs: seq<Node>, level: nat): string
    requires forall i :: 0 <= i < |cs| ==> cs[i].Text?
  {
    if cs == [] then "" else Bullet(level, cs[0].value) + Bullets(cs[1..], level)
  }

  lemma {:induction false} TextChildren(buf: string, cs: seq<Node>, level: nat)
    requires forall i :: 0 <= i < |cs| ==> cs[i].Text?
    ensures WalkItemChildren(buf, cs, level) == buf + Bullets(cs, level)
    decreases cs
  {
    if cs != [] {
      var b := Bullet(level, cs[0].value);
      TextChildren(buf + b, cs[1..], level);
      calc {
        WalkItemChildren(buf, cs, level);
        WalkItemChildren(buf + b, cs[1..], level);
        (buf + b) + Bullets(cs[1..], level);
        { AppendAssoc(buf, b, Bullets(cs[1..], level)); }
        buf + (b + Bullets(cs[1..], level));
      }
    }
  }

  // ---------------------------------------------------------------------------
  // Outlines: lists whose items hold single-line texts and nested lists

  /** A non-empty list of outline items. */
  predicate IsOutlineList(n: Node)
    decreases n
  {
    n.List? && n.children != [] &&
    forall i :: 0 <= i < |n.children| ==> IsOutlineItem(n.children[i])
  }

  /** A non-empty item whose children are texts not ending a line, or outline
      lists, with no two texts side by side. */
  predicate IsOutlineItem(n: Node)
    decreases n
  {
    && n.Item? && n.children != []
    && (forall i :: 0 <= i < |n.children| ==>
          (n.children[i].Text? && !EndsWithNewline(n.children[i].value)) || IsOutlineList(n.children[i]))
    && (forall i :: 0 <= i < |n.children| - 1 ==> !(n.children[i].Text? && n.children[i + 1].Text?))
  }

  /** The bullet lines of the items of a list at `level`: one per text, and
      those of a nested list at the next level. */
  function ListLines(cs: seq<Node>, level: nat): seq<string>
    decreases cs
  {
    if cs == [] then [] else ItemLines(cs[0], level) + ListLines(cs[1..], level)
  }

  function ItemLines(n: Node, level: nat): seq<string>
    decreases n
  {
    if n.Item? then EntriesLines(n.children, level) else []
  }

  function EntriesLines(cs: seq<Node>, level: nat): seq<string>
    decreases cs
  {
    if cs == [] then [] else EntryLines(cs[0], level) + EntriesLines(cs[1..], level)
  }

  function EntryLines(n: Node, level: nat): seq<string>
    decreases n
  {
    match n
    case Text(t) => [Bullet(level, t)]
    case List(_, sub) => ListLines(sub, level + 1)
    case _ => []
  }

  /** Each line followed by a newline. */
  function Lines(ls: seq<string>): string {
    if ls == [] then "" else ls[0] + "\n" + Lines(ls[1..])
  }

  lemma {:induction false} LinesAppend(a: seq<string>, b: seq<string>)
    ensures Lines(a + b) == Lines(a) + Lines(b)
  {
    if a == [] {
      EmptyAppend(b);
    } else {
      LinesAppend(a[1..], b);
      ConsAppend(a, b);
      AppendAssoc(a[0] + "\n", Lines(a[1..]), Lines(b));
    }
  }

  lemma LinesEndLine(b: string, ls: seq<string>)
    requires AtLineStart(b)
    ensures AtLineStart(b + Lines(ls))
    ensures ls != [] ==> EndsWithNewline(b + Lines(ls))
  {
    if ls != [] {
      LinesAppend([ls[0]], ls[1..]);
      assert [ls[0]] + ls[1..] == ls;
      assert Lines([ls[0]]) == ls[0] + "\n";
    }
  }

  /** The text a list of outline form writes: the bullet lines, each ending in
      a newline, after the one newline that puts the list on a line of its own. */
  lemma {:induction false} OutlineWalk(buf: string, n: Node, level: nat)
    requires IsOutlineList(n)
    ensures Walk(buf, n, level) == FreshLine(buf) + Lines(ListLines(n.children, level))
    decreases n, 0
  {
    OutlineItems(FreshLine(buf), n.children, level);
  }

  lemma {:induction false} OutlineItems(b: string, cs: seq<Node>, level: nat)
    requires AtLineStart(b)
    requires forall i :: 0 <= i < |cs| ==> IsOutlineItem(cs[i])
    ensures WalkItems(b, cs, level) == b + Lines(ListLines(cs, level))
    decreases cs
  {
    if cs != [] {
      var here := ItemLines(cs[0], level);
      OutlineItem(b, cs[0], level);
      assert WalkItems(b, cs, level) == WalkItems(Walk(b, cs[0], level), cs[1..], level);
      LinesEndLine(b, here);
      OutlineItems(b + Lines(here), cs[1..], level);
      assert ListLines(cs, level) == here + ListLines(cs[1..], level);
      LinesConcat(b, here, ListLines(cs[1..], level));
    }
  }

  lemma {:induction false} OutlineItem(b: string, n: Node, level: nat)
    requires AtLineStart(b)
    requires IsOutlineItem(n)
    ensures Walk(b, n, level) == b + Lines(ItemLines(n, level))
    decreases n
  {
    OutlineEntries(b, "", n.children, level);
    assert b + "" == b;
    assert Pending("") + EntriesLines(n.children, level) == EntriesLines(n.children, level);
    assert Walk(b, n, level) == EndLine(WalkItemChildren(b, n.children, level));
  }

  /** The lines still pending: the bullet line being written, if any. */
  function Pending(pend: string): seq<string> {
    if pend == "" then [] else [pend]
  }

  /** The children of an outline item, walked from a buffer made of `base`,
      which is at the start of a line, and `pend`, a bullet line not yet ended. */
  lemma {:induction false} OutlineEntries(base: string, pend: string, cs: seq<Node>, level: nat)
    requires AtLineStart(base)
    requires pend == "" || !EndsWithNewline(pend)
    requires pend != "" ==> cs == [] || cs[0].List?
    requires cs == [] ==> pend != "" || EndsWithNewline(base)
    requires forall i :: 0 <= i < |cs| ==> (cs[i].Text? && !EndsWithNewline(cs[i].value)) || IsOutlineList(cs[i])
    requires forall i :: 0 <= i < |cs| - 1 ==> !(cs[i].Text? && cs[i + 1].Text?)
    ensures EndLine(WalkItemChildren(base + pend, cs, level)) == base + Lines(Pending(pend) + EntriesLines(cs, level))
    decreases cs, 1
  {
    if cs == [] {
      FreshLinePending(base, pend);
      assert Pending(pend) + [] == Pending(pend);
    } else if cs[0].Text? {
      OutlineTextEntry(base, pend, cs, level);
    } else {
      OutlineListEntry(base, pend, cs, level);
    }
  }

  /** A text child starts a new bullet line, left pending. */
  lemma {:induction false} OutlineTextEntry(base: string, pend: string, cs: seq<Node>, level: nat)
    requires AtLineStart(base)
    requires pend == "" || !EndsWithNewline(pend)
    requires pend != "" ==> cs == [] || cs[0].List?
    requires cs == [] ==> pend != "" || EndsWithNewline(base)
    requires forall i :: 0 <= i < |cs| ==> (cs[i].Text? && !EndsWithNewline(cs[i].value)) || IsOutlineList(cs[i])
    requires forall i :: 0 <= i < |cs| - 1 ==> !(cs[i].Text? && cs[i + 1].Text?)
    ensures EndLine(WalkItemChildren(base + pend, cs, level)) == base + Lines(Pending(pend) + EntriesLines(cs, level))
    requires cs != [] && cs[0].Text?
    decreases cs, 0
  {
    var line := Bullet(level, cs[0].value);
    assert pend == "" && base + pend == base;
    assert line == Spaces(level * IndentSpacingDefault) + "- " + cs[0].value;
    assert !EndsWithNewline(line) && line != "";
    assert |cs| > 1 ==> cs[1..][0].List? by {
      if |cs| > 1 {
        assert !cs[1].Text?;
      }
    }
    assert WalkItemChildren(base, cs, level) == WalkItemChildren(base + line, cs[1..], level);
    OutlineEntries(base, line, cs[1..], level);
    assert EntriesLines(cs, level) == [line] + EntriesLines(cs[1..], level);
    assert Pending(pend) == [] && Pending(line) == [line];
    EmptyAppend(EntriesLines(cs, level));
  }

  /** A nested list child ends the pending line and writes its own lines. */
  lemma {:induction false} OutlineListEntry(base: string, pend: string, cs: seq<Node>, level: nat)
    requires AtLineStart(base)
    requires pend == "" || !EndsWithNewline(pend)
    requires pend != "" ==> cs == [] || cs[0].List?
    requires cs == [] ==> pend != "" || EndsWithNewline(base)
    requires forall i :: 0 <= i < |cs| ==> (cs[i].Text? && !EndsWithNewline(cs[i].value)) || IsOutlineList(cs[i])
    requires forall i :: 0 <= i < |cs| - 1 ==> !(cs[i].Text? && cs[i + 1].Text?)
    ensures EndLine(WalkItemChildren(base + pend, cs, level)) == base + Lines(Pending(pend) + EntriesLines(cs, level))
    requires cs != [] && cs[0].List?
    decreases cs, 0
  {
    var nested := ListLines(cs[0].children, level + 1);
    var rest := EntriesLines(cs[1..], level);
    var ls := Pending(pend) + nested;
    var after := base + Lines(ls);
    assert Walk(base + pend, cs[0], level + 1) == after && EndsWithNewline(after) by {
      OutlineNested(base, pend, cs[0], level + 1);
    }
    assert WalkItemChildren(base + pend, cs, level) == WalkItemChildren(after, cs[1..], level);
    assert EndLine(WalkItemChildren(after, cs[1..], level)) == after + Lines(rest) by {
      OutlineEntries(after, "", cs[1..], level);
      assert after + "" == after;
      assert Pending("") + rest == rest;
    }
    assert EntriesLines(cs, level) == nested + rest;
    LinesAfterPending(base, pend, nested, rest);
  }

  /** A nested outline list inside an item ends the pending bullet line, then
      writes its own lines, and leaves the buffer at the end of a line. */
  lemma {:induction false} OutlineNested(base: string, pend: string, sub: Node, level: nat)
    requires AtLineStart(base)
    requires pend == "" || !EndsWithNewline(pend)
    requires IsOutlineList(sub)
    ensures Walk(base + pend, sub, level) == base + Lines(Pending(pend) + ListLines(sub.children, level))
    ensures EndsWithNewline(base + Lines(Pending(pend) + ListLines(sub.children, level)))
    decreases sub, 1
  {
    OutlineWalk(base + pend, sub, level);
    OutlineNotEmpty(sub, level);
    PendingThenLines(base, pend, ListLines(sub.children, level));
  }

  /** Lines written after the pending bullet line has been ended. */
  lemma PendingThenLines(base: string, pend: string, nested: seq<string>)
    requires AtLineStart(base)
    requires pend == "" || !EndsWithNewline(pend)
    ensures FreshLine(base + pend) + Lines(nested) == base + Lines(Pending(pend) + nested)
    ensures nested != [] ==> EndsWithNewline(base + Lines(Pending(pend) + nested))
  {
    FreshLinePending(base, pend);
    LinesConcat(base, Pending(pend), nested);
    LinesEndLine(base, Pending(pend) + nested);
  }

  lemma LinesAfterPending(base: string, pend: string, nested: seq<string>, rest: seq<string>)
    ensures base + Lines(Pending(pend) + nested) + Lines(rest) == base + Lines(Pending(pend) + (nested + rest))
  {
    LinesConcat(base, Pending(pend) + nested, rest);
    AppendAssoc(Pending(pend), nested, rest);
  }

  lemma LinesConcat(b: string, xs: seq<string>, ys: seq<string>)
    ensures b + Lines(xs) + Lines(ys) == b + Lines(xs + ys)
  {
    LinesAppend(xs, ys);
    AppendAssoc(b, Lines(xs), Lines(ys));
  }

  /** Starting a fresh line after a pending bullet line ends that line. */
  lemma FreshLinePending(base: string, pend: string)
    requires AtLineStart(base)
    requires pend == "" || !EndsWithNewline(pend)
    ensures FreshLine(base + pend) == base + Lines(Pending(pend))
    ensures EndLine(base + pend) == base + Lines(Pending(pend)) || (pend == "" && !EndsWithNewline(base))
  {
    if pend == "" {
      assert base + pend == base;
    } else {
      assert Lines([pend]) == pend + "\n" + Lines([]);
      assert (base + pend)[|base + pend| - 1] == pend[|pend| - 1];
      assert base + pend + "\n" == base + (pend + "\n");
    }
  }

  /** An outline list writes at least one line. */
  lemma {:induction false} OutlineNotEmpty(n: Node, level: nat)
    requires IsOutlineList(n)
    ensures ListLines(n.children, level) != []
    decreases n
  {
    var item := n.children[0];
    assert IsOutlineItem(item);
    var first := item.children[0];
    if first.List? {
      OutlineNotEmpty(first, level + 1);
    }
    assert EntryLines(first, level) != [];
    assert EntriesLines(item.children, level) == EntryLines(first, level) + EntriesLines(item.children[1..], level);
    assert ListLines(n.children, level) == ItemLines(item, level) + ListLines(n.children[1..], level);
  }

  // ---------------------------------------------------------------------------
  // Nesting one level deeper indents every bullet line by four more spaces

  function Shift(ls: seq<string>): (r: seq<string>)
    ensures |r| == |ls|
  {
    if ls == [] then [] else ["    " + ls[0]] + Shift(ls[1..])
  }

  lemma {:induction false} ShiftAppend(a: seq<string>, b: seq<string>)
    ensures Shift(a + b) == Shift(a) + Shift(b)
  {
    if a == [] {
      EmptyAppend(b);
    } else {
      ShiftAppend(a[1..], b);
      ConsAppend(a, b);
      AppendAssoc(["    " + a[0]], Shift(a[1..]), Shift(b));
    }
  }

  lemma BulletShift(level: nat, t: string)
    ensures Bullet(level + 1, t) == "    " + Bullet(level, t)
  {
    assert Spaces((level + 1) * IndentSpacingDefault) == "    " + Spaces(level * IndentSpacingDefault);
  }

  lemma {:induction false} ShiftListLines(cs: seq<Node>, level: nat)
    ensures ListLines(cs, level + 1) == Shift(ListLines(cs, level))
    decreases cs
  {
    if cs != [] {
      ShiftItemLines(cs[0], level);
      ShiftListLines(cs[1..], level);
      ShiftAppend(ItemLines(cs[0], level), ListLines(cs[1..], level));
    }
  }

  lemma {:induction false} ShiftItemLines(n: Node, level: nat)
    ensures ItemLines(n, level + 1) == Shift(ItemLines(n, level))
    decreases n
  {
    if n.Item? {
      ShiftEntriesLines(n.children, level);
    }
  }

  lemma {:induction false} ShiftEntriesLines(cs: seq<Node>, level: nat)
    ensures EntriesLines(cs, level + 1) == Shift(EntriesLines(cs, level))
    decreases cs
  {
    if cs != [] {
      ShiftEntryLines(cs[0], level);
      ShiftEntriesLines(cs[1..], level);
      ShiftAppend(EntryLines(cs[0], level), EntriesLines(cs[1..], level));
    }
  }

  lemma {:induction false} ShiftEntryLines(n: Node, level: nat)
    ensures EntryLines(n, level + 1) == Shift(EntryLines(n, level))
    decreases n
  {
    match n
    case Text(t) =>
      BulletShift(level, t);
    case List(_, sub) =>
      ShiftListLines(sub, level + 1);
    case _ =>
  }

  /** Walking an outline list one level deeper writes the same lines, each
      indented by four more spaces. */
  lemma NestingAddsFourSpaces(n: Node, level: nat)
    requires IsOutlineList(n)
    ensures Walk("", n, level) == Lines(ListLines(n.children, level))
    ensures Walk("", n, level + 1) == Lines(Shift(ListLines(n.children, level)))
  {
    OutlineWalk("", n, level);
    OutlineWalk("", n, level + 1);
    ShiftListLines(n.children, level);
  }

  // ---------------------------------------------------------------------------
  // The documented examples

  lemma FlatListLines(a: string, b: string, level: nat)
    ensures ListLines([Item([Text(a)]), Item([Text(b)])], level) == [Bullet(level, a), Bullet(level, b)]
  {
    var cs := [Item([Text(a)]), Item([Text(b)])];
    OneTextItem(a, level);
    OneTextItem(b, level);
    assert cs[1..] == [cs[1]] && cs[1..][1..] == [];
    assert ListLines(cs[1..], level) == [Bullet(level, b)] + [];
  }

  lemma OneTextItem(t: string, level: nat)
    ensures ItemLines(Item([Text(t)]), level) == [Bullet(level, t)]
  {
    var es := [Text(t)];
    assert es[1..] == [];
    assert EntriesLines(es, level) == EntryLines(Text(t), level) + EntriesLines([], level);
  }

  lemma TwoLines(p: string, q: string)
    ensures Lines([p, q]) == p + "\n" + q + "\n"
  {
    assert [p, q][1..] == [q] && [q][1..] == [];
    assert Lines([q]) == q + "\n" + Lines([]);
    assert Lines([p, q]) == p + "\n" + Lines([q]);
  }

  lemma BulletTop(t: string)
    ensures Bullet(0, t) == "- " + t
  {
    assert Spaces(0) == "";
  }

  /** A text, a `<br />` and a text, then one more node. */
  lemma WalkTextBreakText(buf: string, a: string, b: string, n: Node, level: nat)
    ensures WalkAll(buf, [Text(a), Br, Text(b), n], level) == Walk(buf + a + "\n" + b, n, level)
  {
    TailOfFour(Text(a), Br, Text(b), n);
    var w := Walk(buf + a + "\n" + b, n, level);
    assert WalkAll(buf + a + "\n" + b, [n], level) == w;
    assert WalkAll(buf + a + "\n", [Text(b), n], level) == w;
    assert WalkAll(buf + a, [Br, Text(b), n], level) == w;
  }

  /** A list of two one-text items at the top level: one bullet line each. */
  lemma WalkFlatList(buf: string, x: string, y: string)
    requires !EndsWithNewline(x) && !EndsWithNewline(y)
    ensures Walk(buf, List(false, [Item([Text(x)]), Item([Text(y)])]), 0)
            == FreshLine(buf) + ("- " + x + "\n" + "- " + y + "\n")
  {
    var list := List(false, [Item([Text(x)]), Item([Text(y)])]);
    FlatIsOutline(x, y);
    OutlineWalk(buf, list, 0);
    FlatListLines(x, y, 0);
    BulletTop(x);
    BulletTop(y);
    TwoLines("- " + x, "- " + y);
  }

  lemma FlatIsOutline(x: string, y: string)
    requires !EndsWithNewline(x) && !EndsWithNewline(y)
    ensures IsOutlineList(List(false, [Item([Text(x)]), Item([Text(y)])]))
  {
    var list := List(false, [Item([Text(x)]), Item([Text(y)])]);
    assert IsOutlineItem(list.children[0]) && IsOutlineItem(list.children[1]);
  }

  /** The walk of a body holding a text, a `<br />`, a text and a list of two
      one-text items: the texts on their own lines, then one bullet line per
      item. */
  lemma WalkTextsThenList(a: string, b: string, x: string, y: string)
    requires b != [] && !EndsWithNewline(b)
    requires !EndsWithNewline(x) && !EndsWithNewline(y)
    ensures WalkAll("", [Body([Text(a), Br, Text(b), List(false, [Item([Text(x)]), Item([Text(y)])])])], 0)
            == a + "\n" + b + "\n" + ("- " + x + "\n" + "- " + y + "\n")
  {
    var list := List(false, [Item([Text(x)]), Item([Text(y)])]);
    var cs := [Text(a), Br, Text(b), list];
    assert WalkAll("", [Body(cs)], 0) == WalkAll("", cs, 0) by {
      assert [Body(cs)][1..] == [];
    }
    WalkTextBreakText("", a, b, list, 0);
    assert "" + a == a;
    WalkFlatList(a + "\n" + b, x, y);
    assert FreshLine(a + "\n" + b) == a + "\n" + b + "\n" by {
      assert (a + "\n" + b)[|a + "\n" + b| - 1] == b[|b| - 1];
    }
  }

  /** Test "should correctly extract body content from React nodes": the
      extracted text of that body, with any texts of the same shape. */
  lemma ExampleFlatList(a: string, b: string, x: string, y: string)
    requires a != [] && !IsWhiteSpace(a[0])
    requires b != [] && !IsWhiteSpace(b[|b| - 1])
    requires !EndsWithNewline(x)
    requires y != [] && !IsWhiteSpace(y[|y| - 1])
    ensures Extract([Body([Text(a), Br, Text(b), List(false, [Item([Text(x)]), Item([Text(y)])])])], 0)
            == a + "\n" + b + "\n- " + x + "\n- " + y
  {
    WalkTextsThenList(a, b, x, y);
    var text := a + "\n" + b + "\n- " + x + "\n- " + y;
    assert a + "\n" + b + "\n" + ("- " + x + "\n" + "- " + y + "\n") == text + "\n";
    assert text[0] == a[0] && text[|text| - 1] == y[|y| - 1];
    TrimTrailingNewline(text);
  }

  /** An item holding only a nested list has that list's lines, four spaces
      further in. */
  lemma NestedItemLines(sub: Node, level: nat)
    requires sub.List?
    ensures ItemLines(Item([sub]), level) == Shift(ListLines(sub.children, level))
  {
    assert [sub][1..] == [];
    assert EntriesLines([sub], level) == EntryLines(sub, level) + EntriesLines([], level);
    ShiftListLines(sub.children, level);
  }

  lemma ShiftTwo(u: string, v: string)
    ensures Shift([u, v]) == ["    " + u, "    " + v]
  {
    assert [u, v][1..] == [v] && [v][1..] == [];
    assert Shift([v]) == ["    " + v] + Shift([]);
  }

  lemma ThreeItemLines(i: Node, j: Node, k: Node, level: nat)
    ensures ListLines([i, j, k], level) == ItemLines(i, level) + ItemLines(j, level) + ItemLines(k, level)
  {
    var li, lj, lk := ItemLines(i, level), ItemLines(j, level), ItemLines(k, level);
    TailOfThree(i, j, k);
    EmptyAppend(lk);
    assert ListLines([k], level) == lk;
    assert ListLines([j, k], level) == lj + lk;
    assert ListLines([i, j, k], level) == li + (lj + lk);
    AppendAssoc(li, lj, lk);
  }

  lemma FourLines(l1: string, l2: string, l3: string, l4: string)
    ensures Lines([l1, l2, l3, l4]) == l1 + "\n" + l2 + "\n" + (l3 + "\n" + l4 + "\n")
  {
    var ls := [l1, l2, l3, l4];
    assert ls == [l1, l2] + [l3, l4];
    LinesAppend([l1, l2], [l3, l4]);
    TwoLines(l1, l2);
    TwoLines(l3, l4);
  }

  /** A list of two one-text items and a third item holding a list of two
      one-text items: the inner bullets are indented by four spaces. */
  lemma WalkNestedList(buf: string, x: string, y: string, p: string, q: string)
    requires !EndsWithNewline(x) && !EndsWithNewline(y) && !EndsWithNewline(p) && !EndsWithNewline(q)
    ensures Walk(buf, List(false, [Item([Text(x)]), Item([Text(y)]),
                                   Item([List(false, [Item([Text(p)]), Item([Text(q)])])])]), 0)
            == FreshLine(buf) + ("- " + x + "\n" + "- " + y + "\n" + ("    - " + p + "\n" + "    - " + q + "\n"))
  {
    var sub := List(false, [Item([Text(p)]), Item([Text(q)])]);
    var list := List(false, [Item([Text(x)]), Item([Text(y)]), Item([sub])]);
    NestedIsOutline(x, y, p, q);
    OutlineWalk(buf, list, 0);
    NestedListText(x, y, p, q);
  }

  lemma NestedListText(x: string, y: string, p: string, q: string)
    ensures Lines(ListLines([Item([Text(x)]), Item([Text(y)]),
                             Item([List(false, [Item([Text(p)]), Item([Text(q)])])])], 0))
            == "- " + x + "\n" + "- " + y + "\n" + ("    - " + p + "\n" + "    - " + q + "\n")
  {
    NestedListLines(x, y, p, q);
    FourLines("- " + x, "- " + y, "    - " + p, "    - " + q);
  }

  lemma NestedIsOutline(x: string, y: string, p: string, q: string)
    requires !EndsWithNewline(x) && !EndsWithNewline(y) && !EndsWithNewline(p) && !EndsWithNewline(q)
    ensures IsOutlineList(List(false, [Item([Text(x)]), Item([Text(y)]),
                                       Item([List(false, [Item([Text(p)]), Item([Text(q)])])])]))
  {
    var sub := List(false, [Item([Text(p)]), Item([Text(q)])]);
    var list := List(false, [Item([Text(x)]), Item([Text(y)]), Item([sub])]);
    assert IsOutlineList(sub) by {
      assert IsOutlineItem(sub.children[0]) && IsOutlineItem(sub.children[1]);
    }
    assert IsOutlineItem(list.children[0]) && IsOutlineItem(list.children[1]);
    assert IsOutlineItem(list.children[2]);
  }

  lemma NestedListLines(x: string, y: string, p: string, q: string)
    ensures ListLines([Item([Text(x)]), Item([Text(y)]),
                       Item([List(false, [Item([Text(p)]), Item([Text(q)])])])], 0)
            == ["- " + x, "- " + y, "    - " + p, "    - " + q]
  {
    var sub := List(false, [Item([Text(p)]), Item([Text(q)])]);
    ThreeItemLines(Item([Text(x)]), Item([Text(y)]), Item([sub]), 0);
    OneTextItem(x, 0);
    OneTextItem(y, 0);
    NestedItemLines(sub, 0);
    FlatListLines(p, q, 0);
    BulletTop(x);
    BulletTop(y);
    BulletTop(p);
    BulletTop(q);
    ShiftTwo("- " + p, "- " + q);
    assert "    " + ("- " + p) == "    - " + p;
    assert "    " + ("- " + q) == "    - " + q;
  }

  /** Test "extractBodyContent nested": a nested list's bullets are indented
      four spaces further in than those of the list holding it. */
  lemma ExampleNestedList(a: string, b: string, x: string, y: string, p: string, q: string)
    requires a != [] && !IsWhiteSpace(a[0])
    requires b != [] && !IsWhiteSpace(b[|b| - 1])
    requires !EndsWithNewline(x) && !EndsWithNewline(y) && !EndsWithNewline(p)
    requires q != [] && !IsWhiteSpace(q[|q| - 1])
    ensures Extract([Body([Text(a), Br, Text(b),
                           List(false, [Item([Text(x)]), Item([Text(y)]),
                                        Item([List(false, [Item([Text(p)]), Item([Text(q)])])])])])], 0)
            == a + "\n" + b + "\n- " + x + "\n- " + y + "\n    - " + p + "\n    - " + q
  {
    var sub := List(false, [Item([Text(p)]), Item([Text(q)])]);
    var list := List(false, [Item([Text(x)]), Item([Text(y)]), Item([sub])]);
    var cs := [Text(a), Br, Text(b), list];
    assert WalkAll("", [Body(cs)], 0) == WalkAll("", cs, 0) by {
      assert [Body(cs)][1..] == [];
    }
    WalkTextBreakText("", a, b, list, 0);
    assert "" + a == a;
    WalkNestedList(a + "\n" + b, x, y, p, q);
    assert FreshLine(a + "\n" + b) == a + "\n" + b + "\n" by {
      assert (a + "\n" + b)[|a + "\n" + b| - 1] == b[|b| - 1];
    }
    NestedText(a, b, x, y, p, q);
  }

  lemma NestedText(a: string, b: string, x: string, y: string, p: string, q: string)
    requires a != [] && !IsWhiteSpace(a[0])
    requires q != [] && !IsWhiteSpace(q[|q| - 1])
    ensures Trim(a + "\n" + b + "\n" + ("- " + x + "\n" + "- " + y + "\n" + ("    - " + p + "\n" + "    - " + q + "\n")))
            == a + "\n" + b + "\n- " + x + "\n- " + y + "\n    - " + p + "\n    - " + q
  {
    var text := a + "\n" + b + "\n- " + x + "\n- " + y + "\n    - " + p + "\n    - " + q;
    assert a + "\n" + b + "\n" + ("- " + x + "\n" + "- " + y + "\n" + ("    - " + p + "\n" + "    - " + q + "\n"))
           == text + "\n";
    assert text[0] == a[0] && text[|text| - 1] == q[|q| - 1];
    TrimTrailingNewline(text);
  }

  // ---------------------------------------------------------------------------
  // The double-nested test, for lists nested to any depth

  /** Two one-text items and, unless it is the innermost list, a third item
      holding the next list: the shape of the double-nested test. */
  function Ladder(pairs: seq<(string, string)>): Node
    requires pairs != []
    decreases |pairs|
  {
    var flat := [Item([Text(pairs[0].0)]), Item([Text(pairs[0].1)])];
    if |pairs| == 1 then List(false, flat)
    else List(false, flat + [Item([Ladder(pairs[1..])])])
  }

  /** Two bullet lines per list, each list one level further in. */
  function LadderLines(pairs: seq<(string, string)>, level: nat): (r: seq<string>)
    requires pairs != []
    ensures |r| == 2 * |pairs|
    ensures r[|r| - 1] == Bullet(level + |pairs| - 1, pairs[|pairs| - 1].1)
    decreases |pairs|
  {
    var bs := [Bullet(level, pairs[0].0), Bullet(level, pairs[0].1)];
    if |pairs| == 1 then bs
    else
      var rest := LadderLines(pairs[1..], level + 1);
      assert pairs[1..][|pairs| - 2] == pairs[|pairs| - 1];
      assert (bs + rest)[|bs + rest| - 1] == rest[|rest| - 1];
      bs + rest
  }

  predicate LadderTexts(pairs: seq<(string, string)>) {
    forall i :: 0 <= i < |pairs| ==> !EndsWithNewline(pairs[i].0) && !EndsWithNewline(pairs[i].1)
  }

  lemma {:induction false} LadderIsOutline(pairs: seq<(string, string)>)
    requires pairs != [] && LadderTexts(pairs)
    ensures IsOutlineList(Ladder(pairs))
    decreases |pairs|
  {
    var n := Ladder(pairs);
    assert IsOutlineItem(Item([Text(pairs[0].0)])) && IsOutlineItem(Item([Text(pairs[0].1)]));
    if |pairs| > 1 {
      assert LadderTexts(pairs[1..]) by {
        forall i | 0 <= i < |pairs[1..]|
          ensures !EndsWithNewline(pairs[1..][i].0) && !EndsWithNewline(pairs[1..][i].1)
        {
          assert pairs[1..][i] == pairs[i + 1];
        }
      }
      LadderIsOutline(pairs[1..]);
      assert IsOutlineItem(Item([Ladder(pairs[1..])]));
      assert n.children[2] == Item([Ladder(pairs[1..])]);
    }
  }

  /** The outline of a ladder is its two bullets per level. */
  lemma {:induction false} LadderListLines(pairs: seq<(string, string)>, level: nat)
    requires pairs != []
    ensures ListLines(Ladder(pairs).children, level) == LadderLines(pairs, level)
    decreases |pairs|
  {
    var x, y := pairs[0].0, pairs[0].1;
    var bs := [Bullet(level, x), Bullet(level, y)];
    if |pairs| == 1 {
      FlatListLines(x, y, level);
    } else {
      var sub := Ladder(pairs[1..]);
      LadderListLines(pairs[1..], level + 1);
      ThreeItemLines(Item([Text(x)]), Item([Text(y)]), Item([sub]), level);
      OneTextItem(x, level);
      OneTextItem(y, level);
      assert ItemLines(Item([sub]), level) == LadderLines(pairs[1..], level + 1) by {
        assert [sub][1..] == [];
        assert EntriesLines([sub], level) == EntryLines(sub, level) + EntriesLines([], level);
      }
      assert [Item([Text(x)]), Item([Text(y)])] + [Item([sub])] == [Item([Text(x)]), Item([Text(y)]), Item([sub])];
      assert [Bullet(level, x)] + [Bullet(level, y)] == bs;
    }
  }

  /** Lines each followed by a newline are the lines joined by newlines, plus one. */
  lemma {:induction false} LinesJoin(ls: seq<string>)
    requires ls != []
    ensures Lines(ls) == Join(ls, "\n") + "\n"
  {
    if |ls| == 1 {
      assert ls[1..] == [];
    } else {
      LinesJoin(ls[1..]);
      AppendAssoc(ls[0] + "\n", Join(ls[1..], "\n"), "\n");
    }
  }

  /** Test "extractBodyContent double nested", for lists nested to any depth:
      the two text lines, then two bullets per list, each list four spaces
      further in than the one holding it. */
  lemma ExampleLadder(a: string, b: string, pairs: seq<(string, string)>)
    requires a != [] && !IsWhiteSpace(a[0])
    requires b != [] && !IsWhiteSpace(b[|b| - 1])
    requires pairs != [] && LadderTexts(pairs)
    requires var t := pairs[|pairs| - 1].1; t != [] && !IsWhiteSpace(t[|t| - 1])
    ensures Extract([Body([Text(a), Br, Text(b), Ladder(pairs)])], 0)
            == a + "\n" + b + "\n" + Join(LadderLines(pairs, 0), "\n")
  {
    var ls := LadderLines(pairs, 0);
    var head := a + "\n" + b + "\n";
    LadderWalk(a, b, pairs);
    FreshAfterText(a, b);
    LinesJoin(ls);
    AppendAssoc(head, Join(ls, "\n"), "\n");
    LadderTextEnds(head, ls, pairs[|pairs| - 1].1, |pairs| - 1);
    TrimTrailingNewline(head + Join(ls, "\n"));
  }

  lemma LadderWalk(a: string, b: string, pairs: seq<(string, string)>)
    requires pairs != [] && LadderTexts(pairs)
    ensures WalkAll("", [Body([Text(a), Br, Text(b), Ladder(pairs)])], 0)
            == FreshLine(a + "\n" + b) + Lines(LadderLines(pairs, 0))
  {
    var list := Ladder(pairs);
    var cs := [Text(a), Br, Text(b), list];
    assert WalkAll("", [Body(cs)], 0) == WalkAll("", cs, 0) by {
      assert [Body(cs)][1..] == [];
    }
    WalkTextBreakText("", a, b, list, 0);
    assert "" + a == a;
    LadderIsOutline(pairs);
    OutlineWalk(a + "\n" + b, list, 0);
    LadderListLines(pairs, 0);
  }

  lemma FreshAfterText(a: string, b: string)
    requires b != [] && !IsWhiteSpace(b[|b| - 1])
    ensures FreshLine(a + "\n" + b) == a + "\n" + b + "\n"
  {
    assert (a + "\n" + b)[|a + "\n" + b| - 1] == b[|b| - 1];
  }

  lemma LadderTextEnds(head: string, ls: seq<string>, t: string, level: nat)
    requires head != [] && !IsWhiteSpace(head[0])
    requires ls != [] && ls[|ls| - 1] == Bullet(level, t)
    requires t != [] && !IsWhiteSpace(t[|t| - 1])
    ensures NoOuterWhiteSpace(head + Join(ls, "\n"))
  {
    var j := Join(ls, "\n");
    JoinLast(ls, "\n");
    assert ls[|ls| - 1][|ls[|ls| - 1]| - 1] == t[|t| - 1];
    var s := head + j;
    assert s[0] == head[0];
    assert s[|s| - 1] == j[|j| - 1];
  }

  /** Test "extractBodyContent double nested": two text lines, then two bullets
      at each of four levels, with 0, 4, 8 and 12 spaces before the `"- "`. */
  lemma ExampleDoubleNestedList(a: string, b: string, x0: string, y0: string, x1: string, y1: string,
                                x2: string, y2: string, x3: string, y3: string)
    requires a != [] && !IsWhiteSpace(a[0])
    requires b != [] && !IsWhiteSpace(b[|b| - 1])
    requires !EndsWithNewline(x0) && !EndsWithNewline(y0) && !EndsWithNewline(x1) && !EndsWithNewline(y1)
    requires !EndsWithNewline(x2) && !EndsWithNewline(y2) && !EndsWithNewline(x3)
    requires y3 != [] && !IsWhiteSpace(y3[|y3| - 1])
    ensures Extract([Body([Text(a), Br, Text(b),
      List(false, [Item([Text(x0)]), Item([Text(y0)]), Item([List(false, [Item([Text(x1)]), Item([Text(y1)]), Item([List(false, [Item([Text(x2)]), Item([Text(y2)]), Item([List(false, [Item([Text(x3)]), Item([Text(y3)])])])])])])])])])], 0)
            == a + "\n" + b + "\n" + Join(["- " + x0, "- " + y0, "    - " + x1, "    - " + y1,
                                            "        - " + x2, "        - " + y2,
                                            "            - " + x3, "            - " + y3], "\n")
  {
    var pairs := [(x0, y0), (x1, y1), (x2, y2), (x3, y3)];
    LadderOfFour(x0, y0, x1, y1, x2, y2, x3, y3);
    LadderLinesOfFour(x0, y0, x1, y1, x2, y2, x3, y3);
    assert LadderTexts(pairs);
    ExampleLadder(a, b, pairs);
  }

  lemma LadderOfFour(x0: string, y0: string, x1: string, y1: string, x2: string, y2: string, x3: string, y3: string)
    ensures Ladder([(x0, y0), (x1, y1), (x2, y2), (x3, y3)])
            == List(false, [Item([Text(x0)]), Item([Text(y0)]), Item([List(false, [Item([Text(x1)]), Item([Text(y1)]), Item([List(false, [Item([Text(x2)]), Item([Text(y2)]), Item([List(false, [Item([Text(x3)]), Item([Text(y3)])])])])])])])])
  {
    var p := [(x0, y0), (x1, y1), (x2, y2), (x3, y3)];
    assert p[1..] == [(x1, y1), (x2, y2), (x3, y3)];
    assert p[1..][1..] == [(x2, y2), (x3, y3)];
    assert p[1..][1..][1..] == [(x3, y3)];
    LadderStep(p);
    LadderStep(p[1..]);
    LadderStep(p[1..][1..]);
  }

  lemma LadderStep(pairs: seq<(string, string)>)
    requires |pairs| > 1
    ensures Ladder(pairs) == List(false, [Item([Text(pairs[0].0)]), Item([Text(pairs[0].1)]), Item([Ladder(pairs[1..])])])
  {
    var a, b, c := Item([Text(pairs[0].0)]), Item([Text(pairs[0].1)]), Item([Ladder(pairs[1..])]);
    assert [a, b] + [c] == [a, b, c];
  }

  lemma LadderLinesOfFour(x0: string, y0: string, x1: string, y1: string, x2: string, y2: string, x3: string, y3: string)
    ensures LadderLines([(x0, y0), (x1, y1), (x2, y2), (x3, y3)], 0)
            == ["- " + x0, "- " + y0, "    - " + x1, "    - " + y1,
                "        - " + x2, "        - " + y2, "            - " + x3, "            - " + y3]
  {
    var p := [(x0, y0), (x1, y1), (x2, y2), (x3, y3)];
    assert p[1..] == [(x1, y1), (x2, y2), (x3, y3)];
    assert p[1..][1..] == [(x2, y2), (x3, y3)];
    assert p[1..][1..][1..] == [(x3, y3)];
    assert LadderLines(p, 0) == [Bullet(0, x0), Bullet(0, y0)] + LadderLines(p[1..], 1);
    assert LadderLines(p[1..], 1) == [Bullet(1, x1), Bullet(1, y1)] + LadderLines(p[1..][1..], 2);
    assert LadderLines(p[1..][1..], 2) == [Bullet(2, x2), Bullet(2, y2)] + LadderLines(p[1..][1..][1..], 3);
    assert LadderLines(p[1..][1..][1..], 3) == [Bullet(3, x3), Bullet(3, y3)];
    BulletTop(x0);
    BulletTop(y0);
    BulletLevels(x1, y1, x2, y2, x3, y3);
  }

  lemma BulletLevels(x1: string, y1: string, x2: string, y2: string, x3: string, y3: string)
    ensures Bullet(1, x1) == "    - " + x1 && Bullet(1, y1) == "    - " + y1
    ensures Bullet(2, x2) == "        - " + x2 && Bullet(2, y2) == "        - " + y2
    ensures Bullet(3, x3) == "            - " + x3 && Bullet(3, y3) == "            - " + y3
  {
    assert Spaces(4) == "    ";
    assert Spaces(8) == "        ";
    assert Spaces(12) == "            ";
  }
}
