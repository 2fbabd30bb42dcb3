# react-mailto, modelled in Dafny

`react-mailto` is a React component library that turns a `MailTo` element
into a `mailto:` link. Its recipients, subject, cc and bcc props and the text
extracted from a nested `MailToBody` become the link's query. This project
models the library's core logic and proves properties of it:

- **The link builder** (`toSearchString`, `createMailToLink`).
  - A header set is a sequence of `[key, value]` entries in insertion order.
  - A scalar value gives one `key=value` pair, or none when it is empty or
    missing.
  - An array gives one pair per element, in array order.
  - Values go through ECMAScript `encodeURIComponent`. It is modelled over
    Unicode scalar values with full UTF-8 and upper-case `%XX` escapes, as in
    section 19.2.6.5 of ECMA-262 and section 2.1 of RFC 3986.
  - Pairs are joined by `&`, and the query is added after a `?` only when it
    is not empty.
  - A decoder (`decodeURIComponent`) and a `mailto:` reader are defined
    beside it, so the round trip can be proved: reading a link back gives its
    recipients and exactly the pairs the header set means to carry. The round
    trip covers every non-empty recipient list whose addresses hold no `,` or
    `?`, and every header set whose keys hold no `&` or `=`. An empty
    recipient list reads back as one empty address (`[""]`).
- **The body extractor** (`extractBodyContent` and its inner `traverse`).
  - A depth-first walk over a tree of nodes appends to one buffer, which is
    trimmed at the end.
  - The buffer is a field of the `BodyBuffer` class. `Traverse` is a
    recursive method, and each `React.Children.forEach` it runs is a method
    with a loop over the children. Each is proved equal to a specification
    function (`Walk`, `WalkAll`, `WalkItems`, `WalkItemChildren`).
  - Properties proved: leaves, breaks and indents add exactly what they
    should; lists start on a fresh line; every item ends a line; nodes in
    places the walk does not look at are dropped.
  - An outline theorem states the output of any well-formed (possibly
    nested) list as its bullet lines, where level `L` means `4L` spaces
    before `"- "`. A further lemma proves that nesting adds exactly four
    spaces to every line.
- **The `MailTo` component's pure decisions.**
  - `normalizeToList` turns each `string | string[]` prop into a list.
  - The header object is built in the order subject, cc, bcc, body, and an
    empty body becomes `undefined`.
  - The render decision depends on the first `MailToTrigger`: whether
    anything is rendered, and which `href` the trigger gets (the link, or
    `"#"` plus a click target when `obfuscate` is set).
- **The documentation site's composer** (`mailto-composer.tsx`).
  - `parseList` splits an address field on commas and trims each piece.
  - The `processedBody` reduce turns the body's lines into markup items and
    break items. It is an imperative loop, proved equal to a left fold. Where
    the source widens the last break object in place, the model replaces the
    last element of the sequence; the result is the same because nothing
    else refers to that object.
  - The `jsxString` preview joins the rendered items by newlines, and an
    empty body gives `""`.

A non-first markup line gets the two-space prefix twice, once in the reduce
and once in the preview map. A break gets it once. The model keeps this as
written.

Files:
- `wrappers.dfy`: `Option`.
- `seqs.dfy`: small facts about sequence concatenation, used by the proofs.
- `jsstring.dfy`: the ECMAScript string operations used (`trim`, `split` on
  one character, `join`, `repeat`, `endsWith`).
- `uricomponent.dfy`: the encoder and decoder.
- `mailtolink.dfy`: the link builder.
- `bodycontent.dfy`: the body extractor.
- `mailto.dfy`: the component.
- `composer.dfy`: the composer.

Each test of `tests/mailto.test.tsx` that concerns the core has a lemma;
the two that render `MailToBreak` and `MailToIndent` on their own are
outside the core (see "Left out"). Most lemmas are stated for any values of
the test's shape, and some for the test's own literals too.

## Model

| member | source | states |
|---|---|---|
| JsString.Trim | src/index.tsx:148 | `trim`: the result is a slice of the input with only white space before and after it, has no white space at either end, is the input itself when the input has none, and is empty exactly when the input is all white space |
| JsString.Join | src/index.tsx:49 | `join`: the pieces with the separator between each two; its properties are those of `JsString.SplitJoin`, `JsString.JoinSeparated` and `JsString.JoinLast` |
| JsString.JoinLast | src/index.tsx:49 | a join ends with the last character of its last piece |
| JsString.TrimIdempotent | src/index.tsx:148 | trimming a trimmed text changes nothing |
| JsString.Split | src/docs/src/components/mailto-composer.tsx:29 | `split` on one character: one piece per separator plus one, no piece holds the separator, and joining the pieces by the separator gives the input back |
| JsString.SplitJoin | src/docs/src/components/mailto-composer.tsx:29 | splitting a join of separator-free pieces gives the pieces back |
| JsString.JoinSeparated | src/index.tsx:49 | joining non-empty, separator-free pieces never puts the separator first, last or twice in a row |
| JsString.TrimTrailingNewline | src/index.tsx:132-134 | a text without outer white space followed by one newline trims back to the text |
| UriComponent.EncodeChar | src/index.tsx:44-46 | one character is kept as itself exactly when it is unreserved, and otherwise becomes at most twelve characters (three per UTF-8 byte) |
| UriComponent.EncodeURIComponent | src/index.tsx:44-46 | `encodeURIComponent`: the encoding is never shorter than the text; its inverse is `UriComponent.DecodeEncode` |
| UriComponent.EncodedAlphabet | src/index.tsx:44-46 | `encodeURIComponent` output consists only of unreserved characters and `%`, so no `&`, `=`, `,`, `?` or `#` is left in a value |
| UriComponent.EncodeUnreserved | src/index.tsx:44-46 | a string of unreserved characters is its own encoding |
| UriComponent.DecodeEncode | src/index.tsx:44-46 | decoding the encoding of any string gives the string back (UTF-8 escapes of one to four bytes) |
| UriComponent.DecodeEscapeOfChar | src/index.tsx:44-46 | the `%XX` escapes of one reserved character decode to that character and span exactly its encoding |
| UriComponent.EncodeAppend | src/index.tsx:44-46 | the encoding of a concatenation is the concatenation of the encodings |
| UriComponent.EncodeAround | src/index.tsx:44-46 | one reserved ASCII character between unreserved runs becomes its single `%XX` escape |
| UriComponent.EncodeSpace | tests/mailto.test.tsx:26 | a space between unreserved runs is sent as `%20` |
| UriComponent.EncodeAtSign | tests/mailto.test.tsx:26 | an `@` between unreserved runs is sent as `%40` |
| UriComponent.ExampleSpaceInSubject | tests/mailto.test.tsx:152 | `Test Subject` is encoded as `Test%20Subject` |
| UriComponent.ExampleSpaceInBody | tests/mailto.test.tsx:152 | `Body Content` is encoded as `Body%20Content` |
| UriComponent.ExampleAtInAddress | tests/mailto.test.tsx:26 | `test@example.com` is encoded as `test%40example.com` |
| MailtoLink.EntryPieces | src/index.tsx:42-47 | the `flatMap` callback: a piece is `""` exactly when the entry stands for no pair, and every other piece starts with the entry's key and `=` |
| MailtoLink.NonEmpty | src/index.tsx:48 | `.filter(Boolean)`: no longer than its input, keeps no empty string and takes nothing else away |
| MailtoLink.ToSearchString | src/index.tsx:40-50 | `toSearchString`: the query is empty exactly when the header set stands for no pair |
| MailtoLink.JoinedPairsEmpty | src/index.tsx:44-49 | every encoded pair holds `=`, so their join is empty only when there are none |
| MailtoLink.CreateMailToLink | src/index.tsx:59-71 | `createMailToLink`: the link starts with `mailto:` and the recipients joined by `,`, and is nothing more exactly when there are no headers or they stand for no pair |
| MailtoLink.KeyValues | src/index.tsx:40-48 | the reference the query is proved against: the decoded pairs a header set stands for, entry by entry (no `ensures`; see `MailtoLink.SurvivingPieces`) |
| MailtoLink.ArrayPairs | src/index.tsx:43-44 | an array gives one encoded pair per element, in array order, each under the entry's key |
| MailtoLink.ArrayKeyValues | src/index.tsx:43-44 | an array gives one pair per element, in array order, each under the entry's key |
| MailtoLink.EncodePairs | src/index.tsx:44-46 | one encoded pair per decoded pair, the `i`-th being `key=encodeURIComponent(value)` of the `i`-th |
| MailtoLink.SurvivingPieces | src/index.tsx:40-48 | the pieces kept by `.filter(Boolean)` are exactly the encoded intended pairs, in entry order and, within an array, in array order; empty or missing scalars and empty arrays give none |
| MailtoLink.ArrayPiecesSurvive | src/index.tsx:43-44 | every pair of an array is non-empty, so the filter keeps them all |
| MailtoLink.EntrySurvives | src/index.tsx:42-47 | what one entry contributes after the filter is its encoded pairs |
| MailtoLink.NonEmptyAppend | src/index.tsx:48 | the filter distributes over concatenation |
| MailtoLink.EmptyElementKept | src/index.tsx:44 | an empty string inside an array is still sent, as `key=` |
| MailtoLink.FalsyScalarsDropped | src/index.tsx:46 | an empty or missing scalar yields no pair, so such a header set has an empty query |
| MailtoLink.EncodedPairsPlain | src/index.tsx:44-49 | the pieces joined by `&` are non-empty and hold no `&` when the keys hold none |
| MailtoLink.ParsePairOfPair | src/index.tsx:44-46 | `key=encodeURIComponent(value)` reads back as the key and the value |
| MailtoLink.QueryRoundTrip | src/index.tsx:40-50 | reading the query back gives exactly the intended decoded pairs, keys unencoded |
| MailtoLink.QueryShape | src/index.tsx:40-50 | the query is empty exactly when no pair is intended; otherwise no `&` leads, trails or doubles |
| MailtoLink.LinkShape | src/index.tsx:59-71 | the link is `mailto:` plus the recipients joined by `,` without encoding, plus `?` and the query exactly when the query is non-empty; without headers it is just the recipients |
| MailtoLink.LinkRoundTrip | src/index.tsx:59-71 | reading a link back gives its recipients and its intended pairs, for a non-empty recipient list free of `,` and `?` |
| MailtoLink.ParseLinkParts | src/index.tsx:63-68 | a link splits at its first `?` into recipient path and query |
| BodyContent.Walk | src/index.tsx:86-145 | `traverse`: the old buffer is always a prefix of the new one |
| BodyContent.WalkAll | src/index.tsx:101-107 | walking children one after another only ever extends the buffer |
| BodyContent.Extract | src/index.tsx:147-148 | `extractBodyContent`: the walk's output with only white space cut from either end, and none left there |
| BodyContent.WalkItems | src/index.tsx:114-118 | the children of a list only ever extend the buffer |
| BodyContent.WalkItemChildren | src/index.tsx:122-131 | the children of an item only ever extend the buffer |
| BodyContent.BodyBuffer.Traverse | src/index.tsx:86-145 | the recursive traversal appends to `bodyContent` exactly what `Walk` specifies |
| BodyContent.BodyBuffer.TraverseEach | src/index.tsx:101-107 | the `forEach` over an indent block's or a body's children appends exactly what `WalkAll` specifies |
| BodyContent.BodyBuffer.TraverseItems | src/index.tsx:114-118 | the `forEach` over a list's children traverses only the `li` children, appending exactly what `WalkItems` specifies |
| BodyContent.BodyBuffer.TraverseItemChildren | src/index.tsx:122-131 | the `forEach` over an item's children appends exactly what `WalkItemChildren` specifies |
| BodyContent.ExtractBodyContent | src/index.tsx:80-149 | walking every child into a fresh buffer and trimming gives `Extract`, a text with no white space at either end |
| BodyContent.LeafNodes | src/index.tsx:88-99 | a text is appended verbatim, `<br />` adds one newline, a `MailToBreak` adds exactly `spacing` newlines, one by default |
| BodyContent.IndentKeepsLevel | src/index.tsx:100-108 | a `MailToIndent` adds its spaces (four by default) and walks its children at the same level |
| BodyContent.ExtractIdempotent | src/index.tsx:148 | the extracted text has no outer white space, and extracting from that text alone gives it back |
| BodyContent.IgnoredAddNothing | src/index.tsx:141-142 | triggers and unknown nodes add nothing wherever they stand |
| BodyContent.AllIgnoredIsEmpty | src/index.tsx:141-148 | an empty body, or one of only ignored nodes, extracts to `""` |
| BodyContent.ListVisitsOnlyItems | src/index.tsx:114-118 | a list visits its `li` children in order at its own level, and nothing else |
| BodyContent.ItemKeepsTextsAndLists | src/index.tsx:122-131 | inside an item only texts and nested lists contribute |
| BodyContent.ListBoundaries | src/index.tsx:111-113 | a list first adds at most one newline, so that it starts on a fresh line, and ends with a newline once it holds an item |
| BodyContent.ItemsEndLine | src/index.tsx:132-134 | after any item the buffer ends with a newline |
| BodyContent.TextItem | src/index.tsx:120-134 | an item of texts writes each after the bullet of its level and ends the line |
| BodyContent.TextChildren | src/index.tsx:128-129 | each text child of an item is appended as `4L` spaces, `"- "` and the text |
| BodyContent.OutlineWalk | src/index.tsx:109-135 | a well-formed list writes a fresh line and then its bullet lines, each ending in a newline, nested lists at the next level |
| BodyContent.OutlineItems | src/index.tsx:114-118 | the items of a well-formed list write their lines one after another |
| BodyContent.OutlineItem | src/index.tsx:120-135 | a well-formed item writes its own lines |
| BodyContent.OutlineEntries | src/index.tsx:122-134 | the children of a well-formed item end the pending bullet line before a nested list and at the end |
| BodyContent.OutlineNested | src/index.tsx:125-127 | a nested list ends the pending bullet line, writes its lines, and leaves the buffer at a line end |
| BodyContent.OutlineNotEmpty | src/index.tsx:109-135 | a well-formed list writes at least one line |
| BodyContent.NestingAddsFourSpaces | src/index.tsx:87 | walking a well-formed list one level deeper writes the same lines, each four spaces further in |
| BodyContent.ShiftListLines | src/index.tsx:87 | the bullet lines of a list one level deeper are its lines shifted by four spaces |
| BodyContent.BulletShift | src/index.tsx:87 | a bullet one level deeper is four more spaces in front |
| BodyContent.WalkTextBreakText | tests/mailto.test.tsx:64-66 | a text, a `<br />` and a text write the texts on two lines |
| BodyContent.WalkFlatList | tests/mailto.test.tsx:67-70 | a list of two one-text items writes two top-level bullet lines |
| BodyContent.ExampleFlatList | tests/mailto.test.tsx:61-74 | the test's body extracts to its two lines and two bullets, for any texts of that shape |
| BodyContent.WalkNestedList | tests/mailto.test.tsx:85-94 | a nested list's bullets come four spaces further in |
| BodyContent.ExampleNestedList | tests/mailto.test.tsx:79-99 | the nested test's body extracts to its lines, the inner bullets indented by four spaces, for any texts of that shape |
| BodyContent.LadderIsOutline | tests/mailto.test.tsx:104-139 | lists nested to any depth, two one-text items and the next list per level, are well-formed outlines |
| BodyContent.LadderListLines | tests/mailto.test.tsx:104-139 | such nested lists write two bullets per level, each level one deeper than the one holding it |
| BodyContent.LinesJoin | src/index.tsx:132-134 | lines each ended by a newline are the lines joined by newlines, plus one newline |
| BodyContent.ExampleLadder | tests/mailto.test.tsx:104-139 | a body of a text, a `<br />`, a text and nested lists of any depth extracts to the two texts and the bullets, joined by newlines |
| BodyContent.ExampleDoubleNestedList | tests/mailto.test.tsx:104-139 | the double-nested test's body extracts to its two lines and two bullets at each of four levels, with 0, 4, 8 and 12 spaces before `"- "`, for any texts of that shape |
| MailToComponent.NormalizeToList | src/index.tsx:238-239 | `normalizeToList`: its three cases are stated by `MailToComponent.NormalizeToListForms` (no `ensures` of its own) |
| MailToComponent.MailToHeaders | src/index.tsx:247-252 | the header object has the four entries subject, cc, bcc and body in that order; the subject is missing exactly when the prop is, cc and bcc are the normalised lists, and the body is missing exactly when the extracted text is empty |
| MailToComponent.MailtoHref | src/index.tsx:238-265 | `mailtoLink` starts with `mailto:` and the normalised recipients joined by `,` |
| MailToComponent.Render | src/index.tsx:255-283 | nothing is rendered exactly when no child is a trigger; a rendered trigger gets a click target exactly when obfuscated, that target is the link, and an `href` among the other props is the one it keeps |
| MailToComponent.NormalizeToListForms | src/index.tsx:238-239 | a string becomes the one-element list, a missing prop the empty list, and a list stays as it is |
| MailToComponent.FindTrigger | src/index.tsx:255-257 | none exactly when no child is a trigger; otherwise the first trigger's children |
| MailToComponent.RenderDecision | src/index.tsx:259-283 | nothing is rendered exactly when no child is a trigger; otherwise the first trigger, with the link as `href`, or `"#"` and a click to the link when obfuscated, and an `href` among the other props winning over both |
| MailToComponent.HeaderPairs | src/index.tsx:247-252 | the header object stands for the subject unless missing or empty, one pair per cc and per bcc recipient, and the body unless empty, in that order |
| MailToComponent.HeaderQuery | src/index.tsx:247-252 | the query of the header object is those pairs encoded and joined by `&` |
| MailToComponent.BodyPair | src/index.tsx:251 | an empty extracted body sends no `body` pair; a non-empty one is the last pair |
| MailToComponent.HeadersPlain | src/index.tsx:247-252 | the four header names hold neither `&` nor `=` |
| MailToComponent.MailToLinkRoundTrip | src/index.tsx:238-265 | reading the component's link back gives its recipients and the intended pairs |
| MailToComponent.NoBodyWithoutContent | src/index.tsx:244-251 | children with nothing the walk keeps give an empty body and no `body` pair |
| MailToComponent.ExampleMissingTrigger | tests/mailto.test.tsx:156-163 | a body without a trigger renders nothing |
| MailToComponent.ExampleBodyText | tests/mailto.test.tsx:145-147 | a trigger and a body holding one text extract to that text |
| MailToComponent.ExampleTriggerHref | tests/mailto.test.tsx:143-153 | the trigger gets `mailto:`, the recipient, `?subject=`, the encoded subject, `&body=` and the encoded body |
| MailToComponent.ExampleTriggerHrefLiteral | tests/mailto.test.tsx:143-153 | with the test's own values the `href` is `mailto:test@example.com?subject=Test%20Subject&body=Body%20Content` |
| MailToComponent.ExampleFullQuery | tests/mailto.test.tsx:17-28 | a subject, one cc, one bcc and a body give the four encoded pairs in that order |
| MailToComponent.ExampleNoHeaders | tests/mailto.test.tsx:30-32 | an empty header set gives `""`, and a link with it has no `?` |
| MailToComponent.ExampleOnlyCc | tests/mailto.test.tsx:34-38 | an empty bcc array adds nothing |
| MailToComponent.ExampleLinkWithHeaders | tests/mailto.test.tsx:43-50 | a subject and a body header follow the recipient after one `?` |
| MailToComponent.ExampleLinkWithHeadersLiteral | tests/mailto.test.tsx:43-50 | with the test's own values the link is `mailto:test@example.com?subject=Hello&body=World` |
| Composer.ParseList | src/docs/src/components/mailto-composer.tsx:28-29 | one entry per comma plus one, so never empty, each trimmed and comma-free |
| Composer.ParseListJoin | src/docs/src/components/mailto-composer.tsx:28-29 | trimmed, comma-free addresses joined by commas parse back to themselves |
| Composer.ParseListEmpty | src/docs/src/components/mailto-composer.tsx:28-29 | an empty field parses to one empty address |
| Composer.ParseListTrims | src/docs/src/components/mailto-composer.tsx:28-29 | comma-free pieces joined by commas parse to the same pieces, each trimmed |
| Composer.NatToString | src/docs/src/components/mailto-composer.tsx:90 | a spacing is written as decimal digits without leading zeros |
| Composer.NatToStringValue | src/docs/src/components/mailto-composer.tsx:90 | reading the digits back gives the number |
| Composer.LeadingTabs | src/docs/src/components/mailto-composer.tsx:88 | `/^\t+/`: the length of the run of tabs at the front |
| Composer.ProcessBody | src/docs/src/components/mailto-composer.tsx:76-97 | splitting the body at newlines and reducing the lines gives the fold `Processed`; the result has no two adjacent breaks and no break narrower than 1, and unfolds to one cell per line |
| Composer.ReduceLines | src/docs/src/components/mailto-composer.tsx:78-97 | the reduce from `[]`, one reducer call per line with its index, equals the fold `Processed` over the lines, and has the same two properties |
| Composer.Reducer | src/docs/src/components/mailto-composer.tsx:78-96 | the reducer widens a break that is last, or pushes a break or the line's markup, exactly as `Step` specifies |
| Composer.Step | src/docs/src/components/mailto-composer.tsx:78-97 | one reducer call adds at most one item and changes no item before the last; when it adds none, the last item was a break and still is |
| Composer.Processed | src/docs/src/components/mailto-composer.tsx:76-97 | the fold of the reducer over the lines: at most one item per line, and at least one item for a non-empty list of lines |
| Composer.StepWellFormed | src/docs/src/components/mailto-composer.tsx:79-85 | one step of the reduce keeps breaks apart and of spacing at least 1 |
| Composer.ProcessedWellFormed | src/docs/src/components/mailto-composer.tsx:79-85 | `processedBody` never holds two adjacent breaks, and every break has spacing at least 1 |
| Composer.StepUnfolds | src/docs/src/components/mailto-composer.tsx:78-96 | one step extends the unfolded items by exactly the cell of its line |
| Composer.ProcessedUnfolds | src/docs/src/components/mailto-composer.tsx:76-97 | expanding each break into that many blank cells gives one cell per line, in order: blank for a blank line, the line's markup otherwise |
| Composer.UnfoldLength | src/docs/src/components/mailto-composer.tsx:76-97 | the expansion has as many cells as the break spacings plus the markup items |
| Composer.ProcessedConserves | src/docs/src/components/mailto-composer.tsx:76-97 | the number of lines equals the sum of the break spacings plus the number of markup items |
| Composer.IndentedLine | src/docs/src/components/mailto-composer.tsx:87-91 | a line led by `k` tabs becomes an indent of spacing `4k` followed by the trimmed rest of the line |
| Composer.PlainLine | src/docs/src/components/mailto-composer.tsx:92-93 | a non-blank line not led by a tab is kept as it is, prefixed by two spaces unless it is the first line |
| Composer.StepText | src/docs/src/components/mailto-composer.tsx:86-95 | a non-blank line pushes its markup |
| Composer.StepWiden | src/docs/src/components/mailto-composer.tsx:81-82 | a blank line after a break widens that break by one |
| Composer.StepOpen | src/docs/src/components/mailto-composer.tsx:83-84 | a blank line after markup, or first, pushes a break of spacing 1 |
| Composer.ExampleBody | src/docs/src/components/mailto-composer.tsx:76-97 | a line, two blank lines and a tab-led line give the markup, one break of spacing 2, and an indent of spacing 4 behind the two-space prefix |
| Composer.Rendered | src/docs/src/components/mailto-composer.tsx:99-104 | the `map` renders exactly one string per item |
| Composer.BodyJsx | src/docs/src/components/mailto-composer.tsx:99-109 | `jsxString`: stated by `Composer.EmptyBodyJsx` and `Composer.JsxLines` (no `ensures` of its own) |
| Composer.EmptyBodyJsx | src/docs/src/components/mailto-composer.tsx:99-109 | an empty body gives one break item, yet an empty preview |
| Composer.JsxLines | src/docs/src/components/mailto-composer.tsx:99-105 | a non-empty body's preview splits at its newlines into exactly the rendered items, one per line |
| Composer.ProcessedSingleLines | src/docs/src/components/mailto-composer.tsx:76-97 | no markup item holds a newline |

## Left out

- React itself is not modelled: rendering, `React.cloneElement`, the spread of the other anchor props except `href`, the `onClick` handler, `window.location.href` and `console.error` (src/index.tsx:259-283). The component's output is the `Rendering` value.
- `React.Children` normalisation is not modelled: flattening of nested arrays, and numbers, booleans and `null` being dropped. Children are a sequence of `Node`s. Non-element children, and elements the walk does not recognise (a fragment among them, src/index.tsx:141), are `Other`.
- The spread `...node.props.children` inside a `MailToIndent` (src/index.tsx:104) is modelled as walking the children. The model does not tell a lone child apart from an array of children. The spread throws a `TypeError`, so `extractBodyContent` fails, in these cases:
  - the `MailToIndent` has no children (`undefined`);
  - its one child is an element;
  - its one child is a number, a boolean or `null`.

  In each of them the model still writes the spaces and walks the child, if any, like any other node. A lone string child is spread into its characters, which gives the same text as the model's.
- The component bodies of `MailToBody`, `MailToTrigger`, `MailToIndent` and `MailToBreak` (src/index.tsx:303-376) are JSX renderers and are not modelled. Only their `spacing` defaults are used, so there is no lemma for the two tests that render `MailToBreak` and `MailToIndent` directly.
- `spacing` props are modelled as natural numbers. Negative or fractional spacings, for which `repeat` throws or truncates, are not modelled.
- `UriComponent.ExampleAtInAddress`: the test's `hidden%40example.com` is covered only by the general `UriComponent.EncodeAtSign`.
- `encodeURIComponent` is defined over Dafny characters, which are Unicode scalar values. JavaScript strings are UTF-16, and a lone surrogate would make the function throw a `URIError`. Such a surrogate cannot occur in this model.
- `MailtoLink.LinkRoundTrip`: recipients are not encoded in the link, so a recipient holding `,` or `?` cannot be read back. The lemma requires recipients without them, as the source never checks.
- `Composer.NatToString`: a JavaScript number in a template literal is written out only for the natural numbers the reduce produces.
- The composer's `handleKeyDown`, its state hooks, and the `JSON.stringify` templating of the final JSX text (mailto-composer.tsx:110-136) are not modelled.
- `src/docs/vite.config.ts` and `src/docs/src/App.tsx` are not part of this model. They hold no logic.
