/**
 The pure decisions of the `MailTo` component: its `string | string[]` props
 are normalised to lists, the header set is assembled in the order subject,
 cc, bcc, body from the props and the extracted body, and the first
 `MailToTrigger` child decides whether anything is rendered and which `href`
 it gets.
 */
module MailToComponent {
  import opened Wrappers
  import opened JsString
  import opened Seqs
  import opened UriComponent
  import opened BodyContent
  import opened MailtoLink

  /** A `string | string[]` prop that may be left out. */
  datatype StringOrList = Missing | One(text: string) | Many(items: seq<string>)

  /** `normalizeToList(input)`. */
  function NormalizeToList(input: StringOrList): seq<string> {
    match input
    case One(s) => [s]
    case Many(items) => items
    case Missing => []
  }

  /** A single string is the one-element list, a missing prop the empty one,
      and a list is kept as it is. */
  lemma NormalizeToListForms(s: string, items: seq<string>)
    ensures NormalizeToList(One(s)) == NormalizeToList(Many([s])) == [s]
    ensures NormalizeToList(Missing) == NormalizeToList(Many([])) == []
    ensures NormalizeToList(Many(items)) == items
  {
  }

  /** The props the component reads. `href` is an `href` among the other
      anchor props, which are spread over the trigger last. */
  datatype MailToProps = MailToProps(
    to: StringOrList,
    subject: Option<string>,
    cc: StringOrList,
    bcc: StringOrList,
    obfuscate: bool,
    children: seq<Node>,
    href: Option<string>)

  /** The `headers` object: its entries in the order they are written. An
      empty extracted body becomes `undefined`. */
  function MailToHeaders(subject: Option<string>, cc: seq<string>, bcc: seq<string>, bodyContent: string): (r: seq<Header>)
    ensures |r| == 4
    ensures r[0].key == "subject" && r[1].key == "cc" && r[2].key == "bcc" && r[3].key == "body"
    ensures r[0].value.Absent? <==> subject.None?
    ensures r[1].value == Multi(cc) && r[2].value == Multi(bcc)
    ensures r[3].value.Absent? <==> bodyContent == ""
  {
    [ Header("subject", match subject case Some(s) => Scalar(s) case None => Absent),
      Header("cc", Multi(cc)),
      Header("bcc", Multi(bcc)),
      Header("body", if bodyContent == "" then Absent else Scalar(bodyContent)) ]
  }

  /** The body of the email: everything the walk extracts from the children. */
  function BodyText(p: MailToProps): string {
    Extract(p.children, 0)
  }

  function Headers(p: MailToProps): seq<Header> {
    MailToHeaders(p.subject, NormalizeToList(p.cc), NormalizeToList(p.bcc), BodyText(p))
  }

  /** `mailtoLink`. */
  function MailtoHref(p: MailToProps): (r: string)
    ensures "mailto:" + Join(NormalizeToList(p.to), ",") <= r
  {
    CreateMailToLink(NormalizeToList(p.to), Some(Headers(p)))
  }

  /** The children of the first top-level `MailToTrigger`, if there is one. */
  function FindTrigger(cs: seq<Node>): (r: Option<seq<Node>>)
    ensures r.None? <==> forall i :: 0 <= i < |cs| ==> !cs[i].Trigger?
    ensures r.Some? ==>
              exists i :: 0 <= i < |cs| && cs[i] == Trigger(r.value) &&
                          forall j :: 0 <= j < i ==> !cs[j].Trigger?
  {
    if cs == [] then None
    else if cs[0].Trigger? then Some(cs[0].children)
    else
      var r := FindTrigger(cs[1..]);
      assert r.Some? ==> exists i :: 1 <= i < |cs| && cs[i] == Trigger(r.value) &&
                                     forall j :: 0 <= j < i ==> !cs[j].Trigger? by {
        if r.Some? {
          var i :| 0 <= i < |cs[1..]| && cs[1..][i] == Trigger(r.value) &&
                   forall j :: 0 <= j < i ==> !cs[1..][j].Trigger?;
          assert cs[i + 1] == Trigger(r.value);
          assert forall j :: 1 <= j < i + 1 ==> !cs[j].Trigger? by {
            forall j | 1 <= j < i + 1 ensures !cs[j].Trigger? {
              assert cs[j] == cs[1..][j - 1];
            }
          }
        }
      }
      assert r.None? ==> forall i :: 1 <= i < |cs| ==> !cs[i].Trigger? by {
        if r.None? {
          forall i | 1 <= i < |cs| ensures !cs[i].Trigger? {
            assert cs[i] == cs[1..][i - 1];
          }
        }
      }
      r
  }

  /** What the component renders: the empty fragment, or the trigger's anchor
      with the `href` it ends up with and, when obfuscated, the link the click
      handler navigates to. */
  datatype Rendering =
    | Nothing
    | Anchor(content: seq<Node>, href: string, navigatesTo: Option<string>)

  function Render(p: MailToProps): (r: Rendering)
    ensures r.Nothing? <==> forall i :: 0 <= i < |p.children| ==> !p.children[i].Trigger?
    ensures r.Anchor? ==> (r.navigatesTo.Some? <==> p.obfuscate)
    ensures r.Anchor? && p.href.Some? ==> r.href == p.href.value
    ensures r.Anchor? && p.obfuscate ==> r.navigatesTo == Some(MailtoHref(p))
  {
    match FindTrigger(p.children)
    case None => Nothing
    case Some(content) =>
      if p.obfuscate then Anchor(content, p.href.GetOr("#"), Some(MailtoHref(p)))
      else Anchor(content, p.href.GetOr(MailtoHref(p)), None)
  }

  // ---------------------------------------------------------------------------
  // The render decision

  /** Nothing is rendered exactly when no child is a trigger. Otherwise the
      first trigger is rendered: with the link as its `href`, or with `"#"`
      and a click that navigates to the link when obfuscated; an `href` among
      the other props wins over either. */
  lemma RenderDecision(p: MailToProps)
    ensures Render(p).Nothing? <==> forall i :: 0 <= i < |p.children| ==> !p.children[i].Trigger?
    ensures Render(p).Anchor? ==>
              exists i :: 0 <= i < |p.children| && p.children[i] == Trigger(Render(p).content) &&
                          forall j :: 0 <= j < i ==> !p.children[j].Trigger?
    ensures Render(p).Anchor? && p.href.Some? ==> Render(p).href == p.href.value
    ensures Render(p).Anchor? && p.href.None? && !p.obfuscate ==>
              Render(p).href == MailtoHref(p) && Render(p).navigatesTo == None
    ensures Render(p).Anchor? && p.href.None? && p.obfuscate ==>
              Render(p).href == "#" && Render(p).navigatesTo == Some(MailtoHref(p))
  {
    var t := FindTrigger(p.children);
    if t.Some? {
      assert Render(p).content == t.value;
    }
  }

  // ---------------------------------------------------------------------------
  // What the link carries

  /** The decoded pairs the component means to send: the subject unless it is
      missing or empty, one pair per cc and per bcc recipient, and the body
      unless it is empty. */
  function IntendedPairs(subject: Option<string>, cc: seq<string>, bcc: seq<string>, bodyContent: string): seq<(string, string)> {
    (if subject.Some? && subject.value != "" then [("subject", subject.value)] else [])
    + ArrayKeyValues("cc", cc) + ArrayKeyValues("bcc", bcc)
    + (if bodyContent != "" then [("body", bodyContent)] else [])
  }

  lemma KeyValuesFour(a: Header, b: Header, c: Header, d: Header)
    ensures KeyValues([a, b, c, d]) ==
            EntryKeyValues(a) + EntryKeyValues(b) + EntryKeyValues(c) + EntryKeyValues(d)
  {
    var ka, kb, kc, kd := EntryKeyValues(a), EntryKeyValues(b), EntryKeyValues(c), EntryKeyValues(d);
    TailOfFour(a, b, c, d);
    EmptyAppend(kd);
    assert KeyValues([d]) == kd;
    assert KeyValues([c, d]) == kc + kd;
    assert KeyValues([b, c, d]) == kb + (kc + kd);
    assert KeyValues([a, b, c, d]) == ka + (kb + (kc + kd));
    AppendAssoc(ka + kb, kc, kd);
    AppendAssoc(ka, kb, kc + kd);
  }

  /** The header set stands for exactly the intended pairs. */
  lemma HeaderPairs(subject: Option<string>, cc: seq<string>, bcc: seq<string>, bodyContent: string)
    ensures KeyValues(MailToHeaders(subject, cc, bcc, bodyContent)) == IntendedPairs(subject, cc, bcc, bodyContent)
  {
    var hs := MailToHeaders(subject, cc, bcc, bodyContent);
    KeyValuesFour(hs[0], hs[1], hs[2], hs[3]);
  }

  /** The query of the header set: the intended pairs, encoded and joined by `&`. */
  lemma HeaderQuery(subject: Option<string>, cc: seq<string>, bcc: seq<string>, bodyContent: string)
    ensures ToSearchString(MailToHeaders(subject, cc, bcc, bodyContent)) ==
            Join(EncodePairs(IntendedPairs(subject, cc, bcc, bodyContent)), "&")
  {
    SurvivingPieces(MailToHeaders(subject, cc, bcc, bodyContent));
    HeaderPairs(subject, cc, bcc, bodyContent);
  }

  /** An empty body sends no `body` pair; a non-empty one is the last pair. */
  lemma BodyPair(subject: Option<string>, cc: seq<string>, bcc: seq<string>, bodyContent: string)
    ensures var kvs := KeyValues(MailToHeaders(subject, cc, bcc, bodyContent));
            bodyContent == "" ==> forall i :: 0 <= i < |kvs| ==> kvs[i].0 != "body"
    ensures var kvs := KeyValues(MailToHeaders(subject, cc, bcc, bodyContent));
            bodyContent != "" ==> kvs != [] && kvs[|kvs| - 1] == ("body", bodyContent)
  {
    HeaderPairs(subject, cc, bcc, bodyContent);
    var front := (if subject.Some? && subject.value != "" then [("subject", subject.value)] else [])
                 + ArrayKeyValues("cc", cc) + ArrayKeyValues("bcc", bcc);
    assert front + [] == front;
    assert forall i :: 0 <= i < |front| ==> front[i].0 != "body";
  }

  /** Reading the component's link back gives its recipients and the intended
      pairs, when the recipients are a non-empty list free of `,` and `?`. */
  lemma MailToLinkRoundTrip(p: MailToProps)
    requires NormalizeToList(p.to) != []
    requires forall i :: 0 <= i < |NormalizeToList(p.to)| ==>
               ',' !in NormalizeToList(p.to)[i] && '?' !in NormalizeToList(p.to)[i]
    ensures ParseMailto(MailtoHref(p)) ==
            Some((NormalizeToList(p.to),
                  IntendedPairs(p.subject, NormalizeToList(p.cc), NormalizeToList(p.bcc), BodyText(p))))
  {
    var hs := Headers(p);
    HeadersPlain(p.subject, NormalizeToList(p.cc), NormalizeToList(p.bcc), BodyText(p));
    LinkRoundTrip(NormalizeToList(p.to), hs);
    HeaderPairs(p.subject, NormalizeToList(p.cc), NormalizeToList(p.bcc), BodyText(p));
  }

  /** The four header names hold neither `&` nor `=`. */
  lemma HeadersPlain(subject: Option<string>, cc: seq<string>, bcc: seq<string>, bodyContent: string)
    ensures PlainKeys(MailToHeaders(subject, cc, bcc, bodyContent))
  {
    var hs := MailToHeaders(subject, cc, bcc, bodyContent);
    assert hs[0].key == "subject" && hs[1].key == "cc" && hs[2].key == "bcc" && hs[3].key == "body";
  }

  /** A component whose children hold nothing the walk keeps sends no body. */
  lemma NoBodyWithoutContent(p: MailToProps)
    requires forall i :: 0 <= i < |p.children| ==> IsIgnored(p.children[i])
    ensures BodyText(p) == ""
    ensures var kvs := KeyValues(Headers(p));
            forall i :: 0 <= i < |kvs| ==> kvs[i].0 != "body"
  {
    AllIgnoredIsEmpty(p.children, 0);
    BodyPair(p.subject, NormalizeToList(p.cc), NormalizeToList(p.bcc), BodyText(p));
  }

  // ---------------------------------------------------------------------------
  // The documented examples

  /** Test "should handle missing MailToTrigger": a body alone renders nothing. */
  lemma ExampleMissingTrigger(to: string, body: seq<Node>)
    ensures Render(MailToProps(One(to), None, Missing, Missing, false, [Body(body)], None)) == Nothing
  {
  }

  /** The body "Body Content" of the example: a trigger and a body holding one text. */
  lemma ExampleBodyText(t: seq<Node>, b: string)
    requires NoOuterWhiteSpace(b)
    ensures Extract([Trigger(t), Body([Text(b)])], 0) == b
  {
    var cs := [Trigger(t), Body([Text(b)])];
    assert cs[1..] == [Body([Text(b)])] && cs[1..][1..] == [];
    assert [Text(b)][1..] == [];
    assert "" + b == b;
    assert WalkAll("", [Text(b)], 0) == WalkAll(b, [], 0);
    assert Walk("", Body([Text(b)]), 0) == b;
    assert WalkAll("", cs[1..], 0) == WalkAll(b, [], 0);
    assert WalkAll("", cs, 0) == WalkAll("", cs[1..], 0);
  }

  /** Test "should render MailToTrigger with correct href", for any
      recipient, subject and body text of the same shape. */
  lemma ExampleTriggerHref(to: string, subject: string, t: seq<Node>, b: string)
    requires subject != []
    requires b != [] && NoOuterWhiteSpace(b)
    ensures var p := MailToProps(One(to), Some(subject), Missing, Missing, false, [Trigger(t), Body([Text(b)])], None);
            Render(p) == Anchor(t, "mailto:" + to + "?subject=" + EncodeURIComponent(subject)
                                   + "&body=" + EncodeURIComponent(b), None)
  {
    var p := MailToProps(One(to), Some(subject), Missing, Missing, false, [Trigger(t), Body([Text(b)])], None);
    assert FindTrigger(p.children) == Some(t);
    ExampleHref(p, to, subject, t, b);
  }

  lemma ExampleHref(p: MailToProps, to: string, subject: string, t: seq<Node>, b: string)
    requires p == MailToProps(One(to), Some(subject), Missing, Missing, false, [Trigger(t), Body([Text(b)])], None)
    requires subject != []
    requires b != [] && NoOuterWhiteSpace(b)
    ensures MailtoHref(p) == "mailto:" + to + "?subject=" + EncodeURIComponent(subject)
                             + "&body=" + EncodeURIComponent(b)
  {
    var q := Pair("subject", subject) + "&" + Pair("body", b);
    assert BodyText(p) == b by {
      ExampleBodyText(t, b);
    }
    assert ToSearchString(Headers(p)) == q by {
      ExampleQuery(subject, b);
    }
    HrefOfOne(p, to, q);
    LinkText(to, EncodeURIComponent(subject), EncodeURIComponent(b));
  }

  lemma HrefOfOne(p: MailToProps, to: string, q: string)
    requires p.to == One(to)
    requires ToSearchString(Headers(p)) == q && q != ""
    ensures MailtoHref(p) == "mailto:" + to + "?" + q
  {
    assert MailtoHref(p) == CreateMailToLink([to], Some(Headers(p)));
    LinkOfOne(to, Headers(p), q);
  }

  lemma LinkOfOne(to: string, hs: seq<Header>, q: string)
    requires ToSearchString(hs) == q && q != ""
    ensures CreateMailToLink([to], Some(hs)) == "mailto:" + to + "?" + q
  {
    assert Join([to], ",") == to;
  }

  lemma LinkText(to: string, es: string, eb: string)
    ensures "mailto:" + to + "?" + (("subject" + "=" + es) + "&" + ("body" + "=" + eb))
            == "mailto:" + to + "?subject=" + es + "&body=" + eb
  {
    assert "?" + "subject" + "=" == "?subject=";
    assert "&" + "body" + "=" == "&body=";
  }

  /** A subject and a body, and no cc or bcc recipient: two pairs. */
  lemma ExampleQuery(subject: string, b: string)
    requires subject != [] && b != []
    ensures ToSearchString(MailToHeaders(Some(subject), [], [], b)) ==
            Pair("subject", subject) + "&" + Pair("body", b)
  {
    HeaderQuery(Some(subject), [], [], b);
    var kvs := IntendedPairs(Some(subject), [], [], b);
    assert kvs == [("subject", subject), ("body", b)];
    var pieces := [Pair("subject", subject), Pair("body", b)];
    assert EncodePairs(kvs) == pieces by {
      assert kvs[1..] == [("body", b)] && kvs[1..][1..] == [];
    }
    assert Join(pieces, "&") == pieces[0] + "&" + pieces[1] by {
      assert pieces[1..] == [pieces[1]];
    }
  }

  /** The same test with its own values. */
  lemma ExampleTriggerHrefLiteral()
    ensures Render(MailToProps(One("test@example.com"), Some("Test Subject"), Missing, Missing, false,
                               [Trigger([Text("Send Email")]), Body([Text("Body Content")])], None)).href
            == "mailto:test@example.com?subject=Test%20Subject&body=Body%20Content"
  {
    var link := "mailto:" + "test@example.com" + "?subject=" + EncodeURIComponent("Test Subject")
                + "&body=" + EncodeURIComponent("Body Content");
    assert Render(MailToProps(One("test@example.com"), Some("Test Subject"), Missing, Missing, false,
                              [Trigger([Text("Send Email")]), Body([Text("Body Content")])], None)).href == link by {
      ExampleBodyTrimmed();
      ExampleTriggerHref("test@example.com", "Test Subject", [Text("Send Email")], "Body Content");
    }
    ExampleSpaceInSubject();
    ExampleSpaceInBody();
    ExampleLinkText();
  }

  lemma ExampleBodyTrimmed()
    ensures NoOuterWhiteSpace("Body Content")
  {
  }

  lemma ExampleLinkText()
    ensures "mailto:" + "test@example.com" + "?subject=" + "Test%20Subject" + "&body=" + "Body%20Content"
            == "mailto:test@example.com?subject=Test%20Subject&body=Body%20Content"
  {
    assert "mailto:" + "test@example.com" == "mailto:test@example.com";
    assert "mailto:test@example.com" + "?subject=" == "mailto:test@example.com?subject=";
    assert "mailto:test@example.com?subject=" + "Test%20Subject" == "mailto:test@example.com?subject=Test%20Subject";
    assert "mailto:test@example.com?subject=Test%20Subject" + "&body=" == "mailto:test@example.com?subject=Test%20Subject&body=";
    assert "mailto:test@example.com?subject=Test%20Subject&body=" + "Body%20Content"
           == "mailto:test@example.com?subject=Test%20Subject&body=Body%20Content";
  }

  lemma EncodeFourPairs(k1: string, v1: string, k2: string, v2: string, k3: string, v3: string, k4: string, v4: string)
    ensures EncodePairs([(k1, v1), (k2, v2), (k3, v3), (k4, v4)]) ==
            [Pair(k1, v1), Pair(k2, v2), Pair(k3, v3), Pair(k4, v4)]
  {
    var kvs := [(k1, v1), (k2, v2), (k3, v3), (k4, v4)];
    assert kvs[1..] == [(k2, v2), (k3, v3), (k4, v4)];
    assert kvs[1..][1..] == [(k3, v3), (k4, v4)];
    assert kvs[1..][1..][1..] == [(k4, v4)];
    assert [(k4, v4)][1..] == [];
    assert EncodePairs([(k4, v4)]) == [Pair(k4, v4)] + EncodePairs([]);
    assert EncodePairs([(k4, v4)]) == [Pair(k4, v4)];
    assert EncodePairs(kvs[1..][1..]) == [Pair(k3, v3)] + [Pair(k4, v4)];
    assert EncodePairs(kvs[1..]) == [Pair(k2, v2)] + [Pair(k3, v3), Pair(k4, v4)];
    assert EncodePairs(kvs) == [Pair(k1, v1)] + [Pair(k2, v2), Pair(k3, v3), Pair(k4, v4)];
  }

  lemma JoinFour(a: string, b: string, c: string, d: string, sep: string)
    ensures Join([a, b, c, d], sep) == a + sep + b + sep + c + sep + d
  {
    var xs := [a, b, c, d];
    assert xs[1..] == [b, c, d] && xs[1..][1..] == [c, d] && xs[1..][1..][1..] == [d];
    assert Join([c, d], sep) == c + sep + d;
  }

  /** Test "should correctly convert searchParams to a query string": a
      subject, one cc and one bcc recipient and a body, in that order. */
  lemma ExampleFullQuery(subject: string, cc: string, bcc: string, body: string)
    requires subject != [] && body != []
    ensures ToSearchString(MailToHeaders(Some(subject), [cc], [bcc], body)) ==
            "subject=" + EncodeURIComponent(subject) + "&cc=" + EncodeURIComponent(cc)
            + "&bcc=" + EncodeURIComponent(bcc) + "&body=" + EncodeURIComponent(body)
  {
    var kvs := [("subject", subject), ("cc", cc), ("bcc", bcc), ("body", body)];
    assert ToSearchString(MailToHeaders(Some(subject), [cc], [bcc], body)) == Join(EncodePairs(kvs), "&") by {
      HeaderQuery(Some(subject), [cc], [bcc], body);
      IntendedFour(subject, cc, bcc, body);
    }
    var ps := [Pair("subject", subject), Pair("cc", cc), Pair("bcc", bcc), Pair("body", body)];
    assert EncodePairs(kvs) == ps by {
      EncodeFourPairs("subject", subject, "cc", cc, "bcc", bcc, "body", body);
    }
    assert Join(ps, "&") == ps[0] + "&" + ps[1] + "&" + ps[2] + "&" + ps[3] by {
      JoinFour(ps[0], ps[1], ps[2], ps[3], "&");
    }
    QueryText(EncodeURIComponent(subject), EncodeURIComponent(cc), EncodeURIComponent(bcc), EncodeURIComponent(body));
  }

  lemma IntendedFour(subject: string, cc: string, bcc: string, body: string)
    requires subject != [] && body != []
    ensures IntendedPairs(Some(subject), [cc], [bcc], body) ==
            [("subject", subject), ("cc", cc), ("bcc", bcc), ("body", body)]
  {
    assert ArrayKeyValues("cc", [cc]) == [("cc", cc)];
    assert ArrayKeyValues("bcc", [bcc]) == [("bcc", bcc)];
  }

  lemma QueryText(es: string, ec: string, eb: string, ey: string)
    ensures ("subject" + "=" + es) + "&" + ("cc" + "=" + ec) + "&" + ("bcc" + "=" + eb) + "&" + ("body" + "=" + ey)
            == "subject=" + es + "&cc=" + ec + "&bcc=" + eb + "&body=" + ey
  {
    assert "subject" + "=" == "subject=";
    assert "&" + ("cc" + "=" + ec) == "&cc=" + ec;
    assert "&" + ("bcc" + "=" + eb) == "&bcc=" + eb;
    assert "&" + ("body" + "=" + ey) == "&body=" + ey;
  }

  /** Test "should handle empty searchParams", and a link without headers. */
  lemma ExampleNoHeaders(email: seq<string>)
    ensures ToSearchString([]) == ""
    ensures CreateMailToLink(email, Some([])) == "mailto:" + Join(email, ",")
  {
  }

  /** Test "should correctly create a mailto link with headers": a subject
      and a body header after one recipient. */
  lemma ExampleLinkWithHeaders(to: string, subject: string, body: string)
    requires subject != [] && body != []
    ensures CreateMailToLink([to], Some([Header("subject", Scalar(subject)), Header("body", Scalar(body))])) ==
            "mailto:" + to + "?subject=" + EncodeURIComponent(subject) + "&body=" + EncodeURIComponent(body)
  {
    var hs := [Header("subject", Scalar(subject)), Header("body", Scalar(body))];
    var q := Pair("subject", subject) + "&" + Pair("body", body);
    assert ToSearchString(hs) == q by {
      TwoScalarPieces("subject", subject, "body", body);
    }
    assert CreateMailToLink([to], Some(hs)) == "mailto:" + to + "?" + q by {
      assert q != "";
      assert Join([to], ",") == to;
    }
    LinkText(to, EncodeURIComponent(subject), EncodeURIComponent(body));
  }

  lemma TwoScalarPieces(k1: string, v1: string, k2: string, v2: string)
    requires v1 != [] && v2 != []
    ensures ToSearchString([Header(k1, Scalar(v1)), Header(k2, Scalar(v2))]) == Pair(k1, v1) + "&" + Pair(k2, v2)
  {
    var h1, h2 := Header(k1, Scalar(v1)), Header(k2, Scalar(v2));
    var p1, p2 := Pair(k1, v1), Pair(k2, v2);
    assert FlatPieces([h1, h2]) == [p1, p2] by {
      FlatTwo(h1, h2);
      assert EntryPieces(h1) == [p1] && EntryPieces(h2) == [p2];
    }
    KeepTwo(p1, p2);
  }

  lemma FlatTwo(h1: Header, h2: Header)
    ensures FlatPieces([h1, h2]) == EntryPieces(h1) + EntryPieces(h2)
  {
    var hs := [h1, h2];
    assert hs[1..] == [h2] && [h2][1..] == [];
    assert FlatPieces([h2]) == EntryPieces(h2) + FlatPieces([]);
    assert EntryPieces(h2) + [] == EntryPieces(h2);
  }

  /** Two non-empty pieces survive the filter and are joined by `&`. */
  lemma KeepTwo(x: string, y: string)
    requires x != "" && y != ""
    ensures Join(NonEmpty([x, y]), "&") == x + "&" + y
  {
    var xs := [x, y];
    assert xs[1..] == [y] && [y][1..] == [];
    assert NonEmpty([y]) == [y];
    assert NonEmpty(xs) == [x] + [y];
    assert [x] + [y] == xs;
  }

  /** The same test with its own values. */
  lemma ExampleLinkWithHeadersLiteral()
    ensures CreateMailToLink(["test@example.com"], Some([Header("subject", Scalar("Hello")), Header("body", Scalar("World"))]))
            == "mailto:test@example.com?subject=Hello&body=World"
  {
    ExampleLinkWithHeaders("test@example.com", "Hello", "World");
    UnreservedHello();
    UnreservedWorld();
    HelloWorldLinkText();
  }

  lemma UnreservedHello()
    ensures EncodeURIComponent("Hello") == "Hello"
  {
    EncodeUnreserved("Hello");
  }

  lemma UnreservedWorld()
    ensures EncodeURIComponent("World") == "World"
  {
    EncodeUnreserved("World");
  }

  lemma HelloWorldLinkText()
    ensures "mailto:" + "test@example.com" + "?subject=" + "Hello" + "&body=" + "World"
            == "mailto:test@example.com?subject=Hello&body=World"
  {
    assert "mailto:" + "test@example.com" == "mailto:test@example.com";
    assert "mailto:test@example.com" + "?subject=" == "mailto:test@example.com?subject=";
    assert "mailto:test@example.com?subject=" + "Hello" == "mailto:test@example.com?subject=Hello";
    assert "mailto:test@example.com?subject=Hello" + "&body=" == "mailto:test@example.com?subject=Hello&body=";
    assert "mailto:test@example.com?subject=Hello&body=" + "World" == "mailto:test@example.com?subject=Hello&body=World";
  }

  /** Test "should handle only cc or bcc arrays": an empty bcc list adds nothing. */
  lemma ExampleOnlyCc(cc: string)
    ensures ToSearchString([Header("cc", Multi([cc])), Header("bcc", Multi([]))]) == "cc=" + EncodeURIComponent(cc)
  {
    var hs := [Header("cc", Multi([cc])), Header("bcc", Multi([]))];
    assert KeyValues(hs) == [("cc", cc)] by {
      assert hs[1..] == [hs[1]] && hs[1..][1..] == [];
      assert EntryKeyValues(hs[0]) == [("cc", cc)];
      assert EntryKeyValues(hs[1]) == [];
      assert KeyValues(hs[1..]) == [] + KeyValues([]);
    }
    assert EncodePairs([("cc", cc)]) == [Pair("cc", cc)] by {
      assert [("cc", cc)][1..] == [];
    }
    assert ToSearchString(hs) == Join([Pair("cc", cc)], "&") by {
      SurvivingPieces(hs);
    }
  }
}
