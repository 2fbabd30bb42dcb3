/**
 `toSearchString` and `createMailToLink`: the header entries become
 `key=value` pairs with percent-encoded values, joined by `&`, after
 `mailto:` and the comma-joined recipients (the URI shape of section 2 of
 RFC 6068).
 */
module MailtoLink {
  import opened Wrappers
  import opened JsString
  import opened Seqs
  import opened UriComponent

  /** The value of one header entry, as `toSearchString` tells them apart. */
  datatype HeaderValue =
    | Absent                       // `undefined`
    | Scalar(text: string)         // a string header: subject, body
    | Multi(items: seq<string>)    // an array header: cc, bcc

  /** One `[key, value]` entry of `Object.entries(searchParams)`; a header set
      is the sequence of its entries in insertion order. */
  datatype Header = Header(key: string, value: HeaderValue)

  /** `key=encodeURIComponent(value)`; the key is not encoded. */
  function Pair(key: string, value: string): string {
    key + "=" + EncodeURIComponent(value)
  }

  function ArrayPairs(key: string, items: seq<string>): (r: seq<string>)
    ensures |r| == |items|
    ensures forall i :: 0 <= i < |items| ==> r[i] == Pair(key, items[i])
  {
    if items == [] then [] else [Pair(key, items[0])] + ArrayPairs(key, items[1..])
  }

  /** What the flatMap callback returns for one entry: one pair per array
      element, or one pair or `""` for anything else. */
  function EntryPieces(h: Header): (r: seq<string>)
    ensures forall i :: 0 <= i < |r| ==> (r[i] == "" <==> EntryKeyValues(h) == [])
    ensures forall i :: 0 <= i < |r| && r[i] != "" ==> h.key + "=" <= r[i]
  {
    match h.value
    case Multi(items) => ArrayPairs(h.key, items)
    case Scalar(v) => [if v != "" then Pair(h.key, v) else ""]
    case Absent => [""]
  }

  function FlatPieces(hs: seq<Header>): seq<string> {
    if hs == [] then [] else EntryPieces(hs[0]) + FlatPieces(hs[1..])
  }

  /** `.filter(Boolean)` on strings: drops the empty ones. */
  function NonEmpty(xs: seq<string>): (r: seq<string>)
    ensures |r| <= |xs|
    ensures forall i :: 0 <= i < |r| ==> r[i] != "" && r[i] in xs
    ensures forall i :: 0 <= i < |xs| && xs[i] != "" ==> xs[i] in r
  {
    if xs == [] then [] else (if xs[0] != "" then [xs[0]] else []) + NonEmpty(xs[1..])
  }

  /** `toSearchString(searchParams)`. */
  function ToSearchString(hs: seq<Header>): (r: string)
    ensures r == "" <==> KeyValues(hs) == []
  {
    SurvivingPieces(hs);
    JoinedPairsEmpty(KeyValues(hs));
    Join(NonEmpty(FlatPieces(hs)), "&")
  }

  /** `createMailToLink(email, headers)`; `None` stands for a falsy `headers`. */
  function CreateMailToLink(email: seq<string>, headers: Option<seq<Header>>): (r: string)
    ensures "mailto:" + Join(email, ",") <= r
    ensures r == "mailto:" + Join(email, ",") <==> headers.None? || KeyValues(headers.value) == []
  {
    var link := "mailto:" + Join(email, ",");
    match headers
    case Some(hs) =>
      var params := ToSearchString(hs);
      if |params| > 0 then link + "?" + params else link
    case None => link
  }

  // ---------------------------------------------------------------------------
  // What the query is meant to carry, and how to read it back

  /** The decoded pairs a header set stands for: a non-empty string gives one
      pair, an array one pair per element (an empty element included), and
      `undefined`, `""` and `[]` give none. */
  function KeyValues(hs: seq<Header>): seq<(string, string)> {
    if hs == [] then [] else EntryKeyValues(hs[0]) + KeyValues(hs[1..])
  }

  function EntryKeyValues(h: Header): seq<(string, string)> {
    match h.value
    case Absent => []
    case Scalar(v) => if v == "" then [] else [(h.key, v)]
    case Multi(items) => ArrayKeyValues(h.key, items)
  }

  function ArrayKeyValues(key: string, items: seq<string>): (r: seq<(string, string)>)
    ensures |r| == |items|
    ensures forall i :: 0 <= i < |items| ==> r[i] == (key, items[i])
  {
    if items == [] then [] else [(key, items[0])] + ArrayKeyValues(key, items[1..])
  }

  function EncodePairs(kvs: seq<(string, string)>): (r: seq<string>)
    ensures |r| == |kvs|
    ensures forall i :: 0 <= i < |kvs| ==> r[i] == Pair(kvs[i].0, kvs[i].1)
  {
    if kvs == [] then [] else [Pair(kvs[0].0, kvs[0].1)] + EncodePairs(kvs[1..])
  }

  /** Keys an `&`-splitting, `=`-splitting reader can recover. */
  predicate PlainKeys(hs: seq<Header>) {
    forall i :: 0 <= i < |hs| ==> '&' !in hs[i].key && '=' !in hs[i].key
  }

  /** Splits `key=value` at its first `=` and decodes the value. */
  function ParsePair(p: string): Option<(string, string)> {
    if '=' !in p then None
    else
      var k := IndexOf(p, '=');
      match DecodeURIComponent(p[k + 1..])
      case Some(v) => Some((p[..k], v))
      case None => None
  }

  function ParsePairs(ps: seq<string>): Option<seq<(string, string)>> {
    if ps == [] then Some([])
    else
      match (ParsePair(ps[0]), ParsePairs(ps[1..]))
      case (Some(kv), Some(rest)) => Some([kv] + rest)
      case _ => None
  }

  /** Reads a query string back into its decoded pairs. */
  function ParseQuery(q: string): Option<seq<(string, string)>> {
    if q == "" then Some([]) else ParsePairs(Split(q, '&'))
  }

  /** Reads a link back into its recipients and its decoded pairs. */
  function ParseMailto(link: string): Option<(seq<string>, seq<(string, string)>)> {
    if |link| < 7 || link[..7] != "mailto:" then None
    else
      var rest := link[7..];
      var path := if '?' in rest then rest[..IndexOf(rest, '?')] else rest;
      var query := if '?' in rest then rest[IndexOf(rest, '?') + 1..] else "";
      match ParseQuery(query)
      case Some(kvs) => Some((Split(path, ','), kvs))
      case None => None
  }

  // ---------------------------------------------------------------------------
  // Properties of toSearchString

  /** The pairs that survive the filter are exactly the encoded intended pairs,
      in entry order and, within an array, in array order. */
  lemma {:induction false} SurvivingPieces(hs: seq<Header>)
    ensures NonEmpty(FlatPieces(hs)) == EncodePairs(KeyValues(hs))
  {
    if hs != [] {
      SurvivingPieces(hs[1..]);
      var h := hs[0];
      assert FlatPieces(hs) == EntryPieces(h) + FlatPieces(hs[1..]);
      NonEmptyAppend(EntryPieces(h), FlatPieces(hs[1..]));
      EncodePairsAppend(EntryKeyValues(h), KeyValues(hs[1..]));
      EntrySurvives(h);
    }
  }

  lemma EntrySurvives(h: Header)
    ensures NonEmpty(EntryPieces(h)) == EncodePairs(EntryKeyValues(h))
  {
    match h.value
    case Absent =>
    case Scalar(v) =>
      var p := Pair(h.key, v);
      assert |p| > 0;
      assert [p][1..] == [];
      assert [(h.key, v)][1..] == [];
    case Multi(items) =>
      ArrayPiecesSurvive(h.key, items);
      assert EntryPieces(h) == ArrayPairs(h.key, items);
  }

  lemma {:induction false} NonEmptyAppend(xs: seq<string>, ys: seq<string>)
    ensures NonEmpty(xs + ys) == NonEmpty(xs) + NonEmpty(ys)
  {
    if xs != [] {
      NonEmptyAppend(xs[1..], ys);
      assert (xs + ys)[0] == xs[0];
      assert (xs + ys)[1..] == xs[1..] + ys;
    } else {
      assert xs + ys == ys;
    }
  }

  lemma {:induction false} EncodePairsAppend(a: seq<(string, string)>, b: seq<(string, string)>)
    ensures EncodePairs(a + b) == EncodePairs(a) + EncodePairs(b)
  {
    var l := EncodePairs(a + b);
    var r := EncodePairs(a) + EncodePairs(b);
    forall i | 0 <= i < |l|
      ensures l[i] == r[i]
    {
      if i < |a| {
        assert (a + b)[i] == a[i];
      } else {
        assert (a + b)[i] == b[i - |a|];
      }
    }
  }

  /** Every pair of an array entry is non-empty, so the filter keeps them all. */
  lemma {:induction false} ArrayPiecesSurvive(key: string, items: seq<string>)
    ensures NonEmpty(ArrayPairs(key, items)) == EncodePairs(ArrayKeyValues(key, items))
  {
    if items != [] {
      ArrayPiecesSurvive(key, items[1..]);
      var kvs := ArrayKeyValues(key, items);
      assert kvs[1..] == ArrayKeyValues(key, items[1..]);
      assert Pair(key, items[0]) != "";
    }
  }

  /** The pieces joined by `&` hold no `&` and no empty piece. */
  lemma {:induction false} EncodedPairsPlain(kvs: seq<(string, string)>)
    requires forall i :: 0 <= i < |kvs| ==> '&' !in kvs[i].0 && '=' !in kvs[i].0
    ensures forall i :: 0 <= i < |EncodePairs(kvs)| ==> EncodePairs(kvs)[i] != "" && '&' !in EncodePairs(kvs)[i]
  {
    if kvs != [] {
      EncodedPairsPlain(kvs[1..]);
      var p := Pair(kvs[0].0, kvs[0].1);
      var e := EncodeURIComponent(kvs[0].1);
      EncodedAlphabet(kvs[0].1);
      assert p == kvs[0].0 + "=" + e;
      assert !IsUnreserved('&');
      assert forall i :: 0 <= i < |e| ==> e[i] != '&';
      assert '&' !in e;
    }
  }

  lemma {:induction false} KeyValuesKeys(hs: seq<Header>)
    requires PlainKeys(hs)
    ensures forall i :: 0 <= i < |KeyValues(hs)| ==> '&' !in KeyValues(hs)[i].0 && '=' !in KeyValues(hs)[i].0
  {
    if hs != [] {
      assert PlainKeys(hs[1..]) by {
        assert forall i :: 0 <= i < |hs[1..]| ==> hs[1..][i] == hs[i + 1];
      }
      KeyValuesKeys(hs[1..]);
    }
  }

  /** A `key=value` pair whose key holds no `=` reads back as its key and value. */
  lemma ParsePairOfPair(key: string, value: string)
    requires '=' !in key
    ensures ParsePair(Pair(key, value)) == Some((key, value))
  {
    var p := Pair(key, value);
    var e := EncodeURIComponent(value);
    assert p == key + ['='] + e;
    IndexOfAfter(key, '=', e);
    assert p[|key|] == '=';
    assert p[..|key|] == key;
    assert p[|key| + 1..] == e;
    DecodeEncode(value);
  }

  lemma {:induction false} ParseEncodedPairs(kvs: seq<(string, string)>)
    requires forall i :: 0 <= i < |kvs| ==> '=' !in kvs[i].0
    ensures ParsePairs(EncodePairs(kvs)) == Some(kvs)
  {
    if kvs != [] {
      var ps := EncodePairs(kvs);
      ParseEncodedPairs(kvs[1..]);
      ParsePairOfPair(kvs[0].0, kvs[0].1);
      assert ps[0] == Pair(kvs[0].0, kvs[0].1);
      assert ps[1..] == EncodePairs(kvs[1..]);
      assert ParsePairs(ps) == Some([kvs[0]] + kvs[1..]);
      assert [kvs[0]] + kvs[1..] == kvs;
    } else {
      assert EncodePairs(kvs) == [];
    }
  }

  /** Reading the query back gives exactly the intended pairs: one per array
      element in array order, none for `undefined`, `""` or `[]`, keys as they
      were and values decoded. */
  lemma QueryRoundTrip(hs: seq<Header>)
    requires PlainKeys(hs)
    ensures ParseQuery(ToSearchString(hs)) == Some(KeyValues(hs))
  {
    var kvs := KeyValues(hs);
    var pieces := EncodePairs(kvs);
    SurvivingPieces(hs);
    KeyValuesKeys(hs);
    EncodedPairsPlain(kvs);
    ParseEncodedPairs(kvs);
    if kvs != [] {
      SplitJoin(pieces, '&');
      assert ToSearchString(hs) != "" by {
        JoinNonEmpty(pieces, "&");
      }
    }
  }

  /** An empty string inside an array is still sent, as `key=`. */
  lemma EmptyElementKept(key: string)
    ensures ToSearchString([Header(key, Multi([""]))]) == key + "="
  {
    var hs := [Header(key, Multi([""]))];
    var e: string := "";
    var p := key + "=";
    assert Pair(key, e) == p by {
      assert EncodeURIComponent(e) == "";
    }
    assert EntryPieces(hs[0]) == [p] by {
      assert [e][1..] == [];
      assert ArrayPairs(key, [e]) == [Pair(key, e)] + ArrayPairs(key, []);
    }
    assert FlatPieces(hs) == [p] by {
      assert hs[1..] == [];
      assert FlatPieces(hs) == EntryPieces(hs[0]) + FlatPieces([]);
    }
    assert NonEmpty([p]) == [p] by {
      assert p != "";
      assert [p][1..] == [];
      assert NonEmpty([p]) == [p] + NonEmpty([]);
    }
  }

  /** An empty or missing scalar is not sent at all. */
  lemma FalsyScalarsDropped(k1: string, k2: string)
    ensures ToSearchString([Header(k1, Scalar("")), Header(k2, Absent)]) == ""
  {
    var hs := [Header(k1, Scalar("")), Header(k2, Absent)];
    var e: string := "";
    assert FlatPieces(hs) == [e, e] by {
      assert hs[1..] == [hs[1]] && hs[1..][1..] == [];
      assert FlatPieces(hs[1..]) == EntryPieces(hs[1]) + FlatPieces([]);
      assert FlatPieces(hs) == EntryPieces(hs[0]) + FlatPieces(hs[1..]);
      assert [e] + [e] == [e, e];
    }
    assert NonEmpty([e, e]) == [] by {
      assert [e, e][1..] == [e] && [e][1..] == [];
      assert NonEmpty([e]) == [] + NonEmpty([]);
    }
  }

  /** A join of non-empty pieces is empty only when there are no pieces. */
  /** Every encoded pair holds `=`, so their join is empty only when there are none. */
  lemma JoinedPairsEmpty(kvs: seq<(string, string)>)
    ensures Join(EncodePairs(kvs), "&") == "" <==> kvs == []
  {
    if kvs != [] {
      assert |Pair(kvs[0].0, kvs[0].1)| > 0;
      JoinNonEmpty(EncodePairs(kvs), "&");
    }
  }

  lemma JoinNonEmpty(xs: seq<string>, sep: string)
    requires xs != [] && xs[0] != ""
    ensures Join(xs, sep) != ""
  {
  }

  /** The query is empty exactly when nothing is meant to be carried, and
      otherwise no `&` leads, trails or doubles. */
  lemma QueryShape(hs: seq<Header>)
    requires PlainKeys(hs)
    ensures ToSearchString(hs) == "" <==> KeyValues(hs) == []
    ensures var q := ToSearchString(hs);
            q != "" ==> q[0] != '&' && q[|q| - 1] != '&'
    ensures var q := ToSearchString(hs);
            forall i :: 0 <= i < |q| - 1 ==> !(q[i] == '&' && q[i + 1] == '&')
  {
    var kvs := KeyValues(hs);
    var pieces := EncodePairs(kvs);
    SurvivingPieces(hs);
    KeyValuesKeys(hs);
    EncodedPairsPlain(kvs);
    JoinSeparated(pieces, '&');
  }

  // ---------------------------------------------------------------------------
  // Properties of createMailToLink

  /** The link is `mailto:`, the recipients joined by `,` unencoded, and the
      query after a `?` exactly when the query is non-empty. */
  lemma LinkShape(email: seq<string>, hs: seq<Header>)
    ensures var link := CreateMailToLink(email, Some(hs));
            var q := ToSearchString(hs);
            link == "mailto:" + Join(email, ",") + (if q == "" then "" else "?" + q)
    ensures CreateMailToLink(email, None) == "mailto:" + Join(email, ",")
  {
  }

  /** Reading a link back gives its recipients and its intended pairs, when the
      recipients are a non-empty list holding no `,` and no `?`. */
  lemma LinkRoundTrip(email: seq<string>, hs: seq<Header>)
    requires email != []
    requires forall i :: 0 <= i < |email| ==> ',' !in email[i] && '?' !in email[i]
    requires PlainKeys(hs)
    ensures ParseMailto(CreateMailToLink(email, Some(hs))) == Some((email, KeyValues(hs)))
  {
    var path := Join(email, ",");
    var q := ToSearchString(hs);
    SplitJoin(email, ',');
    JoinAvoids(email, ',', '?');
    QueryRoundTrip(hs);
    LinkShape(email, hs);
    ParseLinkParts(path, q);
  }

  /** A link splits at its first `?` into the recipient path and the query. */
  lemma ParseLinkParts(path: string, q: string)
    requires '?' !in path
    ensures ParseMailto("mailto:" + path + (if q == "" then "" else "?" + q)) ==
            match ParseQuery(q)
            case Some(kvs) => Some((Split(path, ','), kvs))
            case None => None
  {
    var link := "mailto:" + path + (if q == "" then "" else "?" + q);
    assert link[..7] == "mailto:";
    var rest := link[7..];
    if q == "" {
      assert rest == path;
    } else {
      assert rest == path + ['?'] + q;
      IndexOfAfter(path, '?', q);
      assert rest[..|path|] == path;
      assert rest[|path| + 1..] == q;
    }
  }
}
