/**
 * How a message's MIME parts are reduced to a body text (main.py, parse_email
 * and the body-building half of callback_fetch_email).
 *
 * A message is already parsed and walked: MIME parsing, base64url decoding and
 * `bytes.decode()` are not modelled, so every payload is text. The HTML-to-text
 * extraction (BeautifulSoup plus html.unescape) is the uninterpreted `extract`.
 */
module Mime {
  import opened Wrappers
  import opened Text

  /** extract_text: any total map from payload text to body text. */
  type Extractor = string -> string

  /** One entry of `msg.walk()`: its content type and its decoded payload. */
  datatype Part = Part(contentType: string, payload: string)

  /** One `name: value` header line of the message, in message order. */
  datatype Header = Header(name: string, value: string)

  /**
   * `msg.is_multipart()` decides the variant: a single-part message has one
   * payload, a multipart one the sequence of parts `msg.walk()` yields (the
   * message itself first, then its sub-parts depth first).
   */
  datatype Body = SinglePart(payload: string) | Multipart(parts: seq<Part>)

  datatype Message = Message(headers: seq<Header>, body: Body)

  /** `'html' in part.get_content_type()`. */
  predicate IsHtml(p: Part) {
    Contains(p.contentType, "html")
  }

  /** `i` is the first part of the walk whose content type mentions html. */
  ghost predicate IsFirstHtml(parts: seq<Part>, i: int) {
    0 <= i < |parts| && IsHtml(parts[i]) && forall j :: 0 <= j < i ==> !IsHtml(parts[j])
  }

  ghost predicate NoHtml(parts: seq<Part>) {
    forall i :: 0 <= i < |parts| ==> !IsHtml(parts[i])
  }

  /** The loop of parse_email with its early return: the first html part wins. */
  function FirstHtml(parts: seq<Part>, extract: Extractor): (r: Option<string>)
    ensures r.None? <==> NoHtml(parts)
    ensures forall i :: IsFirstHtml(parts, i) ==> r == Some(extract(parts[i].payload))
  {
    if parts == [] then None
    else if IsHtml(parts[0]) then Some(extract(parts[0].payload))
    else
      assert forall i :: IsFirstHtml(parts, i) ==> IsFirstHtml(parts[1..], i - 1);
      FirstHtml(parts[1..], extract)
  }

  /**
   * parse_email: a single-part message yields the extracted payload whatever
   * its content type; a multipart one yields the first html part's text, and
   * `None` when no part mentions html.
   */
  function ParseEmail(m: Message, extract: Extractor): (r: Option<string>)
    ensures m.body.SinglePart? ==> r == Some(extract(m.body.payload))
    ensures m.body.Multipart? ==> (r.None? <==> NoHtml(m.body.parts))
    ensures m.body.Multipart? ==>
      forall i :: IsFirstHtml(m.body.parts, i) ==> r == Some(extract(m.body.parts[i].payload))
  {
    match m.body
    case SinglePart(payload) => Some(extract(payload))
    case Multipart(parts) => FirstHtml(parts, extract)
  }

  /** What one part adds to the callback's body: its text if it is html, else nothing. */
  function HtmlText(p: Part, extract: Extractor): string {
    if IsHtml(p) then extract(p.payload) else ""
  }

  /** The text of every html part of the walk, in order, with no separator, from `''`. */
  function HtmlConcat(parts: seq<Part>, extract: Extractor): string
    decreases |parts|
  {
    if parts == [] then ""
    else HtmlConcat(parts[..|parts| - 1], extract) + HtmlText(parts[|parts| - 1], extract)
  }

  /** The value callback_fetch_email gives `email['body']`. */
  function CallbackBody(m: Message, extract: Extractor): string {
    match m.body
    case SinglePart(payload) => "" + extract(payload)
    case Multipart(parts) => HtmlConcat(parts, extract)
  }

  /** The body-building loop of callback_fetch_email: `email['body'] += ...` per html part. */
  method BuildBody(m: Message, extract: Extractor) returns (body: string)
    ensures body == CallbackBody(m, extract)
  {
    body := "";
    match m.body {
      case SinglePart(payload) =>
        body := body + extract(payload);
      case Multipart(parts) =>
        var i := 0;
        while i < |parts|
          invariant 0 <= i <= |parts|
          invariant body == HtmlConcat(parts[..i], extract)
        {
          var part := parts[i];
          if IsHtml(part) {
            body := body + extract(part.payload);
          }
          assert parts[..i + 1][..i] == parts[..i];
          i := i + 1;
        }
        assert parts[..i] == parts;
    }
  }

  /** The callback's body splits along any split of the walk. */
  lemma {:induction false} HtmlConcatAppend(a: seq<Part>, b: seq<Part>, extract: Extractor)
    ensures HtmlConcat(a + b, extract) == HtmlConcat(a, extract) + HtmlConcat(b, extract)
    decreases |b|
  {
    if b == [] {
      assert a + b == a;
    } else {
      var b' := b[..|b| - 1];
      assert (a + b)[..|a + b| - 1] == a + b';
      assert (a + b)[|a + b| - 1] == b[|b| - 1];
      HtmlConcatAppend(a, b', extract);
    }
  }

  /** With no html part the callback's body stays `''`. */
  lemma {:induction false} HtmlConcatNoHtml(parts: seq<Part>, extract: Extractor)
    requires NoHtml(parts)
    ensures HtmlConcat(parts, extract) == ""
    decreases |parts|
  {
    if parts != [] {
      assert !IsHtml(parts[|parts| - 1]);
      HtmlConcatNoHtml(parts[..|parts| - 1], extract);
    }
  }

  /** A multipart message with no html part: parse_email gives `None` but the callback `''`. */
  lemma NoHtmlPartDiffers(m: Message, extract: Extractor)
    requires m.body.Multipart? && NoHtml(m.body.parts)
    ensures ParseEmail(m, extract) == None
    ensures CallbackBody(m, extract) == ""
  {
    HtmlConcatNoHtml(m.body.parts, extract);
  }

  /** A single-part message: both paths give the extracted payload, whatever its content type. */
  lemma SinglePartAgrees(m: Message, extract: Extractor)
    requires m.body.SinglePart?
    ensures ParseEmail(m, extract) == Some(extract(m.body.payload))
    ensures CallbackBody(m, extract) == extract(m.body.payload)
  {
  }

  /**
   * On a multipart message parse_email's text is where the callback's body
   * starts: the callback appends the later html parts' texts after it.
   */
  lemma FirstHtmlStartsBody(m: Message, extract: Extractor, i: int)
    requires m.body.Multipart? && IsFirstHtml(m.body.parts, i)
    ensures ParseEmail(m, extract) == Some(extract(m.body.parts[i].payload))
    ensures CallbackBody(m, extract)
         == extract(m.body.parts[i].payload) + HtmlConcat(m.body.parts[i + 1..], extract)
  {
    var parts := m.body.parts;
    var front, rest := parts[..i + 1], parts[i + 1..];
    assert parts == front + rest;
    HtmlConcatAppend(front, rest, extract);
    assert front[..i] == parts[..i];
    HtmlConcatNoHtml(parts[..i], extract);
    assert HtmlConcat(front, extract) == HtmlConcat(parts[..i], extract) + HtmlText(parts[i], extract);
    assert HtmlConcat(front, extract) == extract(parts[i].payload);
  }

  /** When exactly one part mentions html, parse_email and the callback agree. */
  lemma OneHtmlPartAgrees(m: Message, extract: Extractor, i: int)
    requires m.body.Multipart? && 0 <= i < |m.body.parts| && IsHtml(m.body.parts[i])
    requires forall j :: 0 <= j < |m.body.parts| && j != i ==> !IsHtml(m.body.parts[j])
    ensures ParseEmail(m, extract) == Some(CallbackBody(m, extract))
  {
    var parts := m.body.parts;
    var rest := parts[i + 1..];
    assert IsFirstHtml(parts, i);
    FirstHtmlStartsBody(m, extract, i);
    assert NoHtml(rest) by {
      forall k | 0 <= k < |rest| ensures !IsHtml(rest[k]) {
        assert rest[k] == parts[i + 1 + k];
      }
    }
    HtmlConcatNoHtml(rest, extract);
    var t := extract(parts[i].payload);
    assert t + "" == t;
    assert CallbackBody(m, extract) == t;
  }

  /**
   * Later parts are never looked at: two multipart messages whose walks agree
   * up to and including the first html part parse to the same text.
   */
  lemma LaterPartsIgnored(m: Message, m': Message, extract: Extractor, i: int)
    requires m.body.Multipart? && m'.body.Multipart?
    requires IsFirstHtml(m.body.parts, i)
    requires i < |m'.body.parts| && m'.body.parts[..i + 1] == m.body.parts[..i + 1]
    ensures ParseEmail(m', extract) == ParseEmail(m, extract)
  {
    var p, p' := m.body.parts, m'.body.parts;
    assert forall j :: 0 <= j <= i ==> p'[j] == p'[..i + 1][j] == p[..i + 1][j] == p[j];
    assert IsFirstHtml(p', i);
  }

  /** Two html parts A then B: parse_email yields A's text, the callback A's text then B's. */
  lemma TwoHtmlParts(root: Part, a: Part, b: Part, headers: seq<Header>, extract: Extractor)
    requires !IsHtml(root) && IsHtml(a) && IsHtml(b)
    ensures ParseEmail(Message(headers, Multipart([root, a, b])), extract) == Some(extract(a.payload))
    ensures CallbackBody(Message(headers, Multipart([root, a, b])), extract)
         == extract(a.payload) + extract(b.payload)
  {
    var m := Message(headers, Multipart([root, a, b]));
    FirstHtmlStartsBody(m, extract, 1);
    assert [root, a, b][2..] == [b];
    assert [b][..0] == [];
  }

  /** `i` is the first header whose name matches `name`. */
  ghost predicate IsFirstNamed(headers: seq<Header>, name: string, i: int) {
    0 <= i < |headers| && SameName(headers[i].name, name)
    && forall j :: 0 <= j < i ==> !SameName(headers[j].name, name)
  }

  /**
   * `msg[name]`: the value of the first header whose name matches without
   * regard to case; an absent header gives `None`, not an error.
   */
  function GetHeader(headers: seq<Header>, name: string): (r: Option<string>)
    ensures r.None? <==> forall i :: 0 <= i < |headers| ==> !SameName(headers[i].name, name)
    ensures forall i :: IsFirstNamed(headers, name, i) ==> r == Some(headers[i].value)
  {
    if headers == [] then None
    else if SameName(headers[0].name, name) then Some(headers[0].value)
    else
      assert forall i :: IsFirstNamed(headers, name, i) ==> IsFirstNamed(headers[1..], name, i - 1);
      GetHeader(headers[1..], name)
  }
}
