/** The `mailto:` link the course cards open (RFC 6068): the recipient, then
    the `subject` and `body` header fields as percent-encoded query values,
    and a reader for such links that recovers the message from them. */
module Mailto {
  import opened Wrappers
  import opened JsText
  import opened UriComponent

  /** The message a mail client is asked to compose. */
  datatype Message = Message(recipient: string, subject: string, body: string)

  /** `mailto:${email}?subject=${encodeURIComponent(subject)}&body=${encodedBody}`
      where the encoded body has every `%0A` rewritten as `%0D%0A`. After the
      address and its `?`, the link holds no further `?` and no `#`, so no
      subject or body can end the query or start a fragment. */
  function MailtoLink(email: string, subject: string, body: string): (r: string)
    ensures |r| > 8 + |email| && r[..8 + |email|] == "mailto:" + email + "?"
    ensures '?' !in r[8 + |email|..] && '#' !in r[8 + |email|..]
  {
    var es, eb := Encode(subject), CrlfEscapes(Encode(body));
    NoDelimiters(es);
    CrlfEscapesSafe(Encode(body));
    NoDelimiters(eb);
    LinkShape(email, es, eb);
    "mailto:" + email + "?" + HeaderFields(es, eb)
  }

  /** The address part and the query part of a link built from two fields
      that hold no `?` or `#`. */
  lemma LinkShape(email: string, es: string, eb: string)
    requires '?' !in es && '#' !in es && '?' !in eb && '#' !in eb
    ensures var r := "mailto:" + email + "?" + HeaderFields(es, eb);
            |r| > 8 + |email| && r[..8 + |email|] == "mailto:" + email + "?" &&
            '?' !in r[8 + |email|..] && '#' !in r[8 + |email|..]
  {
    var r := "mailto:" + email + "?" + HeaderFields(es, eb);
    assert r[8 + |email|..] == HeaderFields(es, eb);
    assert '?' !in "subject=" && '#' !in "subject=" && '?' !in "&body=" && '#' !in "&body=";
  }

  /** The header fields of the link, from their encoded values. */
  function HeaderFields(encodedSubject: string, encodedBody: string): string {
    "subject=" + encodedSubject + "&body=" + encodedBody
  }

  /** A URI-safe text has none of the characters that delimit the parts of
      a `mailto:` link. */
  lemma NoDelimiters(s: string)
    requires IsUriSafe(s)
    ensures '&' !in s && '?' !in s && '=' !in s && '#' !in s
  {
    assert !IsUnreserved('&') && !IsUnreserved('?') && !IsUnreserved('=') && !IsUnreserved('#');
  }

  /** The rewritten body is the encoding of the body with CR LF line breaks,
      and neither encoded field holds a `&`, `?`, `=` or `#` that a mail
      client would read as a delimiter. */
  lemma MailtoLinkFields(email: string, subject: string, body: string)
    ensures MailtoLink(email, subject, body) ==
            "mailto:" + email + "?" + HeaderFields(Encode(subject), Encode(ToCrlf(body)))
    ensures '&' !in Encode(subject) && '?' !in Encode(subject) && '=' !in Encode(subject) && '#' !in Encode(subject)
    ensures var eb := Encode(ToCrlf(body)); '&' !in eb && '?' !in eb && '=' !in eb && '#' !in eb
  {
    CrlfEscapesEncode(body);
    NoDelimiters(Encode(subject));
    NoDelimiters(Encode(ToCrlf(body)));
  }

  /** Position of the first `c` in `s`, if there is one. */
  function FirstIndexOf(s: string, c: char): (r: Option<nat>)
    ensures r.Some? ==> r.value < |s| && s[r.value] == c && c !in s[..r.value]
    ensures r.None? <==> c !in s
  {
    if s == [] then None
    else if s[0] == c then Some(0)
    else match FirstIndexOf(s[1..], c)
      case None => None
      case Some(i) =>
        assert s[..i + 1] == [s[0]] + s[1..][..i];
        Some(i + 1)
  }

  lemma FirstIndexOfAfter(a: string, c: char, b: string)
    requires c !in a
    ensures FirstIndexOf(a + [c] + b, c) == Some(|a|)
  {
    var s := a + [c] + b;
    assert s[|a|] == c;
  }

  /** Reads a link of the shape `mailto:<to>?subject=<s>&body=<b>`, decoding
      both fields; `None` when the link has another shape or a field does
      not decode. */
  function ParseMailto(link: string): Option<Message> {
    if |link| < 7 || link[..7] != "mailto:" then None
    else
      var rest := link[7..];
      match FirstIndexOf(rest, '?')
      case None => None
      case Some(q) => ParseHeaders(rest[..q], rest[q + 1..])
  }

  /** Reads the query `subject=<s>&body=<b>` of a link addressed to `to`. */
  function ParseHeaders(to: string, query: string): Option<Message> {
    if |query| < 8 || query[..8] != "subject=" then None
    else
      var fields := query[8..];
      match FirstIndexOf(fields, '&')
      case None => None
      case Some(a) =>
        var tail := fields[a + 1..];
        if |tail| < 5 || tail[..5] != "body=" then None
        else
          match (Decode(fields[..a]), Decode(tail[5..]))
          case (Some(subject), Some(body)) => Some(Message(to, subject, body))
          case _ => None
  }

  lemma ParseHeadersSplit(to: string, es: string, eb: string)
    requires '&' !in es
    ensures ParseHeaders(to, HeaderFields(es, eb)) ==
            match (Decode(es), Decode(eb))
            case (Some(subject), Some(body)) => Some(Message(to, subject, body))
            case _ => None
  {
    var query := "subject=" + es + "&body=" + eb;
    var fields := es + "&body=" + eb;
    assert query[..8] == "subject=" && query[8..] == fields;
    FirstIndexOfAfter(es, '&', "body=" + eb);
    assert fields == es + ['&'] + ("body=" + eb);
    assert fields[..|es|] == es && fields[|es| + 1..] == "body=" + eb;
    assert ("body=" + eb)[..5] == "body=" && ("body=" + eb)[5..] == eb;
  }

  lemma ParseMailtoSplit(to: string, query: string)
    requires '?' !in to
    ensures ParseMailto("mailto:" + to + "?" + query) == ParseHeaders(to, query)
  {
    var link := "mailto:" + to + "?" + query;
    var rest := to + "?" + query;
    assert link[..7] == "mailto:" && link[7..] == rest;
    FirstIndexOfAfter(to, '?', query);
    assert rest == to + ['?'] + query;
    assert rest[..|to|] == to && rest[|to| + 1..] == query;
  }

  /** Reading the link back gives the recipient, the subject unchanged and
      the body with its line breaks as CR LF. */
  lemma ParseMailtoLink(email: string, subject: string, body: string)
    requires '?' !in email
    ensures ParseMailto(MailtoLink(email, subject, body)) == Some(Message(email, subject, ToCrlf(body)))
  {
    var es, eb := Encode(subject), Encode(ToCrlf(body));
    CrlfEscapesEncode(body);
    ParseMailtoSplit(email, HeaderFields(es, eb));
    NoDelimiters(es);
    ParseHeadersSplit(email, es, eb);
    DecodeEncode(subject);
    DecodeEncode(ToCrlf(body));
  }
}
