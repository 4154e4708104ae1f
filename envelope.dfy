/**
 * ParseWrapper of GSXNextGen: wraps the serialized request in a SOAP 1.1 envelope whose
 * second namespace declaration depends on the routing category of the call.
 */
module SoapEnvelope {
  import opened Wrappers
  import opened Strings
  import opened XmlBuilder

  /** The routing categories of the vendor service (`GSXNextGen.Envelope`). */
  datatype Envelope = AM | APAC | ASP | Core | EMEA | Global | IPHONE | LA

  /** A namespace prefix and the path below `http://gsxws.apple.com/elements/` it is bound to. */
  datatype Ns = Ns(prefix: string, path: string)

  /** The category table of ParseWrapper: every category has an entry. */
  function Namespace(e: Envelope): Ns {
    match e
    case AM => Ns("am", "core/asp/am")
    case APAC => Ns("apac", "core/asp/apac")
    case ASP => Ns("asp", "core/asp")
    case Core => Ns("core", "core")
    case EMEA => Ns("emea", "core/asp/emea")
    case Global => Ns("glob", "global")
    case IPHONE => Ns("iph", "iphone")
    case LA => Ns("la", "core/asp/la")
  }

  /** Everything of the envelope's opening tag before the category prefix. */
  const Lead: string := "<soapenv:Envelope xmlns:soapenv=\"http://schemas.xmlsoap.org/soap/envelope/\" xmlns:"

  /** The envelope's opening tag for a prefix and a path. */
  function EnvelopeTag(prefix: string, path: string): string {
    Lead + prefix + ("=\"http://gsxws.apple.com/elements/" + path + "\">")
  }

  /** What precedes the request: the opening tag, an empty header, the opening body tag. */
  function Head(e: Envelope): string {
    EnvelopeTag(Namespace(e).prefix, Namespace(e).path) + "<soapenv:Header/>" + "<soapenv:Body>"
  }

  /** What follows the request. */
  const Tail: string := "</soapenv:Body>" + "</soapenv:Envelope>"

  /** The envelope around a serialized request. */
  function EnvelopeText(e: Envelope, body: string): string {
    Head(e) + body + Tail
  }

  /**
   * ParseWrapper: the category's prefix and path, then the header, the serialized wrapper
   * (nothing for a null wrapper) and the footer, appended to a fresh string builder.
   */
  method ParseWrapper(wrapper: Option<Obj>, envelope: Envelope) returns (xml: string)
    ensures xml == EnvelopeText(envelope, ToXml(wrapper))
  {
    var sb := new StringBuilder();
    var prefix := "";
    var path := "";
    match envelope {
      case AM =>
        prefix := "am";
        path := "core/asp/am";
      case APAC =>
        prefix := "apac";
        path := "core/asp/apac";
      case ASP =>
        prefix := "asp";
        path := "core/asp";
      case Core =>
        prefix := "core";
        path := "core";
      case EMEA =>
        prefix := "emea";
        path := "core/asp/emea";
      case Global =>
        prefix := "glob";
        path := "global";
      case IPHONE =>
        prefix := "iph";
        path := "iphone";
      case LA =>
        prefix := "la";
        path := "core/asp/la";
    }
    assert Ns(prefix, path) == Namespace(envelope);

    sb.Append(Lead + prefix + ("=\"http://gsxws.apple.com/elements/" + path + "\">"));
    EmptyAppend(EnvelopeTag(prefix, path));
    sb.Append("<soapenv:Header/>");
    sb.Append("<soapenv:Body>");

    BuildXml(wrapper, sb);

    sb.Append("</soapenv:Body>");
    sb.Append("</soapenv:Envelope>");
    AppendAssoc(Head(envelope) + ToXml(wrapper), "</soapenv:Body>", "</soapenv:Envelope>");
    xml := sb.text;
  }

  /* ---------------------------------------------------------------------------------------
   * Properties of the envelope
   * ------------------------------------------------------------------------------------- */

  /** `xml` split into a known head, the part in between, and a known tail. */
  lemma {:induction false} SplitAround(xml: string, h: string, t: string)
    requires |h| + |t| <= |xml| && h <= xml && EndsWith(xml, t)
    ensures xml == h + xml[|h|..|xml| - |t|] + t
  {
    assert xml == xml[..|h|] + xml[|h|..|xml| - |t|] + xml[|xml| - |t|..];
  }

  /** The body between a category's header and the footer, if `xml` has that shape. */
  function Unwrap(xml: string, e: Envelope): (r: Option<string>)
    ensures r.Some? ==> EnvelopeText(e, r.value) == xml
  {
    var h := Head(e);
    if |h| + |Tail| <= |xml| && h <= xml && EndsWith(xml, Tail) then
      SplitAround(xml, h, Tail);
      Some(xml[|h|..|xml| - |Tail|])
    else
      None
  }

  /** The request can be read back out of the envelope of its category. */
  lemma UnwrapEnvelope(e: Envelope, body: string)
    ensures Unwrap(EnvelopeText(e, body), e) == Some(body)
  {
    var xml := EnvelopeText(e, body);
    var h := Head(e);
    assert xml[..|h|] == h;
    assert xml[|xml| - |Tail|..] == Tail;
    assert xml[|h|..|xml| - |Tail|] == body;
  }

  /** Each category has its own prefix (and its own path). */
  lemma NamespaceInjective(e1: Envelope, e2: Envelope)
    requires Namespace(e1).prefix == Namespace(e2).prefix || Namespace(e1).path == Namespace(e2).path
    ensures e1 == e2
  {
  }

  /** No category prefix contains `=`. */
  lemma PrefixWithoutEquals(e: Envelope)
    ensures '=' !in Namespace(e).prefix
  {
  }

  /** The characters of `s` before its first `=`. */
  function UpToEquals(s: string): (r: string)
    ensures '=' !in r
  {
    if s == [] || s[0] == '=' then [] else [s[0]] + UpToEquals(s[1..])
  }

  /** A run without `=` followed by `=` is read back by UpToEquals. */
  lemma {:induction false} UpToEqualsPrefix(s: string, p: string)
    requires p <= s && |p| < |s| && s[|p|] == '=' && '=' !in p
    ensures UpToEquals(s) == p
  {
    if p != [] {
      assert p[1..] <= s[1..];
      UpToEqualsPrefix(s[1..], p[1..]);
      assert p == [p[0]] + p[1..];
    }
  }

  /** The namespace prefix declared in an envelope: what follows `Lead`, up to the first `=`. */
  function DeclaredPrefix(xml: string): string {
    if |Lead| <= |xml| then UpToEquals(xml[|Lead|..]) else ""
  }

  /** Every envelope declares the prefix of its category. */
  lemma DeclaredPrefixOfEnvelope(e: Envelope, body: string)
    ensures DeclaredPrefix(EnvelopeText(e, body)) == Namespace(e).prefix
  {
    var x := EnvelopeText(e, body);
    var p := Namespace(e).prefix;
    var tag := EnvelopeTag(p, Namespace(e).path);
    assert tag[|Lead| + |p|] == '=';
    assert Lead + p <= tag;
    assert tag <= Head(e);
    assert Head(e) <= x;
    PrefixWithoutEquals(e);
    UpToEqualsPrefix(x[|Lead|..], p);
  }

  /** Two envelopes are equal only when they have the same category and the same request. */
  lemma EnvelopeDeterminesCategoryAndBody(e1: Envelope, b1: string, e2: Envelope, b2: string)
    requires EnvelopeText(e1, b1) == EnvelopeText(e2, b2)
    ensures e1 == e2 && b1 == b2
  {
    DeclaredPrefixOfEnvelope(e1, b1);
    DeclaredPrefixOfEnvelope(e2, b2);
    NamespaceInjective(e1, e2);
    UnwrapEnvelope(e1, b1);
    UnwrapEnvelope(e1, b2);
  }
}
