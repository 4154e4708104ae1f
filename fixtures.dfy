/**
 * Worked examples: the Authenticate call of GSXNextGen (its request object, envelope and the
 * replies it can get) and the corner cases of the response resolver.
 */
module Fixtures {
  import opened Wrappers
  import opened Strings
  import opened XmlBuilder
  import opened SoapEnvelope
  import opened Response
  import opened GsxExecute

  /* ---------------------------------------------------------------------------------------
   * The Authenticate request
   * ------------------------------------------------------------------------------------- */

  /** `AuthenticateRequest`: four strings, then the inherited (null) `Attributes`. */
  function AuthenticateRequest(userId: string, serviceAccountNo: string): Obj {
    Obj("AuthenticateRequest", None, 0, None, [
      Prop("userId", Str(userId)),
      Prop("languageCode", Str("EN")),
      Prop("userTimeZone", Str("CET")),
      Prop("serviceAccountNo", Str(serviceAccountNo)),
      Prop("Attributes", Ref(None))])
  }

  /** `globAuthenticate` with `ColonCutOffset = 4`, as Authenticate.Perform builds it. */
  function GlobAuthenticate(userId: string, serviceAccountNo: string): Obj {
    Obj("globAuthenticate", None, 4, None, [
      Prop("AuthenticateRequest", Ref(Some(AuthenticateRequest(userId, serviceAccountNo)))),
      Prop("Attributes", Ref(None))])
  }

  /** AuthenticateRequest has no ClassName and no offset: its tags are its type name. */
  lemma RequestOpenTag(userId: string, serviceAccountNo: string)
    ensures OpenTag(AuthenticateRequest(userId, serviceAccountNo)) == "<" + "AuthenticateRequest" + ">"
  {
  }

  lemma RequestCloseTag(userId: string, serviceAccountNo: string)
    ensures CloseTag(AuthenticateRequest(userId, serviceAccountNo)) == "</" + "AuthenticateRequest" + ">"
  {
  }

  /** `ColonCutOffset = 4` turns the type name `globAuthenticate` into the tag `glob:Authenticate`. */
  lemma GlobTagName(userId: string, serviceAccountNo: string)
    ensures TagName(GlobAuthenticate(userId, serviceAccountNo)) == "glob:Authenticate"
  {
  }

  lemma GlobOpenTag(userId: string, serviceAccountNo: string)
    ensures OpenTag(GlobAuthenticate(userId, serviceAccountNo)) == "<" + "glob:Authenticate" + ">"
  {
    GlobTagName(userId, serviceAccountNo);
  }

  lemma GlobCloseTag(userId: string, serviceAccountNo: string)
    ensures CloseTag(GlobAuthenticate(userId, serviceAccountNo)) == "</" + "glob:Authenticate" + ">"
  {
    GlobTagName(userId, serviceAccountNo);
  }

  /** The Authenticate request: `<AuthenticateRequest>`, its four strings in order, nothing for the null `Attributes`. */
  lemma AuthenticateRequestXml(userId: string, serviceAccountNo: string)
    ensures ToXml(Some(AuthenticateRequest(userId, serviceAccountNo))) ==
      ("<" + "AuthenticateRequest" + ">") + TextElement("userId", userId) + TextElement("languageCode", "EN") +
      TextElement("userTimeZone", "CET") + TextElement("serviceAccountNo", serviceAccountNo) +
      ("</" + "AuthenticateRequest" + ">")
  {
    var req := AuthenticateRequest(userId, serviceAccountNo);
    var ps := req.props;
    assert ps[..1][..0] == [] && ps[..2][..1] == ps[..1] && ps[..3][..2] == ps[..2];
    assert ps[..4][..3] == ps[..3] && ps[..4] == ps[..|ps| - 1];
    var t1, t2 := TextElement("userId", userId), TextElement("languageCode", "EN");
    var t3, t4 := TextElement("userTimeZone", "CET"), TextElement("serviceAccountNo", serviceAccountNo);
    EmptyAppend(t1);
    assert PropsXml(ps[..1]) == t1;
    assert PropsXml(ps[..2]) == t1 + t2;
    assert PropsXml(ps[..3]) == t1 + t2 + t3;
    assert PropsXml(ps[..4]) == t1 + t2 + t3 + t4;
    assert PropXml(ps[4]) == "";
    assert PropsXml(ps) == t1 + t2 + t3 + t4;
    RequestOpenTag(userId, serviceAccountNo);
    RequestCloseTag(userId, serviceAccountNo);
    var open := "<" + "AuthenticateRequest" + ">";
    AppendAssoc(open, t1 + t2 + t3, t4);
    AppendAssoc(open, t1 + t2, t3);
    AppendAssoc(open, t1, t2);
  }

  /** The request body of Authenticate: the nested request inside `glob:Authenticate`. */
  lemma AuthenticateXml(userId: string, serviceAccountNo: string)
    ensures ToXml(Some(GlobAuthenticate(userId, serviceAccountNo))) ==
      ("<" + "glob:Authenticate" + ">") + ToXml(Some(AuthenticateRequest(userId, serviceAccountNo))) +
      ("</" + "glob:Authenticate" + ">")
  {
    var glob := GlobAuthenticate(userId, serviceAccountNo);
    assert glob.props[..1][..0] == [] && glob.props[..1] == glob.props[..|glob.props| - 1];
    EmptyAppend(ToXml(Some(AuthenticateRequest(userId, serviceAccountNo))));
    assert PropsXml(glob.props[..1]) == ToXml(Some(AuthenticateRequest(userId, serviceAccountNo)));
    assert PropXml(glob.props[1]) == "";
    GlobOpenTag(userId, serviceAccountNo);
    GlobCloseTag(userId, serviceAccountNo);
  }

  /* ---------------------------------------------------------------------------------------
   * Replies to Authenticate
   * ------------------------------------------------------------------------------------- */

  /** An element that holds only text. */
  function Leaf(name: string, text: string): Node {
    Element(name, [Text(text)])
  }

  /** A reply document: the SOAP envelope and body around `payload`, in the namespace `ns`. */
  function Reply(ns: string, payload: Node): seq<Node> {
    [Element(ns + "Envelope", [Element(ns + "Body", [payload])])]
  }

  function FaultElement(ns: string): Node {
    Element(ns + "Fault", [Leaf("faultcode", "soapenv:Server"), Leaf("faultstring", "Invalid session")])
  }

  function AuthenticateResponseElement(ns: string): Node {
    Element(ns + "AuthenticateResponse", [Leaf("operationId", "op-1"), Leaf("userSessionId", "ABC123")])
  }

  /** Two text-only elements side by side are their own descendants. */
  lemma LeavesDescendants(a: string, x: string, b: string, y: string)
    ensures Descendants([Leaf(a, x), Leaf(b, y)]) == [Leaf(a, x), Leaf(b, y)]
  {
    var l1, l2 := Leaf(a, x), Leaf(b, y);
    assert [l1, l2][1..] == [l2] && [l2][1..] == [] && [Text(x)][1..] == [] && [Text(y)][1..] == [];
    assert Descendants([Text(x)]) == [] && Descendants([Text(y)]) == [];
    assert SelfAndDescendants(l1) == [l1] && SelfAndDescendants(l2) == [l2];
  }

  /**
   * The elements of a reply whose payload holds two text-only elements, in document order:
   * envelope, body, payload, then the two.
   */
  lemma ReplyElements(ns: string, name: string, a: string, x: string, b: string, y: string)
    returns (ds: seq<Node>)
    ensures var p := Element(name, [Leaf(a, x), Leaf(b, y)]);
      ds == Descendants(Reply(ns, p)) &&
      ds == [Reply(ns, p)[0], Reply(ns, p)[0].content[0], p, Leaf(a, x), Leaf(b, y)]
  {
    var p := Element(name, [Leaf(a, x), Leaf(b, y)]);
    LeavesDescendants(a, x, b, y);
    var body := Element(ns + "Body", [p]);
    var env := Element(ns + "Envelope", [body]);
    assert [p][1..] == [] && [body][1..] == [] && [env][1..] == [];
    assert Descendants([p]) == [p, Leaf(a, x), Leaf(b, y)];
    assert Descendants([body]) == [body, p, Leaf(a, x), Leaf(b, y)];
    ds := Descendants(Reply(ns, p));
  }

  lemma NotEndsWith(s: string, suffix: string, k: int)
    requires 0 < k <= |suffix| && k <= |s| && s[|s| - k] != suffix[|suffix| - k]
    ensures !EndsWith(s, suffix)
  {
    if |suffix| <= |s| {
      assert s[|s| - |suffix|..][|suffix| - k] == s[|s| - k];
    }
  }

  /** With no exact match, GetElement returns the first suffix match. */
  lemma GetElementBySuffix(container: seq<Node>, name: string, i: int)
    requires forall j :: 0 <= j < |Descendants(container)| ==> !Matches(Descendants(container)[j], Exact(name))
    requires IsFirstMatch(Descendants(container), i, Suffix(name))
    ensures GetElement(container, name) == Some(Descendants(container)[i])
  {
    var ds := Descendants(container);
    assert exists k :: IsFirstMatch(ds, k, Suffix(name)) && GetElement(container, name) == Some(ds[k]);
  }

  /** A namespaced SOAP `Fault` is found by GetElement only through the suffix fallback. */
  lemma FaultFoundBySuffix(ns: string)
    requires |ns| > 0
    ensures GetElement(Reply(ns, FaultElement(ns)), "Fault") == Some(FaultElement(ns))
  {
    var f := FaultElement(ns);
    var ds := ReplyElements(ns, ns + "Fault", "faultcode", "soapenv:Server", "faultstring", "Invalid session");
    NotEndsWith(ns + "Envelope", "Fault", 1);
    NotEndsWith(ns + "Body", "Fault", 1);
    assert ds[0].name != "Fault" && ds[1].name != "Fault" && ds[2].name != "Fault";
    assert ds[3].name != "Fault" && ds[4].name != "Fault";
    assert (ns + "Fault")[|ns + "Fault"| - 5..] == "Fault";
    assert IsFirstMatch(ds, 2, Suffix("Fault"));
    GetElementBySuffix(Reply(ns, f), "Fault", 2);
  }

  /** GetValue has no suffix fallback: the same namespaced `Fault` has no value by that name. */
  lemma FaultHasNoValue(ns: string)
    requires |ns| > 1
    ensures GetValue(Reply(ns, FaultElement(ns)), "Fault") == None
  {
    var ds := ReplyElements(ns, ns + "Fault", "faultcode", "soapenv:Server", "faultstring", "Invalid session");
    assert forall j :: 0 <= j < |ds| ==> |ds[j].name| != 5;
  }

  /** The fault table of this reply: one entry per element below the Fault, named by its tag. */
  lemma FaultEntriesOfReply(ns: string)
    ensures FillFault(Descendants(FaultElement(ns).content)) ==
      FaultFill(map["faultcode" := "soapenv:Server", "faultstring" := "Invalid session"], None)
  {
    var code, str := Leaf("faultcode", "soapenv:Server"), Leaf("faultstring", "Invalid session");
    LeavesDescendants("faultcode", "soapenv:Server", "faultstring", "Invalid session");
    var ds := [code, str];
    assert ds[..1] == [code] && [code][..0] == [];
    assert Value(code) == "soapenv:Server" && Value(str) == "Invalid session";
  }

  /** A Fault with the same element twice makes the second `Hashtable.Add` throw. */
  lemma DuplicateFaultEntry()
    ensures FillFault(Descendants([Leaf("faultstring", "a"), Leaf("faultstring", "b")])) ==
      FaultFill(map["faultstring" := "a"], Some("faultstring"))
  {
    var a := Leaf("faultstring", "a");
    LeavesDescendants("faultstring", "a", "faultstring", "b");
    var ds := [a, Leaf("faultstring", "b")];
    assert ds[..1] == [a] && [a][..0] == [];
    assert Value(a) == "a";
  }

  /** A fault reply has no element named after the result type: Execute returns null. */
  lemma FaultReplyHasNoResult(ns: string)
    ensures GetElement(Reply(ns, FaultElement(ns)), "AuthenticateResponse") == None
  {
    var ds := ReplyElements(ns, ns + "Fault", "faultcode", "soapenv:Server", "faultstring", "Invalid session");
    NotEndsWith(ns + "Envelope", "AuthenticateResponse", 2);
    NotEndsWith(ns + "Body", "AuthenticateResponse", 1);
    NotEndsWith(ns + "Fault", "AuthenticateResponse", 1);
    NotEndsWith("faultcode", "AuthenticateResponse", 2);
    NotEndsWith("faultstring", "AuthenticateResponse", 1);
    assert forall j :: 0 <= j < |ds| ==> !Matches(ds[j], Suffix("AuthenticateResponse"));
  }

  /** A successful reply: the namespaced response element is found by its type name. */
  lemma ResponseFoundBySuffix(ns: string)
    requires |ns| > 0
    ensures GetElement(Reply(ns, AuthenticateResponseElement(ns)), "AuthenticateResponse") ==
      Some(AuthenticateResponseElement(ns))
  {
    var r := AuthenticateResponseElement(ns);
    var ds := ReplyElements(ns, ns + "AuthenticateResponse", "operationId", "op-1", "userSessionId", "ABC123");
    var resp := ns + "AuthenticateResponse";
    NotEndsWith(ns + "Envelope", "AuthenticateResponse", 2);
    NotEndsWith(ns + "Body", "AuthenticateResponse", 1);
    assert ds[0].name != "AuthenticateResponse" && ds[1].name != "AuthenticateResponse";
    assert ds[2].name != "AuthenticateResponse" && ds[3].name != "AuthenticateResponse";
    assert ds[4].name != "AuthenticateResponse";
    assert resp[|resp| - 20..] == "AuthenticateResponse";
    assert IsFirstMatch(ds, 2, Suffix("AuthenticateResponse"));
    GetElementBySuffix(Reply(ns, r), "AuthenticateResponse", 2);
  }

  lemma SessionIdNameFolds()
    ensures EqualsIgnoreCase("userSessionId", "USERSESSIONID")
  {
  }

  /** A successful reply holds no Fault. */
  lemma ResponseHasNoFault(ns: string)
    ensures GetElement(Reply(ns, AuthenticateResponseElement(ns)), "Fault") == None
  {
    var ds := ReplyElements(ns, ns + "AuthenticateResponse", "operationId", "op-1", "userSessionId", "ABC123");
    NotEndsWith(ns + "Envelope", "Fault", 1);
    NotEndsWith(ns + "Body", "Fault", 1);
    NotEndsWith(ns + "AuthenticateResponse", "Fault", 1);
    NotEndsWith("operationId", "Fault", 1);
    NotEndsWith("userSessionId", "Fault", 1);
    assert forall j :: 0 <= j < |ds| ==> !Matches(ds[j], Suffix("Fault"));
  }

  /** GetValue ignores case: `USERSESSIONID` finds `userSessionId`. */
  lemma SessionIdIgnoringCase(ns: string)
    ensures GetValue(Reply(ns, AuthenticateResponseElement(ns)), "USERSESSIONID") == Some("ABC123")
  {
    var ds := ReplyElements(ns, ns + "AuthenticateResponse", "operationId", "op-1", "userSessionId", "ABC123");
    var env, body, resp := ns + "Envelope", ns + "Body", ns + "AuthenticateResponse";
    assert Fold(env[|env| - 1]) == 'E' && Fold(body[|body| - 1]) == 'Y' && Fold(resp[|resp| - 1]) == 'E';
    assert !Matches(ds[0], IgnoreCase("USERSESSIONID")) && !Matches(ds[1], IgnoreCase("USERSESSIONID"));
    assert !Matches(ds[2], IgnoreCase("USERSESSIONID")) && !Matches(ds[3], IgnoreCase("USERSESSIONID"));
    SessionIdNameFolds();
    assert IsFirstMatch(ds, 4, IgnoreCase("USERSESSIONID"));
    assert Value(ds[4]) == "ABC123";
  }

  /** An exact match wins even when a suffix-only match comes first in the document. */
  lemma ExactBeatsEarlierSuffix()
    ensures GetElement([Leaf("xFault", ""), Leaf("Fault", "")], "Fault") == Some(Leaf("Fault", ""))
  {
    LeavesDescendants("xFault", "", "Fault", "");
    var ds := [Leaf("xFault", ""), Leaf("Fault", "")];
    assert IsFirstMatch(ds, 1, Exact("Fault"));
  }

  /* ---------------------------------------------------------------------------------------
   * Authenticate through Execute
   * ------------------------------------------------------------------------------------- */

  /**
   * Authenticate answered by a fault: the request is the Global envelope around the
   * `glob:Authenticate` body, the fault table holds the two fault fields, and there is no
   * `AuthenticateResponse` to return.
   */
  method AuthenticateFaulted(ns: string, userId: string, serviceAccountNo: string)
    returns (gsx: GsxNextGen, request: string, result: Result<Option<Node>, ExecuteError>)
    requires |ns| > 0
    ensures fresh(gsx)
    ensures request == EnvelopeText(Global, ToXml(Some(GlobAuthenticate(userId, serviceAccountNo))))
    ensures gsx.faultEntries == Some(map["faultcode" := "soapenv:Server", "faultstring" := "Invalid session"])
    ensures result == Success(None)
  {
    gsx := new GsxNextGen();
    FaultFoundBySuffix(ns);
    FaultEntriesOfReply(ns);
    FaultReplyHasNoResult(ns);
    request, result := gsx.Execute(Some(GlobAuthenticate(userId, serviceAccountNo)), Global,
      "AuthenticateResponse", Reply(ns, FaultElement(ns)));
  }

  /** Authenticate answered with a session: no fault table, and the response element is the result. */
  method AuthenticateSucceeded(ns: string, userId: string, serviceAccountNo: string)
    returns (gsx: GsxNextGen, result: Result<Option<Node>, ExecuteError>)
    requires |ns| > 0
    ensures fresh(gsx)
    ensures gsx.faultEntries == None
    ensures result == Success(Some(AuthenticateResponseElement(ns)))
  {
    gsx := new GsxNextGen();
    ResponseHasNoFault(ns);
    ResponseFoundBySuffix(ns);
    var request;
    request, result := gsx.Execute(Some(GlobAuthenticate(userId, serviceAccountNo)), Global,
      "AuthenticateResponse", Reply(ns, AuthenticateResponseElement(ns)));
  }
}
