/**
 * The response resolver of GSXNextGen: `GetElement` and `GetValue`, first-match searches over
 * the descendants of a parsed response document, in document order.
 */
module Response {
  import opened Wrappers
  import opened Strings

  /**
   * A parsed XML node. An element's name is its expanded form `{namespace}local`, as
   * `XName.ToString()` gives it; a name in no namespace is just the local name.
   */
  datatype Node = Element(name: string, content: seq<Node>) | Text(text: string)

  /** `Descendants()` of a container with this content: every element below it, in document order. */
  function Descendants(content: seq<Node>): (r: seq<Node>)
    ensures forall i :: 0 <= i < |r| ==> r[i].Element?
    decreases content
  {
    if content == [] then [] else SelfAndDescendants(content[0]) + Descendants(content[1..])
  }

  /** A node followed by the elements below it; a text node contributes nothing. */
  function SelfAndDescendants(n: Node): (r: seq<Node>)
    ensures forall i :: 0 <= i < |r| ==> r[i].Element?
    ensures n.Element? ==> |r| > 0 && r[0] == n
    decreases n
  {
    match n
    case Text(_) => []
    case Element(_, content) => [n] + Descendants(content)
  }

  /** `XElement.Value`: the text of every text node below the node, in document order. */
  function Value(n: Node): string
    decreases n
  {
    match n
    case Text(t) => t
    case Element(_, content) => TextContent(content)
  }

  function TextContent(content: seq<Node>): string
    decreases content
  {
    if content == [] then "" else Value(content[0]) + TextContent(content[1..])
  }

  /* ---------------------------------------------------------------------------------------
   * Name comparisons and the first-match search
   * ------------------------------------------------------------------------------------- */

  /** Upper-case form of an ASCII letter; every other character is left as it is. */
  function Fold(c: char): char {
    if 'a' <= c <= 'z' then (c as int - 32) as char else c
  }

  /** `string.Equals(a, b, InvariantCultureIgnoreCase)`, for ASCII case differences. */
  predicate EqualsIgnoreCase(a: string, b: string) {
    |a| == |b| && forall i :: 0 <= i < |a| ==> Fold(a[i]) == Fold(b[i])
  }

  /** The three ways the resolver compares a descendant's name with the requested one. */
  datatype Criterion = Exact(name: string) | Suffix(name: string) | IgnoreCase(name: string)

  predicate Matches(d: Node, c: Criterion) {
    d.Element? &&
    match c
    case Exact(n) => d.name == n
    case Suffix(n) => EndsWith(d.name, n)
    case IgnoreCase(n) => EqualsIgnoreCase(d.name, n)
  }

  /** `i` is the position of the first node of `ds` that meets `c`. */
  predicate IsFirstMatch(ds: seq<Node>, i: int, c: Criterion) {
    0 <= i < |ds| && Matches(ds[i], c) && forall j :: 0 <= j < i ==> !Matches(ds[j], c)
  }

  /** The position of the first node that meets `c`, if any. */
  function FirstIndex(ds: seq<Node>, c: Criterion): (r: Option<nat>)
    ensures r.Some? ==> IsFirstMatch(ds, r.value, c)
    ensures r.None? <==> forall i :: 0 <= i < |ds| ==> !Matches(ds[i], c)
  {
    if ds == [] then None
    else if Matches(ds[0], c) then Some(0)
    else
      match FirstIndex(ds[1..], c)
      case None => None
      case Some(i) => Some(i + 1)
  }

  /** LINQ `FirstOrDefault` with the predicate `c`. */
  function FirstOrDefault(ds: seq<Node>, c: Criterion): (r: Option<Node>)
    ensures r.None? <==> forall i :: 0 <= i < |ds| ==> !Matches(ds[i], c)
    ensures r.Some? ==> exists i :: IsFirstMatch(ds, i, c) && r.value == ds[i]
  {
    match FirstIndex(ds, c)
    case None => None
    case Some(i) => Some(ds[i])
  }

  /**
   * GetElement: the first descendant whose name is `name`; only when there is none, the first
   * descendant whose name ends with `name`; otherwise null. An exact match wins even when a
   * suffix-only match comes earlier in the document.
   */
  function GetElement(container: seq<Node>, name: string): (r: Option<Node>)
    ensures var ds := Descendants(container);
      (exists i :: 0 <= i < |ds| && Matches(ds[i], Exact(name))) ==>
        exists i :: IsFirstMatch(ds, i, Exact(name)) && r == Some(ds[i])
    ensures var ds := Descendants(container);
      (forall i :: 0 <= i < |ds| ==> !Matches(ds[i], Exact(name))) ==>
        (r.None? <==> forall i :: 0 <= i < |ds| ==> !Matches(ds[i], Suffix(name))) &&
        (r.Some? ==> exists i :: IsFirstMatch(ds, i, Suffix(name)) && r == Some(ds[i]))
    ensures var ds := Descendants(container);
      r.None? <==> forall i :: 0 <= i < |ds| ==> !Matches(ds[i], Suffix(name))
  {
    var ds := Descendants(container);
    match FirstOrDefault(ds, Exact(name))
    case Some(e) => Some(e)
    case None => FirstOrDefault(ds, Suffix(name))
  }

  /**
   * GetValue: the text of the first descendant whose name equals `name` ignoring case; null
   * when there is none. There is no suffix fallback.
   */
  function GetValue(container: seq<Node>, name: string): (r: Option<string>)
    ensures var ds := Descendants(container);
      r.None? <==> forall i :: 0 <= i < |ds| ==> !Matches(ds[i], IgnoreCase(name))
    ensures var ds := Descendants(container);
      r.Some? ==> exists i :: IsFirstMatch(ds, i, IgnoreCase(name)) && r.value == Value(ds[i])
  {
    match FirstOrDefault(Descendants(container), IgnoreCase(name))
    case None => None
    case Some(d) => Some(Value(d))
  }

  /* ---------------------------------------------------------------------------------------
   * Properties
   * ------------------------------------------------------------------------------------- */

  lemma FoldEqualsTransitive(a: string, b: string, c: string)
    requires EqualsIgnoreCase(a, b) && EqualsIgnoreCase(b, c)
    ensures EqualsIgnoreCase(a, c)
  {
  }

  /** Two criteria that agree on every node find the same first position. */
  lemma {:induction false} FirstIndexAgrees(ds: seq<Node>, c1: Criterion, c2: Criterion)
    requires forall i :: 0 <= i < |ds| ==> (Matches(ds[i], c1) <==> Matches(ds[i], c2))
    ensures FirstIndex(ds, c1) == FirstIndex(ds, c2)
  {
    if ds != [] {
      FirstIndexAgrees(ds[1..], c1, c2);
    }
  }

  /** GetValue does not depend on the case of the requested name. */
  lemma GetValueIgnoresCase(container: seq<Node>, n1: string, n2: string)
    requires EqualsIgnoreCase(n1, n2)
    ensures GetValue(container, n1) == GetValue(container, n2)
  {
    var ds := Descendants(container);
    forall i | 0 <= i < |ds|
      ensures Matches(ds[i], IgnoreCase(n1)) <==> Matches(ds[i], IgnoreCase(n2))
    {
      if Matches(ds[i], IgnoreCase(n1)) {
        FoldEqualsTransitive(ds[i].name, n1, n2);
      }
      if Matches(ds[i], IgnoreCase(n2)) {
        FoldEqualsTransitive(ds[i].name, n2, n1);
      }
    }
    FirstIndexAgrees(ds, IgnoreCase(n1), IgnoreCase(n2));
  }
}
