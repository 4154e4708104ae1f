/**
 * The request serializer of GSXNextGen (`buildXML`): it walks a request object and appends
 * its XML text to a string builder. Runtime reflection is replaced by an explicit, ordered
 * property list on each object.
 */
module XmlBuilder {
  import opened Wrappers
  import opened Strings

  /** One key of a NameValueCollection (`AllKeys`) with the text its indexer returns. */
  datatype Attr = Attr(key: string, value: string)

  /**
   * A request object: its runtime type name, the three members of the `Wrapper` base class
   * (an object that is no `Wrapper` carries their defaults: None, 0, None) and its public
   * properties in declaration order.
   */
  datatype Obj = Obj(typeName: string, className: Option<string>, colonCutOffset: int,
                     attributes: Option<seq<Attr>>, props: seq<Prop>)

  datatype Prop = Prop(name: string, value: Val)

  /**
   * A property value, split the way buildXML dispatches on it: a string, an array of
   * objects, or anything else, which is handed to buildXML itself. A null value of any
   * declared type fails both type tests and is handed on as well, so it is `Ref(None)`.
   */
  datatype Val = Str(s: string) | Arr(items: seq<Option<Obj>>) | Ref(target: Option<Obj>)

  /** Property names buildXML skips: the members of the `Wrapper` base class. */
  const Reserved: set<string> := {"Attributes", "ColonCutOffset", "ClassName"}

  /** The tag name before the colon splice: `ClassName` when set, otherwise the type name. */
  function BaseName(o: Obj): string {
    if o.className.Some? then o.className.value else o.typeName
  }

  /** Inserts a colon at offset `k` when `0 < k < |name|`; any other offset leaves the name. */
  function Splice(name: string, k: int): string {
    if 0 < k < |name| then name[..k] + ":" + name[k..] else name
  }

  /**
   * The splice applies exactly when `0 < k < |name|`: then the result is one character longer,
   * holds `:` at offset `k`, and removing that colon gives the name back.
   */
  lemma SpliceShape(name: string, k: int)
    ensures var r := Splice(name, k);
      if 0 < k < |name| then |r| == |name| + 1 && r[k] == ':' && r[..k] + r[k + 1..] == name
      else r == name
  {
    if 0 < k < |name| {
      var r := Splice(name, k);
      assert r[..k] == name[..k];
      assert r[k + 1..] == name[k..];
    }
  }

  /** The name used in both the opening and the closing tag of an object. */
  function TagName(o: Obj): string {
    Splice(BaseName(o), o.colonCutOffset)
  }

  /** One attribute as buildXML writes it: a space, the key, then the quoted value, with no `=`. */
  function AttrXml(a: Attr): string {
    " " + a.key + "\"" + a.value + "\""
  }

  function AttrsXml(attrs: seq<Attr>): string {
    if attrs == [] then "" else AttrsXml(attrs[..|attrs| - 1]) + AttrXml(attrs[|attrs| - 1])
  }

  /** The opening tag: `<`, the name, the attributes in key order, `>`. */
  function RootTag(name: string, attributes: Option<seq<Attr>>): string {
    ("<" + name) + (if attributes.Some? then AttrsXml(attributes.value) else "") + ">"
  }

  function OpenTag(o: Obj): string {
    RootTag(TagName(o), o.attributes)
  }

  function CloseTag(o: Obj): string {
    "</" + TagName(o) + ">"
  }

  /** A string property: `<name>text</name>`, the text copied as it is (no escaping). */
  function TextElement(name: string, text: string): string {
    ("<" + name + ">") + text + ("</" + name + ">")
  }

  /** The fragment buildXML appends for a (possibly null) object. */
  function ToXml(w: Option<Obj>): string
    decreases w
  {
    match w
    case None => ""
    case Some(o) => OpenTag(o) + PropsXml(o.props) + CloseTag(o)
  }

  function PropsXml(ps: seq<Prop>): string
    decreases ps
  {
    if ps == [] then "" else PropsXml(ps[..|ps| - 1]) + PropXml(ps[|ps| - 1])
  }

  function PropXml(p: Prop): string
    decreases p
  {
    if p.name in Reserved then ""
    else
      match p.value
      case Str(s) => TextElement(p.name, s)
      case Arr(items) => ItemsXml(items)
      case Ref(t) => ToXml(t)
  }

  /** The items of an array, one after the other, with no element around them. */
  function ItemsXml(items: seq<Option<Obj>>): string
    decreases items
  {
    if items == [] then "" else ItemsXml(items[..|items| - 1]) + ToXml(items[|items| - 1])
  }

  /* ---------------------------------------------------------------------------------------
   * Properties of the fragment
   * ------------------------------------------------------------------------------------- */

  /** A non-null object opens with `<` and its tag name and closes with the same tag name. */
  lemma ElementDelimited(o: Obj)
    ensures "<" + TagName(o) <= ToXml(Some(o))
    ensures EndsWith(ToXml(Some(o)), "</" + TagName(o) + ">")
    ensures o.attributes.None? ==> "<" + TagName(o) + ">" <= ToXml(Some(o))
  {
    var x := ToXml(Some(o));
    assert x == "<" + TagName(o) + (if o.attributes.Some? then AttrsXml(o.attributes.value) else "")
      + ">" + PropsXml(o.props) + CloseTag(o);
  }

  /** The fragment of a property list is the fragments of its parts, in order. */
  lemma {:induction false} PropsXmlAppend(a: seq<Prop>, b: seq<Prop>)
    ensures PropsXml(a + b) == PropsXml(a) + PropsXml(b)
    decreases |b|
  {
    if b == [] {
      assert a + b == a;
    } else {
      var b' := b[..|b| - 1];
      assert (a + b)[..|a + b| - 1] == a + b';
      assert (a + b)[|a + b| - 1] == b[|b| - 1];
      PropsXmlAppend(a, b');
      AppendAssoc(PropsXml(a), PropsXml(b'), PropXml(b[|b| - 1]));
    }
  }

  /** Array items are flattened: the fragment of a concatenation is the concatenation. */
  lemma {:induction false} ItemsXmlAppend(a: seq<Option<Obj>>, b: seq<Option<Obj>>)
    ensures ItemsXml(a + b) == ItemsXml(a) + ItemsXml(b)
    decreases |b|
  {
    if b == [] {
      assert a + b == a;
    } else {
      var b' := b[..|b| - 1];
      assert (a + b)[..|a + b| - 1] == a + b';
      assert (a + b)[|a + b| - 1] == b[|b| - 1];
      ItemsXmlAppend(a, b');
      AppendAssoc(ItemsXml(a), ItemsXml(b'), ToXml(b[|b| - 1]));
    }
  }

  /** An array writes nothing exactly when every item is null (the empty array included). */
  lemma {:induction false} ItemsXmlEmptyIffAllNull(items: seq<Option<Obj>>)
    ensures ItemsXml(items) == "" <==> forall i :: 0 <= i < |items| ==> items[i].None?
  {
    if items != [] {
      var init := items[..|items| - 1];
      ItemsXmlEmptyIffAllNull(init);
      var last := items[|items| - 1];
      if last.Some? {
        ElementDelimited(last.value);
      }
      assert forall i :: 0 <= i < |init| ==> init[i] == items[i];
    }
  }

  /** The properties buildXML does not skip by name: every other property is kept. */
  function Unreserved(ps: seq<Prop>): (r: seq<Prop>)
    ensures forall i :: 0 <= i < |r| ==> r[i].name !in Reserved
    ensures forall p :: p in r <==> p in ps && p.name !in Reserved
  {
    if ps == [] then []
    else if ps[|ps| - 1].name in Reserved then Unreserved(ps[..|ps| - 1])
    else Unreserved(ps[..|ps| - 1]) + [ps[|ps| - 1]]
  }

  /** Removing the `Wrapper` meta properties does not change the output. */
  lemma {:induction false} ReservedPropsIgnored(ps: seq<Prop>)
    ensures PropsXml(ps) == PropsXml(Unreserved(ps))
  {
    if ps != [] {
      var init := ps[..|ps| - 1];
      var last := ps[|ps| - 1];
      ReservedPropsIgnored(init);
      if last.name !in Reserved {
        PropsXmlAppend(Unreserved(init), [last]);
        assert [last][..0] == [];
      }
    }
  }

  /** A property that is a string or null: the kinds a flat request object holds. */
  predicate IsLeaf(p: Prop) {
    p.value.Str? || p.value == Ref(None)
  }

  /** The (name, text) pairs of the non-null, non-reserved string properties, in declaration order. */
  function TextChildren(ps: seq<Prop>): (r: seq<(string, string)>)
    ensures |r| <= |ps|
  {
    if ps == [] then []
    else
      var last := ps[|ps| - 1];
      if last.name !in Reserved && last.value.Str? then TextChildren(ps[..|ps| - 1]) + [(last.name, last.value.s)]
      else TextChildren(ps[..|ps| - 1])
  }

  function TextElements(cs: seq<(string, string)>): string {
    if cs == [] then "" else TextElements(cs[..|cs| - 1]) + TextElement(cs[|cs| - 1].0, cs[|cs| - 1].1)
  }

  /**
   * For an object whose properties are all strings or null, the body of its element is one
   * `<name>text</name>` per non-null, non-reserved string property, in declaration order,
   * and nothing else.
   */
  lemma {:induction false} FlatPropsInOrder(ps: seq<Prop>)
    requires forall i :: 0 <= i < |ps| ==> IsLeaf(ps[i])
    ensures PropsXml(ps) == TextElements(TextChildren(ps))
  {
    if ps != [] {
      var init := ps[..|ps| - 1];
      assert forall i :: 0 <= i < |init| ==> init[i] == ps[i];
      FlatPropsInOrder(init);
      var last := ps[|ps| - 1];
      assert IsLeaf(last);
      if last.name !in Reserved && last.value.Str? {
        var cs := TextChildren(init) + [(last.name, last.value.s)];
        assert cs[..|cs| - 1] == TextChildren(init);
        assert TextChildren(ps) == cs;
      } else {
        assert PropXml(last) == "";
        assert PropsXml(ps) == PropsXml(init) + "";
      }
    }
  }

  /**
   * The attribute quirk: the rendered attributes hold no `=` at all unless a key or a value
   * brings one, so `key="value"` is never produced by buildXML itself.
   */
  lemma {:induction false} AttrsWithoutEquals(attrs: seq<Attr>)
    requires forall i :: 0 <= i < |attrs| ==> '=' !in attrs[i].key && '=' !in attrs[i].value
    ensures '=' !in AttrsXml(attrs)
  {
    if attrs != [] {
      var init := attrs[..|attrs| - 1];
      assert forall i :: 0 <= i < |init| ==> init[i] == attrs[i];
      AttrsWithoutEquals(init);
      var a := attrs[|attrs| - 1];
      assert AttrXml(a) == [' '] + a.key + ['"'] + a.value + ['"'];
    }
  }

  /* ---------------------------------------------------------------------------------------
   * The string builder and the imperative walk
   * ------------------------------------------------------------------------------------- */

  /** System.Text.StringBuilder, reduced to the text it holds. */
  class StringBuilder {
    var text: string

    constructor ()
      ensures text == ""
    {
      text := "";
    }

    method Append(s: string)
      modifies this
      ensures text == old(text) + s
    {
      text := text + s;
    }
  }

  /**
   * buildXML: appends the fragment of `wrapper` to `xml`; a null wrapper appends nothing.
   */
  method BuildXml(wrapper: Option<Obj>, xml: StringBuilder)
    modifies xml
    ensures xml.text == old(xml.text) + ToXml(wrapper)
    decreases wrapper
  {
    if wrapper.None? {
      return;
    }
    var o := wrapper.value;
    var name := TagName(o);
    ghost var t0 := xml.text;
    AppendRootTag(name, o.attributes, xml);
    ghost var t1 := xml.text;
    AppendProperties(o.props, xml);
    ghost var t2 := xml.text;
    xml.Append("</" + name + ">");
    AppendThree(t0, OpenTag(o), PropsXml(o.props), CloseTag(o));
  }

  /** buildXML's property loop: every property in declaration order, the reserved ones skipped. */
  method AppendProperties(props: seq<Prop>, xml: StringBuilder)
    modifies xml
    ensures xml.text == old(xml.text) + PropsXml(props)
    decreases props
  {
    for i := 0 to |props|
      invariant xml.text == old(xml.text) + PropsXml(props[..i])
    {
      var property := props[i];
      if property.name !in Reserved {
        AppendProperty(property, xml);
      }
      assert props[..i + 1][..i] == props[..i];
      AppendAssoc(old(xml.text), PropsXml(props[..i]), PropXml(property));
    }
    assert props[..|props|] == props;
  }

  /** The root tag of buildXML: `<`, the name, each attribute in key order, then `>`. */
  method AppendRootTag(name: string, attributes: Option<seq<Attr>>, xml: StringBuilder)
    modifies xml
    ensures xml.text == old(xml.text) + RootTag(name, attributes)
  {
    xml.Append("<" + name);
    ghost var open := old(xml.text) + ("<" + name);
    if attributes.Some? {
      var keys := attributes.value;
      for i := 0 to |keys|
        invariant xml.text == open + AttrsXml(keys[..i])
      {
        xml.Append(" " + keys[i].key + "\"" + keys[i].value + "\"");
        assert keys[..i + 1][..i] == keys[..i];
        AppendAssoc(open, AttrsXml(keys[..i]), AttrXml(keys[i]));
      }
      assert keys[..|keys|] == keys;
    }
    xml.Append(">");
    AppendThree(old(xml.text), "<" + name, if attributes.Some? then AttrsXml(attributes.value) else "", ">");
  }

  /** The body of buildXML's property loop for one property that is not skipped. */
  method AppendProperty(property: Prop, xml: StringBuilder)
    requires property.name !in Reserved
    modifies xml
    ensures xml.text == old(xml.text) + PropXml(property)
    decreases property
  {
    match property.value {
      case Str(s) =>
        xml.Append("<" + property.name + ">");
        xml.Append(s);
        xml.Append("</" + property.name + ">");
        AppendThree(old(xml.text), "<" + property.name + ">", s, "</" + property.name + ">");
      case Arr(items) =>
        for j := 0 to |items|
          invariant xml.text == old(xml.text) + ItemsXml(items[..j])
        {
          BuildXml(items[j], xml);
          assert items[..j + 1][..j] == items[..j];
          AppendAssoc(old(xml.text), ItemsXml(items[..j]), ToXml(items[j]));
        }
        assert items[..|items|] == items;
      case Ref(target) =>
        BuildXml(target, xml);
    }
  }
}
