/**
 * An abstract model of the parts of System.Xml the program relies on: a node tree, the
 * queries it runs on it (InnerText, SelectSingleNode, SelectNodes, GetElementsByTagName)
 * and a mutable element that children are appended to (XmlNode.AppendChild).
 *
 * Names are qualified strings such as "w:r"; namespace URIs and prefix binding are not modelled,
 * so an XPath step "w:t" matches the elements whose qualified name is "w:t".
 */
module Xml {
  import opened Wrappers

  /** An element with its qualified name, attributes by qualified name and children, or a text node. */
  datatype Node =
    | Element(name: string, attributes: map<string, string>, children: seq<Node>)
    | Text(text: string)

  /** XmlNode.Name: the qualified name of an element; a text node is called "#text". */
  function Name(n: Node): string {
    match n
    case Element(name, _, _) => name
    case Text(_) => "#text"
  }

  /** The child nodes of `n`; a text node has none. */
  function Children(n: Node): seq<Node> {
    match n
    case Element(_, _, cs) => cs
    case Text(_) => []
  }

  /** XmlNode.InnerText: the text of every descendant text node, in document order, with no separator. */
  function InnerText(n: Node): string {
    match n
    case Text(s) => s
    case Element(_, _, cs) => InnerTextOfAll(cs)
  }

  function InnerTextOfAll(cs: seq<Node>): string {
    if cs == [] then "" else InnerText(cs[0]) + InnerTextOfAll(cs[1..])
  }

  lemma {:induction false} InnerTextOfAllAppend(a: seq<Node>, b: seq<Node>)
    ensures InnerTextOfAll(a + b) == InnerTextOfAll(a) + InnerTextOfAll(b)
  {
    if a == [] {
      assert a + b == b;
    } else {
      assert (a + b)[1..] == a[1..] + b;
      InnerTextOfAllAppend(a[1..], b);
    }
  }

  /** Attributes?[key]?.Value: the value of the attribute `key`, None when absent or on a text node. */
  function Attribute(n: Node, key: string): (r: Option<string>)
    ensures r.Some? <==> n.Element? && key in n.attributes
    ensures r.Some? ==> r.value == n.attributes[key]
  {
    if n.Element? && key in n.attributes then Some(n.attributes[key]) else None
  }

  /** Attributes?[key]?.Value ?? "": the value of the attribute `key`, or "" when it is absent. */
  function AttributeOrEmpty(n: Node, key: string): (r: string)
    ensures Attribute(n, key).Some? ==> r == Attribute(n, key).value
    ensures Attribute(n, key).None? ==> r == ""
  {
    match Attribute(n, key)
    case Some(v) => v
    case None => ""
  }

  /** SelectNodes("*"): the element children, in document order. */
  function ElementChildren(cs: seq<Node>): (r: seq<Node>)
    ensures forall i :: 0 <= i < |r| ==> r[i].Element?
  {
    if cs == [] then []
    else (if cs[0].Element? then [cs[0]] else []) + ElementChildren(cs[1..])
  }

  /** SelectNodes("*") keeps exactly the element children: each of them, and nothing else. */
  lemma {:induction false} ElementChildrenMembers(cs: seq<Node>)
    ensures forall n :: n in ElementChildren(cs) <==> n in cs && n.Element?
  {
    if cs != [] {
      ElementChildrenMembers(cs[1..]);
      assert forall n :: n in cs <==> n == cs[0] || n in cs[1..];
    }
  }

  /** SelectNodes(name) for a one-step path: the children that are elements named `name`, in document order. */
  function ChildrenNamed(cs: seq<Node>, name: string): (r: seq<Node>)
    ensures forall i :: 0 <= i < |r| ==> r[i].Element? && r[i].name == name
  {
    if cs == [] then []
    else (if cs[0].Element? && cs[0].name == name then [cs[0]] else []) + ChildrenNamed(cs[1..], name)
  }

  /** SelectNodes(name) keeps exactly the children that are elements named `name`. */
  lemma {:induction false} ChildrenNamedMembers(cs: seq<Node>, name: string)
    ensures forall n :: n in ChildrenNamed(cs, name) <==> n in cs && n.Element? && n.name == name
  {
    if cs != [] {
      ChildrenNamedMembers(cs[1..], name);
      assert forall n :: n in cs <==> n == cs[0] || n in cs[1..];
    }
  }

  lemma {:induction false} ChildrenNamedAppend(a: seq<Node>, b: seq<Node>, name: string)
    ensures ChildrenNamed(a + b, name) == ChildrenNamed(a, name) + ChildrenNamed(b, name)
  {
    if a == [] {
      assert a + b == b;
    } else {
      assert (a + b)[1..] == a[1..] + b;
      ChildrenNamedAppend(a[1..], b, name);
    }
  }

  /** SelectSingleNode(name) for a one-step path: the first child element named `name`. */
  function FirstChildNamed(n: Node, name: string): (r: Option<Node>)
    ensures r.Some? <==> ChildrenNamed(Children(n), name) != []
    ensures r.Some? ==> r == Some(ChildrenNamed(Children(n), name)[0]) && r.value.Element? && r.value.name == name
  {
    var named := ChildrenNamed(Children(n), name);
    if named == [] then None else Some(named[0])
  }

  /**
   * GetElementsByTagName(name): every element named `name` in the subtree of `n`, `n` included,
   * in document (pre-)order.
   */
  function ElementsByTagName(n: Node, name: string): (r: seq<Node>)
    ensures forall i :: 0 <= i < |r| ==> r[i].Element? && r[i].name == name
  {
    match n
    case Text(_) => []
    case Element(tag, _, cs) => (if tag == name then [n] else []) + ElementsByTagNameOfAll(cs, name)
  }

  function ElementsByTagNameOfAll(cs: seq<Node>, name: string): (r: seq<Node>)
    ensures forall i :: 0 <= i < |r| ==> r[i].Element? && r[i].name == name
  {
    if cs == [] then [] else ElementsByTagName(cs[0], name) + ElementsByTagNameOfAll(cs[1..], name)
  }

  lemma {:induction false} ElementsByTagNameOfAllAppend(a: seq<Node>, b: seq<Node>, name: string)
    ensures ElementsByTagNameOfAll(a + b, name) == ElementsByTagNameOfAll(a, name) + ElementsByTagNameOfAll(b, name)
  {
    if a == [] {
      assert a + b == b;
    } else {
      assert (a + b)[1..] == a[1..] + b;
      ElementsByTagNameOfAllAppend(a[1..], b, name);
    }
  }

  /**
   * The tree `n` with its first element named `name` (in document order) replaced by `m`:
   * what changing that element in place makes of the whole tree.
   */
  function ReplaceFirstNamed(n: Node, name: string, m: Node): Node
    requires ElementsByTagName(n, name) != []
  {
    if n.name == name then m
    else Element(n.name, n.attributes, ReplaceFirstNamedIn(n.children, name, m))
  }

  function ReplaceFirstNamedIn(cs: seq<Node>, name: string, m: Node): seq<Node>
    requires ElementsByTagNameOfAll(cs, name) != []
  {
    if ElementsByTagName(cs[0], name) != [] then [ReplaceFirstNamed(cs[0], name, m)] + cs[1..]
    else [cs[0]] + ReplaceFirstNamedIn(cs[1..], name, m)
  }

  /** After the replacement, the first element named `name` is the replacement itself. */
  lemma {:induction false} ReplaceFirstNamedIsFirst(n: Node, name: string, m: Node)
    requires ElementsByTagName(n, name) != []
    requires m.Element? && m.name == name
    ensures ElementsByTagName(ReplaceFirstNamed(n, name, m), name) != []
    ensures ElementsByTagName(ReplaceFirstNamed(n, name, m), name)[0] == m
  {
    if n.name != name {
      ReplaceFirstNamedInIsFirst(n.children, name, m);
    }
  }

  lemma {:induction false} ReplaceFirstNamedInIsFirst(cs: seq<Node>, name: string, m: Node)
    requires ElementsByTagNameOfAll(cs, name) != []
    requires m.Element? && m.name == name
    ensures ElementsByTagNameOfAll(ReplaceFirstNamedIn(cs, name, m), name) != []
    ensures ElementsByTagNameOfAll(ReplaceFirstNamedIn(cs, name, m), name)[0] == m
  {
    var r := ReplaceFirstNamedIn(cs, name, m);
    if ElementsByTagName(cs[0], name) != [] {
      ReplaceFirstNamedIsFirst(cs[0], name, m);
      assert r[0] == ReplaceFirstNamed(cs[0], name, m) && r[1..] == cs[1..];
    } else {
      ReplaceFirstNamedInIsFirst(cs[1..], name, m);
      assert r[0] == cs[0] && r[1..] == ReplaceFirstNamedIn(cs[1..], name, m);
    }
  }

  /**
   * In a tree holding no element named `other`, the elements named `other` after the
   * replacement are exactly those of the replacement.
   */
  lemma {:induction false} ReplaceFirstNamedElsewhere(n: Node, name: string, m: Node, other: string)
    requires ElementsByTagName(n, name) != []
    requires ElementsByTagName(n, other) == []
    ensures ElementsByTagName(ReplaceFirstNamed(n, name, m), other) == ElementsByTagName(m, other)
  {
    if n.name != name {
      assert n.name != other && ElementsByTagNameOfAll(n.children, other) == [];
      ReplaceFirstNamedInElsewhere(n.children, name, m, other);
    }
  }

  lemma {:induction false} ReplaceFirstNamedInElsewhere(cs: seq<Node>, name: string, m: Node, other: string)
    requires ElementsByTagNameOfAll(cs, name) != []
    requires ElementsByTagNameOfAll(cs, other) == []
    ensures ElementsByTagNameOfAll(ReplaceFirstNamedIn(cs, name, m), other) == ElementsByTagName(m, other)
  {
    var r := ReplaceFirstNamedIn(cs, name, m);
    assert ElementsByTagName(cs[0], other) == [] && ElementsByTagNameOfAll(cs[1..], other) == [];
    if ElementsByTagName(cs[0], name) != [] {
      ReplaceFirstNamedElsewhere(cs[0], name, m, other);
      assert r[0] == ReplaceFirstNamed(cs[0], name, m) && r[1..] == cs[1..];
    } else {
      ReplaceFirstNamedInElsewhere(cs[1..], name, m, other);
      assert r[0] == cs[0] && r[1..] == ReplaceFirstNamedIn(cs[1..], name, m);
    }
  }

  /** In a tree holding no element named `other`, neither does its first element named `name`. */
  lemma {:induction false} FirstNamedHasNone(n: Node, name: string, other: string)
    requires ElementsByTagName(n, name) != []
    requires ElementsByTagName(n, other) == []
    ensures ElementsByTagName(ElementsByTagName(n, name)[0], other) == []
  {
    if n.name != name {
      assert ElementsByTagNameOfAll(n.children, other) == [];
      FirstNamedHasNoneIn(n.children, name, other);
    }
  }

  lemma {:induction false} FirstNamedHasNoneIn(cs: seq<Node>, name: string, other: string)
    requires ElementsByTagNameOfAll(cs, name) != []
    requires ElementsByTagNameOfAll(cs, other) == []
    ensures ElementsByTagName(ElementsByTagNameOfAll(cs, name)[0], other) == []
  {
    assert ElementsByTagName(cs[0], other) == [] && ElementsByTagNameOfAll(cs[1..], other) == [];
    if ElementsByTagName(cs[0], name) != [] {
      FirstNamedHasNone(cs[0], name, other);
    } else {
      FirstNamedHasNoneIn(cs[1..], name, other);
    }
  }

  /**
   * An element being built or changed in place (System.Xml's XmlElement): a fixed name and
   * attributes and a child list that AppendChild extends.
   */
  class XmlElement {
    const name: string
    var attributes: map<string, string>
    var children: seq<Node>

    /** XmlDocument.CreateElement(name): a new element with no attributes and no children. */
    constructor (name: string)
      ensures this.name == name && attributes == map[] && children == []
    {
      this.name := name;
      attributes := map[];
      children := [];
    }

    /** The element `n` of an existing tree, opened for changes in place. */
    constructor Open(n: Node)
      requires n.Element?
      ensures ToNode() == n
    {
      name := n.name;
      attributes := n.attributes;
      children := n.children;
    }

    /** The element as it stands, as a tree value. */
    function ToNode(): (n: Node)
      reads this
      ensures n.Element? && n.name == name && n.attributes == attributes && n.children == children
    {
      Element(name, attributes, children)
    }

    /** XmlElement.SetAttribute: sets (or replaces) one attribute. */
    method SetAttribute(key: string, value: string)
      modifies this
      ensures attributes == old(attributes)[key := value] && children == old(children)
    {
      attributes := attributes[key := value];
    }

    /** XmlNode.AppendChild: `child` becomes the last child; the earlier children stay as they were. */
    method AppendChild(child: Node)
      modifies this
      ensures children == old(children) + [child] && attributes == old(attributes)
    {
      children := children + [child];
    }

    /** Setting XmlElement.InnerText: the children become one text node, even when `s` is empty. */
    method SetInnerText(s: string)
      modifies this
      ensures children == [Text(s)] && attributes == old(attributes)
    {
      children := [Text(s)];
    }
  }
}
