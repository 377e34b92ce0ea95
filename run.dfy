/**
 * A formatted run of text (DocxDiff/WordParagraphRange.cs): its seven properties, how the
 * constructor reads them from a `w:r` element, how AppendTo writes one back, and the HTML
 * rendering.
 */
module Runs {
  import opened Wrappers
  import opened Xml

  /** The seven properties of a run, as a value. */
  datatype Run = Run(
    isBold: bool,
    isItalic: bool,
    isUnderlined: bool,
    color: string,
    text: string,
    highlight: string,
    preserveWhitespace: bool)

  // ---------------------------------------------------------------------------------------------
  // Reading a run

  /** One step of the constructor's switch over the children of `w:rPr`. */
  function ApplyProperty(r: Run, child: Node): Run {
    match Name(child)
    case "w:i" => r.(isItalic := true)
    case "w:b" => r.(isBold := true)
    case "w:u" => r.(isUnderlined := true)
    case "w:color" => r.(color := AttributeOrEmpty(child, "w:val"))
    case "w:highlight" => r.(highlight := AttributeOrEmpty(child, "w:val"))
    case _ => r
  }

  /** The whole switch: the children of `w:rPr` applied one after another, in document order. */
  function ApplyProperties(r: Run, children: seq<Node>): Run {
    if children == [] then r
    else ApplyProperty(ApplyProperties(r, children[..|children| - 1]), children[|children| - 1])
  }

  /** The run the XML constructor builds from the node `rangeNode`. */
  function ParseRun(rangeNode: Node): Run {
    var preserve := match FirstChildNamed(rangeNode, "w:t")
      case Some(t) => Attribute(t, "xml:space").Some?
      case None => false;
    var initial := Run(false, false, false, "", InnerText(rangeNode), "", preserve);
    match FirstChildNamed(rangeNode, "w:rPr")
    case None => initial
    case Some(rPr) => ApplyProperties(initial, ElementChildren(rPr.children))
  }

  /** Some node of `cs` is named `name`. */
  predicate HasNamed(cs: seq<Node>, name: string) {
    exists i :: 0 <= i < |cs| && Name(cs[i]) == name
  }

  /** The last node of `cs` named `name`, if any. */
  function LastNamed(cs: seq<Node>, name: string): (r: Option<Node>)
    ensures r.None? <==> !HasNamed(cs, name)
    ensures r.Some? ==> exists i :: 0 <= i < |cs| && cs[i] == r.value && Name(cs[i]) == name
                                    && forall j :: i < j < |cs| ==> Name(cs[j]) != name
  {
    if cs == [] then None
    else if Name(cs[|cs| - 1]) == name then Some(cs[|cs| - 1])
    else
      var r := LastNamed(cs[..|cs| - 1], name);
      assert forall i :: 0 <= i < |cs| - 1 ==> cs[..|cs| - 1][i] == cs[i];
      r
  }

  /** The `w:val` of the last child named `name`, or `otherwise` when there is no such child. */
  function LastVal(cs: seq<Node>, name: string, otherwise: string): string {
    match LastNamed(cs, name)
    case Some(c) => AttributeOrEmpty(c, "w:val")
    case None => otherwise
  }

  /** One step of the switch: which property a single child sets. */
  lemma ApplyPropertyMeaning(r: Run, child: Node)
    ensures ApplyProperty(r, child).isBold == (r.isBold || Name(child) == "w:b")
    ensures ApplyProperty(r, child).isItalic == (r.isItalic || Name(child) == "w:i")
    ensures ApplyProperty(r, child).isUnderlined == (r.isUnderlined || Name(child) == "w:u")
    ensures ApplyProperty(r, child).color
            == if Name(child) == "w:color" then AttributeOrEmpty(child, "w:val") else r.color
    ensures ApplyProperty(r, child).highlight
            == if Name(child) == "w:highlight" then AttributeOrEmpty(child, "w:val") else r.highlight
    ensures ApplyProperty(r, child).text == r.text
    ensures ApplyProperty(r, child).preserveWhitespace == r.preserveWhitespace
  {
  }

  lemma HasNamedSnoc(cs: seq<Node>, name: string)
    requires cs != []
    ensures HasNamed(cs, name) == (HasNamed(cs[..|cs| - 1], name) || Name(cs[|cs| - 1]) == name)
  {
    var init := cs[..|cs| - 1];
    if HasNamed(init, name) {
      var i :| 0 <= i < |init| && Name(init[i]) == name;
      assert cs[i] == init[i];
    }
    if HasNamed(cs, name) && Name(cs[|cs| - 1]) != name {
      var i :| 0 <= i < |cs| && Name(cs[i]) == name;
      assert i < |init| && init[i] == cs[i];
    }
  }

  lemma HasNamedAppend(a: seq<Node>, b: seq<Node>, name: string)
    ensures HasNamed(a + b, name) == (HasNamed(a, name) || HasNamed(b, name))
  {
    if HasNamed(a, name) {
      var i :| 0 <= i < |a| && Name(a[i]) == name;
      assert (a + b)[i] == a[i];
    }
    if HasNamed(b, name) {
      var i :| 0 <= i < |b| && Name(b[i]) == name;
      assert (a + b)[|a| + i] == b[i];
    }
    if HasNamed(a + b, name) {
      var i :| 0 <= i < |a + b| && Name((a + b)[i]) == name;
      if i < |a| { assert a[i] == (a + b)[i]; } else { assert b[i - |a|] == (a + b)[i]; }
    }
  }

  lemma LastNamedSnoc(cs: seq<Node>, name: string)
    requires cs != []
    ensures LastNamed(cs, name)
            == if Name(cs[|cs| - 1]) == name then Some(cs[|cs| - 1]) else LastNamed(cs[..|cs| - 1], name)
  {
  }

  lemma {:induction false} LastNamedAppend(a: seq<Node>, b: seq<Node>, name: string)
    ensures LastNamed(a + b, name) == if HasNamed(b, name) then LastNamed(b, name) else LastNamed(a, name)
    decreases |b|
  {
    if b == [] {
      assert a + b == a;
    } else {
      var b' := b[..|b| - 1];
      assert (a + b)[..|a + b| - 1] == a + b' && (a + b)[|a + b| - 1] == b[|b| - 1];
      LastNamedSnoc(a + b, name);
      LastNamedSnoc(b, name);
      HasNamedSnoc(b, name);
      LastNamedAppend(a, b', name);
    }
  }

  /**
   * What the switch computes: a flag is set iff it was set before or some child has its name
   * (the child's attributes are never read); a colour is the `w:val` of the last child of its
   * name, "" when that child has no `w:val`; text and the preserve flag are never touched.
   */
  lemma {:induction false} ApplyPropertiesMeaning(r: Run, cs: seq<Node>)
    ensures ApplyProperties(r, cs).isBold == (r.isBold || HasNamed(cs, "w:b"))
    ensures ApplyProperties(r, cs).isItalic == (r.isItalic || HasNamed(cs, "w:i"))
    ensures ApplyProperties(r, cs).isUnderlined == (r.isUnderlined || HasNamed(cs, "w:u"))
    ensures ApplyProperties(r, cs).color == LastVal(cs, "w:color", r.color)
    ensures ApplyProperties(r, cs).highlight == LastVal(cs, "w:highlight", r.highlight)
    ensures ApplyProperties(r, cs).text == r.text
    ensures ApplyProperties(r, cs).preserveWhitespace == r.preserveWhitespace
  {
    if cs != [] {
      var init := cs[..|cs| - 1];
      var last := cs[|cs| - 1];
      ApplyPropertiesMeaning(r, init);
      ApplyPropertyMeaning(ApplyProperties(r, init), last);
      HasNamedSnoc(cs, "w:b");
      HasNamedSnoc(cs, "w:i");
      HasNamedSnoc(cs, "w:u");
      LastNamedSnoc(cs, "w:color");
      LastNamedSnoc(cs, "w:highlight");
    }
  }

  /**
   * The constructor's reading of a run node: Text is the node's whole inner text (not only that of
   * `w:t`), the preserve flag is the presence of `xml:space` on the first `w:t` child (any value),
   * the flags and colours come from the direct children of the first `w:rPr` child, and without
   * a `w:rPr` child every property keeps its default.
   */
  lemma ParseRunMeaning(n: Node)
    ensures ParseRun(n).text == InnerText(n)
    ensures ParseRun(n).preserveWhitespace
            == (FirstChildNamed(n, "w:t").Some? && "xml:space" in FirstChildNamed(n, "w:t").value.attributes)
    ensures FirstChildNamed(n, "w:rPr").None? ==>
              && !ParseRun(n).isBold && !ParseRun(n).isItalic && !ParseRun(n).isUnderlined
              && ParseRun(n).color == "" && ParseRun(n).highlight == ""
    ensures FirstChildNamed(n, "w:rPr").Some? ==>
              var props := ElementChildren(FirstChildNamed(n, "w:rPr").value.children);
              && ParseRun(n).isBold == HasNamed(props, "w:b")
              && ParseRun(n).isItalic == HasNamed(props, "w:i")
              && ParseRun(n).isUnderlined == HasNamed(props, "w:u")
              && ParseRun(n).color == LastVal(props, "w:color", "")
              && ParseRun(n).highlight == LastVal(props, "w:highlight", "")
  {
    var preserve := match FirstChildNamed(n, "w:t")
      case Some(t) => Attribute(t, "xml:space").Some?
      case None => false;
    var initial := Run(false, false, false, "", InnerText(n), "", preserve);
    match FirstChildNamed(n, "w:rPr")
    case None =>
    case Some(rPr) => ApplyPropertiesMeaning(initial, ElementChildren(rPr.children));
  }

  // ---------------------------------------------------------------------------------------------
  // Writing a run

  /** An element with no attributes and no children. */
  function EmptyElement(name: string): Node {
    Element(name, map[], [])
  }

  /** Position of a formatting element in the order AppendTo writes them. */
  function PropertyRank(name: string): int {
    match name
    case "w:b" => 0
    case "w:bCs" => 1
    case "w:i" => 2
    case "w:iCs" => 3
    case "w:u" => 4
    case "w:color" => 5
    case "w:highlight" => 6
    case _ => -1
  }

  /** The children AppendTo writes into `w:rPr`, in the order it appends them. */
  function RunPropertyElements(r: Run): seq<Node> {
    BoldElements(r) + ItalicElements(r) + UnderlineElements(r) + ColorElements(r) + HighlightElements(r)
  }

  function BoldElements(r: Run): seq<Node> {
    if r.isBold then [EmptyElement("w:b"), EmptyElement("w:bCs")] else []
  }

  function ItalicElements(r: Run): seq<Node> {
    if r.isItalic then [EmptyElement("w:i"), EmptyElement("w:iCs")] else []
  }

  function UnderlineElements(r: Run): seq<Node> {
    if r.isUnderlined then [Element("w:u", map["w:val" := "single"], [])] else []
  }

  function ColorElements(r: Run): seq<Node> {
    if r.color != "" then [Element("w:color", map["w:val" := r.color], [])] else []
  }

  function HighlightElements(r: Run): seq<Node> {
    if r.highlight != "" then [Element("w:highlight", map["w:val" := r.highlight], [])] else []
  }

  /** The `w:t` attributes: `xml:space="preserve"` iff the preserve flag is set. */
  function TextAttributes(r: Run): map<string, string> {
    if r.preserveWhitespace then map["xml:space" := "preserve"] else map[]
  }

  /** The `w:r` element AppendTo writes: `w:rPr` (always, even when empty), then `w:t` holding the text. */
  function RunElement(r: Run): Node {
    Element("w:r", map[], [
      Element("w:rPr", map[], RunPropertyElements(r)),
      Element("w:t", TextAttributes(r), [Text(r.text)])])
  }

  /** The formatting elements of `cs` come in strictly increasing rank, each rank in [lo, hi). */
  predicate RanksIn(cs: seq<Node>, lo: int, hi: int) {
    && (forall i :: 0 <= i < |cs| ==> lo <= PropertyRank(Name(cs[i])) < hi)
    && (forall i, j :: 0 <= i < j < |cs| ==> PropertyRank(Name(cs[i])) < PropertyRank(Name(cs[j])))
  }

  lemma RanksInAppend(a: seq<Node>, b: seq<Node>, lo: int, mid: int, hi: int)
    requires lo <= mid <= hi
    requires RanksIn(a, lo, mid) && RanksIn(b, mid, hi)
    ensures RanksIn(a + b, lo, hi)
  {
    forall i | 0 <= i < |a + b| ensures lo <= PropertyRank(Name((a + b)[i])) < hi {
      if i < |a| { assert (a + b)[i] == a[i]; } else { assert (a + b)[i] == b[i - |a|]; }
    }
    forall i, j | 0 <= i < j < |a + b|
      ensures PropertyRank(Name((a + b)[i])) < PropertyRank(Name((a + b)[j]))
    {
      if j < |a| {
        assert (a + b)[i] == a[i] && (a + b)[j] == a[j];
      } else if i < |a| {
        assert (a + b)[i] == a[i] && (a + b)[j] == b[j - |a|];
      } else {
        assert (a + b)[i] == b[i - |a|] && (a + b)[j] == b[j - |a|];
      }
    }
  }

  /** A one- or two-element piece names only what it holds. */
  lemma HasNamedSmall(cs: seq<Node>, name: string)
    requires |cs| <= 2
    ensures HasNamed(cs, name) == ((|cs| >= 1 && Name(cs[0]) == name) || (|cs| == 2 && Name(cs[1]) == name))
  {
  }

  lemma PiecesNamed(r: Run, name: string)
    ensures var b, i, u, c, h := BoldElements(r), ItalicElements(r), UnderlineElements(r), ColorElements(r), HighlightElements(r);
      && HasNamed(b + i, name) == (HasNamed(b, name) || HasNamed(i, name))
      && HasNamed(b + i + u, name) == (HasNamed(b + i, name) || HasNamed(u, name))
      && HasNamed(b + i + u + c, name) == (HasNamed(b + i + u, name) || HasNamed(c, name))
      && HasNamed(RunPropertyElements(r), name) == (HasNamed(b + i + u + c, name) || HasNamed(h, name))
      && HasNamed(b, name) == (r.isBold && (name == "w:b" || name == "w:bCs"))
      && HasNamed(i, name) == (r.isItalic && (name == "w:i" || name == "w:iCs"))
      && HasNamed(u, name) == (r.isUnderlined && name == "w:u")
      && HasNamed(c, name) == (r.color != "" && name == "w:color")
      && HasNamed(h, name) == (r.highlight != "" && name == "w:highlight")
  {
    var b, i, u, c, h := BoldElements(r), ItalicElements(r), UnderlineElements(r), ColorElements(r), HighlightElements(r);
    HasNamedSmall(b, name);
    HasNamedSmall(i, name);
    HasNamedSmall(u, name);
    HasNamedSmall(c, name);
    HasNamedSmall(h, name);
    HasNamedAppend(b, i, name);
    HasNamedAppend(b + i, u, name);
    HasNamedAppend(b + i + u, c, name);
    HasNamedAppend(b + i + u + c, h, name);
  }

  lemma PieceRanks(r: Run)
    ensures RanksIn(BoldElements(r), 0, 2) && RanksIn(ItalicElements(r), 2, 4)
    ensures RanksIn(UnderlineElements(r), 4, 5) && RanksIn(ColorElements(r), 5, 6)
    ensures RanksIn(HighlightElements(r), 6, 7)
  {
    assert PropertyRank("w:b") == 0 && PropertyRank("w:bCs") == 1;
    PairRanks(BoldElements(r), 0);
    assert PropertyRank("w:i") == 2 && PropertyRank("w:iCs") == 3;
    PairRanks(ItalicElements(r), 2);
    assert PropertyRank("w:u") == 4;
    SingleRanks(UnderlineElements(r), 4);
    assert PropertyRank("w:color") == 5;
    SingleRanks(ColorElements(r), 5);
    assert PropertyRank("w:highlight") == 6;
    SingleRanks(HighlightElements(r), 6);
  }

  lemma PairRanks(cs: seq<Node>, lo: int)
    requires cs == [] || (|cs| == 2 && PropertyRank(Name(cs[0])) == lo && PropertyRank(Name(cs[1])) == lo + 1)
    ensures RanksIn(cs, lo, lo + 2)
  {
  }

  lemma SingleRanks(cs: seq<Node>, lo: int)
    requires cs == [] || (|cs| == 1 && PropertyRank(Name(cs[0])) == lo)
    ensures RanksIn(cs, lo, lo + 1)
  {
  }

  /**
   * AppendTo writes the formatting elements of `w:rPr` without children and in strictly
   * increasing rank: each at most once, in the fixed order b, bCs, i, iCs, u, color, highlight.
   */
  lemma RunPropertyElementsOrdered(r: Run)
    ensures RanksIn(RunPropertyElements(r), 0, 7)
  {
    var b, i, u, c, h := BoldElements(r), ItalicElements(r), UnderlineElements(r), ColorElements(r), HighlightElements(r);
    PieceRanks(r);
    RanksInAppend(b, i, 0, 2, 4);
    RanksInAppend(b + i, u, 0, 4, 5);
    RanksInAppend(b + i + u, c, 0, 5, 6);
    RanksInAppend(b + i + u + c, h, 0, 6, 7);
  }

  /** AppendTo writes the formatting elements of `w:rPr` as elements without children. */
  lemma RunPropertyElementsChildless(r: Run)
    ensures Childless(RunPropertyElements(r))
  {
    var b, i, u, c, h := BoldElements(r), ItalicElements(r), UnderlineElements(r), ColorElements(r), HighlightElements(r);
    assert Childless(b) && Childless(i) && Childless(u) && Childless(c) && Childless(h);
    ChildlessAppend(b, i);
    ChildlessAppend(b + i, u);
    ChildlessAppend(b + i + u, c);
    ChildlessAppend(b + i + u + c, h);
  }

  /** Every node of `cs` is an element without children. */
  predicate Childless(cs: seq<Node>) {
    forall i :: 0 <= i < |cs| ==> cs[i].Element? && cs[i].children == []
  }

  lemma ChildlessAppend(a: seq<Node>, b: seq<Node>)
    requires Childless(a) && Childless(b)
    ensures Childless(a + b)
  {
    forall i | 0 <= i < |a + b| ensures (a + b)[i].Element? && (a + b)[i].children == [] {
      if i < |a| { assert (a + b)[i] == a[i]; } else { assert (a + b)[i] == b[i - |a|]; }
    }
  }

  /**
   * Each formatting element appears iff its property is set: b and bCs iff bold, i and iCs iff
   * italic, u iff underlined, color and highlight iff their value is non-empty.
   */
  lemma RunPropertyElementsPresence(r: Run)
    ensures HasNamed(RunPropertyElements(r), "w:b") == r.isBold
    ensures HasNamed(RunPropertyElements(r), "w:bCs") == r.isBold
    ensures HasNamed(RunPropertyElements(r), "w:i") == r.isItalic
    ensures HasNamed(RunPropertyElements(r), "w:iCs") == r.isItalic
    ensures HasNamed(RunPropertyElements(r), "w:u") == r.isUnderlined
    ensures HasNamed(RunPropertyElements(r), "w:color") == (r.color != "")
    ensures HasNamed(RunPropertyElements(r), "w:highlight") == (r.highlight != "")
  {
    PiecesNamed(r, "w:b");
    PiecesNamed(r, "w:bCs");
    PiecesNamed(r, "w:i");
    PiecesNamed(r, "w:iCs");
    PiecesNamed(r, "w:u");
    PiecesNamed(r, "w:color");
    PiecesNamed(r, "w:highlight");
  }

  /** The color element carries the run's colour: reading back the last one gives `color`. */
  lemma ColorElementValue(r: Run)
    ensures LastVal(RunPropertyElements(r), "w:color", "") == r.color
  {
    if r.color != "" {
      ColorElementPresent(r);
    } else {
      PiecesNamed(r, "w:color");
    }
  }

  /** With a colour set, the single w:color element, after which only w:highlight may follow, is the last one. */
  lemma ColorElementPresent(r: Run)
    requires r.color != ""
    ensures LastNamed(RunPropertyElements(r), "w:color") == Some(ColorElements(r)[0])
  {
    var b, i, u, c, h := BoldElements(r), ItalicElements(r), UnderlineElements(r), ColorElements(r), HighlightElements(r);
    HasNamedSmall(h, "w:color");
    HasNamedSmall(c, "w:color");
    LastNamedAppend(b + i + u + c, h, "w:color");
    LastNamedAppend(b + i + u, c, "w:color");
    assert c[..0] == [];
  }

  /** The highlight element carries the run's highlight: reading back the last one gives `highlight`. */
  lemma HighlightElementValue(r: Run)
    ensures LastVal(RunPropertyElements(r), "w:highlight", "") == r.highlight
  {
    var b, i, u, c, h := BoldElements(r), ItalicElements(r), UnderlineElements(r), ColorElements(r), HighlightElements(r);
    var x := b + i + u + c;
    PiecesNamed(r, "w:highlight");
    LastNamedAppend(x, h, "w:highlight");
    if r.highlight != "" {
      assert h[..0] == [];
      assert LastNamed(h, "w:highlight") == Some(h[0]);
    } else {
      assert LastNamed(RunPropertyElements(r), "w:highlight") == None;
    }
  }

  /** The u element carries val="single". */
  lemma UnderlineElementValue(r: Run)
    ensures forall k :: 0 <= k < |RunPropertyElements(r)| && Name(RunPropertyElements(r)[k]) == "w:u" ==>
              RunPropertyElements(r)[k].attributes == map["w:val" := "single"]
  {
    var b, i, u, c, h := BoldElements(r), ItalicElements(r), UnderlineElements(r), ColorElements(r), HighlightElements(r);
    var props := RunPropertyElements(r);
    forall k | 0 <= k < |props| && Name(props[k]) == "w:u"
      ensures props[k].attributes == map["w:val" := "single"]
    {
      if |b + i| <= k < |b + i + u| {
        assert props[k] == u[k - |b + i|];
      }
    }
  }

  /** The element AppendTo writes holds the run's text as its whole inner text. */
  lemma RunElementInnerText(r: Run)
    ensures InnerText(RunElement(r)) == r.text
  {
    var props := RunPropertyElements(r);
    assert InnerTextOfAll(props) == "" by {
      RunPropertyElementsChildless(r);
      EmptyElementsHaveNoText(props);
    }
    var t := Element("w:t", TextAttributes(r), [Text(r.text)]);
    assert InnerTextOfAll([Text(r.text)]) == r.text by {
      assert [Text(r.text)][1..] == [];
      assert InnerTextOfAll([]) == "";
    }
    assert InnerText(t) == r.text;
    var cs := [Element("w:rPr", map[], props), t];
    assert cs[1..] == [t] && InnerTextOfAll([t]) == InnerText(t) + InnerTextOfAll([]) by {
      assert [t][1..] == [];
    }
    assert InnerTextOfAll(cs) == InnerText(cs[0]) + InnerTextOfAll([t]);
  }

  lemma {:induction false} EmptyElementsHaveNoText(cs: seq<Node>)
    requires Childless(cs)
    ensures InnerTextOfAll(cs) == ""
  {
    if cs != [] {
      EmptyElementsHaveNoText(cs[1..]);
    }
  }

  /** Reading back the formatting elements AppendTo writes restores the flags and colours. */
  lemma ReadBackProperties(r: Run)
    ensures ApplyProperties(Run(false, false, false, "", r.text, "", r.preserveWhitespace), RunPropertyElements(r)) == r
  {
    var initial := Run(false, false, false, "", r.text, "", r.preserveWhitespace);
    ApplyPropertiesMeaning(initial, RunPropertyElements(r));
    RunPropertyElementsPresence(r);
    ColorElementValue(r);
    HighlightElementValue(r);
  }

  /** The first `w:t` and the first `w:rPr` child of the element AppendTo writes are the ones it wrote. */
  lemma RunElementChildren(r: Run)
    ensures FirstChildNamed(RunElement(r), "w:rPr") == Some(Element("w:rPr", map[], RunPropertyElements(r)))
    ensures FirstChildNamed(RunElement(r), "w:t") == Some(Element("w:t", TextAttributes(r), [Text(r.text)]))
  {
    var rPr := Element("w:rPr", map[], RunPropertyElements(r));
    var t := Element("w:t", TextAttributes(r), [Text(r.text)]);
    assert ChildrenNamed([t], "w:t") == [t] && ChildrenNamed([t], "w:rPr") == [] by {
      assert [t][1..] == [];
    }
    assert ChildrenNamed([rPr, t], "w:t") == [t] && ChildrenNamed([rPr, t], "w:rPr") == [rPr] by {
      assert [rPr, t][1..] == [t];
    }
  }

  /** Round trip: reading the `w:r` element AppendTo writes gives back the same run, in all seven properties. */
  lemma RunRoundTrip(r: Run)
    ensures ParseRun(RunElement(r)) == r
  {
    RunElementChildren(r);
    RunElementInnerText(r);
    RunPropertyElementsChildless(r);
    AllElements(RunPropertyElements(r));
    ReadBackProperties(r);
  }

  lemma {:induction false} AllElements(cs: seq<Node>)
    requires forall i :: 0 <= i < |cs| ==> cs[i].Element?
    ensures ElementChildren(cs) == cs
  {
    if cs != [] {
      AllElements(cs[1..]);
    }
  }

  // ---------------------------------------------------------------------------------------------
  // HTML

  /** The list of `key: value` style declarations AttachStyles builds: colour, then background, dropping empty values. */
  function StyleDeclarations(color: string, highlight: string): seq<string> {
    (if color != "" then ["color: " + color] else [])
    + (if highlight != "" then ["background-color: " + highlight] else [])
  }

  /** string.Join(separator, items). */
  function Join(separator: char, items: seq<string>): string {
    if items == [] then ""
    else if |items| == 1 then items[0]
    else items[0] + [separator] + Join(separator, items[1..])
  }

  /**
   * What AttachStyles appends: nothing when both colours are empty, otherwise a `style`
   * attribute holding the non-empty ones, colour first, separated by ';'.
   */
  function StyleAttribute(color: string, highlight: string): (s: string)
    ensures s == "" <==> color == "" && highlight == ""
    ensures color != "" && highlight != "" ==>
              s == " style=\"" + ("color: " + color) + ";" + ("background-color: " + highlight) + "\""
    ensures color != "" && highlight == "" ==> s == " style=\"" + ("color: " + color) + "\""
    ensures color == "" && highlight != "" ==> s == " style=\"" + ("background-color: " + highlight) + "\""
  {
    var declarations := StyleDeclarations(color, highlight);
    assert |declarations| == 2 ==> declarations[1..] == [declarations[1]] && Join(';', declarations) == declarations[0] + ";" + declarations[1];
    if |declarations| > 0 then " style=\"" + Join(';', declarations) + "\"" else ""
  }

  /** The inline tags ToHTML opens, outermost first: i, then b, then u, each iff its flag is set. */
  function InlineTags(r: Run): (tags: seq<string>)
    ensures ("i" in tags) == r.isItalic && ("b" in tags) == r.isBold && ("u" in tags) == r.isUnderlined
    ensures |tags| == (if r.isItalic then 1 else 0) + (if r.isBold then 1 else 0) + (if r.isUnderlined then 1 else 0)
  {
    (if r.isItalic then ["i"] else []) + (if r.isBold then ["b"] else []) + (if r.isUnderlined then ["u"] else [])
  }

  /** `inner` wrapped in the tags, the first outermost: every tag is closed inside the one opened before it. */
  function Wrap(tags: seq<string>, inner: string): string {
    if tags == [] then inner else "<" + tags[0] + ">" + Wrap(tags[1..], inner) + "</" + tags[0] + ">"
  }

  /** The opening tag `<tag>` when `flag` is set, nothing otherwise. */
  function Open(flag: bool, tag: string): string {
    if flag then "<" + tag + ">" else ""
  }

  /** The closing tag `</tag>` when `flag` is set, nothing otherwise. */
  function Close(flag: bool, tag: string): string {
    if flag then "</" + tag + ">" else ""
  }

  /** The opening tags ToHTML writes before the text, in the order it writes them. */
  function OpenTags(r: Run): string {
    Open(r.isItalic, "i") + Open(r.isBold, "b") + Open(r.isUnderlined, "u")
  }

  /** The closing tags ToHTML writes after the text, in the order it writes them. */
  function CloseTags(r: Run): string {
    Close(r.isUnderlined, "u") + Close(r.isBold, "b") + Close(r.isItalic, "i")
  }

  /** Wrapping in an optional outermost tag adds that tag's opening and closing tag around the rest. */
  lemma WrapOptional(flag: bool, tag: string, rest: seq<string>, inner: string)
    ensures Wrap((if flag then [tag] else []) + rest, inner) == Open(flag, tag) + Wrap(rest, inner) + Close(flag, tag)
  {
    if flag { assert ([tag] + rest)[1..] == rest; } else { assert [] + rest == rest; }
  }

  /** Writing the opening tags, the text and the closing tags one after another nests the tags properly. */
  lemma WrapInlineTags(r: Run, inner: string)
    ensures OpenTags(r) + inner + CloseTags(r) == Wrap(InlineTags(r), inner)
  {
    var tu := if r.isUnderlined then ["u"] else [];
    var tb := if r.isBold then ["b"] else [];
    var ti := if r.isItalic then ["i"] else [];
    WrapOptional(r.isUnderlined, "u", [], inner);
    assert tu + [] == tu;
    WrapOptional(r.isBold, "b", tu, inner);
    WrapOptional(r.isItalic, "i", tb + tu, inner);
    assert InlineTags(r) == ti + (tb + tu);
    var oi, ob, ou := Open(r.isItalic, "i"), Open(r.isBold, "b"), Open(r.isUnderlined, "u");
    var cu, cb, ci := Close(r.isUnderlined, "u"), Close(r.isBold, "b"), Close(r.isItalic, "i");
    Nest(oi, ob, ou, inner, cu, cb, ci);
  }

  /** Concatenation is associative. */
  lemma Associative<T>(a: seq<T>, b: seq<T>, c: seq<T>)
    ensures a + b + c == a + (b + c)
  {}

  /** Regrouping five pieces written one after another. */
  lemma Regroup(a: string, b: string, c: string, d: string, e: string)
    ensures a + b + c + d + e == a + (b + c + d) + e
  {}

  /** Regrouping the seven pieces ToHTML writes around the text. */
  lemma Nest(oi: string, ob: string, ou: string, inner: string, cu: string, cb: string, ci: string)
    ensures (oi + ob + ou) + inner + (cu + cb + ci) == oi + (ob + (ou + inner + cu) + cb) + ci
  {}

  // ---------------------------------------------------------------------------------------------
  // The run object

  /** A run whose properties the constructor sets one at a time (WordParagraphRange). */
  class WordParagraphRange {
    var isBold: bool
    var isItalic: bool
    var isUnderlined: bool
    var color: string
    var text: string
    var highlight: string
    var preserveWhitespace: bool

    /** The run's properties as a value. */
    function Value(): Run
      reads this
    {
      Run(isBold, isItalic, isUnderlined, color, text, highlight, preserveWhitespace)
    }

    /** The parameterless constructor: every property at its default. */
    constructor ()
      ensures Value() == Run(false, false, false, "", "", "", false)
    {
      isBold, isItalic, isUnderlined := false, false, false;
      color, text, highlight := "", "", "";
      preserveWhitespace := false;
    }

    /** The XML constructor: reads the properties of the run node `rangeNode`. */
    constructor FromXml(rangeNode: Node)
      ensures Value() == ParseRun(rangeNode)
    {
      isBold, isItalic, isUnderlined := false, false, false;
      color, highlight := "", "";
      text := InnerText(rangeNode);
      var t := FirstChildNamed(rangeNode, "w:t");
      preserveWhitespace := t.Some? && Attribute(t.value, "xml:space").Some?;
      new;
      var rPr := FirstChildNamed(rangeNode, "w:rPr");
      if rPr.None? {
        return;
      }
      ReadProperties(ElementChildren(rPr.value.children));
    }

    /** The constructor's foreach over the children of `w:rPr`, applying the switch to each in turn. */
    method ReadProperties(children: seq<Node>)
      modifies this
      ensures Value() == ApplyProperties(old(Value()), children)
    {
      for i := 0 to |children|
        invariant Value() == ApplyProperties(old(Value()), children[..i])
      {
        assert children[..i + 1][..i] == children[..i];
        ReadProperty(children[i]);
      }
      assert children[..|children|] == children;
    }

    /** One case of the constructor's switch: the property the child `child` of `w:rPr` sets. */
    method ReadProperty(child: Node)
      modifies this
      ensures Value() == ApplyProperty(old(Value()), child)
    {
      match Name(child) {
        case "w:i" => isItalic := true;
        case "w:b" => isBold := true;
        case "w:u" => isUnderlined := true;
        case "w:color" => color := AttributeOrEmpty(child, "w:val");
        case "w:highlight" => highlight := AttributeOrEmpty(child, "w:val");
        case _ =>
      }
    }

    /** ToHTML: a span, styled when a colour is set, around the text wrapped in the i, b and u tags. */
    method ToHTML() returns (html: string)
      ensures html == "<span" + StyleAttribute(color, highlight) + ">"
                      + Wrap(InlineTags(Value()), text) + "</span>"
    {
      html := "<span";
      html := AttachStyles(html);
      html := html + ">";
      ghost var head := html;
      html := AppendOpenTags(html);
      html := html + text;
      html := AppendCloseTags(html);
      html := html + "</span>";
      WrapInlineTags(Value(), text);
      Regroup(head, OpenTags(Value()), text, CloseTags(Value()), "</span>");
    }

    /** The three ifs of ToHTML that open the i, b and u tags. */
    method AppendOpenTags(html: string) returns (result: string)
      ensures result == html + OpenTags(Value())
    {
      ghost var oi, ob, ou := Open(isItalic, "i"), Open(isBold, "b"), Open(isUnderlined, "u");
      result := html;
      if isItalic { result := result + "<i>"; }
      assert result == html + oi;
      if isBold { result := result + "<b>"; }
      assert result == html + oi + ob;
      if isUnderlined { result := result + "<u>"; }
      assert result == html + oi + ob + ou;
      Associative(html, oi + ob, ou);
      Associative(html, oi, ob);
    }

    /** The three ifs of ToHTML that close the u, b and i tags. */
    method AppendCloseTags(html: string) returns (result: string)
      ensures result == html + CloseTags(Value())
    {
      ghost var cu, cb, ci := Close(isUnderlined, "u"), Close(isBold, "b"), Close(isItalic, "i");
      result := html;
      if isUnderlined { result := result + "</u>"; }
      assert result == html + cu;
      if isBold { result := result + "</b>"; }
      assert result == html + cu + cb;
      if isItalic { result := result + "</i>"; }
      assert result == html + cu + cb + ci;
      Associative(html, cu + cb, ci);
      Associative(html, cu, cb);
    }

    /** AttachStyles: appends the style attribute to the HTML built so far. */
    method AttachStyles(html: string) returns (result: string)
      ensures result == html + StyleAttribute(color, highlight)
    {
      var styleList := StyleDeclarations(color, highlight);
      result := html;
      if |styleList| > 0 {
        result := result + " style=\"" + Join(';', styleList) + "\"";
      }
    }

    /**
     * AppendTo: adds exactly one `w:r` element, the one RunElement describes, as the last child
     * of `node`; the earlier children and the attributes of `node` are unchanged.
     */
    method AppendTo(node: XmlElement)
      modifies node
      ensures node.children == old(node.children) + [RunElement(Value())]
      ensures node.attributes == old(node.attributes)
    {
      var rElement := new XmlElement("w:r");
      var rPrElement := BuildRunProperties();
      rElement.AppendChild(rPrElement.ToNode());
      var tElement := BuildText();
      rElement.AppendChild(tElement.ToNode());
      assert rElement.children == [RunElement(Value()).children[0], RunElement(Value()).children[1]];
      node.AppendChild(rElement.ToNode());
    }

    /** The part of AppendTo that builds `w:rPr`: one formatting element per property set, in a fixed order. */
    method BuildRunProperties() returns (rPrElement: XmlElement)
      ensures fresh(rPrElement)
      ensures rPrElement.ToNode() == Element("w:rPr", map[], RunPropertyElements(Value()))
    {
      rPrElement := new XmlElement("w:rPr");
      AppendBoldElements(rPrElement);
      assert rPrElement.children == BoldElements(Value());
      AppendItalicElements(rPrElement);
      AppendUnderlineElement(rPrElement);
      AppendColorElement(rPrElement);
      AppendHighlightElement(rPrElement);
    }

    /** `w:b` and `w:bCs` when the run is bold. */
    method AppendBoldElements(rPrElement: XmlElement)
      modifies rPrElement
      ensures rPrElement.children == old(rPrElement.children) + BoldElements(Value())
      ensures rPrElement.attributes == old(rPrElement.attributes)
    {
      var bElement := new XmlElement("w:b");
      if isBold {
        rPrElement.AppendChild(bElement.ToNode());
        var bCsElement := new XmlElement("w:bCs");
        rPrElement.AppendChild(bCsElement.ToNode());
      }
    }

    /** `w:i` and `w:iCs` when the run is italic. */
    method AppendItalicElements(rPrElement: XmlElement)
      modifies rPrElement
      ensures rPrElement.children == old(rPrElement.children) + ItalicElements(Value())
      ensures rPrElement.attributes == old(rPrElement.attributes)
    {
      if isItalic {
        var iElement := new XmlElement("w:i");
        rPrElement.AppendChild(iElement.ToNode());
        var iCsElement := new XmlElement("w:iCs");
        rPrElement.AppendChild(iCsElement.ToNode());
      }
    }

    /** `w:u` with `w:val="single"` when the run is underlined. */
    method AppendUnderlineElement(rPrElement: XmlElement)
      modifies rPrElement
      ensures rPrElement.children == old(rPrElement.children) + UnderlineElements(Value())
      ensures rPrElement.attributes == old(rPrElement.attributes)
    {
      if isUnderlined {
        var uElement := new XmlElement("w:u");
        uElement.SetAttribute("w:val", "single");
        rPrElement.AppendChild(uElement.ToNode());
      }
    }

    /** `w:color` carrying the colour when one is set. */
    method AppendColorElement(rPrElement: XmlElement)
      modifies rPrElement
      ensures rPrElement.children == old(rPrElement.children) + ColorElements(Value())
      ensures rPrElement.attributes == old(rPrElement.attributes)
    {
      if color != "" {
        var colorElement := new XmlElement("w:color");
        colorElement.SetAttribute("w:val", color);
        rPrElement.AppendChild(colorElement.ToNode());
      }
    }

    /** `w:highlight` carrying the highlight colour when one is set. */
    method AppendHighlightElement(rPrElement: XmlElement)
      modifies rPrElement
      ensures rPrElement.children == old(rPrElement.children) + HighlightElements(Value())
      ensures rPrElement.attributes == old(rPrElement.attributes)
    {
      if highlight != "" {
        var highlightElement := new XmlElement("w:highlight");
        highlightElement.SetAttribute("w:val", highlight);
        rPrElement.AppendChild(highlightElement.ToNode());
      }
    }

    /** The part of AppendTo that builds `w:t`: the text, marked `xml:space="preserve"` when the flag is set. */
    method BuildText() returns (tElement: XmlElement)
      ensures fresh(tElement)
      ensures tElement.ToNode() == Element("w:t", TextAttributes(Value()), [Text(text)])
    {
      tElement := new XmlElement("w:t");
      if preserveWhitespace {
        tElement.SetAttribute("xml:space", "preserve");
      }
      tElement.SetInnerText(text);
    }
  }
}
