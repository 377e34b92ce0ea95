/**
 * A paragraph (DocxDiff/WordParagraph.cs): its style, its text and its runs, how the
 * constructor reads them from a `w:p` element and how AppendTo writes one back.
 */
module Paragraphs {
  import opened Xml
  import opened Runs

  /** The properties of a paragraph, as a value: the runs are the runs' own values. */
  datatype Paragraph = Paragraph(style: string, text: string, ranges: seq<Run>)

  // ---------------------------------------------------------------------------------------------
  // Reading

  /**
   * The `w:pStyle` children of the elements `pprs`, in document order: what the two-step path
   * "w:pPr/w:pStyle" selects when `pprs` are the `w:pPr` children.
   */
  function StyleElementsOf(pprs: seq<Node>): (r: seq<Node>)
    ensures r == [] <==> forall k :: 0 <= k < |pprs| ==> ChildrenNamed(Children(pprs[k]), "w:pStyle") == []
  {
    if pprs == [] then []
    else ChildrenNamed(Children(pprs[0]), "w:pStyle") + StyleElementsOf(pprs[1..])
  }

  /** SelectSingleNode("w:pPr/w:pStyle")?.Attributes?["w:val"]?.Value ?? "". */
  function StyleOf(paragraphNode: Node): string {
    var styles := StyleElementsOf(ChildrenNamed(Children(paragraphNode), "w:pPr"));
    if styles == [] then "" else AttributeOrEmpty(styles[0], "w:val")
  }

  /** The runs of the nodes `rangeNodes`, one per node, in order. */
  function ParseRuns(rangeNodes: seq<Node>): seq<Run> {
    seq(|rangeNodes|, i requires 0 <= i < |rangeNodes| => ParseRun(rangeNodes[i]))
  }

  /**
   * What the XML constructor reads from the paragraph node: the style, the whole inner text
   * and one run per direct `w:r` child, in document order.
   */
  function ParseParagraph(paragraphNode: Node): Paragraph {
    Paragraph(
      StyleOf(paragraphNode),
      InnerText(paragraphNode),
      ParseRuns(ChildrenNamed(Children(paragraphNode), "w:r")))
  }

  /**
   * The style is the `w:val` of the first `w:pStyle` under the first `w:pPr` that has one;
   * "" when that attribute is missing.
   */
  lemma {:induction false} StyleIsFirst(pprs: seq<Node>, k: nat)
    requires k < |pprs| && ChildrenNamed(Children(pprs[k]), "w:pStyle") != []
    requires forall j :: 0 <= j < k ==> ChildrenNamed(Children(pprs[j]), "w:pStyle") == []
    ensures StyleElementsOf(pprs) != []
    ensures StyleElementsOf(pprs)[0] == ChildrenNamed(Children(pprs[k]), "w:pStyle")[0]
  {
    if k > 0 {
      assert ChildrenNamed(Children(pprs[0]), "w:pStyle") == [];
      assert forall j :: 0 <= j < k - 1 ==> pprs[1..][j] == pprs[j + 1];
      StyleIsFirst(pprs[1..], k - 1);
    }
  }

  /** Without any `w:pPr/w:pStyle` the style is the empty string. */
  lemma NoStyleElement(paragraphNode: Node)
    requires forall k :: 0 <= k < |ChildrenNamed(Children(paragraphNode), "w:pPr")| ==>
               ChildrenNamed(Children(ChildrenNamed(Children(paragraphNode), "w:pPr")[k]), "w:pStyle") == []
    ensures StyleOf(paragraphNode) == ""
  {
  }

  // ---------------------------------------------------------------------------------------------
  // Writing

  /** The `w:r` elements AppendTo writes for the runs `rs`, one per run, in list order. */
  function RunElements(rs: seq<Run>): seq<Node> {
    seq(|rs|, i requires 0 <= i < |rs| => RunElement(rs[i]))
  }

  /** The `w:pPr` element AppendTo writes: exactly one `w:pStyle`, with `w:val` the style, even when it is "". */
  function PropertiesElement(style: string): Node {
    Element("w:pPr", map[], [Element("w:pStyle", map["w:val" := style], [])])
  }

  /** The `w:p` element AppendTo writes: `w:pPr`, then one `w:r` per run. */
  function ParagraphElement(p: Paragraph): Node {
    Element("w:p", map[], [PropertiesElement(p.style)] + RunElements(p.ranges))
  }

  /** The concatenated texts of the runs `rs`. */
  function RangesText(rs: seq<Run>): string {
    if rs == [] then "" else RangesText(rs[..|rs| - 1]) + rs[|rs| - 1].text
  }

  // ---------------------------------------------------------------------------------------------
  // Round trip

  lemma {:induction false} RunElementsRoundTrip(rs: seq<Run>)
    ensures ParseRuns(RunElements(rs)) == rs
  {
    var es := RunElements(rs);
    forall i | 0 <= i < |rs| ensures ParseRuns(es)[i] == rs[i] {
      RunRoundTrip(rs[i]);
    }
  }

  lemma {:induction false} RunElementsText(rs: seq<Run>)
    ensures InnerTextOfAll(RunElements(rs)) == RangesText(rs)
  {
    if rs != [] {
      var init := rs[..|rs| - 1];
      assert RunElements(rs) == RunElements(init) + [RunElement(rs[|rs| - 1])];
      RunElementsText(init);
      InnerTextOfAllAppend(RunElements(init), [RunElement(rs[|rs| - 1])]);
      RunElementInnerText(rs[|rs| - 1]);
      assert InnerTextOfAll([RunElement(rs[|rs| - 1])]) == InnerText(RunElement(rs[|rs| - 1])) + InnerTextOfAll([]);
    }
  }

  lemma {:induction false} RunElementsAreRuns(rs: seq<Run>)
    ensures ChildrenNamed(RunElements(rs), "w:r") == RunElements(rs)
    ensures ChildrenNamed(RunElements(rs), "w:pPr") == []
  {
    if rs != [] {
      var init := rs[..|rs| - 1];
      var last := [RunElement(rs[|rs| - 1])];
      assert RunElements(rs) == RunElements(init) + last;
      RunElementsAreRuns(init);
      ChildrenNamedAppend(RunElements(init), last, "w:r");
      ChildrenNamedAppend(RunElements(init), last, "w:pPr");
      assert last[1..] == [];
    }
  }

  /**
   * Reading back the `w:p` AppendTo writes gives the same style and the same runs, element by
   * element; the text becomes the concatenation of the runs' texts.
   */
  lemma ParagraphRoundTrip(p: Paragraph)
    ensures ParseParagraph(ParagraphElement(p)) == Paragraph(p.style, RangesText(p.ranges), p.ranges)
  {
    var pPr := PropertiesElement(p.style);
    var es := RunElements(p.ranges);
    RunElementsAreRuns(p.ranges);
    ChildrenNamedAppend([pPr], es, "w:r");
    ChildrenNamedAppend([pPr], es, "w:pPr");
    assert [pPr][1..] == [];
    assert ChildrenNamed([pPr], "w:r") == [];
    assert ChildrenNamed([pPr] + es, "w:pPr") == [pPr];
    StyleRoundTrip(p.style);
    RunElementsRoundTrip(p.ranges);
    RunElementsText(p.ranges);
    InnerTextOfAllAppend([pPr], es);
    PropertiesElementText(p.style);
  }

  /** The style AppendTo writes into `w:pPr/w:pStyle` reads back unchanged. */
  lemma StyleRoundTrip(style: string)
    ensures StyleElementsOf([PropertiesElement(style)]) == [Element("w:pStyle", map["w:val" := style], [])]
    ensures AttributeOrEmpty(Element("w:pStyle", map["w:val" := style], []), "w:val") == style
  {
    var pPr := PropertiesElement(style);
    var pStyles := ChildrenNamed(Children(pPr), "w:pStyle");
    assert [pPr][1..] == [];
    assert Children(pPr)[1..] == [];
    assert ChildrenNamed(Children(pPr)[1..], "w:pStyle") == [];
    assert pStyles == Children(pPr);
    assert StyleElementsOf([pPr]) == pStyles + StyleElementsOf([]);
  }

  /** The `w:pPr` element contributes no text. */
  lemma PropertiesElementText(style: string)
    ensures InnerTextOfAll([PropertiesElement(style)]) == ""
  {
    var pPr := PropertiesElement(style);
    var pStyles := Children(pPr);
    assert [pPr][1..] == [];
    assert pStyles[1..] == [];
    assert InnerText(pStyles[0]) == "";
    assert InnerTextOfAll(pStyles) == InnerText(pStyles[0]) + InnerTextOfAll([]);
    assert InnerTextOfAll([pPr]) == InnerText(pPr) + InnerTextOfAll([]);
  }

  /**
   * Only direct `w:r` children become runs: a run under a `w:hyperlink` is skipped, although
   * its text is still part of the paragraph's text, which then differs from the runs' texts.
   */
  lemma NestedRunSkipped()
    ensures var link := Element("w:hyperlink", map[], [Element("w:r", map[], [Text("x")])]);
            var p := ParseParagraph(Element("w:p", map[], [link]));
            p.ranges == [] && p.text == "x" && p.text != RangesText(p.ranges)
  {
    var run := Element("w:r", map[], [Text("x")]);
    var link := Element("w:hyperlink", map[], [run]);
    assert [link][1..] == [];
    assert [run][1..] == [];
    assert [Text("x")][1..] == [];
    assert ChildrenNamed([link], "w:r") == [];
    assert InnerText(run) == "x" + InnerTextOfAll([]);
    assert InnerText(link) == InnerText(run) + InnerTextOfAll([]);
  }

  // ---------------------------------------------------------------------------------------------
  // The paragraph object

  /** The values of the run objects `rs`, in order. */
  function RunValues(rs: seq<WordParagraphRange>): seq<Run>
    reads rs
  {
    seq(|rs|, i requires 0 <= i < |rs| reads rs => rs[i].Value())
  }

  /** A paragraph whose run list the constructor fills one run at a time (WordParagraph). */
  class WordParagraph {
    var style: string
    var text: string
    var ranges: seq<WordParagraphRange>

    /** The paragraph as a value, with each run object replaced by its value. */
    function Value(): Paragraph
      reads this, ranges
    {
      Paragraph(style, text, RunValues(ranges))
    }

    /** The parameterless constructor: no style, no text, no runs. */
    constructor ()
      ensures Value() == Paragraph("", "", [])
    {
      style, text, ranges := "", "", [];
    }

    /** The XML constructor: reads the paragraph node `paragraphNode`, adding one run per direct `w:r` child. */
    constructor FromXml(paragraphNode: Node)
      ensures Value() == ParseParagraph(paragraphNode)
    {
      style := StyleOf(paragraphNode);
      text := InnerText(paragraphNode);
      var rangeObjects := ReadRanges(ChildrenNamed(Children(paragraphNode), "w:r"));
      ranges := rangeObjects;
    }

    /** The constructor's foreach over the `w:r` children: one new run object per node, in order. */
    static method ReadRanges(rangeNodes: seq<Node>) returns (ranges: seq<WordParagraphRange>)
      ensures RunValues(ranges) == ParseRuns(rangeNodes)
    {
      ranges := [];
      ghost var values: seq<Run> := [];
      for i := 0 to |rangeNodes|
        invariant |ranges| == i == |values|
        invariant forall j :: 0 <= j < i ==> ranges[j].Value() == values[j]
        invariant values == ParseRuns(rangeNodes[..i])
      {
        var range := new WordParagraphRange.FromXml(rangeNodes[i]);
        ranges := ranges + [range];
        values := values + [range.Value()];
      }
    }

    /**
     * AppendTo: adds exactly one `w:p`, the one ParagraphElement describes, as the last child of
     * `node`; the earlier children and the attributes of `node` are unchanged.
     */
    method AppendTo(node: XmlElement)
      modifies node
      ensures node.children == old(node.children) + [ParagraphElement(Value())]
      ensures node.attributes == old(node.attributes)
    {
      var mainElement := new XmlElement("w:p");
      var pPrElement := new XmlElement("w:pPr");
      var pStyleElement := new XmlElement("w:pStyle");
      pStyleElement.SetAttribute("w:val", style);
      pPrElement.AppendChild(pStyleElement.ToNode());
      assert pPrElement.ToNode() == PropertiesElement(style);
      mainElement.AppendChild(pPrElement.ToNode());
      AppendRanges(mainElement);
      assert mainElement.ToNode() == ParagraphElement(Value());
      assert node.children == old(node.children);
      node.AppendChild(mainElement.ToNode());
    }

    /** AppendTo's foreach over the runs: each run appends its `w:r` to `mainElement`, in list order. */
    method AppendRanges(mainElement: XmlElement)
      modifies mainElement
      ensures mainElement.children == old(mainElement.children) + RunElements(RunValues(ranges))
      ensures mainElement.attributes == old(mainElement.attributes)
    {
      ghost var values := RunValues(ranges);
      for i := 0 to |ranges|
        invariant mainElement.children == old(mainElement.children) + RunElements(values[..i])
        invariant mainElement.attributes == old(mainElement.attributes)
      {
        ranges[i].AppendTo(mainElement);
        assert RunElements(values[..i + 1]) == RunElements(values[..i]) + [RunElement(values[i])];
      }
      assert values[..|ranges|] == values;
    }
  }
}
