/** The markup string `CodeSegment` in src/components/Activity.tsx shows
    for a recorded element: `<name k="v" ...> </name>`, built from the same
    element name and attribute pairs the tracker records. Nothing is
    escaped. */
module Markup {
  import opened Results
  import opened Strings
  import opened Entities

  /** One attribute as `name="value"`. */
  function AttributeText(a: Attribute): string
  {
    a.name + "=\"" + a.value + "\""
  }

  /** The attributes in the given order, joined with single spaces. */
  function AttributeList(attributes: seq<Attribute>): string
  {
    if attributes == [] then ""
    else if |attributes| == 1 then AttributeText(attributes[0])
    else AttributeText(attributes[0]) + " " + AttributeList(attributes[1..])
  }

  /** `CodeSegment`'s `code`: the opening tag with a space after the name,
      the attribute list, and an empty-content closing tag. */
  function CodeSegment(element: TargetElement): string
  {
    "<" + element.elementName + " " + AttributeList(element.attributes) + "> </" + element.elementName + ">"
  }

  // ---------------------------------------------------------------------
  // Shape of the markup

  /** With no attributes the space after the name stays: `<name > </name>`. */
  lemma NoAttributesMarkup(name: string)
    ensures CodeSegment(TargetElement(name, [])) == "<" + name + " > </" + name + ">"
  {
  }

  /** Joining two non-empty lists puts exactly one space between them:
      every attribute contributes once, in order. */
  lemma {:induction false} AttributeListAppend(a: seq<Attribute>, b: seq<Attribute>)
    requires a != [] && b != []
    ensures AttributeList(a + b) == AttributeList(a) + " " + AttributeList(b)
    decreases |a|
  {
    if |a| == 1 {
      assert (a + b)[1..] == b;
    } else {
      assert (a + b)[1..] == a[1..] + b;
      AttributeListAppend(a[1..], b);
    }
  }

  /** A value holding `"` forges attribute boundaries: `a` with value
      `x" b="y` shows as the two attributes `a="x"` and `b="y"`. */
  lemma UnescapedQuoteForgesMarkup()
    ensures var forged := [Attribute("a", "x\" b=\"y")];
            var honest := [Attribute("a", "x"), Attribute("b", "y")];
            forged != honest && AttributeList(forged) == AttributeList(honest)
  {
    var honest := [Attribute("a", "x"), Attribute("b", "y")];
    assert honest[1..] == [Attribute("b", "y")];
  }

  // ---------------------------------------------------------------------
  // Reading the markup back

  /** Each attribute preceded by one space: `" " + AttributeList(attributes)`
      for a non-empty list, as `AttributesSpaced` shows. */
  function Spaced(attributes: seq<Attribute>): string
  {
    if attributes == [] then "" else " " + AttributeText(attributes[0]) + Spaced(attributes[1..])
  }

  /** Putting one space in front of the list gives every item its own
      leading space. */
  lemma {:induction false} AttributesSpaced(attributes: seq<Attribute>)
    requires attributes != []
    ensures " " + AttributeList(attributes) == Spaced(attributes)
    decreases |attributes|
  {
    if |attributes| == 1 {
      assert attributes[1..] == [];
    } else {
      AttributesSpaced(attributes[1..]);
      assert " " + AttributeList(attributes) == " " + AttributeText(attributes[0]) + (" " + AttributeList(attributes[1..]));
    }
  }

  /** Where the first ` name="value"` of `s` has its `=` and its closing
      `"`: the name runs to the first `=`, the value to the next `"`. */
  function SpacedBounds(s: string): (r: Option<(nat, nat)>)
    ensures r.Some? ==> 1 <= r.value.0 && r.value.0 + 2 <= r.value.1 && r.value.1 + 1 <= |s|
  {
    if s == [] || s[0] != ' ' then None
    else match IndexOfChar(s, '=', 1)
      case None => None
      case Some(eq) =>
        if eq + 1 >= |s| || s[eq + 1] != '"' then None
        else match IndexOfChar(s, '"', eq + 2)
          case None => None
          case Some(q) => Some((eq, q))
  }

  /** Reads items each written ` name="value"`. */
  function ParseSpaced(s: string): Option<seq<Attribute>>
    decreases |s|
  {
    if s == [] then Some([])
    else match SpacedBounds(s)
      case None => None
      case Some((eq, q)) =>
        PrependAttribute(Attribute(s[1..eq], s[eq + 2..q]), ParseSpaced(s[q + 1..]))
  }

  /** Reads a whole attribute list: items separated by single spaces, so
      every item but the first follows a space and the list is read with
      one put in front. */
  function ParseAttributeList(s: string): Option<seq<Attribute>>
  {
    if s == [] then Some([]) else ParseSpaced(" " + s)
  }

  /** Where the pieces of ` name="value"` sit in front of `rest`. */
  lemma SpacedItemParts(a: Attribute, rest: string)
    ensures var s := " " + AttributeText(a) + rest;
      var eq := 1 + |a.name|;
      var q := eq + 2 + |a.value|;
      && |s| == q + 1 + |rest|
      && s[0] == ' ' && s[1..eq] == a.name && s[eq] == '=' && s[eq + 1] == '"'
      && s[eq + 2..q] == a.value && s[q] == '"' && s[q + 1..] == rest
  {
    var middle := " " + a.name + "=\"" + a.value;
    assert " " + AttributeText(a) + rest == middle + ("\"" + rest);
  }

  /** In safe text the name ends at the first `=` and the value at the
      next `"`. */
  lemma FirstSpacedBounds(a: Attribute, rest: string)
    requires AttributeSafe(a)
    ensures SpacedBounds(" " + AttributeText(a) + rest) == Some((1 + |a.name|, 3 + |a.name| + |a.value|))
  {
    var s := " " + AttributeText(a) + rest;
    SpacedItemParts(a, rest);
    FirstAfterRun(s, '=', 1, 1 + |a.name|);
    FirstAfterRun(s, '"', 3 + |a.name|, 3 + |a.name| + |a.value|);
  }

  /** One step of the reader, for a string whose first item ends at `q`. */
  lemma ParseSpacedStep(s: string, eq: nat, q: nat)
    requires s != [] && SpacedBounds(s) == Some((eq, q))
    ensures ParseSpaced(s) ==
      PrependAttribute(Attribute(s[1..eq], s[eq + 2..q]), ParseSpaced(s[q + 1..]))
  {
  }

  /** A safe item is read back in front of whatever follows it. */
  lemma ParseFirstSpaced(a: Attribute, rest: string)
    requires AttributeSafe(a)
    ensures ParseSpaced(" " + AttributeText(a) + rest) ==
      PrependAttribute(a, ParseSpaced(rest))
  {
    var s := " " + AttributeText(a) + rest;
    var eq, q := 1 + |a.name|, 3 + |a.name| + |a.value|;
    SpacedItemParts(a, rest);
    FirstSpacedBounds(a, rest);
    ParseSpacedStep(s, eq, q);
    assert Attribute(s[1..eq], s[eq + 2..q]) == a && s[q + 1..] == rest;
  }

  /** Safe attributes are recovered, in order, each after its space. */
  lemma {:induction false} SpacedRoundTrip(attributes: seq<Attribute>)
    requires forall i :: 0 <= i < |attributes| ==> AttributeSafe(attributes[i])
    ensures ParseSpaced(Spaced(attributes)) == Some(attributes)
    decreases |attributes|
  {
    if attributes != [] {
      SpacedRoundTrip(attributes[1..]);
      ParseFirstSpaced(attributes[0], Spaced(attributes[1..]));
      assert [attributes[0]] + attributes[1..] == attributes;
    }
  }

  /** Safe attributes are recovered, in order, from their list. */
  lemma AttributeListRoundTrip(attributes: seq<Attribute>)
    requires forall i :: 0 <= i < |attributes| ==> AttributeSafe(attributes[i])
    ensures ParseAttributeList(AttributeList(attributes)) == Some(attributes)
  {
    if attributes != [] {
      AttributesSpaced(attributes);
      SpacedRoundTrip(attributes);
      assert |AttributeText(attributes[0])| > 0;
    }
  }

  /** The closing tag for `name`. */
  function ClosingTag(name: string): string
  {
    "> </" + name + ">"
  }

  /** Where the name of `<name attributes> </name>` ends: at the first
      space, with the closing tag repeating the name. */
  function NameEnd(s: string): (r: Option<nat>)
    ensures r.Some? ==> 1 <= r.value < |s| && r.value + 1 + |ClosingTag(s[1..r.value])| <= |s|
  {
    if |s| == 0 || s[0] != '<' then None
    else match IndexOfChar(s, ' ', 1)
      case None => None
      case Some(sp) =>
        var close := ClosingTag(s[1..sp]);
        if |s| < sp + 1 + |close| || s[|s| - |close|..] != close then None
        else Some(sp)
  }

  /** An element named `name` with the attributes read, if they were. */
  function Named(name: string, attributes: Option<seq<Attribute>>): Option<TargetElement>
  {
    match attributes
    case None => None
    case Some(list) => Some(TargetElement(name, list))
  }

  /** Reads `<name attributes> </name>` back. */
  function ParseCodeSegment(s: string): Option<TargetElement>
  {
    match NameEnd(s)
    case None => None
    case Some(sp) => Named(s[1..sp], ParseAttributeList(s[sp + 1..|s| - |ClosingTag(s[1..sp])|]))
  }

  /** Where the pieces of the markup sit. */
  lemma CodeSegmentParts(element: TargetElement)
    ensures var s := CodeSegment(element);
      var name := element.elementName;
      var close := ClosingTag(name);
      var sp := 1 + |name|;
      && |s| == sp + 1 + |AttributeList(element.attributes)| + |close|
      && s[0] == '<' && s[1..sp] == name && s[sp] == ' '
      && s[|s| - |close|..] == close
      && s[sp + 1..|s| - |close|] == AttributeList(element.attributes)
  {
    var name := element.elementName;
    var list := AttributeList(element.attributes);
    var close := ClosingTag(name);
    assert CodeSegment(element) == ("<" + name) + (" " + list) + close;
  }

  /** One step of the markup reader, for a string whose name ends at
      `sp`. */
  lemma ParseCodeSegmentStep(s: string, sp: nat, list: string)
    requires NameEnd(s) == Some(sp)
    requires s[sp + 1..|s| - |ClosingTag(s[1..sp])|] == list
    ensures ParseCodeSegment(s) == Named(s[1..sp], ParseAttributeList(list))
  {
  }

  /** The name of a space-free element ends at the space after it. */
  lemma CodeSegmentNameEnd(element: TargetElement)
    requires forall i :: 0 <= i < |element.elementName| ==> element.elementName[i] != ' '
    ensures NameEnd(CodeSegment(element)) == Some(1 + |element.elementName|)
  {
    CodeSegmentParts(element);
    FirstAfterRun(CodeSegment(element), ' ', 1, 1 + |element.elementName|);
  }

  /** An element with a space-free name and safe attributes is recovered
      from its markup. */
  lemma CodeSegmentRoundTrip(element: TargetElement)
    requires forall i :: 0 <= i < |element.elementName| ==> element.elementName[i] != ' '
    requires forall i :: 0 <= i < |element.attributes| ==> AttributeSafe(element.attributes[i])
    ensures ParseCodeSegment(CodeSegment(element)) == Some(element)
  {
    var s := CodeSegment(element);
    var sp := 1 + |element.elementName|;
    CodeSegmentParts(element);
    CodeSegmentNameEnd(element);
    ParseCodeSegmentStep(s, sp, AttributeList(element.attributes));
    AttributeListRoundTrip(element.attributes);
  }

  /** So two such elements never share their markup. */
  lemma DistinctElementsDistinctMarkup(e1: TargetElement, e2: TargetElement)
    requires forall i :: 0 <= i < |e1.elementName| ==> e1.elementName[i] != ' '
    requires forall i :: 0 <= i < |e1.attributes| ==> AttributeSafe(e1.attributes[i])
    requires forall i :: 0 <= i < |e2.elementName| ==> e2.elementName[i] != ' '
    requires forall i :: 0 <= i < |e2.attributes| ==> AttributeSafe(e2.attributes[i])
    ensures CodeSegment(e1) == CodeSegment(e2) <==> e1 == e2
  {
    CodeSegmentRoundTrip(e1);
    CodeSegmentRoundTrip(e2);
  }
}
