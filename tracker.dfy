/** The content script src/activityTracker.ts: how a clicked element is
    described (`serializeDomToObject`), how a description becomes a CSS
    selector (`getDomElementSelector`, `serializeObjectToDom`), and the
    click handler that lengthens the selector with `:nth-child` segments of
    the target and its ancestors until the document has exactly one match.

    The document is a tree of elements whose root is the document element;
    an element is named by its path of child positions from the root. What
    `document.querySelectorAll` answers for a selector is a parameter:
    the number of matches, or None when the selector does not parse and the
    call throws. */
module Tracker {
  import opened Results
  import opened Strings
  import opened Entities

  /** An element of the document: tag name as the DOM reports it,
      attributes in DOM order, element children in order. */
  datatype Element = Element(tagName: string, attributes: seq<Attribute>, children: seq<Element>)

  /** Child positions from the document element down to an element. */
  type Path = seq<nat>

  function Parent(p: Path): Path
    requires |p| > 0
  {
    p[..|p| - 1]
  }

  /** `p` names an element of the tree under `root`. */
  predicate ValidPath(root: Element, p: Path)
    decreases |p|, 0
  {
    |p| == 0 || (ValidPath(root, Parent(p)) && p[|p| - 1] < |At(root, Parent(p)).children|)
  }

  /** The element named by `p`. */
  function At(root: Element, p: Path): Element
    requires ValidPath(root, p)
    decreases |p|, 1
  {
    if |p| == 0 then root else At(root, Parent(p)).children[p[|p| - 1]]
  }

  /** The ancestor `k` levels above the element named by `p`. */
  function Ancestor(p: Path, k: nat): Path
    requires k <= |p|
  {
    p[..|p| - k]
  }

  lemma {:induction false} AncestorIsValid(root: Element, p: Path, k: nat)
    requires ValidPath(root, p) && k <= |p|
    ensures ValidPath(root, Ancestor(p, k))
    decreases k
  {
    if k == 0 {
      assert Ancestor(p, 0) == p;
    } else {
      AncestorIsValid(root, p, k - 1);
      assert Ancestor(p, k) == Parent(Ancestor(p, k - 1));
    }
  }

  // ---------------------------------------------------------------------
  // Describing an element and building its selector

  /** `serializeDomToObject`: the lower-cased tag name and the attributes
      as name/value pairs in DOM order. */
  function SerializeDomToObject(e: Element): (t: TargetElement)
    ensures |t.elementName| == |e.tagName|
    ensures forall i :: 0 <= i < |e.tagName| && IsUpper(e.tagName[i]) ==> t.elementName[i] as int == e.tagName[i] as int + 32
    ensures forall i :: 0 <= i < |e.tagName| && !IsUpper(e.tagName[i]) ==> t.elementName[i] == e.tagName[i]
    ensures t.attributes == e.attributes
  {
    TargetElement(Lower(e.tagName), e.attributes)
  }

  /** One attribute as a selector: `[name="value"]`, nothing escaped. */
  function AttributeSelector(a: Attribute): string
  {
    "[" + a.name + "=\"" + a.value + "\"]"
  }

  /** The attribute selectors in the given order, joined with "". */
  function AttributeSelectors(attributes: seq<Attribute>): string
  {
    if attributes == [] then "" else AttributeSelector(attributes[0]) + AttributeSelectors(attributes[1..])
  }

  /** `getDomElementSelector`: the element name followed by one attribute
      selector per attribute. */
  function GetDomElementSelector(t: TargetElement): string
  {
    t.elementName + AttributeSelectors(t.attributes)
  }

  /** The attribute selectors of a concatenation are the concatenation of
      theirs: every attribute contributes, in order. */
  lemma {:induction false} AttributeSelectorsAppend(a: seq<Attribute>, b: seq<Attribute>)
    ensures AttributeSelectors(a + b) == AttributeSelectors(a) + AttributeSelectors(b)
    decreases |a|
  {
    if a == [] {
      assert a + b == b;
    } else {
      assert (a + b)[1..] == a[1..] + b;
      AttributeSelectorsAppend(a[1..], b);
    }
  }

  /** With no attributes the selector is the element name alone. */
  lemma NoAttributesSelector(elementName: string)
    ensures GetDomElementSelector(TargetElement(elementName, [])) == elementName
  {
  }

  /** The selector of a description with one more attribute ends with that
      attribute's `[name="value"]`. */
  lemma SelectorOfAppendedAttribute(t: TargetElement, a: Attribute)
    ensures GetDomElementSelector(TargetElement(t.elementName, t.attributes + [a]))
         == GetDomElementSelector(t) + AttributeSelector(a)
  {
    AttributeSelectorsAppend(t.attributes, [a]);
    assert AttributeSelectors([a]) == AttributeSelector(a);
  }

  // ---------------------------------------------------------------------
  // Reading a selector back

  /** Where the first `[name="value"]` of `s` has its `=` and its closing
      `"`: the name runs to the first `=`, the value to the next `"`. */
  function SelectorBounds(s: string): (r: Option<(nat, nat)>)
    ensures r.Some? ==> 1 <= r.value.0 && r.value.0 + 2 <= r.value.1 && r.value.1 + 2 <= |s|
  {
    if s == [] || s[0] != '[' then None
    else match IndexOfChar(s, '=', 1)
      case None => None
      case Some(eq) =>
        if eq + 1 >= |s| || s[eq + 1] != '"' then None
        else match IndexOfChar(s, '"', eq + 2)
          case None => None
          case Some(q) => if q + 1 >= |s| || s[q + 1] != ']' then None else Some((eq, q))
  }

  /** Reads a run of `[name="value"]` selectors back into attributes. */
  function ParseAttributeSelectors(s: string): (r: Option<seq<Attribute>>)
    decreases |s|
  {
    if s == [] then Some([])
    else match SelectorBounds(s)
      case None => None
      case Some((eq, q)) =>
        PrependAttribute(Attribute(s[1..eq], s[eq + 2..q]), ParseAttributeSelectors(s[q + 2..]))
  }

  /** Reads a selector built by `getDomElementSelector` back into the
      description: the name runs up to the first `[`. */
  function ParseDomElementSelector(s: string): Option<TargetElement>
  {
    match IndexOfChar(s, '[', 0)
    case None => Some(TargetElement(s, []))
    case Some(k) =>
      match ParseAttributeSelectors(s[k..])
      case None => None
      case Some(attributes) => Some(TargetElement(s[..k], attributes))
  }

  /** Where the pieces of `[name="value"]` sit in front of `rest`. */
  lemma AttributeSelectorParts(a: Attribute, rest: string)
    ensures var s := AttributeSelector(a) + rest;
      var eq := 1 + |a.name|;
      var q := eq + 2 + |a.value|;
      && |s| == q + 2 + |rest|
      && s[0] == '[' && s[1..eq] == a.name && s[eq] == '=' && s[eq + 1] == '"'
      && s[eq + 2..q] == a.value && s[q] == '"' && s[q + 1] == ']' && s[q + 2..] == rest
  {
    var middle := "[" + a.name + "=\"" + a.value;
    assert AttributeSelector(a) + rest == middle + ("\"]" + rest);
  }

  /** One step of the reader, for a string whose first selector ends at
      `q + 1`. */
  lemma ParseOneStep(s: string, eq: nat, q: nat)
    requires s != [] && SelectorBounds(s) == Some((eq, q))
    ensures ParseAttributeSelectors(s) ==
      PrependAttribute(Attribute(s[1..eq], s[eq + 2..q]), ParseAttributeSelectors(s[q + 2..]))
  {
  }

  /** In a safe selector the name ends at the first `=` and the value at
      the first `"` after `="`. */
  lemma FirstSelectorBounds(a: Attribute, rest: string)
    requires AttributeSafe(a)
    ensures SelectorBounds(AttributeSelector(a) + rest) == Some((1 + |a.name|, 3 + |a.name| + |a.value|))
  {
    var s := AttributeSelector(a) + rest;
    AttributeSelectorParts(a, rest);
    FirstAfterRun(s, '=', 1, 1 + |a.name|);
    FirstAfterRun(s, '"', 3 + |a.name|, 3 + |a.name| + |a.value|);
  }

  /** Reading one safe attribute selector off the front of a string. */
  lemma ParseFirstAttribute(a: Attribute, rest: string)
    requires AttributeSafe(a)
    ensures ParseAttributeSelectors(AttributeSelector(a) + rest) ==
      PrependAttribute(a, ParseAttributeSelectors(rest))
  {
    var s := AttributeSelector(a) + rest;
    var eq, q := 1 + |a.name|, 3 + |a.name| + |a.value|;
    AttributeSelectorParts(a, rest);
    FirstSelectorBounds(a, rest);
    ParseOneStep(s, eq, q);
    assert Attribute(s[1..eq], s[eq + 2..q]) == a && s[q + 2..] == rest;
  }

  lemma {:induction false} AttributeSelectorsRoundTrip(attributes: seq<Attribute>)
    requires forall i :: 0 <= i < |attributes| ==> AttributeSafe(attributes[i])
    ensures ParseAttributeSelectors(AttributeSelectors(attributes)) == Some(attributes)
    decreases |attributes|
  {
    if attributes != [] {
      AttributeSelectorsRoundTrip(attributes[1..]);
      ParseFirstAttribute(attributes[0], AttributeSelectors(attributes[1..]));
      assert [attributes[0]] + attributes[1..] == attributes;
    }
  }

  /** A description whose name has no `[` and whose attributes are safe. */
  predicate DescriptionSafe(t: TargetElement)
  {
    && (forall i :: 0 <= i < |t.elementName| ==> t.elementName[i] != '[')
    && (forall i :: 0 <= i < |t.attributes| ==> AttributeSafe(t.attributes[i]))
  }

  /** A safe description is recovered from its selector. */
  lemma DomElementSelectorRoundTrip(t: TargetElement)
    requires DescriptionSafe(t)
    ensures ParseDomElementSelector(GetDomElementSelector(t)) == Some(t)
  {
    var s := GetDomElementSelector(t);
    var n := |t.elementName|;
    AttributeSelectorsRoundTrip(t.attributes);
    assert s[..n] == t.elementName && s[n..] == AttributeSelectors(t.attributes);
    if t.attributes == [] {
      assert s == t.elementName;
    } else {
      assert s[n] == '[';
      IndexOfCharAt(s, '[', 0, n);
    }
  }

  /** So two safe descriptions never share a selector, and
      `serializeObjectToDom` asks for exactly the element described. */
  lemma SafeDescriptionsHaveDistinctSelectors(t1: TargetElement, t2: TargetElement)
    requires DescriptionSafe(t1) && DescriptionSafe(t2)
    ensures GetDomElementSelector(t1) == GetDomElementSelector(t2) <==> t1 == t2
  {
    DomElementSelectorRoundTrip(t1);
    DomElementSelectorRoundTrip(t2);
  }

  /** `serializeObjectToDom`: the first element the description's selector
      matches, as `document.querySelector` (a parameter) finds it. For a
      safe description the query is for a selector that reads back to that
      very description, so the element found is the one described. */
  function SerializeObjectToDom(t: TargetElement, querySelector: string -> Option<Path>): (found: Option<Path>)
    ensures DescriptionSafe(t) ==> exists s :: ParseDomElementSelector(s) == Some(t) && found == querySelector(s)
  {
    var selector := GetDomElementSelector(t);
    if DescriptionSafe(t) then
      DomElementSelectorRoundTrip(t);
      querySelector(selector)
    else
      querySelector(selector)
  }

  /** Without escaping, a `"` in a value forges attribute boundaries: one
      attribute `a` with value `x"][b="y` renders like two attributes. */
  lemma UnescapedQuoteForgesAttributes()
    ensures var forged := TargetElement("div", [Attribute("a", "x\"][b=\"y")]);
            var honest := TargetElement("div", [Attribute("a", "x"), Attribute("b", "y")]);
            forged != honest && GetDomElementSelector(forged) == GetDomElementSelector(honest)
  {
    var honest := [Attribute("a", "x"), Attribute("b", "y")];
    assert honest[1..] == [Attribute("b", "y")];
  }

  // ---------------------------------------------------------------------
  // Selectors as segments

  /** One compound selector of the walk: an element's selector, optionally
      with `:nth-child(n)`. */
  datatype Segment = Segment(element: TargetElement, nth: Option<nat>)

  function RenderSegment(s: Segment): string
  {
    GetDomElementSelector(s.element) + if s.nth.Some? then ":nth-child(" + NatText(s.nth.value) + ")" else ""
  }

  predicate EndsWith(s: string, suffix: string)
  {
    |suffix| <= |s| && s[|s| - |suffix|..] == suffix
  }

  /** The element at `p`, qualified by its 1-based position among its
      parent's element children, which is what `findIndex(...) + 1` computes. */
  function NthSegment(root: Element, p: Path): Segment
    requires ValidPath(root, p) && |p| > 0
  {
    Segment(SerializeDomToObject(At(root, p)), Some(p[|p| - 1] + 1))
  }

  /** The `:nth-child` index is the element's 1-based position among its
      parent's children, and the segment describes the element itself. */
  lemma NthSegmentPosition(root: Element, p: Path)
    requires ValidPath(root, p) && |p| > 0
    ensures var n := NthSegment(root, p).nth;
      && n.Some? && 1 <= n.value <= |At(root, Parent(p)).children|
      && At(root, Parent(p)).children[n.value - 1] == At(root, p)
      && NthSegment(root, p).element == SerializeDomToObject(At(root, p))
  {
  }

  /** The qualified segment of the ancestor `k` levels above the element
      at `p` (the element itself for `k == 0`). */
  function AncestorSegment(root: Element, p: Path, k: nat): string
    requires ValidPath(root, p) && k < |p|
  {
    AncestorIsValid(root, p, k);
    RenderSegment(NthSegment(root, Ancestor(p, k)))
  }

  /** The qualified segments of the element at `p` and of its ancestors
      below the document element, innermost first. */
  function Segments(root: Element, p: Path): (segments: seq<string>)
    requires ValidPath(root, p)
    ensures |segments| == |p|
    decreases |p|
  {
    if |p| == 0 then [] else [RenderSegment(NthSegment(root, p))] + Segments(root, Parent(p))
  }

  /** Segment `k` belongs to the ancestor `k` levels up. */
  lemma {:induction false} SegmentAt(root: Element, p: Path, k: nat)
    requires ValidPath(root, p) && k < |p|
    ensures Segments(root, p)[k] == AncestorSegment(root, p, k)
    decreases k
  {
    if k == 0 {
      assert Ancestor(p, 0) == p;
    } else {
      SegmentAt(root, Parent(p), k - 1);
      assert Ancestor(Parent(p), k - 1) == Ancestor(p, k);
    }
  }

  /** The selector after `d` steps of the walk: the first `d + 1`
      segments, outermost first, joined with single spaces (descendant
      combinators). */
  function WalkSelector(segments: seq<string>, d: nat): string
    requires d < |segments|
    decreases d
  {
    if d == 0 then segments[0] else segments[d] + " " + WalkSelector(segments, d - 1)
  }

  /** Every selector of the walk ends with the target's own segment. */
  lemma {:induction false} WalkSelectorEndsWithTarget(segments: seq<string>, d: nat)
    requires d < |segments|
    ensures EndsWith(WalkSelector(segments, d), segments[0])
    decreases d
  {
    if d == 0 {
      assert segments[0][0..] == segments[0];
    } else {
      WalkSelectorEndsWithTarget(segments, d - 1);
      var head := segments[d] + " ";
      var tail := WalkSelector(segments, d - 1);
      assert (head + tail)[|head + tail| - |segments[0]|..] == tail[|tail| - |segments[0]|..];
    }
  }

  /** What `querySelectorAll` answers for each selector of the walk. */
  function Answers(segments: seq<string>, query: string -> Option<nat>): (answers: seq<Option<nat>>)
    ensures |answers| == |segments|
    ensures forall k :: 0 <= k < |segments| ==> answers[k] == query(WalkSelector(segments, k))
  {
    seq(|segments|, k requires 0 <= k < |segments| => query(WalkSelector(segments, k)))
  }

  /** The selector after `k` steps matched more than one element. */
  predicate Ambiguous(answers: seq<Option<nat>>, k: nat)
    requires k < |answers|
  {
    answers[k].Some? && answers[k].value > 1
  }

  /** The selector of the clicked element alone. */
  function PlainSelector(root: Element, p: Path): string
    requires ValidPath(root, p)
  {
    GetDomElementSelector(SerializeDomToObject(At(root, p)))
  }

  // ---------------------------------------------------------------------
  // The click handler

  /** How the click handler's search ends. */
  datatype ClickEnd =
    | PlainUnique        // the plain selector matched exactly one element
    | Unique(depth: nat) // the selector with `depth` ancestors matched exactly one
    | BackedOut(depth: nat)  // adding ancestor `depth + 1` matched nothing, so it was removed
    | NoParent           // `parentElement!` was null: the walk reached the document element
    | QueryThrew         // `querySelectorAll` rejected the selector

  /** The walk after `d` steps, while the match count is not 1, over the
      answers for each step. */
  function WalkEnd(answers: seq<Option<nat>>, d: nat): (e: ClickEnd)
    requires d < |answers|
    ensures e.Unique? ==> d < e.depth < |answers|
    ensures e.BackedOut? ==> d <= e.depth && e.depth + 1 < |answers|
    ensures !e.PlainUnique?
    decreases |answers| - d
  {
    if d + 1 == |answers| then NoParent
    else
      match answers[d + 1]
      case None => QueryThrew
      case Some(c) =>
        if c == 0 then BackedOut(d)
        else if c == 1 then Unique(d + 1)
        else WalkEnd(answers, d + 1)
  }

  /** The same walk, asking `querySelectorAll` at each step. */
  function WalkFrom(segments: seq<string>, query: string -> Option<nat>, d: nat): ClickEnd
    requires d < |segments|
    decreases |segments| - d
  {
    if d + 1 == |segments| then NoParent
    else
      match query(WalkSelector(segments, d + 1))
      case None => QueryThrew
      case Some(c) =>
        if c == 0 then BackedOut(d)
        else if c == 1 then Unique(d + 1)
        else WalkFrom(segments, query, d + 1)
  }

  lemma {:induction false} WalkFromAnswers(segments: seq<string>, query: string -> Option<nat>, d: nat)
    requires d < |segments|
    ensures WalkFrom(segments, query, d) == WalkEnd(Answers(segments, query), d)
    decreases |segments| - d
  {
    if d + 1 < |segments| {
      WalkFromAnswers(segments, query, d + 1);
    }
  }

  /** A walk that ends unique ends at the first step whose selector has
      exactly one match. */
  lemma {:induction false} WalkEndsAtFirstUnique(answers: seq<Option<nat>>, d: nat)
    requires d < |answers| && WalkEnd(answers, d).Unique?
    ensures var n := WalkEnd(answers, d).depth;
      answers[n] == Some(1) && forall k :: d < k < n ==> Ambiguous(answers, k)
    decreases |answers| - d
  {
    if answers[d + 1] != Some(1) {
      WalkEndsAtFirstUnique(answers, d + 1);
    }
  }

  /** A walk that backs out does so at the first step with no match. */
  lemma {:induction false} WalkBacksOutAtFirstEmpty(answers: seq<Option<nat>>, d: nat)
    requires d < |answers| && WalkEnd(answers, d).BackedOut?
    ensures var n := WalkEnd(answers, d).depth;
      answers[n + 1] == Some(0) && forall k :: d < k <= n ==> Ambiguous(answers, k)
    decreases |answers| - d
  {
    if answers[d + 1] != Some(0) {
      WalkBacksOutAtFirstEmpty(answers, d + 1);
    }
  }

  /** A walk reaches the document element exactly when every step's
      selector matched more than one element. */
  lemma {:induction false} WalkReachesRootWhenAlwaysAmbiguous(answers: seq<Option<nat>>, d: nat)
    requires d < |answers|
    ensures WalkEnd(answers, d).NoParent? <==> forall k :: d < k < |answers| ==> Ambiguous(answers, k)
    decreases |answers| - d
  {
    if d + 1 < |answers| {
      WalkReachesRootWhenAlwaysAmbiguous(answers, d + 1);
      if !Ambiguous(answers, d + 1) {
        assert !(forall k :: d < k < |answers| ==> Ambiguous(answers, k));
      }
    }
  }

  /** How the search for the element at `p` ends. */
  function ClickEndFor(root: Element, p: Path, query: string -> Option<nat>): ClickEnd
    requires ValidPath(root, p)
  {
    match query(PlainSelector(root, p))
    case None => QueryThrew
    case Some(c) =>
      if c == 1 then PlainUnique
      else if |p| == 0 then NoParent
      else WalkEnd(Answers(Segments(root, p), query), 0)
  }

  /** The selector the handler sends for a search that ended as `e`. */
  function SelectorFor(root: Element, p: Path, e: ClickEnd): string
    requires ValidPath(root, p)
  {
    match e
    case PlainUnique => PlainSelector(root, p)
    case Unique(d) => if d < |p| then WalkSelector(Segments(root, p), d) else ""
    case BackedOut(d) => if d < |p| then WalkSelector(Segments(root, p), d) else ""
    case NoParent => ""
    case QueryThrew => ""
  }

  /** The message `sendMessage` posts. */
  datatype ActivityMessage = ActivityMessage(
    eventName: string,
    url: string,
    activityTitle: string,
    elementName: string,
    attributes: seq<Attribute>,
    selector: string)

  datatype ClickFailure =
    | NoParentElement   // a TypeError from dereferencing a null parent
    | InvalidSelector   // a SyntaxError from `querySelectorAll`

  /** What a click leads to: a message, or a handler that threw first. */
  datatype ClickResult = Sent(message: ActivityMessage) | Failed(reason: ClickFailure)

  function MessageFor(root: Element, p: Path, url: string, text: string, selector: string): ActivityMessage
    requires ValidPath(root, p)
  {
    var described := SerializeDomToObject(At(root, p));
    ActivityMessage("activity", url, text, described.elementName, described.attributes, selector)
  }

  /** The outcome of clicking the element at `p` on a page at `url` whose
      text content is `text`. */
  function ClickResultFor(root: Element, p: Path, query: string -> Option<nat>, url: string, text: string): ClickResult
    requires ValidPath(root, p)
  {
    var e := ClickEndFor(root, p, query);
    if e.QueryThrew? then Failed(InvalidSelector)
    else if e.NoParent? then Failed(NoParentElement)
    else Sent(MessageFor(root, p, url, text, SelectorFor(root, p, e)))
  }

  /** The selector of the element at `p` qualified by `:nth-child` with
      its position among its parent's children. */
  method NthChildSelector(root: Element, p: Path) returns (selector: string)
    requires ValidPath(root, p) && |p| > 0
    ensures selector == RenderSegment(NthSegment(root, p))
  {
    var described := SerializeDomToObject(At(root, p));
    selector := GetDomElementSelector(described);
    var idx := p[|p| - 1] + 1;
    selector := selector + ":nth-child(" + NatText(idx) + ")";
  }

  /** How the walk over ancestors ends: the selector to send, or the
      error the listener throws. */
  function WalkOutcome(segments: seq<string>, e: ClickEnd): Result<string, ClickFailure>
  {
    match e
    case QueryThrew => Err(InvalidSelector)
    case NoParent => Err(NoParentElement)
    case Unique(d) => if d < |segments| then Ok(WalkSelector(segments, d)) else Ok("")
    case BackedOut(d) => if d < |segments| then Ok(WalkSelector(segments, d)) else Ok("")
    case PlainUnique => Ok("")  // not an end of the walk
  }

  /** One step of the loop: the next ancestor's qualified selector and the
      selector with it prepended. */
  method PrependAncestor(root: Element, target: Path, ghost segments: seq<string>, ghost d: nat, lastParent: Path, selector: string)
    returns (segment: string, extended: string)
    requires ValidPath(root, target) && segments == Segments(root, target)
    requires d + 1 < |target| && lastParent == Ancestor(target, d)
    requires selector == WalkSelector(segments, d)
    ensures extended == segment + " " + selector
    ensures extended == WalkSelector(segments, d + 1)
  {
    AncestorIsValid(root, target, d + 1);
    assert Parent(lastParent) == Ancestor(target, d + 1);
    segment := NthChildSelector(root, Parent(lastParent));
    SegmentAt(root, target, d + 1);
    extended := segment + " " + selector;
  }

  /** Backing out a step: removing the first occurrence of the prepended
      segment and its space restores the selector from before the step. */
  method RemoveAncestor(extended: string, segment: string, ghost before: string) returns (selector: string)
    requires extended == segment + " " + before
    ensures selector == before
  {
    ReplaceLeadingOccurrence(segment + " ", before);
    assert extended == (segment + " ") + before;
    selector := ReplaceFirst(extended, segment + " ", "");
  }

  /** One pass of the loop body after `d` steps: either the listener
      stops (throws, or backs out and sends), or the selector grows by one
      ancestor and `count` is its number of matches. */
  method WalkStep(root: Element, target: Path, query: string -> Option<nat>, ghost segments: seq<string>, ghost d: nat,
                  lastParent: Path, selector: string)
    returns (stop: bool, outcome: Result<string, ClickFailure>, count: nat, extended: string)
    requires ValidPath(root, target) && segments == Segments(root, target)
    requires d < |target| && lastParent == Ancestor(target, d)
    requires selector == WalkSelector(segments, d)
    ensures stop ==> outcome == WalkOutcome(segments, WalkFrom(segments, query, d))
    ensures !stop ==> d + 1 < |target| && extended == WalkSelector(segments, d + 1)
    ensures !stop && count == 1 ==> WalkFrom(segments, query, d) == Unique(d + 1)
    ensures !stop && count != 1 ==> WalkFrom(segments, query, d) == WalkFrom(segments, query, d + 1)
  {
    if |lastParent| == 1 {
      return true, Err(NoParentElement), 0, "";
    }
    var segment, longer := PrependAncestor(root, target, segments, d, lastParent, selector);
    var elements := query(longer);
    if elements.None? {
      return true, Err(InvalidSelector), 0, "";
    }
    if elements.value <= 0 {
      var restored := RemoveAncestor(longer, segment, selector);
      return true, Ok(restored), 0, "";
    }
    return false, Ok(""), elements.value, longer;
  }

  /** The loop of the listener, entered when the plain selector of a
      non-root target did not match exactly one element. */
  method WalkAncestors(root: Element, target: Path, query: string -> Option<nat>) returns (outcome: Result<string, ClickFailure>)
    requires ValidPath(root, target) && |target| > 0
    ensures outcome == WalkOutcome(Segments(root, target), WalkFrom(Segments(root, target), query, 0))
  {
    ghost var segments := Segments(root, target);
    var targetSelector := NthChildSelector(root, target);
    SegmentAt(root, target, 0);
    assert Ancestor(target, 0) == target;
    var lastParent := target;
    var count := 0;
    ghost var d: nat := 0;
    while count != 1
      invariant d < |target| && lastParent == Ancestor(target, d)
      invariant targetSelector == WalkSelector(segments, d)
      invariant count != 1 ==> WalkFrom(segments, query, d) == WalkFrom(segments, query, 0)
      invariant count == 1 ==> WalkFrom(segments, query, 0) == Unique(d)
      decreases |lastParent|
    {
      var stop, result, newCount, extended := WalkStep(root, target, query, segments, d, lastParent, targetSelector);
      if stop {
        return result;
      }
      count := newCount;
      lastParent := Parent(lastParent);
      targetSelector := extended;
      d := d + 1;
    }
    outcome := Ok(targetSelector);
  }

  /** The click listener: plain selector first; otherwise the target's
      segment with `:nth-child`, then one ancestor segment prepended per
      step until the selector matches exactly one element, backing out the
      last ancestor when it leaves no match. The parent dereferences are
      unguarded, as in the listener. */
  method OnClick(root: Element, target: Path, query: string -> Option<nat>, url: string, text: string)
    returns (r: ClickResult)
    requires ValidPath(root, target)
    ensures r == ClickResultFor(root, target, query, url, text)
  {
    var targetObject := SerializeDomToObject(At(root, target));
    var targetSelector := GetDomElementSelector(targetObject);
    var elements := query(targetSelector);
    if elements.None? {
      return Failed(InvalidSelector);
    }
    if elements.value == 1 {
      return Sent(ActivityMessage("activity", url, text, targetObject.elementName, targetObject.attributes, targetSelector));
    }
    if |target| == 0 {
      return Failed(NoParentElement);
    }
    var outcome := WalkAncestors(root, target, query);
    WalkFromAnswers(Segments(root, target), query, 0);
    match outcome
    case Err(reason) =>
      r := Failed(reason);
    case Ok(selector) =>
      r := Sent(ActivityMessage("activity", url, text, targetObject.elementName, targetObject.attributes, selector));
  }

  // ---------------------------------------------------------------------
  // What the handler sends

  /** A plain selector with exactly one match is sent unchanged. */
  lemma PlainUniqueSelectorIsSent(root: Element, p: Path, query: string -> Option<nat>, url: string, text: string)
    requires ValidPath(root, p) && query(PlainSelector(root, p)) == Some(1)
    ensures ClickResultFor(root, p, query, url, text).Sent?
    ensures ClickResultFor(root, p, query, url, text).message.selector == PlainSelector(root, p)
  {
  }

  /** Otherwise a sent selector is the target's segment with its `d`
      nearest ancestors' segments in front, so it ends with the target's
      `:nth-child` segment. */
  lemma {:induction false} WalkedSelectorEndsWithTarget(root: Element, p: Path, query: string -> Option<nat>, url: string, text: string)
    requires ValidPath(root, p)
    requires query(PlainSelector(root, p)) != Some(1)
    requires ClickResultFor(root, p, query, url, text).Sent?
    ensures |p| > 0
    ensures exists d :: 0 <= d < |p| && ClickResultFor(root, p, query, url, text).message.selector == WalkSelector(Segments(root, p), d)
    ensures EndsWith(ClickResultFor(root, p, query, url, text).message.selector, RenderSegment(NthSegment(root, p)))
  {
    var e := ClickEndFor(root, p, query);
    var d := e.depth;
    assert d < |p|;
    WalkSelectorEndsWithTarget(Segments(root, p), d);
  }

  /** The walk stops at the first selector with exactly one match. */
  lemma StopsAtFirstUniqueMatch(root: Element, p: Path, query: string -> Option<nat>, url: string, text: string)
    requires ValidPath(root, p) && ClickEndFor(root, p, query).Unique?
    ensures var d := ClickEndFor(root, p, query).depth;
      && 0 < d < |p|
      && query(WalkSelector(Segments(root, p), d)) == Some(1)
      && ClickResultFor(root, p, query, url, text) == Sent(MessageFor(root, p, url, text, WalkSelector(Segments(root, p), d)))
      && forall k :: 0 < k < d ==> Ambiguous(Answers(Segments(root, p), query), k)
  {
    WalkEndsAtFirstUnique(Answers(Segments(root, p), query), 0);
  }

  /** When an ancestor leaves no match, the selector sent is the one from
      before that step. */
  lemma BackOutRestoresPreviousSelector(root: Element, p: Path, query: string -> Option<nat>, url: string, text: string)
    requires ValidPath(root, p) && ClickEndFor(root, p, query).BackedOut?
    ensures var d := ClickEndFor(root, p, query).depth;
      && d + 1 < |p|
      && query(WalkSelector(Segments(root, p), d + 1)) == Some(0)
      && ClickResultFor(root, p, query, url, text) == Sent(MessageFor(root, p, url, text, WalkSelector(Segments(root, p), d)))
  {
    WalkBacksOutAtFirstEmpty(Answers(Segments(root, p), query), 0);
  }

  /** The target's own unguarded `parentElement!`: clicking the document
      element itself when its plain selector is not unique throws before
      any ancestor is looked at. */
  lemma TargetWithoutParentThrows(root: Element, query: string -> Option<nat>, url: string, text: string)
    requires query(PlainSelector(root, [])).Some? && query(PlainSelector(root, [])) != Some(1)
    ensures ClickResultFor(root, [], query, url, text) == Failed(NoParentElement)
  {
  }

  /** The ancestor's unguarded `parentElement!`: when the walk reaches the
      document element, looking up that element's parent throws and
      nothing is sent; clicking a child of the document element whose
      plain selector is not unique is enough. */
  lemma RootDereferenceThrows(root: Element, p: Path, query: string -> Option<nat>, url: string, text: string)
    requires ValidPath(root, p) && |p| == 1
    requires query(PlainSelector(root, p)).Some? && query(PlainSelector(root, p)) != Some(1)
    ensures ClickResultFor(root, p, query, url, text) == Failed(NoParentElement)
  {
  }
}
