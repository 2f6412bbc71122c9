/** The recolouring of a parsed SVG icon. A document is reduced to its
    elements in document order; each element keeps its tag name, whether it
    has a `style` object at all, its `fill` and `stroke` attributes (`None`
    when `getAttribute` returns `null`) and the `fill` and `stroke`
    properties of its inline style (`""` when the style declares none, as
    the CSS object model reports it).

    Only elements in a namespace with styling (SVG, HTML, MathML) have a
    `style` object: markup parsed as `image/svg+xml` without
    `xmlns="http://www.w3.org/2000/svg"` yields plain XML elements, and
    reading `style.fill` on one of them throws a TypeError.

    Recolouring touches the first `svg` element (`querySelector("svg")`) and
    every `path` element (`querySelectorAll("path")`): each of their four
    colour slots that is set to a non-empty value is replaced by the target
    colour, and nothing else changes. The `svg` element is handled first,
    attributes before styles; then the `path` elements in document order,
    styles before attributes. The document is changed in place, so a throw
    leaves the changes made before it. */
module Svg {
  import opened Js

  datatype Element = Element(
    tag: string,
    styled: bool,
    fill: Option<string>,
    stroke: Option<string>,
    styleFill: string,
    styleStroke: string)

  /** The elements of a document in document order. */
  type Document = seq<Element>

  /** An attribute value that JavaScript treats as truthy: present and not
      the empty string. */
  predicate IsSet(v: Option<string>) {
    v.Some? && v.value != ""
  }

  /** `if (el.getAttribute(name)) el.setAttribute(name, color)`. */
  function RepaintAttribute(v: Option<string>, color: string): (r: Option<string>)
    ensures IsSet(v) ==> r == Some(color)
    ensures !IsSet(v) ==> r == v
  {
    if IsSet(v) then Some(color) else v
  }

  /** `if (el.style.p) el.style.p = color`. */
  function RepaintStyle(v: string, color: string): (r: string)
    ensures v != "" ==> r == color
    ensures v == "" ==> r == ""
  {
    if v != "" then color else v
  }

  /** The two attribute assignments the source makes on the `svg` element
      before it first reads its style. */
  function RepaintAttributes(e: Element, color: string): Element {
    e.(fill := RepaintAttribute(e.fill, color), stroke := RepaintAttribute(e.stroke, color))
  }

  /** The four conditional assignments the source makes on one element. */
  function RepaintElement(e: Element, color: string): (r: Element)
    ensures r.tag == e.tag && r.styled == e.styled
  {
    Element(e.tag, e.styled, RepaintAttribute(e.fill, color), RepaintAttribute(e.stroke, color),
            RepaintStyle(e.styleFill, color), RepaintStyle(e.styleStroke, color))
  }

  /** `querySelector(tag)`: the index of the first element with that tag. */
  function FirstWithTag(doc: Document, tag: string): (r: Option<nat>)
    ensures r.Some? ==> r.value < |doc| && doc[r.value].tag == tag
    ensures r.Some? ==> forall j | 0 <= j < r.value :: doc[j].tag != tag
    ensures r.None? ==> forall j | 0 <= j < |doc| :: doc[j].tag != tag
  {
    if doc == [] then None
    else if doc[0].tag == tag then Some(0)
    else
      match FirstWithTag(doc[1..], tag)
      case None => None
      case Some(i) => Some(i + 1)
  }

  /** A `path` element without a `style` object. */
  predicate IsUnstyledPath(e: Element) {
    e.tag == "path" && !e.styled
  }

  /** The first `path` element without a style: where `paths.forEach` throws. */
  function FirstUnstyledPath(doc: Document): (r: Option<nat>)
    ensures r.Some? ==> r.value < |doc| && IsUnstyledPath(doc[r.value])
    ensures r.Some? ==> forall j | 0 <= j < r.value :: !IsUnstyledPath(doc[j])
    ensures r.None? ==> forall j | 0 <= j < |doc| :: !IsUnstyledPath(doc[j])
  {
    if doc == [] then None
    else if IsUnstyledPath(doc[0]) then Some(0)
    else
      match FirstUnstyledPath(doc[1..])
      case None => None
      case Some(i) => Some(i + 1)
  }

  /** The elements recolouring touches: the first `svg` element, at index
      `root`, and every `path` element. */
  predicate IsTarget(doc: Document, root: nat, i: nat)
    requires i < |doc|
  {
    i == root || doc[i].tag == "path"
  }

  /** Recolouring runs to the end: there is an `svg` element, and it and
      every `path` element have a style. */
  predicate Recolourable(doc: Document) {
    match FirstWithTag(doc, "svg")
    case None => false
    case Some(root) => doc[root].styled && FirstUnstyledPath(doc).None?
  }

  /** How recolouring a document ends: a TypeError before any change (no
      `svg` element), a TypeError part-way (an element without a style),
      with the document as it stands at the throw, or the recoloured
      document. */
  datatype Outcome = MissingRoot | Interrupted(partial: Document) | Recoloured(doc: Document)

  /** The result document of an outcome that got past the `svg` lookup. */
  function Result(o: Outcome): Document
    requires !o.MissingRoot?
  {
    if o.Interrupted? then o.partial else o.doc
  }

  /** `#updateSvgColor` on the document. */
  function Recolour(doc: Document, color: string): (r: Outcome)
    ensures r.MissingRoot? <==> forall j | 0 <= j < |doc| :: doc[j].tag != "svg"
    ensures r.Recoloured? <==> Recolourable(doc)
    ensures r.Recoloured? ==> |r.doc| == |doc|
    ensures r.Recoloured? ==> var root := FirstWithTag(doc, "svg").value;
      forall i | 0 <= i < |doc| ::
        r.doc[i] == if IsTarget(doc, root, i) then RepaintElement(doc[i], color) else doc[i]
    ensures r.Interrupted? ==> |r.partial| == |doc|
    ensures r.Interrupted? && !doc[FirstWithTag(doc, "svg").value].styled ==>
      var root := FirstWithTag(doc, "svg").value;
      forall i | 0 <= i < |doc| ::
        r.partial[i] == if i == root then RepaintAttributes(doc[i], color) else doc[i]
    ensures r.Interrupted? && doc[FirstWithTag(doc, "svg").value].styled ==>
      var root, k := FirstWithTag(doc, "svg").value, FirstUnstyledPath(doc).value;
      forall i | 0 <= i < |doc| ::
        r.partial[i] == if i == root || (doc[i].tag == "path" && i < k) then RepaintElement(doc[i], color) else doc[i]
  {
    match FirstWithTag(doc, "svg")
    case None => MissingRoot
    case Some(root) =>
      if !doc[root].styled then
        Interrupted(doc[root := RepaintAttributes(doc[root], color)])
      else
        match FirstUnstyledPath(doc)
        case None =>
          Recoloured(seq(|doc|, i requires 0 <= i < |doc| =>
            if IsTarget(doc, root, i) then RepaintElement(doc[i], color) else doc[i]))
        case Some(k) =>
          Interrupted(seq(|doc|, i requires 0 <= i < |doc| =>
            if i == root || (doc[i].tag == "path" && i < k) then RepaintElement(doc[i], color) else doc[i]))
  }

  /** Recolouring sets exactly the non-empty colour slots of the targeted
      elements to the target colour: absent or empty slots stay as they
      were, so no slot is ever added, and tags never change. */
  lemma RecolourSlots(doc: Document, color: string, i: nat)
    requires Recolour(doc, color).Recoloured? && i < |doc|
    ensures var e, e' := doc[i], Recolour(doc, color).doc[i];
      var t := IsTarget(doc, FirstWithTag(doc, "svg").value, i);
      && e'.tag == e.tag
      && e'.fill == (if t && IsSet(e.fill) then Some(color) else e.fill)
      && e'.stroke == (if t && IsSet(e.stroke) then Some(color) else e.stroke)
      && e'.styleFill == (if t && e.styleFill != "" then color else e.styleFill)
      && e'.styleStroke == (if t && e.styleStroke != "" then color else e.styleStroke)
  {
  }

  /** Only the first `svg` element is targeted: any later `svg` element is
      left exactly as it was, even when recolouring throws part-way. */
  lemma LaterSvgUntouched(doc: Document, color: string, i: nat)
    requires !Recolour(doc, color).MissingRoot? && i < |doc|
    requires doc[i].tag == "svg" && i != FirstWithTag(doc, "svg").value
    ensures Result(Recolour(doc, color))[i] == doc[i]
  {
  }

  /** Two documents with the same elements up to their colour slots. */
  predicate SameShape(d1: Document, d2: Document) {
    |d1| == |d2| && forall i | 0 <= i < |d1| :: d1[i].tag == d2[i].tag && d1[i].styled == d2[i].styled
  }

  /** Documents of the same shape have their `svg` element and their first
      unstyled `path` element at the same places. */
  lemma {:induction false} SameShapeSearches(d1: Document, d2: Document, tag: string)
    requires SameShape(d1, d2)
    ensures FirstWithTag(d1, tag) == FirstWithTag(d2, tag)
    ensures FirstUnstyledPath(d1) == FirstUnstyledPath(d2)
  {
    if d1 != [] {
      assert SameShape(d1[1..], d2[1..]) by {
        forall i | 0 <= i < |d1| - 1
          ensures d1[1..][i].tag == d2[1..][i].tag && d1[1..][i].styled == d2[1..][i].styled
        {
          assert d1[1..][i] == d1[i + 1] && d2[1..][i] == d2[i + 1];
        }
      }
      SameShapeSearches(d1[1..], d2[1..], tag);
    }
  }

  /** Recolouring changes colour slots only, even when it throws part-way,
      so whether a document can be recoloured never changes. */
  lemma RecolourKeepsShape(doc: Document, color: string)
    requires !Recolour(doc, color).MissingRoot?
    ensures SameShape(doc, Result(Recolour(doc, color)))
    ensures Recolourable(Result(Recolour(doc, color))) <==> Recolourable(doc)
  {
    var d := Result(Recolour(doc, color));
    assert SameShape(doc, d);
    SameShapeSearches(doc, d, "svg");
  }

  /** Repainting an element twice is repainting it with the last colour,
      provided the first colour is not empty. */
  lemma RepaintTwice(e: Element, c1: string, c2: string)
    requires c1 != ""
    ensures RepaintElement(RepaintElement(e, c1), c2) == RepaintElement(e, c2)
  {
  }

  /** Repainting an element twice with the same colour is repainting it once,
      even with the empty colour. */
  lemma RepaintIdempotent(e: Element, color: string)
    ensures RepaintElement(RepaintElement(e, color), color) == RepaintElement(e, color)
  {
  }

  /** Once repainted with the empty colour, an element has no set slot left,
      so no later colour changes it. */
  lemma RepaintAfterEmpty(e: Element, color: string)
    ensures RepaintElement(RepaintElement(e, ""), color) == RepaintElement(e, "")
  {
  }

  /** Recolouring with `c1` and then with `c2` is recolouring with `c2`,
      provided `c1` is not empty, even when the first recolouring threw
      part-way: the second one reaches the same elements and throws at the
      same place. */
  lemma RecolourLastWins(doc: Document, c1: string, c2: string)
    requires c1 != ""
    requires !Recolour(doc, c1).MissingRoot?
    ensures Recolour(Result(Recolour(doc, c1)), c2) == Recolour(doc, c2)
  {
    var d1 := Result(Recolour(doc, c1));
    RecolourKeepsShape(doc, c1);
    SameShapeSearches(doc, d1, "svg");
    var root := FirstWithTag(doc, "svg").value;
    if !doc[root].styled {
      assert RepaintAttributes(d1[root], c2) == RepaintAttributes(doc[root], c2);
      assert d1[root := RepaintAttributes(d1[root], c2)] == doc[root := RepaintAttributes(doc[root], c2)];
    } else {
      var r := Result(Recolour(d1, c2));
      var s := Result(Recolour(doc, c2));
      forall i | 0 <= i < |doc| ensures r[i] == s[i] {
        if i == root || doc[i].tag == "path" {
          RepaintTwice(doc[i], c1, c2);
        }
      }
      assert r == s;
    }
  }

  /** Recolouring is idempotent, even when it throws part-way. */
  lemma RecolourIdempotent(doc: Document, color: string)
    requires !Recolour(doc, color).MissingRoot?
    ensures Recolour(Result(Recolour(doc, color)), color) == Recolour(doc, color)
  {
    var d1 := Result(Recolour(doc, color));
    RecolourKeepsShape(doc, color);
    SameShapeSearches(doc, d1, "svg");
    var root := FirstWithTag(doc, "svg").value;
    if !doc[root].styled {
      assert RepaintAttributes(d1[root], color) == d1[root];
      assert d1[root := RepaintAttributes(d1[root], color)] == d1;
    } else {
      var r := Result(Recolour(d1, color));
      forall i | 0 <= i < |doc| ensures r[i] == d1[i] {
        if i == root || doc[i].tag == "path" {
          RepaintIdempotent(doc[i], color);
        }
      }
      assert r == d1;
    }
  }

  /** After recolouring with `""`, even when it threw part-way, every later
      recolouring ends the same way and leaves the document as it is: the
      emptied slots are no longer seen as set. */
  lemma RecolourAfterEmpty(doc: Document, color: string)
    requires !Recolour(doc, "").MissingRoot?
    ensures Recolour(Result(Recolour(doc, "")), color) == Recolour(doc, "")
  {
    var d1 := Result(Recolour(doc, ""));
    RecolourKeepsShape(doc, "");
    SameShapeSearches(doc, d1, "svg");
    var root := FirstWithTag(doc, "svg").value;
    if !doc[root].styled {
      assert RepaintAttributes(d1[root], color) == d1[root];
      assert d1[root := RepaintAttributes(d1[root], color)] == d1;
    } else {
      var r := Result(Recolour(d1, color));
      forall i | 0 <= i < |doc| ensures r[i] == d1[i] {
        if i == root || doc[i].tag == "path" {
          RepaintAfterEmpty(doc[i], color);
        }
      }
      assert r == d1;
    }
  }

  /** The "last colour wins" law needs a non-empty first colour: recolouring
      with `""` empties the slots, and a later recolouring no longer sees them. */
  lemma EmptyColorBreaksLastWins()
    ensures var doc := [Element("svg", true, Some("red"), None, "", "")];
      Recolour(Recolour(doc, "").doc, "blue") != Recolour(doc, "blue")
  {
    var doc := [Element("svg", true, Some("red"), None, "", "")];
    assert FirstWithTag(doc, "svg") == Some(0);
    assert FirstUnstyledPath(doc) == None;
    var d1 := Recolour(doc, "").doc;
    assert d1[0].fill == Some("");
    RecolourAfterEmpty(doc, "blue");
    assert Recolour(doc, "blue").doc[0].fill == Some("blue");
  }

  /** `<svg xmlns="http://www.w3.org/2000/svg" fill="black"><path stroke="black"/></svg>`
      recoloured to `#112233` becomes the same markup with `fill="#112233"`
      and `stroke="#112233"`. */
  lemma ExampleIcon()
    ensures Recolour([Element("svg", true, Some("black"), None, "", ""), Element("path", true, None, Some("black"), "", "")], "#112233")
         == Recoloured([Element("svg", true, Some("#112233"), None, "", ""), Element("path", true, None, Some("#112233"), "", "")])
  {
    var doc := [Element("svg", true, Some("black"), None, "", ""), Element("path", true, None, Some("black"), "", "")];
    var want := [Element("svg", true, Some("#112233"), None, "", ""), Element("path", true, None, Some("#112233"), "", "")];
    assert FirstWithTag(doc, "svg") == Some(0);
    assert FirstUnstyledPath(doc[1..]) == None;
    var r := Recolour(doc, "#112233").doc;
    assert r[0] == want[0] && r[1] == want[1];
    assert r == want;
  }

  /** Without the SVG namespace, `<svg fill="black"><path stroke="black"/></svg>`
      gets its `fill` attribute recoloured, then throws at the `svg`
      element's style; the `path` element is never reached. */
  lemma ExampleWithoutNamespace()
    ensures Recolour([Element("svg", false, Some("black"), None, "", ""), Element("path", false, None, Some("black"), "", "")], "#112233")
         == Interrupted([Element("svg", false, Some("#112233"), None, "", ""), Element("path", false, None, Some("black"), "", "")])
  {
    var doc := [Element("svg", false, Some("black"), None, "", ""), Element("path", false, None, Some("black"), "", "")];
    var want := [Element("svg", false, Some("#112233"), None, "", ""), Element("path", false, None, Some("black"), "", "")];
    assert FirstWithTag(doc, "svg") == Some(0);
    var r := Recolour(doc, "#112233").partial;
    assert r[0] == want[0] && r[1] == want[1];
    assert r == want;
  }
}
