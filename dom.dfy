/** The small part of the DOM that the media dialog relies on: elements with
    attributes, light children and an optional open shadow root; document
    order; `querySelector` and `querySelectorAll` for compound selectors built
    from type, attribute-presence, attribute-value and `:not(...)` parts. */
module Dom {

  datatype Option<T> = None | Some(value: T)

  /** An element. `tag` is the lower-case local name, `attributes` maps each
      present attribute to its value, `isHTMLElement` says whether the element
      is an HTMLElement (an SVG element, say, is not), `tabIndex` is the
      `tabIndex` property, `children` are the light-tree element children and
      `shadowRoot` holds the children of the element's open shadow root, if it
      has one (a closed shadow root is not visible through `shadowRoot`, so it
      is `None` here). `id` only tells elements of equal shape apart. */
  datatype Element = Element(
    id: nat,
    tag: string,
    attributes: map<string, string>,
    isHTMLElement: bool,
    tabIndex: int,
    children: seq<Element>,
    shadowRoot: ShadowRoot)

  /** What an element's `shadowRoot` property gives: nothing, or the children of an open shadow root. */
  datatype ShadowRoot = NoShadowRoot | OpenShadowRoot(children: seq<Element>)

  /** Number of elements in an element's light and shadow subtrees, itself included. */
  function ElementSize(e: Element): nat
    decreases e
  {
    1 + ForestSize(e.children) + (if e.shadowRoot.OpenShadowRoot? then ForestSize(e.shadowRoot.children) else 0)
  }

  function ForestSize(f: seq<Element>): nat
    decreases f
  {
    if f == [] then 0 else ElementSize(f[0]) + ForestSize(f[1..])
  }

  /** The elements below a list of sibling subtrees in document order (a
      pre-order walk of the light tree), which is what `querySelectorAll("*")`
      yields on their parent: the parent itself is not included and shadow
      roots are not entered. */
  function Descendants(f: seq<Element>): (d: seq<Element>)
    ensures forall i :: 0 <= i < |d| ==> ElementSize(d[i]) <= ForestSize(f)
    ensures f != [] ==> |d| >= |f| && d[0] == f[0]
    decreases f
  {
    if f == [] then [] else [f[0]] + Descendants(f[0].children) + Descendants(f[1..])
  }

  /** The elements below an element in document order. */
  function DescendantsOf(e: Element): (d: seq<Element>)
    ensures forall i :: 0 <= i < |d| ==> ElementSize(d[i]) < ElementSize(e)
  {
    Descendants(e.children)
  }

  /** The parts of a compound selector: `tag`, `[name]`, `[name="value"]`, `:not(part)`. */
  datatype SimpleSelector =
    | TypeIs(name: string)
    | HasAttribute(name: string)
    | AttributeEquals(name: string, value: string)
    | Not(inner: SimpleSelector)

  /** A compound selector matches when each of its parts does. */
  type CompoundSelector = seq<SimpleSelector>

  /** A selector list (`a, b, c`) matches when one of its compound selectors does. */
  type SelectorList = seq<CompoundSelector>

  predicate MatchesSimple(s: SimpleSelector, e: Element)
  {
    match s
    case TypeIs(name) => e.tag == name
    case HasAttribute(name) => name in e.attributes
    case AttributeEquals(name, value) => name in e.attributes && e.attributes[name] == value
    case Not(inner) => !MatchesSimple(inner, e)
  }

  predicate MatchesCompound(c: CompoundSelector, e: Element)
  {
    forall i :: 0 <= i < |c| ==> MatchesSimple(c[i], e)
  }

  predicate Matches(sel: SelectorList, e: Element)
  {
    exists i :: 0 <= i < |sel| && MatchesCompound(sel[i], e)
  }

  /** Position of the first element of `s` that matches `sel`, or `|s|` when none does. */
  function FirstMatchIndex(s: seq<Element>, sel: SelectorList): (k: nat)
    ensures k <= |s|
    ensures forall j :: 0 <= j < k ==> !Matches(sel, s[j])
    ensures k < |s| ==> Matches(sel, s[k])
  {
    if s == [] then 0
    else if Matches(sel, s[0]) then 0
    else 1 + FirstMatchIndex(s[1..], sel)
  }

  /** `parent.querySelector(sel)` where `f` are the parent's children (of an
      element or of a shadow root): the first descendant in document order
      that matches. */
  function QuerySelector(f: seq<Element>, sel: SelectorList): (r: Option<Element>)
    ensures r.None? ==> forall j :: 0 <= j < |Descendants(f)| ==> !Matches(sel, Descendants(f)[j])
    ensures r.Some? ==> exists k :: 0 <= k < |Descendants(f)| && Descendants(f)[k] == r.value
                                    && Matches(sel, r.value)
                                    && forall j :: 0 <= j < k ==> !Matches(sel, Descendants(f)[j])
  {
    var d := Descendants(f);
    var k := FirstMatchIndex(d, sel);
    if k < |d| then
      assert Matches(sel, d[k]);
      assert !(forall j :: 0 <= j < |d| ==> !Matches(sel, d[j]));
      Some(d[k])
    else None
  }
}
