/** The focusable-element locator of the media dialog
    (`findFocusableElementWithin`): the first element in document order that
    matches a fixed selector list, looked up in the light tree first and, only
    when that finds nothing, in the open shadow roots of the light-tree
    descendants, one after the other and recursively. */
module Focusable {
  import opened Dom

  /** The form controls that are focusable unless disabled. */
  const FormControlTags: seq<string> := ["button", "input", "keygen", "select", "textarea"]

  /** `button:not([disabled]), input:not([disabled]), keygen:not([disabled]),
      select:not([disabled]), textarea:not([disabled]),
      [tabindex]:not([disabled]):not([tabindex=""])`, built the way the
      locator builds it: one entry per form control, then the tabindex entry. */
  function FocusableQuery(): (q: SelectorList)
    ensures |q| == |FormControlTags| + 1
    ensures forall i :: 0 <= i < |q| ==> Not(HasAttribute("disabled")) in q[i]
  {
    seq(|FormControlTags|, i requires 0 <= i < |FormControlTags| =>
      [TypeIs(FormControlTags[i]), Not(HasAttribute("disabled"))])
    + [[HasAttribute("tabindex"), Not(HasAttribute("disabled")), Not(AttributeEquals("tabindex", ""))]]
  }

  predicate IsFocusable(e: Element)
  {
    Matches(FocusableQuery(), e)
  }

  /** The two kinds of element the query accepts, and nothing else. */
  predicate IsEnabledFormControlOrTabStop(e: Element)
  {
    && "disabled" !in e.attributes
    && (|| e.tag in FormControlTags
        || ("tabindex" in e.attributes && e.attributes["tabindex"] != ""))
  }

  /** The selector list matches exactly the enabled form controls and the
      enabled elements with a non-empty `tabindex`; a disabled element never
      matches. */
  lemma FocusableQueryMeaning(e: Element)
    ensures IsFocusable(e) <==> IsEnabledFormControlOrTabStop(e)
    ensures "disabled" in e.attributes ==> !IsFocusable(e)
  {
    var q := FocusableQuery();
    assert |q| == 6;
    if IsFocusable(e) {
      var i :| 0 <= i < |q| && MatchesCompound(q[i], e);
      if i == 5 {
        assert q[i] == [HasAttribute("tabindex"), Not(HasAttribute("disabled")), Not(AttributeEquals("tabindex", ""))];
        assert MatchesSimple(q[i][0], e) && MatchesSimple(q[i][1], e) && MatchesSimple(q[i][2], e);
        assert !MatchesSimple(HasAttribute("disabled"), e) && !MatchesSimple(AttributeEquals("tabindex", ""), e);
      } else {
        assert q[i] == [TypeIs(FormControlTags[i]), Not(HasAttribute("disabled"))];
        assert MatchesSimple(q[i][0], e) && MatchesSimple(q[i][1], e);
        assert !MatchesSimple(HasAttribute("disabled"), e);
      }
    }
    if IsEnabledFormControlOrTabStop(e) {
      if e.tag in FormControlTags {
        var i :| 0 <= i < |FormControlTags| && FormControlTags[i] == e.tag;
        assert q[i] == [TypeIs(e.tag), Not(HasAttribute("disabled"))];
        assert MatchesCompound(q[i], e);
        assert Matches(q, e);
      } else {
        assert q[5] == [HasAttribute("tabindex"), Not(HasAttribute("disabled")), Not(AttributeEquals("tabindex", ""))];
        assert MatchesCompound(q[5], e);
        assert Matches(q, e);
      }
    }
  }

  /** The test `elems[i].tagName && elems[i].shadowRoot`. */
  predicate HostsShadowRoot(e: Element): (b: bool)
    ensures b ==> e.shadowRoot.OpenShadowRoot? && ForestSize(e.shadowRoot.children) < ElementSize(e)
  {
    e.tag != "" && e.shadowRoot.OpenShadowRoot?
  }

  /** The locator applied to a host whose children (light children of an
      element, or children of a shadow root) are `f`. `shadowDom` says
      whether the platform has `attachShadow`. */
  function Locate(f: seq<Element>, shadowDom: bool): (r: Option<Element>)
    ensures r.Some? ==> IsFocusable(r.value)
    ensures QuerySelector(f, FocusableQuery()).Some? ==> r == QuerySelector(f, FocusableQuery())
    ensures !shadowDom ==> r == QuerySelector(f, FocusableQuery())
    decreases ForestSize(f), 1
  {
    var direct := QuerySelector(f, FocusableQuery());
    if direct.None? && shadowDom then ShadowSearch(f, shadowDom, 0) else direct
  }

  /** The loop over `querySelectorAll("*")` from position `i` on: the first
      hit of the locator in the shadow root of a light-tree descendant. */
  function ShadowSearch(f: seq<Element>, shadowDom: bool, i: nat): (r: Option<Element>)
    requires i <= |Descendants(f)|
    ensures r.Some? ==> IsFocusable(r.value)
    decreases ForestSize(f), 0, |Descendants(f)| - i
  {
    var d := Descendants(f);
    if i == |d| then None
    else if HostsShadowRoot(d[i]) then
      var hit := Locate(d[i].shadowRoot.children, shadowDom);
      if hit.Some? then hit else ShadowSearch(f, shadowDom, i + 1)
    else ShadowSearch(f, shadowDom, i + 1)
  }

  /** The elements the locator can reach from a host with children `f`: its
      light-tree descendants and, when shadow DOM exists, whatever it can
      reach inside the open shadow root of any of them. */
  ghost predicate InSearchScope(e: Element, f: seq<Element>, shadowDom: bool)
    decreases ForestSize(f)
  {
    var d := Descendants(f);
    || e in d
    || (shadowDom && exists i :: 0 <= i < |d| && HostsShadowRoot(d[i])
                                 && InSearchScope(e, d[i].shadowRoot.children, shadowDom))
  }

  /** `findFocusableElementWithin`, as the source writes it: a query over the
      light tree, then, when it finds nothing, a loop over the light-tree
      descendants that recurses into each open shadow root and stops at the
      first hit. */
  method FindFocusableElementWithin(f: seq<Element>, shadowDom: bool) returns (target: Option<Element>)
    ensures target == Locate(f, shadowDom)
    decreases ForestSize(f)
  {
    target := QuerySelector(f, FocusableQuery());
    if target.None? && shadowDom {
      var elems := Descendants(f);
      var i := 0;
      while i < |elems|
        invariant 0 <= i <= |elems|
        invariant target.None?
        invariant ShadowSearch(f, shadowDom, 0) == ShadowSearch(f, shadowDom, i)
      {
        if HostsShadowRoot(elems[i]) {
          target := FindFocusableElementWithin(elems[i].shadowRoot.children, shadowDom);
          if target.Some? {
            break;
          }
        }
        i := i + 1;
      }
    }
  }

  /** Whatever the locator returns matches the focusable query and lies in
      its search scope. */
  lemma {:induction false} LocateSound(f: seq<Element>, shadowDom: bool)
    ensures var r := Locate(f, shadowDom);
            r.Some? ==> IsFocusable(r.value) && InSearchScope(r.value, f, shadowDom)
    decreases ForestSize(f), 1
  {
    var direct := QuerySelector(f, FocusableQuery());
    if direct.None? && shadowDom {
      ShadowSearchSound(f, shadowDom, 0);
    }
  }

  lemma {:induction false} ShadowSearchSound(f: seq<Element>, shadowDom: bool, i: nat)
    requires shadowDom
    requires i <= |Descendants(f)|
    ensures var r := ShadowSearch(f, shadowDom, i);
            r.Some? ==> IsFocusable(r.value) && InSearchScope(r.value, f, shadowDom)
    decreases ForestSize(f), 0, |Descendants(f)| - i
  {
    var d := Descendants(f);
    if i < |d| {
      if HostsShadowRoot(d[i]) {
        var inner := d[i].shadowRoot.children;
        LocateSound(inner, shadowDom);
        if Locate(inner, shadowDom).None? {
          ShadowSearchSound(f, shadowDom, i + 1);
        }
      } else {
        ShadowSearchSound(f, shadowDom, i + 1);
      }
    }
  }

  /** When the shadow-root loop from `i` on finds nothing, no shadow root it
      visits from `i` on yields a hit. */
  lemma {:induction false} ShadowSearchMissesAll(f: seq<Element>, shadowDom: bool, i: nat, j: nat)
    requires i <= j < |Descendants(f)|
    requires ShadowSearch(f, shadowDom, i).None?
    requires HostsShadowRoot(Descendants(f)[j])
    ensures Locate(Descendants(f)[j].shadowRoot.children, shadowDom).None?
    decreases j - i
  {
    if i < j {
      var d := Descendants(f);
      if HostsShadowRoot(d[i]) {
        assert Locate(d[i].shadowRoot.children, shadowDom).None?;
      }
      ShadowSearchMissesAll(f, shadowDom, i + 1, j);
    }
  }

  /** A locator that finds nothing leaves nothing focusable in its scope. */
  lemma {:induction false} LocateNoneComplete(f: seq<Element>, shadowDom: bool, e: Element)
    requires Locate(f, shadowDom).None?
    requires InSearchScope(e, f, shadowDom)
    ensures !IsFocusable(e)
    decreases ForestSize(f)
  {
    var d := Descendants(f);
    if e in d {
      var j :| 0 <= j < |d| && d[j] == e;
      assert !Matches(FocusableQuery(), d[j]);
    } else {
      var i :| 0 <= i < |d| && HostsShadowRoot(d[i])
               && InSearchScope(e, d[i].shadowRoot.children, shadowDom);
      ShadowSearchMissesAll(f, shadowDom, 0, i);
      LocateNoneComplete(d[i].shadowRoot.children, shadowDom, e);
    }
  }

  /** The locator returns nothing exactly when nothing in its scope, at any
      depth of nested shadow roots, is focusable. */
  lemma LocateNoneIff(f: seq<Element>, shadowDom: bool)
    ensures Locate(f, shadowDom).None? <==>
            forall e :: InSearchScope(e, f, shadowDom) ==> !IsFocusable(e)
  {
    LocateSound(f, shadowDom);
    if Locate(f, shadowDom).None? {
      forall e | InSearchScope(e, f, shadowDom)
        ensures !IsFocusable(e)
      {
        LocateNoneComplete(f, shadowDom, e);
      }
    }
  }

  /** When a light-tree descendant is focusable, the locator returns the
      first such one in document order, whether or not shadow DOM exists. */
  lemma LightTreeMatchWins(f: seq<Element>, shadowDom: bool, k: nat)
    requires k < |Descendants(f)|
    requires IsFocusable(Descendants(f)[k])
    requires forall j :: 0 <= j < k ==> !IsFocusable(Descendants(f)[j])
    ensures Locate(f, shadowDom) == Some(Descendants(f)[k])
    ensures Locate(f, shadowDom) == Locate(f, false)
  {
  }

  /** `k` is the first position from `lo` on whose open shadow root gives the
      locator a hit, and that hit is `r`. */
  ghost predicate FirstShadowHit(d: seq<Element>, shadowDom: bool, lo: nat, k: nat, r: Option<Element>)
  {
    && lo <= k < |d|
    && HostsShadowRoot(d[k])
    && Locate(d[k].shadowRoot.children, shadowDom) == r
    && forall j :: lo <= j < k && HostsShadowRoot(d[j]) ==> Locate(d[j].shadowRoot.children, shadowDom).None?
  }

  /** A first hit from `i + 1` on is also the first hit from `i` on when
      position `i` yields nothing. */
  lemma FirstShadowHitFrom(d: seq<Element>, shadowDom: bool, i: nat, k: nat, r: Option<Element>)
    requires i < |d|
    requires HostsShadowRoot(d[i]) ==> Locate(d[i].shadowRoot.children, shadowDom).None?
    requires FirstShadowHit(d, shadowDom, i + 1, k, r)
    ensures FirstShadowHit(d, shadowDom, i, k, r)
  {
    forall j | i <= j < k && HostsShadowRoot(d[j])
      ensures Locate(d[j].shadowRoot.children, shadowDom).None?
    {
      if j > i {
        assert i + 1 <= j < k;
      }
    }
  }

  lemma {:induction false} ShadowSearchFirstHit(f: seq<Element>, shadowDom: bool, i: nat)
    requires i <= |Descendants(f)|
    ensures ShadowSearch(f, shadowDom, i).Some? ==>
              exists k :: FirstShadowHit(Descendants(f), shadowDom, i, k, ShadowSearch(f, shadowDom, i))
    decreases |Descendants(f)| - i
  {
    var d := Descendants(f);
    var r := ShadowSearch(f, shadowDom, i);
    if i < |d| && r.Some? {
      if HostsShadowRoot(d[i]) && Locate(d[i].shadowRoot.children, shadowDom).Some? {
        assert FirstShadowHit(d, shadowDom, i, i, r);
      } else {
        assert r == ShadowSearch(f, shadowDom, i + 1);
        ShadowSearchFirstHit(f, shadowDom, i + 1);
        var k: nat :| FirstShadowHit(d, shadowDom, i + 1, k, r);
        FirstShadowHitFrom(d, shadowDom, i, k, r);
      }
    }
  }

  /** When no light-tree descendant is focusable, a result comes from the
      first light-tree descendant, in document order, whose open shadow root
      yields one; the shadow roots before it yield nothing. */
  lemma ShadowHitIsFirst(f: seq<Element>, shadowDom: bool)
    requires forall j :: 0 <= j < |Descendants(f)| ==> !IsFocusable(Descendants(f)[j])
    ensures Locate(f, shadowDom).Some? ==>
              shadowDom && exists k :: FirstShadowHit(Descendants(f), shadowDom, 0, k, Locate(f, shadowDom))
  {
    ShadowSearchFirstHit(f, shadowDom, 0);
  }

  /** Everything in the search scope of a host is smaller than the host. */
  lemma {:induction false} ScopeIsSmaller(e: Element, f: seq<Element>, shadowDom: bool)
    requires InSearchScope(e, f, shadowDom)
    ensures ElementSize(e) <= ForestSize(f)
    decreases ForestSize(f)
  {
    var d := Descendants(f);
    if e !in d {
      var i :| 0 <= i < |d| && HostsShadowRoot(d[i])
               && InSearchScope(e, d[i].shadowRoot.children, shadowDom);
      ScopeIsSmaller(e, d[i].shadowRoot.children, shadowDom);
    }
  }

  /** Applied to an element, the locator returns a focusable element strictly
      inside it, never the element itself. */
  lemma LocateNeverReturnsHost(host: Element, shadowDom: bool)
    ensures var r := Locate(host.children, shadowDom);
            r.Some? ==> IsFocusable(r.value) && InSearchScope(r.value, host.children, shadowDom)
                        && ElementSize(r.value) < ElementSize(host) && r.value != host
  {
    LocateSound(host.children, shadowDom);
    var r := Locate(host.children, shadowDom);
    if r.Some? {
      ScopeIsSmaller(r.value, host.children, shadowDom);
    }
  }

  /** A scope holding exactly one focusable element: the locator finds it. */
  lemma SoleFocusableIsFound(f: seq<Element>, shadowDom: bool, b: Element)
    requires InSearchScope(b, f, shadowDom) && IsFocusable(b)
    requires forall e :: InSearchScope(e, f, shadowDom) && IsFocusable(e) ==> e == b
    ensures Locate(f, shadowDom) == Some(b)
  {
    LocateNoneIff(f, shadowDom);
    LocateSound(f, shadowDom);
  }
}
