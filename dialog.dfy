/** The `<media-dialog>` element's focus management: on `show()` it opens,
    remembers which element had focus and moves focus into itself; on
    `close()` it closes and gives focus back; when connected it defaults its
    role and, if already open, takes focus. The state is the dialog's
    attributes, its remembered element and the document's active element. */
module Dialog {
  import opened Dom
  import opened Focusable

  /** The tag name the dialog is registered under. */
  const DialogTag: string := "media-dialog"

  /** `[autofocus]:not([disabled])`. */
  const AutofocusQuery: SelectorList := [[HasAttribute("autofocus"), Not(HasAttribute("disabled"))]]

  predicate IsEnabledAutofocus(e: Element)
  {
    "autofocus" in e.attributes && "disabled" !in e.attributes
  }

  lemma AutofocusQueryMeaning(e: Element)
    ensures Matches(AutofocusQuery, e) <==> IsEnabledAutofocus(e)
  {
    var c := AutofocusQuery[0];
    assert c == [HasAttribute("autofocus"), Not(HasAttribute("disabled"))];
    assert MatchesSimple(c[1], e) <==> !MatchesSimple(HasAttribute("disabled"), e);
    assert MatchesCompound(c, e) <==> MatchesSimple(c[0], e) && MatchesSimple(c[1], e);
    assert Matches(AutofocusQuery, e) <==> MatchesCompound(c, e);
  }

  /** Everything the focus logic reads or changes: the dialog's id,
      attributes, `tabIndex` and light children, its remembered element
      (`_previouslyFocusedElement`, `None` while never set), the document's
      active element and whether the platform has shadow DOM. */
  datatype DialogView = DialogView(
    id: nat,
    attributes: map<string, string>,
    tabIndex: int,
    children: seq<Element>,
    previouslyFocused: Option<Element>,
    activeElement: Option<Element>,
    shadowDom: bool)

  /** The dialog seen as an element: an HTMLElement whose own shadow root
      (its styling template) is left opaque. */
  function SelfElement(v: DialogView): (e: Element)
    ensures e.tag == DialogTag && e.isHTMLElement && e.attributes == v.attributes
    ensures DescendantsOf(e) == Descendants(v.children)
  {
    Element(v.id, DialogTag, v.attributes, true, v.tabIndex, v.children, NoShadowRoot)
  }

  /** The element `focus(el)` tries to focus: the first enabled `[autofocus]`
      light descendant; otherwise the dialog itself when its `tabIndex` is at
      least 0; otherwise whatever the locator finds in the dialog. */
  function FocusTarget(v: DialogView): (r: Option<Element>)
    ensures r.Some? ==> || (r.value == SelfElement(v) && v.tabIndex >= 0)
                        || Matches(AutofocusQuery, r.value)
                        || IsFocusable(r.value)
  {
    var autofocus := QuerySelector(v.children, AutofocusQuery);
    if autofocus.Some? then autofocus
    else if v.tabIndex >= 0 then Some(SelfElement(v))
    else Locate(v.children, v.shadowDom)
  }

  /** The active element after blurring `active` (only an HTMLElement is
      blurred) and then focusing `target` (only an HTMLElement is focused). */
  function ActiveAfterFocus(active: Option<Element>, target: Option<Element>): (r: Option<Element>)
    ensures r == target || r == active || r == None
    ensures r.Some? && r.value.isHTMLElement ==> r == target
    ensures target.Some? && target.value.isHTMLElement ==> r == target
  {
    var blurred := if active.Some? && active.value.isHTMLElement then None else active;
    if target.Some? && target.value.isHTMLElement then target else blurred
  }

  /** `focus(el)`: record the active element, blur it, focus the target. */
  function AfterFocus(v: DialogView): (w: DialogView)
    ensures w.previouslyFocused == v.activeElement
    ensures w.(previouslyFocused := v.previouslyFocused, activeElement := v.activeElement) == v
  {
    v.(previouslyFocused := v.activeElement,
       activeElement := ActiveAfterFocus(v.activeElement, FocusTarget(v)))
  }

  /** `restoreFocus(el)`: focus the remembered element when it is an HTMLElement. */
  function AfterRestoreFocus(v: DialogView): (w: DialogView)
    ensures w.activeElement == v.activeElement || w.activeElement == v.previouslyFocused
    ensures w.(activeElement := v.activeElement) == v
  {
    if v.previouslyFocused.Some? && v.previouslyFocused.value.isHTMLElement
    then v.(activeElement := v.previouslyFocused)
    else v
  }

  function AfterShow(v: DialogView): (w: DialogView)
    ensures "open" in w.attributes && w.previouslyFocused == v.activeElement
    ensures w.children == v.children && w.tabIndex == v.tabIndex
  {
    AfterFocus(v.(attributes := v.attributes["open" := ""]))
  }

  function AfterClose(v: DialogView): (w: DialogView)
    ensures "open" !in w.attributes && w.previouslyFocused == v.previouslyFocused
    ensures w.children == v.children && w.tabIndex == v.tabIndex
  {
    AfterRestoreFocus(v.(attributes := v.attributes - {"open"}))
  }

  function AfterConnected(v: DialogView): (w: DialogView)
    ensures "role" in w.attributes
    ensures ("open" in w.attributes) == ("open" in v.attributes)
    ensures w.children == v.children && w.tabIndex == v.tabIndex
  {
    var withRole := if "role" in v.attributes then v else v.(attributes := v.attributes["role" := "dialog"]);
    if "open" in withRole.attributes then AfterFocus(withRole) else withRole
  }

  /** The document: its active element, and whether `attachShadow` exists. */
  class Document {
    var activeElement: Option<Element>
    const shadowDomSupported: bool

    constructor (activeElement: Option<Element>, shadowDomSupported: bool)
      ensures this.activeElement == activeElement && this.shadowDomSupported == shadowDomSupported
    {
      this.activeElement := activeElement;
      this.shadowDomSupported := shadowDomSupported;
    }

    /** `document.activeElement.blur()`. */
    method Blur()
      modifies this`activeElement
      ensures activeElement == None
    {
      activeElement := None;
    }

    /** `e.focus()`. */
    method FocusOn(e: Element)
      modifies this`activeElement
      ensures activeElement == Some(e)
    {
      activeElement := Some(e);
    }
  }

  class MediaDialog {
    const id: nat
    var attributes: map<string, string>
    var tabIndex: int
    var children: seq<Element>
    var previouslyFocusedElement: Option<Element>
    const document: Document

    constructor (id: nat, attributes: map<string, string>, tabIndex: int, children: seq<Element>, document: Document)
      ensures View() == DialogView(id, attributes, tabIndex, children, None,
                                   document.activeElement, document.shadowDomSupported)
      ensures this.document == document
    {
      this.id := id;
      this.attributes := attributes;
      this.tabIndex := tabIndex;
      this.children := children;
      this.previouslyFocusedElement := None;
      this.document := document;
    }

    function View(): DialogView
      reads this, document
    {
      DialogView(id, attributes, tabIndex, children, previouslyFocusedElement,
                 document.activeElement, document.shadowDomSupported)
    }

    method Show()
      modifies this`attributes, this`previouslyFocusedElement, document`activeElement
      ensures View() == AfterShow(old(View()))
    {
      attributes := attributes["open" := ""];
      Focus(this);
    }

    method Close()
      modifies this`attributes, document`activeElement
      ensures View() == AfterClose(old(View()))
    {
      attributes := attributes - {"open"};
      RestoreFocus(this);
    }

    method ConnectedCallback()
      modifies this`attributes, this`previouslyFocusedElement, document`activeElement
      ensures View() == AfterConnected(old(View()))
    {
      if "role" !in attributes {
        attributes := attributes["role" := "dialog"];
      }
      if "open" in attributes {
        Focus(this);
      }
    }
  }

  /** `focus(el)`, step by step as the source does it. */
  method Focus(el: MediaDialog)
    modifies el`previouslyFocusedElement, el.document`activeElement
    ensures el.View() == AfterFocus(old(el.View()))
  {
    var target := QuerySelector(el.children, AutofocusQuery);
    if target.None? && el.tabIndex >= 0 {
      target := Some(SelfElement(el.View()));
    }
    if target.None? {
      target := FindFocusableElementWithin(el.children, el.document.shadowDomSupported);
    }
    el.previouslyFocusedElement := el.document.activeElement;
    var active := el.document.activeElement;
    if active.Some? && active.value.isHTMLElement {
      el.document.Blur();
    }
    if target.Some? && target.value.isHTMLElement {
      el.document.FocusOn(target.value);
    }
  }

  /** `restoreFocus(el)`. */
  method RestoreFocus(el: MediaDialog)
    modifies el.document`activeElement
    ensures el.View() == AfterRestoreFocus(old(el.View()))
  {
    var previous := el.previouslyFocusedElement;
    if previous.Some? && previous.value.isHTMLElement {
      el.document.FocusOn(previous.value);
    }
  }

  // Properties of the focus target.

  /** An enabled `[autofocus]` descendant comes first: the first one in
      document order is the target. */
  lemma AutofocusTakesPriority(v: DialogView, k: nat)
    requires k < |Descendants(v.children)|
    requires IsEnabledAutofocus(Descendants(v.children)[k])
    requires forall j :: 0 <= j < k ==> !IsEnabledAutofocus(Descendants(v.children)[j])
    ensures FocusTarget(v) == Some(Descendants(v.children)[k])
  {
    var d := Descendants(v.children);
    AutofocusQueryMeaning(d[k]);
    var r := QuerySelector(v.children, AutofocusQuery);
    var k' :| 0 <= k' < |d| && d[k'] == r.value && Matches(AutofocusQuery, r.value)
              && forall j :: 0 <= j < k' ==> !Matches(AutofocusQuery, d[j]);
    AutofocusQueryMeaning(d[k']);
    assert !(k < k') && !(k' < k);
  }

  /** Without an enabled `[autofocus]` descendant, the dialog itself is the
      target when its `tabIndex` is at least 0, and the locator's result
      otherwise. */
  lemma WithoutAutofocus(v: DialogView)
    requires forall j :: 0 <= j < |Descendants(v.children)| ==> !IsEnabledAutofocus(Descendants(v.children)[j])
    ensures v.tabIndex >= 0 ==> FocusTarget(v) == Some(SelfElement(v))
    ensures v.tabIndex < 0 ==> FocusTarget(v) == Locate(v.children, v.shadowDom)
  {
    var d := Descendants(v.children);
    var r := QuerySelector(v.children, AutofocusQuery);
    if r.Some? {
      var k :| 0 <= k < |d| && d[k] == r.value && Matches(AutofocusQuery, r.value);
      AutofocusQueryMeaning(d[k]);
    }
  }

  /** A target is the dialog itself (with `tabIndex` at least 0) or an enabled
      element strictly inside the dialog that has `autofocus` or matches the
      focusable query; in particular a disabled descendant is never the
      target. */
  lemma FocusTargetSound(v: DialogView)
    ensures var t := FocusTarget(v);
            t.Some? ==>
              || (t.value == SelfElement(v) && v.tabIndex >= 0)
              || (&& t.value != SelfElement(v)
                  && InSearchScope(t.value, v.children, v.shadowDom)
                  && "disabled" !in t.value.attributes
                  && (IsEnabledAutofocus(t.value) || IsFocusable(t.value)))
  {
    var d := Descendants(v.children);
    var self := SelfElement(v);
    assert DescendantsOf(self) == d;
    var r := QuerySelector(v.children, AutofocusQuery);
    if r.Some? {
      var k :| 0 <= k < |d| && d[k] == r.value && Matches(AutofocusQuery, r.value);
      AutofocusQueryMeaning(d[k]);
      assert ElementSize(d[k]) < ElementSize(self);
    } else if v.tabIndex < 0 {
      LocateNeverReturnsHost(self, v.shadowDom);
      var t := Locate(v.children, v.shadowDom);
      if t.Some? {
        FocusableQueryMeaning(t.value);
      }
    }
  }

  /** There is no target exactly when no descendant is an enabled
      `[autofocus]` element, the dialog's `tabIndex` is negative and nothing
      the locator can reach is focusable. */
  lemma FocusTargetNoneIff(v: DialogView)
    ensures FocusTarget(v).None? <==>
              && (forall j :: 0 <= j < |Descendants(v.children)| ==> !IsEnabledAutofocus(Descendants(v.children)[j]))
              && v.tabIndex < 0
              && (forall e :: InSearchScope(e, v.children, v.shadowDom) ==> !IsFocusable(e))
  {
    var d := Descendants(v.children);
    LocateNoneIff(v.children, v.shadowDom);
    var r := QuerySelector(v.children, AutofocusQuery);
    if r.Some? {
      var k :| 0 <= k < |d| && d[k] == r.value && Matches(AutofocusQuery, r.value);
      AutofocusQueryMeaning(d[k]);
    } else {
      forall j | 0 <= j < |d|
        ensures !IsEnabledAutofocus(d[j])
      {
        AutofocusQueryMeaning(d[j]);
      }
    }
  }

  // Properties of the transitions.

  /** `show()` sets `open` and changes no other attribute, records the
      element that was active before the blur, and leaves the target focused
      when it is an HTMLElement; otherwise the previously active element has
      lost focus if it was an HTMLElement and kept it if not. */
  lemma ShowEffects(v: DialogView)
    ensures var w, t := AfterShow(v), FocusTarget(AfterShow(v));
            var focusesTarget := t.Some? && t.value.isHTMLElement;
            var blursActive := v.activeElement.Some? && v.activeElement.value.isHTMLElement;
            && w.attributes == v.attributes["open" := ""]
            && w.previouslyFocused == v.activeElement
            && (focusesTarget ==> w.activeElement == t)
            && (!focusesTarget && blursActive ==> w.activeElement == None)
            && (!focusesTarget && !blursActive ==> w.activeElement == v.activeElement)
            && w.id == v.id && w.tabIndex == v.tabIndex && w.children == v.children && w.shadowDom == v.shadowDom
  {
  }

  /** Each `show()` overwrites the remembered element, even on a dialog that
      is already open: the second call remembers what the first one focused. */
  lemma ShowAlwaysOverwritesMemory(v: DialogView)
    ensures AfterShow(AfterShow(v)).previouslyFocused == AfterShow(v).activeElement
  {
  }

  /** `show()` then `close()` gives focus back to the HTMLElement that had it
      before `show()`, and leaves the dialog without `open`. */
  lemma ShowThenCloseRestoresFocus(v: DialogView)
    requires v.activeElement.Some? && v.activeElement.value.isHTMLElement
    ensures AfterClose(AfterShow(v)).activeElement == v.activeElement
    ensures "open" !in AfterClose(AfterShow(v)).attributes
  {
  }

  /** Showing an open dialog a second time and then closing it gives focus
      back to what the first `show()` focused, not to the element focused
      before the dialog opened. */
  lemma CloseAfterRepeatedShowRestoresFirstTarget(v: DialogView)
    requires var t := FocusTarget(AfterShow(v)); t.Some? && t.value.isHTMLElement
    ensures AfterClose(AfterShow(AfterShow(v))).activeElement == FocusTarget(AfterShow(v))
  {
  }

  /** `close()` removes `open` and changes no other attribute; it moves focus
      to the remembered element when that is an HTMLElement and leaves focus
      alone otherwise; it keeps the remembered element. */
  lemma CloseEffects(v: DialogView)
    ensures var w := AfterClose(v);
            && w.attributes == v.attributes - {"open"}
            && "open" !in w.attributes
            && w.previouslyFocused == v.previouslyFocused
            && w.activeElement == (if v.previouslyFocused.Some? && v.previouslyFocused.value.isHTMLElement
                                   then v.previouslyFocused else v.activeElement)
  {
  }

  /** On a dialog that was never shown, `close()` leaves focus where it is. */
  lemma CloseWithoutShowKeepsFocus(v: DialogView)
    requires v.previouslyFocused.None?
    ensures AfterClose(v).activeElement == v.activeElement
  {
  }

  /** A second `close()` changes nothing. */
  lemma CloseIsIdempotent(v: DialogView)
    ensures AfterClose(AfterClose(v)) == AfterClose(v)
  {
  }

  /** On connection the dialog gets `role="dialog"` only when it has no role
      (an existing role is kept), and it takes focus exactly when it is open. */
  lemma ConnectedEffects(v: DialogView)
    ensures var w := AfterConnected(v);
            && w.attributes == (if "role" in v.attributes then v.attributes
                                else v.attributes["role" := "dialog"])
            && ("role" in v.attributes ==> w.attributes["role"] == v.attributes["role"])
            && ("open" in v.attributes ==> w == AfterFocus(v.(attributes := w.attributes)))
            && ("open" !in v.attributes ==> w.previouslyFocused == v.previouslyFocused
                                            && w.activeElement == v.activeElement)
  {
  }
}

