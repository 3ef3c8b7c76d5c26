# Focus management of the `<media-dialog>` element

This project models the focus logic of the `<media-dialog>` custom element of
the Mux player (`packages/mux-player/src/dialog.ts`) in Dafny and proves its
properties. The logic has two parts.

- **The focusable-element locator** (`findFocusableElementWithin`). It looks
  for the first element, in document order, that matches a fixed selector
  list. The selector list matches enabled form controls, plus enabled elements
  with a non-empty `tabindex`. The search covers the light tree first. Only
  when that finds nothing does it walk the light-tree descendants and recurse
  into each open shadow root, stopping at the first hit.
- **The dialog's open/close state machine** (`show`, `close`,
  `connectedCallback`, and the helpers `focus` and `restoreFocus`).
  - `show()`: sets `open`, then picks a focus target in this order: an
    enabled `[autofocus]` descendant, then the dialog itself, then the
    locator's result. It records the active element, blurs that element if it
    is an HTMLElement, and focuses the target if the target is an HTMLElement.
  - `close()`: removes `open` and focuses the recorded element again if it is
    an HTMLElement; otherwise focus stays where it is.
  - On connection: the dialog gets `role="dialog"` when it has no role, and
    runs the focus sequence if it is already open.
  - The guarded registration of `media-dialog` in the custom-element registry.

Files and modules:

- `dom.dfy` (`Dom`): the small DOM the code relies on.
  - Elements are values: a tag, an attribute map, an HTMLElement flag,
    `tabIndex`, light children, and the children of an open shadow root.
  - Document order is a pre-order walk (`Descendants`, which is
    `querySelectorAll("*")`).
  - Compound selectors made of type, `[attr]`, `[attr="v"]` and `:not(…)`
    parts, and `QuerySelector` (the first matching descendant, not entering
    shadow roots).
- `focusable.dfy` (`Focusable`): the locator.
  - `Locate` is its specification function.
  - `FindFocusableElementWithin` is the source's query-then-loop-with-`break`,
    proved equal to `Locate`.
  - Lemmas say what it returns, where that element lies, and when it returns
    nothing.
- `dialog.dfy` (`Dialog`): the dialog.
  - `DialogView` is the observable state: attributes, the remembered element
    (`_previouslyFocusedElement`) and the document's active element.
  - Transition functions (`AfterShow`, `AfterClose`, `AfterConnected`,
    `AfterFocus`, `AfterRestoreFocus`) act on that state.
  - The classes `Document` and `MediaDialog` have methods that update fields
    in place, each proved to perform its transition function.
  - Lemmas state the focus-target priority and the show/close/connect
    behaviour.
- `registry.dfy` (`Registry`): `customElements` as a class with a name-keyed
  map, and the idempotent registration guard.

Parts of the platform that are outside the code are parameters:

- whether `attachShadow` exists is `Document.shadowDomSupported`, passed to
  the locator as `shadowDom`;
- the document's active element is a field that `focus()` sets and `blur()`
  clears.

The model follows the code in these details:

- the locator's tag list includes `keygen`;
- `close()` refocuses the remembered element whenever it is an HTMLElement,
  and checks nothing further ("still attached" or "focusable" is not tested);
- the target is computed before the active element is recorded and blurred;
- `connectedCallback` runs only the focus sequence, not a full `show()`, and
  does not set `open`.

## Model

| member | source | states |
|---|---|---|
| `Dom.Descendants` | packages/mux-player/src/dialog.ts:134 | every element listed by `querySelectorAll("*")` is no larger than the subtrees it comes from, and the walk starts at the first child |
| `Dom.DescendantsOf` | packages/mux-player/src/dialog.ts:134 | every descendant of an element is strictly smaller than the element, so the element is never its own descendant |
| `Dom.FirstMatchIndex` | packages/mux-player/src/dialog.ts:128 | the position it returns is a match, and no element before it matches |
| `Dom.QuerySelector` | packages/mux-player/src/dialog.ts:128 | `querySelector` returns nothing only when no descendant matches; otherwise it returns a matching descendant with no match before it in document order |
| `Focusable.FocusableQueryMeaning` | packages/mux-player/src/dialog.ts:122-127 | the selector list built from the tag list and the tabindex entry matches exactly (1) a `button`, `input`, `keygen`, `select` or `textarea` without `disabled`, or (2) an element with a non-empty `tabindex` and no `disabled`; a disabled element never matches |
| `Focusable.FindFocusableElementWithin` | packages/mux-player/src/dialog.ts:117-145 | the query-then-loop code returns exactly what the locator specification `Locate` returns: the light-tree match if there is one, else the first hit found among shadow roots in document order, else nothing |
| `Focusable.FocusableQuery` | packages/mux-player/src/dialog.ts:122-127 | the selector list the locator builds has one entry per form control tag plus the tabindex entry, and every entry carries `:not([disabled])`; `FocusableQueryMeaning` gives what it matches |
| `Focusable.HostsShadowRoot` | packages/mux-player/src/dialog.ts:136 | the loop's test `elems[i].tagName && elems[i].shadowRoot`: when it holds, the element has an open shadow root, and that root's subtree is smaller than the element |
| `Focusable.Locate` | packages/mux-player/src/dialog.ts:117-145 | the locator as a function: a result always matches the focusable query; a light-tree match is returned as is; without shadow DOM the light-tree query is the whole answer |
| `Focusable.ShadowSearch` | packages/mux-player/src/dialog.ts:134-142 | the loop over light descendants from position i on, recursing into each open shadow root: any hit matches the focusable query |
| `Focusable.LocateSound` | packages/mux-player/src/dialog.ts:128-144 | any element the locator returns matches the focusable query and lies in its search scope (light descendants, and then the open shadow roots of light descendants, recursively) |
| `Focusable.ShadowSearchSound` | packages/mux-player/src/dialog.ts:134-142 | any hit of the shadow-root loop matches the query and lies in the search scope |
| `Focusable.ShadowSearchMissesAll` | packages/mux-player/src/dialog.ts:134-142 | when the loop ends without a hit, every shadow root it visited yielded nothing |
| `Focusable.LocateNoneComplete` | packages/mux-player/src/dialog.ts:128-144 | when the locator returns nothing, no element in its scope, at any depth of nested shadow roots, is focusable |
| `Focusable.LocateNoneIff` | packages/mux-player/src/dialog.ts:128-144 | the locator returns nothing if and only if nothing in its scope is focusable |
| `Focusable.LightTreeMatchWins` | packages/mux-player/src/dialog.ts:128-130 | when some light-tree descendant is focusable, the result is the first such descendant in document order, and it is the same whether or not shadow DOM exists (shadow roots are not searched) |
| `Focusable.ShadowSearchFirstHit` | packages/mux-player/src/dialog.ts:135-141 | a hit of the loop from position i comes from the first shadow host from i on whose shadow root gives a hit |
| `Focusable.ShadowHitIsFirst` | packages/mux-player/src/dialog.ts:130-142 | when no light-tree descendant is focusable, a result comes only with shadow DOM, from the first light descendant in document order whose open shadow root yields a hit; every shadow root before it yields nothing |
| `Focusable.ScopeIsSmaller` | packages/mux-player/src/dialog.ts:134-137 | everything in the search scope (light or nested shadow) is below the host |
| `Focusable.LocateNeverReturnsHost` | packages/mux-player/src/dialog.ts:128-137 | applied to an element, the locator returns a focusable element strictly inside it (through light children or nested shadow roots), never the element itself |
| `Focusable.SoleFocusableIsFound` | packages/mux-player/src/dialog.ts:117-145 | when the scope holds exactly one focusable element, the locator returns it |
| `Dialog.SelfElement` | packages/mux-player/src/dialog.ts:100-101 | the dialog as the element `target = el`: an HTMLElement with tag `media-dialog` and the dialog's attributes, whose descendants are the dialog's light descendants |
| `Dialog.FocusTarget` | packages/mux-player/src/dialog.ts:96-105 | a focus target is the dialog itself (only when `tabIndex >= 0`), an element matching `[autofocus]:not([disabled])`, or an element matching the focusable query |
| `Dialog.ActiveAfterFocus` | packages/mux-player/src/dialog.ts:108-114 | after the blur and the focus, the active element is the target, the old active element or none; an HTMLElement target always ends up active, and no other HTMLElement does |
| `Dialog.AfterFocus` | packages/mux-player/src/dialog.ts:107-114 | `focus(el)` on the state: the memory becomes the old active element, and nothing but the memory and the active element changes |
| `Dialog.AfterRestoreFocus` | packages/mux-player/src/dialog.ts:147-151 | `restoreFocus(el)` on the state: the active element becomes the remembered one or stays as it was, and nothing else changes |
| `Dialog.AfterShow` | packages/mux-player/src/dialog.ts:74-77 | after `show()` the dialog has `open`, remembers the element active before the call, and keeps its children and `tabIndex` |
| `Dialog.AfterClose` | packages/mux-player/src/dialog.ts:79-82 | after `close()` the dialog has no `open`, keeps its memory, and keeps its children and `tabIndex` |
| `Dialog.AfterConnected` | packages/mux-player/src/dialog.ts:84-92 | after `connectedCallback()` the dialog has a `role`, is open exactly when it was, and keeps its children and `tabIndex` |
| `Dialog.AutofocusQueryMeaning` | packages/mux-player/src/dialog.ts:97-99 | `[autofocus]:not([disabled])` matches exactly the elements with `autofocus` and without `disabled` |
| `Dialog.AutofocusTakesPriority` | packages/mux-player/src/dialog.ts:97-99 | when there is an enabled `[autofocus]` descendant, the first one in document order is the focus target, whatever the dialog's `tabIndex` |
| `Dialog.WithoutAutofocus` | packages/mux-player/src/dialog.ts:100-105 | without an enabled `[autofocus]` descendant, the target is the dialog itself when its `tabIndex >= 0`, and the locator's result otherwise |
| `Dialog.FocusTargetSound` | packages/mux-player/src/dialog.ts:96-105 | a target is either the dialog itself with `tabIndex >= 0`, or an element strictly inside the dialog, without `disabled`, that has `autofocus` or matches the focusable query |
| `Dialog.FocusTargetNoneIff` | packages/mux-player/src/dialog.ts:97-105 | there is no target if and only if no descendant is an enabled `[autofocus]` element, `tabIndex < 0`, and nothing in the locator's scope is focusable |
| `Dialog.Focus` | packages/mux-player/src/dialog.ts:95-115 | the step-by-step `focus(el)` method records the active element, blurs it when it is an HTMLElement, and focuses the chosen target when it is an HTMLElement, exactly as `AfterFocus` |
| `Dialog.RestoreFocus` | packages/mux-player/src/dialog.ts:147-151 | focuses the remembered element when it is an HTMLElement, and otherwise changes nothing (`AfterRestoreFocus`) |
| `Dialog.Document.Blur` | packages/mux-player/src/dialog.ts:108-110 | blurring the active element leaves nothing focused |
| `Dialog.Document.FocusOn` | packages/mux-player/src/dialog.ts:112-113 | focusing an element makes it the active element |
| `Dialog.MediaDialog.constructor` | packages/mux-player/src/dialog.ts:60-72 | a new dialog has the given attributes and children, and no remembered element |
| `Dialog.MediaDialog.Show` | packages/mux-player/src/dialog.ts:74-77 | sets `open` and then runs the focus sequence on the opened dialog (`AfterShow`) |
| `Dialog.MediaDialog.Close` | packages/mux-player/src/dialog.ts:79-82 | removes `open` and then restores focus (`AfterClose`) |
| `Dialog.MediaDialog.ConnectedCallback` | packages/mux-player/src/dialog.ts:84-92 | sets `role="dialog"` when there is no role, then runs the focus sequence when `open` is present (`AfterConnected`) |
| `Dialog.ShowEffects` | packages/mux-player/src/dialog.ts:107-114 | after `show()` (74-77): `open` is set and no other attribute changes; the remembered element is the one active before the blur; an HTMLElement target is focused; otherwise an HTMLElement that was active has lost focus and a non-HTML active element keeps it |
| `Dialog.ShowAlwaysOverwritesMemory` | packages/mux-player/src/dialog.ts:107 | a repeated `show()` overwrites the memory with the active element the first `show()` left behind (its target when that is an HTMLElement; otherwise none, or the earlier non-HTML active element) |
| `Dialog.ShowThenCloseRestoresFocus` | packages/mux-player/src/dialog.ts:74-82 | `show()` then `close()` gives focus back to the HTMLElement that had it before `show()`, and leaves the dialog closed |
| `Dialog.CloseAfterRepeatedShowRestoresFirstTarget` | packages/mux-player/src/dialog.ts:107-113 | after two `show()` calls whose target is an HTMLElement, `close()` refocuses that target, not the element focused before the dialog opened |
| `Dialog.CloseEffects` | packages/mux-player/src/dialog.ts:79-82 | `close()` removes `open` and no other attribute, moves focus to the remembered element if that is an HTMLElement and leaves focus alone otherwise, and does not clear the memory |
| `Dialog.CloseWithoutShowKeepsFocus` | packages/mux-player/src/dialog.ts:147-151 | on a dialog never shown (no remembered element) `close()` leaves focus unchanged |
| `Dialog.CloseIsIdempotent` | packages/mux-player/src/dialog.ts:79-82 | a second `close()` changes nothing |
| `Dialog.ConnectedEffects` | packages/mux-player/src/dialog.ts:84-92 | `role="dialog"` is added only when no role exists and an existing role is kept; the focus sequence runs when `open` is present, and focus and memory are untouched when it is not |
| `Registry.CustomElementRegistry.Get` | packages/mux-player/src/dialog.ts:153 | `customElements.get` finds a definition exactly when the name is defined, and returns that definition |
| `Registry.CustomElementRegistry.Define` | packages/mux-player/src/dialog.ts:154 | `customElements.define` adds the name, which must not be defined yet |
| `Registry.RegisterMediaDialog` | packages/mux-player/src/dialog.ts:153-154 | the guard defines `media-dialog` only when it is absent (`DefineIfAbsent`) |
| `Registry.DefineIfAbsent` | packages/mux-player/src/dialog.ts:153-154 | after the guard the name is defined, no other name is added, and an existing definition leaves the registry unchanged |
| `Registry.DefineIfAbsentEffects` | packages/mux-player/src/dialog.ts:153-154 | after registration the name is defined, an existing definition is kept, and every other name is untouched |
| `Registry.DefineIfAbsentIsIdempotent` | packages/mux-player/src/dialog.ts:153-154 | registering twice leaves the registry as registering once does |

## Left out

- The style template and the constructor's shadow-root attachment
  (dialog.ts:4-58, 67-72): styling and DOM plumbing with no focus behaviour.
  The dialog's own shadow root is opaque. `SelfElement` gives it no shadow
  root, and the locator never looks there, because it searches from the
  dialog's light children.
- The `observedAttributes` getter (dialog.ts:63-65): with no
  `attributeChangedCallback` it has no effect. The `globalThis.MediaDialog`
  assignment (dialog.ts:155): a global alias with no behaviour.
- `packages/mux-player/test/template.test.js`: the template renderer it
  tests is not part of this model. Its `minify` and `normalizeAttributes`
  helpers are test scaffolding.
- `packages/mux-video/src/CustomVideoElement.d.ts`: a type declaration with
  no runtime code. The attribute/property mirror it describes is not part of
  this model.
- Focus and blur event dispatch, a full CSS selector engine, and the
  platform's own focusability rules. They are replaced by the selector parts
  the code uses and by an active-element field.
- `Dialog.Document.FocusOn`: it always makes the element active. A browser
  ignores `focus()` on an element that cannot take focus or is detached.
  Detaching is not modelled, so the "still attached" condition of focus
  restoration does not arise. Also, the model's active element is the focused
  element itself. A browser's `document.activeElement` differs in two ways.
  - It is retargeted: when focus is inside a shadow tree, it reports the
    shadow host that lies in the document tree.
  - When nothing is focused, it is `document.body` (an HTMLElement), not null.
  So when the target is inside a shadow root the locator found, the program
  remembers the host, not the focused control. `close()` then calls `focus()`
  on the host, which has no effect when the host cannot take focus.
  `Dialog.ShowThenCloseRestoresFocus`,
  `Dialog.CloseAfterRepeatedShowRestoresFirstTarget` and
  `Dialog.ShowAlwaysOverwritesMemory` hold as stated only for elements in the
  document tree. Modelling retargeting needs each element to know its
  ancestors, which the value-based element tree does not record.
- Elements are values, not references.
  - The remembered element is a snapshot taken when `show()` ran.
  - When the active element is the dialog itself, it is the dialog as it was
    at that moment.
  - Aliasing between the tree and live objects is not captured.
- `Dialog.MediaDialog`: `tabIndex` is a field of its own. The model does not
  derive it from the `tabindex` content attribute.
- Type selectors compare the lower-case tag exactly. The HTML rule that they
  are case-insensitive is not modelled.
- `shadowRoot` gives only open shadow roots, so a closed shadow root is
  modelled as no shadow root.
- `null` and `undefined` (an absent element, an unset memory) are both
  `None`.
- The null `hostElement` case of `findFocusableElementWithin`
  (dialog.ts:118, 128, 134): the code only ever passes the dialog or a
  non-null shadow root, so the model takes the host's children directly.
- `Registry.CustomElementRegistry.Define`: it models only the "name already
  defined" refusal. The platform also refuses an invalid name and a class
  already registered under another name; neither can happen for
  `media-dialog` here.
