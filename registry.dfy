/** The guarded registration of the dialog in the global custom-element
    registry: `media-dialog` is defined only when no definition of that name
    exists, so running the registration again changes nothing. */
module Registry {
  import opened Dom

  /** A custom-element definition, named by the class that implements it. */
  datatype Definition = Definition(className: string)

  const MediaDialogName: string := "media-dialog"
  const MediaDialogDefinition: Definition := Definition("MediaDialog")

  /** The registry contents after defining `name` as `definition` unless
      `name` is already defined. */
  function DefineIfAbsent(definitions: map<string, Definition>, name: string, definition: Definition): (r: map<string, Definition>)
    ensures name in r && r.Keys == definitions.Keys + {name}
    ensures name in definitions ==> r == definitions
  {
    if name in definitions then definitions else definitions[name := definition]
  }

  /** `customElements`: a name-keyed map of definitions. */
  class CustomElementRegistry {
    var definitions: map<string, Definition>

    constructor (definitions: map<string, Definition>)
      ensures this.definitions == definitions
    {
      this.definitions := definitions;
    }

    /** `customElements.get(name)`. */
    function Get(name: string): (r: Option<Definition>)
      reads this
      ensures r.Some? <==> name in definitions
      ensures r.Some? ==> r.value == definitions[name]
    {
      if name in definitions then Some(definitions[name]) else None
    }

    /** `customElements.define(name, definition)`, which the platform refuses
        for a name that is already defined. */
    method Define(name: string, definition: Definition)
      requires name !in definitions
      modifies this
      ensures definitions == old(definitions)[name := definition]
    {
      definitions := definitions[name := definition];
    }
  }

  /** The module-level guard: define `media-dialog` unless it is defined. */
  method RegisterMediaDialog(registry: CustomElementRegistry)
    modifies registry
    ensures registry.definitions == DefineIfAbsent(old(registry.definitions), MediaDialogName, MediaDialogDefinition)
  {
    if registry.Get(MediaDialogName).None? {
      registry.Define(MediaDialogName, MediaDialogDefinition);
    }
  }

  /** After registration the name is defined; an existing definition is kept
      and every other name is untouched. */
  lemma DefineIfAbsentEffects(definitions: map<string, Definition>, name: string, definition: Definition)
    ensures var r := DefineIfAbsent(definitions, name, definition);
            && r.Keys == definitions.Keys + {name}
            && r[name] == (if name in definitions then definitions[name] else definition)
            && forall other :: other in definitions && other != name ==> r[other] == definitions[other]
  {
  }

  /** Registering twice is the same as registering once. */
  lemma DefineIfAbsentIsIdempotent(definitions: map<string, Definition>, name: string, definition: Definition)
    ensures DefineIfAbsent(DefineIfAbsent(definitions, name, definition), name, definition)
            == DefineIfAbsent(definitions, name, definition)
  {
  }
}
