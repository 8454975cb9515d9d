/**
  The logging-namespace module: a namespace is a string without `,` (so that
  namespaces can be listed in one comma-separated string), and its
  components are the pieces between `:` characters.
 */
module LoggingNamespace {
  import opened JsBuiltins

  /** Separates namespaces in a list of namespaces held as one string. */
  const NamespaceSeparator: char := ','

  /** Separates the components of one namespace. */
  const ComponentSeparator: char := ':'

  /** `isNamespace`: a string that does not include the namespace separator. */
  predicate IsNamespace(value: Value)
    ensures IsNamespace(value) <==> value.Str? && NamespaceSeparator !in value.s
  {
    IncludesChar(if value.Str? then value.s else "", NamespaceSeparator);
    TypeOf(value) == "string" && !Includes(value.s, [NamespaceSeparator])
  }

  /** `isNamespaceComponent`: a string that includes neither separator. */
  predicate IsNamespaceComponent(value: Value)
    ensures IsNamespaceComponent(value)
        <==> value.Str? && NamespaceSeparator !in value.s && ComponentSeparator !in value.s
  {
    IncludesChar(if value.Str? then value.s else "", NamespaceSeparator);
    IncludesChar(if value.Str? then value.s else "", ComponentSeparator);
    TypeOf(value) == "string"
    && !Includes(value.s, [NamespaceSeparator])
    && !Includes(value.s, [ComponentSeparator])
  }

  /** `isNamespaceCollection`: any string (a comma-separated list of namespaces). */
  predicate IsNamespaceCollection(value: Value)
    ensures IsNamespaceCollection(value) <==> value.Str?
  {
    TypeOf(value) == "string"
  }

  /** `namespaceToNamespaceComponentList`: split a namespace at every `:`. */
  function NamespaceToComponentList(namespace: string): (components: seq<string>)
    ensures |components| == multiset(namespace)[ComponentSeparator] + 1
    ensures forall i :: 0 <= i < |components| ==> ComponentSeparator !in components[i]
  {
    Split(namespace, ComponentSeparator)
  }

  /** `namespaceComponentListToNamespace`: join components with `:`. */
  function ComponentListToNamespace(components: seq<string>): (namespace: string)
    ensures components == [] ==> namespace == ""
    ensures components != [] ==> components[0] <= namespace
  {
    Join(components, ComponentSeparator)
  }

  /** Every namespace component is also a namespace. */
  lemma ComponentIsNamespace(value: Value)
    ensures IsNamespaceComponent(value) ==> IsNamespace(value)
  {
  }

  /** No value other than a string passes any of the three guards. */
  lemma NonStringsAreRejected(value: Value)
    ensures !value.Str? ==> !IsNamespace(value) && !IsNamespaceComponent(value) && !IsNamespaceCollection(value)
  {
  }

  /**
    The values the unit test feeds to `isNamespace`: `false`, `1`, `{}`,
    `[]`, `BigInt(1)`, `Symbol()` and a regular expression; `{}`, `[]` and
    the regular expression all have `typeof` "object".
   */
  lemma IsNamespaceRejectsTestValues()
    ensures !IsNamespace(Other(Boolean)) && !IsNamespace(Other(Number))
    ensures !IsNamespace(Other(Object)) && !IsNamespace(Other(BigInt))
    ensures !IsNamespace(Other(Symbol))
  {
  }

  /** Every string survives splitting into components and joining them back. */
  lemma NamespaceRoundTrip(namespace: string)
    ensures ComponentListToNamespace(NamespaceToComponentList(namespace)) == namespace
  {
    JoinSplit(namespace, ComponentSeparator);
  }

  /** A non-empty list of `:`-free strings survives joining and splitting back. */
  lemma ComponentListRoundTrip(components: seq<string>)
    requires |components| > 0
    requires forall i :: 0 <= i < |components| ==> ComponentSeparator !in components[i]
    ensures NamespaceToComponentList(ComponentListToNamespace(components)) == components
  {
    SplitJoin(components, ComponentSeparator);
  }

  /** The empty list does not round-trip: joining gives "" and splitting "" gives `[""]`. */
  lemma EmptyComponentListDoesNotRoundTrip()
    ensures NamespaceToComponentList(ComponentListToNamespace([])) == [""]
  {
  }

  /** Joining `n` `:`-free components gives a namespace with `n - 1` colons. */
  lemma ComponentListSeparatorCount(components: seq<string>)
    requires |components| > 0
    requires forall i :: 0 <= i < |components| ==> ComponentSeparator !in components[i]
    ensures multiset(ComponentListToNamespace(components))[ComponentSeparator] + 1 == |components|
  {
    JoinSeparatorCount(components, ComponentSeparator);
  }

  /** The components of a namespace are namespace components. */
  lemma ComponentsOfNamespace(namespace: string)
    requires IsNamespace(Str(namespace))
    ensures var components := NamespaceToComponentList(namespace);
      forall i :: 0 <= i < |components| ==> IsNamespaceComponent(Str(components[i]))
  {
    SplitAvoids(namespace, ComponentSeparator, NamespaceSeparator);
  }

  /** Joining namespace components gives a namespace. */
  lemma ComponentListMakesNamespace(components: seq<string>)
    requires forall i :: 0 <= i < |components| ==> IsNamespaceComponent(Str(components[i]))
    ensures IsNamespace(Str(ComponentListToNamespace(components)))
  {
    forall i | 0 <= i < |components|
      ensures NamespaceSeparator !in components[i]
    {
      assert IsNamespaceComponent(Str(components[i]));
    }
    JoinAvoids(components, ComponentSeparator, NamespaceSeparator);
  }
}
