/**
 * `AttributesDSL::Attribute`: the immutable description of one attribute,
 * its name, default value, whether it is required, and its coercer.
 */
module Descriptor {
  import opened Hashes

  /** The options hash given to the constructor; either entry may be missing. */
  datatype Options = Options(default: Option<Value>, required: Option<Value>)

  /**
   * A descriptor. `required` holds the truthiness of what the constructor
   * computed, the only aspect of it that is ever consulted.
   */
  datatype Attribute = Attribute(name: Key, default: Value, required: bool, coercer: Option<Value -> Value>)

  /**
   * `Attribute.new(name, options, &coercer)`. The default is nil unless
   * given, and a non-nil default makes the attribute optional whatever
   * `required:` says.
   */
  function New(name: Key, options: Options, coercer: Option<Value -> Value>): (a: Attribute)
    ensures a.name == name && a.coercer == coercer
    ensures a.default == if options.default.Some? then options.default.value else Nil
    ensures a.required <==>
      a.default == Nil && options.required.Some? && Truthy(options.required.value)
  {
    var default := options.default.GetOr(Nil);
    Attribute(name, default, default == Nil && Truthy(options.required.GetOr(Bool(false))), coercer)
  }

  /** A non-nil default overrides `required: true`. */
  lemma DefaultMakesOptional(name: Key, d: Value, required: Option<Value>, coercer: Option<Value -> Value>)
    requires d != Nil
    ensures !New(name, Options(Some(d), required), coercer).required
  {
  }

  /** An explicit `default: nil` does not override `required: true`. */
  lemma NilDefaultKeepsRequired(name: Key, coercer: Option<Value -> Value>)
    ensures New(name, Options(Some(Nil), Some(Bool(true))), coercer).required
  {
  }

  /** `attribute.value(input)`: the coercer's image of `input`, or `input` itself without one. */
  function ValueFor(a: Attribute, input: Value): (r: Value)
    ensures a.coercer.Some? ==> r == a.coercer.value(input)
    ensures a.coercer.None? ==> r == input
  {
    match a.coercer
    case Some(coercer) => coercer(input)
    case None => input
  }

  /**
   * `attribute == other`: descriptors are compared by name alone, so equal
   * descriptors are the same attribute and differently named ones never are.
   */
  predicate SameAttribute(a: Attribute, b: Attribute)
    ensures a == b ==> SameAttribute(a, b)
    ensures a.name != b.name ==> !SameAttribute(a, b)
  {
    a.name == b.name
  }

  /**
   * Two descriptors are equal iff they were built under one name, whatever
   * their options and coercers.
   */
  lemma EqualityIgnoresSettings(n1: Key, o1: Options, c1: Option<Value -> Value>,
                                n2: Key, o2: Options, c2: Option<Value -> Value>)
    ensures SameAttribute(New(n1, o1, c1), New(n2, o2, c2)) <==> n1 == n2
  {
  }
}
