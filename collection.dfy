/**
 * `AttributesDSL::Attributes`: an immutable collection of descriptors keyed
 * by name in registration order, which validates an input hash and
 * extracts an instance's attributes from it.
 */
module Collection {
  import opened Hashes
  import opened Errors
  import opened Descriptor

  /** The hash of registered descriptors, keyed by their names. */
  datatype Attributes = Attributes(attributes: Hash<Attribute>)

  /**
   * What every collection built by `new` and `register` satisfies: unique
   * names, each descriptor under its own name, and only descriptors without
   * a default can be required (as `Attribute.new` builds them).
   */
  predicate Valid(s: Attributes) {
    && Distinct(s.attributes)
    && (forall i :: 0 <= i < |s.attributes| ==> s.attributes[i].1.name == s.attributes[i].0)
    && (forall i :: 0 <= i < |s.attributes| ==> s.attributes[i].1.required ==> s.attributes[i].1.default == Nil)
  }

  /** `attributes.keys`: the registered names in registration order. */
  function Names(s: Attributes): seq<Key> {
    Keys(s.attributes)
  }

  /** `attributes.values` */
  function Values(s: Attributes): (attrs: seq<Attribute>)
    ensures |attrs| == |s.attributes|
    ensures forall i :: 0 <= i < |attrs| ==> attrs[i] == s.attributes[i].1
  {
    seq(|s.attributes|, i requires 0 <= i < |s.attributes| => s.attributes[i].1)
  }

  /** The names of a sequence of descriptors, in order. */
  function NamesOf(attrs: seq<Attribute>): (names: seq<Key>)
    ensures |names| == |attrs|
    ensures forall i :: 0 <= i < |attrs| ==> names[i] == attrs[i].name
  {
    seq(|attrs|, i requires 0 <= i < |attrs| => attrs[i].name)
  }

  // ---------------------------------------------------------------------
  // new, register
  // ---------------------------------------------------------------------

  /** `Attributes.new`: the empty collection. */
  function Empty(): (s: Attributes)
    ensures Valid(s) && Names(s) == []
  {
    Attributes([])
  }

  /**
   * `register(name, options, &coercer)`: a new collection in which `name`
   * maps to a fresh descriptor. A new name goes last; a registered one is
   * replaced and keeps its place.
   */
  function Register(s: Attributes, name: Key, options: Options, coercer: Option<Value -> Value>): (r: Attributes)
    ensures Names(r) == if name in Names(s) then Names(s) else Names(s) + [name]
    ensures Lookup(r.attributes, name) == Some(New(name, options, coercer))
    ensures forall k :: k != name ==> Lookup(r.attributes, k) == Lookup(s.attributes, k)
  {
    Attributes(Store(s.attributes, name, New(name, options, coercer)))
  }

  /** Registering keeps names unique and each descriptor under its own name. */
  lemma RegisterPreservesValid(s: Attributes, name: Key, options: Options, coercer: Option<Value -> Value>)
    requires Valid(s)
    ensures Valid(Register(s, name, options, coercer))
  {
    var a := New(name, options, coercer);
    var r := Register(s, name, options, coercer);
    StoreDistinct(s.attributes, name, a);
    forall i | 0 <= i < |r.attributes|
      ensures r.attributes[i].1.name == r.attributes[i].0
      ensures r.attributes[i].1.required ==> r.attributes[i].1.default == Nil
    {
      StoreAt(s.attributes, name, a, i);
    }
  }

  /**
   * Registering leaves every other descriptor where it was and puts the
   * new descriptor of a registered name in that name's old place.
   */
  lemma RegisterKeepsPositions(s: Attributes, name: Key, options: Options,
                               coercer: Option<Value -> Value>, i: nat)
    requires Valid(s) && i < |s.attributes|
    ensures i < |Register(s, name, options, coercer).attributes|
    ensures Register(s, name, options, coercer).attributes[i] ==
      if s.attributes[i].0 == name then (name, New(name, options, coercer)) else s.attributes[i]
  {
    var a := New(name, options, coercer);
    if s.attributes[i].0 == name {
      forall j | 0 <= j < i ensures s.attributes[j].0 != name {
        KeysAt(s.attributes, i);
        KeysAt(s.attributes, j);
      }
      StoreReplacesAt(s.attributes, name, a, i);
    } else {
      StoreKeepsOthers(s.attributes, name, a, i);
    }
  }

  // ---------------------------------------------------------------------
  // required, validate
  // ---------------------------------------------------------------------

  /** `select(&:required).map(&:name)` over a sequence of descriptors. */
  function RequiredNames(attrs: seq<Attribute>): (names: seq<Key>)
    ensures |names| <= |attrs|
    ensures forall i :: 0 <= i < |attrs| && attrs[i].required ==> attrs[i].name in names
    ensures forall x :: x in names ==> exists i :: 0 <= i < |attrs| && attrs[i].required && attrs[i].name == x
  {
    if attrs == [] then []
    else
      var rest := RequiredNames(attrs[1..]);
      var names := (if attrs[0].required then [attrs[0].name] else []) + rest;
      forall i | 0 < i < |attrs| && attrs[i].required ensures attrs[i].name in names {
        assert attrs[1..][i - 1] == attrs[i];
      }
      forall x | x in rest ensures exists i :: 0 <= i < |attrs| && attrs[i].required && attrs[i].name == x {
        var j :| 0 <= j < |attrs[1..]| && attrs[1..][j].required && attrs[1..][j].name == x;
        assert attrs[j + 1] == attrs[1..][j];
      }
      names
  }

  /** `required`: the names of the required descriptors, and only those. */
  function Required(s: Attributes): (names: seq<Key>)
    ensures forall x :: x in names <==>
      exists i :: 0 <= i < |s.attributes| && s.attributes[i].1.required && s.attributes[i].1.name == x
  {
    var attrs := Values(s);
    var names := RequiredNames(attrs);
    assert forall i :: 0 <= i < |attrs| ==> attrs[i] == s.attributes[i].1;
    names
  }

  /** `xs - ys` (Array difference): `xs` without any element of `ys`, order kept. */
  function Without(xs: seq<Key>, ys: seq<Key>): (r: seq<Key>)
    ensures |r| <= |xs|
    ensures forall x :: x in r <==> x in xs && x !in ys
  {
    if xs == [] then []
    else
      var r := (if xs[0] in ys then [] else [xs[0]]) + Without(xs[1..], ys);
      assert forall x :: x in xs <==> x == xs[0] || x in xs[1..];
      r
  }

  /** `required - input.keys`: the required names the input lacks. */
  function Undefined(s: Attributes, input: Hash<Value>): (names: seq<Key>)
    ensures forall x :: x in names <==> x in Required(s) && !HasKey(input, x)
  {
    Without(Required(s), Keys(input))
  }

  /**
   * `validate(input)`: the descriptors in registration order when every
   * required name is a key of the input; otherwise one error naming all
   * the missing ones.
   */
  function Validate(s: Attributes, input: Hash<Value>): (r: Result<seq<Attribute>>)
    ensures r.Ok? <==> Undefined(s, input) == []
    ensures r.Ok? ==> r.value == Values(s)
    ensures r.Fail? ==> r.error == UndefinedAttributes(Undefined(s, input))
  {
    var undefined := Undefined(s, input);
    if undefined == [] then Ok(Values(s)) else Fail(UndefinedAttributes(undefined))
  }

  // ---------------------------------------------------------------------
  // The reference for the missing names
  // ---------------------------------------------------------------------

  /**
   * The names of the required descriptors whose name is not among `keys`,
   * in order: the reference for what `validate` reports.
   */
  function MissingRequired(attrs: seq<Attribute>, keys: seq<Key>): seq<Key> {
    if attrs == [] then []
    else if attrs[0].required && attrs[0].name !in keys then [attrs[0].name] + MissingRequired(attrs[1..], keys)
    else MissingRequired(attrs[1..], keys)
  }

  /** `required - input.keys` selects exactly the required names missing from `keys`. */
  lemma {:induction false} UndefinedIsMissingRequired(attrs: seq<Attribute>, keys: seq<Key>)
    ensures Without(RequiredNames(attrs), keys) == MissingRequired(attrs, keys)
  {
    if attrs != [] {
      UndefinedIsMissingRequired(attrs[1..], keys);
      var rest := RequiredNames(attrs[1..]);
      if attrs[0].required {
        assert RequiredNames(attrs) == [attrs[0].name] + rest;
        assert ([attrs[0].name] + rest)[1..] == rest;
      } else {
        assert RequiredNames(attrs) == rest;
      }
    }
  }

  /** A name is reported missing iff some required descriptor has it and `keys` lacks it. */
  lemma {:induction false} MissingRequiredHas(attrs: seq<Attribute>, keys: seq<Key>, x: Key)
    ensures x in MissingRequired(attrs, keys) <==>
      x !in keys && exists i :: 0 <= i < |attrs| && attrs[i].required && attrs[i].name == x
  {
    if attrs != [] {
      MissingRequiredHas(attrs[1..], keys, x);
      if exists i :: 0 <= i < |attrs| && attrs[i].required && attrs[i].name == x {
        var i :| 0 <= i < |attrs| && attrs[i].required && attrs[i].name == x;
        if i > 0 {
          assert attrs[1..][i - 1] == attrs[i];
        }
      }
      if exists i :: 0 <= i < |attrs[1..]| && attrs[1..][i].required && attrs[1..][i].name == x {
        var i :| 0 <= i < |attrs[1..]| && attrs[1..][i].required && attrs[1..][i].name == x;
        assert attrs[i + 1] == attrs[1..][i];
      }
    }
  }

  /** `a` is `b` with some elements left out, the rest in the same order. */
  predicate IsSubsequence(a: seq<Key>, b: seq<Key>) {
    if a == [] then true
    else if b == [] then false
    else (a[0] == b[0] && IsSubsequence(a[1..], b[1..])) || IsSubsequence(a, b[1..])
  }

  /** The missing names come in the order the descriptors do. */
  lemma {:induction false} MissingRequiredInOrder(attrs: seq<Attribute>, keys: seq<Key>)
    ensures IsSubsequence(MissingRequired(attrs, keys), NamesOf(attrs))
  {
    if attrs != [] {
      MissingRequiredInOrder(attrs[1..], keys);
      assert NamesOf(attrs)[1..] == NamesOf(attrs[1..]);
    }
  }

  // ---------------------------------------------------------------------
  // extract
  // ---------------------------------------------------------------------

  /**
   * The value `extract` assigns to descriptor `a`: the input's value under
   * `a.name` when that key is present (even if nil), otherwise the default,
   * passed through the coercer either way.
   */
  function FieldValue(a: Attribute, input: Hash<Value>): Value {
    ValueFor(a, Fetch(input, a.name, a.default))
  }

  /**
   * The fold of `extract`: `inject({}) { |a, e| a.merge(e.name => e.value(...)) }`,
   * written as the result of folding all descriptors but the last, merged
   * with the last one's entry.
   */
  function Inject(attrs: seq<Attribute>, input: Hash<Value>): (h: Hash<Value>)
    ensures Distinct(h)
  {
    if attrs == [] then []
    else
      var last := attrs[|attrs| - 1];
      var prev := Inject(attrs[..|attrs| - 1], input);
      StoreDistinct(prev, last.name, FieldValue(last, input));
      Store(prev, last.name, FieldValue(last, input))
  }

  /** The fold has a key for every descriptor's name and no other key. */
  lemma {:induction false} InjectHasKey(attrs: seq<Attribute>, input: Hash<Value>)
    ensures forall k :: HasKey(Inject(attrs, input), k) <==> k in NamesOf(attrs)
  {
    if attrs != [] {
      var init := attrs[..|attrs| - 1];
      InjectHasKey(init, input);
      assert NamesOf(attrs) == NamesOf(init) + [attrs[|attrs| - 1].name];
    }
  }

  /** With distinct names, the fold has one key per descriptor, in order. */
  lemma {:induction false} InjectKeys(attrs: seq<Attribute>, input: Hash<Value>)
    requires NoDups(NamesOf(attrs))
    ensures Keys(Inject(attrs, input)) == NamesOf(attrs)
  {
    if attrs != [] {
      var n := |attrs| - 1;
      var init := attrs[..n];
      assert NamesOf(init) == NamesOf(attrs)[..n];
      InjectKeys(init, input);
      assert !HasKey(Inject(init, input), attrs[n].name) by {
        assert forall j :: 0 <= j < n ==> NamesOf(attrs)[j] != NamesOf(attrs)[n];
      }
      assert NamesOf(attrs) == NamesOf(init) + [attrs[n].name];
    }
  }

  /** With distinct names, the fold maps each descriptor's name to its field value. */
  lemma {:induction false} InjectValue(attrs: seq<Attribute>, input: Hash<Value>, i: nat)
    requires NoDups(NamesOf(attrs)) && i < |attrs|
    ensures Lookup(Inject(attrs, input), attrs[i].name) == Some(FieldValue(attrs[i], input))
  {
    var n := |attrs| - 1;
    if i < n {
      var init := attrs[..n];
      assert NamesOf(init) == NamesOf(attrs)[..n];
      assert NamesOf(attrs)[i] != NamesOf(attrs)[n];
      assert init[i] == attrs[i];
      InjectValue(init, input, i);
    }
  }

  /**
   * `extract(input)`: after validation, one entry per descriptor in
   * registration order, each holding its field value.
   */
  function Extract(s: Attributes, input: Hash<Value>): (r: Result<Hash<Value>>)
    ensures r.Fail? <==> Undefined(s, input) != []
    ensures r.Fail? ==> r.error == UndefinedAttributes(Undefined(s, input))
    ensures r.Ok? ==> Distinct(r.value) && forall k :: HasKey(r.value, k) <==> k in NamesOf(Values(s))
  {
    match Validate(s, input)
    case Fail(e) => Fail(e)
    case Ok(attrs) =>
      InjectHasKey(attrs, input);
      Ok(Inject(attrs, input))
  }

  /** The descriptors' names, in order, are the registered names. */
  lemma NamesOfValues(s: Attributes)
    requires Valid(s)
    ensures NamesOf(Values(s)) == Names(s)
  {
    var attrs := Values(s);
    forall i | 0 <= i < |attrs| ensures NamesOf(attrs)[i] == Names(s)[i] {
      KeysAt(s.attributes, i);
    }
  }

  /**
   * `extract` fails iff some required name is not a key of the input; a key
   * present with the value nil counts as given.
   */
  lemma ExtractFailsIffRequiredMissing(s: Attributes, input: Hash<Value>)
    ensures Extract(s, input).Fail? <==>
      exists i :: 0 <= i < |s.attributes| && s.attributes[i].1.required && !HasKey(input, s.attributes[i].1.name)
  {
    var attrs := Values(s);
    UndefinedIsMissingRequired(attrs, Keys(input));
    var missing := MissingRequired(attrs, Keys(input));
    if missing != [] {
      MissingRequiredHas(attrs, Keys(input), missing[0]);
    }
    if i :| 0 <= i < |s.attributes| && s.attributes[i].1.required && !HasKey(input, s.attributes[i].1.name) {
      MissingRequiredHas(attrs, Keys(input), attrs[i].name);
    }
  }

  /**
   * The error of a failed `extract` names every required name the input
   * lacks, and no other, in registration order.
   */
  lemma ExtractErrorListsAllMissing(s: Attributes, input: Hash<Value>)
    requires Valid(s) && Extract(s, input).Fail?
    ensures Extract(s, input).error.UndefinedAttributes?
    ensures var names := Extract(s, input).error.names;
      && names != []
      && IsSubsequence(names, Names(s))
      && forall x :: x in names <==>
           !HasKey(input, x) && exists i :: 0 <= i < |s.attributes| && s.attributes[i].1.required && s.attributes[i].0 == x
  {
    var attrs := Values(s);
    UndefinedIsMissingRequired(attrs, Keys(input));
    MissingRequiredInOrder(attrs, Keys(input));
    NamesOfValues(s);
    forall x ensures x in MissingRequired(attrs, Keys(input)) <==>
      !HasKey(input, x) && exists i :: 0 <= i < |s.attributes| && s.attributes[i].1.required && s.attributes[i].0 == x
    {
      MissingRequiredHas(attrs, Keys(input), x);
    }
  }

  /**
   * A successful `extract` has exactly the registered names as keys, in
   * registration order, so unregistered input keys are dropped; each name
   * holds the coerced input value when the input has the key, and the
   * coerced default otherwise.
   */
  lemma ExtractSucceeds(s: Attributes, input: Hash<Value>)
    requires Valid(s) && Extract(s, input).Ok?
    ensures Keys(Extract(s, input).value) == Names(s)
    ensures forall i :: 0 <= i < |s.attributes| ==>
      var a := s.attributes[i].1;
      Lookup(Extract(s, input).value, s.attributes[i].0) ==
        Some(ValueFor(a, if HasKey(input, a.name) then Get(input, a.name) else a.default))
  {
    var attrs := Values(s);
    NamesOfValues(s);
    InjectKeys(attrs, input);
    forall i | 0 <= i < |s.attributes|
      ensures Lookup(Inject(attrs, input), s.attributes[i].0) == Some(FieldValue(attrs[i], input))
    {
      InjectValue(attrs, input, i);
    }
  }

  /** `extract` of a collection with no required descriptor never fails. */
  lemma ExtractWithoutRequiredSucceeds(s: Attributes, input: Hash<Value>)
    requires forall i :: 0 <= i < |s.attributes| ==> !s.attributes[i].1.required
    ensures Extract(s, input).Ok?
  {
    ExtractFailsIffRequiredMissing(s, input);
  }

  // ---------------------------------------------------------------------
  // The examples of the unit specification
  // ---------------------------------------------------------------------

  /** `-> value { value.to_s }`, on the Symbols and Strings the examples use. */
  function SymbolToS(v: Value): Value {
    if v.Sym? then Str(v.s) else v
  }

  /** `foo` required with a coercer, `bar` required, `baz` defaulting to :BAZ with a coercer. */
  function ExampleCollection(): Attributes {
    Attributes([
      (SymKey("foo"), Attribute(SymKey("foo"), Nil, true, Some(SymbolToS))),
      (SymKey("bar"), Attribute(SymKey("bar"), Nil, true, None)),
      (SymKey("baz"), Attribute(SymKey("baz"), Sym("BAZ"), false, Some(SymbolToS)))])
  }

  /** The example collection is what the three registrations of the unit example build. */
  lemma ExampleCollectionRegistered()
    ensures var required := Options(None, Some(Bool(true)));
      Register(Register(Register(Empty(), SymKey("foo"), required, Some(SymbolToS)),
                        SymKey("bar"), required, None),
               SymKey("baz"), Options(Some(Sym("BAZ")), None), Some(SymbolToS))
      == ExampleCollection()
  {
    var required := Options(None, Some(Bool(true)));
    var s1 := Register(Empty(), SymKey("foo"), required, Some(SymbolToS));
    assert s1.attributes == [(SymKey("foo"), Attribute(SymKey("foo"), Nil, true, Some(SymbolToS)))];
    var s2 := Register(s1, SymKey("bar"), required, None);
    assert s2.attributes == s1.attributes + [(SymKey("bar"), Attribute(SymKey("bar"), Nil, true, None))] by {
      StoreAppends(s1.attributes, SymKey("bar"), New(SymKey("bar"), required, None));
    }
    assert !HasKey(s2.attributes, SymKey("baz")) by {
      assert Keys(s2.attributes) == [SymKey("foo"), SymKey("bar")];
    }
    StoreAppends(s2.attributes, SymKey("baz"), New(SymKey("baz"), Options(Some(Sym("BAZ")), None), Some(SymbolToS)));
  }

  /** The descriptors of the example collection, in registration order. */
  lemma ExampleValues()
    ensures Values(ExampleCollection()) == [
      Attribute(SymKey("foo"), Nil, true, Some(SymbolToS)),
      Attribute(SymKey("bar"), Nil, true, None),
      Attribute(SymKey("baz"), Sym("BAZ"), false, Some(SymbolToS))]
    ensures Required(ExampleCollection()) == [SymKey("foo"), SymKey("bar")]
  {
    var c := ExampleCollection();
    var attrs := Values(c);
    assert attrs == [c.attributes[0].1, c.attributes[1].1, c.attributes[2].1];
    assert RequiredNames(attrs[2..]) == [] by {
      assert attrs[2..][1..] == [];
    }
    assert attrs[1..][1..] == attrs[2..];
    assert RequiredNames(attrs[1..]) == [SymKey("bar")];
  }

  /** The fold over the example descriptors, given the three field values. */
  lemma ExampleInject(attrs: seq<Attribute>, input: Hash<Value>, foo: Value, bar: Value, baz: Value)
    requires |attrs| == 3
    requires attrs[0].name == SymKey("foo") && FieldValue(attrs[0], input) == foo
    requires attrs[1].name == SymKey("bar") && FieldValue(attrs[1], input) == bar
    requires attrs[2].name == SymKey("baz") && FieldValue(attrs[2], input) == baz
    ensures Inject(attrs, input) == [(SymKey("foo"), foo), (SymKey("bar"), bar), (SymKey("baz"), baz)]
  {
    var one: Hash<Value> := [(SymKey("foo"), foo)];
    var two: Hash<Value> := one + [(SymKey("bar"), bar)];
    var p1, p2 := attrs[..1], attrs[..2];
    assert Inject(p1, input) == one by {
      assert p1[..0] == [] && p1[0] == attrs[0];
    }
    assert Inject(p2, input) == two by {
      assert p2[..1] == p1 && p2[1] == attrs[1];
      StoreAppends(one, SymKey("bar"), bar);
    }
    assert attrs[..2] == p2 && attrs[2] == attrs[|attrs| - 1];
    assert Keys(two) == [SymKey("foo"), SymKey("bar")];
    StoreAppends(two, SymKey("baz"), baz);
  }

  /** All required keys given: the unknown `qux` is dropped and the default is coerced too. */
  lemma ExtractExample()
    ensures Extract(ExampleCollection(),
                    [(SymKey("foo"), Sym("FOO")), (SymKey("bar"), Sym("BAR")), (SymKey("qux"), Sym("QUX"))])
         == Ok([(SymKey("foo"), Str("FOO")), (SymKey("bar"), Sym("BAR")), (SymKey("baz"), Str("BAZ"))])
  {
    ExampleValues();
    var input := [(SymKey("foo"), Sym("FOO")), (SymKey("bar"), Sym("BAR")), (SymKey("qux"), Sym("QUX"))];
    assert Keys(input) == [SymKey("foo"), SymKey("bar"), SymKey("qux")];
    var attrs := Values(ExampleCollection());
    assert Undefined(ExampleCollection(), input) == [] by {
      assert [SymKey("foo"), SymKey("bar")][1..] == [SymKey("bar")];
      assert Without([SymKey("bar")], Keys(input)) == [];
    }
    assert Validate(ExampleCollection(), input) == Ok(attrs);
    assert Lookup(input, SymKey("foo")) == Some(Sym("FOO"));
    assert Lookup(input, SymKey("bar")) == Some(Sym("BAR"));
    assert Lookup(input, SymKey("baz")) == None;
    assert FieldValue(attrs[0], input) == Str("FOO");
    assert FieldValue(attrs[2], input) == Str("BAZ");
    ExampleInject(attrs, input, Str("FOO"), Sym("BAR"), Str("BAZ"));
  }

  /** Both missing required names are reported together, in registration order. */
  lemma ExtractMissingExample()
    ensures Extract(ExampleCollection(), [(SymKey("baz"), Sym("BAZ"))])
         == Fail(UndefinedAttributes([SymKey("foo"), SymKey("bar")]))
  {
    ExampleValues();
    assert Keys([(SymKey("baz"), Sym("BAZ"))]) == [SymKey("baz")];
  }

  // ---------------------------------------------------------------------
  // The examples of the integration specification of `required`
  // ---------------------------------------------------------------------

  /** `attribute :foo, required: true` followed by `attribute :bar`. */
  function RequiredFooCollection(): Attributes {
    Register(Register(Empty(), SymKey("foo"), Options(None, Some(Bool(true))), None),
             SymKey("bar"), Options(None, None), None)
  }

  /** The collection holds `foo` (required) and then `bar` (optional), neither with a default. */
  lemma RequiredFooDescriptors()
    ensures RequiredFooCollection().attributes == [
      (SymKey("foo"), Attribute(SymKey("foo"), Nil, true, None)),
      (SymKey("bar"), Attribute(SymKey("bar"), Nil, false, None))]
  {
    var s1 := Register(Empty(), SymKey("foo"), Options(None, Some(Bool(true))), None);
    assert s1.attributes == [(SymKey("foo"), Attribute(SymKey("foo"), Nil, true, None))];
    StoreAppends(s1.attributes, SymKey("bar"), New(SymKey("bar"), Options(None, None), None));
  }

  /** Omitting the required `foo` fails with an error naming it. */
  lemma RequiredMissingExample()
    ensures Extract(RequiredFooCollection(), [(SymKey("bar"), Sym("BAZ"))])
         == Fail(UndefinedAttributes([SymKey("foo")]))
  {
    RequiredFooDescriptors();
    var s := RequiredFooCollection();
    var attrs := Values(s);
    assert attrs == [s.attributes[0].1, s.attributes[1].1];
    assert attrs[1..][1..] == [];
    assert Keys([(SymKey("bar"), Sym("BAZ"))]) == [SymKey("bar")];
  }

  /** The descriptors of the collection, in registration order. */
  lemma RequiredFooValues()
    ensures Values(RequiredFooCollection()) ==
      [Attribute(SymKey("foo"), Nil, true, None), Attribute(SymKey("bar"), Nil, false, None)]
  {
    RequiredFooDescriptors();
  }

  /** A required key given as nil satisfies the requirement and keeps its nil. */
  lemma RequiredAcceptsNilExample()
    ensures Extract(RequiredFooCollection(), [(SymKey("foo"), Nil)])
         == Ok([(SymKey("foo"), Nil), (SymKey("bar"), Nil)])
  {
    var input: Hash<Value> := [(SymKey("foo"), Nil)];
    var attrs := [Attribute(SymKey("foo"), Nil, true, None), Attribute(SymKey("bar"), Nil, false, None)];
    RequiredFooValues();
    assert Validate(RequiredFooCollection(), input) == Ok(attrs) by {
      RequiredFooAccepts(input);
    }
    RequiredFooInject(attrs, input);
  }

  /** Any input with the key `foo`, even as nil, leaves no required name undefined. */
  lemma RequiredFooAccepts(input: Hash<Value>)
    requires HasKey(input, SymKey("foo"))
    ensures Undefined(RequiredFooCollection(), input) == []
  {
    RequiredFooValues();
    var attrs := Values(RequiredFooCollection());
    assert attrs[1..][1..] == [];
  }

  /** The fold over the two descriptors on `{foo: nil}`: `bar` falls back to its nil default. */
  lemma RequiredFooInject(attrs: seq<Attribute>, input: Hash<Value>)
    requires attrs == [Attribute(SymKey("foo"), Nil, true, None), Attribute(SymKey("bar"), Nil, false, None)]
    requires input == [(SymKey("foo"), Nil)]
    ensures Inject(attrs, input) == [(SymKey("foo"), Nil), (SymKey("bar"), Nil)]
  {
    assert Inject(attrs[..1], input) == input by {
      assert attrs[..1][..0] == [] && attrs[..1][0] == attrs[0];
    }
    assert attrs[..|attrs| - 1] == attrs[..1];
    StoreAppends(input, SymKey("bar"), Nil);
  }
}
