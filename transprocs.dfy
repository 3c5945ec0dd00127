/**
 * The pure, composable hash transformations of `AttributesDSL::Transprocs`
 * and the condition matcher behind their allow/deny checks.
 */
module Transprocs {
  import opened Hashes
  import opened Errors

  // ---------------------------------------------------------------------
  // Conditions and the matcher
  // ---------------------------------------------------------------------

  /** The classes a `Module` condition can name. */
  datatype ValueClass = NilClass | TrueClass | FalseClass | IntegerClass | StringClass | SymbolClass

  /** `value.class` */
  function ClassOf(v: Value): ValueClass {
    match v
    case Nil => NilClass
    case Bool(b) => if b then TrueClass else FalseClass
    case Int(_) => IntegerClass
    case Str(_) => StringClass
    case Sym(_) => SymbolClass
  }

  /** What evaluating a condition produced: an object, or an exception. */
  datatype Evaluation = Returned(result: Value) | Raised

  /**
   * The conditions accepted by `blacklist` and `whitelist`, one variant per
   * kind of Ruby object the matcher dispatches on.
   */
  datatype Condition =
    /** An Array of objects. */
    | Among(items: seq<Value>)
    /** An inclusive Integer range `first..last`. */
    | Span(first: int, last: int)
    /** A Regexp, given by the strings it matches. */
    | Pattern(matches: string -> bool)
    /** A class. */
    | Kind(klass: ValueClass)
    /** A Proc, which may raise. */
    | Callable(call: Value -> Evaluation)
    /** Any other object, whose `===` is `==`. */
    | Literal(operand: Value)

  /**
   * `condition.send(method, value)`, where `method` is `include?` for an
   * Array and `===` for everything else.
   */
  function Send(value: Value, condition: Condition): (e: Evaluation)
    ensures condition.Callable? ==> e == condition.call(value)
    ensures !condition.Callable? ==> e.Returned? && e.result.Bool?
  {
    match condition
    case Among(items) => Returned(Bool(value in items))
    case Span(first, last) => Returned(Bool(value.Int? && first <= value.i <= last))
    case Pattern(matches) => Returned(Bool((value.Str? || value.Sym?) && matches(value.s)))
    case Kind(klass) => Returned(Bool(ClassOf(value) == klass))
    case Callable(call) => call(value)
    case Literal(operand) => Returned(Bool(operand == value))
  }

  /**
   * `check(value, condition)`: whether `value` satisfies `condition`. A
   * `StandardError` raised while matching is rescued and reads as "no match".
   */
  function Check(value: Value, condition: Condition): (r: bool)
    ensures condition.Among? ==> (r <==> value in condition.items)
    ensures condition.Span? ==> (r <==> value.Int? && condition.first <= value.i <= condition.last)
    ensures condition.Pattern? ==> (r <==> (value.Str? || value.Sym?) && condition.matches(value.s))
    ensures condition.Kind? ==> (r <==> ClassOf(value) == condition.klass)
    ensures condition.Literal? ==> (r <==> value == condition.operand)
    ensures condition.Callable? ==>
      (r <==> condition.call(value).Returned? && Truthy(condition.call(value).result))
    ensures Send(value, condition).Raised? ==> !r
  {
    match Send(value, condition)
    case Returned(result) => Truthy(result)
    case Raised => false
  }

  // ---------------------------------------------------------------------
  // filter
  // ---------------------------------------------------------------------

  /** `attributes.map { |key, value| [key.to_sym, value] }` */
  function Symbolize(attrs: Hash<Value>): (ps: seq<(Key, Value)>)
    ensures |ps| == |attrs|
  {
    if attrs == [] then [] else [(ToSym(attrs[0].0), attrs[0].1)] + Symbolize(attrs[1..])
  }

  lemma {:induction false} SymbolizeAt(attrs: Hash<Value>, i: nat)
    requires i < |attrs|
    ensures Symbolize(attrs)[i] == (ToSym(attrs[i].0), attrs[i].1)
  {
    if i > 0 {
      assert attrs[1..][i - 1] == attrs[i];
      SymbolizeAt(attrs[1..], i - 1);
    }
  }

  /** `pairs.select { |key, _| keys.include? key }` */
  function SelectKeys(ps: seq<(Key, Value)>, keys: seq<Key>): (r: seq<(Key, Value)>)
    ensures |r| <= |ps|
  {
    if ps == [] then []
    else if ps[|ps| - 1].0 in keys then SelectKeys(ps[..|ps| - 1], keys) + [ps[|ps| - 1]]
    else SelectKeys(ps[..|ps| - 1], keys)
  }

  /** Selection keeps exactly the pairs with a listed key. */
  lemma {:induction false} SelectKeysHas(ps: seq<(Key, Value)>, keys: seq<Key>, k: Key)
    ensures HasKey(SelectKeys(ps, keys), k) <==> k in keys && HasKey(ps, k)
  {
    if ps != [] {
      var init := ps[..|ps| - 1];
      var last := ps[|ps| - 1];
      SelectKeysHas(init, keys, k);
      HasKeyBack(ps, k);
      if last.0 in keys {
        var s := SelectKeys(init, keys) + [last];
        assert s[..|s| - 1] == SelectKeys(init, keys);
        HasKeyBack(s, k);
      }
    }
  }

  /** Selection does not change the last value seen for a listed key. */
  lemma {:induction false} SelectKeysLast(ps: seq<(Key, Value)>, keys: seq<Key>, k: Key)
    requires k in keys
    ensures LookupLast(SelectKeys(ps, keys), k) == LookupLast(ps, k)
  {
    if ps != [] {
      var init := ps[..|ps| - 1];
      var last := ps[|ps| - 1];
      SelectKeysLast(init, keys, k);
      if last.0 in keys {
        var s := SelectKeys(init, keys) + [last];
        assert s[..|s| - 1] == SelectKeys(init, keys);
      }
    }
  }

  /**
   * `filter(attributes, keys)`: keys are turned into symbols, pairs whose
   * symbol is not among `keys` are dropped, and the rest become a hash.
   */
  function Filter(attrs: Hash<Value>, keys: seq<Key>): (r: Hash<Value>)
    ensures Distinct(r)
  {
    ToH(SelectKeys(Symbolize(attrs), keys))
  }

  /**
   * The keys of `filter` are exactly the listed keys that some input key
   * names, as a String or as a Symbol.
   */
  lemma FilterKeys(attrs: Hash<Value>, keys: seq<Key>, k: Key)
    ensures HasKey(Filter(attrs, keys), k) <==>
      k in keys && exists i :: 0 <= i < |attrs| && ToSym(attrs[i].0) == k
  {
    var ps := Symbolize(attrs);
    SelectKeysHas(ps, keys, k);
    HasKeyAt(ps, k);
    forall i | 0 <= i < |attrs| ensures ps[i].0 == ToSym(attrs[i].0) {
      SymbolizeAt(attrs, i);
    }
  }

  /** Every key `filter` returns is a Symbol from `keys`. */
  lemma FilterKeysAreListedSymbols(attrs: Hash<Value>, keys: seq<Key>)
    ensures forall k :: HasKey(Filter(attrs, keys), k) ==> k.SymKey? && k in keys
  {
    forall k | HasKey(Filter(attrs, keys), k) ensures k.SymKey? && k in keys {
      FilterKeys(attrs, keys, k);
    }
  }

  /**
   * The value `filter` keeps for a key is that of the last input pair
   * whose key names it: `to_h` lets a later pair win a collision.
   */
  lemma FilterValue(attrs: Hash<Value>, keys: seq<Key>, i: nat)
    requires i < |attrs| && ToSym(attrs[i].0) in keys
    requires forall j :: i < j < |attrs| ==> ToSym(attrs[j].0) != ToSym(attrs[i].0)
    ensures Lookup(Filter(attrs, keys), ToSym(attrs[i].0)) == Some(attrs[i].1)
  {
    var ps := Symbolize(attrs);
    var k := ToSym(attrs[i].0);
    SelectKeysLast(ps, keys, k);
    forall j | i <= j < |ps| ensures ps[j] == (ToSym(attrs[j].0), attrs[j].1) {
      SymbolizeAt(attrs, j);
    }
    LookupLastAt(ps, i);
  }

  /** Symbolizing a hash whose keys are all Symbols changes nothing. */
  lemma {:induction false} SymbolizeSymbols(h: Hash<Value>)
    requires forall i :: 0 <= i < |h| ==> h[i].0.SymKey?
    ensures Symbolize(h) == h
  {
    if h != [] {
      assert forall i :: 0 <= i < |h[1..]| ==> h[1..][i] == h[i + 1];
      SymbolizeSymbols(h[1..]);
      assert h == [h[0]] + h[1..];
    }
  }

  /** Selecting keys that are all listed changes nothing. */
  lemma {:induction false} SelectAllListed(ps: seq<(Key, Value)>, keys: seq<Key>)
    requires forall i :: 0 <= i < |ps| ==> ps[i].0 in keys
    ensures SelectKeys(ps, keys) == ps
  {
    if ps != [] {
      var init := ps[..|ps| - 1];
      assert forall i :: 0 <= i < |init| ==> init[i] == ps[i];
      SelectAllListed(init, keys);
      assert init + [ps[|ps| - 1]] == ps;
    }
  }

  /** `filter` is idempotent: filtering its own result again changes nothing. */
  lemma FilterIdempotent(attrs: Hash<Value>, keys: seq<Key>)
    ensures Filter(Filter(attrs, keys), keys) == Filter(attrs, keys)
  {
    var r := Filter(attrs, keys);
    FilterKeysAreListedSymbols(attrs, keys);
    forall i | 0 <= i < |r| ensures r[i].0.SymKey? && r[i].0 in keys {
      HasKeyAt(r, r[i].0);
    }
    SymbolizeSymbols(r);
    SelectAllListed(r, keys);
    ToHDistinct(r);
  }

  /** The example in the documentation of `filter`. */
  lemma FilterExample()
    ensures Filter([(StrKey("foo"), Sym("BAR")), (SymKey("bar"), Sym("BAZ"))], [SymKey("foo"), SymKey("qux")])
         == [(SymKey("foo"), Sym("BAR"))]
  {
  }

  // ---------------------------------------------------------------------
  // update
  // ---------------------------------------------------------------------

  /** `keys.map { |key| [key, attributes[key]] }` */
  function KeyedValues(attrs: Hash<Value>, keys: seq<Key>): (ps: seq<(Key, Value)>)
    ensures Keys(ps) == keys
  {
    if keys == [] then [] else [(keys[0], Get(attrs, keys[0]))] + KeyedValues(attrs, keys[1..])
  }

  lemma {:induction false} KeyedValuesAt(attrs: Hash<Value>, keys: seq<Key>, i: nat)
    requires i < |keys|
    ensures KeyedValues(attrs, keys)[i] == (keys[i], Get(attrs, keys[i]))
  {
    if i > 0 {
      KeyedValuesAt(attrs, keys[1..], i - 1);
    }
  }

  /** `update(attributes, keys)`: the hash projected onto exactly `keys`. */
  function Update(attrs: Hash<Value>, keys: seq<Key>): (r: Hash<Value>)
    ensures Distinct(r)
    ensures forall k :: HasKey(r, k) <==> k in keys
  {
    ToH(KeyedValues(attrs, keys))
  }

  /** Each key of `update` holds the input's value, or nil when the input lacks it. */
  lemma UpdateValue(attrs: Hash<Value>, keys: seq<Key>, k: Key)
    requires k in keys
    ensures Lookup(Update(attrs, keys), k) == Some(Get(attrs, k))
  {
    var ps := KeyedValues(attrs, keys);
    LookupLastFrom(ps, k);
    var i :| 0 <= i < |ps| && ps[i].0 == k && ps[i].1 == LookupLast(ps, k).value;
    KeyedValuesAt(attrs, keys, i);
  }

  /** With no repeated key in `keys`, `update` lists its keys in the order of `keys`. */
  lemma UpdateOrder(attrs: Hash<Value>, keys: seq<Key>)
    requires NoDups(keys)
    ensures Keys(Update(attrs, keys)) == keys
  {
    ToHDistinct(KeyedValues(attrs, keys));
  }

  /** The example in the documentation of `update`. */
  lemma UpdateExample()
    ensures Update([(SymKey("foo"), Sym("BAR"))], [SymKey("foo"), SymKey("qux")])
         == [(SymKey("foo"), Sym("BAR")), (SymKey("qux"), Nil)]
  {
  }

  // ---------------------------------------------------------------------
  // convert, missed, default, coerce
  // ---------------------------------------------------------------------

  /**
   * `convert(attributes, name, presence, absence)`: apply `presence` when
   * `name` is a key of the hash, whatever its value, and `absence` otherwise.
   */
  function Convert(attrs: Hash<Value>, name: Key,
                   presence: Hash<Value> -> Result<Hash<Value>>,
                   absence: Hash<Value> -> Result<Hash<Value>>): (r: Result<Hash<Value>>)
    ensures HasKey(attrs, name) ==> r == presence(attrs)
    ensures !HasKey(attrs, name) ==> r == absence(attrs)
  {
    if name in Keys(attrs) then presence(attrs) else absence(attrs)
  }

  /** A key stored with the value nil still counts as present. */
  lemma ConvertNilIsPresent(attrs: Hash<Value>, name: Key,
                            presence: Hash<Value> -> Result<Hash<Value>>,
                            absence: Hash<Value> -> Result<Hash<Value>>)
    requires Lookup(attrs, name) == Some(Nil)
    ensures Convert(attrs, name, presence, absence) == presence(attrs)
  {
  }

  /** `missed(attributes, name)`: always fails, naming the attribute. */
  function Missed(attrs: Hash<Value>, name: Key): (r: Result<Hash<Value>>)
    ensures r.Fail? && r.error == MissedAttribute(name)
  {
    Fail(MissedAttribute(name))
  }

  /** `default(attributes, name, value)`: `name` set to `value`, every other entry kept. */
  function Default(attrs: Hash<Value>, name: Key, value: Value): (r: Hash<Value>)
    ensures Lookup(r, name) == Some(value)
    ensures forall k :: k != name ==> Lookup(r, k) == Lookup(attrs, k)
    ensures Keys(r) == if HasKey(attrs, name) then Keys(attrs) else Keys(attrs) + [name]
  {
    Store(attrs, name, value)
  }

  /**
   * `coerce(attributes, name, coercer)`: `name` set to the coercer's image
   * of its old value (of nil when absent), every other entry kept.
   */
  function Coerce(attrs: Hash<Value>, name: Key, coercer: Value -> Value): (r: Hash<Value>)
    ensures Lookup(r, name) == Some(coercer(Get(attrs, name)))
    ensures forall k :: k != name ==> Lookup(r, k) == Lookup(attrs, k)
    ensures Keys(r) == if HasKey(attrs, name) then Keys(attrs) else Keys(attrs) + [name]
  {
    Store(attrs, name, coercer(Get(attrs, name)))
  }

  /** The example in the documentation of `coerce`. */
  lemma CoerceExample()
    ensures Coerce([(SymKey("foo"), Sym("BAR")), (SymKey("bar"), Sym("BAZ"))], SymKey("foo"),
                   (v: Value) => if v.Sym? then Str(v.s) else v)
         == [(SymKey("foo"), Str("BAR")), (SymKey("bar"), Sym("BAZ"))]
  {
  }

  // ---------------------------------------------------------------------
  // blacklist, whitelist
  // ---------------------------------------------------------------------

  /** `blacklist(attributes, name, condition)`: fails when the value matches. */
  function Blacklist(attrs: Hash<Value>, name: Key, condition: Condition): (r: Result<Hash<Value>>)
    ensures r.Ok? <==> !Check(Get(attrs, name), condition)
    ensures r.Ok? ==> r.value == attrs
    ensures r.Fail? ==> r.error == InvalidAttribute(name, Get(attrs, name))
  {
    if !Check(Get(attrs, name), condition) then Ok(attrs)
    else Fail(InvalidAttribute(name, Get(attrs, name)))
  }

  /** `whitelist(attributes, name, condition)`: fails when the value does not match. */
  function Whitelist(attrs: Hash<Value>, name: Key, condition: Condition): (r: Result<Hash<Value>>)
    ensures r.Ok? <==> Check(Get(attrs, name), condition)
    ensures r.Ok? ==> r.value == attrs
    ensures r.Fail? ==> r.error == InvalidAttribute(name, Get(attrs, name))
  {
    if Check(Get(attrs, name), condition) then Ok(attrs)
    else Fail(InvalidAttribute(name, Get(attrs, name)))
  }

  /** For one condition, exactly one of `blacklist` and `whitelist` passes. */
  lemma BlacklistWhitelistDual(attrs: Hash<Value>, name: Key, condition: Condition)
    ensures Blacklist(attrs, name, condition).Ok? <==> Whitelist(attrs, name, condition).Fail?
  {
  }

  /**
   * A condition whose evaluation raises a `StandardError` rejects the value
   * under `whitelist` and lets it through `blacklist`, which then return
   * normally.
   */
  lemma RaisingConditionNeverMatches(attrs: Hash<Value>, name: Key, condition: Condition)
    requires Send(Get(attrs, name), condition).Raised?
    ensures Blacklist(attrs, name, condition) == Ok(attrs)
    ensures Whitelist(attrs, name, condition) == Fail(InvalidAttribute(name, Get(attrs, name)))
  {
  }
}
