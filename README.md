# attributes_dsl: the attribute-schema pipeline in Dafny

This project models the core of the Ruby gem `attributes_dsl`. The gem declares
a schema of named attributes for plain Ruby objects and turns an input hash into
a normalised hash of attribute values. The model covers three parts of it:

- `AttributesDSL::Transprocs`: pure hash-to-hash functions (`filter`, `update`,
  `convert`, `missed`, `default`, `coerce`, `blacklist`, `whitelist`) and the
  condition matcher `check`. These are in `transprocs.dfy`.
- `AttributesDSL::Attribute`: the immutable descriptor of one attribute, holding
  its name, default, required flag and coercer. This is in `descriptor.dfy`.
- `AttributesDSL::Attributes`: the immutable collection of descriptors. It has
  copy-on-write `register` and the two-step `extract`: first every missing
  required name is reported in one error, then a fold over the descriptors in
  registration order builds the output. This is in `collection.dfy`.

All three are pure Ruby, so the model uses datatypes, functions and lemmas.

- A Ruby hash is a sequence of key/value pairs in insertion order (`hashes.dfy`).
- `Store` is `Hash#merge` with one pair: an existing key is replaced in place,
  and a new key is appended.
- `ToH` is `Array#to_h`: a left fold of `Store`, so for a repeated key the last
  value wins and the key stays at its first position.
- Keys are Strings or Symbols (`Key`).
- Values are `nil`, booleans, Integers, Strings and Symbols (`Value`).
- Every `ArgumentError` the code raises becomes the `Fail` variant of
  `Errors.Result`. It carries what the message names: the attribute name, or
  the offending value, or the whole list of missing names.

Immutability needs no proof obligation, because Dafny values cannot be mutated.
So `register` leaves its receiver unchanged and `extract` leaves its input
unchanged by construction. `Collection.Valid` holds for `Empty` and is kept by
`Register`: names are unique, each descriptor is stored under its own name,
and only descriptors without a default are required.

Two behaviours are worth naming:

- `Attributes#extract` passes defaults through the coercer, like input values
  (lib/attributes_dsl/attributes.rb:55-56; the documentation at
  lib/attributes_dsl.rb:41 says the same). `Collection.ExtractSucceeds` and
  `Collection.ExtractExample` state the coerced default.
- `Attribute#initialize` tests `default.nil?` (lib/attributes_dsl/attribute.rb:51).
  So an explicit `default: nil` is the same as no default and does not cancel
  `required: true` (`Descriptor.NilDefaultKeepsRequired`).

## Model

| member | source | states |
|---|---|---|
| `Hashes.Store` | lib/attributes_dsl/transprocs.rb:83 | `merge(k => v)` maps `k` to `v`. Every other key keeps its value. The key list is unchanged when `k` is present, and gains `k` at the end otherwise. |
| `Hashes.StoreAppends` | lib/attributes_dsl/transprocs.rb:83 | Merging a new key appends exactly the pair `(k, v)`. |
| `Hashes.StoreKeepsOthers` | lib/attributes_dsl/transprocs.rb:83 | Merging leaves every pair with another key at its position. |
| `Hashes.StoreReplacesAt` | lib/attributes_dsl/transprocs.rb:83 | Merging a present key replaces its pair in place. |
| `Hashes.StoreAt` | lib/attributes_dsl/transprocs.rb:83 | Every pair after a merge is either the merged pair or the pair that was at that position. |
| `Hashes.StoreDistinct` | lib/attributes_dsl/transprocs.rb:83 | Merging keeps keys unique. |
| `Hashes.ToH` | lib/attributes_dsl/transprocs.rb:26 | `to_h` has unique keys and exactly the keys of its pairs. Each key holds the value of its LAST pair. |
| `Hashes.ToHDistinct` | lib/attributes_dsl/transprocs.rb:26 | `to_h` of pairs whose keys are already unique returns them unchanged. |
| `Hashes.Get` | lib/attributes_dsl/transprocs.rb:41 | `hash[k]` is the stored value when `k` is a key, and nil otherwise. |
| `Hashes.Fetch` | lib/attributes_dsl/attributes.rb:55 | `hash.fetch(k) { default }` is the stored value when `k` is a key, even nil, and `default` otherwise. |
| `Hashes.LookupAt` | lib/attributes_dsl/attributes.rb:55 | In a hash with unique keys, looking up the key at position `i` gives the value at `i`. |
| `Hashes.LookupLastAt` | lib/attributes_dsl/transprocs.rb:26 | The last pair with a given key supplies the value found for it. |
| `Transprocs.Send` | lib/attributes_dsl/transprocs.rb:135-136 | An Array is asked `include?` and every other condition `===`. Only a Proc condition can raise; the built-in conditions return a boolean. |
| `Transprocs.Check` | lib/attributes_dsl/transprocs.rb:134-139 | An Array condition tests membership. A range tests Integer bounds. A regexp matches Strings and Symbols only. A class tests the value's class. Any other object tests `==`. A proc passes when it returns a truthy object. A StandardError raised by the condition counts as no match. |
| `Transprocs.RaisingConditionNeverMatches` | lib/attributes_dsl/transprocs.rb:95-114 | A condition that raises a StandardError lets the value through `blacklist` and makes `whitelist` fail with the name and value; both return normally. |
| `Transprocs.Symbolize` | lib/attributes_dsl/transprocs.rb:24 | Converting the keys with `to_sym` keeps one pair per input pair. |
| `Transprocs.SymbolizeAt` | lib/attributes_dsl/transprocs.rb:24 | The pair at each position keeps its value and has its key converted with `to_sym`. |
| `Transprocs.SelectKeys` | lib/attributes_dsl/transprocs.rb:25 | `select` never adds pairs. |
| `Transprocs.Filter` | lib/attributes_dsl/transprocs.rb:22-27 | `filter` returns a hash with unique keys. |
| `Transprocs.FilterKeys` | lib/attributes_dsl/transprocs.rb:22-27 | A key is in `filter`'s result iff it is listed in `keys` and some input key, String or Symbol, converts to it with `to_sym`. |
| `Transprocs.FilterKeysAreListedSymbols` | lib/attributes_dsl/transprocs.rb:24-25 | Every key of `filter`'s result is a Symbol listed in `keys`. |
| `Transprocs.FilterValue` | lib/attributes_dsl/transprocs.rb:23-26 | Each kept key holds the value of the last input pair whose key converts to it. A later pair wins a collision. |
| `Transprocs.FilterIdempotent` | lib/attributes_dsl/transprocs.rb:22-27 | Filtering `filter`'s own result with the same keys returns it unchanged. |
| `Transprocs.FilterExample` | lib/attributes_dsl/transprocs.rb:13-15 | The documented example: `filter({"foo" => :BAR, bar: :BAZ}, [:foo, :qux]) == {foo: :BAR}`. |
| `Transprocs.SelectKeysHas` | lib/attributes_dsl/transprocs.rb:25 | `select` keeps a key iff the key is listed. |
| `Transprocs.SelectKeysLast` | lib/attributes_dsl/transprocs.rb:25 | `select` keeps the last value of each listed key. |
| `Transprocs.KeyedValues` | lib/attributes_dsl/transprocs.rb:41 | `keys.map { ... }` produces one pair per listed key, keys in the order of `keys`. |
| `Transprocs.KeyedValuesAt` | lib/attributes_dsl/transprocs.rb:41 | The pair for each listed key holds `attributes[key]`, nil when absent. |
| `Transprocs.Update` | lib/attributes_dsl/transprocs.rb:40-42 | `update`'s key set is exactly `keys`, with no key twice. |
| `Transprocs.UpdateValue` | lib/attributes_dsl/transprocs.rb:40-42 | Each key of `update`'s result holds the input's value for that key, or nil when the input lacks it. |
| `Transprocs.UpdateOrder` | lib/attributes_dsl/transprocs.rb:41 | When `keys` has no repeats, `update`'s keys come in the order of `keys`. |
| `Transprocs.UpdateExample` | lib/attributes_dsl/transprocs.rb:31-33 | The documented example: `{foo: :BAR}` projected onto `[:foo, :qux]` is `{foo: :BAR, qux: nil}`. |
| `Transprocs.Convert` | lib/attributes_dsl/transprocs.rb:54-60 | `convert` takes the presence branch iff `name` is a key of the hash, and the absence branch otherwise. |
| `Transprocs.ConvertNilIsPresent` | lib/attributes_dsl/transprocs.rb:55 | A key stored with value nil still takes the presence branch. |
| `Transprocs.Missed` | lib/attributes_dsl/transprocs.rb:70-72 | `missed` always fails, with an error naming the attribute. |
| `Transprocs.Default` | lib/attributes_dsl/transprocs.rb:82-84 | `default` sets `name` to `value`. Every other entry and its position are unchanged. |
| `Transprocs.Coerce` | lib/attributes_dsl/transprocs.rb:128-130 | `coerce` sets `name` to `coercer(old value)`, where the old value is nil when absent. Every other entry is unchanged. |
| `Transprocs.CoerceExample` | lib/attributes_dsl/transprocs.rb:118-120 | The documented example: coercing `foo` with `to_s` gives `{foo: "BAR", bar: :BAZ}`. |
| `Transprocs.Blacklist` | lib/attributes_dsl/transprocs.rb:95-99 | `blacklist` returns the hash unchanged iff the value does not match the condition. Otherwise it fails with the attribute's name and value. |
| `Transprocs.Whitelist` | lib/attributes_dsl/transprocs.rb:110-114 | `whitelist` returns the hash unchanged iff the value matches the condition. Otherwise it fails with the attribute's name and value. |
| `Transprocs.BlacklistWhitelistDual` | lib/attributes_dsl/transprocs.rb:95-114 | For any hash, name and condition, exactly one of `blacklist` and `whitelist` passes. |
| `Descriptor.New` | lib/attributes_dsl/attribute.rb:48-55 | The name and coercer are stored unchanged, and the default is nil unless given. `required` holds iff the default is nil and `required:` was given a truthy value. |
| `Descriptor.DefaultMakesOptional` | lib/attributes_dsl/attribute.rb:51 | A non-nil default makes the attribute optional, whatever `required:` says. |
| `Descriptor.NilDefaultKeepsRequired` | lib/attributes_dsl/attribute.rb:50-51 | An explicit `default: nil` does not cancel `required: true`. |
| `Descriptor.ValueFor` | lib/attributes_dsl/attribute.rb:63-65 | `value(x)` is `coercer(x)` when there is a coercer, and `x` otherwise. |
| `Descriptor.EqualityIgnoresSettings` | lib/attributes_dsl/attribute.rb:13 | Two descriptors are equal iff their names are equal, whatever their options and coercers. |
| `Descriptor.SameAttribute` | lib/attributes_dsl/attribute.rb:13 | Identical descriptors are equal, and descriptors with different names never are. |
| `Collection.Empty` | lib/attributes_dsl/attributes.rb:26-29 | A new collection has no names and is valid. |
| `Collection.Register` | lib/attributes_dsl/attributes.rb:38-42 | `register` returns a collection whose names are the old names plus `name`, added last only if new. `name` maps to the new descriptor, and every other name keeps its descriptor. |
| `Collection.RegisterPreservesValid` | lib/attributes_dsl/attributes.rb:38-42 | After `register`, names are still unique and each descriptor is still stored under its own name. |
| `Collection.RegisterKeepsPositions` | lib/attributes_dsl/attributes.rb:40 | Re-registering a name replaces only that descriptor, at its old position. Every other descriptor stays where it was. |
| `Collection.RequiredNames` | lib/attributes_dsl/attributes.rb:69-71 | `select(&:required).map(&:name)` contains a name iff some required descriptor has it, and is no longer than the descriptor list. |
| `Collection.Required` | lib/attributes_dsl/attributes.rb:69-71 | `required` contains a name iff some registered descriptor with that name is required. |
| `Collection.Without` | lib/attributes_dsl/attributes.rb:63 | `xs - ys` contains exactly the elements of `xs` that are not in `ys`, and is no longer than `xs`. |
| `Collection.Undefined` | lib/attributes_dsl/attributes.rb:63 | `required - input.keys` contains exactly the required names that are not keys of the input. |
| `Collection.Validate` | lib/attributes_dsl/attributes.rb:62-67 | `validate` passes iff `required - input.keys` is empty, and then returns the descriptors in registration order. Otherwise it fails with that whole list. |
| `Collection.UndefinedIsMissingRequired` | lib/attributes_dsl/attributes.rb:62-71 | `required - input.keys` is exactly the list of required names absent from the input, in order. |
| `Collection.MissingRequiredHas` | lib/attributes_dsl/attributes.rb:69-71 | A name is reported missing iff some required descriptor has it and the input keys lack it. |
| `Collection.MissingRequiredInOrder` | lib/attributes_dsl/attributes.rb:69-71 | The missing names appear in descriptor order. |
| `Collection.Inject` | lib/attributes_dsl/attributes.rb:53-57 | The `inject`/`merge` fold yields a hash with unique keys. |
| `Collection.InjectHasKey` | lib/attributes_dsl/attributes.rb:53-57 | The fold's keys are exactly the descriptors' names, duplicates or not. |
| `Collection.InjectKeys` | lib/attributes_dsl/attributes.rb:53-57 | When names are unique, the fold produces exactly one key per descriptor, in order. |
| `Collection.InjectValue` | lib/attributes_dsl/attributes.rb:53-57 | When names are unique, the fold maps each descriptor's name to `value(input.fetch(name) { default })`. |
| `Collection.Extract` | lib/attributes_dsl/attributes.rb:52-58 | `extract` fails iff `required - input.keys` is non-empty, with an error listing exactly that list. On success it returns a hash whose keys are exactly the descriptors' names. The full promise is in the four `Extract*` lemmas below. |
| `Collection.ExtractFailsIffRequiredMissing` | lib/attributes_dsl/attributes.rb:52-67 | `extract` fails iff some required name is not a key of the input. A key present with value nil counts as given. |
| `Collection.ExtractErrorListsAllMissing` | lib/attributes_dsl/attributes.rb:62-66 | The single error of a failed `extract` lists every required name the input lacks, and no other, in registration order. |
| `Collection.ExtractSucceeds` | lib/attributes_dsl/attributes.rb:52-58 | On success, the output's keys are exactly the registered names in registration order, so unregistered input keys are dropped. Each name holds the coerced input value when the key is present, and the coerced default otherwise. |
| `Collection.ExtractWithoutRequiredSucceeds` | lib/attributes_dsl/attributes.rb:62-64 | A collection with no required descriptor never fails to extract. |
| `Collection.ExampleCollectionRegistered` | spec/unit/attributes_spec.rb:54-60 | The three registrations of the unit example build the example collection. |
| `Collection.ExtractExample` | spec/unit/attributes_spec.rb:62-68 | `{foo: :FOO, bar: :BAR, qux: :QUX}` extracts to `{foo: "FOO", bar: :BAR, baz: "BAZ"}`. |
| `Collection.ExtractMissingExample` | spec/unit/attributes_spec.rb:70-79 | `{baz: :BAZ}` fails with the missing names `[:foo, :bar]`, in that order. |
| `Collection.RequiredFooDescriptors` | spec/integration/required_attribute_spec.rb:2-8 | `attribute :foo, required: true` then `attribute :bar` build a required `foo` and an optional `bar`, both without default or coercer, in that order. |
| `Collection.RequiredMissingExample` | spec/integration/required_attribute_spec.rb:10-12 | `{bar: :BAZ}` fails with an error naming `foo`. |
| `Collection.RequiredAcceptsNilExample` | spec/integration/required_attribute_spec.rb:14-16 | `{foo: nil}` passes the required check and extracts to `{foo: nil, bar: nil}`. |

## Left out

- `lib/attributes_dsl.rb` is not part of this model. It holds the class-extension plumbing: `extended`, `define_method` readers, the memoised collection and `InstanceMethods#initialize`. It only calls `register` and `extract`, after turning the name into a Symbol with `to_sym` (line 53).
- `benchmark/run.rb` is not part of this model. It compares performance with other gems.
- The `only:`, `except:`, `coercer:` and `reader:` options and String input keys for `extract` are not modelled. The integration specs use them, but `Attribute` and `Attributes` never read them: `extract` looks input keys up as given. The primitives that would implement them (`filter`, `blacklist`, `whitelist`, `coerce`) are modelled on their own.
- `Transproc::Registry` and the `identity` import are not modelled; they are foreign library plumbing.
- `IceNine.deep_freeze` and `Equalizer` are not modelled as code. Dafny values are immutable, and descriptor equality is `Descriptor.SameAttribute`.
- `Transprocs.Check`: `Raised` stands for a StandardError, the only kind the bare `rescue` catches. Other exceptions (a ScriptError such as NotImplementedError, Interrupt, SystemExit) propagate out of `check`, `blacklist` and `whitelist` in Ruby and are not modelled.
- `Transprocs.Send`: Ruby's `===` is modelled only for the condition kinds it names. Regexps are given by the predicate on strings they decide. Ranges are inclusive Integer ranges. Classes are the exact classes of the modelled values; superclasses and modules are not modelled.
- `Descriptor.New`: the `required` field keeps only the truthiness of the computed `default.nil? && options[:required]`. Ruby keeps the object itself, but only its truthiness is ever read (`select(&:required)`).
- `Descriptor.ValueFor`, `Transprocs.Coerce`, `Collection.ExtractSucceeds`: coercers are total functions on values. A coercer that raises, which would abort the whole call, is not modelled.
- Value kinds: only nil, booleans, Integers, Strings and Symbols are modelled. Floats, Arrays, Hashes and other objects are not, so neither are matches such as `[1].include?(1.0)` and `(1..3) === 2.5`, which are true in Ruby.
- `Hashes.Store`: a hash key that is neither a String nor a Symbol is not modelled. `filter` would raise on it, because such keys have no `to_sym`.
- Error messages are not modelled as text. Each error variant carries the name or names and the offending value that the message would include.
