# CamelCaseMiddleware, modelled in Dafny

`CamelCaseMiddleware` is a GraphQL field-resolution middleware from `graphql-rails-schemaker`. Before a field is resolved, it rewrites the keys of the field's arguments from camelCase to snake_case, then hands the field on to the next middleware.

- The argument container is a `GraphQL::Query::Arguments`.
- The one key `clientMutationId` is kept as it is.
- Every other key is underscored (`userId` becomes `user_id`).
- Values are rewritten recursively:
  - lists element by element;
  - nested argument containers with the same rule;
  - plain hashes: the evident intent is keys underscored with no exemption, which `TransformValue` models; as written, line 28 raises `NoMethodError` for any non-empty hash (see Findings);
  - everything else is left alone.
- The schema definition of each argument is recorded under its new key, and the container is rebuilt from the values and the definitions.

The project has these modules:

- `AssocList` (`assoc_list.dfy`): insertion-ordered tables, which stand in for Ruby's `Hash`.
  - `Insert` is `hash[key] = value`: an existing key is overwritten in place, a new key is appended.
  - `FromPairs` is `Hash[pairs]`: the last value given for a key wins.
- `Inflector` (`inflector.dfy`): the key rule `String#underscore`, restricted to its per-character core. An underscore goes before every capital that follows a lower-case letter or a digit, then every letter is lower-cased.
- `CamelCaseMiddleware` (`camel_case_middleware.dfy`):
  - the value and argument datatypes;
  - `TransformValue`, a recursive function;
  - `TransformArguments`, a method whose loop fills the value table and the definition table side by side;
  - `Call`, which forwards to the next middleware.
- `MiddlewareProperties` (`middleware_properties.dfy`): what the middleware guarantees.
  - Key renaming and the exemption.
  - Definitions travel with their values.
  - Last write wins on a collision, and output keys are distinct.
  - Without collisions nothing is lost or reordered.
  - The output is in a canonical form that the middleware leaves fixed, so transforming twice is transforming once.
- `MiddlewareCases` (`middleware_cases.dfy`): concrete containers worked through the model.
- `AsWritten` (`as_written.dfy`): the hash branch of `transform_value` exactly as written, which raises `NoMethodError` (see Findings).

`TransformArguments` is an imperative method. Its loop invariants tie the two growing tables to `FromPairs` of the prefix processed so far, so its contract is `r == TransformArgs(fieldArgs)`. The properties are proved about the specification function `TransformArgs`.

## Model

| member | source | states |
|---|---|---|
| CamelCaseMiddleware.Call | lib/schemaker/camel_case_middleware.rb:2-4 | the next middleware receives parent type, parent object, field definition and query context unchanged and in place; only the arguments slot is replaced, by the transformed container; its result is returned as it is |
| CamelCaseMiddleware.RenameKey | lib/schemaker/camel_case_middleware.rb:11-14 | the new key is `clientMutationId` if and only if the old key is; every other new key has no upper-case letter (`RenameKeyRule` adds that snake-case keys are kept and that renaming is idempotent) |
| CamelCaseMiddleware.TransformArgs | lib/schemaker/camel_case_middleware.rb:6-21 | the value `transform_arguments` returns; it has no ensures of its own, and `TransformArguments`, `OutputKeys`, `OutputKeysDistinct`, `DefinitionsTravel`, `OneEntryPerKey`, `NoCollisions` and `OutputSize` state its properties |
| CamelCaseMiddleware.TransformArguments | lib/schemaker/camel_case_middleware.rb:6-21 | the loop over the entries builds exactly the container `TransformArgs` describes; after every iteration the two tables are `Hash[...]` of the assignments made so far and hold the same keys |
| CamelCaseMiddleware.PairsSnoc | lib/schemaker/camel_case_middleware.rb:10-18 | one more entry in the loop adds exactly one assignment to each table |
| CamelCaseMiddleware.ValuePairs | lib/schemaker/camel_case_middleware.rb:11-16 | assignment `i` to the value table is the renamed key of entry `i` with its transformed value |
| CamelCaseMiddleware.DefinitionPairs | lib/schemaker/camel_case_middleware.rb:11-17 | assignment `i` to the definition table is the renamed key of entry `i` with its own definition |
| CamelCaseMiddleware.NewArguments | lib/schemaker/camel_case_middleware.rb:20 | the rebuilt container has one entry per value key, in table order: its keys and values are exactly the value table, and each entry carries the definition the definition table records for its key |
| CamelCaseMiddleware.TransformValue | lib/schemaker/camel_case_middleware.rb:23-34 | a list stays a list, a hash a hash, a container a container; any other value is returned unchanged |
| CamelCaseMiddleware.TransformList | lib/schemaker/camel_case_middleware.rb:25-26 | a list keeps its length and order, and element `i` of the result is element `i` transformed |
| CamelCaseMiddleware.HashPairs | lib/schemaker/camel_case_middleware.rb:27-28 | pair `i` handed to `Hash[...]` is key `i` underscored, with no exemption, and value `i` transformed |
| AssocList.Lookup | lib/schemaker/camel_case_middleware.rb:20 | a key is found exactly when the table holds it |
| AssocList.LookupFound | lib/schemaker/camel_case_middleware.rb:20 | what a lookup finds is a pair of the table |
| AssocList.Insert | lib/schemaker/camel_case_middleware.rb:16-17 | assignment adds the key to the key set; an existing key keeps the table's size, and a new key is appended at the end |
| AssocList.InsertInPlace | lib/schemaker/camel_case_middleware.rb:16-17 | in a table with unique keys, `h[k] = v` leaves every pair at its position: the pair holding `k`, if any, now holds `v`, and every other pair is unchanged |
| AssocList.LookupInsert | lib/schemaker/camel_case_middleware.rb:16-17 | after `h[k] = v`, `h[k]` is `v` and every other key holds what it held |
| AssocList.InsertKeeps | lib/schemaker/camel_case_middleware.rb:16-17 | assignment keeps keys unique and invents no pair other than the one assigned |
| AssocList.FromPairs | lib/schemaker/camel_case_middleware.rb:7-18 | assigning pairs in order gives a table with unique keys, exactly the keys given, and no more entries than assignments |
| AssocList.FromPairsFrom | lib/schemaker/camel_case_middleware.rb:7-18 | every pair of the resulting table is one of the pairs assigned |
| AssocList.FromPairsSnoc | lib/schemaker/camel_case_middleware.rb:16-17 | one more assignment at the end is one more `Insert` |
| AssocList.FromPairsLastWins | lib/schemaker/camel_case_middleware.rb:16-17 | the value of a key is the value of the last assignment to it |
| AssocList.FromPairsDistinct | lib/schemaker/camel_case_middleware.rb:16-17 | assignments to pairwise distinct keys come out exactly as given, in order |
| AssocList.FromPairsOverwrite | lib/schemaker/camel_case_middleware.rb:16-17 | two assignments to one key leave only the second |
| AssocList.FromPairsKeepsPlace | lib/schemaker/camel_case_middleware.rb:16-17 | assigning `k`, then another key, then `k` again leaves `k` first, with the last value, and the other key second |
| AssocList.SameKeySeq | lib/schemaker/camel_case_middleware.rb:16-17 | tables assigned the same keys in the same order hold the same key set |
| Inflector.UnderscoreFacts | lib/schemaker/camel_case_middleware.rb:13 | the result of underscoring has no upper-case letter; a key without one is unchanged; the key never gets shorter |
| Inflector.Underscore | lib/schemaker/camel_case_middleware.rb:13 | `key.underscore` under the per-character rule: the result has no upper-case letter and is never shorter than the key |
| Inflector.UnderscoreFixes | lib/schemaker/camel_case_middleware.rb:13 | underscoring leaves a key alone if and only if it has no upper-case letter |
| Inflector.UnderscoreIdempotent | lib/schemaker/camel_case_middleware.rb:13 | underscoring twice is underscoring once |
| Inflector.AfterAppend | lib/schemaker/camel_case_middleware.rb:13 | the rule on a concatenation is the rule on each half, the second half seeing the last character of the first |
| Inflector.AfterHump | lib/schemaker/camel_case_middleware.rb:13 | a capital after a lower-case letter or a digit becomes `_` and its lower-case form |
| Inflector.UserIdExample | lib/schemaker/camel_case_middleware.rb:13 | `userId` becomes `user_id` |
| Inflector.UserIdsExample | lib/schemaker/camel_case_middleware.rb:13 | `userIds` becomes `user_ids` |
| Inflector.StreetNameExample | lib/schemaker/camel_case_middleware.rb:13 | `streetName` becomes `street_name` |
| Inflector.ClientMutationIdExample | lib/schemaker/camel_case_middleware.rb:12-13 | `clientMutationId` would become `client_mutation_id` without the exemption |
| Inflector.TwoLetterExample | lib/schemaker/camel_case_middleware.rb:13 | `aB` becomes `a_b` |
| Inflector.AcronymExample | lib/schemaker/camel_case_middleware.rb:13 | a run of capitals is only lower-cased: `HTTPStatus` becomes `httpstatus` |
| MiddlewareProperties.RenameKeyRule | lib/schemaker/camel_case_middleware.rb:11-14 | a key renames to `clientMutationId` if and only if it is `clientMutationId`; every other new key has no upper-case letter; a key without one is kept; renaming is idempotent |
| MiddlewareProperties.OutputKeys | lib/schemaker/camel_case_middleware.rb:11-20 | a key is in the output if and only if it is the renamed key of some input entry |
| MiddlewareProperties.OutputKeysDistinct | lib/schemaker/camel_case_middleware.rb:16-20 | no key occurs twice in the output, whatever the input |
| MiddlewareProperties.ClientMutationIdKept | lib/schemaker/camel_case_middleware.rb:11-14 | `clientMutationId` is in the output if and only if it is in the input; every other output key is in snake case |
| MiddlewareProperties.TablesSameKeys | lib/schemaker/camel_case_middleware.rb:7-17 | the value table and the definition table hold the same keys for every input, and so after every prefix of the loop |
| MiddlewareProperties.OutputSize | lib/schemaker/camel_case_middleware.rb:16-20 | the output never has more entries than the input |
| MiddlewareProperties.TablesLastWins | lib/schemaker/camel_case_middleware.rb:16-17 | under a renamed key both tables hold what the last entry with that renamed key supplied |
| MiddlewareProperties.EntryOfKey | lib/schemaker/camel_case_middleware.rb:20 | the value and the definition stored under one key form one output entry |
| MiddlewareProperties.DefinitionsTravel | lib/schemaker/camel_case_middleware.rb:16-17 | the last entry whose key renames to `k` gives the output entry under `k` both its transformed value and its definition |
| MiddlewareProperties.OneEntryPerKey | lib/schemaker/camel_case_middleware.rb:16-20 | an output entry is the only one with its key |
| MiddlewareProperties.OutputEntryIsLast | lib/schemaker/camel_case_middleware.rb:10-20 | every output entry is the last input entry with its renamed key: that key renamed, its value transformed, its own definition |
| MiddlewareProperties.NoCollisions | lib/schemaker/camel_case_middleware.rb:10-20 | when renamed keys are pairwise distinct, the output has as many entries as the input; entry `i` is entry `i` with the key renamed, the value transformed and the definition kept |
| MiddlewareProperties.HashKeys | lib/schemaker/camel_case_middleware.rb:27-28 | a key is in a rebuilt hash if and only if it is the underscored form of some input key |
| MiddlewareProperties.HashNoExemption | lib/schemaker/camel_case_middleware.rb:27-28 | no key of a rebuilt hash has an upper-case letter, so none is `clientMutationId` |
| MiddlewareProperties.HashLastWins | lib/schemaker/camel_case_middleware.rb:27-28 | in a hash the last pair whose key underscores to `k` decides the value under `k` |
| MiddlewareProperties.TransformCanonical | lib/schemaker/camel_case_middleware.rb:23-34 | every transformed value is canonical at every depth: distinct, renamed keys in containers and distinct, underscored keys in hashes |
| MiddlewareProperties.HashCanonical | lib/schemaker/camel_case_middleware.rb:27-28 | a rebuilt hash is canonical |
| MiddlewareProperties.ArgsCanonical | lib/schemaker/camel_case_middleware.rb:29-30 | a rebuilt container is canonical |
| MiddlewareProperties.CanonicalFixed | lib/schemaker/camel_case_middleware.rb:23-34 | a canonical value is left exactly as it is |
| MiddlewareProperties.FixedArgs | lib/schemaker/camel_case_middleware.rb:6-21 | a canonical container is left exactly as it is |
| MiddlewareProperties.FlatSnakeCanonical | lib/schemaker/camel_case_middleware.rb:11-14 | a flat container with distinct keys and no upper-case letter in any key is canonical |
| MiddlewareProperties.SnakeCaseArgsUnchanged | lib/schemaker/camel_case_middleware.rb:6-21 | a flat container already in snake case, with distinct keys, comes out unchanged |
| MiddlewareProperties.TransformIdempotent | lib/schemaker/camel_case_middleware.rb:23-34 | transforming a transformed value changes nothing |
| MiddlewareCases.Single | lib/schemaker/camel_case_middleware.rb:10-20 | a one-entry container keeps its definition and gets its key renamed and its value transformed |
| MiddlewareCases.UserIdCase | lib/schemaker/camel_case_middleware.rb:10-20 | `{userId: 5}` becomes `{user_id: 5}` with the same definition |
| MiddlewareCases.ClientMutationIdCase | lib/schemaker/camel_case_middleware.rb:12-14 | `{clientMutationId: "abc"}` is passed through as it is |
| MiddlewareCases.NestedCase | lib/schemaker/camel_case_middleware.rb:29-30 | `{userId: {streetName: "Main"}}` becomes `{user_id: {street_name: "Main"}}`, definitions kept at both levels |
| MiddlewareCases.ListCase | lib/schemaker/camel_case_middleware.rb:25-26 | `{userIds: [1, 2, 3]}` becomes `{user_ids: [1, 2, 3]}` |
| MiddlewareCases.Collision | lib/schemaker/camel_case_middleware.rb:16-17 | two entries whose keys rename alike leave one entry, with the later value and the later definition |
| MiddlewareCases.CollisionCase | lib/schemaker/camel_case_middleware.rb:16-17 | `{userId: a, user_id: b}` becomes `{user_id: b}` with the definition of `user_id` |
| MiddlewareCases.CollisionKeepsPlace | lib/schemaker/camel_case_middleware.rb:10-20 | when the first and third of three entries rename alike, the output has the first key's new name in first place, with the third entry's value and definition, and the second entry after it |
| MiddlewareCases.CollisionOrderCase | lib/schemaker/camel_case_middleware.rb:10-20 | `{userId: a, foo: b, user_id: c}` becomes `{user_id: c, foo: b}`, with the definitions of `user_id` and `foo` |
| MiddlewareCases.HashCase | lib/schemaker/camel_case_middleware.rb:27-28 | `{"userId" => 5}` becomes `{"user_id" => 5}` |
| MiddlewareCases.HashClientMutationIdCase | lib/schemaker/camel_case_middleware.rb:27-28 | inside a plain hash `clientMutationId` becomes `client_mutation_id` |
| AsWritten.TransformValueAsWritten | lib/schemaker/camel_case_middleware.rb:23-34 | the only error the code as written can raise is the missing `underscore_key` |
| AsWritten.ListAsWritten | lib/schemaker/camel_case_middleware.rb:25-26 | the `map` as written raises only the missing `underscore_key`, and when it completes the list keeps its length |
| AsWritten.ArgsAsWritten | lib/schemaker/camel_case_middleware.rb:6-21 | `transform_arguments` as written raises only the missing `underscore_key` (`ValuePairsRaise` says exactly when, `ArgsAgree` what it returns otherwise) |
| AsWritten.CallAsWritten | lib/schemaker/camel_case_middleware.rb:2-4 | `call` as written raises only the missing `underscore_key`; it transforms the arguments before it calls the next middleware |
| AsWritten.CallAsWrittenOutcome | lib/schemaker/camel_case_middleware.rb:2-4 | `call` as written raises, without reaching the next middleware, exactly when some argument holds a non-empty hash at any depth; otherwise it returns what the next middleware returns for the corrected arguments |
| AsWritten.ValuePairsAsWritten | lib/schemaker/camel_case_middleware.rb:10-18 | when the loop as written completes, it assigns to the renamed key of every entry, in order |
| AsWritten.RaisesIffNonEmptyHash | lib/schemaker/camel_case_middleware.rb:28 | the code as written raises if and only if some hash, at any depth, has a pair |
| AsWritten.AgreesWhenDone | lib/schemaker/camel_case_middleware.rb:23-34 | where the code as written does not raise, it computes what `TransformValue` computes |
| AsWritten.ArgsAgree | lib/schemaker/camel_case_middleware.rb:6-21 | where `transform_arguments` as written does not raise, its result is `TransformArgs` |
| AsWritten.HashCounterexample | lib/schemaker/camel_case_middleware.rb:28 | `{"userId" => 5}` raises `NoMethodError` as written, where the intent gives `{"user_id" => 5}` |
| AsWritten.ArgumentCounterexample | lib/schemaker/camel_case_middleware.rb:28 | a container whose value is a non-empty hash raises during `transform_arguments` |

## Left out

- `lib/graphql/rails/schemaker/template_renderer.rb` is not part of this model. It evaluates ERB templates and reads files: template-engine calls and I/O, with no argument logic.
- `lib/graphql/rails/schemaker.rb` is not part of this model. Its `root` is a filesystem path of the loaded source.
- `lib/graphql/rails/schemaker/railtie.rb` is not part of this model. It is Rails start-up glue.
- Inflector.Underscore: follows only the per-character rule. ActiveSupport's full `String#underscore` also splits acronyms (`HTTPStatus` becomes `http_status`), turns `::` into `/` and `-` into `_`, and applies custom inflections. That library is not part of this model, and `AcronymExample` pins the simple rule's output instead.
- Inflector.ToLower: lower-cases ASCII letters only, with no Unicode case mapping.
- CamelCaseMiddleware.NewArguments: stands for `GraphQL::Query::Arguments.new`, whose internals are not part of this model.
  - It is modelled as pairing each value with the definition recorded under its key.
  - Its precondition (every value key has a definition) always holds for the tables the loop builds; `TablesSameKeys` proves this.
- CamelCaseMiddleware.Call: the next middleware is a total function from the forwarded tuple to a result of any type.
  - An exception it raises is not modelled as control flow. The source has no handling code, so such an error would reach the caller untouched, as a result value of that type would.
  - The Ruby array `[parent_type, ...]` is the `Resolution` datatype.
- Argument keys are strings. `arg_value.key.to_s` turns a Symbol key into its name, which is not modelled separately.
- Scalars are represented by a few literal kinds (null, booleans, integers, strings, enum names). `transform_value` returns every non-list, non-hash, non-container value unchanged, so floats, times and other Ruby objects would behave the same and are not listed.
- `case value when Array` dispatches through `Array === value` (subclasses included); the model dispatches on the datatype constructor.
- CamelCaseMiddleware.TransformValue: models the evident intent of the hash branch at line 28, not the `NoMethodError` it raises as written. The code as written is modelled separately in `AsWritten`.
- When two keys rename to the same key, the later entry overwrites the earlier one in both tables, so the output can be shorter than the input: `OutputSize`, `Collision` and `CollisionCase`. Equal size holds only under `NoCollisions`. The surviving key keeps the place of its first occurrence: `CollisionKeepsPlace` and `CollisionOrderCase`.

## Findings

| source | as written | input that shows it | evidently intended | confidence | as-written member | corrected member |
|---|---|---|---|---|---|---|
| lib/schemaker/camel_case_middleware.rb:28 | the hash branch calls `underscore_key(k)` and `convert_hash_keys(v)`, which `CamelCaseMiddleware` never defines, so any non-empty hash raises `NoMethodError`, which propagates out of `transform_arguments` before `next_middleware.call` is reached (line 3) | an argument whose value is the plain hash `{"userId" => 5}` | underscore each key of the hash, with no `clientMutationId` exemption, and transform each value: `{"user_id" => 5}` | not executed; high, since neither name is defined in the class or required into it | AsWritten.HashCounterexample | CamelCaseMiddleware.TransformValue |
