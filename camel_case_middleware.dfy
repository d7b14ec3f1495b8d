/** The field-resolution middleware that renames argument keys from
    camelCase to snake_case before handing the field on to the next stage.

    An argument container (`GraphQL::Query::Arguments`) is a sequence of
    entries, each a key, a value and the schema definition of that argument.
    Values are scalars, lists, plain hashes, or nested argument containers.
 */
module CamelCaseMiddleware {
  import opened AssocList
  import opened Inflector

  /** A schema argument definition: only ever carried along, never inspected. */
  type Definition

  /** Everything that is not a list, a hash or an argument container. */
  datatype Literal = Null | Bool(b: bool) | Int(i: int) | Str(s: string) | EnumName(name: string)

  datatype Value =
    | Scalar(literal: Literal)
    | List(items: seq<Value>)
    | Hash(pairs: Table<Value>)
    | Args(entries: seq<Entry>)

  /** One argument (`ArgumentValue`): its key, its value and its definition. */
  datatype Entry = Entry(key: string, value: Value, definition: Definition)

  /** The one key that is passed through without renaming. */
  const ClientMutationId: string := "clientMutationId"

  /** The key/value view of an argument container: its entries without their definitions. */
  function AsTable(args: seq<Entry>): (r: Table<Value>)
    ensures |r| == |args|
    ensures forall i :: 0 <= i < |args| ==> r[i] == Pair(args[i].key, args[i].value)
  {
    if args == [] then [] else [Pair(args[0].key, args[0].value)] + AsTable(args[1..])
  }

  /** The keys of an argument container. */
  ghost function ArgKeys(args: seq<Entry>): (r: set<string>)
  {
    KeySet(AsTable(args))
  }

  /** No key occurs twice in an argument container. */
  ghost predicate DistinctKeys(args: seq<Entry>)
  {
    UniqueKeys(AsTable(args))
  }

  /** The new key of an argument: the exempted key as it is, any other key underscored. */
  function RenameKey(key: string): (r: string)
    ensures r == ClientMutationId <==> key == ClientMutationId
    ensures r == ClientMutationId || NoUpper(r)
  {
    if key == ClientMutationId then key
    else
      assert IsUpper(ClientMutationId[6]);
      Underscore(key)
  }

  /** `transform_value`: dispatch on the shape of the value. The `Hash` case
      follows the evident intent of the source (keys underscored without the
      exemption, values transformed); the helpers the source calls there are
      not defined, see the `AsWritten` module. */
  function TransformValue(v: Value): (r: Value)
    ensures r.Scalar? == v.Scalar? && r.List? == v.List? && r.Hash? == v.Hash? && r.Args? == v.Args?
    ensures v.Scalar? ==> r == v
    decreases v, 2
  {
    match v
    case Scalar(_) => v
    case List(items) => List(TransformList(items))
    case Hash(pairs) => Hash(FromPairs(HashPairs(pairs)))
    case Args(entries) => Args(TransformArgs(entries))
  }

  /** `value.map { |v| transform_value(v) }`. */
  function TransformList(items: seq<Value>): (r: seq<Value>)
    ensures |r| == |items|
    ensures forall i :: 0 <= i < |items| ==> r[i] == TransformValue(items[i])
    decreases items, 1
  {
    if items == [] then [] else [TransformValue(items[0])] + TransformList(items[1..])
  }

  /** The pairs a hash is rebuilt from: each key underscored, each value transformed. */
  function HashPairs(pairs: Table<Value>): (r: Table<Value>)
    ensures |r| == |pairs|
    ensures forall i :: 0 <= i < |pairs| ==> r[i] == Pair(Underscore(pairs[i].key), TransformValue(pairs[i].value))
    decreases pairs, 1
  {
    if pairs == [] then []
    else [Pair(Underscore(pairs[0].key), TransformValue(pairs[0].value))] + HashPairs(pairs[1..])
  }

  /** The assignments `transformed_args[key] = transform_value(arg_value.value)`, in order. */
  function ValuePairs(args: seq<Entry>): (r: Table<Value>)
    ensures |r| == |args|
    ensures forall i :: 0 <= i < |args| ==> r[i] == Pair(RenameKey(args[i].key), TransformValue(args[i].value))
    decreases args, 0
  {
    if args == [] then []
    else [Pair(RenameKey(args[0].key), TransformValue(args[0].value))] + ValuePairs(args[1..])
  }

  /** The assignments `types[key] = arg_value.definition`, in order. */
  function DefinitionPairs(args: seq<Entry>): (r: Table<Definition>)
    ensures |r| == |args|
    ensures forall i :: 0 <= i < |args| ==> r[i] == Pair(RenameKey(args[i].key), args[i].definition)
  {
    if args == [] then []
    else [Pair(RenameKey(args[0].key), args[0].definition)] + DefinitionPairs(args[1..])
  }

  /** `GraphQL::Query::Arguments.new(values, argument_definitions: types)`:
      every value is paired with the definition recorded under its key. */
  function NewArguments(values: Table<Value>, types: Table<Definition>): (r: seq<Entry>)
    requires KeySet(values) <= KeySet(types)
    ensures |r| == |values|
    ensures forall i :: 0 <= i < |r| ==> r[i].key == values[i].key && r[i].value == values[i].value
    ensures forall i :: 0 <= i < |r| ==> Lookup(types, r[i].key) == Some(r[i].definition)
    ensures AsTable(r) == values
    ensures ArgKeys(r) == KeySet(values)
  {
    if values == [] then []
    else [Entry(values[0].key, values[0].value, Lookup(types, values[0].key).value)] + NewArguments(values[1..], types)
  }

  /** What `transform_arguments` returns: the container rebuilt from the two
      tables its loop fills. */
  function TransformArgs(args: seq<Entry>): (r: seq<Entry>)
    decreases args, 1
  {
    var valuePairs := ValuePairs(args);
    var definitionPairs := DefinitionPairs(args);
    SameKeySeq(valuePairs, definitionPairs);
    NewArguments(FromPairs(valuePairs), FromPairs(definitionPairs))
  }

  /** `transform_arguments`: one pass over the entries, filling the value
      table and the definition table side by side. */
  method TransformArguments(fieldArgs: seq<Entry>) returns (r: seq<Entry>)
    ensures r == TransformArgs(fieldArgs)
  {
    var transformedArgs: Table<Value> := [];
    var types: Table<Definition> := [];
    for i := 0 to |fieldArgs|
      invariant transformedArgs == FromPairs(ValuePairs(fieldArgs[..i]))
      invariant types == FromPairs(DefinitionPairs(fieldArgs[..i]))
      invariant KeySet(transformedArgs) == KeySet(types)
    {
      var argValue := fieldArgs[i];
      var key := argValue.key;
      if key != ClientMutationId {
        key := Underscore(key);
      }
      TakeSnoc(fieldArgs, i);
      PairsSnoc(fieldArgs[..i], argValue);
      FromPairsSnoc(ValuePairs(fieldArgs[..i]), Pair(key, TransformValue(argValue.value)));
      FromPairsSnoc(DefinitionPairs(fieldArgs[..i]), Pair(key, argValue.definition));
      transformedArgs := Insert(transformedArgs, key, TransformValue(argValue.value));
      types := Insert(types, key, argValue.definition);
    }
    assert fieldArgs[..|fieldArgs|] == fieldArgs;
    r := NewArguments(transformedArgs, types);
  }

  /** The prefix one longer is the prefix and one more element. */
  lemma TakeSnoc<T>(s: seq<T>, i: nat)
    requires i < |s|
    ensures s[..i + 1] == s[..i] + [s[i]]
  {
  }

  /** One more entry adds one more assignment to each table. */
  lemma PairsSnoc(args: seq<Entry>, e: Entry)
    ensures ValuePairs(args + [e]) == ValuePairs(args) + [Pair(RenameKey(e.key), TransformValue(e.value))]
    ensures DefinitionPairs(args + [e]) == DefinitionPairs(args) + [Pair(RenameKey(e.key), e.definition)]
  {
  }

  /** The tuple handed to the next middleware. */
  datatype Resolution<P, O, F, C> =
    Resolution(parentType: P, parentObject: O, fieldDefinition: F, arguments: seq<Entry>, queryContext: C)

  /** `call`: forward to the next middleware with only the arguments replaced.
      Whatever the next stage returns, an error included, is returned as it is. */
  method Call<P, O, F, C, R>(parentType: P, parentObject: O, fieldDefinition: F, fieldArgs: seq<Entry>,
                             queryContext: C, nextMiddleware: Resolution<P, O, F, C> -> R)
    returns (r: R)
    ensures r == nextMiddleware(Resolution(parentType, parentObject, fieldDefinition,
                                           TransformArgs(fieldArgs), queryContext))
  {
    var transformed := TransformArguments(fieldArgs);
    r := nextMiddleware(Resolution(parentType, parentObject, fieldDefinition, transformed, queryContext));
  }
}
