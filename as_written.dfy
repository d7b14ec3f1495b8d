/** `transform_value` exactly as the source writes it. Its `Hash` branch calls
    `underscore_key` and `convert_hash_keys`, which the class does not define,
    so that branch raises `NoMethodError` as soon as the block runs, that is
    for every hash with at least one pair; an empty hash maps to an empty hash.
    The error propagates out of `transform_arguments` before
    `next_middleware.call` is reached, which `CallAsWritten` models. */
module AsWritten {
  import opened AssocList
  import opened CamelCaseMiddleware
  import MiddlewareCases

  /** A result, or the name of the undefined method that was called. */
  datatype Outcome<T> = Done(value: T) | NoMethodError(name: string)

  /** Some hash, at any depth, has a pair in it. */
  predicate HasNonEmptyHash(v: Value)
    decreases v
  {
    match v
    case Scalar(_) => false
    case List(items) => exists i :: 0 <= i < |items| && HasNonEmptyHash(items[i])
    case Hash(pairs) => pairs != []
    case Args(entries) => exists i :: 0 <= i < |entries| && HasNonEmptyHash(entries[i].value)
  }

  function TransformValueAsWritten(v: Value): (r: Outcome<Value>)
    ensures r.NoMethodError? ==> r.name == "underscore_key"
    decreases v, 2
  {
    match v
    case Scalar(_) => Done(v)
    case List(items) =>
      (match ListAsWritten(items)
       case Done(w) => Done(List(w))
       case NoMethodError(name) => NoMethodError(name))
    case Hash(pairs) =>
      if pairs == [] then Done(Hash([])) else NoMethodError("underscore_key")
    case Args(entries) =>
      (match ArgsAsWritten(entries)
       case Done(w) => Done(Args(w))
       case NoMethodError(name) => NoMethodError(name))
  }

  /** `value.map { |v| transform_value(v) }`: the first error ends the map. */
  function ListAsWritten(items: seq<Value>): (r: Outcome<seq<Value>>)
    ensures r.NoMethodError? ==> r.name == "underscore_key"
    ensures r.Done? ==> |r.value| == |items|
    decreases items, 1
  {
    if items == [] then Done([])
    else
      var head := TransformValueAsWritten(items[0]);
      var tail := ListAsWritten(items[1..]);
      if head.NoMethodError? then NoMethodError(head.name)
      else if tail.NoMethodError? then NoMethodError(tail.name)
      else Done([head.value] + tail.value)
  }

  /** The assignments of the loop in `transform_arguments`, up to the first error. */
  function ValuePairsAsWritten(args: seq<Entry>): (r: Outcome<Table<Value>>)
    ensures r.NoMethodError? ==> r.name == "underscore_key"
    ensures r.Done? ==> |r.value| == |args|
    ensures r.Done? ==> forall i :: 0 <= i < |args| ==> r.value[i].key == RenameKey(args[i].key)
    decreases args, 1
  {
    if args == [] then Done([])
    else
      var head := TransformValueAsWritten(args[0].value);
      var tail := ValuePairsAsWritten(args[1..]);
      if head.NoMethodError? then NoMethodError(head.name)
      else if tail.NoMethodError? then NoMethodError(tail.name)
      else Done([Pair(RenameKey(args[0].key), head.value)] + tail.value)
  }

  /** `transform_arguments` as written. */
  function ArgsAsWritten(args: seq<Entry>): (r: Outcome<seq<Entry>>)
    ensures r.NoMethodError? ==> r.name == "underscore_key"
    decreases args, 2
  {
    match ValuePairsAsWritten(args)
    case NoMethodError(name) => NoMethodError(name)
    case Done(valuePairs) =>
      var definitionPairs := DefinitionPairs(args);
      SameKeySeq(valuePairs, definitionPairs);
      Done(NewArguments(FromPairs(valuePairs), FromPairs(definitionPairs)))
  }

  /** `call` as written: the arguments are transformed first, so an error
      there is raised before the next middleware is called. */
  function CallAsWritten<P, O, F, C, R>(parentType: P, parentObject: O, fieldDefinition: F, fieldArgs: seq<Entry>,
                                        queryContext: C, nextMiddleware: Resolution<P, O, F, C> -> R): (r: Outcome<R>)
    ensures r.NoMethodError? ==> r.name == "underscore_key"
  {
    match ArgsAsWritten(fieldArgs)
    case NoMethodError(name) => NoMethodError(name)
    case Done(args) => Done(nextMiddleware(Resolution(parentType, parentObject, fieldDefinition, args, queryContext)))
  }

  /** Where the source does not raise, it computes what the corrected model computes. */
  lemma {:induction false} AgreesWhenDone(v: Value)
    ensures TransformValueAsWritten(v).Done? ==> TransformValueAsWritten(v).value == TransformValue(v)
    decreases v, 2
  {
    match v
    case Scalar(_) =>
    case List(items) => ListAgrees(items);
    case Hash(pairs) =>
    case Args(entries) => ArgsAgree(entries);
  }

  lemma {:induction false} ListAgrees(items: seq<Value>)
    ensures ListAsWritten(items).Done? ==> ListAsWritten(items).value == TransformList(items)
    decreases items, 1
  {
    if items != [] {
      AgreesWhenDone(items[0]);
      ListAgrees(items[1..]);
    }
  }

  lemma {:induction false} ValuePairsAgree(args: seq<Entry>)
    ensures ValuePairsAsWritten(args).Done? ==> ValuePairsAsWritten(args).value == ValuePairs(args)
    decreases args, 1
  {
    if args != [] {
      AgreesWhenDone(args[0].value);
      ValuePairsAgree(args[1..]);
    }
  }

  lemma ArgsAgree(args: seq<Entry>)
    ensures ArgsAsWritten(args).Done? ==> ArgsAsWritten(args).value == TransformArgs(args)
    decreases args, 2
  {
    ValuePairsAgree(args);
  }

  /** The source raises exactly when some hash, at any depth, is non-empty. */
  lemma {:induction false} RaisesIffNonEmptyHash(v: Value)
    ensures TransformValueAsWritten(v).NoMethodError? <==> HasNonEmptyHash(v)
    decreases v, 2
  {
    match v
    case Scalar(_) =>
    case List(items) => ListRaises(items);
    case Hash(pairs) =>
    case Args(entries) => ValuePairsRaise(entries);
  }

  lemma {:induction false} ListRaises(items: seq<Value>)
    ensures ListAsWritten(items).NoMethodError? <==> exists i :: 0 <= i < |items| && HasNonEmptyHash(items[i])
    decreases items, 1
  {
    if items != [] {
      RaisesIffNonEmptyHash(items[0]);
      ListRaises(items[1..]);
      if exists i :: 0 <= i < |items| && HasNonEmptyHash(items[i]) {
        var i :| 0 <= i < |items| && HasNonEmptyHash(items[i]);
        if i > 0 { assert items[1..][i - 1] == items[i]; }
      }
      if exists i :: 0 <= i < |items[1..]| && HasNonEmptyHash(items[1..][i]) {
        var i :| 0 <= i < |items[1..]| && HasNonEmptyHash(items[1..][i]);
        assert items[i + 1] == items[1..][i];
      }
    }
  }

  lemma {:induction false} ValuePairsRaise(args: seq<Entry>)
    ensures ValuePairsAsWritten(args).NoMethodError? <==>
            exists i :: 0 <= i < |args| && HasNonEmptyHash(args[i].value)
    decreases args, 1
  {
    if args != [] {
      RaisesIffNonEmptyHash(args[0].value);
      ValuePairsRaise(args[1..]);
      if exists i :: 0 <= i < |args| && HasNonEmptyHash(args[i].value) {
        var i :| 0 <= i < |args| && HasNonEmptyHash(args[i].value);
        if i > 0 { assert args[1..][i - 1] == args[i]; }
      }
      if exists i :: 0 <= i < |args[1..]| && HasNonEmptyHash(args[1..][i].value) {
        var i :| 0 <= i < |args[1..]| && HasNonEmptyHash(args[1..][i].value);
        assert args[i + 1] == args[1..][i];
      }
    }
  }

  /** `call` as written raises exactly when some hash inside the arguments is
      non-empty; otherwise it forwards what the corrected `Call` forwards. */
  lemma CallAsWrittenOutcome<P, O, F, C, R>(parentType: P, parentObject: O, fieldDefinition: F, fieldArgs: seq<Entry>,
                                            queryContext: C, nextMiddleware: Resolution<P, O, F, C> -> R)
    ensures CallAsWritten(parentType, parentObject, fieldDefinition, fieldArgs, queryContext, nextMiddleware).NoMethodError?
            <==> exists i :: 0 <= i < |fieldArgs| && HasNonEmptyHash(fieldArgs[i].value)
    ensures CallAsWritten(parentType, parentObject, fieldDefinition, fieldArgs, queryContext, nextMiddleware).Done? ==>
            CallAsWritten(parentType, parentObject, fieldDefinition, fieldArgs, queryContext, nextMiddleware).value
            == nextMiddleware(Resolution(parentType, parentObject, fieldDefinition, TransformArgs(fieldArgs), queryContext))
  {
    ValuePairsRaise(fieldArgs);
    ArgsAgree(fieldArgs);
  }

  /** `{"userId" => 5}` makes the source raise, where the evident intent is
      `{"user_id" => 5}`. */
  lemma HashCounterexample()
    ensures TransformValueAsWritten(Hash([Pair("userId", Scalar(Int(5)))])) == NoMethodError("underscore_key")
    ensures TransformValue(Hash([Pair("userId", Scalar(Int(5)))])) == Hash([Pair("user_id", Scalar(Int(5)))])
  {
    MiddlewareCases.HashCase();
  }

  /** The same failure from inside an argument container: `transform_arguments`
      raises on `{userId: {"streetName" => "Main"}}` when the inner value is a plain hash. */
  lemma ArgumentCounterexample(d: Definition)
    ensures ArgsAsWritten([Entry("userId", Hash([Pair("streetName", Scalar(Str("Main")))]), d)])
         == NoMethodError("underscore_key")
  {
    var args := [Entry("userId", Hash([Pair("streetName", Scalar(Str("Main")))]), d)];
    assert TransformValueAsWritten(args[0].value) == NoMethodError("underscore_key");
    assert ValuePairsAsWritten(args) == NoMethodError("underscore_key");
  }

  /** An empty hash goes through. */
  lemma EmptyHashPasses()
    ensures TransformValueAsWritten(Hash([])) == Done(Hash([]))
  {
  }
}
