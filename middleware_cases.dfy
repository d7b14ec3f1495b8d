/** Concrete containers worked through the model. */
module MiddlewareCases {
  import opened AssocList
  import opened Inflector
  import opened CamelCaseMiddleware
  import opened MiddlewareProperties

  /** A container of one entry: the key renamed, the value transformed, the
      definition kept. */
  lemma Single(k: string, v: Value, d: Definition)
    ensures TransformArgs([Entry(k, v, d)]) == [Entry(RenameKey(k), TransformValue(v), d)]
  {
    NoCollisions([Entry(k, v, d)]);
  }

  /** `userId` is renamed to `user_id`. */
  lemma RenameUserId()
    ensures RenameKey("userId") == "user_id"
  {
    assert "userId" != ClientMutationId by { assert |"userId"| != |ClientMutationId|; }
    UserIdExample();
  }

  /** `streetName` is renamed to `street_name`. */
  lemma RenameStreetName()
    ensures RenameKey("streetName") == "street_name"
  {
    assert "streetName" != ClientMutationId by { assert |"streetName"| != |ClientMutationId|; }
    StreetNameExample();
  }

  /** A key without a capital keeps its name. */
  lemma RenameSnake(k: string)
    requires NoUpper(k)
    ensures RenameKey(k) == k
  {
    RenameKeyRule(k);
  }

  /** `{userId: 5}` reaches the resolver as `{user_id: 5}`, with the same definition. */
  lemma UserIdCase(d: Definition)
    ensures TransformArgs([Entry("userId", Scalar(Int(5)), d)]) == [Entry("user_id", Scalar(Int(5)), d)]
  {
    Single("userId", Scalar(Int(5)), d);
    RenameUserId();
  }

  /** `{clientMutationId: "abc"}` is passed through as it is. */
  lemma ClientMutationIdCase(d: Definition)
    ensures TransformArgs([Entry(ClientMutationId, Scalar(Str("abc")), d)])
         == [Entry(ClientMutationId, Scalar(Str("abc")), d)]
  {
    Single(ClientMutationId, Scalar(Str("abc")), d);
  }

  /** Nested input objects are renamed at every depth:
      `{userId: {streetName: "Main"}}` becomes `{user_id: {street_name: "Main"}}`. */
  lemma NestedCase(d1: Definition, d2: Definition)
    ensures TransformArgs([Entry("userId", Args([Entry("streetName", Scalar(Str("Main")), d2)]), d1)])
         == [Entry("user_id", Args([Entry("street_name", Scalar(Str("Main")), d2)]), d1)]
  {
    var inner := [Entry("streetName", Scalar(Str("Main")), d2)];
    Single("streetName", Scalar(Str("Main")), d2);
    RenameStreetName();
    assert TransformValue(Args(inner)) == Args([Entry("street_name", Scalar(Str("Main")), d2)]);
    Single("userId", Args(inner), d1);
    RenameUserId();
  }

  /** `userIds` is renamed to `user_ids`. */
  lemma RenameUserIds()
    ensures RenameKey("userIds") == "user_ids"
  {
    assert "userIds" != ClientMutationId by { assert |"userIds"| != |ClientMutationId|; }
    UserIdsExample();
  }

  /** A list value is transformed element by element, so a list of scalars is
      kept: `{userIds: [1, 2, 3]}` becomes `{user_ids: [1, 2, 3]}`. */
  lemma ListCase(d: Definition)
    ensures TransformArgs([Entry("userIds", List([Scalar(Int(1)), Scalar(Int(2)), Scalar(Int(3))]), d)])
         == [Entry("user_ids", List([Scalar(Int(1)), Scalar(Int(2)), Scalar(Int(3))]), d)]
  {
    var items := [Scalar(Int(1)), Scalar(Int(2)), Scalar(Int(3))];
    assert TransformList(items) == items;
    Single("userIds", List(items), d);
    RenameUserIds();
  }

  /** Two entries whose keys rename to the same key collide: the later entry
      supplies both the value and the definition, and one entry is left. */
  lemma Collision(k1: string, k2: string, a: Value, b: Value, d1: Definition, d2: Definition)
    requires RenameKey(k1) == RenameKey(k2)
    ensures TransformArgs([Entry(k1, a, d1), Entry(k2, b, d2)]) == [Entry(RenameKey(k2), TransformValue(b), d2)]
  {
    var args := [Entry(k1, a, d1), Entry(k2, b, d2)];
    var k := RenameKey(k2);
    var valuePairs := ValuePairs(args);
    var definitionPairs := DefinitionPairs(args);
    assert valuePairs == [Pair(k, TransformValue(a)), Pair(k, TransformValue(b))];
    assert definitionPairs == [Pair(k, d1), Pair(k, d2)];
    FromPairsOverwrite(valuePairs[0], valuePairs[1]);
    FromPairsOverwrite(definitionPairs[0], definitionPairs[1]);
    assert TransformArgs(args) == NewArguments([Pair(k, TransformValue(b))], [Pair(k, d2)]);
  }

  /** `{userId: a, user_id: b}` reaches the resolver as `{user_id: b}`, with the
      definition of `user_id`. */
  lemma CollisionCase(a: Value, b: Value, d1: Definition, d2: Definition)
    ensures TransformArgs([Entry("userId", a, d1), Entry("user_id", b, d2)])
         == [Entry("user_id", TransformValue(b), d2)]
  {
    RenameUserId();
    RenameSnake("user_id");
    Collision("userId", "user_id", a, b, d1, d2);
  }

  /** The assignments the loop makes for a container of three entries. */
  lemma ThreeEntryPairs(e1: Entry, e2: Entry, e3: Entry)
    ensures ValuePairs([e1, e2, e3]) == [Pair(RenameKey(e1.key), TransformValue(e1.value)),
                                         Pair(RenameKey(e2.key), TransformValue(e2.value)),
                                         Pair(RenameKey(e3.key), TransformValue(e3.value))]
    ensures DefinitionPairs([e1, e2, e3]) == [Pair(RenameKey(e1.key), e1.definition),
                                              Pair(RenameKey(e2.key), e2.definition),
                                              Pair(RenameKey(e3.key), e3.definition)]
  {
  }

  /** Rebuilding a container from two tables of two distinct keys. */
  lemma TwoEntryArguments(p: Pair<Value>, q: Pair<Value>, dp: Definition, dq: Definition)
    requires p.key != q.key
    ensures KeySet([p, q]) == KeySet([Pair(p.key, dp), Pair(q.key, dq)])
    ensures NewArguments([p, q], [Pair(p.key, dp), Pair(q.key, dq)])
         == [Entry(p.key, p.value, dp), Entry(q.key, q.value, dq)]
  {
    SameKeySeq([p, q], [Pair(p.key, dp), Pair(q.key, dq)]);
    assert Lookup([Pair(p.key, dp), Pair(q.key, dq)], q.key) == Lookup([Pair(q.key, dq)], q.key);
  }

  /** A collision keeps the surviving key where its first occurrence stood:
      with an entry of another key in between, the later value and definition
      land in the first position and the entry in between stays second. */
  lemma CollisionKeepsPlace(k1: string, k2: string, k3: string, a: Value, b: Value, c: Value,
                            d1: Definition, d2: Definition, d3: Definition)
    requires RenameKey(k1) == RenameKey(k3) && RenameKey(k2) != RenameKey(k1)
    ensures TransformArgs([Entry(k1, a, d1), Entry(k2, b, d2), Entry(k3, c, d3)])
         == [Entry(RenameKey(k1), TransformValue(c), d3), Entry(RenameKey(k2), TransformValue(b), d2)]
  {
    var k, m := RenameKey(k1), RenameKey(k2);
    var va, vb, vc := Pair(k, TransformValue(a)), Pair(m, TransformValue(b)), Pair(k, TransformValue(c));
    ThreeEntryPairs(Entry(k1, a, d1), Entry(k2, b, d2), Entry(k3, c, d3));
    FromPairsKeepsPlace(va, vb, vc);
    FromPairsKeepsPlace(Pair(k, d1), Pair(m, d2), Pair(k, d3));
    TwoEntryArguments(vc, vb, d3, d2);
  }

  /** `{userId: a, foo: b, user_id: c}` reaches the resolver as
      `{user_id: c, foo: b}`: `user_id` keeps the first place. */
  lemma CollisionOrderCase(a: Value, b: Value, c: Value, d1: Definition, d2: Definition, d3: Definition)
    ensures TransformArgs([Entry("userId", a, d1), Entry("foo", b, d2), Entry("user_id", c, d3)])
         == [Entry("user_id", TransformValue(c), d3), Entry("foo", TransformValue(b), d2)]
  {
    RenameUserId();
    RenameSnake("user_id");
    RenameSnake("foo");
    CollisionKeepsPlace("userId", "foo", "user_id", a, b, c, d1, d2, d3);
  }

  /** A plain hash has its keys underscored too: `{"userId" => 5}` becomes `{"user_id" => 5}`. */
  lemma HashCase()
    ensures TransformValue(Hash([Pair("userId", Scalar(Int(5)))])) == Hash([Pair("user_id", Scalar(Int(5)))])
  {
    UserIdExample();
    assert HashPairs([Pair("userId", Scalar(Int(5)))]) == [Pair("user_id", Scalar(Int(5)))];
  }

  /** Inside a plain hash `clientMutationId` has no exemption:
      `{"clientMutationId" => v}` becomes `{"client_mutation_id" => v'}`. */
  lemma HashClientMutationIdCase(v: Value)
    ensures TransformValue(Hash([Pair(ClientMutationId, v)])) == Hash([Pair("client_mutation_id", TransformValue(v))])
  {
    ClientMutationIdExample();
    assert HashPairs([Pair(ClientMutationId, v)]) == [Pair("client_mutation_id", TransformValue(v))];
  }
}
