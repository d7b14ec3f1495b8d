/** What the middleware guarantees about the containers it rebuilds. */
module MiddlewareProperties {
  import opened AssocList
  import opened Inflector
  import opened CamelCaseMiddleware

  /** The key rule: only the exempted key can come out as `clientMutationId`,
      every other result is in snake case, a key already in snake case is
      kept, and renaming a renamed key changes nothing. */
  lemma RenameKeyRule(k: string)
    ensures RenameKey(k) == ClientMutationId <==> k == ClientMutationId
    ensures RenameKey(k) == ClientMutationId || NoUpper(RenameKey(k))
    ensures NoUpper(k) ==> RenameKey(k) == k
    ensures RenameKey(RenameKey(k)) == RenameKey(k)
  {
    UnderscoreFacts(k);
    assert IsUpper(ClientMutationId[6]);
    if k != ClientMutationId {
      UnderscoreFacts(Underscore(k));
    }
  }

  /** The output keys are exactly the renamed input keys. */
  lemma OutputKeys(args: seq<Entry>, k: string)
    ensures k in ArgKeys(TransformArgs(args)) <==> exists j :: 0 <= j < |args| && RenameKey(args[j].key) == k
  {
    var valuePairs := ValuePairs(args);
    KeySetMembers(valuePairs, k);
    if exists j :: 0 <= j < |args| && RenameKey(args[j].key) == k {
      var j :| 0 <= j < |args| && RenameKey(args[j].key) == k;
      assert valuePairs[j].key == k;
    }
  }

  /** No key occurs twice in the output, whatever the input. */
  lemma OutputKeysDistinct(args: seq<Entry>)
    ensures DistinctKeys(TransformArgs(args))
  {
    var values := FromPairs(ValuePairs(args));
    var out := TransformArgs(args);
    forall i, j | 0 <= i < j < |out| ensures out[i].key != out[j].key {
      assert out[i].key == values[i].key && out[j].key == values[j].key;
    }
  }

  /** The value table and the definition table hold the same keys, after any
      number of iterations of the loop (every prefix of the input is an input). */
  lemma TablesSameKeys(args: seq<Entry>)
    ensures KeySet(FromPairs(ValuePairs(args))) == KeySet(FromPairs(DefinitionPairs(args)))
  {
    SameKeySeq(ValuePairs(args), DefinitionPairs(args));
  }

  /** Collisions only ever shrink the container. */
  lemma OutputSize(args: seq<Entry>)
    ensures |TransformArgs(args)| <= |args|
  {
  }

  /** The two tables after the loop: the last entry whose key renames to `k`
      decides both what is stored under `k` and the definition recorded for it. */
  lemma TablesLastWins(args: seq<Entry>, j: nat)
    requires j < |args|
    requires forall j' :: j < j' < |args| ==> RenameKey(args[j'].key) != RenameKey(args[j].key)
    ensures Lookup(FromPairs(ValuePairs(args)), RenameKey(args[j].key)) == Some(TransformValue(args[j].value))
    ensures Lookup(FromPairs(DefinitionPairs(args)), RenameKey(args[j].key)) == Some(args[j].definition)
  {
    FromPairsLastWins(ValuePairs(args), j);
    FromPairsLastWins(DefinitionPairs(args), j);
  }

  /** An output entry is made of what the two tables hold under its key. */
  lemma EntryOfKey(args: seq<Entry>, k: string, v: Value, d: Definition)
    requires Lookup(FromPairs(ValuePairs(args)), k) == Some(v)
    requires Lookup(FromPairs(DefinitionPairs(args)), k) == Some(d)
    ensures Entry(k, v, d) in TransformArgs(args)
  {
    var values := FromPairs(ValuePairs(args));
    var types := FromPairs(DefinitionPairs(args));
    LookupFound(values, k);
    var i :| 0 <= i < |values| && values[i] == Pair(k, v);
    TablesSameKeys(args);
    var out := NewArguments(values, types);
    assert out == TransformArgs(args);
    assert out[i] == Entry(k, v, d);
  }

  /** Definitions travel with their values: the last entry whose key renames
      to `k` supplies both the value and the definition of the output entry
      stored under `k`. */
  lemma DefinitionsTravel(args: seq<Entry>, j: nat)
    requires j < |args|
    requires forall j' :: j < j' < |args| ==> RenameKey(args[j'].key) != RenameKey(args[j].key)
    ensures Entry(RenameKey(args[j].key), TransformValue(args[j].value), args[j].definition) in TransformArgs(args)
  {
    TablesLastWins(args, j);
    EntryOfKey(args, RenameKey(args[j].key), TransformValue(args[j].value), args[j].definition);
  }

  /** An output entry is the only one with its key. */
  lemma OneEntryPerKey(args: seq<Entry>, e: Entry)
    requires e in TransformArgs(args)
    ensures forall o :: o in TransformArgs(args) && o.key == e.key ==> o == e
  {
    var out := TransformArgs(args);
    OutputKeysDistinct(args);
    forall o | o in out && o.key == e.key ensures o == e {
      SameKeySameEntry(out, o, e);
    }
  }

  /** The last position from `j` on whose key renames to `k`. */
  lemma LastRenamed(args: seq<Entry>, k: string, j: nat) returns (l: nat)
    requires j < |args| && RenameKey(args[j].key) == k
    ensures j <= l < |args| && RenameKey(args[l].key) == k
    ensures forall j' :: l < j' < |args| ==> RenameKey(args[j'].key) != k
    decreases |args| - j
  {
    if exists j' :: j < j' < |args| && RenameKey(args[j'].key) == k {
      var j' :| j < j' < |args| && RenameKey(args[j'].key) == k;
      l := LastRenamed(args, k, j');
    } else {
      l := j;
    }
  }

  /** Every output entry is the last input entry with its renamed key: that
      key, renamed, with its value transformed and its own definition. */
  lemma OutputEntryIsLast(args: seq<Entry>, e: Entry)
    requires e in TransformArgs(args)
    ensures exists j: nat :: LastOfItsKey(args, j) &&
              e == Entry(RenameKey(args[j].key), TransformValue(args[j].value), args[j].definition)
  {
    OutputEntryKey(args, e);
    var j :| 0 <= j < |args| && RenameKey(args[j].key) == e.key;
    var l := LastRenamed(args, e.key, j);
    var t := Entry(RenameKey(args[l].key), TransformValue(args[l].value), args[l].definition);
    DefinitionsTravel(args, l);
    OutputKeysDistinct(args);
    SameKeySameEntry(TransformArgs(args), e, t);
    assert LastOfItsKey(args, l);
  }

  /** Entry `j` is the last entry whose key renames to its renamed key. */
  ghost predicate LastOfItsKey(args: seq<Entry>, j: nat)
  {
    j < |args| && forall j' :: j < j' < |args| ==> RenameKey(args[j'].key) != RenameKey(args[j].key)
  }

  /** In a container without repeated keys, two entries with one key are one entry. */
  lemma SameKeySameEntry(out: seq<Entry>, e: Entry, t: Entry)
    requires DistinctKeys(out) && e in out && t in out && e.key == t.key
    ensures e == t
  {
    var i :| 0 <= i < |out| && out[i] == e;
    var m :| 0 <= m < |out| && out[m] == t;
    var view := AsTable(out);
    assert view[m].key == t.key && view[i].key == e.key;
  }

  /** The key of an output entry is the renamed key of some input entry. */
  lemma OutputEntryKey(args: seq<Entry>, e: Entry)
    requires e in TransformArgs(args)
    ensures exists j :: 0 <= j < |args| && RenameKey(args[j].key) == e.key
  {
    EntryKeyIn(TransformArgs(args), e);
    OutputKeys(args, e.key);
  }

  /** The key of an entry of a container is one of its keys. */
  lemma EntryKeyIn(out: seq<Entry>, e: Entry)
    requires e in out
    ensures e.key in ArgKeys(out)
  {
    var i :| 0 <= i < |out| && out[i] == e;
    assert AsTable(out)[i].key == e.key;
    KeySetMembers(AsTable(out), e.key);
  }

  /** Without collisions nothing is lost or reordered: entry `i` of the output
      is entry `i` of the input with its key renamed and its value transformed. */
  lemma NoCollisions(args: seq<Entry>)
    requires forall i, j :: 0 <= i < j < |args| ==> RenameKey(args[i].key) != RenameKey(args[j].key)
    ensures |TransformArgs(args)| == |args|
    ensures forall i :: 0 <= i < |args| ==>
              TransformArgs(args)[i] == Entry(RenameKey(args[i].key), TransformValue(args[i].value), args[i].definition)
  {
    var valuePairs := ValuePairs(args);
    var definitionPairs := DefinitionPairs(args);
    FromPairsDistinct(valuePairs);
    FromPairsDistinct(definitionPairs);
    var out := TransformArgs(args);
    SameKeySeq(valuePairs, definitionPairs);
    assert out == NewArguments(valuePairs, definitionPairs);
    forall i | 0 <= i < |args|
      ensures out[i] == Entry(RenameKey(args[i].key), TransformValue(args[i].value), args[i].definition)
    {
      LookupAt(definitionPairs, i);
    }
  }

  /** The exemption: `clientMutationId` is in the output exactly when it is in
      the input, and every other output key is in snake case. */
  lemma ClientMutationIdKept(args: seq<Entry>)
    ensures ClientMutationId in ArgKeys(TransformArgs(args)) <==>
            exists j :: 0 <= j < |args| && args[j].key == ClientMutationId
    ensures forall i :: 0 <= i < |TransformArgs(args)| ==>
              TransformArgs(args)[i].key == ClientMutationId || NoUpper(TransformArgs(args)[i].key)
  {
    var out := TransformArgs(args);
    OutputKeys(args, ClientMutationId);
    forall j | 0 <= j < |args| ensures RenameKey(args[j].key) == ClientMutationId <==> args[j].key == ClientMutationId {
      RenameKeyRule(args[j].key);
    }
    forall i | 0 <= i < |out| ensures out[i].key == ClientMutationId || NoUpper(out[i].key) {
      KeySetMembers(AsTable(out), out[i].key);
      OutputKeys(args, out[i].key);
      var j :| 0 <= j < |args| && RenameKey(args[j].key) == out[i].key;
      RenameKeyRule(args[j].key);
    }
  }

  /** A plain hash: its keys are exactly the underscored input keys. */
  lemma HashKeys(pairs: Table<Value>, k: string)
    ensures k in KeySet(TransformValue(Hash(pairs)).pairs) <==>
            exists j :: 0 <= j < |pairs| && Underscore(pairs[j].key) == k
  {
    var hashPairs := HashPairs(pairs);
    KeySetMembers(hashPairs, k);
    if exists j :: 0 <= j < |pairs| && Underscore(pairs[j].key) == k {
      var j :| 0 <= j < |pairs| && Underscore(pairs[j].key) == k;
      assert hashPairs[j].key == k;
    }
  }

  /** A plain hash gets no exemption: no key of the result has an upper-case
      letter, so in particular none is `clientMutationId`. */
  lemma HashNoExemption(pairs: Table<Value>)
    ensures forall i :: 0 <= i < |TransformValue(Hash(pairs)).pairs| ==>
              NoUpper(TransformValue(Hash(pairs)).pairs[i].key)
    ensures ClientMutationId !in KeySet(TransformValue(Hash(pairs)).pairs)
  {
    var hashPairs := HashPairs(pairs);
    var out := FromPairs(hashPairs);
    FromPairsFrom(hashPairs);
    forall i | 0 <= i < |out| ensures NoUpper(out[i].key) {
      assert out[i] in hashPairs;
      var j :| 0 <= j < |hashPairs| && hashPairs[j] == out[i];
      UnderscoreFacts(pairs[j].key);
    }
    KeySetMembers(out, ClientMutationId);
    assert IsUpper(ClientMutationId[6]);
  }

  /** In a plain hash too, the last pair whose key underscores to `k` decides its value. */
  lemma HashLastWins(pairs: Table<Value>, j: nat)
    requires j < |pairs|
    requires forall j' :: j < j' < |pairs| ==> Underscore(pairs[j'].key) != Underscore(pairs[j].key)
    ensures Lookup(TransformValue(Hash(pairs)).pairs, Underscore(pairs[j].key)) == Some(TransformValue(pairs[j].value))
  {
    FromPairsLastWins(HashPairs(pairs), j);
  }

  /** The form the middleware produces, at every depth: argument containers
      with distinct, already renamed keys; plain hashes with distinct,
      already underscored keys; and canonical values inside both and inside lists. */
  ghost predicate Canonical(v: Value)
    decreases v
  {
    match v
    case Scalar(_) => true
    case List(items) => forall i :: 0 <= i < |items| ==> Canonical(items[i])
    case Hash(pairs) =>
      UniqueKeys(pairs) &&
      forall i :: 0 <= i < |pairs| ==> Underscore(pairs[i].key) == pairs[i].key && Canonical(pairs[i].value)
    case Args(entries) =>
      DistinctKeys(entries) &&
      forall i :: 0 <= i < |entries| ==> RenameKey(entries[i].key) == entries[i].key && Canonical(entries[i].value)
  }

  /** Whatever goes in, what comes out is canonical. */
  lemma {:induction false} TransformCanonical(v: Value)
    ensures Canonical(TransformValue(v))
    decreases v, 1
  {
    match v
    case Scalar(_) =>
    case List(items) =>
      var r := TransformList(items);
      forall i | 0 <= i < |r| ensures Canonical(r[i]) {
        TransformCanonical(items[i]);
      }
    case Hash(pairs) => HashCanonical(pairs);
    case Args(args) => ArgsCanonical(args);
  }

  /** A rebuilt hash is canonical. */
  lemma {:induction false} HashCanonical(pairs: Table<Value>)
    ensures Canonical(Hash(FromPairs(HashPairs(pairs))))
    decreases pairs, 0
  {
    var hashPairs := HashPairs(pairs);
    var out := FromPairs(hashPairs);
    FromPairsFrom(hashPairs);
    forall i | 0 <= i < |out|
      ensures Underscore(out[i].key) == out[i].key && Canonical(out[i].value)
    {
      assert out[i] in hashPairs;
      var j :| 0 <= j < |hashPairs| && hashPairs[j] == out[i];
      UnderscoreIdempotent(pairs[j].key);
      TransformCanonical(pairs[j].value);
    }
  }

  /** A rebuilt container is canonical. */
  lemma {:induction false} ArgsCanonical(args: seq<Entry>)
    ensures Canonical(Args(TransformArgs(args)))
    decreases args, 0
  {
    var valuePairs := ValuePairs(args);
    var values := FromPairs(valuePairs);
    var out := TransformArgs(args);
    FromPairsFrom(valuePairs);
    forall i | 0 <= i < |out|
      ensures RenameKey(out[i].key) == out[i].key && Canonical(out[i].value)
    {
      assert values[i] in valuePairs;
      var j :| 0 <= j < |valuePairs| && valuePairs[j] == values[i];
      RenameKeyRule(args[j].key);
      TransformCanonical(args[j].value);
    }
    OutputKeysDistinct(args);
  }

  /** A canonical value is left exactly as it is. */
  lemma {:induction false} CanonicalFixed(v: Value)
    requires Canonical(v)
    ensures TransformValue(v) == v
    decreases v, 1
  {
    match v
    case Scalar(_) =>
    case List(items) =>
      var r := TransformList(items);
      forall i | 0 <= i < |items| ensures r[i] == items[i] {
        CanonicalFixed(items[i]);
      }
    case Hash(pairs) =>
      var hashPairs := HashPairs(pairs);
      forall i | 0 <= i < |pairs| ensures hashPairs[i] == pairs[i] {
        CanonicalFixed(pairs[i].value);
      }
      assert hashPairs == pairs;
      FromPairsDistinct(pairs);
    case Args(entries) =>
      FixedArgs(entries);
  }

  /** A canonical container (distinct, already renamed keys and canonical
      values) is left exactly as it is. */
  lemma {:induction false} FixedArgs(args: seq<Entry>)
    requires Canonical(Args(args))
    ensures TransformArgs(args) == args
    decreases args, 0
  {
    forall i, j | 0 <= i < j < |args| ensures RenameKey(args[i].key) != RenameKey(args[j].key) {
      assert RenameKey(args[i].key) == args[i].key && RenameKey(args[j].key) == args[j].key;
    }
    NoCollisions(args);
    var out := TransformArgs(args);
    forall i | 0 <= i < |args| ensures out[i] == args[i] {
      CanonicalFixed(args[i].value);
    }
  }

  /** A flat container already in snake case: every key without an upper-case
      letter, every value a scalar. */
  ghost predicate FlatSnake(args: seq<Entry>)
  {
    args == [] || (NoUpper(args[0].key) && args[0].value.Scalar? && FlatSnake(args[1..]))
  }

  /** Such a container, with distinct keys, is canonical. */
  lemma {:induction false} FlatSnakeCanonical(args: seq<Entry>)
    requires DistinctKeys(args) && FlatSnake(args)
    ensures Canonical(Args(args))
  {
    if args != [] {
      FlatSnakeCanonical(args[1..]);
      RenameKeyRule(args[0].key);
      forall i | 0 <= i < |args| ensures RenameKey(args[i].key) == args[i].key && Canonical(args[i].value) {
        if i > 0 { assert args[i] == args[1..][i - 1]; }
      }
    }
  }

  /** A flat container already in snake case comes out unchanged. */
  lemma SnakeCaseArgsUnchanged(args: seq<Entry>)
    requires DistinctKeys(args) && FlatSnake(args)
    ensures TransformArgs(args) == args
  {
    FlatSnakeCanonical(args);
    FixedArgs(args);
  }

  /** Transforming a transformed value changes nothing, at every depth. */
  lemma TransformIdempotent(v: Value)
    ensures TransformValue(TransformValue(v)) == TransformValue(v)
  {
    TransformCanonical(v);
    CanonicalFixed(TransformValue(v));
  }
}
