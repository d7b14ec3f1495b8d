/** The camelCase to snake_case key rule, `String#underscore`.

    Only the per-character core of the rule is modelled: an underscore goes
    in front of every upper-case letter whose left neighbour (in the original
    string) is a lower-case letter or a digit, and then every letter is
    lower-cased. Acronym splitting, `::` and `-` are not part of this rule.
 */
module Inflector {

  predicate IsUpper(c: char) { 'A' <= c <= 'Z' }
  predicate IsLower(c: char) { 'a' <= c <= 'z' }
  predicate IsDigit(c: char) { '0' <= c <= '9' }

  /** A string already in snake case: it has no upper-case letter. */
  predicate NoUpper(s: string)
  {
    forall i :: 0 <= i < |s| ==> !IsUpper(s[i])
  }

  function ToLower(c: char): (r: char)
    ensures !IsUpper(r)
    ensures IsUpper(c) ==> IsLower(r)
    ensures !IsUpper(c) ==> r == c
  {
    if IsUpper(c) then (c as int + 32) as char else c
  }

  /** A word boundary: `c` is upper case and follows a lower-case letter or a digit. */
  predicate Boundary(prev: char, c: char)
  {
    IsUpper(c) && (IsLower(prev) || IsDigit(prev))
  }

  /** `s.underscore` under the per-character rule. */
  function Underscore(s: string): (r: string)
    ensures NoUpper(r)
    ensures |s| <= |r|
  {
    if s == [] then []
    else
      AfterFacts(s[0], s[1..]);
      AfterLength(s[0], s[1..]);
      var r := [ToLower(s[0])] + UnderscoreAfter(s[0], s[1..]);
      assert NoUpper(r) by {
        forall i | 0 <= i < |r| ensures !IsUpper(r[i]) {
          if i >= 1 { assert r[i] == UnderscoreAfter(s[0], s[1..])[i - 1]; }
        }
      }
      r
  }

  /** The rule applied to the rest of a string whose previous character is `prev`. */
  function UnderscoreAfter(prev: char, s: string): (r: string)
    decreases s
  {
    if s == [] then []
    else (if Boundary(prev, s[0]) then "_" else "") + [ToLower(s[0])] + UnderscoreAfter(s[0], s[1..])
  }

  /** The rule leaves no upper-case letter behind, and changes nothing in a
      string that has none. */
  lemma {:induction false} AfterFacts(prev: char, s: string)
    ensures NoUpper(UnderscoreAfter(prev, s))
    ensures NoUpper(s) ==> UnderscoreAfter(prev, s) == s
    decreases s
  {
    if s != [] {
      AfterFacts(s[0], s[1..]);
      var r := UnderscoreAfter(prev, s);
      var sep: string := if Boundary(prev, s[0]) then "_" else "";
      assert r == sep + [ToLower(s[0])] + UnderscoreAfter(s[0], s[1..]);
      forall i | 0 <= i < |r| ensures !IsUpper(r[i]) {
        if i >= |sep| + 1 {
          assert r[i] == UnderscoreAfter(s[0], s[1..])[i - |sep| - 1];
        }
      }
      if NoUpper(s) {
        assert NoUpper(s[1..]) by {
          forall i | 0 <= i < |s[1..]| ensures !IsUpper(s[1..][i]) { assert s[1..][i] == s[i + 1]; }
        }
        assert !IsUpper(s[0]);
        assert [s[0]] + s[1..] == s;
      }
    }
  }

  /** The output of the rule is in snake case; a string already in snake case
      is its own output. */
  lemma UnderscoreFacts(s: string)
    ensures NoUpper(Underscore(s))
    ensures NoUpper(s) ==> Underscore(s) == s
    ensures |s| <= |Underscore(s)|
  {
    if s != [] {
      AfterFacts(s[0], s[1..]);
      AfterLength(s[0], s[1..]);
      var r := Underscore(s);
      forall i | 0 <= i < |r| ensures !IsUpper(r[i]) {
        if i >= 1 { assert r[i] == UnderscoreAfter(s[0], s[1..])[i - 1]; }
      }
      if NoUpper(s) {
        assert NoUpper(s[1..]) by {
          forall i | 0 <= i < |s[1..]| ensures !IsUpper(s[1..][i]) { assert s[1..][i] == s[i + 1]; }
        }
        assert [s[0]] + s[1..] == s;
      }
    }
  }

  /** The rule only ever inserts characters. */
  lemma {:induction false} AfterLength(prev: char, s: string)
    ensures |s| <= |UnderscoreAfter(prev, s)|
    decreases s
  {
    if s != [] { AfterLength(s[0], s[1..]); }
  }

  /** A string is left alone by the rule exactly when it is already in snake case. */
  lemma UnderscoreFixes(s: string)
    ensures Underscore(s) == s <==> NoUpper(s)
  {
    UnderscoreFacts(s);
  }

  /** Underscoring twice is underscoring once. */
  lemma UnderscoreIdempotent(s: string)
    ensures Underscore(Underscore(s)) == Underscore(s)
  {
    UnderscoreFacts(s);
    UnderscoreFacts(Underscore(s));
  }

  /** The rule on a concatenation: the second half sees the last character of
      the first as its left neighbour. */
  lemma {:induction false} AfterAppend(prev: char, a: string, b: string)
    requires a != []
    ensures UnderscoreAfter(prev, a + b) == UnderscoreAfter(prev, a) + UnderscoreAfter(a[|a| - 1], b)
    decreases a
  {
    assert (a + b)[0] == a[0];
    assert (a + b)[1..] == a[1..] + b;
    if |a| > 1 {
      AfterAppend(a[0], a[1..], b);
    }
  }

  /** One character of the rule. */
  lemma AfterCons(prev: char, c: char, rest: string)
    ensures UnderscoreAfter(prev, [c] + rest)
         == (if Boundary(prev, c) then "_" else "") + [ToLower(c)] + UnderscoreAfter(c, rest)
  {
    assert ([c] + rest)[1..] == rest;
  }

  /** An upper-case letter after a lower-case letter or a digit starts a new
      word; a snake-case rest is copied. */
  lemma CapitalAfter(prev: char, c: char, rest: string)
    requires IsLower(prev) || IsDigit(prev)
    requires IsUpper(c) && NoUpper(rest)
    ensures UnderscoreAfter(prev, [c] + rest) == ['_', ToLower(c)] + rest
  {
    AfterCons(prev, c, rest);
    AfterFacts(c, rest);
  }

  /** One hump: a snake-case run followed by a capital that starts a new word. */
  lemma AfterHump(prev: char, a: string, c: char, b: string)
    requires NoUpper(a) && IsUpper(c)
    requires a == [] ==> IsLower(prev) || IsDigit(prev)
    requires a != [] ==> IsLower(a[|a| - 1]) || IsDigit(a[|a| - 1])
    ensures UnderscoreAfter(prev, a + [c] + b) == a + ['_', ToLower(c)] + UnderscoreAfter(c, b)
  {
    if a == [] {
      assert a + [c] + b == [c] + b;
      AfterCons(prev, c, b);
    } else {
      assert a + [c] + b == a + ([c] + b);
      AfterAppend(prev, a, [c] + b);
      AfterFacts(prev, a);
      AfterCons(a[|a| - 1], c, b);
    }
  }

  /** The first character is lower-cased and is the left neighbour of the rest. */
  lemma UnderscoreCons(c: char, rest: string)
    ensures Underscore([c] + rest) == [ToLower(c)] + UnderscoreAfter(c, rest)
  {
    assert ([c] + rest)[1..] == rest;
  }

  /** A lower-case tail after the last hump is copied. */
  lemma AfterSnake(prev: char, s: string)
    requires NoUpper(s)
    ensures UnderscoreAfter(prev, s) == s
  {
    AfterFacts(prev, s);
  }

  /** A lower-case word with one hump: `hAbC` becomes `ha_bc` when `A` is
      lower case, `b` is the capital and `C` has no capital. */
  lemma OneHump(h: char, a: string, c: char, b: string)
    requires IsLower(h) && NoUpper(a) && IsUpper(c) && NoUpper(b)
    requires a != [] ==> IsLower(a[|a| - 1]) || IsDigit(a[|a| - 1])
    ensures Underscore([h] + (a + [c] + b)) == [h] + (a + ['_', ToLower(c)] + b)
  {
    UnderscoreCons(h, a + [c] + b);
    AfterHump(h, a, c, b);
    AfterSnake(c, b);
  }

  /** `"userId"` becomes `"user_id"`. */
  lemma UserIdExample()
    ensures Underscore("userId") == "user_id"
  {
    assert "userId" == ['u'] + ("ser" + ['I'] + "d");
    OneHump('u', "ser", 'I', "d");
    assert ['u'] + ("ser" + ['_', 'i'] + "d") == "user_id";
  }

  /** `"userIds"` becomes `"user_ids"`. */
  lemma UserIdsExample()
    ensures Underscore("userIds") == "user_ids"
  {
    assert "userIds" == ['u'] + ("ser" + ['I'] + "ds");
    OneHump('u', "ser", 'I', "ds");
    assert ['u'] + ("ser" + ['_', 'i'] + "ds") == "user_ids";
  }

  /** `"streetName"` becomes `"street_name"`. */
  lemma StreetNameExample()
    ensures Underscore("streetName") == "street_name"
  {
    assert "streetName" == ['s'] + ("treet" + ['N'] + "ame");
    OneHump('s', "treet", 'N', "ame");
    assert ['s'] + ("treet" + ['_', 'n'] + "ame") == "street_name";
  }

  /** The rule on `clientMutationId`, spelled as its pieces around the two humps. */
  lemma ClientMutationIdPieces()
    ensures Underscore(['c'] + ("lient" + ['M'] + ("utation" + ['I'] + "d")))
         == ['c'] + ("lient" + ['_', 'm'] + ("utation" + ['_', 'i'] + "d"))
  {
    var tail := "utation" + ['I'] + "d";
    UnderscoreCons('c', "lient" + ['M'] + tail);
    AfterHump('c', "lient", 'M', tail);
    AfterHump('M', "utation", 'I', "d");
    AfterSnake('I', "d");
  }

  /** `clientMutationId` and `client_mutation_id` are those pieces put together. */
  lemma ClientMutationIdSpelling()
    ensures "clientMutationId" == ['c'] + ("lient" + ['M'] + ("utation" + ['I'] + "d"))
    ensures "client_mutation_id" == ['c'] + ("lient" + ['_', 'm'] + ("utation" + ['_', 'i'] + "d"))
  {
    assert "utation" + ['I'] + "d" == "utationId";
    assert "lient" + ['M'] + "utationId" == "lientMutationId";
    assert "utation" + ['_', 'i'] + "d" == "utation_id";
    assert "lient" + ['_', 'm'] + "utation_id" == "lient_mutation_id";
  }

  /** `"clientMutationId"` would become `"client_mutation_id"`. */
  lemma ClientMutationIdExample()
    ensures Underscore("clientMutationId") == "client_mutation_id"
  {
    ClientMutationIdSpelling();
    ClientMutationIdPieces();
  }

  /** `"aB"` becomes `"a_b"`. */
  lemma TwoLetterExample()
    ensures Underscore("aB") == "a_b"
  {
    assert "aB"[1..] == ['B'] + "";
    CapitalAfter('a', 'B', "");
  }

  /** After a capital, the capital of `Status` gets no underscore. */
  lemma StatusWord()
    ensures UnderscoreAfter('P', "Status") == "status"
  {
    assert "Status" == ['S'] + "tatus";
    AfterCons('P', 'S', "tatus");
    AfterFacts('S', "tatus");
  }

  /** After `H`, the capitals `TTP` are only lower-cased. */
  lemma TtpWord()
    ensures UnderscoreAfter('H', "TTP") == "ttp"
  {
    assert "TTP" == ['T'] + "TP";
    AfterCons('H', 'T', "TP");
    assert "TP" == ['T'] + "P";
    AfterCons('T', 'T', "P");
    assert "P" == ['P'] + "";
    AfterCons('T', 'P', "");
  }

  /** Inside a run of capitals no underscore is inserted. */
  lemma CapitalRun()
    ensures UnderscoreAfter('H', "TTPStatus") == "ttpstatus"
  {
    assert "TTPStatus" == "TTP" + "Status";
    AfterAppend('H', "TTP", "Status");
    TtpWord();
    StatusWord();
    assert "ttp" + "status" == "ttpstatus";
  }

  /** A run of capitals is not split, only lower-cased: `"HTTPStatus"`
      becomes `"httpstatus"`. */
  lemma AcronymExample()
    ensures Underscore("HTTPStatus") == "httpstatus"
  {
    AcronymSpelling();
    UnderscoreCons('H', "TTPStatus");
    CapitalRun();
  }

  /** `HTTPStatus` and `httpstatus` split after their first letter. */
  lemma AcronymSpelling()
    ensures "HTTPStatus" == ['H'] + "TTPStatus"
    ensures "httpstatus" == ['h'] + "ttpstatus"
  {
  }
}
