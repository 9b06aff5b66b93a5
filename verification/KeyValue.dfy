/**
 * Lists of key-value pairs: `parseMap` of src/utility/string.cpp, and
 * `convertRequestMapToString` of src/MountParser.cpp, which prints a map.
 */
module KeyValue {
  import opened Wrappers
  import opened Text

  type Map = map<string, string>

  function KeyOf(token: string, separator: char): string {
    token[..IndexOf(token, separator)]
  }

  function ValueOf(token: string, separator: char): string {
    var keyEnd := IndexOf(token, separator);
    if keyEnd == |token| then "" else token[keyEnd + 1..]
  }

  /** `parseKeyValuePair` */
  function ParseKeyValuePair(token: string, separator: char): Result<(string, string)> {
    if KeyOf(token, separator) == "" then Error
    else Ok((KeyOf(token, separator), ValueOf(token, separator)))
  }

  // ----- What parseMap accepts -----

  /** A nonempty key, and at most one separator. */
  predicate GoodToken(token: string, separator: char) {
    && token != "" && token[0] != separator
    && forall i, j :: 0 <= i < j < |token| ==> !(token[i] == separator && token[j] == separator)
  }

  predicate DistinctKeys(tokens: seq<string>, separator: char) {
    forall i, j :: 0 <= i < j < |tokens| ==> KeyOf(tokens[i], separator) != KeyOf(tokens[j], separator)
  }

  predicate Acceptable(tokens: seq<string>, separator: char) {
    (forall i :: 0 <= i < |tokens| ==> GoodToken(tokens[i], separator)) && DistinctKeys(tokens, separator)
  }

  function MapOf(tokens: seq<string>, separator: char): Map {
    if tokens == [] then map[]
    else
      var last := tokens[|tokens| - 1];
      MapOf(tokens[..|tokens| - 1], separator)[KeyOf(last, separator) := ValueOf(last, separator)]
  }

  function Tokens(input: string, pairSeparator: char): seq<string> {
    if input == "" then [] else Split(input, pairSeparator)
  }

  /** The map of an input, if it is one that parseMap accepts. */
  function Parsed(input: string, pairSeparator: char, separator: char): Result<Map> {
    var tokens := Tokens(input, pairSeparator);
    if Acceptable(tokens, separator) then Ok(MapOf(tokens, separator)) else Error
  }

  lemma GoodTokenParts(token: string, separator: char)
    ensures GoodToken(token, separator) <==> KeyOf(token, separator) != "" && Free(ValueOf(token, separator), separator)
  {
    var k := IndexOf(token, separator);
    if k < |token| {
      SuffixFree(token, k + 1, separator);
    } else {
      assert token[..k] == token;
    }
  }

  lemma {:induction false} MapOfKeys(tokens: seq<string>, separator: char, key: string)
    ensures key in MapOf(tokens, separator) <==> exists i :: 0 <= i < |tokens| && KeyOf(tokens[i], separator) == key
    decreases |tokens|
  {
    if tokens != [] {
      var n := |tokens| - 1;
      var before := tokens[..n];
      MapOfKeys(before, separator, key);
      assert forall i :: 0 <= i < n ==> before[i] == tokens[i];
      assert key in MapOf(tokens, separator) <==> key in MapOf(before, separator) || key == KeyOf(tokens[n], separator);
    }
  }

  /** One entry per token, with the token's value. */
  lemma {:induction false} OneEntryPerToken(tokens: seq<string>, separator: char)
    requires DistinctKeys(tokens, separator)
    ensures |MapOf(tokens, separator)| == |tokens|
    ensures forall i :: 0 <= i < |tokens| ==>
              && KeyOf(tokens[i], separator) in MapOf(tokens, separator)
              && MapOf(tokens, separator)[KeyOf(tokens[i], separator)] == ValueOf(tokens[i], separator)
    decreases |tokens|
  {
    if tokens != [] {
      var n := |tokens| - 1;
      var m := MapOf(tokens[..n], separator);
      OneEntryPerToken(tokens[..n], separator);
      var key := KeyOf(tokens[n], separator);
      MapOfKeys(tokens[..n], separator, key);
      assert forall i :: 0 <= i < n ==> tokens[..n][i] == tokens[i];
      assert key !in m;
      assert MapOf(tokens, separator).Keys == m.Keys + {key};
    }
  }

  /** Taking one more token. */
  lemma NextToken(tokens: seq<string>, k: nat, separator: char)
    requires k < |tokens|
    ensures Acceptable(tokens[..k + 1], separator) <==>
              && Acceptable(tokens[..k], separator)
              && GoodToken(tokens[k], separator)
              && KeyOf(tokens[k], separator) !in MapOf(tokens[..k], separator)
    ensures MapOf(tokens[..k + 1], separator)
         == MapOf(tokens[..k], separator)[KeyOf(tokens[k], separator) := ValueOf(tokens[k], separator)]
  {
    var before, after := tokens[..k], tokens[..k + 1];
    assert after == before + [tokens[k]];
    assert after[..k] == before;
    MapOfKeys(before, separator, KeyOf(tokens[k], separator));
    if Acceptable(after, separator) {
      assert forall i :: 0 <= i < k ==> before[i] == after[i];
      assert after[k] == tokens[k];
    }
  }

  lemma AcceptablePrefix(tokens: seq<string>, k: nat, separator: char)
    requires k <= |tokens| && Acceptable(tokens, separator)
    ensures Acceptable(tokens[..k], separator)
  {
    assert forall i :: 0 <= i < k ==> tokens[..k][i] == tokens[i];
  }

  /** The checks on a pair, in the source's order. */
  method CheckPair(token: string, separator: char) returns (r: Result<(string, string)>)
    ensures r.Ok? <==> GoodToken(token, separator)
    ensures r.Ok? ==> r.value == (KeyOf(token, separator), ValueOf(token, separator))
  {
    GoodTokenParts(token, separator);
    r := ParseKeyValuePair(token, separator);
    if r.Ok? {
      var value := r.value.1;
      if IndexOf(value, separator) != |value| {
        return Error;
      }
    }
  }

  method ParseMap(input: string, pairSeparator: char, separator: char) returns (r: Result<Map>)
    ensures r == Parsed(input, pairSeparator, separator)
  {
    if input == "" {
      return Ok(map[]);
    }
    var parsed: Map := map[];
    var pairs := Split(input, pairSeparator);
    for k := 0 to |pairs|
      invariant Acceptable(pairs[..k], separator)
      invariant parsed == MapOf(pairs[..k], separator)
    {
      NextToken(pairs, k, separator);
      if Acceptable(pairs, separator) {
        AcceptablePrefix(pairs, k + 1, separator);
      }
      var pair := CheckPair(pairs[k], separator);
      if pair == Error {
        return Error;
      }
      var (key, value) := pair.value;
      if key in parsed {
        return Error;
      }
      parsed := parsed[key := value];
    }
    assert pairs[..|pairs|] == pairs;
    r := Ok(parsed);
  }

  // ----- Printing -----

  function Printed(key: string, value: string): string {
    if value == "" then key else key + "=" + value
  }

  /** What is printed for the keys in this order. */
  function PrintedTokens(m: Map, order: seq<string>): seq<string>
    requires forall i :: 0 <= i < |order| ==> order[i] in m
  {
    seq(|order|, i requires 0 <= i < |order| => Printed(order[i], m[order[i]]))
  }

  /** An enumeration of the map, in whatever order the hash table gives. */
  predicate Enumerates(order: seq<string>, m: Map) {
    && (forall i :: 0 <= i < |order| ==> order[i] in m)
    && (forall i, j :: 0 <= i < j < |order| ==> order[i] != order[j])
    && (forall k :: k in m ==> k in order)
  }

  method ConvertRequestMapToString(m: Map, order: seq<string>) returns (s: string)
    requires Enumerates(order, m)
    ensures s == Join(PrintedTokens(m, order), ',')
  {
    s := "";
    var isFirstValue := true;
    ghost var tokens := PrintedTokens(m, order);
    for k := 0 to |order|
      invariant isFirstValue <==> k == 0
      invariant s == Join(tokens[..k], ',')
    {
      assert tokens[..k + 1] == tokens[..k] + [tokens[k]];
      if k > 0 {
        JoinSnoc(tokens[..k], tokens[k], ',');
      }
      if !isFirstValue {
        s := s + ",";
      } else {
        isFirstValue := false;
      }
      var before := s;
      s := s + order[k];
      if m[order[k]] != "" {
        s := s + "=" + m[order[k]];
      }
      assert s == before + tokens[k];
    }
    assert tokens[..|order|] == tokens;
  }

  // ----- Round trips -----

  /** What every parsed map looks like. */
  predicate Clean(m: Map) {
    forall k :: k in m ==> k != "" && Free(k, ',') && Free(k, '=') && Free(m[k], ',') && Free(m[k], '=')
  }

  lemma PrintedTokenParts(key: string, value: string)
    requires key != "" && Free(key, ',') && Free(key, '=') && Free(value, ',') && Free(value, '=')
    ensures var token := Printed(key, value);
            && KeyOf(token, '=') == key && ValueOf(token, '=') == value
            && GoodToken(token, '=') && Free(token, ',')
  {
    var token := Printed(key, value);
    assert forall i :: 0 <= i < |key| ==> token[i] == key[i];
    if value == "" {
      assert IndexOf(token, '=') == |token|;
    } else {
      assert token[|key|] == '=';
      assert IndexOf(token, '=') == |key|;
      assert token[|key| + 1..] == value;
    }
    assert token[..|key|] == key;
    GoodTokenParts(token, '=');
  }

  /** The printed tokens are what the parser will see. */
  lemma PrintedTokensSplit(m: Map, order: seq<string>)
    requires Enumerates(order, m) && Clean(m)
    ensures Tokens(Join(PrintedTokens(m, order), ','), ',') == PrintedTokens(m, order)
    ensures forall i :: 0 <= i < |order| ==>
              var token := PrintedTokens(m, order)[i];
              GoodToken(token, '=') && KeyOf(token, '=') == order[i] && ValueOf(token, '=') == m[order[i]]
  {
    var tokens := PrintedTokens(m, order);
    forall i | 0 <= i < |order|
      ensures GoodToken(tokens[i], '=') && Free(tokens[i], ',')
      ensures KeyOf(tokens[i], '=') == order[i] && ValueOf(tokens[i], '=') == m[order[i]]
    {
      PrintedTokenParts(order[i], m[order[i]]);
    }
    if tokens != [] {
      SplitJoin(tokens, ',');
      assert tokens[0] != "";
      assert Join(tokens, ',')[0] == tokens[0][0];
    }
  }

  /** Tokens that carry the entries of a map, each once, make up that map. */
  lemma {:induction false} MapOfEntries(tokens: seq<string>, m: Map, order: seq<string>)
    requires Enumerates(order, m) && |tokens| == |order|
    requires forall i :: 0 <= i < |order| ==>
               KeyOf(tokens[i], '=') == order[i] && ValueOf(tokens[i], '=') == m[order[i]]
    ensures DistinctKeys(tokens, '=') && MapOf(tokens, '=') == m
  {
    OneEntryPerToken(tokens, '=');
    var parsed := MapOf(tokens, '=');
    forall k ensures k in parsed ==> k in m {
      MapOfKeys(tokens, '=', k);
    }
    forall k | k in m ensures k in parsed && parsed[k] == m[k] {
      var i :| 0 <= i < |order| && order[i] == k;
      assert KeyOf(tokens[i], '=') == k;
    }
  }

  /** Printing a clean map in any order and parsing it gives the map back. */
  lemma PrintThenParse(m: Map, order: seq<string>)
    requires Enumerates(order, m) && Clean(m)
    ensures Parsed(Join(PrintedTokens(m, order), ','), ',', '=') == Ok(m)
  {
    PrintedTokensSplit(m, order);
    MapOfEntries(PrintedTokens(m, order), m, order);
  }

  /** Parsing yields clean maps only. */
  lemma ParsedIsClean(input: string)
    requires Parsed(input, ',', '=').Ok?
    ensures Clean(Parsed(input, ',', '=').value)
  {
    var tokens := Tokens(input, ',');
    var m := MapOf(tokens, '=');
    OneEntryPerToken(tokens, '=');
    forall k | k in m
      ensures k != "" && Free(k, ',') && Free(k, '=') && Free(m[k], ',') && Free(m[k], '=')
    {
      MapOfKeys(tokens, '=', k);
      var i :| 0 <= i < |tokens| && KeyOf(tokens[i], '=') == k;
      SplitTokensFree(input, ',');
      GoodTokenParts(tokens[i], '=');
      assert Free(tokens[i], ',');
    }
  }

  /** The round trip succeeds for exactly the maps with nonempty keys and without separators. */
  lemma RoundTripIffClean(m: Map, order: seq<string>)
    requires Enumerates(order, m)
    ensures Parsed(Join(PrintedTokens(m, order), ','), ',', '=') == Ok(m) <==> Clean(m)
  {
    if Clean(m) {
      PrintThenParse(m, order);
    } else if Parsed(Join(PrintedTokens(m, order), ','), ',', '=') == Ok(m) {
      ParsedIsClean(Join(PrintedTokens(m, order), ','));
    }
  }

  /** "k=" loses its separator; every other token stays. */
  function Shortened(token: string): string {
    if token != "" && token[|token| - 1] == '=' then token[..|token| - 1] else token
  }

  function ShortenedAll(tokens: seq<string>): seq<string> {
    seq(|tokens|, i requires 0 <= i < |tokens| => Shortened(tokens[i]))
  }

  function KeysOf(tokens: seq<string>): seq<string> {
    seq(|tokens|, i requires 0 <= i < |tokens| => KeyOf(tokens[i], '='))
  }

  lemma GoodTokenPrints(token: string)
    requires GoodToken(token, '=')
    ensures Printed(KeyOf(token, '='), ValueOf(token, '=')) == Shortened(token)
  {
    var k := IndexOf(token, '=');
    GoodTokenParts(token, '=');
    if k == |token| {
      assert token[..k] == token;
      assert token[|token| - 1] != '=' by { assert token[..k][|token| - 1] != '='; }
    } else if k + 1 < |token| {
      assert token == token[..k] + "=" + token[k + 1..];
      assert token[|token| - 1] != '=';
    }
  }

  /** Printing a parsed map in the order of the input gives the input, with each "k=" as "k". */
  lemma ParseThenPrint(input: string)
    requires Parsed(input, ',', '=').Ok?
    ensures var m := Parsed(input, ',', '=').value;
            var tokens := Tokens(input, ',');
            && Enumerates(KeysOf(tokens), m)
            && Join(PrintedTokens(m, KeysOf(tokens)), ',') == Join(ShortenedAll(tokens), ',')
            && Join(tokens, ',') == input
  {
    var m := Parsed(input, ',', '=').value;
    var tokens := Tokens(input, ',');
    var order := KeysOf(tokens);
    OneEntryPerToken(tokens, '=');
    JoinSplit(input, ',');
    forall k | k in m ensures k in order {
      MapOfKeys(tokens, '=', k);
      var i :| 0 <= i < |tokens| && KeyOf(tokens[i], '=') == k;
      assert order[i] == k;
    }
    forall i | 0 <= i < |tokens| ensures PrintedTokens(m, order)[i] == ShortenedAll(tokens)[i] {
      GoodTokenPrints(tokens[i]);
    }
    assert PrintedTokens(m, order) == ShortenedAll(tokens);
  }
}
