/**
 * The `key=value` tokens of a `post` or `put` command line and their parser
 * (`KvPair::from_str`). The parser splits the token on every `=` and keeps
 * the first two pieces: the first is the key, the second the value, and
 * anything after a second `=` is dropped. A token without `=` is rejected.
 */
module KvPairs {
  import opened Results
  import opened Splitting

  const Separator: char := '='

  datatype KvPair = KvPair(key: string, value: string)

  /** The parser's one error: the token is not a key/value pair. */
  datatype ParseError = MalformedPair(token: string)

  /**
   * `p` is what a token yields when read as "key, `=`, value": the key is
   * the whole field before the first `=`, and the value is the whole field
   * after it, up to the next `=` or the end of the token.
   */
  ghost predicate IsLeadingPair(token: string, p: KvPair)
  {
    && IsField(token, 0, p.key, Separator)
    && |p.key| < |token|
    && IsField(token, |p.key| + 1, p.value, Separator)
  }

  /** A token determines its leading pair. */
  lemma LeadingPairUnique(token: string, p: KvPair, q: KvPair)
    requires IsLeadingPair(token, p) && IsLeadingPair(token, q)
    ensures p == q
  {
    FieldUnique(token, 0, p.key, q.key, Separator);
    FieldUnique(token, |p.key| + 1, p.value, q.value, Separator);
  }

  /**
   * Parses one token. The first piece of a split always exists, so the only
   * failure is a missing second piece, that is, a token with no `=`.
   */
  function ParseKvPair(token: string): (r: Result<KvPair, ParseError>)
    ensures r.Err? <==> Separator !in token
    ensures r.Err? ==> r.error == MalformedPair(token)
    ensures r.Ok? ==> IsLeadingPair(token, r.value)
  {
    var pieces := Split(token, Separator);
    if |pieces| < 2 then
      SplitHead(token, Separator);
      Err(MalformedPair(token))
    else
      LeadingPieces(token);
      Ok(KvPair(pieces[0], pieces[1]))
  }

  /** The first two pieces of a split, when there are two, form the leading pair. */
  lemma LeadingPieces(token: string)
    requires |Split(token, Separator)| >= 2
    ensures IsLeadingPair(token, KvPair(Split(token, Separator)[0], Split(token, Separator)[1]))
  {
    var pieces := Split(token, Separator);
    SplitHead(token, Separator);
    var n := |pieces[0]|;
    assert n < |token|;
    var after := token[n + 1..];
    assert pieces[1] == Split(after, Separator)[0];
    SplitHead(after, Separator);
    FieldOfSuffix(token, n + 1, pieces[1], Separator);
  }

  /** The text a pair is written as on the command line. */
  function Format(p: KvPair): string
  {
    p.key + [Separator] + p.value
  }

  /**
   * Round trip: a key and a value free of `=` come back unchanged from the
   * token that writes them.
   */
  lemma ParseFormat(p: KvPair)
    requires Separator !in p.key && Separator !in p.value
    ensures ParseKvPair(Format(p)) == Ok(p)
  {
    var token := Format(p);
    assert token[|p.key|] == Separator;
    assert token[..|p.key|] == p.key;
    assert token[|p.key| + 1..] == p.value;
    LeadingPairUnique(token, ParseKvPair(token).value, p);
  }

  /**
   * With a second `=`, the value stops there and the rest of the token is
   * dropped without an error.
   */
  lemma ParseDropsAfterSecondSeparator(p: KvPair, rest: string)
    requires Separator !in p.key && Separator !in p.value
    ensures ParseKvPair(Format(p) + [Separator] + rest) == Ok(p)
  {
    var token := Format(p) + [Separator] + rest;
    var n := |p.key|;
    assert token[n] == Separator;
    assert token[..n] == p.key;
    assert token[n + 1..n + 1 + |p.value|] == p.value;
    assert token[n + 1 + |p.value|] == Separator;
    LeadingPairUnique(token, ParseKvPair(token).value, p);
  }

  /** A token without `=`, the empty one included, is rejected. */
  lemma ParseRejectsExamples()
    ensures ParseKvPair("") == Err(MalformedPair(""))
    ensures ParseKvPair("malformed") == Err(MalformedPair("malformed"))
  {
    assert Separator !in "";
    assert Separator !in "malformed" by {
      assert "malformed" == ['m', 'a', 'l', 'f', 'o', 'r', 'm', 'e', 'd'];
    }
  }

  /** Empty keys and empty values are accepted. */
  lemma ParseEmptyPieceExamples()
    ensures ParseKvPair("=x") == Ok(KvPair("", "x"))
    ensures ParseKvPair("a=") == Ok(KvPair("a", ""))
    ensures ParseKvPair("=") == Ok(KvPair("", ""))
  {
    ParseFormat(KvPair("", "x"));
    assert Format(KvPair("", "x")) == "=x";
    ParseFormat(KvPair("a", ""));
    assert Format(KvPair("a", "")) == "a=";
    ParseFormat(KvPair("", ""));
    assert Format(KvPair("", "")) == "=";
  }

  /** A second `=` ends the value: `a=b=c` gives key `a` and value `b`. */
  lemma ParseDropExample()
    ensures ParseKvPair("a=b=c") == Ok(KvPair("a", "b"))
  {
    ParseDropsAfterSecondSeparator(KvPair("a", "b"), "c");
    assert Format(KvPair("a", "b")) + [Separator] + "c" == "a=b=c";
  }

  /** Token `k` is the first one without `=`. */
  ghost predicate IsFirstMalformed(tokens: seq<string>, k: int)
  {
    && 0 <= k < |tokens|
    && Separator !in tokens[k]
    && forall j :: 0 <= j < k ==> Separator in tokens[j]
  }

  /**
   * The positional body of a command: the tokens are parsed in order, and the
   * first malformed token makes the whole body fail with that token's error.
   */
  function ParseBody(tokens: seq<string>): (r: Result<seq<KvPair>, ParseError>)
    ensures r.Ok? <==> forall i :: 0 <= i < |tokens| ==> Separator in tokens[i]
    ensures r.Ok? ==> |r.value| == |tokens|
    ensures r.Ok? ==> forall i :: 0 <= i < |tokens| ==> ParseKvPair(tokens[i]) == Ok(r.value[i])
    ensures forall k :: IsFirstMalformed(tokens, k) ==> r == Err(MalformedPair(tokens[k]))
  {
    if tokens == [] then Ok([])
    else
      match ParseKvPair(tokens[0])
      case Err(e) => Err(e)
      case Ok(p) =>
        assert Separator in tokens[0];
        assert forall k :: IsFirstMalformed(tokens, k) ==> k >= 1 && IsFirstMalformed(tokens[1..], k - 1);
        assert forall i :: 1 <= i < |tokens| ==> tokens[i] == tokens[1..][i - 1];
        match ParseBody(tokens[1..])
        case Err(e) => Err(e)
        case Ok(ps) => Ok([p] + ps)
  }
}
