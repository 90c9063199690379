/**
 * The subcommand match of `main`: `get` and `post` each send one request and
 * print its response; `put` and `delete` are accepted and do nothing. The
 * request/response exchange itself (network, printing) is not modelled: it is
 * a parameter of `Run`.
 */
module Dispatch {
  import opened Results
  import opened KvPairs
  import opened RequestBody

  /** The four subcommands, each carrying its (already validated) URL. */
  datatype SubCommand =
    | Get(url: string)
    | Post(url: string, body: seq<KvPair>)
    | Put(url: string, body: seq<KvPair>)
    | Delete(url: string)

  datatype Verb = HttpGet | HttpPost

  /** An outbound request: verb, URL and, for a POST, the JSON object sent. */
  datatype Request = Request(verb: Verb, url: string, json: Option<map<string, string>>)

  /** What can go wrong once a request is sent: transport or body decoding. */
  datatype ExchangeError = ExchangeError(reason: string)

  /** The requests a subcommand issues, in order. */
  function IssuedRequests(cmd: SubCommand): (issued: seq<Request>)
    ensures |issued| == (if cmd.Get? || cmd.Post? then 1 else 0)
    ensures forall i :: 0 <= i < |issued| ==> issued[i].url == cmd.url
    ensures cmd.Get? ==> issued[0].verb == HttpGet && issued[0].json == None
    ensures cmd.Post? ==> issued[0].verb == HttpPost && issued[0].json.Some?
    ensures cmd.Post? ==> issued[0].json.value.Keys == KeysOf(cmd.body)
    ensures cmd.Post? ==> forall i :: 0 <= i < |cmd.body| && IsLastOccurrence(cmd.body, i) ==>
              issued[0].json.value[cmd.body[i].key] == cmd.body[i].value
  {
    match cmd
    case Get(url) => [Request(HttpGet, url, None)]
    case Post(url, body) =>
      LastWriteWinsKeys(body);
      LastWriteWinsValues(body);
      [Request(HttpPost, url, Some(LastWriteWins(body)))]
    case Put(_, _) => []
    case Delete(_) => []
  }

  /**
   * The result of `main` once arguments are parsed. `exchange` sends a request
   * and prints its response; its failures are passed on unchanged.
   */
  function Run(cmd: SubCommand, exchange: Request -> Result<(), ExchangeError>): (r: Result<(), ExchangeError>)
    ensures cmd.Put? || cmd.Delete? ==> r == Ok(())
    ensures cmd.Get? || cmd.Post? ==> |IssuedRequests(cmd)| == 1 && r == exchange(IssuedRequests(cmd)[0])
    ensures r.Err? ==> |IssuedRequests(cmd)| == 1
  {
    match cmd
    case Get(_) => exchange(IssuedRequests(cmd)[0])
    case Post(_, _) => exchange(IssuedRequests(cmd)[0])
    case Put(_, _) => Ok(())
    case Delete(_) => Ok(())
  }

  /**
   * A subcommand as the argument parser hands it over: its URL and its raw
   * body tokens. The URL is the string `parse_url` returned, so it is already
   * validated and normalised; URL validation is not part of this model.
   */
  datatype Arguments =
    | GetArgs(url: string)
    | PostArgs(url: string, tokens: seq<string>)
    | PutArgs(url: string, tokens: seq<string>)
    | DeleteArgs(url: string)

  /** Why the program exits with an error. */
  datatype CliError = BadArgument(parse: ParseError) | Failed(exchange: ExchangeError)

  /** The body tokens of a subcommand; `get` and `delete` take none. */
  function BodyTokens(args: Arguments): seq<string>
  {
    match args
    case PostArgs(_, tokens) => tokens
    case PutArgs(_, tokens) => tokens
    case _ => []
  }

  /**
   * Builds the subcommand from its arguments: the same variant and URL, and
   * the body tokens parsed into pairs. The first malformed token fails the
   * whole command.
   */
  function ParseCommand(args: Arguments): (r: Result<SubCommand, ParseError>)
    ensures r.Ok? <==> forall i :: 0 <= i < |BodyTokens(args)| ==> Separator in BodyTokens(args)[i]
    ensures forall k :: IsFirstMalformed(BodyTokens(args), k) ==> r == Err(MalformedPair(BodyTokens(args)[k]))
    ensures r.Ok? ==> r.value.url == args.url
    ensures r.Ok? ==>
              && (r.value.Get? <==> args.GetArgs?) && (r.value.Post? <==> args.PostArgs?)
              && (r.value.Put? <==> args.PutArgs?) && (r.value.Delete? <==> args.DeleteArgs?)
    ensures r.Ok? && (args.PostArgs? || args.PutArgs?) ==>
              |r.value.body| == |args.tokens|
              && forall i :: 0 <= i < |args.tokens| ==> ParseKvPair(args.tokens[i]) == Ok(r.value.body[i])
  {
    match args
    case GetArgs(url) => Ok(Get(url))
    case PostArgs(url, tokens) =>
      assert BodyTokens(args) == tokens;
      (match ParseBody(tokens)
       case Ok(pairs) => Ok(Post(url, pairs))
       case Err(e) => Err(e))
    case PutArgs(url, tokens) =>
      assert BodyTokens(args) == tokens;
      (match ParseBody(tokens)
       case Ok(pairs) => Ok(Put(url, pairs))
       case Err(e) => Err(e))
    case DeleteArgs(url) => Ok(Delete(url))
  }

  /**
   * The whole program after subcommand selection: argument errors stop it
   * before anything is sent; otherwise the subcommand runs.
   */
  function Main(args: Arguments, exchange: Request -> Result<(), ExchangeError>): (r: Result<(), CliError>)
    ensures (r.Err? && r.error.BadArgument?) <==>
              exists i :: 0 <= i < |BodyTokens(args)| && Separator !in BodyTokens(args)[i]
    ensures forall k :: IsFirstMalformed(BodyTokens(args), k) ==>
              r == Err(BadArgument(MalformedPair(BodyTokens(args)[k])))
    ensures (forall i :: 0 <= i < |BodyTokens(args)| ==> Separator in BodyTokens(args)[i]) ==>
              && ParseCommand(args).Ok?
              && (args.PutArgs? || args.DeleteArgs? ==> r == Ok(()))
              && (args.GetArgs? || args.PostArgs? ==>
                    |IssuedRequests(ParseCommand(args).value)| == 1
                    && (r.Ok? <==> exchange(IssuedRequests(ParseCommand(args).value)[0]).Ok?))
    ensures r.Err? && r.error.Failed? ==>
              && ParseCommand(args).Ok?
              && |IssuedRequests(ParseCommand(args).value)| == 1
              && exchange(IssuedRequests(ParseCommand(args).value)[0]) == Err(r.error.exchange)
  {
    match ParseCommand(args)
    case Err(e) => Err(BadArgument(e))
    case Ok(cmd) =>
      (match Run(cmd, exchange)
       case Ok(_) => Ok(())
       case Err(e) => Err(Failed(e)))
  }

  /**
   * Nothing is sent before parsing succeeds: the first malformed body token
   * makes the program fail with that token's parse error, whatever the
   * exchange would do. This follows from the contract of `Main`.
   */
  lemma MalformedTokenSendsNothing(args: Arguments, k: nat,
                                   exchange1: Request -> Result<(), ExchangeError>,
                                   exchange2: Request -> Result<(), ExchangeError>)
    requires IsFirstMalformed(BodyTokens(args), k)
    ensures Main(args, exchange1) == Main(args, exchange2)
              == Err(BadArgument(MalformedPair(BodyTokens(args)[k])))
  {
    assert ParseCommand(args) == Err(MalformedPair(BodyTokens(args)[k]));
  }

  /** Every command line with a malformed body token has a first one. */
  lemma {:induction false} FirstMalformedExists(tokens: seq<string>, i: nat)
    requires i < |tokens| && Separator !in tokens[i]
    ensures exists k :: IsFirstMalformed(tokens, k)
    decreases i
  {
    if !IsFirstMalformed(tokens, i) {
      var j :| 0 <= j < i && Separator !in tokens[j];
      FirstMalformedExists(tokens, j);
    }
  }

  /** `post <url> a=1 b=2` sends the JSON object {"a": "1", "b": "2"}. */
  lemma PostScenario(url: string)
    ensures ParseCommand(PostArgs(url, ["a=1", "b=2"]))
              == Ok(Post(url, [KvPair("a", "1"), KvPair("b", "2")]))
    ensures IssuedRequests(Post(url, [KvPair("a", "1"), KvPair("b", "2")]))
              == [Request(HttpPost, url, Some(map["a" := "1", "b" := "2"]))]
  {
    ParseFormat(KvPair("a", "1"));
    ParseFormat(KvPair("b", "2"));
    assert Format(KvPair("a", "1")) == "a=1";
    assert Format(KvPair("b", "2")) == "b=2";
    var tokens := ["a=1", "b=2"];
    assert tokens[0][1] == Separator && tokens[1][1] == Separator;
    var parsed := ParseBody(tokens);
    assert parsed.value[0] == KvPair("a", "1") && parsed.value[1] == KvPair("b", "2");
    assert parsed.value == [KvPair("a", "1"), KvPair("b", "2")];
    assert parsed == Ok([KvPair("a", "1"), KvPair("b", "2")]);
    var pairs := [KvPair("a", "1"), KvPair("b", "2")];
    assert pairs[..1] == [KvPair("a", "1")] && pairs[..1][..0] == [];
    assert LastWriteWins(pairs[..1]) == map["a" := "1"];
    assert LastWriteWins(pairs) == map["a" := "1", "b" := "2"];
  }

  /** `post <url> a=1 a=2` sends {"a": "2"}: the later duplicate wins. */
  lemma DuplicateKeyScenario(url: string)
    ensures IssuedRequests(Post(url, [KvPair("a", "1"), KvPair("a", "2")]))
              == [Request(HttpPost, url, Some(map["a" := "2"]))]
  {
    var pairs := [KvPair("a", "1"), KvPair("a", "2")];
    assert pairs[..1] == [KvPair("a", "1")] && pairs[..1][..0] == [];
    assert LastWriteWins(pairs[..1]) == map["a" := "1"];
    assert LastWriteWins(pairs) == map["a" := "2"];
  }

  /**
   * `post <url> malformed` fails while its arguments are parsed, with the
   * error naming the token, and sends nothing.
   */
  lemma MalformedScenario(url: string, exchange: Request -> Result<(), ExchangeError>)
    ensures Main(PostArgs(url, ["malformed"]), exchange) == Err(BadArgument(MalformedPair("malformed")))
  {
    ParseRejectsExamples();
    assert ["malformed"][0] == "malformed" && ["malformed"][1..] == [];
    assert ParseBody(["malformed"]) == Err(MalformedPair("malformed"));
  }
}
