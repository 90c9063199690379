# rest-cli: key/value body parsing, POST body construction and dispatch

A model of the core of `rest-cli`, a small command-line HTTP client. It takes a
subcommand (`get`, `post`, `put`, `delete`) and a URL. For `post` and `put` it
also takes `key=value` tokens. The model covers three parts of `src/main.rs`:

- **Token parsing** (`KvPair::from_str`). The token is split on every `=` and
  the first two pieces become the key and the value. A token with no `=` is
  rejected. Anything after a second `=` is dropped silently, so `a=b=c` yields
  key `a` and value `b`.
- **POST body construction** (the loop in `do_post`). The parsed pairs go, in
  command-line order, into an empty key-unique map. A later pair with the
  same key overwrites an earlier one (last write wins).
- **Subcommand dispatch** (the `match` in `main`). `get` and `post` each send
  exactly one request. `put` and `delete` do nothing and succeed.

Modules:

- `Results` (results.dfy): `Option` and `Result`.
- `Splitting` (split.dfy): Rust's `str::split` on one character, with `Join`
  as its inverse.
- `KvPairs` (kv_pair.dfy): the pair type, the token parser and the parser of a
  command's positional body.
- `RequestBody` (request_body.dfy): the last-write-wins specification of the
  body map and the loop that builds it.
- `Dispatch` (dispatch.dfy): the subcommand datatype, the requests each one
  issues, the parsing of its arguments and the program's result.

The parser does not split at the first `=` only. `s.split("=")` followed by
two `next()` calls keeps the text between the first and second `=` as the
value, so `a=b=c` yields (`a`, `b`).
`ParseDropsAfterSecondSeparator` and `ParseDropExample` state this.

## Model

| member | source | states |
|---|---|---|
| `Splitting.Split` | src/main.rs:70 | The pieces of the string between occurrences of `=`, in order. There is at least one piece, and no piece contains `=`. `SplitHead`, `JoinSplit` and `SplitJoin` fix the pieces exactly. |
| `Splitting.SplitHead` | src/main.rs:70 | The first piece of a split is the whole `=`-free field before the first `=`, or the whole string when there is no `=`. There is a second piece exactly when the string contains `=`, and the remaining pieces are the split of the text after that `=`. |
| `Splitting.SplitCount` | src/main.rs:70 | A string with n separators splits into exactly n + 1 pieces. The empty string gives one empty piece. |
| `Splitting.JoinSplit` | src/main.rs:70 | Splitting loses nothing: joining the pieces with the separator gives back the original string. |
| `Splitting.SplitJoin` | src/main.rs:70 | Splitting a join of one or more separator-free pieces gives back those pieces. |
| `KvPairs.ParseKvPair` | src/main.rs:66-82 | Parsing fails exactly when the token has no `=`, and the error names the token. On success the key is the whole field before the first `=` and the value is the whole field after it, up to the next `=` or the end. |
| `KvPairs.LeadingPieces` | src/main.rs:78-79 | When a split has at least two pieces, piece 0 (the key) and piece 1 (the value) are the leading key/value fields of the token. |
| `KvPairs.LeadingPairUnique` | src/main.rs:69-81 | A token determines its key and value: two pairs that both read as its leading fields are equal. |
| `KvPairs.ParseFormat` | src/main.rs:69-81 | Round trip: for a key and a value without `=`, parsing `key=value` returns exactly that key and value. |
| `KvPairs.ParseDropsAfterSecondSeparator` | src/main.rs:70-79 | For a key and a value without `=`, parsing `key=value=rest` succeeds with that key and value, and `rest` is dropped. |
| `KvPairs.ParseRejectsExamples` | src/main.rs:70-79 | `""` and `malformed` contain no `=` and are rejected, with the error naming the token. |
| `KvPairs.ParseEmptyPieceExamples` | src/main.rs:70-79 | Empty pieces are accepted: `=x` gives (`""`, `x`), `a=` gives (`a`, `""`) and `=` gives (`""`, `""`). |
| `KvPairs.ParseDropExample` | src/main.rs:70-79 | `a=b=c` gives key `a` and value `b`. |
| `KvPairs.ParseBody` | src/main.rs:35-47 | A command's positional tokens parse exactly when every token contains `=`. Then there is one pair per token, in order, and each pair is that token's parse. Otherwise the result is the error of the first token without `=`. |
| `RequestBody.LastWriteWinsKeys` | src/main.rs:148-151 | The body map's key set is exactly the set of keys that appear in the pairs. |
| `RequestBody.LastWriteWinsValues` | src/main.rs:148-151 | Each key in the body maps to the value of the last pair that has that key. |
| `RequestBody.EmptyBody` | src/main.rs:148 | No pairs give an empty body. |
| `RequestBody.InsertChangesOnlyItsKey` | src/main.rs:149-150 | Inserting one more pair adds its key and sets that key to its value. Every other key keeps its entry. |
| `RequestBody.DistinctKeysKeepEveryPair` | src/main.rs:148-151 | When no key repeats, every pair is in the body unchanged and the body has as many entries as there are pairs. |
| `RequestBody.BuildRequestBody` | src/main.rs:147-151 | The loop starts from an empty map and inserts each pair in order. Its result is the last-write-wins map: the keys of the pairs, each mapped to its last value. |
| `Dispatch.IssuedRequests` | src/main.rs:95-100 | `get` and `post` each issue exactly one request, and `put` and `delete` issue none. Every request goes to the command's URL. A GET has no body. A POST carries the map of the command's keys, each mapped to its last value. |
| `Dispatch.Run` | src/main.rs:88-102 | `put` and `delete` always succeed. `get` and `post` return the outcome of their single request and response exchange. A failure therefore always means that one request was issued. |
| `Dispatch.ParseCommand` | src/main.rs:21-53 | Given a URL that `parse_url` accepted, a subcommand keeps its variant and URL. Its arguments parse exactly when every body token contains `=`. The body then holds one pair per token, in order, each that token's parse. Otherwise the error is that of the first token without `=`. |
| `Dispatch.Main` | src/main.rs:88-102 | Given a URL that `parse_url` accepted, the program ends with an argument error exactly when some body token lacks `=`, and that error names the first such token. With well-formed tokens, `put` and `delete` succeed. `get` and `post` issue one request and succeed exactly when its exchange succeeds. A failure after parsing carries the error of that one exchange. |
| `Dispatch.MalformedTokenSendsNothing` | src/main.rs:66-82 | When token k is the first without `=`, the program fails with `MalformedPair` of token k. The result is the same whatever the exchange would do, so no request is sent. |
| `Dispatch.FirstMalformedExists` | src/main.rs:35-47 | Any body with a token lacking `=` has a first such token, so the first-token error clauses cover every malformed body. |
| `Dispatch.PostScenario` | src/main.rs:147-152 | `post <url> a=1 b=2` parses into the command with pairs (`a`, `1`) and (`b`, `2`), which sends the object {"a": "1", "b": "2"}. |
| `Dispatch.DuplicateKeyScenario` | src/main.rs:148-151 | `post <url> a=1 a=2` sends {"a": "2"}. |
| `Dispatch.MalformedScenario` | src/main.rs:66-82 | `post <url> malformed` ends the program with the argument error `MalformedPair("malformed")`, whatever the exchange would do. |

## Left out

- ParseCommand: does not reject malformed URLs and does not normalise them, because `parse_url` (src/main.rs:55-58) is left out. `parse_url` delegates to the `url` crate, which is not part of this model. The `url` of `Arguments` stands for the string `parse_url` returned.
- `parse_url` (src/main.rs:55-58) is left out. It delegates to the `url` crate's implementation of URL parsing in the WHATWG URL Standard, which is not part of this model. URLs in `SubCommand` are taken as already validated.
- The HTTP send and await in `do_get` and `do_post` (src/main.rs:142-154) are left out. So are reading the response text and the JSON serialisation of the map by serde. They are network I/O over foreign libraries. `Run` takes the whole request and response exchange as a function parameter, so it does not model the serialised byte order of the JSON object.
- Response printing is left out: `print_status`, `print_resp_header`, `print_resp_body`, `print_response` and `get_content_type` (src/main.rs:104-140). These are terminal output, MIME parsing and JSON pretty-printing by foreign crates. The panics of their `unwrap` calls are not modelled, and neither is the colouring.
- The clap argument structures, `Opts::parse()` and the debug `println!` (src/main.rs:14-53, 90-91) are left out. `ParseBody` and `ParseCommand` stand for clap applying `KvPair::from_str` to each positional token.
- `parse_request_body_kv_parir` (src/main.rs:84-86) only delegates to `KvPair::from_str`, and nothing calls it. It is modelled by `ParseKvPair` itself.
- HashMap's hashing and iteration order are not modelled. The body is a Dafny `map`, which has no order.
