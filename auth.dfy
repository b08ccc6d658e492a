/** The MAC request-authentication helpers of tentd (tentd/utils/auth.py):
    parsing the `Authorization: MAC …` header, building the normalized request
    string of the HTTP MAC draft, checking a request's signature, the 401
    challenge and the view guard. Python exceptions are explicit outcomes. */
module Auth {
  import opened PyStr

  /** The Python exceptions the helpers can raise on malformed input. */
  datatype Exception =
    | TypeError          // subscripting `False`
    | AttributeError     // calling `has_key` on `False`
    | ValueError         // unpacking a segment that has no `=`
    | KeyError(key: string)

  /** What `parse_authstring` yields: `False`, an exception, or the dict of fields. */
  datatype AuthFields = Fail | Raise(error: Exception) | Ok(fields: map<string, string>)

  /** A value or the exception raised while computing it. */
  datatype Outcome<T> = Value(value: T) | Raised(error: Exception)

  /** The parts of a Flask request the helpers read (`body` is never read). */
  datatype Request = Request(
    authorization: Option<string>,  // request.headers.get('Authorization')
    verb: string,                   // request.method
    path: string,
    query: string,                  // request.query_string
    host: string,
    body: string)

  datatype Response = Response(status: int, headers: map<string, string>, body: string)

  /** The literal the header must start with, trailing space included. */
  const Scheme: string := "MAC "
  const Quote: set<char> := {'"'}
  /** The port written into every normalized request string. */
  const Port: string := "80"

  /** An HMAC-SHA256 digest is 32 bytes. */
  type Digest = d: seq<bv8> | |d| == 32 witness seq(32, _ => 0)

  /** The library code the helpers call into, left uninterpreted:
      `hmac.new(key, msg, sha256).digest()` and `binascii.b2a_base64`
      without the newline it appends. */
  datatype Crypto = Crypto(
    hmacSha256: (string, string) -> Digest,
    base64Line: seq<bv8> -> string)

  // ---------------------------------------------------------------------------
  // parse_authstring

  /** The comma-separated segments after the scheme literal. */
  function Segments(header: string): seq<string>
    requires Scheme <= header
  {
    Split(Strip(header[|Scheme|..], Whitespace), ',')
  }

  /** `key, value = pair.strip().split("=", 1)` followed by `value.strip('"')`;
      `None` where the unpacking raises. */
  function ParsePair(segment: string): Option<(string, string)>
  {
    var parts := SplitOnce(Strip(segment, Whitespace), '=');
    if |parts| == 2 then Some((parts[0], Strip(parts[1], Quote))) else None
  }

  /** The loop of `parse_authstring` over its segments, as a left fold:
      each segment's key is (re)assigned, and the first bad segment raises. */
  function ParsePairs(segments: seq<string>): AuthFields
    decreases |segments|
  {
    if |segments| == 0 then Ok(map[])
    else
      match ParsePairs(segments[..|segments| - 1])
      case Ok(m) =>
        (match ParsePair(segments[|segments| - 1])
         case None => Raise(ValueError)
         case Some(kv) => Ok(m[kv.0 := kv.1]))
      case other => other
  }

  /** One more segment on top of a successful prefix. */
  lemma ParsePairsStep(segments: seq<string>, i: nat, m: map<string, string>)
    requires i < |segments| && ParsePairs(segments[..i]) == Ok(m)
    ensures ParsePairs(segments[..i + 1]) ==
      match ParsePair(segments[i])
      case None => Raise(ValueError)
      case Some(kv) => Ok(m[kv.0 := kv.1])
  {
    assert segments[..i + 1][..i] == segments[..i];
  }

  /** Once a segment has raised, later segments change nothing. */
  lemma {:induction false} RaiseSticks(segments: seq<string>, i: nat)
    requires i <= |segments| && ParsePairs(segments[..i]).Raise?
    ensures ParsePairs(segments) == ParsePairs(segments[..i])
    decreases |segments| - i
  {
    if i < |segments| {
      assert segments[..i + 1][..i] == segments[..i];
      RaiseSticks(segments, i + 1);
    } else {
      assert segments[..i] == segments;
    }
  }

  /** `parse_authstring(authstring)`. */
  function ParseAuth(header: Option<string>): AuthFields
  {
    if header.None? || header.value == "" || !(Scheme <= header.value) then Fail
    else ParsePairs(Segments(header.value))
  }

  /** `parse_authstring` as the source writes it: the prefix test, then a loop
      filling `avars` segment by segment. */
  method ParseAuthString(header: Option<string>) returns (auth: AuthFields)
    ensures auth == ParseAuth(header)
  {
    if header.None? || header.value == "" || !(Scheme <= header.value) {
      return Fail;
    }
    var pairs := Split(Strip(header.value[4..], Whitespace), ',');
    auth := ParseSegments(pairs);
  }

  /** The `for pair in pairs` loop of `parse_authstring`. */
  method ParseSegments(pairs: seq<string>) returns (auth: AuthFields)
    ensures auth == ParsePairs(pairs)
  {
    var avars: map<string, string> := map[];
    var i := 0;
    while i < |pairs|
      invariant 0 <= i <= |pairs|
      invariant ParsePairs(pairs[..i]) == Ok(avars)
    {
      ParsePairsStep(pairs, i, avars);
      var parts := SplitOnce(Strip(pairs[i], Whitespace), '=');
      if |parts| != 2 {
        RaiseSticks(pairs, i + 1);
        return Raise(ValueError);
      }
      avars := avars[parts[0] := Strip(parts[1], Quote)];
      i := i + 1;
    }
    assert pairs[..i] == pairs;
    auth := Ok(avars);
  }

  // ---------------------------------------------------------------------------
  // normalize_request

  /** `auth['ext'] if auth.has_key('ext') else ""`. */
  function Ext(fields: map<string, string>): string
  {
    if "ext" in fields then fields["ext"] else ""
  }

  /** `normalize_request(request)`: the seven lines of the normalized request
      string, or the exception raised on the way. */
  function NormalizeRequest(req: Request): Outcome<string>
  {
    match ParseAuth(req.authorization)
    case Fail => Raised(AttributeError)
    case Raise(e) => Raised(e)
    case Ok(m) =>
      if "ts" !in m then Raised(KeyError("ts"))
      else if "nonce" !in m then Raised(KeyError("nonce"))
      else Value(Join("\n", [m["ts"], m["nonce"], req.verb,
                             req.path + "?" + req.query, req.host, Port, Ext(m)]))
  }

  // ---------------------------------------------------------------------------
  // check_request

  /** Bytes per line of `base64.encodestring` (76 output characters). */
  const LineBytes: nat := 57

  /** `base64.encodestring(data)`: one newline-terminated base64 line per
      57-byte chunk, and the empty string for no data. */
  function EncodeString(crypto: Crypto, data: seq<bv8>): string
    decreases |data|
  {
    if |data| == 0 then ""
    else if |data| <= LineBytes then crypto.base64Line(data) + "\n"
    else crypto.base64Line(data[..LineBytes]) + "\n" + EncodeString(crypto, data[LineBytes..])
  }

  /** `check_request(request, key)`. */
  function CheckRequest(req: Request, key: string, crypto: Crypto): Outcome<bool>
  {
    match ParseAuth(req.authorization)
    case Fail => Raised(TypeError)
    case Raise(e) => Raised(e)
    case Ok(m) =>
      if "mac" !in m then Raised(KeyError("mac"))
      else match NormalizeRequest(req)
        case Raised(e) => Raised(e)
        case Value(norm) => Value(m["mac"] == EncodeString(crypto, crypto.hmacSha256(key, norm)))
  }

  /** `check_request` with `base64.b64encode` (no trailing newline) in place of
      `base64.encodestring`. */
  function CheckRequestFixed(req: Request, key: string, crypto: Crypto): Outcome<bool>
  {
    match ParseAuth(req.authorization)
    case Fail => Raised(TypeError)
    case Raise(e) => Raised(e)
    case Ok(m) =>
      if "mac" !in m then Raised(KeyError("mac"))
      else match NormalizeRequest(req)
        case Raised(e) => Raised(e)
        case Value(norm) => Value(m["mac"] == crypto.base64Line(crypto.hmacSha256(key, norm)))
  }

  // ---------------------------------------------------------------------------
  // authenticate_response and require_authorization

  /** `authenticate_response()`: the 401 challenge. */
  function AuthenticateResponse(): Response
  {
    Response(401, map["WWW-Authenticate" := "MAC"], "Invalid MAC Credentials\n")
  }

  /** What the `wrapped` function of `require_authorization` does next. */
  datatype Decision<A> = Challenge(response: Response) | Invoke(args: A) | Propagate(error: Exception)

  /** The decision logic of `wrapped(*args, **kwargs)`: a falsy parse result
      gets the challenge; otherwise `auth['id']` is read for the key-pair query
      (whose result is never used) and the view is called with `args`. */
  function RequireAuthorization<A>(req: Request, args: A): Decision<A>
  {
    match ParseAuth(req.authorization)
    case Raise(e) => Propagate(e)
    case Fail => Challenge(AuthenticateResponse())
    case Ok(m) =>
      if |m| == 0 then Challenge(AuthenticateResponse())
      else if "id" !in m then Propagate(KeyError("id"))
      else Invoke(args)
  }

  /** What the wrapped view hands back to Flask. */
  datatype Reply<R> = Responded(response: Response) | Returned(result: R) | Threw(error: Exception)

  /** `require_authorization(view)(*args)`. */
  function Wrapped<A, R>(req: Request, view: A -> R, args: A): Reply<R>
  {
    match RequireAuthorization(req, args)
    case Challenge(resp) => Responded(resp)
    case Invoke(a) => Returned(view(a))
    case Propagate(e) => Threw(e)
  }
}
