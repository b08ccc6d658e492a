# MAC request authentication of tentd, modelled in Dafny

This project models tentd's helpers for HMAC request authentication in
`tentd/utils/auth.py`. They implement the `Authorization: MAC …` scheme of the
IETF draft "HTTP Authentication: MAC Access Authentication"
(draft-ietf-oauth-v2-http-mac-01). The modelled parts are:

- `parse_authstring` (tentd/utils/auth.py:31-50): parses the header into a dict of
  fields. The result can be `False`, a raised exception, or the dict.
  - `Auth.ParseAuth` is its functional specification.
  - `Auth.ParsePair` models one segment (line 47-48), and `Auth.ParsePairs` models
    the loop as a left fold (line 45-50).
  - `Auth.ParseAuthString` and `Auth.ParseSegments` are the imperative form.
- `normalize_request` (tentd/utils/auth.py:52-67): builds the seven-line normalized
  request string. It is modelled by `Auth.NormalizeRequest`, with `Auth.Ext` for
  line 63.
- `check_request` (tentd/utils/auth.py:69-83): compares the header's `mac` with the
  encoded HMAC-SHA256 of that string.
  - It is modelled by `Auth.CheckRequest`.
  - `base64.encodestring` (line 82) is modelled by `Auth.EncodeString`.
  - `Auth.CheckRequestFixed` is the corrected check described under "## Findings".
- `authenticate_response` (tentd/utils/auth.py:85-89): the 401 challenge, modelled by
  `Auth.AuthenticateResponse`.
- `require_authorization` (tentd/utils/auth.py:92-119): the decision logic of the view
  decorator. It either challenges, calls the view, or lets an exception out.
  `Auth.RequireAuthorization` is the decision (line 107-118), and `Auth.Wrapped` is
  what the wrapped view returns (line 101-119).
- The `str` operations used are `PyStr.Strip` (with `PyStr.LStrip` and `PyStr.RStrip`),
  `PyStr.Split`, `PyStr.SplitOnce`, `PyStr.Join` and `PyStr.Find`. `split` is used at
  line 43 and 47, `strip` at line 43, 47 and 48, and `join` at line 65-67.

Apart from the functions `PyStr.Find` and `PyStr.SplitOnce`, and the methods
`Auth.ParseAuthString` and `Auth.ParseSegments` (proved equal to `ParseAuth` and
`ParsePairs`), these members carry no contracts of their own. What they promise is stated by the lemmas in the "## Model" table.

Python exceptions become explicit outcomes. `AuthFields` is `Fail | Raise(e) | Ok(fields)`,
`Outcome<T>` is `Value(v) | Raised(e)`, and `Exception` is one of `TypeError`,
`AttributeError`, `ValueError` or `KeyError(key)`. Errors are reported in the order the
source evaluates them.

Files:

- `pystr.dfy` (module `PyStr`): the Python 2 `str` operations used. These are
  `strip` (its whitespace set is space, tab, LF, CR, VT and FF), `startswith`,
  `split(sep)`, `split(sep, 1)` and `sep.join`. It also holds their algebra:
  what split and join undo, and what strip leaves.
- `auth.dfy` (module `Auth`): the four helpers and the decorator.
  - `parse_authstring` is the method `ParseAuthString`. Its loop is the method
    `ParseSegments`, which fills the dict in place with a map invariant.
  - Both methods are proved equal to the functional specification `ParseAuth`.
  - The other helpers are pure functions.
  - HMAC-SHA256 and single-line base64 are fields of a `Crypto` value: library
    calls modelled as uninterpreted functions. `base64.encodestring` is written
    out on top of them, with its 57-byte lines, each ended by a line feed.
- `parse_lemmas.dfy` (module `ParseLemmas`): the three outcomes of the parser, the keys
  and values of its dict, and the round trip from a rendered `MAC k="v", …`
  header.
- `request_lemmas.dfy` (module `RequestLemmas`): the layout of the normalized
  string, what it covers, and when `check_request` accepts. Also sign-then-check
  for a request signed as a client would.
- `guard_lemmas.dfy` (module `GuardLemmas`): when the decorator challenges, calls
  through or propagates an exception.

Where the code departs from its docstrings (tentd/utils/auth.py:96-98 promise a
401 to clients that are not authenticated) and from the MAC draft it cites at
tentd/utils/auth.py:58, the model follows the code. The draft requires `id`, `ts`,
`nonce` and `mac`, and the request's real port.

- A header missing `id`, `ts`, `nonce` or `mac` is not a parse failure:
  `MAC id="1"` parses to `{id: "1"}` (`ParseLemmas.ParseLiteralIdOnly`). A missing
  field surfaces later, as a `KeyError` in `normalize_request`, `check_request`
  or the decorator.
- The port in the normalized string is always `80`.
- The decorator never checks the signature (`GuardLemmas.GuardIgnoresSignature`).
  Its read of `auth['id']` raises `KeyError` when the parsed header has no `id`
  (`GuardLemmas.GuardPropagateIff`).
- A malformed header (a segment with no `=`) is not a 401. It raises
  `ValueError`, which leaves the decorator.

## Model

| member | source | states |
|---|---|---|
| Auth.ParseAuthString | tentd/utils/auth.py:31-50 | the prefix test followed by the segment loop yields exactly the specified parse `ParseAuth` (False, ValueError, or the dict) |
| Auth.ParseSegments | tentd/utils/auth.py:43-50 | the loop over the segments keeps the dict equal to the fold of the segments seen so far; the first segment without `=` raises ValueError and the loop stops |
| PyStr.SplitOnce | tentd/utils/auth.py:47 | `split("=", 1)` gives one piece exactly when there is no `=`; otherwise two pieces, the first free of `=`, that rebuild the string around its first `=` |
| PyStr.SplitPieces | tentd/utils/auth.py:43 | `split(',')` gives at least one piece, no piece holds the separator, and every character of a piece comes from the input; with `PyStr.JoinSplit` this fixes the pieces |
| PyStr.JoinSplit | tentd/utils/auth.py:43 | joining the pieces of `split(sep)` with `sep` gives back the input string |
| PyStr.SplitJoin | tentd/utils/auth.py:65-67 | splitting a join on its separator gives back the parts when no part holds the separator |
| ParseLemmas.ParsePairsShape | tentd/utils/auth.py:45-50 | the loop either runs over every segment and yields the pairs assigned in order, or some segment has no `=` and it raises ValueError and yields no dict |
| ParseLemmas.ParseFailIff | tentd/utils/auth.py:38-41 | `False` is returned exactly when the header is absent or does not start with the case-sensitive literal `"MAC "` (the empty header included) |
| ParseLemmas.ParseRaiseIff | tentd/utils/auth.py:43-47 | past the prefix, parsing raises exactly when some stripped segment has no `=`, and the exception is ValueError |
| ParseLemmas.ParseEmptyRemainder | tentd/utils/auth.py:43-47 | `"MAC "` with nothing but whitespace after it raises ValueError |
| ParseLemmas.ParseTrailingComma | tentd/utils/auth.py:43-47 | a header whose remainder ends in a comma raises ValueError, however well formed the earlier segments are |
| ParseLemmas.ParsePairFirstEquals | tentd/utils/auth.py:47-48 | a segment is cut at its first `=` only: the key is the stripped text before it, and the value is the rest (later `=` kept) with the surrounding `"` removed |
| ParseLemmas.ParsePairNoneIff | tentd/utils/auth.py:47 | the unpacking of a segment fails exactly when its stripped form holds no `=` |
| ParseLemmas.MapOfKeys | tentd/utils/auth.py:45-48 | the dict built by assigning pairs in order has exactly the pairs' keys |
| ParseLemmas.MapOfLastWins | tentd/utils/auth.py:45-48 | a key maps to the value of its last pair |
| ParseLemmas.ParseOkFields | tentd/utils/auth.py:45-50 | on success every segment has an `=`, the dict's key set is exactly the set of segment keys, and each key holds the value of its last segment |
| ParseLemmas.ParseOkNonEmpty | tentd/utils/auth.py:43-50 | a dict returned by the parser is never empty |
| ParseLemmas.ParseValuesFromHeader | tentd/utils/auth.py:43-48 | every character of a parsed value occurs in the header |
| ParseLemmas.RenderParse | tentd/utils/auth.py:31-50 | round trip: non-empty wire-format fields, rendered as `MAC k1="v1", k2="v2", …` and parsed, give the dict of those fields (last value wins) |
| ParseLemmas.ParseLiteralFailures | tentd/utils/auth.py:39-41 | the empty header, `Basic abc`, lower-case `mac id="1"` and an absent header all give `False` |
| ParseLemmas.ParseLiteralIdOnly | tentd/utils/auth.py:43-50 | `MAC id="1"` parses to `{id: "1"}`: no field is required by the parser |
| ParseLemmas.ParseLiteralPadding | tentd/utils/auth.py:47 | the `==` padding of a base64 `mac` value survives the split at the first `=` |
| RequestLemmas.NormalizeOutcome | tentd/utils/auth.py:61-67 | the normalized string exists exactly when the header parses and has `ts` and `nonce`; an absent or non-MAC header raises AttributeError; a parse error passes through as ValueError; a missing `ts` raises KeyError("ts"); with `ts` present, a missing `nonce` raises KeyError("nonce") |
| RequestLemmas.NormalizeLines | tentd/utils/auth.py:62-67 | for every request that normalizes, the string is the seven lines ts, nonce, method, `path?query` (with `?` even for an empty query), host, `80`, ext (empty when absent), joined by line feeds in that order; splitting it on line feeds gives the seven lines back when none of them holds a line feed |
| RequestLemmas.NormalizeCovers | tentd/utils/auth.py:61-67 | two requests that agree on ts, nonce, ext, method, path, query and host normalize alike, whatever their other fields and bodies |
| RequestLemmas.EncodeDigest | tentd/utils/auth.py:82 | `base64.encodestring` of a 32-byte digest is one base64 line followed by a line feed |
| RequestLemmas.CheckRequestIff | tentd/utils/auth.py:75-83 | check_request answers exactly when the header parses with `mac`, `ts` and `nonce`, and then answers whether `mac` equals the encoded HMAC-SHA256 under the key of the normalized string; an absent or non-MAC header raises TypeError; a parse error passes through as ValueError; a parsed header without `mac` raises KeyError("mac"); with `mac` present, a missing `ts` raises KeyError("ts"), and then a missing `nonce` raises KeyError("nonce") |
| RequestLemmas.CheckRequestReads | tentd/utils/auth.py:75-83 | the answer depends only on the key, the header, the method, the path, the query and the host |
| RequestLemmas.CheckRequestNeverMatchesOneLine | tentd/utils/auth.py:82-83 | as written, a request whose header holds no line feed is never accepted |
| RequestLemmas.CheckRequestFixedIff | tentd/utils/auth.py:75-83 | the corrected check answers in the same cases, and accepts exactly the `mac` equal to the single base64 line of the HMAC-SHA256 |
| RequestLemmas.SignedNormalizes | tentd/utils/auth.py:61-67 | adding `mac` to a rendered header leaves the normalized string unchanged, so the signature covers what the check recomputes |
| RequestLemmas.SignThenCheck | tentd/utils/auth.py:69-83 | a request signed with `encodestring` of its HMAC is accepted under the signing key; under another key it is accepted exactly when the two tags are equal |
| RequestLemmas.SignThenCheckFixed | tentd/utils/auth.py:69-83 | a request signed with the single-line base64 of its HMAC passes the corrected check under the signing key; under another key it passes exactly when the tags are equal |
| GuardLemmas.GuardChallengeIff | tentd/utils/auth.py:85-110 | the challenge is sent exactly when the header is absent or not `MAC `: status 401, `WWW-Authenticate: MAC`, body `Invalid MAC Credentials` and a line feed |
| GuardLemmas.GuardInvokeIff | tentd/utils/auth.py:107-118 | the view is called exactly when the header parses and has `id`, and it is called with the wrapper's own arguments |
| GuardLemmas.GuardPropagateIff | tentd/utils/auth.py:107-113 | an exception leaves the wrapper exactly when parsing raises or the parsed header lacks `id`, and it is ValueError or KeyError("id") |
| GuardLemmas.WrappedResult | tentd/utils/auth.py:101-119 | the wrapper returns the view's result unchanged when it calls it; otherwise it returns the challenge, and only for an absent or non-MAC header |
| GuardLemmas.GuardIgnoresSignature | tentd/utils/auth.py:112-118 | a request whose `mac` fails check_request still reaches the view when its header parses with an `id` |
| GuardLemmas.GuardReadsOnlyHeader | tentd/utils/auth.py:107 | the decision reads only the `Authorization` header |

## Left out

- `generate_keypair` (tentd/utils/auth.py:25-29): it only feeds `getrandbits` into
  `sha256` and `md5` hex digests. There is no logic beyond randomness and library
  hashes.
- HMAC-SHA256 and the base64 line encoding are library code. They are
  uninterpreted function parameters (`Crypto`), so nothing is proved about the
  digests themselves.
  - The only fact used is that a digest is 32 bytes long.
  - The sign-then-check lemmas also assume that base64 output has no `,` or `"`
    (`Base64Safe`). Line splitting is modelled, but a 32-byte digest never needs
    a second line.
- The `KeyPair.objects.filter` query (tentd/utils/auth.py:113): it needs the document
  store, and its result is never used. Only its read of `auth['id']` is modelled.
- Flask's `request` and `Response`: they are plain records. The request holds the
  `Authorization` header, method, path, query string, host and body, and the
  response holds status, headers and body.
- `GuardLemmas.WrappedResult`: the view is a pure function applied once in the
  call-through branch. Its side effects, and the fact that it runs exactly once,
  are not modelled beyond that.
- Python 2's mixing of byte strings and `unicode` is not modelled. Every string is a
  `seq<char>`, and the model answers `Value(_)` in the cases below, where Python
  raises instead:
  - Flask gives `request.path` as `unicode` and `query_string` as a byte `str`.
    At tentd/utils/auth.py:62 and in the join at :65-67, Python 2 decodes a byte
    string as ASCII, so non-ASCII bytes raise `UnicodeDecodeError` there.
  - `hmac.new` at :80 encodes a unicode message as ASCII, so a non-ASCII path makes
    `check_request` raise `UnicodeEncodeError`.
  - `str(auth['ts'])` at :66 encodes a unicode `ts` as ASCII, so a non-ASCII `ts`
    raises `UnicodeEncodeError`.
- With a unicode header, `strip()` removes every Unicode whitespace character,
  not only the six characters of `PyStr.Whitespace`. The model strips only those six.
- `str(auth['ts'])` and `str(80)`: for a byte-string `ts`, `str` is the identity,
  and `str(80)` is the literal `"80"`.
- The four-field literal `MAC id="1", ts="2", nonce="3", mac="4"` is covered by the
  general round trip `ParseLemmas.RenderParse` rather than by a literal lemma.
- Replay protection, timestamp freshness and constant-time comparison: none of
  them exist in the source.
- tentd/models/profiles.py, tentd/blueprints/followers.py and the HTTP tests are not
  part of this model. They are ORM schema and route glue, and they touch the core
  only by applying the decorator.

## Findings

| source | as written | input that shows it | evidently intended | confidence | as-written member | corrected member |
|---|---|---|---|---|---|---|
| tentd/utils/auth.py:82-83 | the `mac` from the header is compared with `base64.encodestring(digest)`, which ends with a line feed | any request whose `Authorization` header contains no line feed, e.g. `MAC id="1", ts="2", nonce="3", mac="<correct base64>"` | compare with the base64 of the digest without the trailing newline (`base64.b64encode`) | not executed | RequestLemmas.CheckRequestNeverMatchesOneLine | RequestLemmas.SignThenCheckFixed |
