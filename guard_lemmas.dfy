/** What the `require_authorization` decorator (tentd/utils/auth.py:85-119)
    does: challenge, call through, or let an exception out, decided by the
    header alone and never by the signature. */
module GuardLemmas {
  import opened Auth
  import opened ParseLemmas

  /** The challenge is sent exactly when the header is absent or does not start
      with `"MAC "`; it is a 401 with `WWW-Authenticate: MAC` and the body
      `Invalid MAC Credentials` plus a line feed. */
  lemma GuardChallengeIff<A>(req: Request, args: A)
    ensures RequireAuthorization(req, args).Challenge? <==>
      req.authorization.None? || !(Scheme <= req.authorization.value)
    ensures RequireAuthorization(req, args).Challenge? ==>
      var resp := RequireAuthorization(req, args).response;
      && resp.status == 401
      && resp.headers == map["WWW-Authenticate" := "MAC"]
      && resp.body == "Invalid MAC Credentials\n"
  {
    ParseFailIff(req.authorization);
    if ParseAuth(req.authorization).Ok? {
      ParseOkNonEmpty(req.authorization);
    }
  }

  /** The view is called, with the very arguments the wrapper got, exactly when
      the header parses and has an `id` field. */
  lemma GuardInvokeIff<A>(req: Request, args: A)
    ensures RequireAuthorization(req, args).Invoke? <==>
      ParseAuth(req.authorization).Ok? && "id" in ParseAuth(req.authorization).fields
    ensures RequireAuthorization(req, args).Invoke? ==> RequireAuthorization(req, args).args == args
  {
    if ParseAuth(req.authorization).Ok? {
      ParseOkNonEmpty(req.authorization);
    }
  }

  /** An exception leaves the wrapper exactly when the header starts with
      `"MAC "` but a segment has no `=` (`ValueError`), or when it parses
      without an `id` field (`KeyError` on `auth['id']`). */
  lemma GuardPropagateIff<A>(req: Request, args: A)
    ensures RequireAuthorization(req, args).Propagate? <==>
      ParseAuth(req.authorization).Raise? ||
      (ParseAuth(req.authorization).Ok? && "id" !in ParseAuth(req.authorization).fields)
    ensures RequireAuthorization(req, args).Propagate? ==>
      RequireAuthorization(req, args).error in {ValueError, KeyError("id")}
  {
    if ParseAuth(req.authorization).Ok? {
      ParseOkNonEmpty(req.authorization);
    }
    if req.authorization.Some? {
      ParseRaiseIff(req.authorization.value);
    }
  }

  /** What the wrapped view returns: the view's own result, unchanged, when it
      is called; the challenge, or the exception, otherwise. */
  lemma WrappedResult<A, R>(req: Request, view: A -> R, args: A)
    ensures Wrapped(req, view, args).Returned? <==> RequireAuthorization(req, args).Invoke?
    ensures Wrapped(req, view, args).Returned? ==> Wrapped(req, view, args).result == view(args)
    ensures Wrapped(req, view, args).Responded? ==>
      Wrapped(req, view, args).response == AuthenticateResponse() &&
      (req.authorization.None? || !(Scheme <= req.authorization.value))
  {
    GuardChallengeIff(req, args);
  }

  /** No signature check: a request whose `mac` does not verify under any key
      still reaches the view, as long as its header parses with an `id`. */
  lemma GuardIgnoresSignature<A, R>(req: Request, view: A -> R, args: A, key: string, crypto: Crypto)
    requires CheckRequest(req, key, crypto) == Value(false)
    requires "id" in ParseAuth(req.authorization).fields
    ensures Wrapped(req, view, args) == Returned(view(args))
  {
    GuardInvokeIff(req, args);
  }

  /** The decision reads the `Authorization` header and nothing else of the request. */
  lemma GuardReadsOnlyHeader<A>(req1: Request, req2: Request, args: A)
    requires req1.authorization == req2.authorization
    ensures RequireAuthorization(req1, args) == RequireAuthorization(req2, args)
  {
  }
}
