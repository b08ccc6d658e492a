/** What `normalize_request` and `check_request` (tentd/utils/auth.py:52-83)
    promise: the layout of the normalized request string, which parts of a
    request it covers, and when a request's `mac` is accepted. */
module RequestLemmas {
  import opened PyStr
  import opened Auth
  import opened ParseLemmas

  // ---------------------------------------------------------------------------
  // normalize_request

  /** The normalized string exists exactly when the header parses and carries
      `ts` and `nonce`; an absent or non-`MAC` header raises `AttributeError`,
      a missing `ts` is reported before a missing `nonce`. */
  lemma NormalizeOutcome(req: Request)
    ensures NormalizeRequest(req).Value? <==>
      ParseAuth(req.authorization).Ok? &&
      "ts" in ParseAuth(req.authorization).fields && "nonce" in ParseAuth(req.authorization).fields
    ensures req.authorization.None? || !(Scheme <= req.authorization.value) ==>
      NormalizeRequest(req) == Raised(AttributeError)
    ensures ParseAuth(req.authorization).Ok? && "ts" !in ParseAuth(req.authorization).fields ==>
      NormalizeRequest(req) == Raised(KeyError("ts"))
    ensures var a := ParseAuth(req.authorization);
      a.Ok? && "ts" in a.fields && "nonce" !in a.fields ==> NormalizeRequest(req) == Raised(KeyError("nonce"))
    ensures ParseAuth(req.authorization).Raise? ==> NormalizeRequest(req) == Raised(ValueError)
  {
    if req.authorization.Some? {
      ParseRaiseIff(req.authorization.value);
    }
    ParseFailIff(req.authorization);
  }

  /** The normalized string is the seven lines `ts`, `nonce`, method,
      `path?query` (the `?` even for an empty query), host, `80` and `ext`
      (empty when absent), joined by line feeds in that order; splitting it
      on line feeds gives them back whenever none of them holds a line feed. */
  lemma NormalizeLines(req: Request)
    requires NormalizeRequest(req).Value?
    ensures ParseAuth(req.authorization).Ok?
    ensures var m := ParseAuth(req.authorization).fields;
      && "ts" in m && "nonce" in m
      && var lines := [m["ts"], m["nonce"], req.verb, req.path + "?" + req.query,
                       req.host, "80", if "ext" in m then m["ext"] else ""];
         && NormalizeRequest(req).value == Join("\n", lines)
         && ((forall i :: 0 <= i < |lines| ==> '\n' !in lines[i]) ==>
               Split(NormalizeRequest(req).value, '\n') == lines)
  {
    var m := ParseAuth(req.authorization).fields;
    var lines := [m["ts"], m["nonce"], req.verb, req.path + "?" + req.query,
                  req.host, "80", if "ext" in m then m["ext"] else ""];
    if forall i :: 0 <= i < |lines| ==> '\n' !in lines[i] {
      SplitJoin(lines, '\n');
    }
  }

  /** The normalized string covers only `ts`, `nonce` and `ext` of the header
      and the method, path, query and host of the request: `id`, `mac`, any
      other field and the body are not signed. */
  lemma NormalizeCovers(req1: Request, req2: Request)
    requires ParseAuth(req1.authorization).Ok? && ParseAuth(req2.authorization).Ok?
    requires var m1, m2 := ParseAuth(req1.authorization).fields, ParseAuth(req2.authorization).fields;
      && (forall k :: k in {"ts", "nonce", "ext"} ==> (k in m1 <==> k in m2))
      && (forall k :: k in {"ts", "nonce", "ext"} && k in m1 ==> m1[k] == m2[k])
    requires req1.verb == req2.verb && req1.path == req2.path
    requires req1.query == req2.query && req1.host == req2.host
    ensures NormalizeRequest(req1) == NormalizeRequest(req2)
  {
    var m1, m2 := ParseAuth(req1.authorization).fields, ParseAuth(req2.authorization).fields;
    assert "ts" in {"ts", "nonce", "ext"} && "nonce" in {"ts", "nonce", "ext"};
    assert "ext" in {"ts", "nonce", "ext"};
  }

  // ---------------------------------------------------------------------------
  // check_request

  /** `base64.encodestring` of an HMAC-SHA256 digest is a single base64 line
      followed by a line feed. */
  lemma EncodeDigest(crypto: Crypto, d: Digest)
    ensures EncodeString(crypto, d) == crypto.base64Line(d) + "\n"
  {
  }

  /** `check_request` answers exactly when the header parses and carries `mac`,
      `ts` and `nonce`, and then answers whether `mac` equals the encoded
      HMAC-SHA256, under `key`, of the normalized request string. */
  lemma CheckRequestIff(req: Request, key: string, crypto: Crypto)
    ensures CheckRequest(req, key, crypto).Value? <==>
      ParseAuth(req.authorization).Ok? &&
      var m := ParseAuth(req.authorization).fields; "mac" in m && "ts" in m && "nonce" in m
    ensures CheckRequest(req, key, crypto).Value? ==>
      NormalizeRequest(req).Value? &&
      CheckRequest(req, key, crypto).value ==
        (ParseAuth(req.authorization).fields["mac"]
           == crypto.base64Line(crypto.hmacSha256(key, NormalizeRequest(req).value)) + "\n")
    ensures req.authorization.None? || !(Scheme <= req.authorization.value) ==>
      CheckRequest(req, key, crypto) == Raised(TypeError)
    ensures ParseAuth(req.authorization).Ok? && "mac" !in ParseAuth(req.authorization).fields ==>
      CheckRequest(req, key, crypto) == Raised(KeyError("mac"))
    ensures ParseAuth(req.authorization).Raise? ==> CheckRequest(req, key, crypto) == Raised(ValueError)
    ensures var a := ParseAuth(req.authorization);
      a.Ok? && "mac" in a.fields && "ts" !in a.fields ==> CheckRequest(req, key, crypto) == Raised(KeyError("ts"))
    ensures var a := ParseAuth(req.authorization);
      a.Ok? && "mac" in a.fields && "ts" in a.fields && "nonce" !in a.fields ==>
        CheckRequest(req, key, crypto) == Raised(KeyError("nonce"))
  {
    if req.authorization.Some? {
      ParseRaiseIff(req.authorization.value);
    }
    ParseFailIff(req.authorization);
    if NormalizeRequest(req).Value? {
      EncodeDigest(crypto, crypto.hmacSha256(key, NormalizeRequest(req).value));
    }
  }

  /** As written, `check_request` accepts only a `mac` that ends with a line feed:
      a request whose `Authorization` header holds no line feed is never accepted,
      however it was signed. */
  lemma CheckRequestNeverMatchesOneLine(req: Request, key: string, crypto: Crypto)
    requires req.authorization.Some? && '\n' !in req.authorization.value
    ensures CheckRequest(req, key, crypto) != Value(true)
  {
    CheckRequestIff(req, key, crypto);
    if CheckRequest(req, key, crypto).Value? {
      var header := req.authorization.value;
      var m := ParseAuth(req.authorization).fields;
      ParseValuesFromHeader(header, "mac");
      assert '\n' !in m["mac"];
      var expected := crypto.base64Line(crypto.hmacSha256(key, NormalizeRequest(req).value)) + "\n";
      assert expected[|expected| - 1] == '\n';
      assert m["mac"] != expected;
    }
  }

  /** The corrected check accepts exactly the `mac` equal to the single base64
      line of the HMAC-SHA256, under `key`, of the normalized request string. */
  lemma CheckRequestFixedIff(req: Request, key: string, crypto: Crypto)
    ensures CheckRequestFixed(req, key, crypto).Value? <==> CheckRequest(req, key, crypto).Value?
    ensures CheckRequestFixed(req, key, crypto).Value? ==>
      NormalizeRequest(req).Value? &&
      CheckRequestFixed(req, key, crypto).value ==
        (ParseAuth(req.authorization).fields["mac"]
           == crypto.base64Line(crypto.hmacSha256(key, NormalizeRequest(req).value)))
  {
  }

  /** The answer of `check_request` depends on the key and on the request's
      header, method, path, query and host only; the body is never read. */
  lemma CheckRequestReads(req1: Request, req2: Request, key: string, crypto: Crypto)
    requires req1.authorization == req2.authorization && req1.verb == req2.verb
    requires req1.path == req2.path && req1.query == req2.query && req1.host == req2.host
    ensures CheckRequest(req1, key, crypto) == CheckRequest(req2, key, crypto)
  {
  }

  // ---------------------------------------------------------------------------
  // Signing a request, as a client does

  /** The request with a `MAC` header of `fields` followed by
      `mac="<sign(normalized string)>"`. */
  function Sign(req: Request, fields: seq<(string, string)>, sign: string -> string): Request
  {
    var unsigned := req.(authorization := Some(Render(fields)));
    match NormalizeRequest(unsigned)
    case Value(n) => req.(authorization := Some(Render(fields + [("mac", sign(n))])))
    case Raised(_) => unsigned
  }

  /** Base64 output has no comma and no double quote. */
  ghost predicate Base64Safe(crypto: Crypto)
  {
    forall d: Digest :: WireValue(crypto.base64Line(d))
  }

  /** Under `Base64Safe`, the base64 line of a digest can be carried as a value. */
  lemma SafeLine(crypto: Crypto, d: Digest)
    requires Base64Safe(crypto)
    ensures WireValue(crypto.base64Line(d))
  {
  }

  /** `mac` is a key the wire format can carry. */
  lemma MacIsWireKey()
    ensures WireKey("mac")
  {
    assert "mac" == ['m', 'a', 'c'];
  }

  /** Appending `mac="<sig>"` to a rendered header adds `mac` to its dict. */
  lemma SignedFields(fields: seq<(string, string)>, sig: string)
    requires |fields| >= 1 && WireFields(fields) && WireValue(sig)
    ensures ParseAuth(Some(Render(fields + [("mac", sig)]))) == Ok(MapOf(fields)["mac" := sig])
  {
    var all := fields + [("mac", sig)];
    MacIsWireKey();
    assert WireFields(all) by {
      forall i | 0 <= i < |all| ensures WireKey(all[i].0) && WireValue(all[i].1) {
        if i < |fields| { assert all[i] == fields[i]; }
      }
    }
    RenderParse(all);
    assert all[..|fields|] == fields;
  }

  /** `mac` is none of the fields the normalized string reads. */
  lemma MacNotSigned()
    ensures "mac" != "ts" && "mac" != "nonce" && "mac" != "ext"
  {
    assert "mac"[0] != "ts"[0] && "mac"[0] != "nonce"[0] && "mac"[0] != "ext"[0];
  }

  /** Two headers whose dicts differ only in `mac` normalize alike. */
  lemma MacChangesNothing(req: Request, h1: string, h2: string, m: map<string, string>, sig: string)
    requires ParseAuth(Some(h1)) == Ok(m) && ParseAuth(Some(h2)) == Ok(m["mac" := sig])
    requires "ts" in m && "nonce" in m
    ensures NormalizeRequest(req.(authorization := Some(h1))).Value?
    ensures NormalizeRequest(req.(authorization := Some(h1))) == NormalizeRequest(req.(authorization := Some(h2)))
  {
    MacNotSigned();
    var m2 := m["mac" := sig];
    assert m2["ts"] == m["ts"] && m2["nonce"] == m["nonce"] && Ext(m2) == Ext(m);
  }

  /** Adding `mac` to a rendered header leaves the normalized string as it was
      before signing. */
  lemma SignedNormalizes(req: Request, fields: seq<(string, string)>, sig: string)
    requires |fields| >= 1 && WireFields(fields) && WireValue(sig)
    requires "ts" in MapOf(fields) && "nonce" in MapOf(fields)
    ensures var unsigned := req.(authorization := Some(Render(fields)));
      var signed := req.(authorization := Some(Render(fields + [("mac", sig)])));
      && NormalizeRequest(unsigned).Value?
      && NormalizeRequest(signed) == NormalizeRequest(unsigned)
      && ParseAuth(signed.authorization) == Ok(MapOf(fields)["mac" := sig])
  {
    RenderParse(fields);
    SignedFields(fields, sig);
    MacChangesNothing(req, Render(fields), Render(fields + [("mac", sig)]), MapOf(fields), sig);
  }

  /** A signed request carries `mac="<sign(n)>"` after the fields, where `n` is
      the normalized string of the unsigned request. */
  lemma SignedRequest(req: Request, fields: seq<(string, string)>, sign: string -> string, n: string)
    requires NormalizeRequest(req.(authorization := Some(Render(fields)))) == Value(n)
    ensures Sign(req, fields, sign) == req.(authorization := Some(Render(fields + [("mac", sign(n))])))
  {
  }

  /** `check_request`, as written, once the dict and the normalized string are known. */
  lemma CheckOf(req: Request, m: map<string, string>, n: string, key: string, crypto: Crypto)
    requires ParseAuth(req.authorization) == Ok(m) && "mac" in m && NormalizeRequest(req) == Value(n)
    ensures CheckRequest(req, key, crypto) == Value(m["mac"] == EncodeString(crypto, crypto.hmacSha256(key, n)))
  {
  }

  /** The corrected check, once the dict and the normalized string are known. */
  lemma CheckFixedOf(req: Request, m: map<string, string>, n: string, key: string, crypto: Crypto)
    requires ParseAuth(req.authorization) == Ok(m) && "mac" in m && NormalizeRequest(req) == Value(n)
    ensures CheckRequestFixed(req, key, crypto) == Value(m["mac"] == crypto.base64Line(crypto.hmacSha256(key, n)))
  {
  }

  /** Sign then check, as written: a request signed with `base64.encodestring`
      (its trailing line feed carried inside the quoted `mac`) is accepted under
      the signing key, and under another key exactly when that key's tag is the same. */
  lemma SignThenCheck(req: Request, fields: seq<(string, string)>, key: string, other: string, crypto: Crypto)
    requires |fields| >= 1 && WireFields(fields) && Base64Safe(crypto)
    requires "ts" in MapOf(fields) && "nonce" in MapOf(fields)
    ensures var signed := Sign(req, fields, n => EncodeString(crypto, crypto.hmacSha256(key, n)));
      && NormalizeRequest(signed).Value?
      && CheckRequest(signed, key, crypto) == Value(true)
      && CheckRequest(signed, other, crypto) ==
           Value(EncodeString(crypto, crypto.hmacSha256(other, NormalizeRequest(signed).value))
                 == EncodeString(crypto, crypto.hmacSha256(key, NormalizeRequest(signed).value)))
  {
    var unsigned := req.(authorization := Some(Render(fields)));
    RenderParse(fields);
    var n := NormalizeRequest(unsigned).value;
    var d: Digest := crypto.hmacSha256(key, n);
    var sign := n => EncodeString(crypto, crypto.hmacSha256(key, n));
    var sig := EncodeString(crypto, d);
    var line := crypto.base64Line(d);
    SafeLine(crypto, d);
    EncodeDigest(crypto, d);
    assert sig == line + "\n";
    assert WireValue(sig) by {
      assert sig[|sig| - 1] == '\n';
      assert sig[0] != '"' by { if line == "" { assert sig[0] == '\n'; } else { assert sig[0] == line[0]; } }
      assert ',' !in sig by { assert forall c :: c in sig ==> c in line || c == '\n'; }
    }
    SignedNormalizes(req, fields, sig);
    var signed := req.(authorization := Some(Render(fields + [("mac", sig)])));
    SignedRequest(req, fields, sign, n);
    assert Sign(req, fields, sign) == signed;
    var m := MapOf(fields)["mac" := sig];
    CheckOf(signed, m, n, key, crypto);
    CheckOf(signed, m, n, other, crypto);
  }

  /** Sign then check, corrected: a request signed with the single-line base64
      of its HMAC-SHA256 is accepted under the signing key, and under another
      key exactly when that key's tag is the same. */
  lemma SignThenCheckFixed(req: Request, fields: seq<(string, string)>, key: string, other: string, crypto: Crypto)
    requires |fields| >= 1 && WireFields(fields) && Base64Safe(crypto)
    requires "ts" in MapOf(fields) && "nonce" in MapOf(fields)
    ensures var signed := Sign(req, fields, n => crypto.base64Line(crypto.hmacSha256(key, n)));
      && NormalizeRequest(signed).Value?
      && CheckRequestFixed(signed, key, crypto) == Value(true)
      && CheckRequestFixed(signed, other, crypto) ==
           Value(crypto.base64Line(crypto.hmacSha256(other, NormalizeRequest(signed).value))
                 == crypto.base64Line(crypto.hmacSha256(key, NormalizeRequest(signed).value)))
  {
    var unsigned := req.(authorization := Some(Render(fields)));
    RenderParse(fields);
    var n := NormalizeRequest(unsigned).value;
    var d: Digest := crypto.hmacSha256(key, n);
    var sign := n => crypto.base64Line(crypto.hmacSha256(key, n));
    var sig := crypto.base64Line(d);
    SafeLine(crypto, d);
    SignedNormalizes(req, fields, sig);
    var signed := req.(authorization := Some(Render(fields + [("mac", sig)])));
    SignedRequest(req, fields, sign, n);
    assert Sign(req, fields, sign) == signed;
    var m := MapOf(fields)["mac" := sig];
    CheckFixedOf(signed, m, n, key, crypto);
    CheckFixedOf(signed, m, n, other, crypto);
  }
}
