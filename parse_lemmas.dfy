/** What `parse_authstring` (tentd/utils/auth.py:31-50) promises: when it
    answers `False`, when it raises, which keys and values the dict holds,
    and that it reads back a header written in the wire format. */
module ParseLemmas {
  import opened PyStr
  import opened Auth

  // ---------------------------------------------------------------------------
  // The fields a successful parse collects

  /** Every segment has an `=`: the loop runs to the end. */
  predicate AllPairs(segments: seq<string>)
  {
    forall i :: 0 <= i < |segments| ==> ParsePair(segments[i]).Some?
  }

  /** The key/value pair of each segment, in order. */
  function Entries(segments: seq<string>): (r: seq<(string, string)>)
    requires AllPairs(segments)
    ensures |r| == |segments|
    ensures forall i :: 0 <= i < |segments| ==> r[i] == ParsePair(segments[i]).value
  {
    seq(|segments|, i requires 0 <= i < |segments| => ParsePair(segments[i]).value)
  }

  /** The dict obtained by assigning the pairs in order, so a later pair
      overrides an earlier one with the same key. */
  function MapOf(kvs: seq<(string, string)>): map<string, string>
    decreases |kvs|
  {
    if |kvs| == 0 then map[]
    else MapOf(kvs[..|kvs| - 1])[kvs[|kvs| - 1].0 := kvs[|kvs| - 1].1]
  }

  /** No later pair has the same key as pair `i`. */
  predicate LastOccurrence(kvs: seq<(string, string)>, i: nat)
    requires i < |kvs|
  {
    forall j :: i < j < |kvs| ==> kvs[j].0 != kvs[i].0
  }

  /** The keys of the dict are exactly the keys of the pairs. */
  lemma {:induction false} MapOfKeys(kvs: seq<(string, string)>)
    ensures MapOf(kvs).Keys == set i | 0 <= i < |kvs| :: kvs[i].0
    decreases |kvs|
  {
    if |kvs| > 0 {
      var front := kvs[..|kvs| - 1];
      MapOfKeys(front);
      assert forall i :: 0 <= i < |front| ==> front[i] == kvs[i];
      assert (set i | 0 <= i < |kvs| :: kvs[i].0)
          == (set i | 0 <= i < |front| :: front[i].0) + {kvs[|kvs| - 1].0};
    }
  }

  /** The value of a key is the value of its last pair. */
  lemma {:induction false} MapOfLastWins(kvs: seq<(string, string)>, i: nat)
    requires i < |kvs| && LastOccurrence(kvs, i)
    ensures kvs[i].0 in MapOf(kvs) && MapOf(kvs)[kvs[i].0] == kvs[i].1
    decreases |kvs|
  {
    if i < |kvs| - 1 {
      var front := kvs[..|kvs| - 1];
      assert LastOccurrence(front, i) by {
        forall j | i < j < |front| ensures front[j].0 != front[i].0 {
          assert front[j] == kvs[j];
        }
      }
      MapOfLastWins(front, i);
    }
  }

  /** Every value of the dict is the value of some pair. */
  lemma {:induction false} MapOfValues(kvs: seq<(string, string)>, k: string)
    requires k in MapOf(kvs)
    ensures exists i :: 0 <= i < |kvs| && kvs[i] == (k, MapOf(kvs)[k])
    decreases |kvs|
  {
    var last := kvs[|kvs| - 1];
    if last.0 != k {
      var front := kvs[..|kvs| - 1];
      MapOfValues(front, k);
      var i :| 0 <= i < |front| && front[i] == (k, MapOf(front)[k]);
      assert kvs[i] == front[i];
    } else {
      assert kvs[|kvs| - 1] == (k, MapOf(kvs)[k]);
    }
  }

  /** Every segment has an `=` exactly when every earlier one and the last one do. */
  lemma AllPairsSnoc(segments: seq<string>)
    requires |segments| > 0
    ensures AllPairs(segments) <==>
      AllPairs(segments[..|segments| - 1]) && ParsePair(segments[|segments| - 1]).Some?
  {
    var front := segments[..|segments| - 1];
    assert forall i :: 0 <= i < |front| ==> front[i] == segments[i];
  }

  /** The pairs of all segments but the last are the pairs of the front. */
  lemma EntriesFront(segments: seq<string>)
    requires |segments| > 0 && AllPairs(segments)
    ensures AllPairs(segments[..|segments| - 1])
    ensures Entries(segments)[..|segments| - 1] == Entries(segments[..|segments| - 1])
  {
    var front := segments[..|segments| - 1];
    AllPairsSnoc(segments);
    var e := Entries(segments);
    forall i | 0 <= i < |front| ensures e[i] == Entries(front)[i] {
      assert segments[i] == front[i];
    }
  }

  /** The loop either runs to the end and yields the pairs assigned in order,
      or some segment has no `=` and the unpacking raises `ValueError`. */
  lemma {:induction false} ParsePairsShape(segments: seq<string>)
    ensures ParsePairs(segments) ==
      if AllPairs(segments) then Ok(MapOf(Entries(segments))) else Raise(ValueError)
    decreases |segments|
  {
    if |segments| > 0 {
      var n := |segments|;
      ParsePairsShape(segments[..n - 1]);
      AllPairsSnoc(segments);
      if AllPairs(segments) {
        EntriesFront(segments);
        var e := Entries(segments);
        assert MapOf(e) == MapOf(e[..n - 1])[e[n - 1].0 := e[n - 1].1];
      }
    }
  }

  // ---------------------------------------------------------------------------
  // The three outcomes of parse_authstring

  /** `False` is returned exactly when the header is absent or does not start
      with the case-sensitive literal `"MAC "` (so also for the empty header). */
  lemma ParseFailIff(header: Option<string>)
    ensures ParseAuth(header) == Fail <==> header.None? || !(Scheme <= header.value)
  {
    if header.Some? && Scheme <= header.value {
      ParsePairsShape(Segments(header.value));
    }
  }

  /** Past the prefix, parsing raises exactly when some segment has no `=`,
      and then it raises `ValueError` without producing any dict. */
  lemma ParseRaiseIff(header: string)
    ensures ParseAuth(Some(header)).Raise? <==>
      Scheme <= header &&
      exists i :: 0 <= i < |Segments(header)| && '=' !in Strip(Segments(header)[i], Whitespace)
    ensures ParseAuth(Some(header)).Raise? ==> ParseAuth(Some(header)).error == ValueError
  {
    if Scheme <= header {
      var segments := Segments(header);
      ParsePairsShape(segments);
      forall i | 0 <= i < |segments| { ParsePairNoneIff(segments[i]); }
    }
  }

  /** `"MAC "` followed by nothing but whitespace has one, empty, segment:
      the unpacking raises. */
  lemma ParseEmptyRemainder(header: string)
    requires Scheme <= header && Strip(header[|Scheme|..], Whitespace) == ""
    ensures ParseAuth(Some(header)) == Raise(ValueError)
  {
    assert Segments(header) == [""];
    ParsePairsShape(Segments(header));
    assert !AllPairs(Segments(header)) by {
      assert ParsePair(Segments(header)[0]).None?;
    }
  }

  /** A trailing comma leaves an empty last segment: the unpacking raises,
      however well formed the segments before it are. */
  lemma ParseTrailingComma(header: string)
    requires Scheme <= header
    requires var rest := Strip(header[|Scheme|..], Whitespace); |rest| > 0 && rest[|rest| - 1] == ','
    ensures ParseAuth(Some(header)) == Raise(ValueError)
  {
    var segments := Segments(header);
    SplitTrailing(Strip(header[|Scheme|..], Whitespace), ',');
    assert ParsePair(segments[|segments| - 1]).None?;
    ParsePairsShape(segments);
  }

  /** A segment is cut at its first `=` only: the key is the stripped segment's
      text before it, the value is everything after it (later `=` included)
      with the surrounding double quotes removed. */
  lemma ParsePairFirstEquals(segment: string, key: string, raw: string)
    requires Strip(segment, Whitespace) == key + "=" + raw
    requires '=' !in key
    ensures ParsePair(segment) == Some((key, Strip(raw, Quote)))
  {
    SplitOnceFirst(key, '=', raw);
  }

  /** The unpacking raises exactly when the stripped segment has no `=`. */
  lemma ParsePairNoneIff(segment: string)
    ensures ParsePair(segment).None? <==> '=' !in Strip(segment, Whitespace)
  {
  }

  /** A successful parse: every segment had an `=`, the dict's keys are exactly
      the segments' keys, and each key holds the value of its last segment. */
  lemma ParseOkFields(header: string)
    requires ParseAuth(Some(header)).Ok?
    ensures Scheme <= header && AllPairs(Segments(header))
    ensures var e := Entries(Segments(header));
      var m := ParseAuth(Some(header)).fields;
      && m.Keys == (set i | 0 <= i < |e| :: e[i].0)
      && forall i :: 0 <= i < |e| && LastOccurrence(e, i) ==> m[e[i].0] == e[i].1
  {
    ParsePairsShape(Segments(header));
    var e := Entries(Segments(header));
    MapOfKeys(e);
    forall i | 0 <= i < |e| && LastOccurrence(e, i)
      ensures MapOf(e)[e[i].0] == e[i].1
    {
      MapOfLastWins(e, i);
    }
  }

  /** A parsed dict is never empty: there is always at least one segment. */
  lemma ParseOkNonEmpty(header: Option<string>)
    requires ParseAuth(header).Ok?
    ensures |ParseAuth(header).fields| > 0
  {
    ParseOkFields(header.value);
    SplitPieces(Strip(header.value[|Scheme|..], Whitespace), ',');
    var e := Entries(Segments(header.value));
    assert e[0].0 in ParseAuth(header).fields;
  }

  /** Every character of every parsed value occurs in the header. */
  lemma ParseValuesFromHeader(header: string, k: string)
    requires ParseAuth(Some(header)).Ok? && k in ParseAuth(Some(header)).fields
    ensures forall c :: c in ParseAuth(Some(header)).fields[k] ==> c in header
  {
    var segments := Segments(header);
    ParsePairsShape(segments);
    var e := Entries(segments);
    MapOfValues(e, k);
    var i :| 0 <= i < |e| && e[i] == (k, MapOf(e)[k]);
    var parts := SplitOnce(Strip(segments[i], Whitespace), '=');
    assert e[i].1 == Strip(parts[1], Quote);
    var rest := Strip(header[|Scheme|..], Whitespace);
    StripEnds(parts[1], Quote);
    StripEnds(segments[i], Whitespace);
    SplitPieces(rest, ',');
    StripEnds(header[|Scheme|..], Whitespace);
    forall c | c in e[i].1 ensures c in header {
      assert c in parts[1];
      assert c in Strip(segments[i], Whitespace);
      assert c in segments[i];
      assert c in rest;
      assert c in header[|Scheme|..];
    }
  }

  // ---------------------------------------------------------------------------
  // The wire format, read back

  /** A key the wire format can carry: no `,` or `=`, and no leading whitespace. */
  predicate WireKey(k: string)
  {
    ',' !in k && '=' !in k && (k == "" || k[0] !in Whitespace)
  }

  /** A value the wire format can carry: no `,` and no double quote at either end. */
  predicate WireValue(v: string)
  {
    ',' !in v && (v == "" || (v[0] != '"' && v[|v| - 1] != '"'))
  }

  predicate WireFields(fields: seq<(string, string)>)
  {
    forall i :: 0 <= i < |fields| ==> WireKey(fields[i].0) && WireValue(fields[i].1)
  }

  /** `k="v"`. */
  function Item(kv: (string, string)): string
  {
    kv.0 + "=\"" + kv.1 + "\""
  }

  function Items(fields: seq<(string, string)>): (r: seq<string>)
    ensures |r| == |fields|
    ensures forall i :: 0 <= i < |fields| ==> r[i] == Item(fields[i])
  {
    seq(|fields|, i requires 0 <= i < |fields| => Item(fields[i]))
  }

  /** The header a client sends: `MAC k1="v1", k2="v2", …`. */
  function Render(fields: seq<(string, string)>): string
  {
    Scheme + Join(", ", Items(fields))
  }

  /** Removing the surrounding quotes gives the value back. */
  lemma StripQuotes(v: string)
    requires v == "" || (v[0] != '"' && v[|v| - 1] != '"')
    ensures Strip("\"" + v + "\"", Quote) == v
  {
    var s := "\"" + v + "\"";
    assert s[1..] == v + "\"";
    if v == "" {
      assert s[1..] == "\"" && s[1..][1..] == "";
      assert LStrip(s[1..][1..], Quote) == "";
      assert LStrip(s, Quote) == "";
    } else {
      assert LStrip(v + "\"", Quote) == v + "\"";
      assert (v + "\"")[..|v|] == v;
      assert RStrip(v + "\"", Quote) == RStrip(v, Quote);
    }
  }

  /** A rendered item, with or without the space the separator leaves before
      it, is its own stripped form: `k` then `=` then the quoted value. */
  lemma ItemStripped(kv: (string, string), pad: string)
    requires WireKey(kv.0) && WireValue(kv.1)
    requires pad == "" || pad == " "
    ensures Strip(pad + Item(kv), Whitespace) == kv.0 + "=" + ("\"" + kv.1 + "\"")
  {
    var item := Item(kv);
    assert item == kv.0 + "=" + ("\"" + kv.1 + "\"");
    ItemShape(kv);
    StripUnchanged(item, Whitespace);
    if pad == " " {
      StripLeading(' ', item, Whitespace);
    } else {
      assert pad + item == item;
    }
  }

  /** A rendered item, with or without the space the separator leaves before it,
      parses back to its key and value. */
  lemma ParseItem(kv: (string, string), pad: string)
    requires WireKey(kv.0) && WireValue(kv.1)
    requires pad == "" || pad == " "
    ensures ParsePair(pad + Item(kv)) == Some(kv)
  {
    ItemStripped(kv, pad);
    ParsePairFirstEquals(pad + Item(kv), kv.0, "\"" + kv.1 + "\"");
    StripQuotes(kv.1);
  }

  /** The first part of a join begins it and the last part ends it. */
  lemma {:induction false} JoinEnds(sep: string, parts: seq<string>)
    requires |parts| >= 1
    ensures parts[0] <= Join(sep, parts)
    ensures var j := Join(sep, parts); var last := parts[|parts| - 1];
      |last| <= |j| && j[|j| - |last|..] == last
    decreases |parts|
  {
    if |parts| >= 2 {
      JoinEnds(sep, parts[1..]);
      var j := Join(sep, parts);
      var tail := Join(sep, parts[1..]);
      assert j == (parts[0] + sep) + tail;
      assert j[|j| - |tail|..] == tail;
    }
  }

  /** A rendered item starts with its key (or its `=`), ends with a quote and
      has no comma. */
  lemma ItemShape(kv: (string, string))
    requires WireKey(kv.0) && WireValue(kv.1)
    ensures var item := Item(kv);
      && |item| > 0 && item[0] !in Whitespace && item[|item| - 1] == '"'
      && ',' !in item
  {
    var item := Item(kv);
    if kv.0 != "" { assert item[0] == kv.0[0]; } else { assert item[0] == '='; }
  }

  /** The text after `"MAC "` in a rendered header needs no stripping. */
  lemma JoinedNeedsNoStrip(items: seq<string>)
    requires |items| >= 1
    requires forall i :: 0 <= i < |items| ==> |items[i]| > 0 && items[i][0] !in Whitespace
    requires forall i :: 0 <= i < |items| ==> items[i][|items[i]| - 1] !in Whitespace
    ensures Strip(Join(", ", items), Whitespace) == Join(", ", items)
  {
    var rest := Join(", ", items);
    JoinEnds(", ", items);
    var last := items[|items| - 1];
    assert rest[0] == items[0][0];
    assert rest[|rest| - 1] == last[|last| - 1];
    StripUnchanged(rest, Whitespace);
  }

  /** Splitting the joined items on `,` gives them back, each after the first
      with the space of the separator in front. */
  lemma SplitJoined(items: seq<string>)
    requires |items| >= 1
    requires forall i :: 0 <= i < |items| ==> ',' !in items[i]
    ensures Split(Join(", ", items), ',') == [items[0]] + Prefixed(" ", items[1..])
  {
    JoinCommaSpace(items);
    var spaced := [items[0]] + Prefixed(" ", items[1..]);
    forall i | 0 <= i < |spaced| ensures ',' !in spaced[i] {
      if i > 0 { assert spaced[i] == " " + items[i]; }
    }
    SplitJoin(spaced, ',');
  }

  /** The segments of a rendered header are its items, each after the first
      with the space of the separator in front. */
  lemma RenderSegments(fields: seq<(string, string)>)
    requires |fields| >= 1 && WireFields(fields)
    ensures Scheme <= Render(fields)
    ensures Segments(Render(fields)) == [Item(fields[0])] + Prefixed(" ", Items(fields)[1..])
  {
    var items := Items(fields);
    var header := Render(fields);
    assert header[..|Scheme|] == Scheme;
    assert header[|Scheme|..] == Join(", ", items);
    forall i | 0 <= i < |items|
      ensures |items[i]| > 0 && items[i][0] !in Whitespace
      ensures items[i][|items[i]| - 1] !in Whitespace && ',' !in items[i]
    {
      ItemShape(fields[i]);
    }
    JoinedNeedsNoStrip(items);
    SplitJoined(items);
  }

  /** Segment `i` of a rendered header is item `i`, each after the first with
      the space of the separator in front. */
  lemma SpacedItem(fields: seq<(string, string)>, i: nat)
    requires 0 < |fields| && i < |fields|
    ensures ([Item(fields[0])] + Prefixed(" ", Items(fields)[1..]))[i]
      == (if i == 0 then "" else " ") + Item(fields[i])
  {
    var items := Items(fields);
    if i == 0 {
      assert "" + items[0] == items[0];
    } else {
      assert items[1..][i - 1] == items[i];
    }
  }

  /** Each segment of a rendered header parses to its field. */
  lemma RenderPairs(fields: seq<(string, string)>)
    requires |fields| >= 1 && WireFields(fields)
    ensures var spaced := [Item(fields[0])] + Prefixed(" ", Items(fields)[1..]);
      AllPairs(spaced) && Entries(spaced) == fields
  {
    var spaced := [Item(fields[0])] + Prefixed(" ", Items(fields)[1..]);
    forall i | 0 <= i < |spaced| ensures ParsePair(spaced[i]) == Some(fields[i]) {
      SpacedItem(fields, i);
      ParseItem(fields[i], if i == 0 then "" else " ");
    }
    assert AllPairs(spaced);
    var e := Entries(spaced);
    assert forall i :: 0 <= i < |e| ==> e[i] == fields[i];
  }

  /** Round trip: a non-empty list of wire-format fields, rendered as a `MAC`
      header and parsed, gives back the dict of those fields (a repeated key
      keeping its last value). */
  lemma RenderParse(fields: seq<(string, string)>)
    requires |fields| >= 1 && WireFields(fields)
    ensures ParseAuth(Some(Render(fields))) == Ok(MapOf(fields))
  {
    RenderSegments(fields);
    RenderPairs(fields);
    ParsePairsShape(Segments(Render(fields)));
  }

  // ---------------------------------------------------------------------------
  // Literal cases

  /** The empty header and another scheme both give `False`. */
  lemma ParseLiteralFailures()
    ensures ParseAuth(Some("")) == Fail
    ensures ParseAuth(Some("Basic abc")) == Fail
    ensures ParseAuth(Some("mac id=\"1\"")) == Fail
    ensures ParseAuth(None) == Fail
  {
    ParseFailIff(Some(""));
    assert !(Scheme <= "Basic abc") by { assert "Basic abc"[0] != Scheme[0]; }
    assert !(Scheme <= "mac id=\"1\"") by { assert "mac id=\"1\""[0] != Scheme[0]; }
  }

  /** A header with only an `id` parses: nothing demands the other fields. */
  lemma ParseLiteralIdOnly()
    ensures ParseAuth(Some("MAC id=\"1\"")) == Ok(map["id" := "1"])
  {
    var one := [("id", "1")];
    assert Render(one) == "MAC id=\"1\"";
    RenderParse(one);
  }

  /** The base64 padding of a `mac` survives the split at the first `=`. */
  lemma ParseLiteralPadding()
    ensures ParseAuth(Some("MAC mac=\"Zm9v==\"")) == Ok(map["mac" := "Zm9v=="])
  {
    var one := [("mac", "Zm9v==")];
    assert Render(one) == "MAC mac=\"Zm9v==\"";
    RenderParse(one);
  }
}
