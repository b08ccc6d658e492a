/** The few Python 2 `str` operations the authentication helpers rely on:
    `strip`, `startswith`, `split(sep)`, `split(sep, 1)` and `sep.join(parts)`,
    each given the semantics CPython gives it, over `seq<char>`. */
module PyStr {

  /** Python's `None` / a present value. */
  datatype Option<T> = None | Some(value: T)

  /** The characters `str.strip()` removes when called without arguments
      (Python 2 `str`: space, tab, line feed, carriage return, vertical tab, form feed). */
  const Whitespace: set<char> := {' ', '\t', '\n', '\r', '\U{000B}', '\U{000C}'}

  /** `s.lstrip(chars)`: drops the longest prefix made of characters in `cs`. */
  function LStrip(s: string, cs: set<char>): string
    decreases |s|
  {
    if |s| > 0 && s[0] in cs then LStrip(s[1..], cs) else s
  }

  /** `s.rstrip(chars)`: drops the longest suffix made of characters in `cs`. */
  function RStrip(s: string, cs: set<char>): string
    decreases |s|
  {
    if |s| > 0 && s[|s| - 1] in cs then RStrip(s[..|s| - 1], cs) else s
  }

  /** `s.strip(chars)`: both ends. */
  function Strip(s: string, cs: set<char>): string
  {
    RStrip(LStrip(s, cs), cs)
  }

  /** `lstrip` removes a prefix made of characters in `cs` and stops at the
      first character outside `cs`. */
  lemma {:induction false} LStripSuffix(s: string, cs: set<char>)
    ensures var r := LStrip(s, cs);
      && |r| <= |s| && r == s[|s| - |r|..]
      && (r == [] || r[0] !in cs)
      && forall i :: 0 <= i < |s| - |r| ==> s[i] in cs
    decreases |s|
  {
    if |s| > 0 && s[0] in cs {
      LStripSuffix(s[1..], cs);
    }
  }

  /** `rstrip` removes a suffix made of characters in `cs` and stops at the
      last character outside `cs`. */
  lemma {:induction false} RStripPrefix(s: string, cs: set<char>)
    ensures var r := RStrip(s, cs);
      && |r| <= |s| && r == s[..|r|]
      && (r == [] || r[|r| - 1] !in cs)
      && forall i :: |r| <= i < |s| ==> s[i] in cs
    decreases |s|
  {
    if |s| > 0 && s[|s| - 1] in cs {
      RStripPrefix(s[..|s| - 1], cs);
    }
  }

  /** `strip` leaves a piece of `s` that neither starts nor ends with a
      character of `cs`. */
  lemma StripEnds(s: string, cs: set<char>)
    ensures var r := Strip(s, cs);
      && (r == [] || (r[0] !in cs && r[|r| - 1] !in cs))
      && forall c :: c in r ==> c in s
  {
    var l := LStrip(s, cs);
    LStripSuffix(s, cs);
    RStripPrefix(l, cs);
    var r := RStrip(l, cs);
    assert forall c :: c in r ==> c in l;
  }

  /** A string that is empty or already starts and ends outside `cs` is left alone. */
  lemma StripUnchanged(s: string, cs: set<char>)
    requires s == [] || (s[0] !in cs && s[|s| - 1] !in cs)
    ensures Strip(s, cs) == s
  {
    assert LStrip(s, cs) == s;
  }

  /** Stripping a single leading character of `cs` changes nothing more. */
  lemma StripLeading(c: char, s: string, cs: set<char>)
    requires c in cs
    ensures Strip([c] + s, cs) == Strip(s, cs)
  {
    assert ([c] + s)[1..] == s;
  }

  /** `s.find(c)`, with `None` for Python's -1. */
  function Find(s: string, c: char): (r: Option<nat>)
    ensures r.None? <==> c !in s
    ensures r.Some? ==> r.value < |s| && s[r.value] == c && c !in s[..r.value]
    decreases |s|
  {
    if |s| == 0 then None
    else if s[0] == c then Some(0)
    else match Find(s[1..], c)
      case None => None
      case Some(i) => assert s[..i + 1] == [s[0]] + s[1..][..i]; Some(i + 1)
  }

  /** `s.split(sep)` for a one-character separator. */
  function Split(s: string, sep: char): seq<string>
    decreases |s|
  {
    match Find(s, sep)
    case None => [s]
    case Some(i) => [s[..i]] + Split(s[i + 1..], sep)
  }

  /** `split` always yields at least one piece, no piece contains the
      separator, and every piece is made of characters of `s`. */
  lemma {:induction false} SplitPieces(s: string, sep: char)
    ensures var r := Split(s, sep);
      && |r| >= 1
      && (forall i :: 0 <= i < |r| ==> sep !in r[i])
      && forall i, c :: 0 <= i < |r| && c in r[i] ==> c in s
    decreases |s|
  {
    match Find(s, sep)
    case None =>
    case Some(k) =>
      var rest := Split(s[k + 1..], sep);
      SplitPieces(s[k + 1..], sep);
      var r := [s[..k]] + rest;
      assert Split(s, sep) == r;
      forall i | 0 < i < |r|
        ensures r[i] == rest[i - 1]
      {
      }
      forall i, c | 0 <= i < |r| && c in r[i]
        ensures c in s
      {
        if i == 0 {
          assert c in s[..k];
        } else {
          assert c in s[k + 1..];
        }
      }
  }

  /** `s.split(sep, 1)`: one piece when `sep` does not occur, otherwise the text
      before its first occurrence and everything after it. */
  function SplitOnce(s: string, sep: char): (r: seq<string>)
    ensures |r| == 1 || |r| == 2
    ensures |r| == 1 <==> sep !in s
    ensures |r| == 1 ==> r[0] == s
    ensures |r| == 2 ==> sep !in r[0] && s == r[0] + [sep] + r[1]
  {
    match Find(s, sep)
    case None => [s]
    case Some(i) => assert s == s[..i] + [sep] + s[i + 1..]; [s[..i], s[i + 1..]]
  }

  /** `sep.join(parts)`. */
  function Join(sep: string, parts: seq<string>): string
    decreases |parts|
  {
    if |parts| == 0 then ""
    else if |parts| == 1 then parts[0]
    else parts[0] + sep + Join(sep, parts[1..])
  }

  /** Where a separator-free prefix ends, `find` stops. */
  lemma FindAfter(a: string, c: char, b: string)
    requires c !in a
    ensures Find(a + [c] + b, c) == Some(|a|)
    decreases |a|
  {
    if |a| > 0 {
      assert (a + [c] + b)[1..] == a[1..] + [c] + b;
      FindAfter(a[1..], c, b);
    }
  }

  /** `split(sep, 1)` cuts at the first separator only: whatever follows,
      separators included, stays in the second piece. */
  lemma SplitOnceFirst(a: string, sep: char, b: string)
    requires sep !in a
    ensures SplitOnce(a + [sep] + b, sep) == [a, b]
  {
    var s := a + [sep] + b;
    FindAfter(a, sep, b);
    assert s[..|a|] == a;
    assert s[|a| + 1..] == b;
  }

  /** Splitting undoes joining, as long as no part contains the separator. */
  lemma {:induction false} SplitJoin(parts: seq<string>, sep: char)
    requires |parts| >= 1
    requires forall i :: 0 <= i < |parts| ==> sep !in parts[i]
    ensures Split(Join([sep], parts), sep) == parts
    decreases |parts|
  {
    if |parts| == 1 {
      assert Find(parts[0], sep).None?;
    } else {
      var tail := parts[1..];
      var rest := Join([sep], tail);
      var s := parts[0] + [sep] + rest;
      assert Join([sep], parts) == s;
      FindAfter(parts[0], sep, rest);
      assert s[..|parts[0]|] == parts[0];
      assert s[|parts[0]| + 1..] == rest;
      assert Split(s, sep) == [parts[0]] + Split(rest, sep);
      assert forall i :: 0 <= i < |tail| ==> tail[i] == parts[i + 1];
      SplitJoin(tail, sep);
      assert [parts[0]] + tail == parts;
    }
  }

  /** Joining undoes splitting. */
  lemma {:induction false} JoinSplit(s: string, sep: char)
    ensures Join([sep], Split(s, sep)) == s
    decreases |s|
  {
    match Find(s, sep)
    case None =>
    case Some(i) =>
      JoinSplit(s[i + 1..], sep);
      var r := [s[..i]] + Split(s[i + 1..], sep);
      assert r[1..] == Split(s[i + 1..], sep);
      assert s == s[..i] + [sep] + s[i + 1..];
  }

  /** A string that ends with the separator splits into pieces the last of which is empty
      (Python's `"a,".split(",") == ["a", ""]`). */
  lemma {:induction false} SplitTrailing(s: string, sep: char)
    requires |s| > 0 && s[|s| - 1] == sep
    ensures Split(s, sep)[|Split(s, sep)| - 1] == ""
    decreases |s|
  {
    var i := Find(s, sep).value;
    var rest := s[i + 1..];
    if |rest| > 0 {
      assert rest[|rest| - 1] == sep;
      SplitTrailing(rest, sep);
    } else {
      assert Split(rest, sep) == [""];
    }
  }

  /** Writing `", "` between parts is writing `","` between the parts with a
      space put in front of every part after the first. */
  lemma {:induction false} JoinCommaSpace(parts: seq<string>)
    requires |parts| >= 1
    ensures Join(", ", parts) == Join(",", [parts[0]] + Prefixed(" ", parts[1..]))
    decreases |parts|
  {
    if |parts| >= 2 {
      JoinCommaSpace(parts[1..]);
      var tail := Prefixed(" ", parts[2..]);
      assert parts[1..][1..] == parts[2..];
      PrependJoin(" ", parts[1], tail);
      assert Prefixed(" ", parts[1..]) == [" " + parts[1]] + tail;
      assert ([parts[0]] + Prefixed(" ", parts[1..]))[1..] == Prefixed(" ", parts[1..]);
    }
  }

  /** Each part with `p` put in front of it. */
  function Prefixed(p: string, parts: seq<string>): (r: seq<string>)
    ensures |r| == |parts|
    ensures forall i :: 0 <= i < |parts| ==> r[i] == p + parts[i]
  {
    seq(|parts|, i requires 0 <= i < |parts| => p + parts[i])
  }

  /** Text put in front of a join lands in front of its first part. */
  lemma PrependJoin(p: string, first: string, rest: seq<string>)
    ensures p + Join(",", [first] + rest) == Join(",", [p + first] + rest)
  {
    assert ([first] + rest)[1..] == rest;
    assert ([p + first] + rest)[1..] == rest;
  }
}
