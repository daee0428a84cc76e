/** The query-string serialiser `toValues` of http/http.go, and a decoder
    that serves as its inverse. */
module Query {
  import opened GoBase
  import opened UrlEscape

  /** A Go `map[string]string` argument: `nil`, or a map (possibly empty). */
  datatype Args = Nil | Map(m: map<GoString, GoString>)

  /** The two-byte prefix "__" that marks a key whose value is sent raw. */
  const RawPrefix: GoString := [Underscore, Underscore]

  /** `order` is an iteration order of the argument map (a nil map has none). */
  ghost predicate IterationOrder(args: Args, order: seq<GoString>)
  {
    match args
    case Nil => order == []
    case Map(m) => Enumerates(order, m)
  }

  /** The inputs on which `toValues` does not panic: `values[:len(values)-1]`
      panics on a non-nil empty map, and `k[:2]` on a key shorter than two bytes. */
  ghost predicate ToValuesSafe(args: Args)
  {
    args.Map? ==> |args.m| > 0 && forall k :: k in args.m ==> |k| >= 2
  }

  /** The key starts with the raw-passthrough prefix "__". */
  predicate IsRaw(k: GoString)
  {
    |k| >= 2 && k[..2] == RawPrefix
  }

  /** The fragment one map entry contributes (before its '&'). */
  function Fragment(k: GoString, v: GoString): GoString
    requires |k| >= 2
  {
    if !IsRaw(k) then k + [Equals] + QueryEscape(v)
    else k[2..] + [Equals] + v
  }

  /** The fragments of the entries, in iteration order. */
  function Fragments(m: map<GoString, GoString>, order: seq<GoString>): (fs: seq<GoString>)
    requires forall i :: 0 <= i < |order| ==> order[i] in m && |order[i]| >= 2
    ensures |fs| == |order|
  {
    seq(|order|, i requires 0 <= i < |order| => Fragment(order[i], m[order[i]]))
  }

  /** The parts separated by single `sep` bytes. */
  function Join(parts: seq<GoString>, sep: Byte): GoString
  {
    if parts == [] then []
    else if |parts| == 1 then parts[0]
    else parts[0] + [sep] + Join(parts[1..], sep)
  }

  /** Each part followed by `sep`: what the loop of `toValues` accumulates. */
  function Terminated(parts: seq<GoString>, sep: Byte): GoString
  {
    if parts == [] then []
    else Terminated(parts[..|parts| - 1], sep) + parts[|parts| - 1] + [sep]
  }

  /** The query string `toValues` returns. */
  ghost function QueryString(args: Args, order: seq<GoString>): GoString
    requires IterationOrder(args, order) && ToValuesSafe(args)
  {
    match args
    case Nil => []
    case Map(m) => Join(Fragments(m, order), Amp)
  }

  lemma {:induction false} JoinSnoc(parts: seq<GoString>, p: GoString, sep: Byte)
    requires parts != []
    ensures Join(parts + [p], sep) == Join(parts, sep) + [sep] + p
  {
    if |parts| == 1 {
      assert parts + [p] == [parts[0], p];
    } else {
      assert (parts + [p])[1..] == parts[1..] + [p];
      JoinSnoc(parts[1..], p, sep);
    }
  }

  lemma TerminatedSnoc(parts: seq<GoString>, i: nat, sep: Byte)
    requires i < |parts|
    ensures Terminated(parts[..i + 1], sep) == Terminated(parts[..i], sep) + parts[i] + [sep]
  {
    assert parts[..i + 1][..i] == parts[..i];
  }

  /** Trimming the last byte of the accumulated string leaves the parts
      joined by `sep`. */
  lemma {:induction false} TerminatedIsJoin(parts: seq<GoString>, sep: Byte)
    requires parts != []
    ensures Terminated(parts, sep) == Join(parts, sep) + [sep]
  {
    var init := parts[..|parts| - 1];
    if init == [] {
      assert parts == [parts[0]];
    } else {
      TerminatedIsJoin(init, sep);
      JoinSnoc(init, parts[|parts| - 1], sep);
      assert init + [parts[|parts| - 1]] == parts;
    }
  }

  /** `toValues`: `key=value&` per entry, the value escaped unless the key
      starts with "__" (then the prefix is dropped and the value sent raw),
      the final '&' trimmed; a nil map gives the empty string. */
  method ToValues(args: Args, order: seq<GoString>) returns (values: GoString)
    requires IterationOrder(args, order) && ToValuesSafe(args)
    ensures values == QueryString(args, order)
    ensures args.Nil? ==> values == []
  {
    values := [];
    if args.Nil? {
      return;
    }
    var m := args.m;
    assert forall i :: 0 <= i < |order| ==> order[i] in m && |order[i]| >= 2;
    ghost var fs := Fragments(m, order);
    var i := 0;
    while i < |order|
      invariant 0 <= i <= |order|
      invariant values == Terminated(fs[..i], Amp)
    {
      var k, v := order[i], m[order[i]];
      if k[..2] != RawPrefix {
        v := QueryEscape(v);
      } else {
        k := k[2..];
      }
      assert k + [Equals] + v == Fragment(order[i], m[order[i]]) == fs[i];
      TerminatedSnoc(fs, i, Amp);
      values := values + (k + [Equals] + v) + [Amp];
      i := i + 1;
    }
    assert fs[..i] == fs;
    assert order != [] by {
      var k0 :| k0 in m.Keys;
      assert k0 in order;
    }
    TerminatedIsJoin(fs, Amp);
    values := values[..|values| - 1];
  }

  /** The position of the first `b` in `s`. */
  function IndexOf(s: GoString, b: Byte): (i: nat)
    requires b in s
    ensures i < |s| && s[i] == b && b !in s[..i]
  {
    if s[0] == b then 0
    else
      assert b in s[1..];
      var j := IndexOf(s[1..], b);
      assert s[..j + 1] == [s[0]] + s[1..][..j];
      j + 1
  }

  /** In `p + [b] + t` with no `b` in `p`, the first `b` is the one after `p`. */
  lemma IndexOfAfter(p: GoString, b: Byte, t: GoString)
    requires b !in p
    ensures IndexOf(p + [b] + t, b) == |p|
  {
    var s := p + [b] + t;
    assert s[|p|] == b;
    assert s[..|p|] == p;
  }

  /** The pieces of `s` between the `sep` bytes (at least one piece). */
  function Split(s: GoString, sep: Byte): (parts: seq<GoString>)
    decreases |s|
  {
    if sep !in s then [s]
    else
      var i := IndexOf(s, sep);
      [s[..i]] + Split(s[i + 1..], sep)
  }

  /** `s` split at its first `sep`: the piece before and the rest after;
      with no `sep`, all of `s` and nothing. */
  function Cut(s: GoString, sep: Byte): (GoString, GoString)
  {
    if sep in s then (s[..IndexOf(s, sep)], s[IndexOf(s, sep) + 1..]) else (s, [])
  }

  /** One `key=value` piece, both halves unescaped. */
  function DecodePair(piece: GoString): Option<(GoString, GoString)>
  {
    var (k, v) := Cut(piece, Equals);
    match (QueryUnescape(k), QueryUnescape(v))
    case (Some(k'), Some(v')) => Some((k', v'))
    case _ => None
  }

  function DecodeAll(pieces: seq<GoString>): Option<seq<(GoString, GoString)>>
  {
    if pieces == [] then Some([])
    else
      match (DecodePair(pieces[0]), DecodeAll(pieces[1..]))
      case (Some(p), Some(ps)) => Some([p] + ps)
      case _ => None
  }

  /** A reference decoder for the query strings `toValues` builds: split
      at '&', each piece split at its first '=', both halves unescaped, the
      pairs kept in order; any bad escape fails the whole decode. */
  function DecodeQuery(q: GoString): Option<seq<(GoString, GoString)>>
  {
    DecodeAll(Split(q, Amp))
  }

  /** Parts free of the separator come back out of their join. */
  lemma {:induction false} SplitJoin(parts: seq<GoString>, sep: Byte)
    requires parts != []
    requires forall i :: 0 <= i < |parts| ==> sep !in parts[i]
    ensures Split(Join(parts, sep), sep) == parts
  {
    if |parts| > 1 {
      var s := Join(parts, sep);
      var p := parts[0];
      assert s == p + [sep] + Join(parts[1..], sep);
      assert s[|p|] == sep;
      IndexOfAfter(p, sep, Join(parts[1..], sep));
      assert s[..|p|] == p;
      assert s[|p| + 1..] == Join(parts[1..], sep);
      SplitJoin(parts[1..], sep);
      assert parts == [p] + parts[1..];
    }
  }

  /** A key that survives the query round trip unchanged: it holds no
      separator and nothing the decoder would unescape. */
  predicate PlainKey(k: GoString)
  {
    Amp !in k && Equals !in k && Percent !in k && Plus !in k
  }

  /** An entry whose fragment decodes back: its key (without a "__"
      prefix) is plain, and a raw value holds no '&' and is a valid escape. */
  predicate Recoverable(k: GoString, v: GoString)
  {
    |k| >= 2 &&
    if IsRaw(k) then PlainKey(k[2..]) && Amp !in v && QueryUnescape(v).Some?
    else PlainKey(k)
  }

  /** What decoding the fragment of entry `(k, v)` yields: the key and the
      value for an ordinary key; the key without "__" and the unescaped
      value for a raw key. */
  function Decoded(k: GoString, v: GoString): (GoString, GoString)
    requires Recoverable(k, v)
  {
    if IsRaw(k) then (k[2..], QueryUnescape(v).value) else (k, v)
  }

  /** The fragment of an entry holds no '&' and decodes to `Decoded(k, v)`:
      `k=QueryEscape(v)` for an ordinary key, `k[2..]=v` for a raw one. */
  lemma FragmentDecodes(k: GoString, v: GoString)
    requires Recoverable(k, v)
    ensures Amp !in Fragment(k, v)
    ensures DecodePair(Fragment(k, v)) == Some(Decoded(k, v))
  {
    var key := if IsRaw(k) then k[2..] else k;
    var val := if IsRaw(k) then v else QueryEscape(v);
    var f := Fragment(k, v);
    assert f == key + [Equals] + val;
    assert Amp !in val;
    IndexOfAfter(key, Equals, val);
    assert f[|key|] == Equals;
    assert f[..|key|] == key;
    assert f[|key| + 1..] == val;
    assert Cut(f, Equals) == (key, val);
    UnescapePlain(key);
    if !IsRaw(k) {
      UnescapeEscape(v);
    }
  }

  lemma {:induction false} DecodeAllEach(pieces: seq<GoString>, pairs: seq<(GoString, GoString)>)
    requires |pieces| == |pairs|
    requires forall i :: 0 <= i < |pieces| ==> DecodePair(pieces[i]) == Some(pairs[i])
    ensures DecodeAll(pieces) == Some(pairs)
  {
    if pieces != [] {
      DecodeAllEach(pieces[1..], pairs[1..]);
      assert [pairs[0]] + pairs[1..] == pairs;
    }
  }

  /** The query string has exactly one '&'-separated fragment per entry,
      in iteration order, and decoding it gives back every entry: the key
      and value for an ordinary key, the key without "__" and the unescaped
      value for a raw key. */
  lemma QueryRoundTrip(m: map<GoString, GoString>, order: seq<GoString>)
    requires Enumerates(order, m) && ToValuesSafe(Map(m))
    requires forall k :: k in m ==> Recoverable(k, m[k])
    ensures Split(QueryString(Map(m), order), Amp) == Fragments(m, order)
    ensures DecodeQuery(QueryString(Map(m), order)) ==
            Some(seq(|order|, i requires 0 <= i < |order| => Decoded(order[i], m[order[i]])))
  {
    var fs := Fragments(m, order);
    var ds := seq(|order|, i requires 0 <= i < |order| => Decoded(order[i], m[order[i]]));
    forall i | 0 <= i < |order|
      ensures Amp !in fs[i] && DecodePair(fs[i]) == Some(ds[i])
    {
      FragmentDecodes(order[i], m[order[i]]);
    }
    EnumerationLength(order, m);
    SplitJoin(fs, Amp);
    DecodeAllEach(fs, ds);
  }

  /** Pairs listed in an iteration order of `m` are exactly its entries. */
  lemma PairsAreEntries(m: map<GoString, GoString>, order: seq<GoString>, ps: seq<(GoString, GoString)>)
    requires Enumerates(order, m)
    requires |ps| == |order|
    requires forall i :: 0 <= i < |order| ==> ps[i] == (order[i], m[order[i]])
    ensures |ps| == |m|
    ensures forall k :: k in m ==> (k, m[k]) in ps
    ensures forall p :: p in ps ==> p.0 in m && p.1 == m[p.0]
  {
    EnumerationLength(order, m);
    forall k | k in m
      ensures (k, m[k]) in ps
    {
      var i :| 0 <= i < |order| && order[i] == k;
      assert ps[i] == (k, m[k]);
    }
  }

  /** With no raw keys and plain keys, the decoded pairs are exactly the
      map's entries, each once, whatever the iteration order. */
  lemma QueryRoundTripOrdinary(m: map<GoString, GoString>, order: seq<GoString>)
    requires Enumerates(order, m) && ToValuesSafe(Map(m))
    requires forall k :: k in m ==> !IsRaw(k) && PlainKey(k)
    ensures DecodeQuery(QueryString(Map(m), order)).Some?
    ensures var ps := DecodeQuery(QueryString(Map(m), order)).value;
            |ps| == |m| &&
            (forall k :: k in m ==> (k, m[k]) in ps) &&
            (forall p :: p in ps ==> p.0 in m && p.1 == m[p.0])
  {
    forall k | k in m
      ensures Recoverable(k, m[k])
    {
    }
    QueryRoundTrip(m, order);
    var ps := DecodeQuery(QueryString(Map(m), order)).value;
    forall i | 0 <= i < |order|
      ensures ps[i] == (order[i], m[order[i]])
    {
      assert ps[i] == Decoded(order[i], m[order[i]]);
    }
    PairsAreEntries(m, order, ps);
  }

  /** The request target `Get` builds: the URL, a '?', and the query string. */
  ghost function RequestTarget(url: GoString, args: Args, order: seq<GoString>): GoString
    requires IterationOrder(args, order) && ToValuesSafe(args)
  {
    url + [Question] + QueryString(args, order)
  }

  /** A nil map still leaves a bare '?'; for a URL without '?', cutting the
      target at its first '?' gives back the URL and the query string. */
  lemma RequestTargetShape(url: GoString, args: Args, order: seq<GoString>)
    requires IterationOrder(args, order) && ToValuesSafe(args)
    ensures args.Nil? ==> RequestTarget(url, args, order) == url + [Question]
    ensures Question !in url ==>
              Cut(RequestTarget(url, args, order), Question) == (url, QueryString(args, order))
  {
    var q := QueryString(args, order);
    var uri := RequestTarget(url, args, order);
    if Question !in url {
      IndexOfAfter(url, Question, q);
      assert uri[|url|] == Question;
      assert uri[..|url|] == url;
      assert uri[|url| + 1..] == q;
    }
  }
}
