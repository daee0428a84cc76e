/** Query-component escaping as Go's `net/url` does it: `QueryEscape`, and
    `QueryUnescape`, its inverse, which the query decoder uses. */
module UrlEscape {
  import opened GoBase

  /** The unreserved characters of section 2.3 of RFC 3986:
      ALPHA / DIGIT / "-" / "." / "_" / "~". */
  predicate Unreserved(b: Byte)
  {
    (0x41 <= b <= 0x5A) || (0x61 <= b <= 0x7A) || (0x30 <= b <= 0x39) ||
    b == 0x2D || b == 0x2E || b == 0x5F || b == 0x7E
  }

  /** The upper-case hexadecimal digit for `n`. */
  function HexDigit(n: int): (d: Byte)
    requires 0 <= n < 16
    ensures Unreserved(d)
  {
    if n < 10 then 0x30 + n else 0x41 + (n - 10)
  }

  /** The value of a hexadecimal digit of either case, if `d` is one. */
  function HexValue(d: Byte): (r: Option<int>)
    ensures r.Some? ==> 0 <= r.value < 16
  {
    if 0x30 <= d <= 0x39 then Some(d - 0x30)
    else if 0x41 <= d <= 0x46 then Some(d - 0x41 + 10)
    else if 0x61 <= d <= 0x66 then Some(d - 0x61 + 10)
    else None
  }

  /** The escape of one byte in a query component: unreserved bytes stay,
      a space becomes '+', every other byte becomes "%XX" (section 2.1 of
      RFC 3986, upper-case digits). */
  function EscapeByte(b: Byte): GoString
  {
    if Unreserved(b) then [b]
    else if b == Space then [Plus]
    else [Percent, HexDigit(b / 16), HexDigit(b % 16)]
  }

  /** `url.QueryEscape`: every byte escaped in turn. The result holds only
      unreserved bytes, '+' and '%', so never a query separator. */
  function QueryEscape(s: GoString): (e: GoString)
    ensures forall i :: 0 <= i < |e| ==> Unreserved(e[i]) || e[i] == Plus || e[i] == Percent
    ensures |e| >= |s|
  {
    if s == [] then [] else EscapeByte(s[0]) + QueryEscape(s[1..])
  }

  /** `url.QueryUnescape`: "%XX" with two hexadecimal digits becomes that
      byte, '+' becomes a space, any other byte stays; a '%' without two
      hexadecimal digits after it is an error. */
  function QueryUnescape(s: GoString): (r: Option<GoString>)
    decreases |s|
  {
    if s == [] then Some([])
    else if s[0] == Percent then
      if |s| < 3 || HexValue(s[1]).None? || HexValue(s[2]).None? then None
      else
        match QueryUnescape(s[3..])
        case None => None
        case Some(t) => Some([HexValue(s[1]).value * 16 + HexValue(s[2]).value] + t)
    else
      match QueryUnescape(s[1..])
      case None => None
      case Some(t) => Some([if s[0] == Plus then Space else s[0]] + t)
  }

  /** Unescaping undoes the escape of one byte in front of any rest. */
  lemma UnescapeEscapedByte(b: Byte, t: GoString)
    ensures QueryUnescape(EscapeByte(b) + t) ==
            match QueryUnescape(t)
            case None => None
            case Some(u) => Some([b] + u)
  {
    var s := EscapeByte(b) + t;
    if Unreserved(b) {
      assert s[0] == b && s[1..] == t;
    } else if b == Space {
      assert s[0] == Plus && s[1..] == t;
    } else {
      assert s[0] == Percent && s[3..] == t;
      assert HexValue(s[1]) == Some(b / 16);
      assert HexValue(s[2]) == Some(b % 16);
    }
  }

  /** Round trip: `QueryUnescape(QueryEscape(s))` gives back `s`. */
  lemma {:induction false} UnescapeEscape(s: GoString)
    ensures QueryUnescape(QueryEscape(s)) == Some(s)
  {
    if s != [] {
      UnescapeEscape(s[1..]);
      UnescapeEscapedByte(s[0], QueryEscape(s[1..]));
      assert [s[0]] + s[1..] == s;
    }
  }

  /** A string with neither '%' nor '+' unescapes to itself. */
  lemma {:induction false} UnescapePlain(s: GoString)
    requires Percent !in s && Plus !in s
    ensures QueryUnescape(s) == Some(s)
  {
    if s != [] {
      assert s[0] in s;
      assert forall b :: b in s[1..] ==> b in s;
      UnescapePlain(s[1..]);
      assert [s[0]] + s[1..] == s;
    }
  }
}
