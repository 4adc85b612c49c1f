/** `application/x-www-form-urlencoded` serialisation as Python's
    `urllib.parse.urlencode` performs it with its default `quote_plus`: the
    text is encoded as UTF-8, the unreserved characters of section 2.3 of
    RFC 3986 (letters, digits, `-._~`) are kept, a space becomes `+`, and every
    other byte becomes `%XX` with upper-case hexadecimal digits (section 2.1 of
    RFC 3986). A decoder is given beside it as the encoder's partner. */
module FormEncoding {
  import opened Basics
  import Utf8

  /** The bytes `quote` never escapes: ASCII letters, digits and `_.-~`. */
  predicate IsAlwaysSafe(b: Byte) {
    || 'A' as int <= b <= 'Z' as int
    || 'a' as int <= b <= 'z' as int
    || '0' as int <= b <= '9' as int
    || b == '_' as int || b == '.' as int || b == '-' as int || b == '~' as int
  }

  /** The same set, as characters. */
  predicate IsUnreservedChar(c: char) {
    c as int < 256 && IsAlwaysSafe(c as int)
  }

  predicate IsUpperHex(c: char) {
    '0' <= c <= '9' || 'A' <= c <= 'F'
  }

  function HexDigit(n: nat): (c: char)
    requires n < 16
    ensures IsUpperHex(c)
  {
    if n < 10 then ('0' as int + n) as char else ('A' as int + n - 10) as char
  }

  function HexValue(c: char): (n: nat)
    requires IsUpperHex(c)
    ensures n < 16
  {
    if c <= '9' then c as int - '0' as int else c as int - 'A' as int + 10
  }

  /** How `quote_plus` writes one byte. */
  function QuoteByte(b: Byte): (r: string)
    ensures |r| == 1 || |r| == 3
  {
    if IsAlwaysSafe(b) then [b as char]
    else if b == 0x20 then "+"
    else ['%', HexDigit(b / 16), HexDigit(b % 16)]
  }

  /** `quote_plus` on bytes: each byte becomes one character or a `%XX`
      triple. */
  function PercentEncode(bs: seq<Byte>): (r: string)
    ensures |bs| <= |r| <= 3 * |bs|
  {
    if bs == [] then "" else QuoteByte(bs[0]) + PercentEncode(bs[1..])
  }

  /** `urllib.parse.quote_plus(s)`, with `safe=''` and UTF-8 as `urlencode`
      calls it. */
  function QuotePlus(s: string): (r: string)
    ensures |s| <= |r| <= 3 * |Utf8.Encode(s)|
  {
    PercentEncode(Utf8.Encode(s))
  }

  /** `urlencode({key: value})` for a dict holding one pair: the pair splits
      back at its only `=`, and both halves form-decode to what was given. */
  function UrlencodePair(key: string, value: string): (r: string)
    ensures var k := |QuotePlus(key)|;
            && k < |r| && r[k] == '='
            && (forall i :: 0 <= i < |r| && r[i] == '=' ==> i == k)
            && FormDecode(r[..k]) == Some(key)
            && FormDecode(r[k + 1..]) == Some(value)
  {
    var qk, qv := QuotePlus(key), QuotePlus(value);
    assert FormDecode(qk) == Some(key) && FormDecode(qv) == Some(value) by {
      FormDecodeQuotePlus(key);
      FormDecodeQuotePlus(value);
    }
    assert (forall i :: 0 <= i < |qk| ==> IsFormChar(qk[i]))
        && (forall i :: 0 <= i < |qv| ==> IsFormChar(qv[i])) by {
      QuotePlusChars(key);
      QuotePlusChars(value);
    }
    JoinAtEquals(qk, qv);
    qk + "=" + qv
  }

  /** Two form-encoded components joined by `=` split back at it. */
  lemma JoinAtEquals(a: string, b: string)
    requires forall i :: 0 <= i < |a| ==> IsFormChar(a[i])
    requires forall i :: 0 <= i < |b| ==> IsFormChar(b[i])
    ensures var r := a + "=" + b;
            && r[|a|] == '=' && r[..|a|] == a && r[|a| + 1..] == b
            && (forall i :: 0 <= i < |r| && r[i] == '=' ==> i == |a|)
  {
    var r := a + "=" + b;
    assert r[..|a|] == a && r[|a| + 1..] == b;
    forall i | 0 <= i < |r| && i != |a|
      ensures r[i] != '='
    {
      if i < |a| {
        assert r[i] == a[i];
      } else {
        assert r[i] == b[i - |a| - 1];
      }
    }
  }

  /** The shape of a form-encoded component: unreserved characters, `+`, and
      `%XX` triples with upper-case hexadecimal digits, nothing else. */
  predicate IsFormEncoded(t: string)
    decreases |t|
  {
    if t == [] then true
    else if IsUnreservedChar(t[0]) || t[0] == '+' then IsFormEncoded(t[1..])
    else t[0] == '%' && |t| >= 3 && IsUpperHex(t[1]) && IsUpperHex(t[2]) && IsFormEncoded(t[3..])
  }

  /** The characters that can appear in a form-encoded component. */
  predicate IsFormChar(c: char) {
    IsUnreservedChar(c) || c == '+' || c == '%'
  }

  /** Form-decodes a component to its bytes: `+` is a space, `%XX` a byte,
      any other ASCII character itself. None for anything else. */
  function UnquotePlus(t: string): (r: Option<seq<Byte>>)
    decreases |t|
  {
    if t == [] then Some([])
    else
      var head: Option<(Byte, nat)> :=
        if t[0] == '+' then Some((0x20, 1))
        else if t[0] == '%' then
          if |t| >= 3 && IsUpperHex(t[1]) && IsUpperHex(t[2])
          then Some((HexValue(t[1]) * 16 + HexValue(t[2]), 3)) else None
        else if t[0] as int < 0x80 then Some((t[0] as int, 1))
        else None;
      match head
      case None => None
      case Some((b, n)) =>
        match UnquotePlus(t[n..])
        case None => None
        case Some(rest) => Some([b] + rest)
  }

  /** Form-decodes a component to text: bytes, then UTF-8. */
  function FormDecode(t: string): (r: Option<string>)
  {
    match UnquotePlus(t)
    case None => None
    case Some(bs) => Utf8.Decode(bs)
  }

  lemma HexRoundTrip(n: nat)
    requires n < 16
    ensures HexValue(HexDigit(n)) == n
  {
  }

  /** Every byte written by QuoteByte is read back by UnquotePlus. */
  lemma UnquoteQuoteByte(b: Byte, rest: string)
    ensures UnquotePlus(QuoteByte(b) + rest) ==
            (match UnquotePlus(rest) case None => None case Some(r) => Some([b] + r))
  {
    var q := QuoteByte(b);
    var t := q + rest;
    if IsAlwaysSafe(b) {
      assert t[0] == b as char && t[1..] == rest;
    } else if b == 0x20 {
      assert t[0] == '+' && t[1..] == rest;
    } else {
      HexRoundTrip(b / 16);
      HexRoundTrip(b % 16);
      assert t[0] == '%' && t[1] == HexDigit(b / 16) && t[2] == HexDigit(b % 16) && t[3..] == rest;
    }
  }

  /** Round trip on bytes: form-decoding undoes percent-encoding. */
  lemma {:induction false} UnquotePercentEncode(bs: seq<Byte>)
    ensures UnquotePlus(PercentEncode(bs)) == Some(bs)
  {
    if bs != [] {
      UnquotePercentEncode(bs[1..]);
      UnquoteQuoteByte(bs[0], PercentEncode(bs[1..]));
      assert bs == [bs[0]] + bs[1..];
    }
  }

  /** Round trip on text: `quote_plus` loses nothing. */
  lemma FormDecodeQuotePlus(s: string)
    ensures FormDecode(QuotePlus(s)) == Some(s)
  {
    UnquotePercentEncode(Utf8.Encode(s));
    Utf8.DecodeEncode(s);
  }

  /** `quote_plus` output has the form-encoded shape. */
  lemma {:induction false} PercentEncodeIsFormEncoded(bs: seq<Byte>)
    ensures IsFormEncoded(PercentEncode(bs))
  {
    if bs != [] {
      var b := bs[0];
      var q, r := QuoteByte(b), PercentEncode(bs[1..]);
      var u := q + r;
      assert PercentEncode(bs) == u;
      PercentEncodeIsFormEncoded(bs[1..]);
      if IsAlwaysSafe(b) || b == 0x20 {
        assert u[0] == q[0] && u[1..] == r;
        assert IsUnreservedChar(u[0]) || u[0] == '+';
      } else {
        assert u[0] == '%' && u[1] == HexDigit(b / 16) && u[2] == HexDigit(b % 16);
        assert u[3..] == r;
      }
    }
  }

  /** A form-encoded component contains only unreserved characters, `+` and
      `%`; in particular no `?`, `&`, `=` or `#`. */
  lemma {:induction false} FormEncodedChars(t: string)
    requires IsFormEncoded(t)
    ensures forall i :: 0 <= i < |t| ==> IsFormChar(t[i])
    decreases |t|
  {
    if t != [] {
      if IsUnreservedChar(t[0]) || t[0] == '+' {
        FormEncodedChars(t[1..]);
        assert forall i :: 1 <= i < |t| ==> t[i] == t[1..][i - 1];
      } else {
        FormEncodedChars(t[3..]);
        assert forall i :: 3 <= i < |t| ==> t[i] == t[3..][i - 3];
      }
    }
  }

  /** The character set of `quote_plus` output. */
  lemma QuotePlusChars(s: string)
    ensures IsFormEncoded(QuotePlus(s))
    ensures forall i :: 0 <= i < |QuotePlus(s)| ==> IsFormChar(QuotePlus(s)[i])
  {
    PercentEncodeIsFormEncoded(Utf8.Encode(s));
    FormEncodedChars(QuotePlus(s));
  }

  lemma {:induction false} PercentEncodeAppend(a: seq<Byte>, b: seq<Byte>)
    ensures PercentEncode(a + b) == PercentEncode(a) + PercentEncode(b)
  {
    if a == [] {
      assert a + b == b;
    } else {
      assert (a + b)[0] == a[0] && (a + b)[1..] == a[1..] + b;
      PercentEncodeAppend(a[1..], b);
    }
  }

  /** `quote_plus` works character by character. */
  lemma QuotePlusAppend(s: string, t: string)
    ensures QuotePlus(s + t) == QuotePlus(s) + QuotePlus(t)
  {
    Utf8.EncodeAppend(s, t);
    PercentEncodeAppend(Utf8.Encode(s), Utf8.Encode(t));
  }

  /** Text made only of unreserved characters is left as it is. */
  lemma {:induction false} QuotePlusUnreserved(s: string)
    requires forall i :: 0 <= i < |s| ==> IsUnreservedChar(s[i])
    ensures QuotePlus(s) == s
  {
    if s != [] {
      assert s == [s[0]] + s[1..];
      QuotePlusAppend([s[0]], s[1..]);
      QuotePlusUnreserved(s[1..]);
      assert Utf8.Encode([s[0]]) == [s[0] as int];
    }
  }

  /** An ASCII character outside the unreserved set, other than space, is
      written as `%` and its two upper-case hexadecimal digits. */
  lemma QuotePlusAsciiReserved(c: char)
    requires c as int < 0x80 && !IsUnreservedChar(c) && c != ' '
    ensures QuotePlus([c]) == ['%', HexDigit(c as int / 16), HexDigit(c as int % 16)]
  {
    var b: Byte := c as int;
    assert Utf8.Encode([c]) == [b];
    assert !IsAlwaysSafe(b) && b != 0x20;
    assert PercentEncode([b]) == QuoteByte(b) + PercentEncode([]);
  }

  /** A space is written as `+`, which sets `quote_plus` apart from
      `quote`; text around it is encoded as it would be alone. */
  lemma QuotePlusSpace(s: string, t: string)
    ensures QuotePlus(" ") == "+"
    ensures QuotePlus(s + " " + t) == QuotePlus(s) + "+" + QuotePlus(t)
  {
    assert Utf8.Encode(" ") == [0x20] by {
      assert Utf8.Encode(" ") == Utf8.EncodeChar(' ') + Utf8.Encode([]);
    }
    assert PercentEncode([0x20]) == QuoteByte(0x20) + PercentEncode([]);
    QuotePlusAppend(s, " ");
    QuotePlusAppend(s + " ", t);
  }

  /** A URL `scheme://host/path` whose parts are unreserved text keeps the
      parts and escapes its separators: `:` as `%3A` and `/` as `%2F`. */
  lemma QuotePlusSimpleUrl(scheme: string, host: string, path: string)
    requires forall i :: 0 <= i < |scheme| ==> IsUnreservedChar(scheme[i])
    requires forall i :: 0 <= i < |host| ==> IsUnreservedChar(host[i])
    requires forall i :: 0 <= i < |path| ==> IsUnreservedChar(path[i])
    ensures QuotePlus(scheme + "://" + host + "/" + path) == scheme + "%3A%2F%2F" + host + "%2F" + path
  {
    var p1 := scheme + "://";
    assert QuotePlus(p1) == scheme + "%3A%2F%2F" by {
      QuotePlusUnreserved(scheme);
      QuotePlusAppend(scheme, "://");
      QuotePlusSeparators();
    }
    var p2 := p1 + host;
    assert QuotePlus(p2) == scheme + "%3A%2F%2F" + host by {
      QuotePlusUnreserved(host);
      QuotePlusAppend(p1, host);
    }
    var p3 := p2 + "/";
    assert QuotePlus(p3) == scheme + "%3A%2F%2F" + host + "%2F" by {
      QuotePlusAppend(p2, "/");
      QuotePlusSeparators();
    }
    assert QuotePlus(p3 + path) == scheme + "%3A%2F%2F" + host + "%2F" + path by {
      QuotePlusUnreserved(path);
      QuotePlusAppend(p3, path);
    }
  }

  lemma QuotePlusSeparators()
    ensures QuotePlus("/") == "%2F"
    ensures QuotePlus("://") == "%3A%2F%2F"
  {
    QuotePlusAsciiReserved(':');
    QuotePlusAsciiReserved('/');
    QuotePlusAppend(":", "/");
    QuotePlusAppend(":/", "/");
    assert ":" + "/" == ":/" && ":/" + "/" == "://";
    assert "%3A" + "%2F" + "%2F" == "%3A%2F%2F";
  }
}
