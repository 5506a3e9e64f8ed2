/** application/x-www-form-urlencoded values, as the site's client writes them into
    a query string (Python's requests.get with `params`, which quotes each value with
    quote_plus), and the decoding that undoes it. Only ASCII text is encoded here. */
module FormEncoding {

  /** Characters quote_plus leaves alone: letters, digits and "_.-~". */
  predicate Unreserved(c: char) {
    'A' <= c <= 'Z' || 'a' <= c <= 'z' || '0' <= c <= '9' || c == '_' || c == '.' || c == '-' || c == '~'
  }

  predicate IsAscii(s: string) {
    forall k | 0 <= k < |s| :: s[k] < 128 as char
  }

  predicate IsHex(c: char) {
    '0' <= c <= '9' || 'A' <= c <= 'F' || 'a' <= c <= 'f'
  }

  /** The upper-case hex digit quote_plus prints for `n`. */
  function HexDigit(n: nat): (r: char)
    requires n < 16
    ensures IsHex(r) && HexValue(r) == n
  {
    if n < 10 then ('0' as int + n) as char else ('A' as int + n - 10) as char
  }

  function HexValue(c: char): (r: nat)
    requires IsHex(c)
    ensures r < 16
  {
    if '0' <= c <= '9' then c as int - '0' as int
    else if 'A' <= c <= 'F' then c as int - 'A' as int + 10
    else c as int - 'a' as int + 10
  }

  /** One character quoted: itself, '+' for a space, or '%' and two hex digits. */
  function EncodeChar(c: char): (r: string)
    requires c < 128 as char
  {
    if Unreserved(c) then [c]
    else if c == ' ' then "+"
    else "%" + [HexDigit(c as int / 16), HexDigit(c as int % 16)]
  }

  /** quote_plus(s). */
  function Encode(s: string): (r: string)
    requires IsAscii(s)
    decreases |s|
  {
    if s == [] then [] else EncodeChar(s[0]) + Encode(s[1..])
  }

  /** unquote_plus: '+' is a space, '%' and two hex digits are the character with that
      code, any other character stands for itself. */
  function Decode(s: string): (r: string)
    decreases |s|
  {
    if s == [] then []
    else if s[0] == '+' then " " + Decode(s[1..])
    else if s[0] == '%' && |s| >= 3 && IsHex(s[1]) && IsHex(s[2]) then
      [(16 * HexValue(s[1]) + HexValue(s[2])) as char] + Decode(s[3..])
    else [s[0]] + Decode(s[1..])
  }

  /** What quote_plus prints: unreserved characters, '+' and '%' with hex digits. */
  predicate IsEncoded(s: string) {
    forall k | 0 <= k < |s| :: Unreserved(s[k]) || s[k] == '+' || s[k] == '%'
  }

  /** Decoding undoes encoding. */
  lemma {:induction false} DecodeEncode(s: string)
    requires IsAscii(s)
    ensures Decode(Encode(s)) == s
    decreases |s|
  {
    if s != [] {
      var c, rest := s[0], Encode(s[1..]);
      var e := EncodeChar(c) + rest;
      DecodeEncode(s[1..]);
      if Unreserved(c) {
        assert e[0] == c && e[1..] == rest;
      } else if c == ' ' {
        assert e[0] == '+' && e[1..] == rest;
      } else {
        assert e[..3] == EncodeChar(c) && e[3..] == rest;
        assert 16 * (c as int / 16) + c as int % 16 == c as int;
      }
      assert s == [c] + s[1..];
    }
  }

  /** Every character of an encoding is one quote_plus prints. */
  lemma {:induction false} EncodeIsEncoded(s: string)
    requires IsAscii(s)
    ensures IsEncoded(Encode(s))
    decreases |s|
  {
    if s != [] {
      EncodeIsEncoded(s[1..]);
      var head, rest := EncodeChar(s[0]), Encode(s[1..]);
      forall k | 0 <= k < |head + rest|
        ensures Unreserved((head + rest)[k]) || (head + rest)[k] == '+' || (head + rest)[k] == '%'
      {
        if k >= |head| { assert (head + rest)[k] == rest[k - |head|]; }
      }
    }
  }

  /** Encoding a concatenation encodes each part. */
  lemma {:induction false} EncodeAppend(a: string, b: string)
    requires IsAscii(a) && IsAscii(b)
    ensures IsAscii(a + b) && Encode(a + b) == Encode(a) + Encode(b)
    decreases |a|
  {
    assert forall k | 0 <= k < |a + b| :: (a + b)[k] == if k < |a| then a[k] else b[k - |a|];
    if a != [] {
      assert (a + b)[0] == a[0] && (a + b)[1..] == a[1..] + b;
      EncodeAppend(a[1..], b);
    } else {
      assert a + b == b;
    }
  }

  /** Text made of unreserved characters encodes as itself. */
  lemma {:induction false} EncodeUnreserved(s: string)
    requires forall k | 0 <= k < |s| :: Unreserved(s[k])
    ensures IsAscii(s) && Encode(s) == s
    decreases |s|
  {
    if s != [] {
      EncodeUnreserved(s[1..]);
      assert s == [s[0]] + s[1..];
    }
  }

  /** Only empty text encodes as empty text. */
  lemma EncodeEmpty(s: string)
    requires IsAscii(s)
    ensures Encode(s) == [] <==> s == []
  {
  }
}
