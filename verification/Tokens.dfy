/**
 Page tokens: the cursor in base64url (section 5 of RFC 4648) without padding
 (section 3.2), read back the way Go's RawURLEncoding reads it: carriage returns and
 line feeds are skipped and the unused low bits of the last digit are not checked.
 */
module Tokens {
  import opened Base

  function Digit(v: int): byte
    requires 0 <= v < 64
  {
    if v < 26 then (65 + v) as byte
    else if v < 52 then (97 + v - 26) as byte
    else if v < 62 then (48 + v - 52) as byte
    else if v == 62 then 45
    else 95
  }

  function Value(b: byte): (r: Option<int>)
    ensures r.Some? ==> 0 <= r.value < 64 && Digit(r.value) == b
    ensures r.None? ==> forall v {:trigger Digit(v)} :: 0 <= v < 64 ==> Digit(v) != b
  {
    var n := b as int;
    if 65 <= n < 91 then Some(n - 65)
    else if 97 <= n < 123 then Some(n - 97 + 26)
    else if 48 <= n < 58 then Some(n - 48 + 52)
    else if n == 45 then Some(62)
    else if n == 95 then Some(63)
    else None
  }

  lemma ValueOfDigit(v: int)
    requires 0 <= v < 64
    ensures Value(Digit(v)) == Some(v)
    ensures Digit(v) != 10 && Digit(v) != 13
  {
  }

  /** Table 2 of RFC 4648, eight digits to a row. */
  function Row(r: int): string
    requires 0 <= r < 8
  {
    match r
    case 0 => "ABCDEFGH"
    case 1 => "IJKLMNOP"
    case 2 => "QRSTUVWX"
    case 3 => "YZabcdef"
    case 4 => "ghijklmn"
    case 5 => "opqrstuv"
    case 6 => "wxyz0123"
    case 7 => "456789-_"
  }

  lemma DigitsAreTheAlphabet(r: int, c: int)
    requires 0 <= r < 8 && 0 <= c < 8
    ensures |Row(r)| == 8 && Digit(8 * r + c) as int == Row(r)[c] as int
  {
    var row := Row(r);
    assert c == 0 || c == 1 || c == 2 || c == 3 || c == 4 || c == 5 || c == 6 || c == 7;
  }

  // The digit values of a group of one, two or three bytes, and the digits.
  function V0(a: byte): (v: int) ensures 0 <= v < 64 { a as int / 4 }
  function V1(a: byte, b: byte): (v: int) ensures 0 <= v < 64 { a as int % 4 * 16 + b as int / 16 }
  function V2(b: byte, c: byte): (v: int) ensures 0 <= v < 64 { b as int % 16 * 4 + c as int / 64 }
  function V3(c: byte): (v: int) ensures 0 <= v < 64 { c as int % 64 }

  function D0(a: byte): byte { Digit(V0(a)) }
  function D1(a: byte, b: byte): byte { Digit(V1(a, b)) }
  function D2(b: byte, c: byte): byte { Digit(V2(b, c)) }
  function D3(c: byte): byte { Digit(V3(c)) }

  function Encode(s: Str): Str {
    if s == [] then []
    else if |s| == 1 then [D0(s[0]), D1(s[0], 0)]
    else if |s| == 2 then [D0(s[0]), D1(s[0], s[1]), D2(s[1], 0)]
    else [D0(s[0]), D1(s[0], s[1]), D2(s[1], s[2]), D3(s[2])] + Encode(s[3..])
  }

  /** The values are the base-64 digits of the number whose base-256 digits are the bytes. */
  lemma GroupIsANumber(a: byte, b: byte, c: byte)
    ensures 65536 * (a as int) + 256 * (b as int) + c as int
            == 262144 * V0(a) + 4096 * V1(a, b) + 64 * V2(b, c) + V3(c)
  {
    Quotients(a as int, 4);
    Quotients(b as int, 16);
    Quotients(c as int, 64);
    AddUp(a as int / 4, a as int % 4, b as int / 16, b as int % 16, c as int / 64, c as int % 64);
  }

  lemma Quotients(n: int, d: int)
    requires d > 0
    ensures n == n / d * d + n % d
  {
  }

  lemma AddUp(v: int, x: int, y: int, z: int, p: int, w: int)
    ensures 65536 * (v * 4 + x) + 256 * (y * 16 + z) + (p * 64 + w)
            == 262144 * v + 4096 * (x * 16 + y) + 64 * (z * 4 + p) + w
  {
  }

  /** Test vectors of section 10 of RFC 4648: "f", "fo", "foo" and "foobar". */
  lemma TestVectors()
    ensures Encode([102]) == [90, 103]
    ensures Encode([102, 111]) == [90, 109, 56]
    ensures Encode([102, 111, 111]) == [90, 109, 57, 118]
    ensures Encode([102, 111, 111, 98, 97, 114]) == [90, 109, 57, 118, 89, 109, 70, 121]
  {
    var s: Str := [102, 111, 111, 98, 97, 114];
    assert s[3..] == [98, 97, 114] && s[3..][3..] == [];
    assert Encode([98, 97, 114]) == [89, 109, 70, 121];
    var foo: Str := [102, 111, 111];
    assert foo[3..] == [];
  }

  // The bytes of a group of digit values.
  function B0(v: int, w: int): byte
    requires 0 <= v < 64 && 0 <= w < 64
  {
    (v * 4 + w / 16) as byte
  }

  function B1(w: int, x: int): byte
    requires 0 <= w < 64 && 0 <= x < 64
  {
    (w % 16 * 16 + x / 4) as byte
  }

  function B2(x: int, y: int): byte
    requires 0 <= x < 64 && 0 <= y < 64
  {
    (x % 4 * 64 + y) as byte
  }

  function Strip(t: Str): Str {
    if t == [] then []
    else if t[0] == 10 || t[0] == 13 then Strip(t[1..])
    else [t[0]] + Strip(t[1..])
  }

  function DecodeGroups(t: Str): Option<Str> {
    if t == [] then Some([])
    else if |t| == 1 then None
    else
      var v, w := Value(t[0]), Value(t[1]);
      if v == None || w == None then None
      else if |t| == 2 then Some([B0(v.value, w.value)])
      else
        var x := Value(t[2]);
        if x == None then None
        else if |t| == 3 then Some([B0(v.value, w.value), B1(w.value, x.value)])
        else
          var y := Value(t[3]);
          var rest := DecodeGroups(t[4..]);
          if y == None || rest == None then None
          else Some([B0(v.value, w.value), B1(w.value, x.value), B2(x.value, y.value)] + rest.value)
  }

  function Decode(t: Str): Option<Str> {
    DecodeGroups(Strip(t))
  }

  /** The service's tokens: the empty cursor is the empty token. */
  function EncodePageToken(after: Str): Str {
    if after == [] then [] else Encode(after)
  }

  function DecodePageToken(token: Str): Option<Str> {
    if token == [] then Some([]) else Decode(token)
  }

  // ---------------------------------------------------------------------------
  // Reading back what was written

  lemma BytesOfValues(a: byte, b: byte, c: byte)
    ensures B0(V0(a), V1(a, b)) == a && B1(V1(a, b), V2(b, c)) == b && B2(V2(b, c), V3(c)) == c
  {
  }

  lemma DigitValues(a: byte, b: byte, c: byte)
    ensures Value(D0(a)) == Some(V0(a)) && Value(D1(a, b)) == Some(V1(a, b))
    ensures Value(D2(b, c)) == Some(V2(b, c)) && Value(D3(c)) == Some(V3(c))
  {
    ValueOfDigit(V0(a));
    ValueOfDigit(V1(a, b));
    ValueOfDigit(V2(b, c));
    ValueOfDigit(V3(c));
  }

  /** Decoding one full group in front of `rest`. */
  lemma DecodeFullGroup(g: Str, rest: Str, v: int, w: int, x: int, y: int)
    requires |g| == 4 && Value(g[0]) == Some(v) && Value(g[1]) == Some(w)
    requires Value(g[2]) == Some(x) && Value(g[3]) == Some(y)
    ensures DecodeGroups(g + rest) ==
            if DecodeGroups(rest) == None then None
            else Some([B0(v, w), B1(w, x), B2(x, y)] + DecodeGroups(rest).value)
  {
    var t := g + rest;
    assert t[0] == g[0] && t[1] == g[1] && t[2] == g[2] && t[3] == g[3] && t[4..] == rest;
  }

  lemma DecodeShortGroup(g: Str, v: int, w: int, x: int)
    requires 2 <= |g| <= 3 && Value(g[0]) == Some(v) && Value(g[1]) == Some(w)
    requires 0 <= x < 64 && (|g| == 3 ==> Value(g[2]) == Some(x))
    ensures DecodeGroups(g) == Some(if |g| == 2 then [B0(v, w)] else [B0(v, w), B1(w, x)])
  {
  }

  lemma OneByteRoundTrip(a: byte)
    ensures DecodeGroups([D0(a), D1(a, 0)]) == Some([a])
  {
    DigitValues(a, 0, 0);
    DecodeShortGroup([D0(a), D1(a, 0)], V0(a), V1(a, 0), 0);
    BytesOfValues(a, 0, 0);
  }

  lemma TwoByteRoundTrip(a: byte, b: byte)
    ensures DecodeGroups([D0(a), D1(a, b), D2(b, 0)]) == Some([a, b])
  {
    DigitValues(a, b, 0);
    DecodeShortGroup([D0(a), D1(a, b), D2(b, 0)], V0(a), V1(a, b), V2(b, 0));
    BytesOfValues(a, b, 0);
  }

  lemma {:induction false} GroupsRoundTrip(s: Str)
    ensures DecodeGroups(Encode(s)) == Some(s)
    decreases |s|, 1
  {
    if |s| == 1 {
      OneByteRoundTrip(s[0]);
      assert s == [s[0]];
    } else if |s| == 2 {
      TwoByteRoundTrip(s[0], s[1]);
      assert s == [s[0], s[1]];
    } else if |s| > 2 {
      FullGroupRoundTrip(s[0], s[1], s[2], s[3..]);
      assert s == [s[0], s[1], s[2]] + s[3..];
    }
  }

  lemma {:induction false} FullGroupRoundTrip(a: byte, b: byte, c: byte, rest: Str)
    ensures DecodeGroups([D0(a), D1(a, b), D2(b, c), D3(c)] + Encode(rest)) == Some([a, b, c] + rest)
    decreases |rest|, 2
  {
    GroupsRoundTrip(rest);
    DigitValues(a, b, c);
    DecodeFullGroup([D0(a), D1(a, b), D2(b, c), D3(c)], Encode(rest), V0(a), V1(a, b), V2(b, c), V3(c));
    BytesOfValues(a, b, c);
  }

  predicate NoLineBreaks(t: Str) {
    forall i :: 0 <= i < |t| ==> t[i] != 10 && t[i] != 13
  }

  lemma {:induction false} StripKeeps(t: Str)
    ensures NoLineBreaks(t) <==> Strip(t) == t
    ensures |Strip(t)| <= |t| && NoLineBreaks(Strip(t))
  {
    if t != [] {
      StripKeeps(t[1..]);
      assert t == [t[0]] + t[1..];
      if NoLineBreaks(t) {
        assert NoLineBreaks(t[1..]);
      } else if t[0] != 10 && t[0] != 13 {
        assert !NoLineBreaks(t[1..]);
        assert Strip(t)[1..] == Strip(t[1..]);
      }
    }
  }

  lemma {:induction false} EncodeHasNoLineBreaks(s: Str)
    ensures NoLineBreaks(Encode(s))
    ensures s != [] ==> Encode(s) != []
  {
    if s != [] {
      var b := if |s| > 1 then s[1] else 0;
      var c := if |s| > 2 then s[2] else 0;
      ValueOfDigit(V0(s[0]));
      ValueOfDigit(V1(s[0], b));
      ValueOfDigit(V2(b, c));
      ValueOfDigit(V3(c));
      if |s| > 2 {
        EncodeHasNoLineBreaks(s[3..]);
      }
    }
  }

  /** Every cursor survives the trip through its token, and only the empty cursor has the empty token. */
  lemma TokenRoundTrip(after: Str)
    ensures DecodePageToken(EncodePageToken(after)) == Some(after)
    ensures EncodePageToken(after) == [] <==> after == []
  {
    GroupsRoundTrip(after);
    EncodeHasNoLineBreaks(after);
    StripKeeps(Encode(after));
  }

  // ---------------------------------------------------------------------------
  // Which tokens are written

  /** The unused low bits of the last digit are zero. */
  predicate ZeroTail(t: Str) {
    var n := |t|;
    && (n % 4 == 2 ==> Value(t[n - 1]).Some? && Value(t[n - 1]).value % 16 == 0)
    && (n % 4 == 3 ==> Value(t[n - 1]).Some? && Value(t[n - 1]).value % 4 == 0)
  }

  lemma ValuesOfBytes(v: int, w: int, x: int, y: int)
    requires 0 <= v < 64 && 0 <= w < 64 && 0 <= x < 64 && 0 <= y < 64
    ensures V0(B0(v, w)) == v && V1(B0(v, w), B1(w, x)) == w && V2(B1(w, x), B2(x, y)) == x && V3(B2(x, y)) == y
    ensures V1(B0(v, w), 0) == w - w % 16 && V2(B1(w, x), 0) == x - x % 4
  {
  }

  lemma DigitsOfBytes(v: int, w: int, x: int, y: int)
    requires 0 <= v < 64 && 0 <= w < 64 && 0 <= x < 64 && 0 <= y < 64
    ensures D0(B0(v, w)) == Digit(v)
    ensures D1(B0(v, w), B1(w, x)) == Digit(w)
    ensures D2(B1(w, x), B2(x, y)) == Digit(x)
    ensures D3(B2(x, y)) == Digit(y)
    ensures D1(B0(v, w), 0) == Digit(w) <==> w % 16 == 0
    ensures D2(B1(w, x), 0) == Digit(x) <==> x % 4 == 0
  {
    ValuesOfBytes(v, w, x, y);
    ValueOfDigit(w);
    ValueOfDigit(w - w % 16);
    ValueOfDigit(x);
    ValueOfDigit(x - x % 4);
  }

  lemma TwoDigitsCanonical(d: byte, e: byte, v: int, w: int)
    requires Value(d) == Some(v) && Value(e) == Some(w)
    ensures DecodeGroups([d, e]) == Some([B0(v, w)])
    ensures Encode([B0(v, w)]) == [d, e] <==> w % 16 == 0
  {
    DigitsOfBytes(v, w, 0, 0);
    DecodeShortGroup([d, e], v, w, 0);
    assert Encode([B0(v, w)]) == [D0(B0(v, w)), D1(B0(v, w), 0)];
  }

  lemma ThreeDigitsCanonical(d: byte, e: byte, f: byte, v: int, w: int, x: int)
    requires Value(d) == Some(v) && Value(e) == Some(w) && Value(f) == Some(x)
    ensures DecodeGroups([d, e, f]) == Some([B0(v, w), B1(w, x)])
    ensures Encode([B0(v, w), B1(w, x)]) == [d, e, f] <==> x % 4 == 0
  {
    DigitsOfBytes(v, w, x, 0);
    DecodeShortGroup([d, e, f], v, w, x);
    assert Encode([B0(v, w), B1(w, x)]) == [D0(B0(v, w)), D1(B0(v, w), B1(w, x)), D2(B1(w, x), 0)];
  }

  lemma FullGroupCanonical(g: Str, rest: Str, v: int, w: int, x: int, y: int)
    requires |g| == 4 && Value(g[0]) == Some(v) && Value(g[1]) == Some(w)
    requires Value(g[2]) == Some(x) && Value(g[3]) == Some(y)
    requires DecodeGroups(rest).Some?
    ensures DecodeGroups(g + rest).Some?
    ensures Encode(DecodeGroups(g + rest).value) == g + Encode(DecodeGroups(rest).value)
  {
    DecodeFullGroup(g, rest, v, w, x, y);
    DigitsOfBytes(v, w, x, y);
    var s := [B0(v, w), B1(w, x), B2(x, y)] + DecodeGroups(rest).value;
    assert s[3..] == DecodeGroups(rest).value;
    assert [D0(s[0]), D1(s[0], s[1]), D2(s[1], s[2]), D3(s[2])] == g;
  }

  lemma {:induction false} GroupsCanonical(t: Str)
    requires DecodeGroups(t).Some?
    ensures Encode(DecodeGroups(t).value) == t <==> ZeroTail(t)
  {
    if |t| == 2 {
      assert t == [t[0], t[1]];
      TwoDigitsCanonical(t[0], t[1], Value(t[0]).value, Value(t[1]).value);
    } else if |t| == 3 {
      assert t == [t[0], t[1], t[2]];
      ThreeDigitsCanonical(t[0], t[1], t[2], Value(t[0]).value, Value(t[1]).value, Value(t[2]).value);
    } else if |t| > 3 {
      var g, rest := t[..4], t[4..];
      assert t == g + rest;
      GroupsCanonical(rest);
      FullGroupCanonical(g, rest, Value(t[0]).value, Value(t[1]).value, Value(t[2]).value, Value(t[3]).value);
      ZeroTailOfRest(t);
    }
  }

  lemma ZeroTailOfRest(t: Str)
    requires |t| > 3
    ensures ZeroTail(t) <==> ZeroTail(t[4..])
  {
  }

  /** Reading is not one-to-one. A token that is accepted is the one the service writes for its
      cursor if and only if it has no line breaks and its unused bits are zero. */
  lemma CanonicalTokens(t: Str)
    requires DecodePageToken(t).Some?
    ensures EncodePageToken(DecodePageToken(t).value) == t <==> NoLineBreaks(t) && ZeroTail(t)
  {
    StripKeeps(t);
    if t != [] {
      var s := Decode(t).value;
      if NoLineBreaks(t) {
        GroupsCanonical(t);
        if s == [] {
          assert Encode(s) == [];
        }
      } else {
        EncodeHasNoLineBreaks(s);
      }
    }
  }

  /** Two tokens for the same cursor: "QQ" and "QR" both mean "A", "Zm8" and "Zm9" both "fo". */
  lemma TokensAreNotUnique()
    ensures DecodePageToken([81, 81]) == Some([65]) == DecodePageToken([81, 82])
    ensures DecodePageToken([90, 109, 56]) == Some([102, 111]) == DecodePageToken([90, 109, 57])
  {
    assert Strip([81, 81]) == [81, 81] && Strip([81, 82]) == [81, 82];
    StripKeeps([90, 109, 56]);
    StripKeeps([90, 109, 57]);
  }

  // ---------------------------------------------------------------------------
  // Which tokens are accepted

  predicate AllDigits(t: Str) {
    forall i :: 0 <= i < |t| ==> Value(t[i]).Some?
  }

  lemma DigitsSplit(t: Str)
    requires |t| >= 4
    ensures AllDigits(t) <==>
            && Value(t[0]).Some? && Value(t[1]).Some? && Value(t[2]).Some? && Value(t[3]).Some?
            && AllDigits(t[4..])
  {
    assert forall i :: 0 <= i < |t[4..]| ==> t[4..][i] == t[i + 4];
    if AllDigits(t[4..]) {
      forall i | 4 <= i < |t| ensures t[i] == t[4..][i - 4] {
      }
    }
  }

  lemma FullGroupAccepted(t: Str)
    requires |t| >= 4
    ensures DecodeGroups(t).Some? <==>
            && Value(t[0]).Some? && Value(t[1]).Some? && Value(t[2]).Some? && Value(t[3]).Some?
            && DecodeGroups(t[4..]).Some?
  {
  }

  lemma ShortGroupAccepted(t: Str)
    requires |t| < 4
    ensures DecodeGroups(t).Some? <==> |t| != 1 && AllDigits(t)
  {
    assert |t| == 2 ==> (AllDigits(t) <==> Value(t[0]).Some? && Value(t[1]).Some?);
    assert |t| == 3 ==> (AllDigits(t) <==> Value(t[0]).Some? && Value(t[1]).Some? && Value(t[2]).Some?);
  }

  /** Accepted exactly if it should be. */
  predicate AcceptedRightly(t: Str) {
    DecodeGroups(t).Some? <==> |t| % 4 != 1 && AllDigits(t)
  }

  lemma GroupAccepted(t: Str)
    requires |t| >= 4 && AcceptedRightly(t[4..])
    ensures AcceptedRightly(t)
  {
    FullGroupAccepted(t);
    DigitsSplit(t);
  }

  lemma {:induction false} GroupsAcceptIff(t: Str)
    ensures AcceptedRightly(t)
    decreases |t|
  {
    if |t| < 4 {
      ShortGroupAccepted(t);
    } else {
      GroupsAcceptIff(t[4..]);
      GroupAccepted(t);
    }
  }

  /** A token is accepted if and only if, line breaks apart, it consists of digits and no digit is left alone
      in its group. */
  lemma AcceptedIff(t: Str)
    ensures DecodePageToken(t).Some? <==> |Strip(t)| % 4 != 1 && AllDigits(Strip(t))
  {
    GroupsAcceptIff(Strip(t));
  }

  lemma StripUnfolds(x: byte, t: Str)
    ensures Strip([x] + t) == if x == 10 || x == 13 then Strip(t) else [x] + Strip(t)
  {
    assert ([x] + t)[1..] == t;
  }

  /** Line feeds and carriage returns are skipped, wherever they are, and nothing else is. */
  lemma {:induction false} StripSkips(a: Str, x: byte, b: Str)
    ensures Strip(a + [x] + b) == if x == 10 || x == 13 then Strip(a + b) else Strip(a) + [x] + Strip(b)
    decreases |a|
  {
    if a == [] {
      assert a + [x] + b == [x] + b && a + b == b;
      StripUnfolds(x, b);
    } else {
      var y, rest := a[0], a[1..];
      StripSkips(rest, x, b);
      assert a + [x] + b == [y] + (rest + [x] + b) && a + b == [y] + (rest + b) && a == [y] + rest;
      StripUnfolds(y, rest + [x] + b);
      StripUnfolds(y, rest + b);
      StripUnfolds(y, rest);
    }
  }
}
