/** The URL- and filename-safe Base64 alphabet of section 5 of RFC 4648, with '=' padding,
    as produced by java.util.Base64.getUrlEncoder(). */
module Base64Url {
  import opened Common

  type Byte = b: int | 0 <= b < 256
  type Sextet = v: int | 0 <= v < 64

  /** The 64 characters of the URL-safe alphabet: A-Z, a-z, 0-9, '-' and '_'. */
  predicate IsUrlSafe(c: char) {
    ('A' <= c <= 'Z') || ('a' <= c <= 'z') || ('0' <= c <= '9') || c == '-' || c == '_'
  }

  /** The character that stands for a six-bit value. */
  function Symbol(v: Sextet): (c: char)
    ensures IsUrlSafe(c)
  {
    if v < 26 then (('A' as int) + v) as char
    else if v < 52 then (('a' as int) + (v - 26)) as char
    else if v < 62 then (('0' as int) + (v - 52)) as char
    else if v == 62 then '-'
    else '_'
  }

  /** The six-bit value a character of the alphabet stands for. */
  function SymbolValue(c: char): (v: Sextet)
    requires IsUrlSafe(c)
  {
    if 'A' <= c <= 'Z' then (c as int) - ('A' as int)
    else if 'a' <= c <= 'z' then (c as int) - ('a' as int) + 26
    else if '0' <= c <= '9' then (c as int) - ('0' as int) + 52
    else if c == '-' then 62
    else 63
  }

  lemma SymbolValueOfSymbol(v: Sextet)
    ensures SymbolValue(Symbol(v)) == v
  {
  }

  /** Number of '=' characters that pad the encoding of n bytes. */
  function PadLength(n: nat): nat {
    (3 - n % 3) % 3
  }

  /** Base64url encoding with padding: every three bytes become four symbols; a final group of
      one or two bytes becomes two or three symbols followed by "==" or "=". */
  function Encode(b: seq<Byte>): (s: string)
    decreases |b|
  {
    if |b| == 0 then ""
    else if |b| == 1 then
      [Symbol(b[0] / 4), Symbol((b[0] % 4) * 16)] + "=="
    else if |b| == 2 then
      [Symbol(b[0] / 4), Symbol((b[0] % 4) * 16 + b[1] / 16), Symbol((b[1] % 16) * 4)] + "="
    else
      Group(b[0], b[1], b[2]) + Encode(b[3..])
  }

  /** The four symbols of a full group of three bytes. */
  function Group(b0: Byte, b1: Byte, b2: Byte): string {
    [Symbol(b0 / 4), Symbol((b0 % 4) * 16 + b1 / 16), Symbol((b1 % 16) * 4 + b2 / 64), Symbol(b2 % 64)]
  }

  /** The inverse: decodes a padded Base64url string; None when it is not one. */
  function Decode(s: string): (r: Option<seq<Byte>>)
    decreases |s|
  {
    if |s| == 0 then Some([])
    else if |s| < 4 || !IsUrlSafe(s[0]) || !IsUrlSafe(s[1]) then None
    else
      var c0, c1 := SymbolValue(s[0]), SymbolValue(s[1]);
      var b0: Byte := c0 * 4 + c1 / 16;
      if |s| == 4 && s[2] == '=' && s[3] == '=' then Some([b0])
      else if !IsUrlSafe(s[2]) then None
      else
        var c2 := SymbolValue(s[2]);
        var b1: Byte := (c1 % 16) * 16 + c2 / 4;
        if |s| == 4 && s[3] == '=' then Some([b0, b1])
        else if !IsUrlSafe(s[3]) then None
        else
          var b2: Byte := (c2 % 4) * 64 + SymbolValue(s[3]);
          match Decode(s[4..])
          case None => None
          case Some(rest) => Some([b0, b1, b2] + rest)
  }

  /** The bit arithmetic of one group of three bytes is reversible. */
  lemma GroupRoundTrip(b0: Byte, b1: Byte, b2: Byte)
    ensures (b0 / 4) * 4 + ((b0 % 4) * 16 + b1 / 16) / 16 == b0
    ensures (((b0 % 4) * 16 + b1 / 16) % 16) * 16 + ((b1 % 16) * 4 + b2 / 64) / 4 == b1
    ensures (((b1 % 16) * 4 + b2 / 64) % 4) * 64 + b2 % 64 == b2
  {
  }

  /** A final group of one byte decodes back. */
  lemma DecodeLastByte(b0: Byte)
    ensures Decode(Encode([b0])) == Some([b0])
  {
    GroupRoundTrip(b0, 0, 0);
    SymbolValueOfSymbol(b0 / 4);
    SymbolValueOfSymbol((b0 % 4) * 16);
    var s := Encode([b0]);
    assert |s| == 4 && s[2] == '=' && s[3] == '=';
  }

  /** A final group of two bytes decodes back. */
  lemma DecodeLastTwoBytes(b0: Byte, b1: Byte)
    ensures Decode(Encode([b0, b1])) == Some([b0, b1])
  {
    var c0, c1, c2 := b0 / 4, (b0 % 4) * 16 + b1 / 16, (b1 % 16) * 4;
    GroupRoundTrip(b0, b1, 0);
    SymbolValueOfSymbol(c0);
    SymbolValueOfSymbol(c1);
    SymbolValueOfSymbol(c2);
    var s := Encode([b0, b1]);
    assert s == [Symbol(c0), Symbol(c1), Symbol(c2), '='];
    assert SymbolValue(s[0]) == c0 && SymbolValue(s[1]) == c1 && SymbolValue(s[2]) == c2;
    assert c0 * 4 + c1 / 16 == b0;
    assert (c1 % 16) * 16 + c2 / 4 == b1;
  }

  /** A full group decodes to its three bytes, followed by whatever the rest decodes to. */
  lemma DecodeGroup(b0: Byte, b1: Byte, b2: Byte, rest: string)
    ensures Decode(Group(b0, b1, b2) + rest)
            == match Decode(rest)
               case None => None
               case Some(bytes) => Some([b0, b1, b2] + bytes)
  {
    var c0, c1 := b0 / 4, (b0 % 4) * 16 + b1 / 16;
    var c2, c3 := (b1 % 16) * 4 + b2 / 64, b2 % 64;
    GroupRoundTrip(b0, b1, b2);
    SymbolValueOfSymbol(c0);
    SymbolValueOfSymbol(c1);
    SymbolValueOfSymbol(c2);
    SymbolValueOfSymbol(c3);
    var s := Group(b0, b1, b2) + rest;
    assert s[0] == Symbol(c0) && s[1] == Symbol(c1) && s[2] == Symbol(c2) && s[3] == Symbol(c3);
    assert SymbolValue(s[0]) == c0 && SymbolValue(s[1]) == c1;
    assert SymbolValue(s[2]) == c2 && SymbolValue(s[3]) == c3;
    assert c0 * 4 + c1 / 16 == b0;
    assert (c1 % 16) * 16 + c2 / 4 == b1;
    assert (c2 % 4) * 64 + c3 == b2;
    assert s[4..] == rest;
  }

  /** Decoding an encoding gives the bytes back. */
  lemma {:induction false} DecodeEncode(b: seq<Byte>)
    ensures Decode(Encode(b)) == Some(b)
    decreases |b|
  {
    if |b| == 1 {
      DecodeLastByte(b[0]);
      assert b == [b[0]];
    } else if |b| == 2 {
      DecodeLastTwoBytes(b[0], b[1]);
      assert b == [b[0], b[1]];
    } else if |b| > 2 {
      assert b == [b[0], b[1], b[2]] + b[3..];
      assert Encode(b) == Group(b[0], b[1], b[2]) + Encode(b[3..]);
      DecodeGroup(b[0], b[1], b[2], Encode(b[3..]));
      DecodeEncode(b[3..]);
    }
  }

  /** Distinct byte strings have distinct encodings. */
  lemma EncodeInjective(a: seq<Byte>, b: seq<Byte>)
    ensures Encode(a) == Encode(b) <==> a == b
  {
    if Encode(a) == Encode(b) {
      DecodeEncode(a);
      DecodeEncode(b);
    }
  }

  /** The encoding of n bytes has 4 * ceil(n / 3) characters. */
  lemma {:induction false} EncodeLength(b: seq<Byte>)
    ensures |Encode(b)| == 4 * ((|b| + 2) / 3)
    decreases |b|
  {
    if |b| == 1 || |b| == 2 {
      assert |Encode(b)| == 4;
    } else if |b| >= 3 {
      EncodeLength(b[3..]);
      assert Encode(b) == Group(b[0], b[1], b[2]) + Encode(b[3..]);
      assert (|b| + 2) / 3 == (|b| - 1) / 3 + 1;
    }
  }

  /** The encoding uses only URL-safe symbols (never '+' or '/') up to the padding, and only
      '=' in the PadLength(n) positions at the end. */
  lemma {:induction false} EncodeShape(b: seq<Byte>)
    ensures |Encode(b)| == 4 * ((|b| + 2) / 3)
    ensures forall i :: 0 <= i < |Encode(b)| - PadLength(|b|) ==> IsUrlSafe(Encode(b)[i])
    ensures forall i :: |Encode(b)| - PadLength(|b|) <= i < |Encode(b)| ==> Encode(b)[i] == '='
    decreases |b|
  {
    EncodeLength(b);
    if |b| == 1 {
      assert Encode(b) == [Symbol(b[0] / 4), Symbol((b[0] % 4) * 16)] + "==";
    } else if |b| == 2 {
      assert Encode(b) == [Symbol(b[0] / 4), Symbol((b[0] % 4) * 16 + b[1] / 16), Symbol((b[1] % 16) * 4)] + "=";
    } else if |b| >= 3 {
      var rest := b[3..];
      EncodeShape(rest);
      PadLengthFacts(|rest|);
      assert |rest| > 0 ==> |Encode(rest)| >= 4;
      var g := Group(b[0], b[1], b[2]);
      assert Encode(b) == g + Encode(rest);
      ShapeAfterGroup(g, Encode(rest), PadLength(|rest|));
    }
  }

  /** The padding depends only on the length modulo 3, is at most two characters, and is
      empty for no bytes. */
  lemma PadLengthFacts(n: nat)
    ensures PadLength(n + 3) == PadLength(n) && PadLength(n) <= 2 && PadLength(0) == 0
  {
  }

  /** Four symbols in front of a string of symbols and p padding characters give a string of
      symbols and the same p padding characters. */
  lemma ShapeAfterGroup(g: string, t: string, p: int)
    requires |g| == 4 && forall i :: 0 <= i < 4 ==> IsUrlSafe(g[i])
    requires 0 <= p <= |t|
    requires forall i :: 0 <= i < |t| - p ==> IsUrlSafe(t[i])
    requires forall i :: |t| - p <= i < |t| ==> t[i] == '='
    ensures forall i :: 0 <= i < |g + t| - p ==> IsUrlSafe((g + t)[i])
    ensures forall i :: |g + t| - p <= i < |g + t| ==> (g + t)[i] == '='
  {
    forall i | 0 <= i < |g + t| - p
      ensures IsUrlSafe((g + t)[i])
    {
      if i >= 4 { assert (g + t)[i] == t[i - 4]; }
    }
  }

  /** Whole groups encode independently: the encoding of the first 3k bytes is a prefix of the
      encoding of the whole. */
  lemma {:induction false} EncodePrefix(b: seq<Byte>, k: nat)
    requires 3 * k <= |b|
    ensures 4 * k <= |Encode(b)|
    ensures Encode(b)[..4 * k] == Encode(b[..3 * k])
    decreases k
  {
    EncodeShape(b);
    if k > 0 {
      EncodePrefix(b[3..], k - 1);
      assert b[..3 * k][3..] == b[3..][..3 * (k - 1)];
      assert Encode(b)[4..] == Encode(b[3..]);
    }
  }
}
