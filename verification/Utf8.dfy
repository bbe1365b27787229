/** The check on external paths (module Bincode) against the definition of UTF-8 (RFC 3629, section 3). */
module Utf8 {
  import opened Wrappers
  import opened Bincode

  /** A code point that is not a surrogate. */
  type Scalar = n: int | 0 <= n < 0xD800 || 0xE000 <= n < 0x11_0000

  function EncodeScalar(n: Scalar): Bytes {
    if n < 0x80 then [n]
    else if n < 0x800 then [0xC0 + n / 64, 0x80 + n % 64]
    else if n < 0x1_0000 then [0xE0 + n / 4096, 0x80 + n / 64 % 64, 0x80 + n % 64]
    else [0xF0 + n / 262144, 0x80 + n / 4096 % 64, 0x80 + n / 64 % 64, 0x80 + n % 64]
  }

  function EncodeText(text: seq<Scalar>): Bytes {
    if text == [] then [] else EncodeScalar(text[0]) + EncodeText(text[1..])
  }

  /** An encoded scalar is recognised with its whole length, whatever follows it. */
  lemma EncodedIsRecognised(n: Scalar, rest: Bytes)
    ensures Utf8Length(EncodeScalar(n) + rest) == |EncodeScalar(n)|
  {
    var s := EncodeScalar(n) + rest;
    assert forall i :: 0 <= i < |EncodeScalar(n)| ==> s[i] == EncodeScalar(n)[i];
  }

  lemma Digits2(a: nat, b: nat)
    requires b < 64
    ensures var n := a * 64 + b; n / 64 == a && n % 64 == b
  {
  }

  lemma Digits3(a: nat, b: nat, c: nat)
    requires b < 64 && c < 64
    ensures var n := a * 4096 + b * 64 + c; n / 4096 == a && n / 64 % 64 == b && n % 64 == c
  {
    Digits2(a * 64 + b, c);
  }

  lemma Digits4(a: nat, b: nat, c: nat, d: nat)
    requires b < 64 && c < 64 && d < 64
    ensures var n := a * 262144 + b * 4096 + c * 64 + d;
            n / 262144 == a && n / 4096 % 64 == b && n / 64 % 64 == c && n % 64 == d
  {
    Digits3(a * 64 + b, c, d);
  }

  /** The six bits of a continuation byte. */
  function Bits(s: Bytes, i: nat): (n: nat)
    requires Continuation(s, i)
    ensures n < 64 && s[i] == 0x80 + n
  {
    s[i] as int - 0x80
  }

  lemma Two(s: Bytes) returns (n: Scalar)
    requires Utf8Length(s) == 2
    ensures EncodeScalar(n) == s[..2]
  {
    Digits2(s[0] as int - 0xC0, Bits(s, 1));
    n := (s[0] as int - 0xC0) * 64 + Bits(s, 1);
  }

  lemma Three(s: Bytes) returns (n: Scalar)
    requires Utf8Length(s) == 3
    ensures EncodeScalar(n) == s[..3]
  {
    Digits3(s[0] as int - 0xE0, Bits(s, 1), Bits(s, 2));
    n := (s[0] as int - 0xE0) * 4096 + Bits(s, 1) * 64 + Bits(s, 2);
  }

  lemma Four(s: Bytes) returns (n: Scalar)
    requires Utf8Length(s) == 4
    ensures EncodeScalar(n) == s[..4]
  {
    Digits4(s[0] as int - 0xF0, Bits(s, 1), Bits(s, 2), Bits(s, 3));
    n := (s[0] as int - 0xF0) * 262144 + Bits(s, 1) * 4096 + Bits(s, 2) * 64 + Bits(s, 3);
  }

  /** What is recognised is the encoding of a scalar. */
  lemma RecognisedIsEncoded(s: Bytes) returns (n: Scalar)
    requires Utf8Length(s) > 0
    ensures EncodeScalar(n) == s[..Utf8Length(s)]
  {
    match Utf8Length(s)
    case 1 => n := s[0];
    case 2 => n := Two(s);
    case 3 => n := Three(s);
    case _ => n := Four(s);
  }

  lemma {:induction false} TextIsUtf8(text: seq<Scalar>)
    ensures IsUtf8(EncodeText(text))
  {
    if text != [] {
      var first, rest := EncodeScalar(text[0]), EncodeText(text[1..]);
      TextIsUtf8(text[1..]);
      EncodedIsRecognised(text[0], rest);
      hide Utf8Length;
      assert (first + rest)[|first|..] == rest;
    }
  }

  lemma {:induction false} Utf8IsText(s: Bytes) returns (text: seq<Scalar>)
    requires IsUtf8(s)
    ensures EncodeText(text) == s
    decreases |s|
  {
    text := [];
    if s != [] {
      var n := RecognisedIsEncoded(s);
      text := Utf8IsText(s[Utf8Length(s)..]);
      hide Utf8Length, EncodeScalar;
      assert ([n] + text)[1..] == text;
      text := [n] + text;
    }
  }

  /** The accepted byte strings are exactly the encodings of sequences of scalars. */
  lemma IsUtf8Iff(s: Bytes)
    ensures IsUtf8(s) <==> exists text: seq<Scalar> :: EncodeText(text) == s
  {
    if IsUtf8(s) {
      var text := Utf8IsText(s);
    }
    if text: seq<Scalar> :| EncodeText(text) == s {
      TextIsUtf8(text);
    }
  }
}
