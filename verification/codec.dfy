/** The obscuring codec: `xorEnc` flips the two low bits of every byte and
    appends the marker "!@"; `xorDec` drops the last two bytes and flips the
    rest back, or yields the empty string for inputs shorter than two bytes. */
module Codec {
  import opened Bytes

  /** The marker `xorEnc` appends. */
  const MARKER: Bytes := Ascii("!@")

  /** `c ^ 3` on one byte: the two low bits flip, the others stay. Written
      with integer arithmetic, as `(c ^ 3) % 4 == 3 - c % 4`. */
  function Xor3(b: Byte): (r: Byte)
    ensures r / 4 == b / 4 && r % 4 == 3 - b % 4
  {
    (b / 4) * 4 + (3 - b % 4)
  }

  /** XOR every byte with 3: the loop shared by `xorEnc` and `xorDec`. */
  function Flip(s: Bytes): (r: Bytes)
    ensures |r| == |s|
    ensures forall i :: 0 <= i < |s| ==> Xor3(r[i]) == s[i]
  {
    if s == [] then [] else [Xor3(s[0])] + Flip(s[1..])
  }

  function XorEnc(s: Bytes): (r: Bytes)
    ensures |r| == |s| + 2
    ensures r[|s|..] == MARKER
    ensures forall i :: 0 <= i < |s| ==> Xor3(r[i]) == s[i]
  {
    Flip(s) + MARKER
  }

  function XorDec(s: Bytes): (r: Bytes)
    ensures |s| < 2 ==> r == []
    ensures |s| >= 2 ==> |r| == |s| - 2 && forall i :: 0 <= i < |r| ==> Xor3(r[i]) == s[i]
  {
    if |s| < 2 then [] else Flip(s[..|s| - 2])
  }

  /** Flipping twice restores the input. */
  lemma {:induction false} FlipInvolutive(s: Bytes)
    ensures Flip(Flip(s)) == s
  {
    if s != [] {
      FlipInvolutive(s[1..]);
      assert Flip(s) == [Xor3(s[0])] + Flip(s[1..]);
      assert Flip(s)[1..] == Flip(s[1..]);
    }
  }

  /** Decoding an encoding gives back the plaintext, for every byte string. */
  lemma DecodeEncode(s: Bytes)
    ensures XorDec(XorEnc(s)) == s
  {
    assert XorEnc(s)[..|s|] == Flip(s);
    FlipInvolutive(s);
  }

  /** Encoding a decoding gives back the input exactly when the input carries
      the marker: the codec's image is the set of marked strings. */
  lemma EncodeDecode(s: Bytes)
    ensures XorEnc(XorDec(s)) == s <==> (|s| >= 2 && s[|s| - 2..] == MARKER)
  {
    if |s| >= 2 {
      var body := s[..|s| - 2];
      FlipInvolutive(body);
      if s[|s| - 2..] == MARKER {
        assert s == body + MARKER;
      }
    }
  }

  /** The encoding of a secret contains a line break exactly when the secret
      contains a tab (0x09 ^ 3 == 0x0A); the marker contains neither. */
  lemma EncodedNewlineIffTab(s: Bytes)
    ensures NEWLINE in XorEnc(s) <==> TAB in s
  {
    var r := XorEnc(s);
    assert MARKER == [0x21, 0x40];
    if TAB in s {
      var i :| 0 <= i < |s| && s[i] == TAB;
      assert Xor3(r[i]) == TAB;
    }
    if NEWLINE in r {
      var i :| 0 <= i < |r| && r[i] == NEWLINE;
      assert s[i] == Xor3(NEWLINE);
    }
  }
}
