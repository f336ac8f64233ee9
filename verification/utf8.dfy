/** UTF-8 (RFC 3629): encoding of text, and the decoder that puts U+FFFD in place of every maximal
    ill-formed part of its input. */
module Utf8 {
  import opened Text

  type byte = b: int | 0 <= b < 256

  const FEED: byte := 10
  const REPLACEMENT: char := '\U{FFFD}'

  predicate Continues(b: seq<byte>, i: nat) {
    i < |b| && 0x80 <= b[i] <= 0xBF
  }

  /** The second byte a lead byte of a three- or four-byte form allows (section 4 of RFC 3629). */
  predicate SecondFits(lead: byte, b: seq<byte>) {
    && Continues(b, 1)
    && (lead == 0xE0 ==> b[1] >= 0xA0)
    && (lead == 0xED ==> b[1] <= 0x9F)
    && (lead == 0xF0 ==> b[1] >= 0x90)
    && (lead == 0xF4 ==> b[1] <= 0x8F)
  }

  /** Six more bits, taken from a continuation byte. */
  function Append(high: int, low: byte): int { high * 64 + low - 0x80 }

  /** The first character of non-empty input and the number of bytes it takes up. */
  function DecodeOne(b: seq<byte>): (r: (char, nat))
    requires b != []
    ensures 1 <= r.1 <= |b|
    ensures forall i | 1 <= i < r.1 :: Continues(b, i)
    ensures r.0 == '\n' ==> r.1 == 1 && b[0] == FEED
  {
    var lead := b[0];
    if lead < 0x80 then (lead as char, 1)
    else if 0xC2 <= lead <= 0xDF then
      if !Continues(b, 1) then (REPLACEMENT, 1)
      else (Append(lead - 0xC0, b[1]) as char, 2)
    else if 0xE0 <= lead <= 0xEF then
      if !SecondFits(lead, b) then (REPLACEMENT, 1)
      else if !Continues(b, 2) then (REPLACEMENT, 2)
      else (Append(Append(lead - 0xE0, b[1]), b[2]) as char, 3)
    else if 0xF0 <= lead <= 0xF4 then
      if !SecondFits(lead, b) then (REPLACEMENT, 1)
      else if !Continues(b, 2) then (REPLACEMENT, 2)
      else if !Continues(b, 3) then (REPLACEMENT, 3)
      else (Append(Append(Append(lead - 0xF0, b[1]), b[2]), b[3]) as char, 4)
    else (REPLACEMENT, 1)
  }

  function Decode(b: seq<byte>): string {
    if b == [] then ""
    else
      var (c, n) := DecodeOne(b);
      [c] + Decode(b[n..])
  }

  function EncodeOne(c: char): (r: seq<byte>)
    ensures r != []
  {
    var u := c as int;
    if u < 0x80 then [u]
    else if u < 0x800 then [0xC0 + u / 64, 0x80 + u % 64]
    else if u < 0x10000 then [0xE0 + u / 64 / 64, 0x80 + u / 64 % 64, 0x80 + u % 64]
    else [0xF0 + u / 64 / 64 / 64, 0x80 + u / 64 / 64 % 64, 0x80 + u / 64 % 64, 0x80 + u % 64]
  }

  function Encode(s: string): seq<byte> {
    if s == "" then [] else EncodeOne(s[0]) + Encode(s[1..])
  }

  lemma AppendDivides(u: nat)
    ensures 0x80 + u % 64 < 256 && Append(u / 64, 0x80 + u % 64) == u
  {
  }

  lemma DecodeEncodeOne(c: char, rest: seq<byte>)
    ensures DecodeOne(EncodeOne(c) + rest) == (c, |EncodeOne(c)|)
  {
    var u := c as int;
    AppendDivides(u);
    AppendDivides(u / 64);
    AppendDivides(u / 64 / 64);
    hide Append;
    if u < 0x80 {
    } else if u < 0x800 {
      DecodeTwo(EncodeOne(c), rest);
    } else if u < 0x10000 {
      DecodeThree(EncodeOne(c), rest);
    } else {
      DecodeFour(EncodeOne(c), rest);
    }
  }

  lemma DecodeTwo(b: seq<byte>, rest: seq<byte>)
    requires |b| == 2 && 0xC2 <= b[0] <= 0xDF && Continues(b, 1)
    ensures DecodeOne(b + rest) == (Append(b[0] - 0xC0, b[1]) as char, 2)
  {
  }

  lemma DecodeThree(b: seq<byte>, rest: seq<byte>)
    requires |b| == 3 && 0xE0 <= b[0] <= 0xEF && SecondFits(b[0], b) && Continues(b, 2)
    ensures DecodeOne(b + rest) == (Append(Append(b[0] - 0xE0, b[1]), b[2]) as char, 3)
  {
    assert Continues(b + rest, 2);
  }

  lemma DecodeFour(b: seq<byte>, rest: seq<byte>)
    requires |b| == 4 && 0xF0 <= b[0] <= 0xF4 && SecondFits(b[0], b) && Continues(b, 2) && Continues(b, 3)
    ensures DecodeOne(b + rest) == (Append(Append(Append(b[0] - 0xF0, b[1]), b[2]), b[3]) as char, 4)
  {
    assert Continues(b + rest, 2) && Continues(b + rest, 3);
  }

  /** Decoding undoes encoding. */
  lemma {:induction false} DecodeEncode(s: string)
    ensures Decode(Encode(s)) == s
  {
    if s != "" {
      DecodeEncodeOne(s[0], Encode(s[1..]));
      assert (EncodeOne(s[0]) + Encode(s[1..]))[|EncodeOne(s[0])|..] == Encode(s[1..]);
      DecodeEncode(s[1..]);
    }
  }

  lemma EncodeInjective(s: string, t: string)
    requires Encode(s) == Encode(t)
    ensures s == t
  {
    DecodeEncode(s);
    DecodeEncode(t);
  }

  /** Empty, or closed by a line feed. */
  predicate ClosedBytes(b: seq<byte>) { b == [] || b[|b| - 1] == FEED }

  lemma DecodeOneLocal(a: seq<byte>, b: seq<byte>)
    requires a != [] && ClosedBytes(a)
    ensures DecodeOne(a + b) == DecodeOne(a)
  {
    assert a[|a| - 1] == FEED;
    assert forall i: nat | i < |a| :: Continues(a + b, i) <==> Continues(a, i);
    assert !Continues(a + b, |a| - 1);
    assert |a| > 1 ==> (a + b)[1] == a[1];
    assert |a| > 2 ==> (a + b)[2] == a[2];
    assert |a| > 3 ==> (a + b)[3] == a[3];
  }

  /** Input may be decoded piece by piece, each piece closed by a line feed: no character spans one. */
  lemma {:induction false} DecodeConcat(a: seq<byte>, b: seq<byte>)
    requires ClosedBytes(a)
    ensures Decode(a + b) == Decode(a) + Decode(b)
  {
    if a == [] {
      assert a + b == b;
    } else {
      DecodeOneLocal(a, b);
      var n := DecodeOne(a).1;
      assert (a + b)[n..] == a[n..] + b;
      DecodeConcat(a[n..], b);
    }
  }

  lemma {:induction false} DecodeClosed(a: seq<byte>)
    requires ClosedBytes(a)
    ensures Closed(Decode(a)) && (a != [] ==> Decode(a) != "")
  {
    if a != [] {
      var n := DecodeOne(a).1;
      if n == |a| {
        assert !Continues(a, |a| - 1);
        assert Decode(a[n..]) == "";
      } else {
        DecodeClosed(a[n..]);
      }
    }
  }

  lemma {:induction false} DecodeFeedFree(a: seq<byte>)
    requires FEED !in a
    ensures '\n' !in Decode(a) && (a == [] <==> Decode(a) == "")
  {
    if a != [] {
      DecodeFeedFree(a[DecodeOne(a).1..]);
    }
  }

  lemma {:induction false} EncodeFeedFree(s: string)
    requires '\n' !in s
    ensures FEED !in Encode(s)
  {
    if s != "" {
      assert s[0] in s && FEED !in EncodeOne(s[0]);
      EncodeFeedFree(s[1..]);
    }
  }
}
