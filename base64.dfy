/** The Base64 encoding of section 4 of RFC 4648: the standard alphabet
    `A-Z a-z 0-9 + /`, with `=` padding, as Python's `base64.b64encode`
    produces it; and the strict decoder that undoes it. */
module Base64 {
  import opened Wrappers

  type Byte = x: int | 0 <= x < 256

  /** The value of one Base64 digit. */
  type Sextet = x: int | 0 <= x < 64

  const Pad: char := '='

  /** The 64 characters of the standard alphabet and nothing else. */
  predicate IsAlphabetChar(c: char)
  {
    'A' <= c <= 'Z' || 'a' <= c <= 'z' || '0' <= c <= '9' || c == '+' || c == '/'
  }

  /** The character for digit value `i` (Table 1 of RFC 4648). */
  function CharOf(i: Sextet): (c: char)
    ensures IsAlphabetChar(c)
  {
    if i < 26 then ('A' as int + i) as char
    else if i < 52 then ('a' as int + (i - 26)) as char
    else if i < 62 then ('0' as int + (i - 52)) as char
    else if i == 62 then '+'
    else '/'
  }

  /** The digit value of `c`, or `None` for a character outside the alphabet. */
  function IndexOf(c: char): Option<Sextet>
  {
    if 'A' <= c <= 'Z' then Some(c as int - 'A' as int)
    else if 'a' <= c <= 'z' then Some(c as int - 'a' as int + 26)
    else if '0' <= c <= '9' then Some(c as int - '0' as int + 52)
    else if c == '+' then Some(62)
    else if c == '/' then Some(63)
    else None
  }

  lemma CharOfIndexOf(i: Sextet)
    ensures IsAlphabetChar(CharOf(i)) && IndexOf(CharOf(i)) == Some(i)
  {
  }

  lemma IndexOfCharOf(c: char)
    ensures IndexOf(c).Some? <==> IsAlphabetChar(c)
    ensures IndexOf(c).Some? ==> CharOf(IndexOf(c).value) == c
  {
  }

  /** Three bytes as four digits: 24 bits cut into four groups of six. */
  function EncodeBlock(b0: Byte, b1: Byte, b2: Byte): string
  {
    [CharOf(b0 / 4), CharOf((b0 % 4) * 16 + b1 / 16), CharOf((b1 % 16) * 4 + b2 / 64), CharOf(b2 % 64)]
  }

  /** Two final bytes: three digits, the last padded with zero bits, then one `=`. */
  function EncodeTail2(b0: Byte, b1: Byte): string
  {
    [CharOf(b0 / 4), CharOf((b0 % 4) * 16 + b1 / 16), CharOf((b1 % 16) * 4), Pad]
  }

  /** One final byte: two digits, the last padded with zero bits, then `==`. */
  function EncodeTail1(b0: Byte): string
  {
    [CharOf(b0 / 4), CharOf((b0 % 4) * 16), Pad, Pad]
  }

  /** `base64.b64encode(data).decode('utf-8')`. */
  function Encode(data: seq<Byte>): string
    decreases |data|
  {
    if |data| >= 3 then EncodeBlock(data[0], data[1], data[2]) + Encode(data[3..])
    else if |data| == 2 then EncodeTail2(data[0], data[1])
    else if |data| == 1 then EncodeTail1(data[0])
    else ""
  }

  /** Four characters for every started group of three bytes, each from the
      alphabet or the pad `=`. */
  lemma {:induction false} EncodeShape(data: seq<Byte>)
    ensures |Encode(data)| == 4 * ((|data| + 2) / 3)
    ensures forall k :: 0 <= k < |Encode(data)| ==> IsAlphabetChar(Encode(data)[k]) || Encode(data)[k] == Pad
    decreases |data|
  {
    if |data| >= 3 {
      var rest := data[3..];
      EncodeShape(rest);
      var head := EncodeBlock(data[0], data[1], data[2]);
      assert Encode(data) == head + Encode(rest);
      assert (|data| + 2) / 3 == (|rest| + 2) / 3 + 1;
      forall k | 0 <= k < |Encode(data)|
        ensures IsAlphabetChar(Encode(data)[k]) || Encode(data)[k] == Pad
      {
        if k >= 4 {
          assert Encode(data)[k] == Encode(rest)[k - 4];
        }
      }
    }
  }

  /** Four digits of a group that is not the last one: exactly three bytes. */
  function DecodeFullGroup(g: string): Option<seq<Byte>>
    requires |g| == 4
  {
    match (IndexOf(g[0]), IndexOf(g[1]), IndexOf(g[2]), IndexOf(g[3]))
    case (Some(c0), Some(c1), Some(c2), Some(c3)) =>
      Some([c0 as int * 4 + c1 / 16, (c1 as int % 16) * 16 + c2 / 4, (c2 as int % 4) * 64 + c3])
    case _ => None
  }

  /** The last group, which may end in `=` or `==`. Padding bits must be
      zero, so that every accepted text is the encoding of what it decodes to. */
  function DecodeLastGroup(g: string): Option<seq<Byte>>
    requires |g| == 4
  {
    if g[3] != Pad then DecodeFullGroup(g)
    else if g[2] != Pad then
      match (IndexOf(g[0]), IndexOf(g[1]), IndexOf(g[2]))
      case (Some(c0), Some(c1), Some(c2)) =>
        if c2 % 4 == 0 then Some([c0 as int * 4 + c1 / 16, (c1 as int % 16) * 16 + c2 / 4]) else None
      case _ => None
    else
      match (IndexOf(g[0]), IndexOf(g[1]))
      case (Some(c0), Some(c1)) =>
        if c1 % 16 == 0 then Some([c0 as int * 4 + c1 / 16]) else None
      case _ => None
  }

  /** Strict Base64 decoding: `None` for a length that is not a multiple of
      four, a character outside the alphabet, misplaced padding or non-zero
      padding bits. */
  function Decode(s: string): Option<seq<Byte>>
    decreases |s|
  {
    if |s| == 0 then Some([])
    else if |s| < 4 then None
    else if |s| == 4 then DecodeLastGroup(s)
    else
      match (DecodeFullGroup(s[..4]), Decode(s[4..]))
      case (Some(head), Some(tail)) => Some(head + tail)
      case _ => None
  }

  /** The four digits of three bytes recombine to those bytes. */
  lemma BlockArithmetic(b0: Byte, b1: Byte, b2: Byte)
    ensures var c1, c2 := (b0 % 4) * 16 + b1 / 16, (b1 % 16) * 4 + b2 / 64;
      (b0 / 4) * 4 + c1 / 16 == b0 && (c1 % 16) * 16 + c2 / 4 == b1 && (c2 % 4) * 64 + b2 % 64 == b2
  {
    DivMod(b0 % 4, b1 / 16, 16);
    DivMod(b1 % 16, b2 / 64, 4);
  }

  lemma DivMod(q: int, r: int, d: int)
    requires d == 4 || d == 16
    requires 0 <= q && 0 <= r < d
    ensures (q * d + r) / d == q && (q * d + r) % d == r
  {
  }

  lemma BlockRoundTrip(b0: Byte, b1: Byte, b2: Byte)
    ensures DecodeFullGroup(EncodeBlock(b0, b1, b2)) == Some([b0, b1, b2])
    ensures DecodeLastGroup(EncodeBlock(b0, b1, b2)) == Some([b0, b1, b2])
  {
    var c0, c1, c2, c3 := b0 / 4, (b0 % 4) * 16 + b1 / 16, (b1 % 16) * 4 + b2 / 64, b2 % 64;
    var g := EncodeBlock(b0, b1, b2);
    assert g == [CharOf(c0), CharOf(c1), CharOf(c2), CharOf(c3)];
    CharOfIndexOf(c0);
    CharOfIndexOf(c1);
    CharOfIndexOf(c2);
    CharOfIndexOf(c3);
    BlockArithmetic(b0, b1, b2);
    assert DecodeFullGroup(g) == Some([c0 * 4 + c1 / 16, (c1 % 16) * 16 + c2 / 4, (c2 % 4) * 64 + c3]);
  }

  lemma Tail2RoundTrip(b0: Byte, b1: Byte)
    ensures DecodeLastGroup(EncodeTail2(b0, b1)) == Some([b0, b1])
  {
    var c0, c1, c2 := b0 / 4, (b0 % 4) * 16 + b1 / 16, (b1 % 16) * 4;
    var g := EncodeTail2(b0, b1);
    assert g == [CharOf(c0), CharOf(c1), CharOf(c2), Pad];
    CharOfIndexOf(c0);
    CharOfIndexOf(c1);
    CharOfIndexOf(c2);
    DivMod(b0 % 4, b1 / 16, 16);
    DivMod(b1 % 16, 0, 4);
    assert c0 * 4 + c1 / 16 == b0 && (c1 % 16) * 16 + c2 / 4 == b1 && c2 % 4 == 0;
  }

  lemma Tail1RoundTrip(b0: Byte)
    ensures DecodeLastGroup(EncodeTail1(b0)) == Some([b0])
  {
    CharOfIndexOf(b0 / 4);
    CharOfIndexOf((b0 % 4) * 16);
  }

  /** Decoding an encoding gives back the bytes exactly. */
  lemma {:induction false} DecodeEncode(data: seq<Byte>)
    ensures Decode(Encode(data)) == Some(data)
    decreases |data|
  {
    if |data| > 3 {
      DecodeEncode(data[3..]);
      DecodeAfterBlock(data);
    } else if |data| > 0 {
      DecodeLastBlock(data);
    }
  }

  /** The encoding of one to three bytes is a single last group. */
  lemma DecodeLastBlock(data: seq<Byte>)
    requires 0 < |data| <= 3
    ensures Decode(Encode(data)) == Some(data)
  {
    if |data| == 3 {
      DecodeThreeBytes(data);
    } else if |data| == 2 {
      DecodeTwoBytes(data);
    } else {
      DecodeOneByte(data);
    }
  }

  lemma DecodeThreeBytes(data: seq<Byte>)
    requires |data| == 3
    ensures Decode(Encode(data)) == Some(data)
  {
    var head := EncodeBlock(data[0], data[1], data[2]);
    assert Encode(data[3..]) == "";
    assert Encode(data) == head + "" == head;
    BlockRoundTrip(data[0], data[1], data[2]);
    FirstThree(data);
  }

  lemma DecodeTwoBytes(data: seq<Byte>)
    requires |data| == 2
    ensures Decode(Encode(data)) == Some(data)
  {
    Tail2RoundTrip(data[0], data[1]);
    assert [data[0], data[1]] == data;
  }

  lemma DecodeOneByte(data: seq<Byte>)
    requires |data| == 1
    ensures Decode(Encode(data)) == Some(data)
  {
    Tail1RoundTrip(data[0]);
    assert [data[0]] == data;
  }

  lemma EncodeNonEmpty(data: seq<Byte>)
    requires |data| > 0
    ensures |Encode(data)| >= 4
  {
    if |data| >= 3 {
      assert Encode(data) == EncodeBlock(data[0], data[1], data[2]) + Encode(data[3..]);
    }
  }

  /** A group in front of a non-empty text: the decoder takes the group as a
      full one and decodes the rest on its own. */
  lemma DecodeCons(g: string, t: string)
    requires |g| == 4 && |t| > 0
    requires DecodeFullGroup(g).Some? && Decode(t).Some?
    ensures Decode(g + t) == Some(DecodeFullGroup(g).value + Decode(t).value)
  {
    var s := g + t;
    assert s[..4] == g && s[4..] == t;
  }

  /** The first group of a longer encoding decodes to the first three bytes,
      in front of what the rest decodes to. */
  lemma DecodeAfterBlock(data: seq<Byte>)
    requires |data| > 3 && Decode(Encode(data[3..])) == Some(data[3..])
    ensures Decode(Encode(data)) == Some(data)
  {
    var rest := data[3..];
    var head, t := EncodeBlock(data[0], data[1], data[2]), Encode(rest);
    assert Encode(data) == head + t;
    EncodeNonEmpty(rest);
    BlockRoundTrip(data[0], data[1], data[2]);
    DecodeCons(head, t);
    FirstThree(data);
  }

  lemma FirstThree(data: seq<Byte>)
    requires |data| >= 3
    ensures [data[0], data[1], data[2]] + data[3..] == data
    ensures |data| == 3 ==> [data[0], data[1], data[2]] == data
  {
  }

  /** Re-cutting the bytes a group decodes to gives back the group's digits. */
  lemma SextetsRoundTrip(c0: Sextet, c1: Sextet, c2: Sextet, c3: Sextet)
    ensures var b0: int, b1: int, b2: int := c0 * 4 + c1 / 16, (c1 % 16) * 16 + c2 / 4, (c2 % 4) * 64 + c3;
      b0 / 4 == c0 && (b0 % 4) * 16 + b1 / 16 == c1 &&
      (b1 % 16) * 4 + b2 / 64 == c2 && b2 % 64 == c3
  {
    var b0: int, b1: int, b2: int := c0 * 4 + c1 / 16, (c1 % 16) * 16 + c2 / 4, (c2 % 4) * 64 + c3;
    assert 0 <= c1 / 16 < 4 && 0 <= c2 / 4 < 16;
    assert b0 / 4 == c0 && b0 % 4 == c1 / 16;
    assert b1 / 16 == c1 % 16 && b1 % 16 == c2 / 4;
    assert b2 / 64 == c2 % 4 && b2 % 64 == c3;
  }

  lemma FullGroupCanonical(g: string)
    requires |g| == 4 && DecodeFullGroup(g).Some?
    ensures var bs := DecodeFullGroup(g).value;
      |bs| == 3 && EncodeBlock(bs[0], bs[1], bs[2]) == g
  {
    var c0, c1, c2, c3 := IndexOf(g[0]).value, IndexOf(g[1]).value, IndexOf(g[2]).value, IndexOf(g[3]).value;
    IndexOfCharOf(g[0]); IndexOfCharOf(g[1]); IndexOfCharOf(g[2]); IndexOfCharOf(g[3]);
    SextetsRoundTrip(c0, c1, c2, c3);
    var bs := DecodeFullGroup(g).value;
    var b0: Byte, b1: Byte, b2: Byte := c0 as int * 4 + c1 / 16, (c1 as int % 16) * 16 + c2 / 4, (c2 as int % 4) * 64 + c3;
    assert bs == [b0, b1, b2];
    var d0, d1, d2, d3 := b0 / 4, (b0 % 4) * 16 + b1 / 16, (b1 % 16) * 4 + b2 / 64, b2 % 64;
    assert d0 == c0 && d1 == c1 && d2 == c2 && d3 == c3;
    assert EncodeBlock(b0, b1, b2) == [CharOf(d0), CharOf(d1), CharOf(d2), CharOf(d3)];
  }

  lemma PaddedOnceCanonical(g: string)
    requires |g| == 4 && g[3] == Pad && g[2] != Pad && DecodeLastGroup(g).Some?
    ensures Encode(DecodeLastGroup(g).value) == g
  {
    var c0, c1, c2 := IndexOf(g[0]).value, IndexOf(g[1]).value, IndexOf(g[2]).value;
    IndexOfCharOf(g[0]); IndexOfCharOf(g[1]); IndexOfCharOf(g[2]);
    SextetsRoundTrip(c0, c1, c2, 0);
    var b0: int, b1: int := c0 as int * 4 + c1 / 16, (c1 as int % 16) * 16 + c2 / 4;
    assert DecodeLastGroup(g).value == [b0, b1];
    assert c2 % 4 == 0;
    assert (b1 % 16) * 4 == c2;
    assert EncodeTail2(b0, b1) == [CharOf(c0), CharOf(c1), CharOf(c2), Pad];
  }

  lemma PaddedTwiceCanonical(g: string)
    requires |g| == 4 && g[3] == Pad && g[2] == Pad && DecodeLastGroup(g).Some?
    ensures Encode(DecodeLastGroup(g).value) == g
  {
    var c0, c1 := IndexOf(g[0]).value, IndexOf(g[1]).value;
    IndexOfCharOf(g[0]); IndexOfCharOf(g[1]);
    SextetsRoundTrip(c0, c1, 0, 0);
    var b0: int := c0 as int * 4 + c1 / 16;
    assert DecodeLastGroup(g).value == [b0];
    assert c1 % 16 == 0;
    assert (b0 % 4) * 16 == c1;
    assert EncodeTail1(b0) == [CharOf(c0), CharOf(c1), Pad, Pad];
  }

  lemma LastGroupCanonical(g: string)
    requires |g| == 4 && DecodeLastGroup(g).Some?
    ensures Encode(DecodeLastGroup(g).value) == g
  {
    var bs := DecodeLastGroup(g).value;
    if g[3] != Pad {
      FullGroupCanonical(g);
      assert bs[3..] == [];
      assert Encode(bs) == EncodeBlock(bs[0], bs[1], bs[2]) + Encode(bs[3..]);
    } else if g[2] != Pad {
      PaddedOnceCanonical(g);
    } else {
      PaddedTwiceCanonical(g);
    }
  }

  /** Every text the decoder accepts is the encoding of what it decodes to:
      together with DecodeEncode, `Encode` and `Decode` are inverse bijections
      between byte strings and well-formed Base64 texts. */
  lemma {:induction false} EncodeDecode(s: string)
    requires Decode(s).Some?
    ensures Encode(Decode(s).value) == s
    decreases |s|
  {
    if |s| == 4 {
      LastGroupCanonical(s);
    } else if |s| > 4 {
      var head := DecodeFullGroup(s[..4]).value;
      var tail := Decode(s[4..]).value;
      FullGroupCanonical(s[..4]);
      EncodeDecode(s[4..]);
      var data := head + tail;
      assert data[0] == head[0] && data[1] == head[1] && data[2] == head[2] && data[3..] == tail;
      assert s == s[..4] + s[4..];
    }
  }
}
