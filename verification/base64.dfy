/** Base64 with the standard alphabet and '=' padding (section 4 of RFC 4648),
    as `Convert.ToBase64String` produces it, and the decoder that inverts it. */
module Base64 {
  import opened Wrappers

  type byte = x: nat | x < 256
  type sextet = x: nat | x < 64

  /** The character for a 6-bit value: A-Z, a-z, 0-9, '+', '/'. */
  function Alphabet(i: sextet): char {
    if i < 26 then ('A' as int + i) as char
    else if i < 52 then ('a' as int + (i - 26)) as char
    else if i < 62 then ('0' as int + (i - 52)) as char
    else if i == 62 then '+'
    else '/'
  }

  /** The inverse of the alphabet; None for characters outside it (including '='). */
  function AlphabetIndex(ch: char): (r: Option<sextet>)
    ensures r.Some? ==> Alphabet(r.value) == ch
  {
    if 'A' <= ch <= 'Z' then Some(ch as int - 'A' as int)
    else if 'a' <= ch <= 'z' then Some(ch as int - 'a' as int + 26)
    else if '0' <= ch <= '9' then Some(ch as int - '0' as int + 52)
    else if ch == '+' then Some(62)
    else if ch == '/' then Some(63)
    else None
  }

  lemma AlphabetIndexInverse(i: sextet)
    ensures AlphabetIndex(Alphabet(i)) == Some(i)
  {
  }

  /** Three bytes become four characters. */
  function EncodeGroup(a: byte, b: byte, c: byte): string {
    [Alphabet(a / 4), Alphabet((a % 4) * 16 + b / 16), Alphabet((b % 16) * 4 + c / 64), Alphabet(c % 64)]
  }

  /** The final group when one byte is left: two characters and "==". */
  function EncodeTail1(a: byte): string {
    [Alphabet(a / 4), Alphabet((a % 4) * 16), '=', '=']
  }

  /** The final group when two bytes are left: three characters and "=". */
  function EncodeTail2(a: byte, b: byte): string {
    [Alphabet(a / 4), Alphabet((a % 4) * 16 + b / 16), Alphabet((b % 16) * 4), '=']
  }

  /** `Convert.ToBase64String`: four characters per started group of three bytes. */
  function Encode(bs: seq<byte>): (r: string)
    ensures |r| == 4 * ((|bs| + 2) / 3)
    decreases |bs|
  {
    if |bs| == 0 then ""
    else if |bs| == 1 then EncodeTail1(bs[0])
    else if |bs| == 2 then EncodeTail2(bs[0], bs[1])
    else EncodeGroup(bs[0], bs[1], bs[2]) + Encode(bs[3..])
  }

  /** Four 6-bit values become the three bytes they spell. */
  function Unpack(i0: sextet, i1: sextet, i2: sextet, i3: sextet): seq<byte> {
    var a: nat := i0 * 4 + i1 / 16;
    var b: nat := (i1 % 16) * 16 + i2 / 4;
    var c: nat := (i2 % 4) * 64 + i3;
    [a, b, c]
  }

  /** One group of four characters: four alphabet characters, or a padded final group
      whose unused low bits are zero. */
  function DecodeGroup(s: string): (r: Option<seq<byte>>)
    requires |s| == 4
  {
    var i0, i1 := AlphabetIndex(s[0]), AlphabetIndex(s[1]);
    if i0.None? || i1.None? then None
    else if s[3] == '=' && s[2] == '=' then
      if i1.value % 16 == 0 then Some(Unpack(i0.value, i1.value, 0, 0)[..1]) else None
    else
      var i2 := AlphabetIndex(s[2]);
      if i2.None? then None
      else if s[3] == '=' then
        if i2.value % 4 == 0 then Some(Unpack(i0.value, i1.value, i2.value, 0)[..2]) else None
      else
        var i3 := AlphabetIndex(s[3]);
        if i3.None? then None else Some(Unpack(i0.value, i1.value, i2.value, i3.value))
  }

  lemma UnpackFirst(a: byte, b: byte)
    ensures (a / 4) * 4 + ((a % 4) * 16 + b / 16) / 16 == a
  {
    var h := a % 4;
    var l := b / 16;
    assert l < 16;
    assert (h * 16 + l) / 16 == h;
  }

  lemma UnpackSecond(a: byte, b: byte, c: byte)
    ensures (((a % 4) * 16 + b / 16) % 16) * 16 + ((b % 16) * 4 + c / 64) / 4 == b
  {
    var l := b / 16;
    assert ((a % 4) * 16 + l) % 16 == l;
    var m := c / 64;
    assert m < 4;
    assert ((b % 16) * 4 + m) / 4 == b % 16;
  }

  lemma UnpackThird(b: byte, c: byte)
    ensures (((b % 16) * 4 + c / 64) % 4) * 64 + c % 64 == c
  {
    var m := c / 64;
    assert m < 4;
    assert ((b % 16) * 4 + m) % 4 == m;
  }

  /** `Convert.FromBase64String` for canonical input: groups of four characters,
      padding only in the last group. */
  function Decode(s: string): Option<seq<byte>>
    decreases |s|
  {
    if |s| == 0 then Some([])
    else if |s| < 4 then None
    else match DecodeGroup(s[..4])
      case None => None
      case Some(g) =>
        if |g| < 3 then (if |s| == 4 then Some(g) else None)
        else match Decode(s[4..])
          case None => None
          case Some(rest) => Some(g + rest)
  }

  lemma DecodeEncodeGroup(a: byte, b: byte, c: byte)
    ensures DecodeGroup(EncodeGroup(a, b, c)) == Some([a, b, c])
  {
    var i0: sextet := a / 4;
    var i1: sextet := (a % 4) * 16 + b / 16;
    var i2: sextet := (b % 16) * 4 + c / 64;
    var i3: sextet := c % 64;
    AlphabetIndexInverse(i0);
    AlphabetIndexInverse(i1);
    AlphabetIndexInverse(i2);
    AlphabetIndexInverse(i3);
    UnpackGroup(a, b, c);
  }

  lemma UnpackGroup(a: byte, b: byte, c: byte)
    ensures Unpack(a / 4, (a % 4) * 16 + b / 16, (b % 16) * 4 + c / 64, c % 64) == [a, b, c]
  {
    UnpackFirst(a, b);
    UnpackSecond(a, b, c);
    UnpackThird(b, c);
  }

  lemma DecodeEncodeTail1(a: byte)
    ensures DecodeGroup(EncodeTail1(a)) == Some([a])
  {
    var i0: sextet := a / 4;
    var i1: sextet := (a % 4) * 16;
    var s := EncodeTail1(a);
    assert s == [Alphabet(i0), Alphabet(i1), '=', '='];
    AlphabetIndexInverse(i0);
    AlphabetIndexInverse(i1);
    assert i1 % 16 == 0;
    assert i1 / 16 == a % 4;
    assert Unpack(i0, i1, 0, 0)[..1] == [a];
  }

  lemma DecodeEncodeTail2(a: byte, b: byte)
    ensures DecodeGroup(EncodeTail2(a, b)) == Some([a, b])
  {
    var i0: sextet := a / 4;
    var i1: sextet := (a % 4) * 16 + b / 16;
    var i2: sextet := (b % 16) * 4;
    AlphabetIndexInverse(i0);
    AlphabetIndexInverse(i1);
    AlphabetIndexInverse(i2);
    assert i2 % 4 == 0;
    UnpackFirst(a, b);
    UnpackSecond(a, b, 0);
    assert Unpack(i0, i1, i2, 0)[..2] == [a, b];
  }

  /** Decoding inverts encoding, for every byte sequence. */
  lemma {:induction false} DecodeEncode(bs: seq<byte>)
    ensures Decode(Encode(bs)) == Some(bs)
    decreases |bs|
  {
    if |bs| >= 3 {
      DecodeEncode(bs[3..]);
      DecodeEncodeStep(bs);
    } else if |bs| > 0 {
      DecodeEncodeShort(bs);
    }
  }

  /** One or two bytes make one padded group. */
  lemma DecodeEncodeShort(bs: seq<byte>)
    requires 0 < |bs| < 3
    ensures Decode(Encode(bs)) == Some(bs)
  {
    var s := Encode(bs);
    if |bs| == 1 {
      DecodeEncodeTail1(bs[0]);
      assert s[..4] == s;
      assert [bs[0]] == bs;
    } else {
      DecodeEncodeTail2(bs[0], bs[1]);
      assert s[..4] == s;
      assert [bs[0], bs[1]] == bs;
    }
  }

  /** A full group in front of a sequence that round-trips. */
  lemma DecodeEncodeStep(bs: seq<byte>)
    requires |bs| >= 3
    requires Decode(Encode(bs[3..])) == Some(bs[3..])
    ensures Decode(Encode(bs)) == Some(bs)
  {
    var group := EncodeGroup(bs[0], bs[1], bs[2]);
    var tail := Encode(bs[3..]);
    assert Encode(bs) == group + tail;
    DecodeEncodeGroup(bs[0], bs[1], bs[2]);
    DecodeAfterGroup(group, tail, [bs[0], bs[1], bs[2]], bs[3..]);
    ThreeAndRest(bs);
  }

  lemma ThreeAndRest<T>(s: seq<T>)
    requires |s| >= 3
    ensures [s[0], s[1], s[2]] + s[3..] == s
  {
    assert [s[0], s[1], s[2]] + s[3..] == [s[0]] + ([s[1]] + ([s[2]] + s[3..]));
  }

  /** A full group decodes in front of whatever follows it. */
  lemma DecodeAfterGroup(group: string, tail: string, g: seq<byte>, rest: seq<byte>)
    requires |group| == 4 && DecodeGroup(group) == Some(g) && |g| == 3
    requires Decode(tail) == Some(rest)
    ensures Decode(group + tail) == Some(g + rest)
  {
    var s := group + tail;
    assert s[..4] == group && s[4..] == tail;
  }

  /** Distinct byte sequences have distinct encodings. */
  lemma EncodeInjective(xs: seq<byte>, ys: seq<byte>)
    requires Encode(xs) == Encode(ys)
    ensures xs == ys
  {
    DecodeEncode(xs);
    DecodeEncode(ys);
  }
}
