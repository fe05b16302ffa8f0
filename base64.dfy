/** Base64 with the standard alphabet and `=` padding, as section 4 of
    RFC 4648 defines it (`arrayBufferToBase64` / `base64ToArrayBuffer`).
    Encoding cuts the bytes into 6-bit groups (sextets), 24 bits at a time; a
    final one or two bytes give two or three sextets, completed with zero
    bits.  Each sextet becomes one alphabet character and the text is padded
    with `=` to a multiple of four.  Decoding is strict: a length that is not
    a multiple of four, a character outside the alphabet, padding anywhere
    but at the end, or non-zero pad bits (which section 3.5 of RFC 4648
    allows a decoder to reject) all fail.  Strictness makes every accepted
    text the canonical encoding of the bytes it decodes to. */
module Base64 {
  import opened Util
  import opened Results

  /** A 6-bit group, the value of one encoded character. */
  type Sextet = x: int | 0 <= x < 64

  // ---- bytes and sextets ----

  /** The four sextets of a full 24-bit quantum. */
  function SplitQuantum(b0: byte, b1: byte, b2: byte): (x: seq<Sextet>)
    ensures |x| == 4
  {
    var n0, n1, n2 := b0 as int, b1 as int, b2 as int;
    [n0 / 4, (n0 % 4) * 16 + n1 / 16, (n1 % 16) * 4 + n2 / 64, n2 % 64]
  }

  /** The three bytes that four sextets hold. */
  function JoinQuantum(c0: Sextet, c1: Sextet, c2: Sextet, c3: Sextet): (b: seq<byte>)
    ensures |b| == 3
  {
    var n0, n1, n2, n3 := c0 as int, c1 as int, c2 as int, c3 as int;
    [n0 * 4 + n1 / 16, (n1 % 16) * 16 + n2 / 4, (n2 % 4) * 64 + n3]
  }

  /** The sextets of a byte sequence, without padding: four for every three
      bytes, and two or three for a final one or two bytes. */
  function ToSextets(b: seq<byte>): (x: seq<Sextet>)
    decreases |b|
  {
    if |b| == 0 then []
    else if |b| == 1 then
      var n0 := b[0] as int;
      [n0 / 4, (n0 % 4) * 16]
    else if |b| == 2 then
      var n0, n1 := b[0] as int, b[1] as int;
      [n0 / 4, (n0 % 4) * 16 + n1 / 16, (n1 % 16) * 4]
    else
      SplitQuantum(b[0], b[1], b[2]) + ToSextets(b[3..])
  }

  /** The bytes a sequence of sextets holds; `None` for a final group of
      one sextet, or a final group of two or three whose pad bits are not
      zero. */
  function FromSextets(x: seq<Sextet>): (r: Option<seq<byte>>)
    decreases |x|
  {
    if |x| == 0 then Some([])
    else if |x| == 1 then None
    else if |x| == 2 then
      var n0, n1 := x[0] as int, x[1] as int;
      if n1 % 16 == 0 then Some([n0 * 4 + n1 / 16]) else None
    else if |x| == 3 then
      var n0, n1, n2 := x[0] as int, x[1] as int, x[2] as int;
      if n2 % 4 == 0 then Some([n0 * 4 + n1 / 16, (n1 % 16) * 16 + n2 / 4]) else None
    else
      match FromSextets(x[4..])
      case None => None
      case Some(rest) => Some(JoinQuantum(x[0], x[1], x[2], x[3]) + rest)
  }

  // ---- sextets and characters ----

  /** The alphabet of Table 1 of RFC 4648. */
  predicate IsAlphabet(c: char) {
    ('A' <= c <= 'Z') || ('a' <= c <= 'z') || ('0' <= c <= '9') || c == '+' || c == '/'
  }

  predicate AllAlphabet(s: string) {
    forall i :: 0 <= i < |s| ==> IsAlphabet(s[i])
  }

  /** The character that encodes a 6-bit value. */
  function Char(v: Sextet): (c: char)
    ensures IsAlphabet(c)
  {
    if v < 26 then ('A' as int + v) as char
    else if v < 52 then ('a' as int + (v - 26)) as char
    else if v < 62 then ('0' as int + (v - 52)) as char
    else if v == 62 then '+'
    else '/'
  }

  /** The value an alphabet character encodes. */
  function Value(c: char): (v: Sextet)
    requires IsAlphabet(c)
    ensures Char(v) == c
  {
    if 'A' <= c <= 'Z' then c as int - 'A' as int
    else if 'a' <= c <= 'z' then c as int - 'a' as int + 26
    else if '0' <= c <= '9' then c as int - '0' as int + 52
    else if c == '+' then 62
    else 63
  }

  function Chars(x: seq<Sextet>): (s: string)
    ensures |s| == |x| && AllAlphabet(s)
  {
    seq(|x|, i requires 0 <= i < |x| => Char(x[i]))
  }

  function Values(s: string): (x: seq<Sextet>)
    requires AllAlphabet(s)
    ensures |x| == |s|
  {
    seq(|s|, i requires 0 <= i < |s| => Value(s[i]))
  }

  /** The `=` characters that complete `n` sextets to a multiple of four
      characters. */
  function Padding(n: nat): (p: string)
    ensures n % 4 == 1 || (n + |p|) % 4 == 0
  {
    if n % 4 == 2 then "==" else if n % 4 == 3 then "=" else ""
  }

  /** The number of `=` at the end of a text, at most two. */
  function PadCount(s: string): (p: nat)
    ensures p <= |s| && p <= 2
  {
    if |s| >= 2 && s[|s| - 2] == '=' && s[|s| - 1] == '=' then 2
    else if |s| >= 1 && s[|s| - 1] == '=' then 1
    else 0
  }

  // ---- the codec ----

  /** `arrayBufferToBase64`: four characters for every three bytes and for a
      final one or two; only alphabet characters and padding, so the text
      never holds a quotation mark. */
  function Encode(b: seq<byte>): (s: string)
    ensures |s| == 4 * ((|b| + 2) / 3)
    ensures forall i :: 0 <= i < |s| ==> IsAlphabet(s[i]) || s[i] == '='
  {
    var x := ToSextets(b);
    PaddedLength(b);
    PaddedAlphabet(x);
    Chars(x) + Padding(|x|)
  }

  /** `base64ToArrayBuffer`: `None` for any text that is not the canonical
      encoding of some byte sequence; otherwise three bytes for every four
      characters before the padding. */
  function Decode(s: string): (r: Option<seq<byte>>)
    ensures r.Some? ==> |r.value| == 3 * (|s| - PadCount(s)) / 4
  {
    if |s| % 4 != 0 then None
    else
      var body := s[..|s| - PadCount(s)];
      if AllAlphabet(body) then
        FromSextetsSome(Values(body));
        FromSextets(Values(body))
      else None
  }

  // ---- proofs: bytes and sextets ----

  lemma Div16(a: int, h: int)
    requires 0 <= h < 16
    ensures (a * 16 + h) / 16 == a && (a * 16 + h) % 16 == h
  {
  }

  lemma Div4(a: int, h: int)
    requires 0 <= h < 4
    ensures (a * 4 + h) / 4 == a && (a * 4 + h) % 4 == h
  {
  }

  lemma Div64(a: int, h: int)
    requires 0 <= h < 64
    ensures (a * 64 + h) / 64 == a && (a * 64 + h) % 64 == h
  {
  }

  /** Joining the sextets of a quantum gives back its bytes. */
  lemma JoinSplit(b0: byte, b1: byte, b2: byte)
    ensures var x := SplitQuantum(b0, b1, b2);
      JoinQuantum(x[0], x[1], x[2], x[3]) == [b0, b1, b2]
  {
    var n0, n1, n2 := b0 as int, b1 as int, b2 as int;
    Div16(n0 % 4, n1 / 16);
    Div4(n1 % 16, n2 / 64);
  }

  /** Splitting the bytes of four sextets gives back the sextets. */
  lemma SplitJoin(c0: Sextet, c1: Sextet, c2: Sextet, c3: Sextet)
    ensures var b := JoinQuantum(c0, c1, c2, c3);
      SplitQuantum(b[0], b[1], b[2]) == [c0, c1, c2, c3]
  {
    Div4(c0, c1 / 16);
    Div16(c1 % 16, c2 / 4);
    Div64(c2 % 4, c3);
  }

  /** The number of sextets: four per full quantum, and one more than the
      bytes of a final partial quantum. */
  lemma {:induction false} ToSextetsLength(b: seq<byte>)
    ensures |ToSextets(b)| == 4 * (|b| / 3) + (if |b| % 3 == 0 then 0 else |b| % 3 + 1)
    decreases |b|
  {
    if |b| >= 3 {
      ToSextetsLength(b[3..]);
    }
  }

  /** The sextets of a byte sequence hold those bytes again. */
  lemma {:induction false} FromToSextets(b: seq<byte>)
    ensures FromSextets(ToSextets(b)) == Some(b)
    decreases |b|
  {
    if |b| == 1 {
      var n0 := b[0] as int;
      Div16(n0 % 4, 0);
      assert b == [b[0]];
    } else if |b| == 2 {
      var n0, n1 := b[0] as int, b[1] as int;
      Div16(n0 % 4, n1 / 16);
      Div4(n1 % 16, 0);
      assert b == [b[0], b[1]];
    } else if |b| >= 3 {
      var q, t := SplitQuantum(b[0], b[1], b[2]), ToSextets(b[3..]);
      FromToSextets(b[3..]);
      JoinSplit(b[0], b[1], b[2]);
      assert (q + t)[4..] == t;
      assert b == [b[0], b[1], b[2]] + b[3..];
    }
  }

  /** Sextets that hold bytes are the sextets of those bytes. */
  lemma {:induction false} ToFromSextets(x: seq<Sextet>)
    requires FromSextets(x).Some?
    ensures ToSextets(FromSextets(x).value) == x
    decreases |x|
  {
    var b := FromSextets(x).value;
    if |x| == 2 {
      Div4(x[0], x[1] / 16);
      assert x[1] == (x[1] / 16) * 16;
    } else if |x| == 3 {
      Div4(x[0], x[1] / 16);
      Div16(x[1] % 16, x[2] / 4);
      assert x[2] == (x[2] / 4) * 4;
    } else if |x| >= 4 {
      var rest := FromSextets(x[4..]).value;
      ToFromSextets(x[4..]);
      var q := JoinQuantum(x[0], x[1], x[2], x[3]);
      SplitJoin(x[0], x[1], x[2], x[3]);
      assert b == q + rest;
      assert b[3..] == rest;
      assert x == [x[0], x[1], x[2], x[3]] + x[4..];
    }
  }

  /** Sextets hold bytes exactly when their final group is not a lone
      sextet and its pad bits are zero. */
  predicate PadBitsZero(x: seq<Sextet>)
  {
    && |x| % 4 != 1
    && (|x| % 4 == 2 ==> x[|x| - 1] % 16 == 0)
    && (|x| % 4 == 3 ==> x[|x| - 1] % 4 == 0)
  }

  /** When sextets hold bytes, and how many: three for every four sextets,
      and one less than the sextets of a final partial group. */
  lemma {:induction false} FromSextetsSome(x: seq<Sextet>)
    ensures FromSextets(x).Some? <==> PadBitsZero(x)
    ensures FromSextets(x).Some? ==> |FromSextets(x).value| == 3 * |x| / 4
    decreases |x|
  {
    if |x| >= 4 {
      var t := x[4..];
      FromSextetsSome(t);
      assert |t| % 4 == |x| % 4 by { Div4(|t| / 4 + 1, |t| % 4); }
      if |t| > 0 {
        assert t[|t| - 1] == x[|x| - 1];
      }
    }
  }

  // ---- proofs: sextets and characters ----

  lemma ValueOfChar(v: Sextet)
    ensures Value(Char(v)) == v
  {
  }

  lemma ValuesOfChars(x: seq<Sextet>)
    ensures Values(Chars(x)) == x
  {
    forall i | 0 <= i < |x|
      ensures Values(Chars(x))[i] == x[i]
    {
      ValueOfChar(x[i]);
    }
  }

  lemma CharsOfValues(s: string)
    requires AllAlphabet(s)
    ensures Chars(Values(s)) == s
  {
  }

  // ---- proofs: the codec ----

  /** The sextets and their padding make four characters for every three
      bytes and for a final one or two. */
  lemma PaddedLength(b: seq<byte>)
    ensures |Chars(ToSextets(b)) + Padding(|ToSextets(b)|)| == 4 * ((|b| + 2) / 3)
  {
    ToSextetsLength(b);
    var x, q, r := ToSextets(b), |b| / 3, |b| % 3;
    var tail := if r == 0 then 0 else r + 1;
    Div4(q, tail);
    assert |Padding(|x|)| == (if r == 0 then 0 else 3 - r);
    assert (|b| + 2) / 3 == q + (if r == 0 then 0 else 1);
  }

  /** The sextet characters and their padding are alphabet characters or `=`. */
  lemma PaddedAlphabet(x: seq<Sextet>)
    ensures var s := Chars(x) + Padding(|x|);
      forall i :: 0 <= i < |s| ==> IsAlphabet(s[i]) || s[i] == '='
  {
    var c, p := Chars(x), Padding(|x|);
    forall i | 0 <= i < |c + p|
      ensures IsAlphabet((c + p)[i]) || (c + p)[i] == '='
    {
      if i >= |c| {
        assert (c + p)[i] == p[i - |c|];
      }
    }
  }

  /** Padding is counted back exactly. */
  lemma PadCountOfEncode(x: seq<Sextet>)
    requires |x| % 4 != 1
    ensures var s := Chars(x) + Padding(|x|);
      |s| % 4 == 0 && PadCount(s) == |Padding(|x|)| && s[..|s| - PadCount(s)] == Chars(x)
  {
    var c, p := Chars(x), Padding(|x|);
    var s := c + p;
    if |p| == 0 && |s| > 0 {
      assert s[|s| - 1] == c[|c| - 1];
    } else if |p| == 1 {
      assert s[|s| - 2] == c[|c| - 1];
    }
    assert s[..|c|] == c;
  }

  /** A text of whole quanta is its body followed by the padding the body's
      length calls for. */
  lemma PaddingOfPadCount(s: string)
    requires |s| % 4 == 0
    ensures s == s[..|s| - PadCount(s)] + Padding(|s| - PadCount(s))
  {
    var p := PadCount(s);
    var body := s[..|s| - p];
    assert s == body + s[|s| - p..];
    if p == 2 {
      assert |body| % 4 == 2 by { Div4(|s| / 4 - 1, 2); }
      assert s[|s| - p..] == ['=', '='];
    } else if p == 1 {
      assert |body| % 4 == 3 by { Div4(|s| / 4 - 1, 3); }
      assert s[|s| - p..] == ['='];
    }
  }

  /** Decoding inverts encoding: every byte sequence comes back. */
  lemma DecodeEncode(b: seq<byte>)
    ensures Decode(Encode(b)) == Some(b)
  {
    var x := ToSextets(b);
    ToSextetsLength(b);
    PadCountOfEncode(x);
    ValuesOfChars(x);
    FromToSextets(b);
  }

  /** Encoding inverts decoding: whatever text decodes is the encoding of
      what it decodes to. */
  lemma EncodeDecode(s: string)
    requires Decode(s).Some?
    ensures Encode(Decode(s).value) == s
  {
    var body := s[..|s| - PadCount(s)];
    var x := Values(body);
    ToFromSextets(x);
    CharsOfValues(body);
    PaddingOfPadCount(s);
  }

  /** Which texts decode: whole quanta, alphabet characters before the
      padding, zero pad bits. */
  lemma DecodeSome(s: string)
    ensures Decode(s).Some? <==>
      |s| % 4 == 0 && AllAlphabet(s[..|s| - PadCount(s)]) && PadBitsZero(Values(s[..|s| - PadCount(s)]))
  {
    var body := s[..|s| - PadCount(s)];
    if AllAlphabet(body) {
      FromSextetsSome(Values(body));
    }
  }

  /** The codec is a bijection between byte sequences and canonical texts. */
  lemma DecodeIff(s: string, b: seq<byte>)
    ensures Decode(s) == Some(b) <==> Encode(b) == s
  {
    if Decode(s) == Some(b) {
      EncodeDecode(s);
    }
    if Encode(b) == s {
      DecodeEncode(b);
    }
  }
}
