/** The UTF-16 buffer codec (`AenigmaUtil`): a JavaScript string is packed
    into an ArrayBuffer one 16-bit code unit per two-byte slot, and read back.
    The slot byte order is fixed to little-endian in both directions. */
module Util {

  type byte = x: int | 0 <= x < 256

  /** A UTF-16 code unit, the value `String.charCodeAt` returns. */
  type CodeUnit = x: int | 0 <= x < 0x1_0000

  /** A JavaScript string as its sequence of UTF-16 code units. */
  type JsString = seq<CodeUnit>

  /** The 16-bit value held by slot `i` of a buffer. */
  function Slot(b: seq<byte>, i: nat): CodeUnit
    requires 2 * i + 1 < |b|
  {
    b[2 * i] as int + 256 * (b[2 * i + 1] as int)
  }

  /** The buffer image of a string: code unit `i` occupies bytes `2i` (low)
      and `2i + 1` (high). */
  function Utf16Bytes(s: JsString): (b: seq<byte>)
    ensures |b| == 2 * |s|
  {
    seq(2 * |s|, j requires 0 <= j < 2 * |s| =>
      if j % 2 == 0 then s[j / 2] % 256 else s[j / 2] / 256)
  }

  /** `stringToArrayBuffer`: allocate `2 * length` zero bytes and store each
      code unit into its slot in a loop. */
  method StringToArrayBuffer(str: JsString) returns (buffer: seq<byte>)
    ensures |buffer| == 2 * |str|
    ensures forall i :: 0 <= i < |str| ==> Slot(buffer, i) == str[i]
    ensures buffer == Utf16Bytes(str)
  {
    var view := new byte[2 * |str|](_ => 0);
    ghost var image := Utf16Bytes(str);
    for i := 0 to |str|
      invariant view[..2 * i] == image[..2 * i]
    {
      assert image[2 * i] == str[i] % 256 && image[2 * i + 1] == str[i] / 256;
      view[2 * i] := str[i] % 256;
      view[2 * i + 1] := str[i] / 256;
      assert view[..2 * (i + 1)] == view[..2 * i] + [view[2 * i], view[2 * i + 1]];
      assert image[..2 * (i + 1)] == image[..2 * i] + [image[2 * i], image[2 * i + 1]];
    }
    assert view[..] == view[..2 * |str|];
    buffer := view[..];
    ImageSlots(str);
  }

  /** `arrayBufferToString`: one character per 16-bit slot. A `Uint16Array`
      cannot view an odd number of bytes, so the buffer must be even. */
  function ArrayBufferToString(buffer: seq<byte>): (s: JsString)
    requires |buffer| % 2 == 0
    ensures |s| == |buffer| / 2
    ensures forall i :: 0 <= i < |s| ==> s[i] == Slot(buffer, i)
  {
    seq(|buffer| / 2, i requires 0 <= i < |buffer| / 2 => Slot(buffer, i))
  }

  /** Slot `i` of the image of a string holds code unit `i`. */
  lemma ImageSlots(s: JsString)
    ensures forall i :: 0 <= i < |s| ==> Slot(Utf16Bytes(s), i) == s[i]
  {
    forall i | 0 <= i < |s|
      ensures Slot(Utf16Bytes(s), i) == s[i]
    {
      var b := Utf16Bytes(s);
      assert b[2 * i] == s[i] % 256 && b[2 * i + 1] == s[i] / 256;
    }
  }

  /** Round trip: every string, whatever script it is in and whether or not
      it holds surrogate pairs, comes back unchanged. */
  lemma StringRoundTrip(s: JsString)
    ensures ArrayBufferToString(Utf16Bytes(s)) == s
  {
    ImageSlots(s);
  }

  /** The other direction: every even-length buffer is the image of the
      string read from it, so the codec is a bijection between strings and
      even-length buffers. */
  lemma BufferRoundTrip(b: seq<byte>)
    requires |b| % 2 == 0
    ensures Utf16Bytes(ArrayBufferToString(b)) == b
  {
    var s := ArrayBufferToString(b);
    forall j | 0 <= j < |b|
      ensures Utf16Bytes(s)[j] == b[j]
    {
      var k := j / 2;
      SlotBytes(b[2 * k], b[2 * k + 1]);
      assert j == 2 * k || j == 2 * k + 1;
    }
  }

  /** A slot value splits back into the low and the high byte it was built from. */
  lemma SlotBytes(lo: byte, hi: byte)
    ensures (lo as int + 256 * (hi as int)) % 256 == lo
    ensures (lo as int + 256 * (hi as int)) / 256 == hi
  {
  }
}
