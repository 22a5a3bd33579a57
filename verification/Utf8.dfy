/** Well-formed UTF-8, after the syntax in section 4 of RFC 3629. */
module Utf8 {
  import opened Bytes

  predicate Tail(bytes: Bytes, i: nat, low: Byte, high: Byte)
  {
    i < |bytes| && low <= bytes[i] <= high
  }

  /** The width of the character a byte string starts with, or 0 if it starts with none. */
  function Width(bytes: Bytes): (width: nat)
    ensures width <= |bytes|
  {
    if bytes == [] then 0
    else
      var lead := bytes[0];
      if lead <= 0x7F then 1
      else if 0xC2 <= lead <= 0xDF then if Tail(bytes, 1, 0x80, 0xBF) then 2 else 0
      else if 0xE0 <= lead <= 0xEF then
        var low := if lead == 0xE0 then 0xA0 else 0x80;
        var high := if lead == 0xED then 0x9F else 0xBF;
        if Tail(bytes, 1, low, high) && Tail(bytes, 2, 0x80, 0xBF) then 3 else 0
      else if 0xF0 <= lead <= 0xF4 then
        var low := if lead == 0xF0 then 0x90 else 0x80;
        var high := if lead == 0xF4 then 0x8F else 0xBF;
        if Tail(bytes, 1, low, high) && Tail(bytes, 2, 0x80, 0xBF) && Tail(bytes, 3, 0x80, 0xBF) then 4 else 0
      else 0
  }

  predicate IsUtf8(bytes: Bytes)
    decreases |bytes|
  {
    bytes == [] || (Width(bytes) > 0 && IsUtf8(bytes[Width(bytes)..]))
  }

  /** No byte of a string is above 0xF4. */
  lemma {:induction false} Utf8HasNoHighByte(bytes: Bytes, i: nat)
    requires IsUtf8(bytes) && i < |bytes|
    ensures bytes[i] <= 0xF4
    decreases |bytes|
  {
    var width := Width(bytes);
    if i >= width {
      Utf8HasNoHighByte(bytes[width..], i - width);
    }
  }
}
