/**
 * prettyBytes: abbreviates a root for logs as its first six characters, an
 * ellipsis and its last four characters (`0x1234…abcd`).
 */
module Format {
  import opened Common

  /** A root given either as text or as raw bytes. */
  datatype RootLike = Text(text: string) | Bytes(bytes: seq<bv8>)

  /** The horizontal ellipsis placed between the two ends (U+2026). */
  const ELLIPSIS: char := '…'

  /** Resolves a JavaScript slice bound: a negative bound counts from the end; both are clamped to the string. */
  function SliceBound(len: nat, bound: int): (r: nat)
    ensures r <= len
    ensures 0 <= bound <= len ==> r == bound
    ensures -(len as int) <= bound < 0 ==> r == len + bound
    ensures bound < -(len as int) ==> r == 0
    ensures bound > len ==> r == len
  {
    if bound < 0 then (if len + bound < 0 then 0 else len + bound)
    else if bound > len then len
    else bound
  }

  /** JavaScript's `String.prototype.slice(start, end)`; an empty string when the bounds cross. */
  function JsSlice(s: string, start: int, end: int): (r: string)
    ensures |r| <= |s|
    ensures 0 <= start <= end <= |s| ==> r == s[start..end]
    ensures -(|s| as int) <= start < 0 && end == |s| ==> r == s[|s| + start..]
    ensures start >= |s| ==> r == []
  {
    var from := SliceBound(|s|, start);
    var to := SliceBound(|s|, end);
    if from < to then s[from..to] else []
  }

  /**
   * prettyBytes. Text is used as it is; only bytes go through `toHex`
   * (toHexString, which is not part of this model).
   */
  function PrettyBytes(root: RootLike, toHex: seq<bv8> -> string): (r: string)
    ensures var str := if root.Text? then root.text else toHex(root.bytes);
            && |r| == Min(6, |str|) + 1 + Min(4, |str|)
            && r[Min(6, |str|)] == ELLIPSIS
  {
    var str := if root.Text? then root.text else toHex(root.bytes);
    EndLengths(str);
    JsSlice(str, 0, 6) + [ELLIPSIS] + JsSlice(str, -4, |str|)
  }

  /** The two ends kept are six and four characters long, or the whole string when it is shorter. */
  lemma EndLengths(s: string)
    ensures |JsSlice(s, 0, 6)| == Min(6, |s|)
    ensures |JsSlice(s, -4, |s|)| == Min(4, |s|)
  {
  }

  // Properties of the abbreviation.

  /**
   * The abbreviation is the first min(6, |s|) characters, the ellipsis and
   * the last min(4, |s|) characters; the two ends overlap for short input.
   */
  lemma PrettyBytesShape(s: string, toHex: seq<bv8> -> string)
    ensures var r := PrettyBytes(Text(s), toHex);
            && |r| == Min(6, |s|) + 1 + Min(4, |s|)
            && r[..Min(6, |s|)] == s[..Min(6, |s|)]
            && r[Min(6, |s|)] == ELLIPSIS
            && r[Min(6, |s|) + 1..] == s[|s| - Min(4, |s|)..]
  {
    var r := PrettyBytes(Text(s), toHex);
    var head := Min(6, |s|);
    var tail := Min(4, |s|);
    assert JsSlice(s, 0, 6) == s[..head];
    assert JsSlice(s, -4, |s|) == s[|s| - tail..];
    assert r == s[..head] + [ELLIPSIS] + s[|s| - tail..];
  }

  /** Ten characters or more always give eleven. */
  lemma LongInputLength(s: string, toHex: seq<bv8> -> string)
    requires |s| >= 10
    ensures |PrettyBytes(Text(s), toHex)| == 11
  {
    PrettyBytesShape(s, toHex);
  }

  /** Four characters or fewer are repeated around the ellipsis; the empty string gives the ellipsis alone. */
  lemma ShortInputRepeated(s: string, toHex: seq<bv8> -> string)
    requires |s| <= 4
    ensures PrettyBytes(Text(s), toHex) == s + [ELLIPSIS] + s
    ensures s == [] ==> PrettyBytes(Text(s), toHex) == [ELLIPSIS]
  {
    assert JsSlice(s, 0, 6) == s;
    assert JsSlice(s, -4, |s|) == s;
  }

  /** Text never goes through the hex encoder, and bytes are abbreviated as their hex text. */
  lemma TextUsedVerbatim(s: string, b: seq<bv8>, toHex: seq<bv8> -> string, otherHex: seq<bv8> -> string)
    ensures PrettyBytes(Text(s), toHex) == PrettyBytes(Text(s), otherHex)
    ensures PrettyBytes(Bytes(b), toHex) == PrettyBytes(Text(toHex(b)), otherHex)
  {
  }

  /** A 0x-prefixed hex string keeps its prefix and first four digits, then its last four digits. */
  lemma HexRootExample(toHex: seq<bv8> -> string)
    ensures PrettyBytes(Text("0x1234567890abcdef"), toHex) == "0x1234…cdef"
  {
    var s := "0x1234567890abcdef";
    assert JsSlice(s, 0, 6) == s[..6] == "0x1234";
    assert JsSlice(s, -4, |s|) == s[14..] == "cdef";
  }
}
