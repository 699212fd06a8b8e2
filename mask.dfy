/**
 * `mask_key`: shows an API key as its first 7 and last 4 bytes around
 * `...`, or as `too_short`. Rust measures and slices a `String` by its
 * UTF-8 bytes, so the key is modelled as its byte sequence.
 */
module Mask {
  import opened Wrappers

  newtype byte = x: int | 0 <= x < 256

  /** The bytes of an ASCII string. */
  function AsciiBytes(s: string): seq<byte>
    requires forall k :: 0 <= k < |s| ==> s[k] as int < 128
  {
    seq(|s|, k requires 0 <= k < |s| => s[k] as int as byte)
  }

  /** How many leading bytes are shown. */
  const PrefixLength: nat := 7
  /** How many trailing bytes are shown. */
  const SuffixLength: nat := 4
  /** Keys of at most this many bytes are not shown at all. */
  const MinLength: nat := 10

  function Ellipsis(): seq<byte> { AsciiBytes("...") }

  function TooShort(): seq<byte> { AsciiBytes("too_short") }

  /**
   * `str::is_char_boundary`: `i` is 0, the length, or the index of a byte
   * that is not a UTF-8 continuation byte (0x80..0xBF).
   */
  predicate IsCharBoundary(s: seq<byte>, i: int) {
    i == 0 || i == |s| || (0 < i < |s| && !(0x80 <= s[i] < 0xC0))
  }

  /**
   * `mask_key`, with `None` standing for the panic that slicing a `str`
   * raises when a cut falls inside a multi-byte character.
   */
  function MaskKey(key: seq<byte>): (r: Option<seq<byte>>)
    ensures |key| <= MinLength ==> r == Some(TooShort())
    ensures |key| > MinLength ==>
      (r.None? <==> !IsCharBoundary(key, PrefixLength) || !IsCharBoundary(key, |key| - SuffixLength))
    ensures |key| > MinLength && r.Some? ==>
      |r.value| == PrefixLength + 3 + SuffixLength == 14
      && r.value[..PrefixLength] == key[..PrefixLength]
      && r.value[PrefixLength..PrefixLength + 3] == Ellipsis()
      && r.value[PrefixLength + 3..] == key[|key| - SuffixLength..]
  {
    if |key| > MinLength then
      if IsCharBoundary(key, PrefixLength) && IsCharBoundary(key, |key| - SuffixLength) then
        Some(key[..PrefixLength] + Ellipsis() + key[|key| - SuffixLength..])
      else
        None
    else
      Some(TooShort())
  }

  /**
   * On a key longer than 10 bytes the shown prefix and suffix are in range
   * and disjoint: the suffix starts at or after byte 7.
   */
  lemma MaskedPartsDisjoint(key: seq<byte>)
    requires |key| > MinLength
    ensures PrefixLength <= |key| - SuffixLength <= |key|
  {
  }

  /** An ASCII key (every byte below 0x80) never makes `mask_key` panic. */
  lemma AsciiKeyNeverPanics(key: seq<byte>)
    requires forall k :: 0 <= k < |key| ==> key[k] < 0x80
    ensures MaskKey(key).Some?
  {
  }

  /**
   * The masked form shows nothing of the key but its length class, its
   * first 7 and its last 4 bytes: two long keys that agree on those mask alike.
   */
  lemma MaskHidesMiddle(k1: seq<byte>, k2: seq<byte>)
    requires |k1| > MinLength && |k2| > MinLength
    requires k1[..PrefixLength] == k2[..PrefixLength]
    requires k1[|k1| - SuffixLength..] == k2[|k2| - SuffixLength..]
    requires MaskKey(k1).Some? && MaskKey(k2).Some?
    ensures MaskKey(k1) == MaskKey(k2)
  {
    var m1, m2 := MaskKey(k1).value, MaskKey(k2).value;
    assert m1 == m1[..PrefixLength] + m1[PrefixLength..PrefixLength + 3] + m1[PrefixLength + 3..];
    assert m2 == m2[..PrefixLength] + m2[PrefixLength..PrefixLength + 3] + m2[PrefixLength + 3..];
  }

  /** An 11-byte key is shown whole: its masked form gives it back. */
  lemma ElevenByteKeyRecoverable(key: seq<byte>)
    requires |key| == MinLength + 1 && MaskKey(key).Some?
    ensures key == MaskKey(key).value[..PrefixLength] + MaskKey(key).value[PrefixLength + 3..]
  {
    assert key == key[..PrefixLength] + key[|key| - SuffixLength..];
  }

  /**
   * A 12-byte key whose 8th byte continues a two-byte character (`é` is
   * 0xC3 0xA9 in UTF-8) makes `mask_key` panic.
   */
  lemma NonAsciiKeyPanics()
    ensures MaskKey(AsciiBytes("sk-ant") + [0xC3, 0xA9] + AsciiBytes("wxyz")).None?
  {
    var key := AsciiBytes("sk-ant") + [0xC3, 0xA9] + AsciiBytes("wxyz");
    assert key[7] == 0xA9;
  }
}
