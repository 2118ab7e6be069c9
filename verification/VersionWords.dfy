// The packed 64-bit words of the wait-free version protocol
// (comparison_systems/aspen/code/graph/versioning_utils.h): a 52-bit timestamp,
// a 10-bit slot index and a 2-bit flag.
module VersionWords {

  // (MAX_THREADS + 10) << 2, with MAX_THREADS == 144: slot index 154, timestamp 0, flag 0.
  const EMPTY: bv64 := 0x268

  // MASK_INDEX is ten bits above the two flag bits.
  function GetIdx(x: bv64): bv64 { (x & 0xFFC) >> 2 }

  // MASK_TIMESTAMP is the 52 bits above index and flag.
  function GetTimestamp(x: bv64): bv64 { (x & 0xFFFF_FFFF_FFFF_F000) >> 12 }

  // MASK_VERSION is everything but the flag.
  function GetVersion(x: bv64): bv64 { x & 0xFFFF_FFFF_FFFF_FFFC }

  // MASK_FLAG is the two low bits.
  function GetFlag(x: bv64): bv64 { x & 0x3 }

  function Combine(index: bv64, timestamp: bv64, flag: bv64): bv64 {
    (timestamp << 12) + (index << 2) + flag
  }

  function CombineVersion(version: bv64, flag: bv64): bv64 { version + flag }

  // The three fields fit their widths.
  predicate InRange(index: bv64, timestamp: bv64, flag: bv64) {
    index < 1024 && timestamp < 0x10_0000_0000_0000 && flag < 4
  }

  // Bit-level facts: the fields do not overlap and do not carry.
  lemma TimestampBits(i: bv64, t: bv64, f: bv64)
    requires i < 1024 && t < 0x10_0000_0000_0000 && f < 4
    ensures (((t << 12) + (i << 2) + f) & 0xFFFF_FFFF_FFFF_F000) >> 12 == t
  {
  }

  lemma LowBits(i: bv64, t: bv64, f: bv64)
    requires i < 1024 && f < 4
    ensures ((t << 12) + (i << 2) + f) & 0xFFF == (i << 2) + f
  {
  }

  lemma MiddleBits(i: bv64, f: bv64)
    requires i < 1024 && f < 4
    ensures (((i << 2) + f) & 0xFFC) >> 2 == i
  {
  }

  lemma MaskTwice(x: bv64)
    ensures x & 0xFFC == (x & 0xFFF) & 0xFFC
  {
  }

  // Unpacking returns exactly the packed fields, and the version part is the
  // word with its flag cleared.
  lemma PackIndex(i: bv64, t: bv64, f: bv64)
    requires InRange(i, t, f)
    ensures GetIdx(Combine(i, t, f)) == i
  {
    LowBits(i, t, f);
    MiddleBits(i, f);
    MaskTwice(Combine(i, t, f));
  }

  lemma PackTimestamp(i: bv64, t: bv64, f: bv64)
    requires InRange(i, t, f)
    ensures GetTimestamp(Combine(i, t, f)) == t
  {
    TimestampBits(i, t, f);
  }

  lemma PackFlag(i: bv64, t: bv64, f: bv64)
    requires InRange(i, t, f)
    ensures GetFlag(Combine(i, t, f)) == f
  {
    assert ((t << 12) + (i << 2) + f) & 0x3 == f;
  }

  lemma VersionOfWord(x: bv64)
    ensures GetVersion(x) == Combine(GetIdx(x), GetTimestamp(x), 0)
  {
  }

  lemma VersionAndFlag(x: bv64)
    ensures CombineVersion(GetVersion(x), GetFlag(x)) == x
  {
  }

  lemma PackVersion(i: bv64, t: bv64, f: bv64)
    requires InRange(i, t, f)
    ensures GetVersion(Combine(i, t, f)) == Combine(i, t, 0)
  {
    PackIndex(i, t, f);
    PackTimestamp(i, t, f);
    VersionOfWord(Combine(i, t, f));
  }

  // Comparing packed words is comparing fields: this is what lets the protocol
  // model compare-and-swap structured words.
  lemma PackInjective(i: bv64, t: bv64, f: bv64, i': bv64, t': bv64, f': bv64)
    requires InRange(i, t, f) && InRange(i', t', f')
    ensures Combine(i, t, f) == Combine(i', t', f') <==> i == i' && t == t' && f == f'
  {
    PackIndex(i, t, f);
    PackTimestamp(i, t, f);
    PackFlag(i, t, f);
    PackIndex(i', t', f');
    PackTimestamp(i', t', f');
    PackFlag(i', t', f');
  }

  // Every word is the packing of its own fields, and EMPTY has timestamp 0, so it
  // differs from every version set makes (their timestamps start at 1).
  lemma UnpackRoundTrip(x: bv64)
    ensures InRange(GetIdx(x), GetTimestamp(x), GetFlag(x))
    ensures Combine(GetIdx(x), GetTimestamp(x), GetFlag(x)) == x
    ensures EMPTY == Combine(154, 0, 0)
    ensures GetTimestamp(x) != 0 ==> GetVersion(x) != EMPTY
  {
  }
}
