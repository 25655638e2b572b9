/** The flag word of a file descriptor: which bits are reserved, and which fcntl may write. */
module FdFlags {

  const FD_EXCL: bv32 := 0x8000_0000
  const FD_DEV: bv32 := 0x4000_0000
  const FD_FLAGS_MASK: bv32 := FD_EXCL | FD_DEV
  const O_APPEND: bv32 := 0x0000_0008
  const O_NONBLOCK: bv32 := 0x0000_4000
  const FCNTL_FLAGS_MASK: bv32 := O_APPEND | O_NONBLOCK

  /** For every set of bits: those that fcntl may write are as in `arg` after the call, all others as before. */
  ghost predicate FlagsSet(before: bv32, after: bv32, arg: bv32) {
    forall bits: bv32 :: BitsSet(before, after, arg, bits)
  }

  ghost predicate BitsSet(before: bv32, after: bv32, arg: bv32, bits: bv32) {
    && (bits & !FCNTL_FLAGS_MASK == 0 ==> after & bits == arg & bits)
    && (bits & FCNTL_FLAGS_MASK == 0 ==> after & bits == before & bits)
  }

  lemma SetMasked(before: bv32, arg: bv32)
    ensures FlagsSet(before, (before & !FCNTL_FLAGS_MASK) | (arg & FCNTL_FLAGS_MASK), arg)
  {
  }

  /** So only one word is possible. */
  lemma FlagsSetIs(before: bv32, after: bv32, arg: bv32)
    requires FlagsSet(before, after, arg)
    ensures after & O_APPEND == arg & O_APPEND && after & O_NONBLOCK == arg & O_NONBLOCK
    ensures after & !FCNTL_FLAGS_MASK == before & !FCNTL_FLAGS_MASK
  {
    assert BitsSet(before, after, arg, O_APPEND) && BitsSet(before, after, arg, O_NONBLOCK);
    assert BitsSet(before, after, arg, !FCNTL_FLAGS_MASK);
  }

  /** What F_GETFL shows of a flag word: all but the reserved bits. */
  function Visible(flags: bv32): bv32 {
    flags & !FD_FLAGS_MASK
  }

  /** What F_GETFL shows after F_SETFL. */
  ghost predicate ReadsBack(before: bv32, arg: bv32, value: bv32) {
    exists after: bv32 :: FlagsSet(before, after, arg) && value == Visible(after)
  }

  lemma ReadsBackIs(before: bv32, arg: bv32, value: bv32)
    requires ReadsBack(before, arg, value)
    ensures value & O_APPEND == arg & O_APPEND && value & O_NONBLOCK == arg & O_NONBLOCK
    ensures value & !FCNTL_FLAGS_MASK == before & !FCNTL_FLAGS_MASK & !FD_FLAGS_MASK
  {
    var after :| FlagsSet(before, after, arg) && value == Visible(after);
    FlagsSetIs(before, after, arg);
    ShownBits(before, after, arg);
  }

  lemma ShownBits(before: bv32, after: bv32, arg: bv32)
    requires after & O_APPEND == arg & O_APPEND && after & O_NONBLOCK == arg & O_NONBLOCK
    requires after & !FCNTL_FLAGS_MASK == before & !FCNTL_FLAGS_MASK
    ensures (after & !FD_FLAGS_MASK) & O_APPEND == arg & O_APPEND
    ensures (after & !FD_FLAGS_MASK) & O_NONBLOCK == arg & O_NONBLOCK
    ensures (after & !FD_FLAGS_MASK) & !FCNTL_FLAGS_MASK == before & !FCNTL_FLAGS_MASK & !FD_FLAGS_MASK
  {
  }

  lemma OrBits(flags: bv32, bit: bv32)
    ensures (flags | bit) & !bit == flags & !bit
  {
  }

  lemma AndBits(flags: bv32, bit: bv32)
    ensures (flags & !bit) & !bit == flags & !bit
  {
  }
}
