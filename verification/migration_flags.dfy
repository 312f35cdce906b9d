/** The migration facets: which parts of a library entry are carried over when it
    moves to another source, packed into one 32-bit Kotlin `Int`. */
module MigrationFlags {

  const CHAPTERS: bv32 := 0x01
  const CATEGORIES: bv32 := 0x02
  const TRACK: bv32 := 0x04
  const CUSTOM_COVER: bv32 := 0x08
  const EXTRA: bv32 := 0x10
  const DELETE_CHAPTERS: bv32 := 0x20
  const NOTES: bv32 := 0x40

  /** The seven flags together; every other bit of a stored mask is ignored. */
  const ALL_FLAGS: bv32 := 0x7F

  /** Reference definition: bit `k` of `v` is one. */
  predicate Bit(v: bv32, k: nat)
    requires k < 32
  {
    (v >> k) & 1 == 1
  }

  function HasChapters(value: bv32): (r: bool)
    ensures r <==> Bit(value, 0)
  {
    value & CHAPTERS != 0
  }

  function HasCategories(value: bv32): (r: bool)
    ensures r <==> Bit(value, 1)
  {
    value & CATEGORIES != 0
  }

  function HasTracks(value: bv32): (r: bool)
    ensures r <==> Bit(value, 2)
  {
    value & TRACK != 0
  }

  function HasCustomCover(value: bv32): (r: bool)
    ensures r <==> Bit(value, 3)
  {
    value & CUSTOM_COVER != 0
  }

  function HasExtra(value: bv32): (r: bool)
    ensures r <==> Bit(value, 4)
  {
    value & EXTRA != 0
  }

  function HasDeleteChapters(value: bv32): (r: bool)
    ensures r <==> Bit(value, 5)
  {
    value & DELETE_CHAPTERS != 0
  }

  function HasNotes(value: bv32): (r: bool)
    ensures r <==> Bit(value, 6)
  {
    value & NOTES != 0
  }

  /** The answers of the seven tests for one mask. */
  datatype Facets = Facets(
    chapters: bool, categories: bool, tracks: bool, customCover: bool,
    extra: bool, deleteChapters: bool, notes: bool)

  function Decode(value: bv32): Facets
  {
    Facets(HasChapters(value), HasCategories(value), HasTracks(value), HasCustomCover(value),
           HasExtra(value), HasDeleteChapters(value), HasNotes(value))
  }

  /** The flags in bit order. */
  function Flags(): (fs: seq<bv32>)
    ensures |fs| == 7
  {
    [CHAPTERS, CATEGORIES, TRACK, CUSTOM_COVER, EXTRA, DELETE_CHAPTERS, NOTES]
  }

  /** Every constant is the single bit its position names, so the seven are
      distinct, pairwise disjoint, and together make up ALL_FLAGS. */
  lemma FlagsAreSingleBits()
    ensures forall k :: 0 <= k < 7 ==> Flags()[k] == (1 as bv32) << k
    ensures forall j, k :: 0 <= j < k < 7 ==> Flags()[j] & Flags()[k] == 0 && Flags()[j] != Flags()[k]
    ensures CHAPTERS | CATEGORIES | TRACK | CUSTOM_COVER | EXTRA | DELETE_CHAPTERS | NOTES == ALL_FLAGS
  {
  }

  // Setting or clearing one flag's bit turns its own test on or off and leaves
  // the six other tests unchanged; one lemma per flag.

  lemma SetOrClearChapters(value: bv32)
    ensures Decode(value | CHAPTERS) == Decode(value).(chapters := true)
    ensures Decode(value & !CHAPTERS) == Decode(value).(chapters := false)
  {
  }

  lemma SetOrClearCategories(value: bv32)
    ensures Decode(value | CATEGORIES) == Decode(value).(categories := true)
    ensures Decode(value & !CATEGORIES) == Decode(value).(categories := false)
  {
  }

  lemma SetOrClearTrack(value: bv32)
    ensures Decode(value | TRACK) == Decode(value).(tracks := true)
    ensures Decode(value & !TRACK) == Decode(value).(tracks := false)
  {
  }

  lemma SetOrClearCustomCover(value: bv32)
    ensures Decode(value | CUSTOM_COVER) == Decode(value).(customCover := true)
    ensures Decode(value & !CUSTOM_COVER) == Decode(value).(customCover := false)
  {
  }

  lemma SetOrClearExtra(value: bv32)
    ensures Decode(value | EXTRA) == Decode(value).(extra := true)
    ensures Decode(value & !EXTRA) == Decode(value).(extra := false)
  {
  }

  lemma SetOrClearDeleteChapters(value: bv32)
    ensures Decode(value | DELETE_CHAPTERS) == Decode(value).(deleteChapters := true)
    ensures Decode(value & !DELETE_CHAPTERS) == Decode(value).(deleteChapters := false)
  {
  }

  lemma SetOrClearNotes(value: bv32)
    ensures Decode(value | NOTES) == Decode(value).(notes := true)
    ensures Decode(value & !NOTES) == Decode(value).(notes := false)
  {
  }

  /** Bits above bit 6 are ignored: masking them off changes no test. */
  lemma UnknownBitsIgnored(value: bv32)
    ensures Decode(value & ALL_FLAGS) == Decode(value)
  {
  }

  /** No facet is carried for 0, and every facet is carried for 0b1111111. */
  lemma EmptyAndFullMasks()
    ensures Decode(0) == Facets(false, false, false, false, false, false, false)
    ensures Decode(ALL_FLAGS) == Facets(true, true, true, true, true, true, true)
  {
  }
}
