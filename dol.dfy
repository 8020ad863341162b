/** The DOL executable header, read once and never changed. */
module Dol {
  import opened ByteOrder

  /** Number of text slots in a DOL header. */
  const TEXT_COUNT: nat := 7
  /** Number of data slots in a DOL header. */
  const DATA_COUNT: nat := 11
  /** Size in bytes of the DOL header structure, padding included. */
  const DOL_HDR_SIZE: Word := 0x100

  /** Every word exactly as stored in the file: big-endian. */
  datatype DolHeader = DolHeader(
    textOffset: seq<Be32>, dataOffset: seq<Be32>,
    textAddress: seq<Be32>, dataAddress: seq<Be32>,
    textSize: seq<Be32>, dataSize: seq<Be32>,
    bssAddress: Be32, bssSize: Be32, entryPoint: Be32)
  {
    /** The slot arrays have their fixed lengths. */
    predicate Valid() {
      |textOffset| == TEXT_COUNT && |textAddress| == TEXT_COUNT && |textSize| == TEXT_COUNT &&
      |dataOffset| == DATA_COUNT && |dataAddress| == DATA_COUNT && |dataSize| == DATA_COUNT
    }
  }

  /** The indices below `n` whose size is non-zero, in ascending order:
      the slots a builder loop visits and emits an entry for. */
  function NonZeroSlots(sizes: seq<Be32>, n: nat): (r: seq<nat>)
    requires n <= |sizes|
    ensures |r| <= n
    ensures forall k :: 0 <= k < |r| ==> r[k] < n && sizes[r[k]] != ZERO
    ensures forall k, l :: 0 <= k < l < |r| ==> r[k] < r[l]
    ensures forall i {:trigger i in r} :: 0 <= i < n && sizes[i] != ZERO ==> i in r
  {
    if n == 0 then []
    else NonZeroSlots(sizes, n - 1) + (if sizes[n - 1] != ZERO then [n - 1] else [])
  }

  /** The non-zero text slots, in ascending order. */
  function TextSlots(d: DolHeader): seq<nat>
    requires d.Valid()
  {
    NonZeroSlots(d.textSize, |d.textSize|)
  }

  /** The non-zero data slots, in ascending order. */
  function DataSlots(d: DolHeader): seq<nat>
    requires d.Valid()
  {
    NonZeroSlots(d.dataSize, |d.dataSize|)
  }

  /** The number of non-zero data slots (`data_count` after the data loop). */
  function DataCount(d: DolHeader): nat
    requires d.Valid()
  {
    |DataSlots(d)|
  }

  /** Scanning more slots only appends: the slots found among the first `i`
      are a prefix of those found among the first `j`. */
  lemma {:induction false} NonZeroSlotsPrefix(sizes: seq<Be32>, i: nat, j: nat)
    requires i <= j <= |sizes|
    ensures NonZeroSlots(sizes, i) <= NonZeroSlots(sizes, j)
    decreases j - i
  {
    if i < j {
      NonZeroSlotsPrefix(sizes, i, j - 1);
      var a, b := NonZeroSlots(sizes, i), NonZeroSlots(sizes, j - 1);
      var c := NonZeroSlots(sizes, j);
      assert c == b + (if sizes[j - 1] != ZERO then [j - 1] else []);
      assert c[..|b|] == b;
      assert b[..|a|] == a;
      assert c[..|a|] == a by { assert c[..|a|] == c[..|b|][..|a|]; }
    }
  }

  /** A strictly increasing sequence of naturals below its own length is
      0, 1, 2, ... */
  lemma {:induction false} IncreasingBelowLengthIsIdentity(r: seq<nat>, k: nat)
    requires forall a, b :: 0 <= a < b < |r| ==> r[a] < r[b]
    requires forall a :: 0 <= a < |r| ==> r[a] < |r|
    requires k < |r|
    ensures r[k] == k
  {
    AtLeastIndex(r, k);
    AtMostIndex(r, k);
  }

  lemma {:induction false} AtLeastIndex(r: seq<nat>, k: nat)
    requires forall a, b :: 0 <= a < b < |r| ==> r[a] < r[b]
    requires k < |r|
    ensures r[k] >= k
  {
    if k > 0 {
      AtLeastIndex(r, k - 1);
    }
  }

  lemma {:induction false} AtMostIndex(r: seq<nat>, k: nat)
    requires forall a, b :: 0 <= a < b < |r| ==> r[a] < r[b]
    requires forall a :: 0 <= a < |r| ==> r[a] < |r|
    requires k < |r|
    ensures r[k] <= k
    decreases |r| - k
  {
    if k < |r| - 1 {
      AtMostIndex(r, k + 1);
    }
  }

  /** The BSS split reads the data slots at positions `data_count - 2` and
      `data_count - 1`. When the non-zero data slots are exactly the first
      `data_count` ones, those two positions are the last two non-zero slots. */
  lemma CountIndexesLastTwo(d: DolHeader)
    requires d.Valid()
    requires 2 <= DataCount(d)
    requires forall i :: 0 <= i < DATA_COUNT ==> (d.dataSize[i] != ZERO <==> i < DataCount(d))
    ensures DataSlots(d)[DataCount(d) - 2] == DataCount(d) - 2
    ensures DataSlots(d)[DataCount(d) - 1] == DataCount(d) - 1
  {
    var r := DataSlots(d);
    IncreasingBelowLengthIsIdentity(r, |r| - 2);
    IncreasingBelowLengthIsIdentity(r, |r| - 1);
  }

  /** When a zero data slot lies between non-zero ones, indexing by the count
      misses the last non-zero slot: with slots 0, 1 and 3 non-zero the split
      reads slot 2, while the last non-zero slot is 3. */
  lemma CountIndexMissesGap()
    ensures var s := [Htonl(0x40), Htonl(0x20), ZERO, Htonl(0x10)];
      NonZeroSlots(s, 4) == [0, 1, 3] && |NonZeroSlots(s, 4)| - 1 == 2 && s[2] == ZERO
  {
    var s := [Htonl(0x40), Htonl(0x20), ZERO, Htonl(0x10)];
    assert NonZeroSlots(s, 0) == [];
    assert NonZeroSlots(s, 1) == [] + [0];
    assert NonZeroSlots(s, 2) == [0] + [1];
    assert NonZeroSlots(s, 3) == [0, 1] + [];
    assert NonZeroSlots(s, 4) == [0, 1] + [3];
  }
}
