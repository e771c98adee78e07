/**
 * The persistent ring log of samples (`ring_store`): a file holding a 16-byte
 * header followed by `cap` slots of 24 bytes, and a cursor of three
 * key-value entries `head`, `tail` and `full`.
 *
 * The cursor counters are unbounded naturals here; the 32-bit counters of
 * the firmware and what goes wrong when they wrap are in module `RingWrap`.
 */
module RingStore {
  import opened Common
  import opened Crc32

  const Magic: nat := 0x5249_4E47 // "RING" read little-endian
  const Version: nat := 1
  const RecSize: nat := 24
  const DataStart: nat := 16
  /** `Begin` demands room for at least this many slots. */
  const MinSlots: nat := 16

  /** A sample: timestamp, current in mA, power in 0.1 W, temperature in
      0.01 degC, and flags (bit 0 is the heater). */
  datatype SampleRec = SampleRec(ts: u32, currentMA: i32, powerDW: i32, tempCC: i16, flags: u16)

  /** Sixteen bytes: the file header, and the part of a slot in front of its
      `crc32` field. */
  type Bytes16 = b: Bytes | |b| == 16 witness [0, 0, 0, 0, 0, 0, 0, 0, 0, 0, 0, 0, 0, 0, 0, 0]

  /** A slot as stored: the field bytes and the stored checksum (the four
      padding bytes are never read). Any 24 bytes read back as some `RecBin`. */
  datatype RecBin = RecBin(fields: Bytes16, crc: bv32)

  /** The packed little-endian layout of the five fields. */
  function Encode(s: SampleRec): (b: Bytes16)
  {
    LeBytes(s.ts, 4) + LeBytes(Unsigned(s.currentMA, 4), 4) + LeBytes(Unsigned(s.powerDW, 4), 4)
      + LeBytes(Unsigned(s.tempCC, 2), 2) + LeBytes(s.flags, 2)
  }

  /** Reading the five fields back out of the slot bytes. */
  function Decode(b: Bytes16): (s: SampleRec)
  {
    SampleRec(LeValue(b[..4]), Signed(LeValue(b[4..8]), 4), Signed(LeValue(b[8..12]), 4),
      Signed(LeValue(b[12..14]), 2), LeValue(b[14..]))
  }

  /** The fields written are the fields read. */
  lemma {:induction false} DecodeEncode(s: SampleRec)
    ensures Decode(Encode(s)) == s
  {
    var b := Encode(s);
    assert b[..4] == LeBytes(s.ts, 4);
    assert b[4..8] == LeBytes(Unsigned(s.currentMA, 4), 4);
    assert b[8..12] == LeBytes(Unsigned(s.powerDW, 4), 4);
    assert b[12..14] == LeBytes(Unsigned(s.tempCC, 2), 2);
    assert b[14..] == LeBytes(s.flags, 2);
    LeValueOfLeBytes(s.ts, 4);
    LeValueOfLeBytes(Unsigned(s.currentMA, 4), 4);
    LeValueOfLeBytes(Unsigned(s.powerDW, 4), 4);
    LeValueOfLeBytes(Unsigned(s.tempCC, 2), 2);
    LeValueOfLeBytes(s.flags, 2);
    SignedOfUnsigned(s.currentMA, 4);
    SignedOfUnsigned(s.powerDW, 4);
    SignedOfUnsigned(s.tempCC, 2);
  }

  /** The check of `readOne`: the stored checksum matches the field bytes. */
  predicate Intact(rb: RecBin)
  {
    Crc(rb.fields) == rb.crc
  }

  /** The record `Append` writes for a sample. */
  function Seal(s: SampleRec): (rb: RecBin)
    ensures Intact(rb)
  {
    RecBin(Encode(s), Crc(Encode(s)))
  }

  // ---------------------------------------------------------------- layout

  /** `capacityRecs`: the slots that fit behind the header of a file of
      `size` bytes (the subtraction is on a 32-bit `size_t`). */
  function Capacity(size: u32): (cap: nat)
    ensures size >= DataStart + RecSize * MinSlots ==> MinSlots <= cap && DataStart + cap * RecSize <= size
    ensures size >= DataStart ==> DataStart + cap * RecSize <= size < DataStart + (cap + 1) * RecSize
  {
    ((size - DataStart) % Two32) / RecSize
  }

  /** `dataOffset`: where the slot of logical index `idx` starts. */
  function SlotOffset(idx: nat, cap: nat): (off: nat)
    requires cap >= 1
    ensures DataStart <= off && off + RecSize <= DataStart + cap * RecSize
    ensures (off - DataStart) % RecSize == 0
  {
    DataStart + (idx % cap) * RecSize
  }

  /** `writeHeader`: magic, version, record size, capacity, a zero word. */
  function HeaderBytes(cap: u32): (h: Bytes16)
  {
    LeBytes(Magic, 4) + LeBytes(Version, 2) + LeBytes(RecSize, 2) + LeBytes(cap, 4) + LeBytes(0, 4)
  }

  /** The first word of the file, as `RingStoreBegin` reads it. */
  function StoredMagic(h: Bytes16): (m: nat)
    ensures m < Two32
  {
    LeValue(h[..4])
  }

  /** A zero-filled file has no magic. */
  lemma {:induction false} ZeroHeaderHasNoMagic()
    ensures StoredMagic(Zeros(DataStart)) == 0
  {
    assert Zeros(DataStart)[..4] == Zeros(4);
    LeValueOfZeros(4);
  }

  lemma {:induction false} HeaderLayout(cap: u32)
    ensures StoredMagic(HeaderBytes(cap)) == Magic
    ensures LeValue(HeaderBytes(cap)[4..6]) == Version && LeValue(HeaderBytes(cap)[6..8]) == RecSize
    ensures LeValue(HeaderBytes(cap)[8..12]) == cap && LeValue(HeaderBytes(cap)[12..]) == 0
  {
    var h := HeaderBytes(cap);
    assert h[..4] == LeBytes(Magic, 4);
    assert h[4..6] == LeBytes(Version, 2);
    assert h[6..8] == LeBytes(RecSize, 2);
    assert h[8..12] == LeBytes(cap, 4);
    assert h[12..] == LeBytes(0, 4);
    LeValueOfLeBytes(Magic, 4);
    LeValueOfLeBytes(Version, 2);
    LeValueOfLeBytes(RecSize, 2);
    LeValueOfLeBytes(cap, 4);
    LeValueOfLeBytes(0, 4);
  }

  // ---------------------------------------------------------------- cursor

  /** The three persisted cursor entries. */
  datatype Cursor = Cursor(head: nat, tail: nat, full: bool)

  /** The cursor invariant: between 0 and `cap` records are queued, and `full`
      says exactly that `cap` are. */
  predicate Inv(c: Cursor, cap: nat)
  {
    c.tail <= c.head <= c.tail + cap && (c.full <==> c.head - c.tail == cap)
  }

  /** `RingStoreCountApprox`. */
  function QueuedCount(c: Cursor, cap: nat): (n: nat)
    ensures Inv(c, cap) ==> n == c.head - c.tail
    ensures !c.full && c.head < c.tail ==> n == 0
  {
    if !c.full then (if c.head >= c.tail then c.head - c.tail else 0) else cap
  }

  /** The cursor update of `RingStoreAppend`. The second `isFull()` of the
      firmware still reads the stored (old) flag. */
  function AppendCursor(c: Cursor, cap: nat): (r: Cursor)
    requires cap >= 1
    ensures r.head == c.head + 1
    ensures Inv(c, cap) ==> Inv(r, cap)
    ensures Inv(c, cap) ==> r.tail == if c.full then c.tail + 1 else c.tail
    ensures Inv(c, cap) ==> (r.full <==> c.full || c.head - c.tail == cap - 1)
  {
    var head := c.head + 1;
    var tail := if c.full then c.tail + 1 else c.tail;
    if !c.full && head - tail >= cap then Cursor(head, head - cap, true)
    else Cursor(head, tail, c.full)
  }

  /** The cursor update of `RingStoreDrop`: the count is clamped to the
      queued count and only `tail` and `full` move. */
  function DropCursor(c: Cursor, cap: nat, count: nat): (r: Cursor)
    requires cap >= 1 && Inv(c, cap)
    ensures r.head == c.head
    ensures r.tail == c.tail + Min(count, c.head - c.tail)
    ensures Inv(r, cap)
    ensures count > 0 ==> !r.full
  {
    var tail := c.tail + Min(count, QueuedCount(c, cap));
    var full := if tail == c.head then false else if c.head - tail < cap then false else c.full;
    Cursor(c.head, tail, full)
  }

  // ---------------------------------------------------------------- contents

  // The two sequence functions below are generic in the entry type, so that
  // their lemmas never unfold the checksum.

  /** The queued entries, oldest first: slot `(tail + i) mod cap` for `i`
      below `head - tail`. */
  function Window<A>(slots: seq<A>, c: Cursor): (w: seq<A>)
    requires |slots| >= 1 && c.tail <= c.head
    ensures |w| == c.head - c.tail
    ensures forall i :: 0 <= i < |w| ==> w[i] == slots[(c.tail + i) % |slots|]
  {
    seq(c.head - c.tail, i requires 0 <= i < c.head - c.tail => slots[(c.tail + i) % |slots|])
  }

  /** The value of `v`, when there is one. */
  function Pushed<T>(v: Option<T>): (out: seq<T>)
    ensures v.Some? ==> out == [v.value]
    ensures v.None? ==> out == []
  {
    if v.Some? then [v.value] else []
  }

  /** The values that `f` finds in the first `n` entries of `w`, in order,
      skipping the entries where it finds none. */
  function Collect<A, T>(f: A -> Option<T>, w: seq<A>, n: nat): (out: seq<T>)
    requires n <= |w|
    ensures |out| <= n
  {
    if n == 0 then [] else Collect(f, w, n - 1) + Pushed(f(w[n - 1]))
  }

  lemma {:induction false} CollectSnoc<A, T>(f: A -> Option<T>, w: seq<A>, n: nat)
    requires n < |w|
    ensures Collect(f, w, n + 1) == Collect(f, w, n) + Pushed(f(w[n]))
  {
  }

  /** When no entry is missing, every value is kept, in order. */
  lemma {:induction false} CollectAllPresent<A, T>(f: A -> Option<T>, w: seq<A>, n: nat)
    requires n <= |w|
    requires forall i :: 0 <= i < n ==> f(w[i]).Some?
    ensures |Collect(f, w, n)| == n
    ensures forall i :: 0 <= i < n ==> Collect(f, w, n)[i] == f(w[i]).value
  {
    if n > 0 {
      CollectAllPresent(f, w, n - 1);
    }
  }

  /** When every entry is missing, nothing is kept. */
  lemma {:induction false} CollectAllMissing<A, T>(f: A -> Option<T>, w: seq<A>, n: nat)
    requires n <= |w|
    requires forall i :: 0 <= i < n ==> f(w[i]).None?
    ensures Collect(f, w, n) == []
  {
    if n > 0 {
      CollectAllMissing(f, w, n - 1);
    }
  }

  /** What `readOne` makes of a slot: its sample when the check passes,
      nothing when the record is corrupt. */
  function View(rb: RecBin): (v: Option<SampleRec>)
    ensures v.Some? <==> Intact(rb)
  {
    if Intact(rb) then Some(Decode(rb.fields)) else None
  }

  /** What `RingStoreReadBatch(out, maxItems)` delivers from the queued
      records `w`: the samples of the oldest `min(maxItems, |w|)` of them
      that pass the check. */
  function Batch(w: seq<RecBin>, maxItems: nat): (out: seq<SampleRec>)
    ensures |out| <= Min(maxItems, |w|)
  {
    Collect(View, w, Min(maxItems, |w|))
  }

  /** The records `Append` writes for a sequence of samples. */
  function Sealed(q: seq<SampleRec>): (rs: seq<RecBin>)
    ensures |rs| == |q|
  {
    seq(|q|, i requires 0 <= i < |q| => Seal(q[i]))
  }

  /** A sealed record reads back as the sample it was made from. */
  lemma {:induction false} ViewOfSeal(s: SampleRec)
    ensures View(Seal(s)) == Some(s)
  {
    DecodeEncode(s);
  }

  /** Records written by `Append` and not overwritten read back as the
      samples appended, in order. */
  lemma {:induction false} SealedReadsBack(q: seq<SampleRec>)
    ensures Collect(View, Sealed(q), |q|) == q
  {
    forall i | 0 <= i < |q|
      ensures View(Sealed(q)[i]).Some? && View(Sealed(q)[i]).value == q[i]
    {
      ViewOfSeal(q[i]);
    }
    CollectAllPresent(View, Sealed(q), |q|);
  }

  /** The stall: a batch of one from a queue whose oldest record fails the
      check is empty, although a record is queued. */
  lemma {:induction false} CorruptOldestGivesEmptyBatch(q: seq<RecBin>)
    requires q != [] && !Intact(q[0])
    ensures Batch(q, 1) == []
  {
    CollectSnoc(View, q, 0);
  }

  /** How many of the first entries of `w` `f` finds nothing in: for the
      queue and `View`, the damaged oldest records in front of the first
      intact one. */
  function LeadingMissing<A, T>(f: A -> Option<T>, w: seq<A>): (n: nat)
    ensures n <= |w|
    ensures forall i :: 0 <= i < n ==> f(w[i]).None?
    ensures n < |w| ==> f(w[n]).Some?
    decreases |w|
  {
    if w == [] || f(w[0]).Some? then 0 else 1 + LeadingMissing(f, w[1..])
  }

  /** Entries that `f` finds nothing in can be cut off the front. */
  lemma {:induction false} CollectDropMissing<A, T>(f: A -> Option<T>, w: seq<A>, k: nat, n: nat)
    requires k <= n <= |w|
    requires forall i :: 0 <= i < k ==> f(w[i]).None?
    ensures Collect(f, w, n) == Collect(f, w[k..], n - k)
    decreases n
  {
    if n == k {
      CollectAllMissing(f, w, k);
    } else {
      CollectDropMissing(f, w, k, n - 1);
      assert w[k..][n - k - 1] == w[n - 1];
    }
  }

  /** Cutting off the leading entries `f` finds nothing in keeps every
      value `f` finds. */
  lemma {:induction false} CollectAfterLeading<A, T>(f: A -> Option<T>, w: seq<A>)
    ensures Collect(f, w[LeadingMissing(f, w)..], |w| - LeadingMissing(f, w)) == Collect(f, w, |w|)
  {
    CollectDropMissing(f, w, LeadingMissing(f, w), |w|);
  }

  /** The read path the comment in `RingStoreReadBatch` asks for: `tail`
      is moved past the damaged oldest records before the batch is read. */
  function PurgeCorruptHead(q: seq<RecBin>): seq<RecBin>
  {
    q[LeadingMissing(View, q)..]
  }

  /** Purging loses no intact record: the whole queue reads the same. */
  lemma {:induction false} PurgeKeepsIntact(q: seq<RecBin>)
    ensures Batch(PurgeCorruptHead(q), |q|) == Batch(q, |q|)
  {
    CollectAfterLeading(View, q);
  }

  /** After the purge there is no stall: while any queued record is
      intact, a batch of one holds the oldest intact record. */
  lemma {:induction false} PurgeEndsStall(q: seq<RecBin>)
    requires exists i :: 0 <= i < |q| && Intact(q[i])
    ensures LeadingMissing(View, q) < |q|
    ensures Batch(PurgeCorruptHead(q), 1) == [Decode(q[LeadingMissing(View, q)].fields)]
  {
    var n := LeadingMissing(View, q);
    var r := PurgeCorruptHead(q);
    assert r[0] == q[n];
    CollectSnoc(View, r, 0);
  }

  /** Distinct logical indices less than `cap` apart use distinct slots. */
  lemma {:induction false} ModDistinct(t: nat, i: nat, j: nat, cap: nat)
    requires cap >= 1 && i < j < i + cap
    ensures (t + i) % cap != (t + j) % cap
  {
    var a, d := t + i, j - i;
    var q, r := a / cap, a % cap;
    assert a == cap * q + r;
    if r + d < cap {
      assert t + j == cap * q + (r + d);
      ModOf(t + j, q, r + d, cap);
    } else {
      assert t + j == cap * (q + 1) + (r + d - cap);
      ModOf(t + j, q + 1, r + d - cap, cap);
    }
  }

  /** The remainder is determined by any quotient-remainder split. */
  lemma {:induction false} ModOf(b: int, q: int, r: int, cap: int)
    requires cap >= 1 && b == cap * q + r && 0 <= r < cap
    ensures b % cap == r
  {
    var k := b / cap - q;
    assert cap * k == r - b % cap;
  }

  /** Appending writes slot `head mod cap`: the queue gains the new record at
      its end and, when it was full, loses its oldest record. */
  lemma {:induction false} AppendWindow(slots: seq<RecBin>, c: Cursor, rec: RecBin)
    requires |slots| >= 1 && Inv(c, |slots|)
    ensures Window(slots[c.head % |slots| := rec], AppendCursor(c, |slots|))
         == (if c.full then Window(slots, c)[1..] else Window(slots, c)) + [rec]
  {
    var cap := |slots|;
    var s' := slots[c.head % cap := rec];
    var c' := AppendCursor(c, cap);
    var w, w' := Window(slots, c), Window(s', c');
    var want := (if c.full then w[1..] else w) + [rec];
    var shift := if c.full then 1 else 0;
    assert |w'| == |want|;
    forall i | 0 <= i < |w'|
      ensures w'[i] == want[i]
    {
      assert w'[i] == s'[(c.tail + (shift + i)) % cap];
      if i < |w'| - 1 {
        ModDistinct(c.tail, shift + i, c.head - c.tail, cap);
        assert w'[i] == w[shift + i];
      } else {
        assert c.tail + (shift + i) == c.head;
      }
    }
  }

  /** Dropping `k` records removes the `k` oldest from the queue. */
  lemma {:induction false} DropWindow(slots: seq<RecBin>, c: Cursor, count: nat)
    requires |slots| >= 1 && Inv(c, |slots|)
    ensures Window(slots, DropCursor(c, |slots|, count)) == Window(slots, c)[Min(count, c.head - c.tail)..]
  {
    var k := Min(count, c.head - c.tail);
    var w, w' := Window(slots, c), Window(slots, DropCursor(c, |slots|, count));
    forall i | 0 <= i < |w'|
      ensures w'[i] == w[k..][i]
    {
      assert c.tail + k + i == c.tail + (k + i);
    }
  }

  // ---------------------------------------------------------------- the store

  /** The record used for a freshly created (zero-filled) file. */
  const ZeroRec := RecBin([0, 0, 0, 0, 0, 0, 0, 0, 0, 0, 0, 0, 0, 0, 0, 0], 0)

  /**
   * The flash state of the ring: the configured size `gFileSize`, the file
   * (its length, 0 when there is none, its header and its slots) and the
   * cursor entries.
   */
  class Ring {
    var fileSize: u32
    var fileLen: u32
    var header: Bytes16
    var slots: array<RecBin>
    var head: nat
    var tail: nat
    var full: bool

    function Cur(): Cursor
      reads this
    {
      Cursor(head, tail, full)
    }

    function Cap(): nat
      reads this
    {
      Capacity(fileSize)
    }

    /** The file, when there is one, is a header and the slots that fit
        behind it. */
    ghost predicate Stored()
      reads this
    {
      fileLen == 0 || (DataStart <= fileLen && slots.Length == Capacity(fileLen))
    }

    /** The state after a successful `Begin`: the file has the configured
        size and a header with the magic, and the cursor keeps its
        invariant. */
    ghost predicate Valid()
      reads this
    {
      fileSize >= DataStart + RecSize * MinSlots && fileLen == fileSize
      && slots.Length == Cap() && StoredMagic(header) == Magic
      && Inv(Cur(), Cap())
    }

    /** The queued records, oldest first. */
    ghost function Contents(): seq<RecBin>
      reads this, slots
      requires Valid()
    {
      Window(slots[..], Cur())
    }

    /** Queued record `i` is in slot `(tail + i) mod cap`. */
    lemma ContentsAt(i: nat)
      requires Valid() && i < |Contents()|
      ensures Contents()[i] == slots[(tail + i) % Cap()]
    {
    }

    /** Whether `Begin(size)` initialises the ring: the file is recreated or
        its first word is not the magic. */
    predicate NeedsInit(size: u32)
      reads this
    {
      fileLen != size || StoredMagic(header) != Magic
    }

    /** A device with no ring file and no cursor entries (they read as 0). */
    constructor ()
      ensures Stored() && fileLen == 0 && head == 0 && tail == 0 && !full
    {
      fileSize := 0;
      fileLen := 0;
      header := Zeros(DataStart);
      slots := new RecBin[0];
      head, tail, full := 0, 0, false;
    }

    /** `ensureFileSized`: a file of another length (or none) is replaced by
        a zero-filled one of `size` bytes. */
    method EnsureFileSized(size: u32)
      requires Stored() && size >= DataStart
      modifies this
      ensures Stored() && fileLen == size && slots.Length == Capacity(size)
      ensures fileSize == old(fileSize) && Cur() == old(Cur())
      ensures old(fileLen) == size ==> header == old(header) && slots == old(slots)
      ensures old(fileLen) != size ==>
        header == Zeros(DataStart) && fresh(slots) && forall k :: 0 <= k < slots.Length ==> slots[k] == ZeroRec
    {
      if fileLen != size {
        fileLen := size;
        header := Zeros(DataStart);
        slots := new RecBin[Capacity(size)](_ => ZeroRec);
      }
    }

    /** The header check of `RingStoreBegin`: without the magic, the header
        is written and the three cursor entries are reset to 0. */
    method CheckHeader()
      requires fileLen == fileSize && fileSize >= DataStart
      modifies this
      ensures fileSize == old(fileSize) && fileLen == old(fileLen) && slots == old(slots)
      ensures StoredMagic(header) == Magic
      ensures old(StoredMagic(header)) == Magic ==> header == old(header) && Cur() == old(Cur())
      ensures old(StoredMagic(header)) != Magic ==> header == HeaderBytes(Cap()) && Cur() == Cursor(0, 0, false)
    {
      if StoredMagic(header) != Magic {
        header := HeaderBytes(Cap());
        HeaderLayout(Cap());
        head, tail, full := 0, 0, false;
      }
    }

    /** `RingStoreBegin(path, size)`: refuses a size with room for fewer than
        16 slots, otherwise sizes the file and checks its header. A
        recreated file has no magic, so its cursor is always reset. */
    method Begin(size: u32) returns (ok: bool)
      requires Stored()
      modifies this
      ensures Stored() && fileSize == size
      ensures ok <==> size >= DataStart + RecSize * MinSlots
      ensures !ok ==> fileLen == old(fileLen) && header == old(header) && slots == old(slots) && Cur() == old(Cur())
      ensures ok ==> fileLen == size && StoredMagic(header) == Magic
      ensures ok && old(fileLen) == size ==> slots == old(slots)
      ensures ok && old(fileLen) != size ==> fresh(slots)
      ensures ok && old(NeedsInit(size)) ==> header == HeaderBytes(Cap()) && Cur() == Cursor(0, 0, false)
      ensures ok && !old(NeedsInit(size)) ==> header == old(header) && Cur() == old(Cur())
      ensures ok && (old(NeedsInit(size)) || old(Inv(Cur(), Capacity(size)))) ==> Valid()
    {
      fileSize := size;
      if size < DataStart + RecSize * MinSlots {
        return false;
      }
      EnsureFileSized(size);
      ZeroHeaderHasNoMagic();
      CheckHeader();
      ok := true;
    }

    /** `RingStoreAppend(r)`: writes the sealed record at slot `head mod cap`
        and never refuses; on overflow the oldest record is overwritten. */
    method Append(r: SampleRec) returns (ok: bool)
      requires Valid()
      modifies this, slots
      ensures Valid() && ok
      ensures fileSize == old(fileSize) && fileLen == old(fileLen) && header == old(header) && slots == old(slots)
      ensures Cur() == AppendCursor(old(Cur()), slots.Length)
      ensures slots[..] == old(slots[..])[old(head) % slots.Length := Seal(r)]
      ensures Contents() == (if old(full) then old(Contents())[1..] else old(Contents())) + [Seal(r)]
    {
      var cap := slots.Length;
      var fields := Encode(r);
      var crc := Crc32Simple(fields);
      var idx := head % cap;
      slots[idx] := RecBin(fields, crc);
      AppendWindow(old(slots[..]), Cur(), Seal(r));
      var h := head + 1;
      var t := tail;
      var wasFull := full;
      if wasFull {
        t := t + 1;
      }
      if !wasFull && h - t >= cap {
        full := true;
        t := h - cap;
      }
      head, tail := h, t;
      ok := true;
    }

    /** `RingStoreCountApprox`. */
    method CountApprox() returns (n: nat)
      ensures n == QueuedCount(Cur(), Cap())
      ensures Valid() ==> n == |Contents()|
    {
      if !full {
        if head >= tail {
          return head - tail;
        }
        return 0;
      }
      return Cap();
    }

    /** `RingStoreReadBatch(out, maxItems)`: reads from `tail`, skips records
        that fail the check, removes nothing. */
    method ReadBatch(maxItems: nat) returns (out: seq<SampleRec>)
      requires Valid()
      ensures out == Batch(Contents(), maxItems)
    {
      var count := CountApprox();
      if count == 0 {
        return [];
      }
      out := ReadLoop(Min(maxItems, count));
    }

    /** The loop of `RingStoreReadBatch` over the first `n` queued records. */
    method ReadLoop(n: nat) returns (out: seq<SampleRec>)
      requires Valid() && n <= |Contents()|
      ensures out == Collect(View, Contents(), n)
    {
      ghost var q := Contents();
      out := [];
      var i := 0;
      while i < n
        invariant 0 <= i <= n
        invariant out == Collect(View, q, i)
      {
        var v := ReadAt(i);
        CollectSnoc(View, q, i);
        out := out + Pushed(v);
        i := i + 1;
      }
    }

    /** One pass of the loop: queued record `i` is read from slot
        `(tail + i) mod cap`. */
    method ReadAt(i: nat) returns (v: Option<SampleRec>)
      requires Valid() && i < |Contents()|
      ensures v == View(Contents()[i])
    {
      v := ReadOne(tail + i);
      ContentsAt(i);
    }

    /** `readOne(f, idx, out)`: the sample in the slot of logical index
        `idx`, when its stored checksum matches the checksum of its field
        bytes. */
    method ReadOne(idx: nat) returns (v: Option<SampleRec>)
      requires Valid()
      ensures v == View(slots[idx % Cap()])
    {
      var rb := slots[idx % Cap()];
      var crc := Crc32Simple(rb.fields);
      if crc == rb.crc {
        return Some(Decode(rb.fields));
      }
      return None;
    }

    /** `RingStoreDrop(count)`: forgets the `count` oldest records (at most
        as many as are queued). */
    method Drop(count: nat) returns (ok: bool)
      requires Valid()
      modifies this
      ensures Valid() && ok
      ensures fileSize == old(fileSize) && fileLen == old(fileLen) && header == old(header) && slots == old(slots)
      ensures Cur() == DropCursor(old(Cur()), Cap(), count)
      ensures Contents() == old(Contents())[Min(count, |old(Contents())|)..]
    {
      var have := CountApprox();
      var k := if count > have then have else count;
      var cap := Cap();
      var t := tail + k;
      if t == head {
        full := false;
      } else if head - t < cap {
        full := false;
      }
      tail := t;
      DropWindow(slots[..], old(Cur()), count);
      ok := true;
    }
  }
}
