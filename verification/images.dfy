/**
 * The boot payload registry of 2ndboot-ng: a fixed table, indexed by image
 * tag, of the physical regions that the kernel, initramfs, device tree,
 * command line and firmware blobs are unpacked into, with the lifecycle
 * state of each region (boot/images.c).
 *
 * The table's contents are modelled as a `seq<Entry>`; the pure functions
 * below give the meaning of each operation on that value, and the class
 * `BufferList` holds the table as an array that its methods update in place.
 */
module Images {

  /** A physical address, treated as an opaque number. */
  type Addr = nat

  /** The `B_STAT_*` buffer states; `Other` is any other state byte. */
  datatype State = None | Created | Completed | CrcError | Overflow | Error | Other(code: nat)

  /** Runtime buffer attribute bits (`B_ATTR_*`); only `Verify` is read here. */
  datatype BufferAttr = Verify | BufferFlag(bit: nat)

  /** Static image attribute bits (`IMG_ATTR_*`); `Lazy` is set, never read. */
  datatype ImageAttr = Lazy | ImageFlag(bit: nat)

  /** `struct abstract_buffer`: the status block an unpacker reports into. */
  datatype Status = Status(state: State, size: nat, checksum: nat, attrs: set<BufferAttr>)

  /** `struct buffer_handle`: one row of `buffers_list`. */
  datatype Entry = Entry(status: Status, dest: Addr, maxsize: nat, attrs: set<ImageAttr>)

  /** `struct memory_image`: a caller's view of a region. */
  datatype MemoryImage = MemoryImage(data: Addr, size: nat)

  /** The pointer returned by `image_find` and `image_unpack`: NULL or a view. */
  datatype ImageRef = Null | Ref(image: MemoryImage)

  /**
   * What the external `unpack_buffer` does to the handle it is given: the
   * status block it leaves in the entry, and the state it returns.
   */
  datatype UnpackOutcome = UnpackOutcome(status: Status, state: State)

  /** The external byte-transfer primitive, given the address and the entry. */
  type Unpacker = (Addr, Entry) -> UnpackOutcome

  /** The external checksum primitive over (address, length). */
  type Crc32 = (Addr, nat) -> nat

  /** The zero-initialised status of a statically allocated entry. */
  const Blank: Status := Status(None, 0, 0, {})

  /** An entry that no designated initialiser names. */
  const ZeroEntry: Entry := Entry(Blank, 0, 0, {})

  // ---------------------------------------------------------------------
  // Static configuration
  // ---------------------------------------------------------------------

  /** The payload kinds that have a designated initialiser. */
  datatype Image = Linux | Initramfs | MotFlatTree | Cmdline | UsbFw | BpLoader | BpFw

  /** The destination, capacity and static attributes baked in for a kind. */
  function Configured(img: Image): (e: Entry)
    ensures e.status == Blank
    ensures e.attrs == (if img == BpFw then {Lazy} else {})
  {
    match img
    case Linux => Entry(Blank, 0x9000_8000, 2 * 1024 * 1024, {})
    case Initramfs => Entry(Blank, 0x9080_0000, 2 * 1024 * 1024, {})
    case MotFlatTree => Entry(Blank, 0x9100_0000, 1 * 1024 * 1024, {})
    case Cmdline => Entry(Blank, 0x9110_0000, 1024, {})
    case UsbFw => Entry(Blank, 0x9111_0000, 16 * 1024, {})
    case BpLoader => Entry(Blank, 0x9112_0000, 16 * 1024, {})
    case BpFw => Entry(Blank, 0, 0, {Lazy})
  }

  /** The tag numbers of the kinds are distinct, as enum constants are. */
  ghost predicate Injective(tagOf: Image -> nat) {
    forall a: Image, b: Image :: tagOf(a) == tagOf(b) ==> a == b
  }

  /** Row `i` of the statically initialised table, for tag numbering `tagOf`. */
  function InitialEntry(tagOf: Image -> nat, i: nat): (e: Entry)
    ensures e.status == Blank
  {
    if i == tagOf(Linux) then Configured(Linux)
    else if i == tagOf(Initramfs) then Configured(Initramfs)
    else if i == tagOf(MotFlatTree) then Configured(MotFlatTree)
    else if i == tagOf(Cmdline) then Configured(Cmdline)
    else if i == tagOf(UsbFw) then Configured(UsbFw)
    else if i == tagOf(BpLoader) then Configured(BpLoader)
    else if i == tagOf(BpFw) then Configured(BpFw)
    else ZeroEntry
  }

  /** Each kind's row holds its own configuration, and every other row is zero. */
  lemma InitialEntryOf(tagOf: Image -> nat, i: nat)
    requires Injective(tagOf)
    ensures forall img: Image :: tagOf(img) == i ==> InitialEntry(tagOf, i) == Configured(img)
    ensures (forall img: Image :: tagOf(img) != i) ==> InitialEntry(tagOf, i) == ZeroEntry
  {
  }

  // ---------------------------------------------------------------------
  // image_find
  // ---------------------------------------------------------------------

  /**
   * `image_find`: the view of a payload, available only once its entry is
   * COMPLETED. Only the upper bound of the tag is checked, so tag 0 is
   * looked up like any other.
   */
  function Find(table: seq<Entry>, tag: nat): (r: ImageRef)
    ensures r.Ref? <==> tag < |table| && table[tag].status.state == Completed
    ensures r.Ref? ==> r.image.data == table[tag].dest && r.image.size == table[tag].status.size
  {
    if tag > |table| - 1 then Null
    else if table[tag].status.state == Completed then
      Ref(MemoryImage(table[tag].dest, table[tag].status.size))
    else Null
  }

  // ---------------------------------------------------------------------
  // image_unpack
  // ---------------------------------------------------------------------

  /** The table and the returned pointer after one `image_unpack`. */
  datatype UnpackStep = UnpackStep(table: seq<Entry>, ret: ImageRef)

  /** The three guards of `image_unpack` all pass. */
  predicate UnpackAdmits(table: seq<Entry>, tag: nat, dest: MemoryImage) {
    tag < |table| && dest.size >= table[tag].status.size && table[tag].status.state == Created
  }

  /**
   * `image_unpack`: after the tag bound, the caller's capacity against the
   * recorded size and the CREATED state are checked, the primitive is given
   * the caller's address and the entry; only the entry's status changes, and
   * the caller's own view is returned when the primitive reports COMPLETED.
   */
  function UnpackSpec(table: seq<Entry>, tag: nat, dest: MemoryImage, unpack: Unpacker): (s: UnpackStep)
    ensures |s.table| == |table|
    ensures s.ret == Null || s.ret == Ref(dest)
  {
    if tag > |table| - 1 then UnpackStep(table, Null)
    else if dest.size < table[tag].status.size then UnpackStep(table, Null)
    else if table[tag].status.state == Created then
      var outcome := unpack(dest.data, table[tag]);
      UnpackStep(table[tag := table[tag].(status := outcome.status)],
                 if outcome.state == Completed then Ref(dest) else Null)
    else UnpackStep(table, Null)
  }

  /** An out-of-range tag yields NULL, leaves the table and ignores the primitive. */
  lemma UnpackRejectsOutOfRange(table: seq<Entry>, tag: nat, dest: MemoryImage, unpack: Unpacker)
    requires tag >= |table|
    ensures UnpackSpec(table, tag, dest, unpack) == UnpackStep(table, Null)
    ensures Find(table, tag) == Null
  {
  }

  /** A caller capacity below the recorded size yields NULL before any transfer. */
  lemma UnpackRejectsOverflow(table: seq<Entry>, tag: nat, dest: MemoryImage, unpack: Unpacker)
    requires tag < |table| && dest.size < table[tag].status.size
    ensures UnpackSpec(table, tag, dest, unpack) == UnpackStep(table, Null)
  {
  }

  /** An entry that is not CREATED yields NULL before any transfer. */
  lemma UnpackRejectsNotCreated(table: seq<Entry>, tag: nat, dest: MemoryImage, unpack: Unpacker)
    requires tag < |table| && table[tag].status.state != Created
    ensures UnpackSpec(table, tag, dest, unpack) == UnpackStep(table, Null)
  {
  }

  /**
   * `image_unpack` returns the caller's view exactly when every guard passes
   * and the primitive returns COMPLETED; only the target entry's status can
   * change, and only to what the primitive left in it.
   */
  lemma UnpackSucceedsIff(table: seq<Entry>, tag: nat, dest: MemoryImage, unpack: Unpacker)
    ensures var s := UnpackSpec(table, tag, dest, unpack);
      s.ret.Ref? <==> UnpackAdmits(table, tag, dest) && unpack(dest.data, table[tag]).state == Completed
    ensures var s := UnpackSpec(table, tag, dest, unpack);
      forall i :: 0 <= i < |table| && i != tag ==> s.table[i] == table[i]
    ensures var s := UnpackSpec(table, tag, dest, unpack);
      tag < |table| ==>
        s.table[tag] == table[tag].(status := if UnpackAdmits(table, tag, dest)
                                              then unpack(dest.data, table[tag]).status
                                              else table[tag].status)
  {
  }

  /**
   * When the primitive both records and returns COMPLETED, a later find
   * succeeds with the table's destination and the size the primitive
   * recorded; that view equals the one unpack returned only when the caller
   * passed the table's own destination and exactly that size.
   */
  lemma UnpackThenFind(table: seq<Entry>, tag: nat, dest: MemoryImage, unpack: Unpacker)
    requires UnpackAdmits(table, tag, dest)
    requires unpack(dest.data, table[tag]).state == Completed
    requires unpack(dest.data, table[tag]).status.state == Completed
    ensures var s := UnpackSpec(table, tag, dest, unpack);
      s.ret == Ref(dest) &&
      Find(s.table, tag) == Ref(MemoryImage(table[tag].dest, unpack(dest.data, table[tag]).status.size))
    ensures var s := UnpackSpec(table, tag, dest, unpack);
      s.ret == Find(s.table, tag) <==>
        dest == MemoryImage(table[tag].dest, unpack(dest.data, table[tag]).status.size)
  {
  }

  // ---------------------------------------------------------------------
  // image_complete
  // ---------------------------------------------------------------------

  /** A COMPLETED entry that asks for verification and whose checksum is wrong. */
  predicate FailsVerification(e: Entry, crc: Crc32) {
    e.status.state == Completed && Verify in e.status.attrs &&
    e.status.checksum != crc(e.dest, e.status.size)
  }

  /**
   * One step of the sweep: a failing entry is demoted to CRCERROR, keeping
   * every other field; any other entry, whatever its state, is left as it is.
   */
  function SweepEntry(e: Entry, crc: Crc32): (r: Entry)
    ensures r != e <==> FailsVerification(e, crc)
    ensures r == e.(status := e.status.(state := r.status.state))
    ensures r.status.state in {e.status.state, CrcError}
    ensures e.status.state != Completed ==> r == e
  {
    if FailsVerification(e, crc) then e.(status := e.status.(state := CrcError)) else e
  }

  /** Sweeping one entry twice is the same as sweeping it once. */
  lemma SweepEntryIdempotent(e: Entry, crc: Crc32)
    ensures SweepEntry(SweepEntry(e, crc), crc) == SweepEntry(e, crc)
  {
  }

  /** The table after the sweep has visited tags 1 .. n-1. */
  function Swept(table: seq<Entry>, crc: Crc32, n: nat): (r: seq<Entry>)
    requires n <= |table|
    ensures |r| == |table|
    decreases n
  {
    if n <= 1 then table
    else Swept(table, crc, n - 1)[n - 1 := SweepEntry(table[n - 1], crc)]
  }

  /** Row `i` after visiting tags 1 .. n-1: swept if visited, original otherwise. */
  lemma {:induction false} SweptAt(table: seq<Entry>, crc: Crc32, n: nat, i: nat)
    requires n <= |table| && i < |table|
    ensures Swept(table, crc, n)[i] == if 1 <= i < n then SweepEntry(table[i], crc) else table[i]
    decreases n
  {
    if n > 1 {
      SweptAt(table, crc, n - 1, i);
    }
  }

  /** `image_complete`: the sweep over every tag 1 .. IMG_LAST_TAG. */
  function Sweep(table: seq<Entry>, crc: Crc32): (r: seq<Entry>)
    ensures |r| == |table|
  {
    Swept(table, crc, |table|)
  }

  /**
   * After the sweep, an entry from tag 1 on that fails verification is
   * CRCERROR with every other field kept; entry 0 and every other entry are
   * unchanged.
   */
  lemma SweepOutcome(table: seq<Entry>, crc: Crc32, i: nat)
    requires i < |table|
    ensures Sweep(table, crc)[i] ==
      if 1 <= i && FailsVerification(table[i], crc)
      then table[i].(status := table[i].status.(state := CrcError))
      else table[i]
  {
    SweptAt(table, crc, |table|, i);
  }

  /** Running the sweep a second time changes nothing. */
  lemma SweepIdempotent(table: seq<Entry>, crc: Crc32)
    ensures Sweep(Sweep(table, crc), crc) == Sweep(table, crc)
  {
    var once := Sweep(table, crc);
    forall i | 0 <= i < |table|
      ensures Sweep(once, crc)[i] == once[i]
    {
      SweptAt(table, crc, |table|, i);
      SweptAt(once, crc, |once|, i);
      SweepEntryIdempotent(table[i], crc);
    }
  }

  /** After the sweep a find fails exactly where it failed before or verification failed. */
  lemma FindAfterSweep(table: seq<Entry>, crc: Crc32, tag: nat)
    ensures Find(Sweep(table, crc), tag) ==
      if 1 <= tag < |table| && FailsVerification(table[tag], crc) then Null else Find(table, tag)
  {
    if tag < |table| {
      SweptAt(table, crc, |table|, tag);
    }
  }

  // ---------------------------------------------------------------------
  // image_dump_stats
  // ---------------------------------------------------------------------

  /** The one-character code of a state in the diagnostic report. */
  function StateCode(s: State): (c: char)
    ensures c in "-*+!^#?"
    ensures c == '?' <==> s.Other?
  {
    match s
    case None => '-'
    case Created => '*'
    case Completed => '+'
    case CrcError => '!'
    case Overflow => '^'
    case Error => '#'
    case Other(_) => '?'
  }

  /** Distinct named states are shown with distinct codes. */
  lemma StateCodeInjective(s: State, t: State)
    requires !s.Other? && !t.Other?
    ensures StateCode(s) == StateCode(t) <==> s == t
  {
  }

  /** One line of the diagnostic report: the header, or one tag's record. */
  datatype ReportLine = Header | Line(tag: nat, addr: Addr, size: nat, code: char)

  // ---------------------------------------------------------------------
  // The table
  // ---------------------------------------------------------------------

  /** `buffers_list`: one entry per tag 0 .. IMG_LAST_TAG. */
  class BufferList {
    const lastTag: nat
    const entries: array<Entry>

    ghost predicate Valid()
      reads this
    {
      entries.Length == lastTag + 1
    }

    /**
     * The static initialisation: the designated kinds get their configured
     * destination, capacity and attributes, every other row is zero, and
     * every status is blank (state NONE).
     */
    constructor (lastTag: nat, tagOf: Image -> nat)
      requires Injective(tagOf)
      requires forall img: Image :: tagOf(img) <= lastTag
      ensures Valid() && this.lastTag == lastTag && fresh(entries)
      ensures forall img: Image :: entries[tagOf(img)] == Configured(img)
      ensures forall i :: 0 <= i < entries.Length ==>
        entries[i] == InitialEntry(tagOf, i) && entries[i].status.state == None
    {
      this.lastTag := lastTag;
      entries := new Entry[lastTag + 1](i => InitialEntry(tagOf, i));
      new;
      forall img: Image ensures entries[tagOf(img)] == Configured(img) {
        InitialEntryOf(tagOf, tagOf(img));
      }
    }

    /** `image_unpack` on this table. */
    method Unpack(tag: nat, dest: MemoryImage, unpack: Unpacker) returns (r: ImageRef)
      requires Valid()
      modifies entries
      ensures r == UnpackSpec(old(entries[..]), tag, dest, unpack).ret
      ensures entries[..] == UnpackSpec(old(entries[..]), tag, dest, unpack).table
    {
      if tag > lastTag {
        return Null;
      }
      if dest.size < entries[tag].status.size {
        return Null;
      }
      r := Null;
      if entries[tag].status.state == Created {
        var outcome := unpack(dest.data, entries[tag]);
        entries[tag] := entries[tag].(status := outcome.status);
        if outcome.state == Completed {
          r := Ref(dest);
        }
      }
    }

    /** `image_complete`: visit tags 1 .. IMG_LAST_TAG, demoting failed checks. */
    method Complete(crc: Crc32)
      requires Valid()
      modifies entries
      ensures entries[..] == Sweep(old(entries[..]), crc)
    {
      ghost var before := entries[..];
      var i := 1;
      while i <= lastTag
        invariant 1 <= i <= lastTag + 1
        invariant entries[..] == Swept(before, crc, i)
      {
        SweptAt(before, crc, i, i);
        var e := entries[i];
        if e.status.state == Completed && Verify in e.status.attrs {
          if e.status.checksum != crc(e.dest, e.status.size) {
            entries[i] := e.(status := e.status.(state := CrcError));
          }
        }
        i := i + 1;
      }
    }

    /**
     * `image_dump_stats`: the header, then one record per tag 1 ..
     * IMG_LAST_TAG in increasing order; the table is only read.
     */
    method DumpStats() returns (report: seq<ReportLine>)
      requires Valid()
      ensures |report| == lastTag + 1 && report[0] == Header
      ensures forall k :: 1 <= k <= lastTag ==>
        report[k] == Line(k, entries[k].dest, entries[k].status.size, StateCode(entries[k].status.state))
    {
      report := [Header];
      var i := 1;
      while i <= lastTag
        invariant 1 <= i <= lastTag + 1
        invariant |report| == i && report[0] == Header
        invariant forall k :: 1 <= k < i ==>
          report[k] == Line(k, entries[k].dest, entries[k].status.size, StateCode(entries[k].status.state))
      {
        var ab := entries[i].status;
        report := report + [Line(i, entries[i].dest, ab.size, StateCode(ab.state))];
        i := i + 1;
      }
    }
  }

  /**
   * A freshly initialised table reports every tag 1 .. IMG_LAST_TAG as
   * absent ('-'), the lazily populated firmware included.
   */
  method FreshReport(lastTag: nat, tagOf: Image -> nat) returns (report: seq<ReportLine>)
    requires Injective(tagOf)
    requires forall img: Image :: tagOf(img) <= lastTag
    ensures |report| == lastTag + 1 && report[0] == Header
    ensures forall k :: 1 <= k <= lastTag ==> report[k].Line? && report[k].tag == k && report[k].code == '-'
  {
    var table := new BufferList(lastTag, tagOf);
    report := table.DumpStats();
  }
}
