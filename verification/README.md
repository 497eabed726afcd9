# Boot payload registry of 2ndboot-ng, in Dafny

This project models `boot/images.c` of 2ndboot-ng. A bootloader stages payloads into fixed physical regions: the Linux kernel, the initramfs, the flattened device tree, the command line and firmware blobs. The file keeps a fixed table, `buffers_list`, with one entry per image tag. Each entry holds a destination address, a capacity, static attributes and a status block (state, size, checksum, runtime attributes). Four operations act on the table:

- `image_find`: a bounds-checked lookup that yields a view only of a COMPLETED entry.
- `image_unpack`: three guards, then a call to the external `unpack_buffer`.
- `image_complete`: a sweep that demotes COMPLETED entries whose checksum is wrong to CRCERROR.
- `image_dump_stats`: a read-only report with one state character per tag.

Everything is in `images.dfy`, module `Images`:

- The datatypes mirror the C structures: `Status` is `struct abstract_buffer`, `Entry` is `struct buffer_handle`, `MemoryImage` is `struct memory_image`, and `ImageRef` is the returned pointer (NULL or a view).
- The meaning of each operation is a pure function on the table's contents (`seq<Entry>`): `Find`, `UnpackSpec`, `Sweep`, and `StateCode` for the report codes. The lemmas are stated about these functions.
- The class `BufferList` holds the table as an `array<Entry>` of length `lastTag + 1` (`IMG_LAST_TAG + 1`). Its methods `Unpack` and `Complete` update the array in place. Their postconditions tie the new array contents to `UnpackSpec` and `Sweep` of the old contents. `DumpStats` only reads the table.
- The two external primitives are parameters. `unpack_buffer` is an `Unpacker`, a function from (the address it is handed, the entry) to the status block it leaves in the entry and the state it returns. `crc32` is a `Crc32`, a deterministic function of (address, length). In the lemmas, "does not call `unpack_buffer`" is stated as: the result is a value that does not depend on the primitive.

The model follows the code in these points:

- Only the upper bound of the tag is checked (`tag > IMG_LAST_TAG`). Tag 0 is accepted by find and unpack, while the sweep and the report start at tag 1.
- The overflow guard compares the caller's `dest->size` with the recorded `abstract.size`. `maxsize` is never read.
- `image_unpack` hands the primitive the caller's address and returns the caller's own view. `image_find` returns the table's `dest`. `UnpackThenFind` shows that the two views agree only when the caller passed exactly the table's destination and the recorded size.
- `image_unpack` writes no state itself. Any change of state comes from the primitive, and success is decided by the state the primitive returns, not by the state it records. Nothing in `image_unpack` itself moves the entry to COMPLETED. Whether a later `image_find` succeeds depends only on what the primitive records, so `UnpackThenFind` assumes explicitly that the primitive records the COMPLETED state it returns.
- The sweep tests the runtime attribute `Verify` in the status block, not the static attributes. `Lazy` is set for the baseband firmware and never read. The sweep leaves NONE entries alone (`SweepEntry`).

## Model

| member | source | states |
|---|---|---|
| `Images.Configured` | boot/images.c:44-70 | Every designated kind starts with a blank status (state NONE), and the baseband firmware is the only kind whose static attributes are LAZY. |
| `Images.InitialEntry` | boot/images.c:43-71 | Every row of the statically initialised table, designated or not, has a blank status. |
| `Images.InitialEntryOf` | boot/images.c:43-71 | For distinct tag numbers, the row of a designated kind holds exactly that kind's configuration. Every row no initialiser names is all zero. |
| `Images.BufferList.constructor` | boot/images.c:43-71 | The static table has `IMG_LAST_TAG + 1` rows. Each kind's row is its configuration, and every row's state is NONE. |
| `Images.Find` | boot/images.c:73-83 | A view is returned exactly when the tag is at most `IMG_LAST_TAG` (tag 0 included) and the entry is COMPLETED. The view is the entry's `dest` and its recorded size. The table is only read. |
| `Images.UnpackSpec` | boot/images.c:85-98 | The table keeps its length. The result is either NULL or the caller's own view, never another pointer. |
| `Images.UnpackRejectsOutOfRange` | boot/images.c:86-88 | With a tag above `IMG_LAST_TAG`, unpack returns NULL and leaves the table unchanged whatever the primitive does, and find returns NULL by its own guard at lines 74-76. |
| `Images.UnpackRejectsOverflow` | boot/images.c:89-91 | When the caller's capacity is below the recorded size, unpack returns NULL and leaves the table unchanged whatever the primitive does. |
| `Images.UnpackRejectsNotCreated` | boot/images.c:92-97 | On an entry that is not CREATED, unpack returns NULL and leaves the table unchanged whatever the primitive does. |
| `Images.UnpackSucceedsIff` | boot/images.c:92-97 | Unpack returns a view if and only if all three guards pass and the primitive returns COMPLETED. Every other entry is unchanged. The target entry changes only in its status, which becomes what the primitive left. |
| `Images.UnpackThenFind` | boot/images.c:77-80 | Suppose the primitive records and returns COMPLETED. Then a later find yields the table's `dest` with the size the primitive recorded. It equals unpack's returned view exactly when the caller passed that same address and size. |
| `Images.BufferList.Unpack` | boot/images.c:85-98 | The in-place unpack returns `UnpackSpec`'s pointer and leaves the array equal to `UnpackSpec`'s table. |
| `Images.SweepEntry` | boot/images.c:109-113 | An entry changes if and only if it is COMPLETED, asks for verification in its runtime attributes, and its checksum differs from `crc32(dest, size)`. It then becomes CRCERROR with all other fields kept. NONE, CREATED and failed entries are never touched. |
| `Images.SweepEntryIdempotent` | boot/images.c:109-113 | Checking an entry a second time changes nothing. |
| `Images.Swept` | boot/images.c:104-115 | The table part-way through the sweep has the table's length. |
| `Images.SweptAt` | boot/images.c:104-115 | Once tags 1 to n-1 have been visited, exactly those rows have been checked. All other rows, row 0 included, are original. |
| `Images.Sweep` | boot/images.c:100-116 | The complete sweep keeps the table's length. |
| `Images.SweepOutcome` | boot/images.c:104-115 | After the sweep, each entry from tag 1 on that fails verification is CRCERROR with its other fields kept. Entry 0 and every other entry are unchanged. |
| `Images.SweepIdempotent` | boot/images.c:109-113 | With `crc32` a fixed function of (address, length), a second sweep leaves the table exactly as the first one left it. |
| `Images.FindAfterSweep` | boot/images.c:73-83 | After the sweep, find fails for a tag from 1 on that failed verification. For every other tag it gives the same result as before the sweep. |
| `Images.BufferList.Complete` | boot/images.c:100-116 | The in-place loop over tags 1 to `IMG_LAST_TAG` leaves the array equal to `Sweep` of its old contents. |
| `Images.StateCode` | boot/images.c:128-143 | Every state maps to one of `- * + ! ^ # ?`. The code is `?` exactly for a state outside the named ones. |
| `Images.StateCodeInjective` | boot/images.c:128-143 | Distinct named states get distinct characters. |
| `Images.BufferList.DumpStats` | boot/images.c:118-146 | The report is the header followed by exactly one record per tag 1 to `IMG_LAST_TAG`, in increasing order. Each record holds the tag, the entry's `dest`, its size and its state code. The method has no frame, so the table is not changed. |
| `Images.FreshReport` | boot/images.c:43-71 | On a freshly initialised table, the report gives every tag 1 to `IMG_LAST_TAG` the code `-`, the LAZY firmware included. |

## Left out

- `unpack_buffer` is not part of this model. It is a parameter from (address, entry) to (new status block, returned state). As a result, it can change only the target entry's status block, and it cannot write memory bytes.
- `crc32` is not part of this model. It is a parameter, a deterministic function of (address, length).
- The bytes at physical addresses and the `void *` / `addr_t` casts are not modelled. Addresses are opaque naturals.
- Console output from `printf` is not modelled: the header text, `%04d %08x %08x %c` formatting and truncation to 32 bits. The report is a sequence of records.
- The concrete values of `IMG_*`, `B_STAT_*`, `B_ATTR_*` and `IMG_ATTR_*` are not modelled, since `images.h` and `buffers.h` are not part of this model. States and attributes are enumerations, and attribute bitmasks are sets of flags. `IMG_LAST_TAG` is a parameter, and each kind's tag number comes from a parameter mapping that must be injective and within bounds.
- Integer widths are not modelled. The tag is `uint8_t` and sizes are 32-bit in C; here they are unbounded naturals. The tag guard compares the same values either way.
- The value of `B_STAT_NONE` is not modelled: the zero-initialised status `Blank` is taken to be in state NONE, which assumes `B_STAT_NONE` is 0. `buffers.h` is not part of this model, and `FreshReport` rests on this assumption.
- The `rest` and `reserved` fields of `struct buffer_handle` are not modelled, because this file never reads them.
- The empty CREATED branch of the sweep is not modelled, because it does nothing.
- The in-place write of `image_find` into the caller's `struct memory_image` is not modelled. The view is returned as a value, and NULL leaves the caller's struct alone.
