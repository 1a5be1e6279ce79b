# Ferric kernel: heap, text screen, fonts, keyboard and locks

A model in Dafny of the parts of the Ferric kernel whose correctness rests on state kept over many calls, with proofs of
what they promise. To verify everything: `dafny verify dfyconfig.toml`.

| Part | Files | Main results |
|---|---|---|
| Kernel heap | `HeapShape`, `HeapCells`, `HeapRuns`, `Heap` | Every legal history of allocations and frees keeps the region tiled, the doubly linked list exact, no two free blocks adjacent and all bytes accounted for; allocation is sound and complete first fit and takes no more than it needs; freeing what was just allocated restores the free extents; freeing everything heals the heap; owners can write any byte of their payloads |
| Heap under the spin lock | `LockedHeap` | In every interleaving of any number of threads, with owner writes falling between single stores of another thread's call and payloads passing between threads: one guard holder, a whole heap whenever the lock is free, disjoint payloads that only their owners change |
| Set-once cell | `OnceCell` | In every interleaving: one success, one write, losers get their value back, readers only see the winner's value, `wait` comes back with it and never without, readiness is never taken back |
| Text grid and terminal | `TextGrid`, `Terminal` | The grid is a window on a terminal of unbounded height, and splitting a text over several writes is invisible, each under an exact condition on the tabs |
| Edited line | `LineEditor`, `EditLine`, `EditHistory` | The grid shows the line in the editor whatever way it was typed; for histories that reach the end of the grid, exactly when it still does |
| Console drawing, shell | `Console`, `Shell`, `Session` | From start-up on and through whole sessions of keys, commands and prompts, partial repaints, scrolled repaints and window repairs leave the same pixels as a full render; the screen is the transcript of the prompts, lines and outputs, typed on an unbounded terminal; every pixel of a shown cell reads back, channel by channel, as the font's bitmap and the cell's colours say |
| Framebuffer | `Bits`, `BitFields`, `FrameBuffer`, `Surface` | The byte surface is a two-dimensional map of pixel words; exactly which accepted layouts keep colour channels apart and readable; the boot-time bars partition the width and their self test succeeds exactly on surfaces of at least 7 by 1 pixels |
| Fonts | `Utf8`, `Font`, `Psf`, `FontFile` | Parsing inverts building a font file, down to every pixel; the hand-written unicode table scanners agree with a list of records (PSF1 always, PSF2 under an exact condition); UTF-8 decoding inverts encoding |
| Keyboard | `Keyboard` | Decoding inverts an encoder of key strokes, exactly when no stroke is one of two colliding breaks, and every key of the layout comes out as printed on it |

## How the heap is modelled

Memory is a map from addresses to words, because every header, link and padding slot is an 8-byte word at an address that
is a multiple of 8; a byte is a part of its word (`ByteAt`). `HeapShape.Shape` says what those words mean: which blocks
tile the region, which are free, which hold a payload, and in what order the list has the free ones. `HeapCells.Rep`
connects the two. The methods of `KernelHeap.Heap` load and store only words, walk the list through the words and keep a
ghost log of their stores; their contracts say that the shape moves by `Alloc` or `Release` and that the stores are exactly
the listed ones. `Heap.Read` may be called only on a word that no owner may write in the shape at the start of the call,
so verifying `Alloc`, `Dealloc` and `FreeBytes` proves that every load avoids the payloads.

`LockedHeap` takes those store lists as the atomic steps of a thread that holds the lock. They are computed from the state
at the start of the call, which is sound because the loads of a call read nothing that other threads may write meanwhile
(the precondition of `Heap.Read`) and every other word still is what the call by itself has made of it (`LoadsSeeOwnRun`).

## Where the code falls short of its promise

Each of these is proved, with an exact condition where the promise is a property of all inputs.

* `init` rounds an unaligned base up before it adds the size, so the heap can end up to 7 bytes past the region it was
  given (`InitStaysInside`, `InitCanOverrun`). A base of null or among the last seven addresses is accepted and leaves a
  heap whose list is empty (`Init`, `BaseUsable`).
* `align_up` wraps for values in the last `align - 1` bytes of the address space. A block that high passes the fit test
  with a null payload address when the size alone does not reach past its end, so the walk finds the first fit exactly when
  it passes no such block (`AlignUpExact`, `AlignmentCanWrap`, `MachineFirstExactly`).
* A tab whose next stop is not inside the row parks the cursor right of the last column. The grid then still is a window on
  the terminal exactly when the stop is the end of the row itself and the text ends there or goes on with a newline or a
  carriage return (`GridIsWindowExactly`); a cursor that is saved and restored in between moves
  (`SplittingInvisibleExactly`).
* When an edited line reaches the end of the grid, the grid scrolls, and `set_edit_line` counts the drawn cells against the
  origin from before the scroll. From then on the grid shows the line exactly when it is blank in the colours of the scroll
  and the line has nothing to show: only spaces, and, in a grid of one row, characters typed into the last column of a later
  page, which scroll away at once (`HistoryIndependentExactly`). With anything on the screen before the edit, such as a
  prompt, or colours of its own, that is never (`LitScreenExactly`, `ScrollLeavesStale`). The pixels still agree with the
  cells.
* A channel of 64 bits has an empty mask in a build without overflow checks, because the shift by 64 wraps to a shift by 0;
  the layout is accepted although every other channel lies inside it (`AcceptedApartExactly`, `OverlapAccepted`), and the
  channel is always written as zero. Channels of 57 bits and more overflow 64-bit arithmetic when a colour is scaled, and
  such layouts are accepted too (`ScalingExactly`, `WideAccepted`, `ChannelsExactly`). With overflow checks the code panics
  instead.
* The PSF2 scanner takes the sequence marker 0xFE for the character `~` and matches inside sequences, against the
  comment on its PSF1 counterpart (`LookupV2Exactly`, `TildeGoesAstray`).
* The break codes of make codes 0x60 and 0x61 are the two prefix bytes (`DecodingExactly`).
* The colour bars cannot be drawn on a surface narrower than 7 pixels (`DrawColorBars`).
* The console's buffer has 32768 cells, and `set_geometry` does not look at it. The first write panics exactly when the
  whole glyphs that fit the surface are more than that (`Boot`), as on a 3840 by 2160 surface with 8 by 16 glyphs
  (`BootOnLargeSurface`).

## Model

| member | source | states |
|---|---|---|
| Bits.AlignUpExact | crates/ferric-unsafe-core/src/heap.rs:34-36 | In 64-bit arithmetic the mask trick rounds up to the alignment exactly when the value is at most 2^64 - align; otherwise the result is below the value |
| KernelHeap.Heap.Init | crates/ferric-unsafe-core/src/heap.rs:57-81 | For every base and size: succeeds exactly when the rounded region does not overflow and has 48 bytes; the heap is then one free block, or, when the base rounds to null, an empty list; a refusal changes nothing |
| KernelHeap.BaseUsable | crates/ferric-unsafe-core/src/heap.rs:58 | A base rounds to a usable start exactly when it is neither null nor among the last seven addresses |
| KernelHeap.InitStaysInside | crates/ferric-unsafe-core/src/heap.rs:58-63 | The installed block stays inside the given region exactly when the size has as many bytes beyond a multiple of 8 as the base lacks |
| KernelHeap.InitCanOverrun | crates/ferric-unsafe-core/src/heap.rs:57-81 | `init` of 48 bytes at address 1 succeeds, and the heap ends at 56 instead of 49 |
| KernelHeap.AlignmentCanWrap | crates/ferric-unsafe-core/src/heap.rs:100 | Eight bytes below the top of the address space, rounding to a page wraps to null |
| HeapShape.MachineFirstExactly | crates/ferric-unsafe-core/src/heap.rs:90-108 | In 64-bit arithmetic the walk stops at the first block with room exactly when no block before it wraps to null and is large enough for the size alone |
| KernelHeap.Heap.Alloc | crates/ferric-unsafe-core/src/heap.rs:86-158 | Unless a block on the way wraps to null: the walk ends, returns the first fit or null, moves the shape by the first-fit allocation, which takes little more than asked for, or by nothing, and changes no word outside the blocks that were free |
| KernelHeap.Heap.Dealloc | crates/ferric-unsafe-core/src/heap.rs:162-231 | The padding slot leads back to the header that the allocation used; the shape moves by the two-sided release; null and pointers outside the region change nothing; no word outside the blocks that are free afterwards changes |
| KernelHeap.Heap.FreeBytes | crates/ferric-unsafe-core/src/heap.rs:238-248 | The walk returns the sum of the sizes of all free blocks |
| KernelHeap.Heap.OwnerWriteByte | crates/ferric-unsafe-core/src/heap.rs:148-154 | An owner's write to a byte of a live payload changes that byte of memory alone and leaves the heap well formed with the same shape |
| KernelHeap.Perform | crates/ferric-unsafe-core/src/heap.rs:86-231 | One call moves the meaning of the heap by one step, and its stores are those that a thread holding the lock issues |
| KernelHeap.Replay | crates/ferric-unsafe-core/src/heap.rs:559-604 | Replaying any legal history on memory gives what the abstract history gives |
| HeapShape.CarveInv | crates/ferric-unsafe-core/src/heap.rs:108-147 | Carving a payload out of a free block keeps tiling, alignment, the least size of 40 bytes, the exact free list and that no two free blocks touch |
| HeapShape.ReleaseInv | crates/ferric-unsafe-core/src/heap.rs:198-230 | Releasing a block keeps the same invariant |
| HeapShape.ReleaseBlocks | crates/ferric-unsafe-core/src/heap.rs:198-230 | After a release one free block covers the freed block and its free neighbours on both sides, and every other block is as before |
| HeapShape.AllocFirstFit | crates/ferric-unsafe-core/src/heap.rs:86-158 | Null exactly when no free block has room at any aligned position; otherwise the lowest aligned position in the first listed block with room |
| HeapRuns.AllocTakesLittle | crates/ferric-unsafe-core/src/heap.rs:108-147 | With the payload end rounded up to 8: when at least 48 bytes remain behind it, the block ends there and the rest is one free block in its place in the list; otherwise the block keeps its end. Every other block is as before, and the free bytes fall by exactly the block from its start, less than padding and request and 56 |
| HeapRuns.ReleaseOrder | crates/ferric-unsafe-core/src/heap.rs:198-230 | A freed block heads the list unless a free block ends at it, which then keeps its place; a swallowed right neighbour leaves the list |
| HeapCells.CarveRep | crates/ferric-unsafe-core/src/heap.rs:108-154 | The stores of an allocation turn words that represent a shape into words that represent the carved shape, changing only words of free blocks |
| HeapCells.ReleaseRep | crates/ferric-unsafe-core/src/heap.rs:198-230 | The stores of a release turn words that represent a shape into words that represent the released shape |
| HeapCells.OwnerWriteRep | crates/ferric-unsafe-core/src/heap.rs:148-154 | Whatever an owner writes, the words keep representing the same shape |
| HeapRuns.AllocThenDealloc | crates/ferric-unsafe-core/src/heap.rs:114-149 | An allocation freed at once restores all blocks, with the block at the head of the list, and the same request then gets the same pointer |
| HeapRuns.CoveredOnce | crates/ferric-unsafe-core/src/heap.rs:557-599 | Every byte of the region belongs to exactly one block |
| HeapRuns.BytesConserved | crates/ferric-unsafe-core/src/heap.rs:542-604 | The bytes on the free list and the bytes of live blocks add up to the region |
| HeapRuns.HistorySafe | crates/ferric-unsafe-core/src/heap.rs:542-604 | After any legal history on a fresh region the invariant holds and no byte was gained or lost |
| HeapRuns.FreeingAllHeals | crates/ferric-unsafe-core/src/heap.rs:600-604 | Freeing all live payloads in any order leaves one free block over the whole region |
| LockedHeap.NextSafe | crates/ferric-unsafe-core/src/heap.rs:256-264 | Every atomic step of every thread keeps the invariant of the shared heap: owner writes included, and with payloads passed from thread to thread and freed by whoever has them |
| LockedHeap.TraceSafe | crates/ferric-unsafe-core/src/heap.rs:256-264 | That invariant holds in every state of every interleaving of any number of threads, whichever of them frees a payload |
| LockedHeap.MutualExclusion | crates/ferric-unsafe-core/src/sync.rs:30-76 | At most one thread holds the guard, and only while the lock word is set |
| LockedHeap.WholeWhenUnlocked | crates/ferric-unsafe-core/src/heap.rs:256-264 | In every unlocked state memory represents a well-formed heap, and every call starts from one |
| LockedHeap.PayloadsDisjoint | crates/ferric-unsafe-core/src/heap.rs:256-264 | Payloads handed to threads never overlap |
| LockedHeap.PayloadIntact | crates/ferric-unsafe-core/src/heap.rs:256-264 | No step but a write of its owner changes a word of a live payload |
| LockedHeap.LoadsSeeOwnRun | crates/ferric-unsafe-core/src/heap.rs:86-231 | In the middle of a call the root and every word that no owner may write hold what the call's own stores made of them, so each load sees what it would see running alone |
| LockedHeap.UnlockAnswers | crates/ferric-unsafe-core/src/heap.rs:256-264 | When the lock is released the caller of an allocation owns its new payload, or got null and nothing changed; after a release the payload is gone; nobody else gained or lost any |
| LockedHeap.OutsideMay | crates/ferric-unsafe-core/src/heap.rs:256-264 | A thread outside a call may at any time call, write to what it owns or pass it on |
| LockedHeap.NobodyStuck | crates/ferric-unsafe-core/src/sync.rs:30-40 | A guard holder always has a next step, and a free lock can be taken by any waiting thread |
| OnceCell.TraceGood | crates/ferric-unsafe-core/src/sync.rs:102-148 | In every state of every interleaving of `set`, `get` and `wait` the invariant of the cell and of everything returned so far holds |
| OnceCell.SetOnce | crates/ferric-unsafe-core/src/sync.rs:102-124 | At most one write and one success; a losing `set` returns its own value; readers get the winner's; once any call has shown the cell ready `get` never finds it empty |
| OnceCell.ReadersFollowWinner | crates/ferric-unsafe-core/src/sync.rs:127-148 | Everything read or refused was preceded by the success that stored the value |
| OnceCell.ReadsAreInitialised | crates/ferric-unsafe-core/src/sync.rs:127-136 | The slot is never read before it is written, and has one writer at a time, before which it is empty |
| OnceCell.CallsBegin | crates/ferric-unsafe-core/src/sync.rs:102-148 | A call begins as what it is: `wait` as a waiting read, `get` as one that does not wait, `set` with its value |
| OnceCell.WaitYields | crates/ferric-unsafe-core/src/sync.rs:140-148 | When `wait` comes back it adds exactly the event of a value, which an earlier success stored and the slot holds |
| OnceCell.GetAnswers | crates/ferric-unsafe-core/src/sync.rs:127-136 | `get` comes back with the value of an earlier success if the cell is ready, else with none |
| OnceCell.GetNoneExactly | crates/ferric-unsafe-core/src/sync.rs:127-136 | The step in which `get` looks at the cell returns none exactly when it is not ready |
| OnceCell.SetAnswers | crates/ferric-unsafe-core/src/sync.rs:102-124 | `set` comes back as the one success with its value in the slot, or, once the cell is ready, with its own value and the slot unchanged |
| OnceCell.NobodyStuck | crates/ferric-unsafe-core/src/sync.rs:102-148 | A thread in a call can always go on, but for a `set` behind a writer and a `wait` on a cell that is not ready |
| Scancodes.ScancodeDecoder.Push | crates/ferric-safe-core/src/scancodes.rs:215-252 | One byte moves the prefix, pause and modifier state and yields an event as the byte-level specification says |
| Scancodes.Feed | crates/ferric-safe-core/src/scancodes.rs:259-261 | Pushing a stream byte by byte gives the events and the state of the stream |
| Scancodes.DecodingInvertsEncoding | crates/ferric-safe-core/src/scancodes.rs:118-252 | Every stream of strokes and Pauses decodes to one event per stroke, with the layout's key under the last shift events and the parity of caps presses |
| Scancodes.DecodingExactly | crates/ferric-safe-core/src/scancodes.rs:215-229 | A stream decodes to the meaning of its strokes exactly when none is a break of 0x60 or 0x61 |
| Scancodes.StreamKeys | crates/ferric-safe-core/src/scancodes.rs:118-252 | Each event of a stream without colliding breaks is a press or release of the key with its stroke's code: letters by the three rows, capital exactly under one of shift held and caps odd; digits and punctuation by pairs that follow shift alone; control keys by their own codes |
| LineEditing.LineEditor.Handle | crates/ferric-safe-core/src/line_editor.rs:39-61 | The array and length hold the line of the specification, and the reported action fits it |
| LineEditing.EraseUndoes | crates/ferric-safe-core/src/line_editor.rs:39-61 | A printable character goes to the end of a line with room for it, and erasing it restores the line |
| LineEditing.EraseKeeps | crates/ferric-safe-core/src/line_editor.rs:39-61 | Erasing takes the last character and keeps the rest |
| LineEditing.OthersKeep | crates/ferric-safe-core/src/line_editor.rs:39-61 | All other events leave the line alone, and only Enter submits it |
| Utf8.DecodeUtf8 | crates/ferric-safe-core/src/font.rs:243-264 | The loop computes the specified code point and width, or none when cut short |
| Utf8.DecodeEncode | crates/ferric-safe-core/src/font.rs:243-264 | Decoding inverts the encoding of section 3 of RFC 3629 for every scalar value, whatever follows |
| Fonts.UnicodeLookupV1 | crates/ferric-safe-core/src/font.rs:190-218 | The two nested loops end and agree with a recursive scan |
| Fonts.LookupV1Right | crates/ferric-safe-core/src/font.rs:190-218 | On a table of records the scan finds the least glyph that lists the character directly, or none, and never matches inside a sequence |
| Fonts.UnicodeLookupV2 | crates/ferric-safe-core/src/font.rs:220-239 | The loop ends and agrees with a recursive scan |
| Fonts.LookupV2Sees | crates/ferric-safe-core/src/font.rs:220-239 | On any table of records the scan finds the least glyph that lists the character, has it in a sequence, or, for `~`, has a sequence |
| Fonts.LookupV2Exactly | crates/ferric-safe-core/src/font.rs:220-239 | The scan gives the least glyph that lists the character directly exactly when no earlier record carries it in a sequence |
| Fonts.LookupV2Right | crates/ferric-safe-core/src/font.rs:220-239 | On tables without sequences the scan is right for every character |
| Fonts.TildeGoesAstray | crates/ferric-safe-core/src/font.rs:226-232 | A concrete table on which `~` gets the wrong glyph |
| Psf.ParsedFontsFit | crates/ferric-safe-core/src/font.rs:49-129 | A parsed font's bitmaps lie inside the data; every pixel can be read for PSF1, and for PSF2 when each scan line has whole bytes |
| FontFiles.Psf2RoundTrip | crates/ferric-safe-core/src/font.rs:91-129 | Parsing the file built from any flags, dimensions, longer header, bitmaps and table gives the dimensions and the table back, and every pixel of every glyph reads as it was packed |
| FontFiles.Psf1RoundTrip | crates/ferric-safe-core/src/font.rs:62-89 | The same for PSF1 files, with 256 or 512 glyphs of 8 pixels a row |
| FontFiles.ParsesExactly | crates/ferric-safe-core/src/font.rs:49-129 | Exactly the files with magic, header, dimensions and room for the bitmaps parse; exactly those cut off before the end of their header are too short |
| Psf.ResolvedByRecords | crates/ferric-safe-core/src/font.rs:173-218 | With a PSF1 table of one record per glyph, a character gets the least glyph that lists it, else the glyph at its code point, else none |
| Psf.ResolvedByRecordsV2 | crates/ferric-safe-core/src/font.rs:173-239 | With a PSF2 table of records, a character gets the least glyph that mentions it at all, which is the one that lists it when no earlier record carries it in a sequence; else the glyph at its code point, else none |
| Psf.DirectWithoutTable | crates/ferric-safe-core/src/font.rs:173-181 | Without a table a character has the glyph at its code point, and one exactly below the number of glyphs |
| Psf.CoversExactly | crates/ferric-safe-core/src/font.rs:160-169 | No pixel read runs past its bitmap exactly when the last one does not |
| Psf.GlyphPixelUnpacks | crates/ferric-safe-core/src/font.rs:160-169 | Reading a pixel inverts packing the bitmap, most significant bit first |
| Pixels.AcceptsExactly | crates/ferric-unsafe-core/src/framebuffer.rs:120-148 | A layout passes the mask test exactly when its channels lie pairwise apart or one of the two takes the whole 64-bit word, next to the checks on depth, rows and size |
| Pixels.AcceptedApartExactly | crates/ferric-unsafe-core/src/framebuffer.rs:42-44 | The channels of an accepted layout lie apart exactly when each is below 64 bits |
| Pixels.OverlapAccepted | crates/ferric-unsafe-core/src/framebuffer.rs:42-44 | A layout with a 64-bit red channel over green and blue is accepted |
| Pixels.WideAccepted | crates/ferric-unsafe-core/src/framebuffer.rs:120-148 | Layouts with a channel of 57 to 62 bits are accepted |
| Pixels.BgrxAccepted | crates/ferric-unsafe-core/src/framebuffer.rs:387-430 | The usual 32-bit layout is accepted at every size whose rows fit the pitch |
| Pixels.ScalingExactly | crates/ferric-unsafe-core/src/framebuffer.rs:192-195 | Of the sizes a layout can have, scaling is exact for every value exactly up to 56 bits |
| Pixels.ChannelsExactly | crates/ferric-unsafe-core/src/framebuffer.rs:192-203 | In an accepted layout every colour, scaled without loss, can be read back from its pixel word exactly when no channel is over 56 bits |
| Surface.OffsetsApart | crates/ferric-unsafe-core/src/framebuffer.rs:139-148 | Distinct pixels own disjoint byte ranges |
| Surface.FrameBuffer.WriteUnchecked | crates/ferric-unsafe-core/src/framebuffer.rs:205-248 | The value's bytes stand lowest first from byte y * pitch + x * bpp / 8 on; one entry of the pixel map and no padding byte changes, for every pixel width |
| Surface.FrameBuffer.FillRect | crates/ferric-unsafe-core/src/framebuffer.rs:272-294 | Exactly the pixels of a rectangle inside the surface take the colour; any other rectangle is refused without a change |
| Surface.BarsPartition | crates/ferric-unsafe-core/src/framebuffer.rs:338-343 | The seven bars tile the width in order and are all non-empty exactly from seven pixels on |
| Surface.ColumnInOneBar | crates/ferric-unsafe-core/src/framebuffer.rs:338-343 | Every column belongs to exactly one bar |
| Surface.BarsEven | crates/ferric-unsafe-core/src/framebuffer.rs:338-343 | The bars are equally wide but for one pixel |
| Surface.SamplesSpread | crates/ferric-unsafe-core/src/framebuffer.rs:361 | The self test samples at a quarter, a half and three quarters of the height |
| Surface.DrawColorBars | crates/ferric-unsafe-core/src/framebuffer.rs:347-356 | Drawing succeeds exactly on surfaces of at least 7 by 1 pixels, and then every pixel has its bar's colour |
| Surface.RunColorBarSelfTest | crates/ferric-unsafe-core/src/framebuffer.rs:375-377 | Drawing and reading back succeeds exactly on surfaces of at least 7 by 1 pixels |
| Grid.Open | crates/ferric-safe-core/src/grid.rs:129-147 | A grid is refused exactly when it has no cells or more than the buffer |
| Grid.WritableExactly | crates/ferric-safe-core/src/grid.rs:233-238 | A character misses the buffer exactly when it is printed from a cursor parked in the bottom row of a grid that fills the buffer |
| Grid.TextGrid.Put | crates/ferric-safe-core/src/grid.rs:220-240 | One character moves cells, cursor and scroll count as the screen specification says |
| Grid.TabStopLeast | crates/ferric-safe-core/src/grid.rs:228-231 | A tab goes to the least multiple of 8 to the right of the column |
| Terminal.GridIsWindowExactly | crates/ferric-safe-core/src/grid.rs:220-263 | After a clear in any colours, through a whole text with colours per character the cells and the cursor of the grid are those of an unbounded terminal from row `scroll_count` on, exactly when no tab has its stop past the end of the row and only a newline or a carriage return follows one that stops right there |
| Terminal.SplittingInvisibleExactly | crates/ferric-unsafe-core/src/console.rs:97-110 | No split of any prefix of a text shows in cells or cursor exactly when every tab lands inside the row |
| Terminal.ChunkingInvisible | crates/ferric-unsafe-core/src/console.rs:97-110 | Any chunking of a text whose tabs land gives what one write gives |
| EditLines.EditedCellsExactly | crates/ferric-unsafe-core/src/console.rs:173 | The cells counted are the cells of the line exactly when the line ends before the grid does |
| EditLines.HistoryIndependent | crates/ferric-unsafe-core/src/console.rs:124-175 | After any history of keys that never fills the grid, the cells are the snapshot at the start of the edit overlaid with the line in the editor |
| EditHistories.HistoryIndependentExactly | crates/ferric-unsafe-core/src/console.rs:124-179 | Through a whole history the grid's cells are the snapshot overlaid with the line, exactly when at every point the end of the grid does not matter yet, or the screen was dark and the line has nothing to show |
| EditHistories.LitScreenExactly | crates/ferric-unsafe-core/src/console.rs:124-179 | With anything on the screen or colours of its own, exactly when no line of the history reaches the end of the grid |
| EditLines.ScrollLeavesStale | crates/ferric-unsafe-core/src/console.rs:173-179 | A concrete edit that scrolls and then erases leaves a stale character |
| Console.Console.PutText | crates/ferric-unsafe-core/src/console.rs:97-111 | Panics exactly when the grid does not fit the buffer; otherwise the rebuilt grid leaves the cells and cursor of the chunked-write specification |
| Console.Console.BlitCell | crates/ferric-unsafe-core/src/console.rs:270-286 | Every pixel of the cell's rectangle reads back, channel by channel, as the foreground where the glyph that the font's records give has a bit set and as the background elsewhere; no other pixel changes |
| Console.Console.Render | crates/ferric-unsafe-core/src/console.rs:231-241 | Every cell of the grid is shown, and its pixels read back in the same way |
| Console.Console.ShownIsDrawn | crates/ferric-unsafe-core/src/console.rs:270-286 | Whenever the surface shows the console, every pixel of every cell reads back in the same way |
| Console.Console.RenderRange | crates/ferric-unsafe-core/src/console.rs:246-268 | Every cell in the clamped range is shown and every cell that was right stays right |
| Console.Console.SetEditLine | crates/ferric-unsafe-core/src/console.rs:134-186 | For any characters the console moves as specified, and if the surface showed all cells before, every cell that was blitted or left alone is shown afterwards, on the dirty-range path and on the scrolled path; for a line that only moves forward, as every typed line does, that is all cells |
| Console.Console.RepaintRect | crates/ferric-unsafe-core/src/console.rs:290-312 | If all grid pixels outside the rectangle were right, all are right afterwards; off the grid, exactly the rectangle's pixels take the background, or none when it leaves the surface |
| Shell.Boot | crates/ferric-unsafe-core/src/console.rs:359-366 | For every surface and glyph size the first write finds a grid exactly when the whole glyphs that fit the surface are no more than the buffer's cells; then the first prompt stands below the greeting and the surface shows every cell |
| Shell.BootOnLargeSurface | crates/ferric-unsafe-core/src/console.rs:83-102 | On a 3840 by 2160 surface with 8 by 16 glyphs it does not |
| Shell.StartUp | crates/ferric-unsafe-core/src/lib.rs:164-182 | From the loader's surface to the first prompt, which is reached exactly when the layout is accepted, the bars fit and the grid fits the buffer |
| Shell.HandleKeys | crates/ferric-unsafe-core/src/console.rs:389-419 | After any run of key events, Enter and the commands' output included, the surface shows every cell, and editor and console hold what the session says |
| Shell.EnterOnPaper | crates/ferric-unsafe-core/src/console.rs:404-414 | From a screen that is a window on an unbounded terminal, Enter leaves the window on that terminal with a newline, the command's texts in order and the prompt typed on; after a command that clears, on a fresh one with what it printed since and the prompt |
| Shell.Submit | crates/ferric-unsafe-core/src/console.rs:404-414 | The method that runs on Enter leaves that screen for every terminal that the one before was a window on, and the surface shows every cell |
| Sessions.SessionShowsLines | crates/ferric-unsafe-core/src/console.rs:381-419 | Through a whole session in which no line reaches the end of the grid, every prompt has blank cells behind it and the cells are the last prompt's overlaid with the line in the editor |
| Sessions.StartReady | crates/ferric-unsafe-core/src/console.rs:359-385 | The first prompt after start-up is such a prompt |
| Sessions.SessionIsTranscript | crates/ferric-unsafe-core/src/console.rs:359-419 | Through a whole session in which no line reaches the end of the grid, the screen is the window on a terminal on which every prompt, entered line and output was typed in turn since the last clear, with the current line behind the last prompt |
| Sessions.StartSession | crates/ferric-unsafe-core/src/console.rs:359-385 | From the loader's surface on: the first screen is the greeting and the prompt on a fresh terminal, and the surface shows it |
| Sessions.RunSession | crates/ferric-unsafe-core/src/console.rs:389-419 | A run of keys leaves the editor with what was typed since the last Enter, the console with the transcript, and the surface showing it |

## Left out

- HeapRuns.HistorySafe: histories are over regions that end at least `align` bytes below 2^64 for every alignment asked for, where nothing wraps; `Alloc` itself is stated up to the exact condition.
- KernelHeap.Heap.Alloc: what the code does to memory once it takes a block at null is not described.
- KernelHeap.Heap.Dealloc: requires a live payload, null or an address outside the region; double frees and foreign pointers inside the region break the allocator's contract.
- LockedHeap.NextSafe: the loads of a call are not steps of their own. Steps are sequentially consistent; weaker memory orderings, `try_lock` and a thread that locks twice are not modelled.
- OnceCell.TraceGood: the load that finds the cell empty and the return of none are one step, as are the store of READY and the return of success. Dropping the cell and weaker orderings are not modelled.
- Grid.TextGrid.Put: requires a cell under the cursor, where the code panics otherwise (`WritableExactly` says when); coordinates and the scroll count are unbounded rather than 32 bits wide.
- Surface.VerifyColorBars: requires a height of at least 1, as `height - 1` does, and computes `height * 3` without 32-bit overflow.
- Surface.FrameBuffer.WriteUnchecked: the surface is an array of pitch times height bytes; the pointer, the loader's memory-model field and its range checks are not part of this model.
- Console.Console.SetEditLine: the surface is a parameter, so the case of no captured framebuffer is not modelled; a character that would miss the buffer makes the code panic and is excluded.
- Console.Console.BlitCell: the font is parsed once and covers its pixels; a PSF2 header whose glyphs are shorter than their pixels makes the code panic.
- Sessions.SessionShowsLines: this and the transcript (`SessionIsTranscript`) are for commands that print neither tabs nor carriage returns, and colours are the defaults, which only a panic changes.
- Shell.StartUp: the heap's installation and the banners on the serial line are left out.
- Shell.HandleKeys: what a command prints is a parameter without tabs; commands that open windows, the panic command, panic screens and the serial mirror are left out.
- Rows of the grid written as a whole and the in-memory pixel surface beside the grid: nothing that spans more than one body.
- Choosing the heap's region from the memory map, and the static arena: constants and a search for the largest entry.
- Interrupts, ports, timers, address translation, boot structures, windows, the parsing of shell commands and the build scripts: hardware effects, libraries that are not part of this model, or one-branch functions.
- The copy of the heap in the user-interface crate: the same algorithm again.
