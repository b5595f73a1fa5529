# Nulix kernel: verified models

Nulix is a small i386 kernel written from scratch. This project models the parts of it that
compute, in Dafny, and proves what they promise. Machine words are 32 bits, as on the i686 target.

- **Physical pages** (`Align`, `Bits`, `Frames`, `BuddyTree`, `KpmBytes`, `KpmLayout`, `KpmRanges`,
  `KpmRepair`, `KpmBoot`, `Kpm`, `Blocks`, `KpmRun`, `AllocLoop`): the buddy allocator. Class
  `Buddy` holds one array of bytes with the "enabled" bitmap and the eleven order bitmaps laid out
  in it, and edits bits in place through the macros of the header. The ghost rows `en` and `rows`
  are the same bitmaps as bits; `Free()` and `Enabled()` are the sets of frames they stand for.
  `Valid()` says that the orders form a tree, that padding bits stay set, and that only enabled
  frames are free. `KpmRun` lifts the method contracts to whole runs of allocations and releases;
  `AllocLoop` is the client loop of the `alloc` command.
- **Screen** (`Terminal`, `ScreenBuf`, `ScreenRun`, `Screens`): the 200-line circular screen buffer
  and the VGA memory it mirrors. `Term` is the terminal a buffer stands for: the lines it retains
  and the part on display. Class `ScreenBuf` keeps the source's pointers (as word offsets), its
  buffer array and the VGA array, and every method is proved against the function on `Term` of the
  same name.
- **Shell line** (`LineEditor`, `Tokenizer`): key handling at one prompt, with completion, on top of
  a screen buffer; and the in-place splitting of the command line.
- **Numbers and formats** (`Print`, `Strto`, `RoundTrip`, `Formats`, `Numerals`): the number printer,
  the format interpreter, the two parsers, what each format and numeral stands for, and the round
  trips between them.
- **Clock** (`Rtc`): day of the year and Unix timestamp.

`dafny verify dfyconfig.toml` checks the whole project.

## Where the code and its intent part

Each of these is proved, with the exact condition under which the code does what it is for.

- The memory map has 64-bit addresses and lengths, of which `kpm_init` keeps the low 32 bits. It
  enables exactly the frames of a region when that does no harm (`KpmBoot.EntryExact`), and of the
  whole map then, and only then if no entry makes up for the harm done to another
  (`KpmBoot.MapReported`, `KpmBoot.MapExact`). A region at 4 GiB makes low frames available that no
  region holds (`KpmBoot.AliasedRegion`).
- Rounding a request up to pages wraps for the last page of sizes, so `find_best_fit_order` answers
  order 0 for them (`KpmRanges.BestFitExact`), and `kpm_disable` then disables nothing.
- `kpm_enable` and `kpm_disable` clamp a range by subtracting its base, which keeps their indices in
  bounds exactly when the range starts inside memory and its end does not wrap
  (`KpmRanges.RangeOkExact`). `kpm_free` does not clamp, and the `free` command passes on what the
  user types: the chunks for which it keeps to its bitmaps are exactly given by
  `KpmRanges.ReleaseOkExact`.
- `sb_backspace` looks for the end of the line it moves back into. It finds it exactly when the line
  has no blank cell and at least one cell (`Terminal.ColumnExact`,
  `ScreenBuf.ScreenBuf.PutBackspace`); when the line is empty or begins with a blank, and only then,
  the unsigned column falls below zero and the cell written is outside the buffer
  (`Terminal.ColumnInside`). Two line breaks, or a tab and a line break, are enough
  (`ScreenRun.UnderflowReached`, `ScreenRun.BlankReached`).
- `sb_scroll_down` does not wrap the viewport pointer it computes. Distances measured from the
  unwrapped pointer stay right until a backspace moves the cursor across the start of the buffer;
  exactly then the erased cell stays on screen (`ScreenBuf.ScreenBuf.PutBackspace`). The case is
  reached by ordinary use (`ScreenRun.StrandReached`).
- `sb_scroll_down` compares with 25 lines where the window shows 24 lines above the cursor, so it
  leaves the cursor off screen exactly when it is 25 lines below the first one on display
  (`ScreenRun.ScrollDownShows`, `ScreenRun.ScrollDownMisses`).
- `snprintnum` writes past its limit exactly when the sign uses up the only byte left and padding
  follows (`Print.NumOutExact`, `Print.OverrunWitness`), and `vsnprintf` exactly when some `%d` meets
  its last byte so (`Print.LimitKept`, `Print.SpillWitness`).
- `%p` is skipped, and its argument not taken, when one or two bytes are left
  (`Print.PointerSkipped`). The output is the whole text cut at the limit exactly when no `%d` spills
  and no pointer is skipped, or what follows a skipped one happens to write the missing `0x`
  (`Print.OutIsPrefix`, `Print.OutExact`, `Print.PointerWitness`).
- A `0x` that no hexadecimal digit follows is no number to `strtol` and `strtoul`, where the C
  standard reads its zero: the end returned is the standard's exactly otherwise, the value always
  (`Strto.EndExact`, `Strto.BarePrefixWitness`).
- The `free` command reads back an address `%p` has printed exactly when it is below 2^31
  (`RoundTrip.PrintParsePointer`).
- The timestamp multiplies years by seconds in a signed `int`, which overflows from 2039
  (`Rtc.ProductFitsInt`); the model takes that product modulo 2^32, as the target does.

## Model

| member | source | states |
|---|---|---|
| Align.AlignMacros | include/kernel/kpm.h:22-25 | masking with the macros' bit patterns rounds down, up or past to a multiple of any power of two |
| KpmRanges.PageMacros | include/kernel/kpm.h:22-23 | rounding up to pages is a ceiling division up to 0xFFFFF000, and gives zero above |
| Bits.BitAfterWrite | include/kernel/kpm.h:36-43 | setting or clearing one bit of a byte leaves the other seven alone |
| Kpm.Buddy.MarkAllocated | include/kernel/kpm.h:36 | sets exactly one bit of one order bitmap; no other bitmap changes, though all share one memory block |
| Kpm.Buddy.MarkFree | include/kernel/kpm.h:37 | clears exactly one bit of one order bitmap |
| Kpm.Buddy.IsAllocated | include/kernel/kpm.h:38-39 | reads that bit |
| Kpm.Buddy.MarkEnabled | include/kernel/kpm.h:41 | sets exactly one bit of the enabled bitmap |
| Kpm.Buddy.MarkDisabled | include/kernel/kpm.h:42 | clears exactly one bit of the enabled bitmap |
| Kpm.Buddy.IsEnabled | include/kernel/kpm.h:43 | reads that bit |
| KpmLayout.NBytesMacro | include/kernel/kpm.h:34 | the byte count of a bitmap is the number of bits over eight, rounded up |
| KpmBoot.FramesBound | kernel/memory/kpm.c:38 | the frames are the whole 4 MiB blocks of the reported size, none more and none less, and never reach the last 4 MiB |
| KpmLayout.SizeOrders | kernel/memory/kpm.c:40-45 | every order bitmap gets the bytes its halved block count needs, and the sizes add up |
| KpmLayout.PlaceOrders | kernel/memory/kpm.c:49-51 | each bitmap starts right where the one before it ends |
| KpmLayout.LayoutTiles | kernel/memory/kpm.c:37-54 | every byte behind the structure belongs to exactly one bitmap |
| Kpm.Buddy.Init | kernel/memory/kpm.c:32-63 | after start-up the allocator manages the whole 4 MiB blocks of the reported size, and the free frames are the enabled ones: those of the available regions at their truncated addresses, minus frame 0, the kernel image and the allocator; and they are the frames wholly inside the regions reported when truncation does no harm |
| Kpm.Buddy.InitBitmaps | kernel/memory/kpm.c:38-54 | the layout is tiled and nothing is enabled or free |
| Kpm.Buddy.EnableAvailable | kernel/memory/kpm.c:56-59 | the entries before the terminator, and no others, are enabled, at their truncated addresses |
| KpmBoot.EntryExact | kernel/memory/kpm.c:56-59 | an entry makes available exactly the frames wholly inside its 64-bit region iff truncation does no harm |
| KpmBoot.MapReported | kernel/memory/kpm.c:56-59 | a map without such harm makes available what it reports |
| KpmBoot.MapExact | kernel/memory/kpm.c:56-59 | and only such a map, when no entry makes up for another |
| KpmBoot.AliasedRegion | kernel/memory/kpm.c:56-59 | a region at 4 GiB makes frame 5 available, which no region holds |
| Kpm.Buddy.DisableReserved | kernel/memory/kpm.c:60-62 | frame 0, the kernel image and the allocator become neither enabled nor free |
| KpmBoot.ReservedExact | kernel/memory/kpm.c:60-62 | a frame is reserved iff it is the first, or holds a byte of the kernel image or of the allocator behind it |
| KpmRanges.NextBlock | kernel/memory/kpm.c:75-88 | one step of the walk goes to the next block of the order without wrapping, and stops after the last block that meets the range |
| Kpm.Buddy.UpdateOrder | kernel/memory/kpm.c:72-89 | exactly the blocks of one order that meet the range are recomputed from the order below |
| BuddyTree.RepairOrder | kernel/memory/kpm.c:72-89 | recomputing only the blocks that meet the edited range makes the whole order agree with the order below |
| Kpm.Buddy.UpdateOrders | kernel/memory/kpm.c:112-113 | after an edit of order 0 inside a range, ten partial passes over that range restore the whole tree |
| BuddyTree.BitMeansTaken | kernel/memory/kpm.c:72-89 | at every order, the bit of a block is set iff some frame of the block is taken |
| BuddyTree.TreesDetermined | kernel/memory/kpm.c:72-89 | the free frames determine all eleven bitmaps |
| KpmRanges.RangeOkExact | kernel/memory/kpm.c:103-111 | the frame indices stay below nframes iff the range starts in memory and does not wrap |
| Kpm.Buddy.Enable | kernel/memory/kpm.c:98-114 | enables and frees exactly the frames wholly inside the range and memory, and keeps the invariant |
| Kpm.Buddy.Disable | kernel/memory/kpm.c:123-140 | disables exactly the frames the range touches (none when rounding wraps), and keeps the invariant |
| KpmRanges.FindBestFitOrder | kernel/memory/kpm.c:167-177 | the least order whose blocks cover the pages of the request, or the largest |
| KpmRanges.BestFitExact | kernel/memory/kpm.c:167-177 | that order is the least one covering the requested bytes iff the request does not wrap when rounded |
| Kpm.Buddy.BitmapFfu | kernel/memory/kpm.c:185-195 | the first clear bit of a bitmap, or -1 iff all bits are set |
| BuddyTree.FirstClearIsFirstFree | kernel/memory/kpm.c:185-195 | the first clear bit is the lowest free block, and never a padding bit |
| Kpm.Buddy.Alloc | kernel/memory/kpm.c:207-228 | hands out the lowest free block of the largest order, up to the best fit, that has one; fails iff no frame is free, changing nothing |
| BuddyTree.PickExists | kernel/memory/kpm.c:207-228 | such a block exists iff some frame is free |
| BuddyTree.PickUnique | kernel/memory/kpm.c:207-228 | and there is only one |
| Kpm.Buddy.Release | kernel/memory/kpm.c:230-246 | frees exactly the enabled frames the chunk touches, whatever its size, and keeps the invariant; nothing for a chunk that is not aligned |
| KpmRanges.ReleaseOkExact | kernel/memory/kpm.c:230-246 | every frame and block index used exists iff the chunk lies in memory, is empty, or wraps when rounded and does not start at zero |
| Kpm.Buddy.Determined | kernel/memory/kpm.c:207-246 | every bitmap byte is determined by the sets of enabled and free frames |
| KpmRun.AllocThenRelease | kernel/memory/kpm.c:207-246 | allocating and giving the chunk back restores every bitmap byte |
| KpmRun.StepSafe | kernel/memory/kpm.c:207-246 | one request keeps: live chunks are aligned, disjoint, enabled, and with the free frames partition the enabled ones |
| KpmRun.BuddyBlockAligned | kernel/memory/kpm.c:213-223 | a block handed out is a power of two of frames, at most 1024, and aligned to its size |
| KpmRun.RunSafe | kernel/memory/kpm.c:207-246 | so does every run; free plus live frames add up to the enabled ones, and giving everything back restores the start |
| KpmRun.NeverHandsOutReserved | kernel/memory/kpm.c:56-62 | in no run after start-up does a live chunk hold frame 0, a kernel frame or an allocator frame |
| KpmRun.Replay | kernel/memory/kpm.c:207-246 | replaying any list of requests on the allocator follows the run of the specification |
| AllocLoop.AllocLoop | kernel/nsh/builtins/alloc.c:31-46 | succeeds iff the free frames cover the size, however scattered; disjoint chunks, less than twice the pages needed; on failure every free frame is taken |
| AllocLoop.PagesExact | kernel/nsh/builtins/alloc.c:31-46 | the page count of that bound is the least that covers the size |
| AllocLoop.LastChunk | kernel/nsh/builtins/alloc.c:34-43 | the chunk that completes a request is less than twice what is still needed |
| ScreenBuf.AddLine | kernel/screenbuf.c:91-100 | the address n lines on, modulo the buffer, after finitely many turns |
| ScreenBuf.Distances | kernel/screenbuf.c:72-85 | pointer differences are distances along the ring, also from an unwrapped viewport |
| ScreenBuf.ScreenBuf.Init | kernel/screenbuf.c:105-115 | one empty line, all cells blank, not loaded |
| ScreenBuf.ScreenBuf.Memset | kernel/screenbuf.c:63-66 | fills exactly the given words |
| ScreenBuf.ScreenBuf.Sync | kernel/screenbuf.c:120-129 | the visible words become the 25 ring lines from the viewport on |
| ScreenBuf.ScreenBuf.Load | kernel/screenbuf.c:134-137 | loading shows the window |
| ScreenBuf.ScreenBuf.Unload | kernel/screenbuf.c:142-144 | unloading leaves the lines alone |
| ScreenBuf.ScreenBuf.SetColor | kernel/screenbuf.c:150-152 | only the colour of later cells changes |
| ScreenBuf.ScreenBuf.Scroll | kernel/screenbuf.c:182-198 | moves the view by n lines, no further than the oldest line or the last 25; the lines stay and the display is their window |
| ScreenBuf.ScreenBuf.ScrollTop | kernel/screenbuf.c:203-206 | the view goes to the oldest line, and the display with it |
| ScreenBuf.ScreenBuf.ScrollDown | kernel/screenbuf.c:211-216 | the view goes to the last 25 lines, if it was more than 25 above the cursor; says when the pointer falls below the buffer |
| Terminal.ScrollWellFormed | kernel/screenbuf.c:182-216 | scrolling keeps the view inside the retained lines, at most 175 from the oldest, and its distance to the cursor right |
| Terminal.ScrollLaw | kernel/screenbuf.c:182-198 | scrolling by n adds n to the view, stopping at the oldest line and at the cursor, and changes nothing else |
| Terminal.ScrollEnds | kernel/screenbuf.c:203-216 | scrolling to the ends goes to line 0, or to the last 25 lines if the cursor is more than 25 down |
| Terminal.DisplayRow | kernel/screenbuf.c:120-129 | each row of the display is one line, filled up with blanks |
| ScreenBuf.ScreenBuf.WriteWord | kernel/screenbuf.c:223-232 | writes one cell, and its mirror when it is on display |
| ScreenBuf.ScreenBuf.Crlf | kernel/screenbuf.c:240-254 | a new line, the oldest dropped when the ring is full, the view following; the mirror stays right although the new line is blanked without a sync |
| Terminal.CrlfWellFormed | kernel/screenbuf.c:240-254 | a line break keeps the pointer invariants |
| Terminal.CrlfDisplay | kernel/screenbuf.c:240-254 | a line break moves the display up by one line iff the cursor was on its last row, and otherwise leaves it alone unless its first line is dropped |
| Terminal.RecycleLine | kernel/screenbuf.c:242-250 | taking over the ring line of the oldest line changes no cell on display |
| ScreenBuf.ScreenBuf.PutBackspace | kernel/screenbuf.c:259-272 | blanks one cell, across line breaks; the buffer goes on standing for the terminal iff the line entered is solid, it stays valid iff besides the step does not strand the viewport pointer, and the display misses the cell exactly then |
| Terminal.BackspaceView | kernel/screenbuf.c:259-272 | a backspace moves the view only as far as the cursor needs |
| ScreenBuf.ScreenBuf.MoveBack | kernel/screenbuf.c:265-268 | the cursor goes to the first blank cell of the line before, or to its end |
| Terminal.ColumnExact | kernel/screenbuf.c:267-270 | that column, less one in 16 bits, is the last of the line iff the line is not empty and has no blank |
| Terminal.ColumnInside | kernel/screenbuf.c:267-271 | the cell written is inside the buffer iff the line is not empty and does not begin with a blank |
| ScreenRun.UnderflowReached | kernel/screenbuf.c:259-272 | two line breaks, or a tab and a line break, from a fresh buffer reach a backspace whose column falls below zero |
| ScreenRun.BlankReached | kernel/screenbuf.c:259-272 | a tab between two letters reaches one that leaves text behind |
| ScreenBuf.ScreenBuf.PutTab | kernel/screenbuf.c:278-287 | writes cells without a character, in the current colour, up to the next multiple of four, at least one |
| ScreenBuf.ScreenBuf.PutRegular | kernel/screenbuf.c:294-304 | writes one cell whose low byte is the character and whose high byte is the colour (all ones for a character below zero), and wraps at 80 columns |
| ScreenBuf.ScreenBuf.Putchar | kernel/screenbuf.c:310-329 | every character does to the lines what the terminal does, and an ordinary one leaves its two bytes at the cursor; buffer and display stay right iff it is not a backspace into a line that is not solid, or one that strands the viewport |
| ScreenBuf.ScreenBuf.Putstr | kernel/screenbuf.c:335-338 | so does every string |
| ScreenBuf.ScreenBuf.Clear | kernel/screenbuf.c:344-351 | back to one empty line, shown if loaded |
| Terminal.PutcharWellFormed | kernel/screenbuf.c:310-329 | a character keeps the pointer invariants iff it is not a backspace that strands the viewport |
| Terminal.GlyphBytes | kernel/screenbuf.c:297 | the low byte of a cell is the character, the high byte the colour, or all ones below zero |
| Screens.Screens.Next | kernel/nsh/builtins/utils.c:34-40 | the next screen takes over the display; no screen's lines change |
| Screens.Screens.Prev | kernel/nsh/builtins/utils.c:45-51 | the previous one does, undoing next |
| Screens.Screens.Putchar | kernel/screenbuf.c:310-329 | output to the current screen leaves the others, and what they stand for, alone; all stays in order under the same condition |
| ScreenRun.Play | kernel/screenbuf.c:120-351 | any run of characters, scrolling, clearing, loading and unloading is the run of the terminal, and is what VGA memory shows while loaded |
| ScreenRun.ReactKeeps | kernel/screenbuf.c:240-272 | after each event the retained lines are the end of an unbounded terminal's lines |
| ScreenRun.RunKeepsLast | kernel/screenbuf.c:240-337 | over every run without backspace, they are its last 200 lines |
| ScreenRun.RunKeepsEnd | kernel/screenbuf.c:240-337 | over every run with backspace, they are the end of its lines, as long as none is typed at the start of the oldest line while older ones are gone |
| ScreenRun.BootKeepsLast | kernel/screenbuf.c:105-115 | from a fresh buffer in particular |
| ScreenRun.InkedRuns | kernel/screenbuf.c:259-304 | over every run without zeros and default-coloured tabs no written cell is blank, and every backspace is handled iff none enters an empty line or strands the viewport |
| ScreenRun.TypeThenErase | kernel/screenbuf.c:259-304 | backspace undoes a typed character, across the line wrap |
| Terminal.TypingFollows | kernel/screenbuf.c:240-272 | while nothing is scrolled away, typing keeps the cursor on display and the viewport pointer inside the buffer |
| ScreenRun.ScrollDownShows | kernel/screenbuf.c:211-216 | after scrolling down the cursor is on display iff it was not exactly 25 lines below the view |
| ScreenRun.ScrollDownMisses | kernel/screenbuf.c:182-216 | scrolling up one line reaches that case |
| ScreenRun.StrandReached | kernel/screenbuf.c:211-272 | a run from a fresh buffer reaches the backspace that the display misses |
| LineEditor.TypeSpells | kernel/nsh/nsh.c:173-179 | typing a character keeps the screen spelling the text |
| LineEditor.EraseSpells | kernel/nsh/nsh.c:152-157 | so does erasing one, which never enters an empty line |
| LineEditor.SpellsOnScreen | kernel/nsh/nsh.c:140-180 | the cells from the prompt line to the cursor are the prompt's followed by the glyphs of the text, across wraps and dropped lines |
| LineEditor.CompletedFirst | kernel/nsh/nsh.c:158-172 | completion gives the first command name the text can be extended to, or the text, although the loop goes on after a match |
| LineEditor.Editor.constructor | kernel/nsh/nsh.c:66-72 | right after a prompt the text is empty and the invariant holds |
| LineEditor.Editor.AddChar | kernel/nsh/nsh.c:140-180 | every key edits nsh_buf and sends its echo to the terminal scrolled down first; text and lines agree after it, and the screen stays in order iff it is not a backspace that strands the viewport |
| LineEditor.Editor.TypeKeys | kernel/nsh/nsh.c:140-180 | any keys at one prompt, without scrolling in between, keep buffer and screen in agreement; no backspace strands the viewport |
| LineEditor.TypedText | kernel/nsh/nsh.c:173-179 | ordinary keys are all kept, up to 1023 characters, and change nothing after that |
| LineEditor.ErasedText | kernel/nsh/nsh.c:152-157 | n backspaces take back the last n characters, and no more than there are |
| LineEditor.TypedThenErased | kernel/nsh/nsh.c:152-179 | typing and erasing as often gives the text back |
| LineEditor.EchoExact | kernel/nsh/nsh.c:152-179 | what is echoed is what is stored, or one backspace when a character is taken back |
| LineEditor.Editor.Complete | kernel/nsh/nsh.c:158-172 | the completion loop stores and echoes the same characters |
| Tokenizer.Command.CreateCmd | kernel/nsh/nsh.c:79-96 | stores, in order, a zero-terminated pointer to each maximal run of non-spaces, at most 512, editing only the first space of each gap |
| Tokenizer.SplitJoined | kernel/nsh/nsh.c:79-96 | words joined by spaces split into the same words |
| Tokenizer.StringIsWord | kernel/nsh/nsh.c:79-96 | the string at the start of a word in the edited buffer is that word |
| Tokenizer.WordsCover | kernel/nsh/nsh.c:79-96 | in any line, every position that is not a space lies in exactly one stored word, and no space in any |
| Tokenizer.TerminatedExact | kernel/nsh/nsh.c:79-96 | the characters edited are the one after each word and a space at the start |
| Print.Basepow | kernel/print.c:29-38 | the number of digits |
| Print.Snprintnum | kernel/print.c:52-87 | writes the sign, zeros and digits that fit, and touches nothing else |
| Print.OutShape | kernel/print.c:58-86 | the padding loop and the right-to-left digit loop together produce the cut text |
| Print.NumOutExact | kernel/print.c:52-87 | the limit is kept, and the output is a prefix of the whole text, iff the padding does not overrun it |
| Print.OverrunWitness | kernel/print.c:61-76 | minus five padded to three digits writes three bytes with one byte left |
| Print.Vsnprintf | kernel/print.c:106-162 | writes exactly the specified output at the start of the buffer |
| Formats.LiteralText | kernel/print.c:156-158 | text without a per cent sign stands for itself |
| Formats.PercentText | kernel/print.c:118-120 | two per cent signs stand for one |
| Formats.ConversionText | kernel/print.c:112-155 | a conversion takes the next argument, and its width stays in force for those after it |
| Formats.UnknownText | kernel/print.c:153-154 | any other conversion ends the text |
| Formats.NumTextWide | kernel/print.c:52-87 | a number has its sign and the larger of width and digit count, and no leading zero without a width |
| Formats.ChunkLine | kernel/nsh/builtins/alloc.c:39 | the line printed for a chunk holds its address in hexadecimal and its size in decimal |
| Print.LimitKept | kernel/print.c:106-162 | for every format, at most `size` bytes are written iff no negative %d meets its last byte with padding to write |
| Print.SpillWitness | kernel/print.c:145-148 | `%3d` with minus five and one byte left writes three |
| Print.OutIsPrefix | kernel/print.c:106-162 | when every pointer met fits and no %d spills, the output is the whole text cut at the limit |
| Print.SmallerIsPrefix | kernel/print.c:106-162 | then a smaller limit gives a prefix of what a larger one gives |
| Print.OutExact | kernel/print.c:106-162 | for every format, it is so iff no %d spills and no pointer is skipped but for text that writes its prefix |
| Print.PointerSkipped | kernel/print.c:133-140 | in every format, a pointer met with one or two bytes left takes no argument and writes nothing, and the rest is written in its place |
| Print.PointerWitness | kernel/print.c:133-140 | `%pab` with two bytes left writes `ab` instead of `0x` |
| Strto.CutoffTest | lib/std/strtol.c:52-68 | the quotient and remainder test detects exactly the next value passing the limit |
| Strto.Accumulate | lib/std/strtol.c:56-75 | reads the longest run of digits to its end, with its exact value while it fits; the accumulator never passes the limit |
| Strto.Strtol | lib/std/strtol.c:27-85 | the exact value clamped to 32 bits signed, and the end of the digits, or the start when there is none |
| Strto.Strtoul | lib/std/strtoul.c:19-72 | the exact value clamped to 32 bits unsigned, and the end of the digits |
| Numerals.ReadsNumeral | lib/std/strtol.c:27-85 | spaces, an optional sign, an optional prefix and digits of the base are read to the end of the digits as their value, clamped |
| Numerals.CaseBlind | lib/std/strtol.c:56-66 | upper and lower case letters are read alike, in every base |
| Numerals.LetterValues | lib/std/strtol.c:56-66 | letters of either case have the values 10 to 35 in order |
| Strto.EndExact | lib/std/strtol.c:44-48 | for every text, base and sign handling, the end is that of the C standard iff no bare 0x is read, and the value is the standard's in every case |
| Strto.BarePrefixWitness | lib/std/strtol.c:44-48 | `0x` reads as no number, where the standard reads its zero |
| RoundTrip.PrintParseSigned | kernel/print.c:145-148 | %d read by strtol gives back every int, with any padding |
| RoundTrip.PrintParseUnsigned | kernel/print.c:129-152 | %u, %x and %b read by strtoul give back every unsigned, with any padding |
| Formats.UnsignedFormats | kernel/print.c:129-152 | the output of %u, %x and %b, with any width, is read by strtoul in base 10, 16 and 2 as the word modulo 2^32 |
| Formats.SignedFormat | kernel/print.c:145-148 | the output of %d, with any width, is read by strtol in base 10 as the word |
| RoundTrip.PrintParsePointer | kernel/nsh/builtins/free.c:35-40 | a printed address is read back iff it is below 2^31 |
| Formats.PointerFormat | kernel/print.c:133-140 | the output of %p begins with 0x and is read by strtol in base 0 as the address iff it is below 2^31 |
| Formats.TextFormats | kernel/print.c:121-128 | %c is the character of the low byte, %s the text |
| Rtc.GetYday | drivers/rtc/rtc.c:35-64 | the days of the months before, plus the day, less one |
| Rtc.MonthTable | drivers/rtc/rtc.c:35-64 | months have 31 and 30 days in turn, again from August, but for February |
| Rtc.GetTimestamp | drivers/rtc/rtc.c:139-154 | the seconds counted year by year and month by month, modulo 2^32 |
| Rtc.YearFormula | drivers/rtc/rtc.c:149-152 | the divisions by 4, 100 and 400 count the leap days |
| Rtc.TickCounts | drivers/rtc/rtc.c:139-154 | one second later on the calendar is one more |
| Rtc.SecondsIsTicks | drivers/rtc/rtc.c:136-138 | the count is the number of seconds since the epoch |
| Rtc.SecondsOrdered | drivers/rtc/rtc.c:139-154 | the count is strictly increasing in calendar order |
| Rtc.TimestampExact | drivers/rtc/rtc.c:139-154 | a 32-bit timestamp is exact iff the time is not after 7 February 2106, 06:28:15 |
| Rtc.ProductFitsInt | drivers/rtc/rtc.c:149 | the signed product of the formula fits up to the year 2038 |

## Left out

- Kpm.Buddy.Init: requires a terminated memory map whose available ranges start inside memory, and a kernel inside memory; for others the clamp of kernel/memory/kpm.c:104-105 lets indices run past the bitmaps (`KpmRanges.RangeOkExact`).
- Kpm.Buddy.Release: requires the chunk to be one for which the indices stay in bounds (`KpmRanges.ReleaseOkExact`); the source checks only alignment.
- ScreenBuf.ScreenBuf.PutBackspace: requires that the column does not fall below zero; what a write outside the buffer does is not modelled (`Terminal.ColumnInside`).
- ScreenBuf.ScreenBuf.Putchar: requires the same of a backspace.
- Screens.Screens.Putchar: requires the same of a backspace.
- ScreenBuf.ScreenBuf.Putstr: requires that every backspace of the string enters a solid line and does not strand the viewport; after one that does not, the lines no longer describe the buffer.
- ScreenRun.Play: requires the same of every backspace of the run.
- ScreenBuf.ScreenBuf.Scroll: takes any integer; the absolute value of the least 32-bit int is not modelled.
- LineEditor.Editor.AddChar: not the newline key, which runs a command.
- Rtc.GetTimestamp: takes the time already read; signed overflow from 2039 is taken as wrap-around.
- Strto.StdEnd: keeps what the source takes for spaces (the space character alone) and, for strtoul, that it reads no minus sign.
- Print.Vsnprintf: the variable arguments are an unending sequence, so that a call with too few of them is not modelled.
- Port input and output, among them the hardware cursor, and the colour changes around printed chunks.
- Register polling, the binary-coded-decimal conversion and the 12-hour branch of the clock driver.
- kpm_isenabled, kpm_isalloc, the single-line setters of colours, the 64-bit parsers and the string library, which would add only easy members.
- Interrupts, descriptor tables, paging, the keyboard driver and the commands other than the allocation loop.
