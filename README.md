# xv6 console: line editor, reader, command trie and formatter

This project models the console subsystem of an xv6-style kernel, `console.c`, in Dafny. The model covers:

- **The input ring.** `input.buf` holds 512 bytes and is indexed by `r`, `w` and `e`. `r` is the reading index, `w` the end of the committed text, and `e` the edit point.
- **The interrupt-side line editor, `consoleintr`.** It handles kill-line (^U), backspace (^H and DEL), tab completion and the default branch. The default branch stores and echoes a byte and commits the line on a newline, on ^D, or when the ring is full.
- **The copy-out loop of `consoleread`.** This includes its end-of-file rule, which keeps a ^D for the next call once bytes have been delivered.
- **The command trie.** It is built from the root directory's entries by `init_usr_commands` with `trie_insert`, and searched by `trie_find` and `trie_collect`.
- **`autocomplete`.** It completes a unique match, lists the table entries when there are several, and prints `$` when the node it reaches has no command below it.
- **The formatter.** This is `cprintf`, with `printint` and `consputc` beneath it.

## Module layout

- `bytes.dfy`, module `Bytes`: bytes, `Option`, the constants of `console.c`, `safestrcpy`.
- `output.dfy`, module `Output`:
  - `consputc`, as bytes sent to the UART;
  - `printint`, specified by `FormatInt` and proved to round-trip through a digit parser;
  - `cprintf`, specified by the interpreter `Format` over a typed argument list.
- `trie.dfy`, module `Trie`:
  - the trie as an arena of nodes with the root at index 0 and 0 as the null child;
  - the pure walks `FindFrom` (`trie_find`) and `Collect` (`trie_collect`);
  - the class `Trie`, whose `Insert` grows the arena in place;
  - ghost bookkeeping (the path to each node and the names inserted) that carries the lookup properties.
- `registry.dfy`, module `Registry`:
  - the filter of `init_usr_commands` over abstract directory entries;
  - the `commands` table beside the trie;
  - the lookup `autocomplete` performs.
- `console.dfy`, module `Console`:
  - the class `Console`, with the ring as an `array`, the indices as fields and UART output as a growing sequence;
  - one method per editor action, `Autocomplete`, `ConsoleIntr` and `ConsoleRead`;
  - the pure specifications they are proved against: `Ring`, `WriteRing`, `ScanBack`, `Listing` and `ReadFrom`.

Four behaviours of the code are easy to miss:

- **Single-byte names.** The registration filter also drops every single-byte name, not only a lone `.` (`Registry.AcceptsIff`).
- **A word with no trie node.** A Tab on such a word prints nothing; `trie_find` fails and `autocomplete` returns silently. With a consistent trie, the `$` branch is never reached for a non-empty word (`Registry.LookupMeaning`: the count is at least one).
- **A killed reader.** A reader killed while waiting has already consumed the bytes it copied before the wait, and it still returns -1 (`Console.Console.ConsoleRead`).
- **The two prompts.** The two listing branches print different prompts (`> ` and `$`), as the code does.

## Model

| member | source | states |
|---|---|---|
| Bytes.Ctrl | console.c:331 | `C(x)` is the control code below 0x20 that Ctrl-x produces |
| Bytes.SafeCopy | console.c:59 | `safestrcpy` into a 32-byte slot copies at most 31 bytes, yields a prefix of the source, and yields the source itself when it is shorter than 32 bytes |
| Output.ConsPutC | console.c:185-202 | BACKSPACE is sent as `'\b',' ','\b'`; every other byte is sent unchanged, as one byte |
| Output.Erases | console.c:345-348 | `k` calls of `consputc(BACKSPACE)` send `3k` bytes, the erase sequence `'\b',' ','\b'` repeated |
| Output.DigitValueOf | console.c:71 | every character of the digit table `"0123456789abcdef"` decodes back to its value |
| Output.Digits | console.c:84-86 | the conversion emits at least one digit, every digit belongs to the base, and a positive value has no leading zero |
| Output.DigitsStep | console.c:84-86 | one round of the do-while emits the last digit, `x % base`, after the digits of `x / base` |
| Output.DigitsRoundTrip | console.c:84-86 | parsing the emitted digits gives the value back |
| Output.DigitsFit | console.c:72 | a value below `base^k` has at most `k` digits |
| Output.DigitsOfWord | console.c:72-86 | a 32-bit unsigned value has at most 10 digits in base 10 or 16, so the 16-byte buffer never overflows |
| Output.AsUint | console.c:74-79 | the conversion `x = xx` to `uint` gives the value below 2^32 that is congruent to `xx` |
| Output.Magnitude | console.c:76-80 | the magnitude `printint` converts fits a `uint` |
| Output.FormatInt | console.c:69-95 | `printint` emits at least one byte, and a leading '-' exactly when `sign` is set and `xx` is negative |
| Output.FormatIntRoundTrip | console.c:69-95 | parsing what `printint` emits gives `xx` for signed output and `(uint)xx` for unsigned output |
| Output.ConvertDigits | console.c:82-86 | the digit loop fills `buf[0..i)` with the digits least significant first, and `i` is the number of digits (at most 10) |
| Output.SendBackwards | console.c:92-94 | the output loop sends `buf[i-1]` down to `buf[0]` |
| Output.PrintInt | console.c:69-95 | the bytes `printint` sends are `FormatInt(xx, base, sign)` |
| Output.CString | console.c:144-146 | a `%s` argument is sent up to its terminator, and entirely when it has none |
| Output.FormatVerbatim | console.c:117-121 | bytes other than '%' are sent unchanged and consume no argument |
| Output.FormatConversion | console.c:123-158 | `%d` is signed decimal, `%x` and `%p` are unsigned hex, `%s` is the string or `(null)`, `%%` is '%', an unknown `%c` is sent as `%c`, and a trailing lone '%' ends the output |
| Output.Format | console.c:117-158 | the interpreter of the format string that `CPrintf` is proved against: it never sends a NUL byte; each case is stated by `FormatVerbatim` and `FormatConversion` |
| Output.Conversion | console.c:123-158 | one conversion sends the piece `Format` prescribes and consumes the arguments it uses |
| Output.FormatStep | console.c:117-158 | one iteration of the format loop sends a piece and advances the format and argument positions, so that the rest of the output is what `Format` prescribes from there |
| Output.CPrintf | console.c:99-164 | `cprintf(fmt, args…)` sends exactly `Format(fmt, args)` |
| Trie.FindFrom | console.c:258-267 | `trie_find` ends at or after its starting node, and at the starting node exactly for the empty prefix |
| Trie.Ends | console.c:245-255 | the terminals listed below a node, in depth-first order, are terminal nodes at or after it in the arena |
| Trie.Collect | console.c:245-255 | `trie_collect`: `found` never decreases and, started at 2 or below, never goes past 2; `result` changes only when a terminal is counted; what it counts is stated by `CollectAbsorb` and `CollectSaturates` |
| Trie.CollectChildren | console.c:251-254 | the child loop of `trie_collect` keeps the same bounds on `found` and `result`; its count is stated by `CollectChildrenAbsorb` |
| Trie.AbsorbAppend | console.c:245-255 | counting terminals over two runs is counting over the first, then over the second |
| Trie.CollectAbsorb | console.c:245-255 | `trie_collect` is the saturating count of the subtree's terminals, taken in depth-first order |
| Trie.CollectChildrenAbsorb | console.c:251-254 | the child loop of `trie_collect` is the saturating count of the terminals below children `k..127` |
| Trie.AbsorbFromZero | console.c:245-250 | counting from zero over `n` terminals gives `min(n, 2)`, and a single terminal's command is the result |
| Trie.CollectSaturates | console.c:245-255 | started at 0, `found` ends in {0, 1, 2}: 0 iff no terminal is below, 1 iff exactly one is (and `result` is its command), 2 iff at least two are |
| Trie.FindSplit | console.c:258-267 | looking up `p + q` is looking up `p`, then `q` from where `p` led |
| Trie.EndsFromHas | console.c:251-254 | a terminal below a child of `i` is among the terminals the child loop visits |
| Trie.FindReachesEnds | console.c:258-267 | a terminal reached by a lookup from `i` is among the terminals below `i` |
| Trie.FindPath | console.c:258-267 | the node a lookup reaches is the one whose path is the starting node's path followed by the prefix |
| Trie.EndsExtendPath | console.c:245-255 | every terminal below a node has a path that extends the node's path |
| Trie.NameFound | console.c:229-242 | after a name is inserted, `trie_find` of the name reaches a terminal whose command is the name |
| Trie.FoundIffPrefix | console.c:258-267 | `trie_find(p)` of a non-empty `p` is non-null iff `p` is a prefix of an inserted name |
| Trie.SubtreeHasEnd | console.c:245-267 | every node a non-empty lookup reaches has a terminal below it |
| Trie.EndsAreCompletions | console.c:245-267 | every terminal below `trie_find(p)` holds an inserted name that starts with `p` |
| Trie.ExtendsFind | console.c:229-242 | growing the trie never changes where an existing path leads |
| Trie.ExtendsMarked | console.c:229-242 | growing the trie never loses an inserted name |
| Trie.Grow | console.c:233-237 | allocating a missing child appends an empty node to the arena and links it from the slot; `GrowExtends` proves nothing else moves |
| Trie.GrowExtends | console.c:233-237 | allocating a null child links it to a new node at the end of the arena, keeping the arena well formed and every existing link and terminal in place |
| Trie.MarkEnd | console.c:240-241 | the node the name reaches becomes terminal, holds `safestrcpy`'s copy of the name, and keeps its children; `DescendEnd` proves the trie stays consistent |
| Trie.DescendEnd | console.c:240-241 | marking the node reached by the name as terminal, with the name's copy, keeps the trie consistent with the name added |
| Trie.Trie.constructor | console.c:221-226 | the trie starts as a single empty root with no names |
| Trie.Trie.Init | console.c:224-226 | `trie_init` resets the trie to a single empty root with no names |
| Trie.Trie.Insert | console.c:229-242 | `trie_insert` adds the name to the inserted set, keeps every existing node, link and terminal, and leaves the name findable at a terminal holding its copy |
| Trie.Trie.Find | console.c:258-267 | the iterative `trie_find` returns the node of `FindFrom` |
| Registry.AcceptsIff | console.c:50-58 | an entry is registered iff it is used, does not start with '.', and its name has between 2 and 31 bytes |
| Registry.Accepted | console.c:45-64 | the names the filter lets through, in directory order: at most one per entry, each shorter than 32 bytes; its meaning is stated by `AcceptsIff`, `AcceptedAppend` and `AcceptedNames` |
| Registry.Registered | console.c:45 | the loop stops at `MAX_COMMANDS`: the table is the first `min(n, 100)` of the `n` accepted names, in order |
| Registry.AcceptedAppend | console.c:45-64 | the filter judges each directory entry on its own |
| Registry.AcceptedNames | console.c:54-61 | every registered name is an accepted entry's name, unchanged by the copy |
| Registry.NamesAppend | console.c:59-61 | registering a name adds exactly that name to the table's set of names |
| Registry.CompletionRegistered | console.c:294-296 | the command of a unique terminal below `trie_find(p)` is a table entry that starts with `p` |
| Registry.Lookup | console.c:287-294 | nothing when `trie_find` fails, otherwise what `trie_collect` gathers from `found = 0`: a count of at most 2, and no result for a count of 0; `LookupMeaning` ties it to the table |
| Registry.LookupMeaning | console.c:287-296 | for a non-empty word, a node is found iff some table entry starts with the word; the count is then 1 or 2, it is 1 iff exactly one terminal is below, and a count of 1 yields a table entry extending the word |
| Registry.Registry.constructor | console.c:27-28 | the table starts empty beside an empty trie |
| Registry.Registry.Register | console.c:59-61 | one registration appends the copied name to the table and inserts it into the trie |
| Registry.Registry.Matches | console.c:287-294 | `trie_find` then `trie_collect` computes `Lookup`, and a unique match is a 2-to-31-byte table entry that starts with the prefix |
| Registry.Registry.Load | console.c:30-67 | `init_usr_commands` leaves the table holding the first 100 accepted names, in directory order, with the trie consistent with the table |
| Console.SlotsDiffer | console.c:368 | two indices less than 512 apart use different slots of the ring |
| Console.WriteRingReads | console.c:300-304 | after bytes are stored at consecutive indices, those slots hold the bytes and the 512 - n indices before them are untouched |
| Console.WriteRingStep | console.c:300-303 | storing one more byte of the match updates exactly the slot of the next index |
| Console.CompletedWord | console.c:296-305 | storing the rest of the match after a word that holds its first `len` bytes leaves the word equal to the match |
| Console.ScanBack | console.c:270-274 | the backward scan stops at `w` or just after the nearest stop byte, and no stop byte lies between there and `e` |
| Console.StrNEqualPrefix | console.c:311 | `strncmp(entry, prefix, len) == 0` holds iff the prefix starts the entry |
| Console.Listing | console.c:310-314 | what the listing loop prints: empty exactly when no table entry starts with the prefix; `ListingAppend` and `ListingOne` state order and membership |
| Console.ListingAppend | console.c:310-314 | the listing prints entries in table order |
| Console.ListingOne | console.c:311-313 | an entry is printed, followed by a newline, exactly when the prefix starts it |
| Console.FormatLine | console.c:312 | `cprintf("%s\n", s)` sends `s` and a newline |
| Console.FormatLiteral | console.c:316 | `cprintf` of a literal without '%' sends the literal |
| Console.ReadFrom | console.c:394-423 | the copy-out loop over the committed bytes never consumes more than is committed; `ReadFromSpec` and `EofRetained` state what it copies and when it stops |
| Console.ReadFromSpec | console.c:394-423 | a read copies at most `n` leading committed bytes and consumes them; no copied byte is ^D and only the last may be a newline; a ^D is consumed without being copied only when it is the first byte; the read stops short only after a newline, before a ^D, or when the committed bytes run out, and is starved only in the last case |
| Console.EofRetained | console.c:407-415 | a ^D that ends a read after bytes were delivered stays committed, and the next read consumes it and delivers nothing |
| Console.ReadStep | console.c:394-423 | one iteration of the copy-out loop either ends the read (empty ring, ^D, newline) with the result the specification prescribes, or copies one byte and goes on |
| Console.Console.constructor | console.c:204-211 | the ring starts empty, with `r = w = e = 0` and nothing sent |
| Console.Console.KillLine | console.c:344-350 | ^U moves `e` back to the start of the line (`w`, or just after the nearest newline) and sends one erase sequence per erased byte |
| Console.Console.Backspace | console.c:352-359 | ^H and DEL move `e` back by one and send one erase sequence when `e != w`; otherwise nothing changes |
| Console.Console.Put | console.c:364-377 | a non-zero byte is stored when the ring has room: CR becomes NL, the byte goes to slot `e mod 512` and is echoed, `e` advances, and `w := e` exactly on NL, ^D or a full ring; committed text is unchanged and `e - r <= 512` is kept; a NUL or a full ring changes nothing |
| Console.Console.Reprint | console.c:317-319 | the uncommitted text `buf[w..e)` is sent again |
| Console.Console.ScanWord | console.c:270-274 | the scan returns where the word before `e` begins |
| Console.Console.CopyPrefix | console.c:281-284 | the prefix holds the first `min(len, 31)` bytes of the word |
| Console.Console.TypeRest | console.c:298-305 | the bytes of the match past the first `len` are stored from `e` on and echoed, and `e` advances by their number |
| Console.Console.Complete | console.c:296-306 | a unique match extends the word so that `buf[start..e)` equals the match, echoing only the appended bytes |
| Console.Console.ListEntry | console.c:311-313 | one table entry is printed on its own line iff the prefix starts it |
| Console.Console.ListTable | console.c:310-314 | the `for` loop over the table prints exactly `Listing(table, prefix)` |
| Console.Console.ListMatches | console.c:307-320 | the multi-match branch sends a newline, every table entry that starts with the prefix in table order, `> ` and the uncommitted text |
| Console.Console.NoMatches | console.c:321-328 | the no-match branch sends a newline, `$` and the uncommitted text |
| Console.Console.Autocomplete | console.c:269-329 | Tab never changes `w` or `r`. An empty word or a missing trie node changes nothing. A unique match extends the word to the match and echoes the added bytes. Several matches, and the no-terminal case, only print (listing, or `$`) and leave buffer and `e` unchanged. Output only grows |
| Console.Console.Key | console.c:339-378 | the `switch` on one byte: ^P changes nothing; ^U has the effect `KillLine` states; ^H and DEL have the effect `Backspace` states; Tab has one of the four outcomes `Autocomplete` states (`TabEffect`); every other byte has the effect `Put` states; in every case the ring invariant holds, `w` only moves forwards and the output only grows |
| Console.Console.ConsoleIntr | console.c:332-382 | a stream of input bytes keeps the ring invariant, only commits forwards, and only appends to the output |
| Console.Console.ConsoleRead | console.c:384-429 | `consoleread` consumes and copies exactly what `ReadFrom` prescribes and returns the number of bytes copied, 0 for `n <= 0`, or -1 for a killed reader facing an empty ring |

## Left out

- Locks (`acquire`/`release`, `cons.locking`), interrupts and `panic` with the `panicked` spin are not modelled. They are concurrency and fail-stop behaviour.
- The `sleep`/`wakeup` wait in `consoleread` is not modelled. A reader that is not killed is required to find enough committed bytes, and `proc->killed` is an input flag.
- `procdump` (^P) is an opaque external call. It is modelled as doing nothing to the console state.
- `uartputc` is modelled as appending to the sequence `out`. The commented-out `cgaputc` is not modelled.
- The directory walk of `init_usr_commands` (`namei`, `ilock`, `readi`, `iunlockput`) is not modelled. `Load` takes the root directory's entries as an abstract sequence, so a short `readi` read appears as the end of that sequence.
- `alloc_page` and `memset` are not modelled. Allocation always succeeds and appends a fresh node to the arena.
- `consolewrite`, `consoleinit` and `init_commands` are device-table plumbing and lock set-up, so they are not modelled.
- The raw walk of `cprintf` over its variadic arguments is replaced by a typed argument list that must match the format. A `%d`/`%x` argument is a 32-bit signed integer, and a `%s` argument is a string or null. The null-format panic is not modelled.
- Indices are unbounded naturals. The 32-bit wrap-around of `uint` `r`, `w` and `e`, and the `int` cast in `autocomplete`, are not modelled.
- Bytes are values below 256. A `getc` result above 255 is not modelled.
- Console.Console.Autocomplete: requires a word shorter than 32 bytes whose bytes are all below 128. Otherwise `prefix[len] = '\0'` writes past the prefix buffer or `children[idx]` is indexed past 128, which is undefined behaviour in the source.
- Console.Console.ConsoleIntr: stops, and reports how far it got, at a Tab whose word falls outside what Autocomplete requires. It does not model the undefined behaviour.
- Console.Console.Complete: the unique-match branch does not check the ring's capacity. The model therefore keeps `e - r <= 512` only across `Put` and does not promise it after a completion, as the source does not.
- Registry.Registry.Load: names with a byte of 128 or more are not modelled. `GoodEntries` excludes them, because `trie_insert` would index past the 128 child slots.
- Console.Console.ConsoleIntr: states the invariant over a whole byte stream, not the composed effect of its bytes; each byte's effect is stated by `Key`.
- Trie.FindFrom, Trie.Ends: their contracts only bound their results. Their meaning is stated by `FoundIffPrefix`, `EndsAreCompletions`, `CollectSaturates` and `FindReachesEnds`.
