# Dyninst: the Linux memory-map reader, the runtime heap policy and the patch-layer object store

This project models three pieces of Dyninst in Dafny and proves properties of them.

- **The runtime heap policy** (`src/dyninstAPI_RT/src/RTheap-linux.c`). These are the constants the
  Linux runtime library is built with, for each build configuration: the default 32-bit build, a
  64-bit mutatee and 32-bit POWER. They cover heap alignment, the low and high placement bounds and
  the `mmap` flags. The rule that the runtime heap never lives in the mutatee's malloc heap is
  modelled too. (`heap_policy.dfy`, module `HeapPolicy`.)
- **`DYNINSTgetMemoryMap`** (`src/dyninstAPI_RT/src/RTheap-linux.c`). It reads `/proc/self/maps`
  into the static 32 KiB buffer `procAsciiMap`. It counts the `strtok(.., "\n")` tokens, allocates
  one `dyninstmm_t` record per token, and parses each line's `START-END` into `pr_vaddr = START` and
  `pr_size = END - START`. The outcome is all or nothing.
  - `maps_text.dfy` (module `MapsText`) holds the pure text model. It covers the C string, the
    pieces the two `strtok` passes see, `strtoul(.., 16)` and the parse of one piece.
  - `memory_map.dfy` (module `MemoryMap`) holds the rest:
    - the read loop as a function, with a closed-form reference definition;
    - the whole call as a specification function;
    - the imperative call over an `array<char>` buffer and an `array<MapSegment>` result.
- **`PatchObject`** (`src/patchAPI/h/PatchObject.h`). This is the patch layer's per-image store.
  It holds three `std::map`s from static-parse entities (functions, blocks, edges) to the wrappers
  built for them, and the `funcs`/`blocks`/`edges` visitors that walk them. It is a `class` with
  three `map` fields (`patch_object.dfy`, module `PatchAPI`).

`common.dfy` holds the `Option` and `Result` datatypes.

Modelling choices:
- The operating system is a parameter (`MemoryMap.OsModel`). It records whether `open` succeeds,
  the replies of the successive `read` calls (`Bytes(data)` or `ReadError`), and whether `malloc`
  succeeds. Bytes are `char`s.
- `read` returns at most the space it is asked to fill, so a longer reply is cut.
- A zero-length reply, or running out of replies, is end of file.
- Addresses are `nat`s below `AddressModulus(cfg)`: 2^32, or 2^64 for the 64-bit mutatee.
  Unsigned subtraction and `strtoul`'s saturation and negation are written out modulo that.
- Static entities and wrappers of the patch layer, and the foreign objects (code object, address
  space, CFG maker, callback), are opaque numbers. A `std::map` keyed by a pointer iterates in
  ascending key order.
- The header declares `get*`, `add*` and `remove*` but shows only their signatures. The model
  assumes the effects their names and parameters suggest:
  - a lookup returns the cached wrapper;
  - when asked to create, it builds, inserts and returns a new wrapper;
  - otherwise it returns none;
  - `add*` records a wrapper under the entity it wraps;
  - `remove*` erases that entry.
- The visitors walk a `std::map` from `begin()` to `end()`, which is ascending key order, not the
  order in which entries were added.
- The second pass walks from one terminator to the next (`next = p + strlen(p) + 1`). So each piece
  it parses is a token together with the run of newlines `strtok` skipped before it. Blank lines are
  skipped, not removed. `strtoul` then skips those newlines as white space. The model keeps this
  exactly (`MapsText.SplitFrom`).
- `++p` after the first `strtoul` has no effect. The next `strtok(NULL, " ")` resumes from
  `strtok`'s own saved position, just behind the `-` it cut at (`MapsText.StartToken` returns that
  position's rest).

## Model

| member | source | states |
|---|---|---|
| HeapPolicy.AddressWidth | src/dyninstAPI_RT/src/RTheap-linux.c:46-61 | an `Address` is 64 bits wide exactly in the 64-bit mutatee build, 32 bits otherwise |
| HeapPolicy.AddressModulus | src/dyninstAPI_RT/src/RTheap-linux.c:46-61 | address arithmetic is modulo 2^64 in the 64-bit build and 2^32 in the others |
| HeapPolicy.MaxAddress | src/dyninstAPI_RT/src/RTheap-linux.c:51 | `~0` is the largest address: one less than the modulus |
| HeapPolicy.UseMalloc | src/dyninstAPI_RT/src/RTheap-linux.c:66-71 | the heap is never placed in the malloc heap, for every window `(lo, hi)` |
| HeapPolicy.HeapAlign | src/dyninstAPI_RT/src/RTheap-linux.c:48-57 | heaps are word-aligned: the alignment is a positive multiple of 4 |
| HeapPolicy.HeapLoAddr | src/dyninstAPI_RT/src/RTheap-linux.c:50-59 | the low bound is an address; outside POWER it is aligned and at least 64 KiB |
| HeapPolicy.HeapHiAddr | src/dyninstAPI_RT/src/RTheap-linux.c:51-60 | the high bound is an address, not below the low bound, and strictly above it outside POWER |
| HeapPolicy.PlacementWindow | src/dyninstAPI_RT/src/RTheap-linux.c:46-61 | alignment is 4 everywhere; lo ≤ hi ≤ `~0` in every build; lo < hi and lo aligned in the default and 64-bit builds; the default window is [0x50000000, 0xb0000000]; POWER leaves both bounds at `~0` |
| HeapPolicy.HeapMmapFlags | src/dyninstAPI_RT/src/RTheap-linux.c:63 | the mapping flags hold `MAP_FIXED` and `MAP_PRIVATE` and nothing else |
| MapsText.IndexOf | src/dyninstAPI_RT/src/RTheap-linux.c:133 | the first occurrence of a character: none before it, and it is there unless the result is the length |
| MapsText.CString | src/dyninstAPI_RT/src/RTheap-linux.c:133 | the string C routines see in the terminated buffer is the prefix before the first NUL, and holds no NUL |
| MapsText.SkipNewlines | src/dyninstAPI_RT/src/RTheap-linux.c:139-141 | where `strtok(.., "\n")` starts a token: the first non-newline at or after `p`, or the end |
| MapsText.LineEnd | src/dyninstAPI_RT/src/RTheap-linux.c:139-141 | where a token ends: the first newline at or after `p`, or the end |
| MapsText.PieceStep | src/dyninstAPI_RT/src/RTheap-linux.c:150-152 | newlines up to `k` and a token up to `e`, found by scanning, are the next piece; the walk resumes behind `e` |
| MapsText.NoPieceLeft | src/dyninstAPI_RT/src/RTheap-linux.c:139-141 | when only newlines are left, `strtok` finds no further token |
| MapsText.SplitFrom | src/dyninstAPI_RT/src/RTheap-linux.c:139-152 | the pieces the two passes see from position `p` on, each a token with the newlines before it; there are at most as many as characters left |
| MapsText.SplitLines | src/dyninstAPI_RT/src/RTheap-linux.c:139-152 | the pieces of the whole text, at most one per character |
| MapsText.SplitFromNewline | src/dyninstAPI_RT/src/RTheap-linux.c:139-141 | a newline only lengthens the piece behind it: the count and the stripped pieces are unchanged |
| MapsText.SplitFromAreNonEmptyLines | src/dyninstAPI_RT/src/RTheap-linux.c:137-142 | from any position, the pieces stripped of their leading newlines are the non-empty newline-separated lines |
| MapsText.SplitLinesAreNonEmptyLines | src/dyninstAPI_RT/src/RTheap-linux.c:137-142 | the pieces are the non-empty lines of the text, each perhaps behind blank lines; there are exactly as many pieces as non-empty lines, so runs of newlines add none |
| MapsText.SplitJoinLines | src/dyninstAPI_RT/src/RTheap-linux.c:102-111 | splitting newline-terminated lines that are non-empty and free of newlines gives back those lines |
| MapsText.StrToUL | src/dyninstAPI_RT/src/RTheap-linux.c:158 | `strtoul(.., 16)` always yields an address: a value below the modulus |
| MapsText.StrToULOfDigits | src/dyninstAPI_RT/src/RTheap-linux.c:158 | behind white space, a hex digit string whose value fits is read as that value |
| MapsText.StrToULOfPlainDigits | src/dyninstAPI_RT/src/RTheap-linux.c:164 | a bare hex digit string whose value fits is read as that value |
| MapsText.SubAddr | src/dyninstAPI_RT/src/RTheap-linux.c:167 | `eaddr - saddr` on unsigned addresses: below the modulus, and `saddr` plus it is `eaddr` up to one wrap-around |
| MapsText.StartToken | src/dyninstAPI_RT/src/RTheap-linux.c:156-157 | `strtok(p, "-")` finds no token exactly when the piece is all `-`; otherwise the token is the `-`-free run that starts behind the leading `-`s and ends at the next `-` or the end of the piece, and the next call resumes just behind that `-`, or finds nothing left when the piece ended |
| MapsText.EndToken | src/dyninstAPI_RT/src/RTheap-linux.c:162-163 | `strtok(NULL, " ")` finds no token exactly when only spaces are left; otherwise the token is the space-free run that starts behind the leading spaces and ends at the next space or the end |
| MapsText.NoDashFails | src/dyninstAPI_RT/src/RTheap-linux.c:156-163 | a piece without `-` does not parse: the start token takes the whole piece, so no end token is left |
| MapsText.StartTokenOf | src/dyninstAPI_RT/src/RTheap-linux.c:156 | `strtok(p, "-")` on a piece that starts with a `-`-free token gives that token, and resumes behind the `-` |
| MapsText.EndTokenOfDigits | src/dyninstAPI_RT/src/RTheap-linux.c:162 | `strtok(NULL, " ")` on digits followed by a space gives the digits |
| MapsText.ParseSegment | src/dyninstAPI_RT/src/RTheap-linux.c:155-167 | a piece parses exactly when it has a start token and an end token; the record's start and size are then addresses |
| MapsText.ParseDigitsLine | src/dyninstAPI_RT/src/RTheap-linux.c:155-167 | hex digits, `-`, hex digits and a space, behind any newlines, give the record (start, end − start) of their values |
| MapsText.ParseFormattedLine | src/dyninstAPI_RT/src/RTheap-linux.c:102-111 | a maps line `START-END rest` with hex digits for START and END, zero-padded or not, even behind blank lines, gives the record (START, END − START) of their values |
| MapsText.ParseExampleLine | src/dyninstAPI_RT/src/RTheap-linux.c:108-109 | the first example line, `0804a000-0804c000 ...`, gives the record (0x0804a000, 0x2000) in a 32-bit mutatee |
| MemoryMap.Fill | src/dyninstAPI_RT/src/RTheap-linux.c:118-132 | the read loop: a failing read and a buffer that fills up end it with -1; when it ends at end of file, the text read extends what it held and leaves room for the terminator |
| MemoryMap.StopIndex | src/dyninstAPI_RT/src/RTheap-linux.c:122-126 | the first reply that ends the loop (an error or end of file); none before it does |
| MemoryMap.FillMatchesReference | src/dyninstAPI_RT/src/RTheap-linux.c:119-132 | the loop overflows exactly when the data before the first stopping reply reaches the capacity; otherwise it fails on an error; otherwise the text is exactly that data |
| MemoryMap.ReadWholeFile | src/dyninstAPI_RT/src/RTheap-linux.c:84-91 | however the kernel splits a file that fits into reads, the loop reads it whole |
| MemoryMap.ReadMaps | src/dyninstAPI_RT/src/RTheap-linux.c:118-132 | the buffer loop succeeds exactly when the read loop ends normally; the buffer then holds the text read, with `length` below the capacity |
| MemoryMap.SpecFailureOrder | src/dyninstAPI_RT/src/RTheap-linux.c:113-148 | which failure the call reports: open, then read error, then overflow, then allocation; on success the text left room for the terminator |
| MemoryMap.GetMemoryMapSpec | src/dyninstAPI_RT/src/RTheap-linux.c:113-179 | the whole call: it succeeds only when `open`, the read loop and `malloc` all succeed, and then every start and size is an address |
| MemoryMap.ParseEachAt | src/dyninstAPI_RT/src/RTheap-linux.c:151-170 | entry `i` of the per-piece parse is the parse of piece `i` |
| MemoryMap.Collect | src/dyninstAPI_RT/src/RTheap-linux.c:151-178 | all or nothing: a success has one record per piece; a failure is the parse failure |
| MemoryMap.ParseAll | src/dyninstAPI_RT/src/RTheap-linux.c:151-178 | the second pass: a success has one record per piece; a failure is the parse failure |
| MemoryMap.ParseAllAddresses | src/dyninstAPI_RT/src/RTheap-linux.c:166-167 | every start and every size of a successful parse is an address (below the modulus of the mutatee's word) |
| MemoryMap.CollectFails | src/dyninstAPI_RT/src/RTheap-linux.c:157 | one piece that does not parse fails the whole parse |
| MemoryMap.MalformedLineFails | src/dyninstAPI_RT/src/RTheap-linux.c:156-178 | a non-empty line of the text read that holds no `-` makes the whole call fail with a parse failure, returning no record |
| MemoryMap.CollectFailureWitness | src/dyninstAPI_RT/src/RTheap-linux.c:175-178 | a failed parse names a piece that did not parse |
| MemoryMap.CollectSucceedsAt | src/dyninstAPI_RT/src/RTheap-linux.c:166-167 | record `i` of a successful parse is what piece `i` parsed to |
| MemoryMap.CollectSucceeds | src/dyninstAPI_RT/src/RTheap-linux.c:151-170 | pieces that all parse give, in order, the records they parse to |
| MemoryMap.CollectSnoc | src/dyninstAPI_RT/src/RTheap-linux.c:151 | one more parsed piece appends its record |
| MemoryMap.CollectStep | src/dyninstAPI_RT/src/RTheap-linux.c:151 | the parse of the first `i + 1` pieces extends that of the first `i` by record `i` |
| MemoryMap.ParseAllMeaning | src/dyninstAPI_RT/src/RTheap-linux.c:151-170 | the parse succeeds exactly when every piece parses, and then record `i` is what piece `i` parses to |
| MemoryMap.RecordsFollowLines | src/dyninstAPI_RT/src/RTheap-linux.c:137-172 | on success there is one record per non-empty line, in order, and record `i` comes from line `i`; the call fails exactly when some line does not parse |
| MemoryMap.FormattedLineIsLine | src/dyninstAPI_RT/src/RTheap-linux.c:108-110 | a well-formed maps line is non-empty and holds no newline and no NUL |
| MemoryMap.JoinLinesNoNul | src/dyninstAPI_RT/src/RTheap-linux.c:133 | joined lines free of NULs hold no NUL |
| MemoryMap.RoundTrip | src/dyninstAPI_RT/src/RTheap-linux.c:93-174 | a maps file of well-formed lines (hex addresses, zero-padded or not) that fits the buffer, however it is split into reads, yields exactly the records (START, END − START) of its lines, in order |
| MemoryMap.SkipWhile | src/dyninstAPI_RT/src/RTheap-linux.c:139-141 | the scan stops at the first character on the other side of the newline test, or at the end |
| MemoryMap.TokenCount | src/dyninstAPI_RT/src/RTheap-linux.c:139-141 | a token found by scanning is one piece; counting resumes behind it |
| MemoryMap.PieceAdvance | src/dyninstAPI_RT/src/RTheap-linux.c:152 | the piece from `p` to the next terminator is piece `i`, and the walk resumes at `next` with the pieces after it |
| MemoryMap.CountLines | src/dyninstAPI_RT/src/RTheap-linux.c:139-142 | the first pass counts exactly the pieces, which is the number of non-empty lines |
| MemoryMap.ParsedNone | src/dyninstAPI_RT/src/RTheap-linux.c:150 | before the loop, scanning starts at the buffer's start and nothing is parsed |
| MemoryMap.ParsedAll | src/dyninstAPI_RT/src/RTheap-linux.c:151-170 | after every piece has parsed, the parse succeeds with the records collected |
| MemoryMap.NextPiece | src/dyninstAPI_RT/src/RTheap-linux.c:152 | the piece runs from `p` to the next terminator, and `next` is where the following pieces start |
| MemoryMap.ParseNext | src/dyninstAPI_RT/src/RTheap-linux.c:151-169 | one loop turn either fails the whole parse at piece `i` or extends the parsed prefix by piece `i`'s record |
| MemoryMap.ParseLoop | src/dyninstAPI_RT/src/RTheap-linux.c:150-170 | the `ms[i]` loop: it stops at the first piece that fails, which fails the whole parse; when it runs to the end, every piece parsed and `ms` holds the records in order |
| MemoryMap.ParsePieces | src/dyninstAPI_RT/src/RTheap-linux.c:150-170 | the second pass succeeds exactly when every piece parses, and then `ms` holds the parsed records in order |
| MemoryMap.GetMemoryMap | src/dyninstAPI_RT/src/RTheap-linux.c:93-179 | returns 0 or -1; 0 exactly when the specification succeeds, with `*nump` the record count and `*mapp` a fresh array of the specified records; on -1 neither output is set |
| PatchAPI.KeyedStoresAreInjective | src/patchAPI/h/PatchObject.h:63-65 | a store keyed by the entity each wrapper wraps never holds one wrapper under two keys |
| PatchAPI.Least | src/patchAPI/h/PatchObject.h:132 | every non-empty key set has a least key, the one `begin()` visits first |
| PatchAPI.SortedKeysFirst | src/patchAPI/h/PatchObject.h:132-135 | the walk visits the least key first and then the others in order |
| PatchAPI.SortedKeysMembers | src/patchAPI/h/PatchObject.h:132 | the walk from `begin()` to `end()` visits every key and only keys, as many as there are |
| PatchAPI.SortedKeysIncreasing | src/patchAPI/h/PatchObject.h:132 | the walk visits keys in strictly ascending order |
| PatchAPI.ValuesAt | src/patchAPI/h/PatchObject.h:133 | the values written for a sequence of keys: one per key, the value stored under it |
| PatchAPI.ValuesInOrderVisitsEach | src/patchAPI/h/PatchObject.h:129-154 | a visit writes as many values as entries, each entry's value at its key's position, and no wrapper twice when keys hold different wrappers |
| PatchAPI.ValuesAtSnoc | src/patchAPI/h/PatchObject.h:133-134 | one more key appends its value |
| PatchAPI.EmitStep | src/patchAPI/h/PatchObject.h:132-135 | one loop turn: the least key left is the next in order, and its value is the next one written |
| PatchAPI.EmitInOrder | src/patchAPI/h/PatchObject.h:132-135 | the visit loop writes, after what the iterator held, every value of the map in ascending key order |
| PatchAPI.Get | src/patchAPI/h/PatchObject.h:80 | a lookup returns the cached wrapper if there is one; else, when creating, inserts the wrapper `made` and returns it; else returns none and leaves the store; no other entry changes |
| PatchAPI.GetIsIdempotent | src/patchAPI/h/PatchObject.h:80 | once a lookup returned a wrapper, asking again returns the same one and leaves the store as it was |
| PatchAPI.Materialise | src/patchAPI/h/PatchObject.h:121-123 | `create*()` keeps every existing entry and adds the discovered entities that have none |
| PatchAPI.MaterialiseIsIdempotent | src/patchAPI/h/PatchObject.h:129-136 | materialising twice is materialising once, so two visits write the same wrappers |
| PatchAPI.MaterialiseKeepsKeyed | src/patchAPI/h/PatchObject.h:121-123 | materialising keeps every store keyed by the entity each wrapper wraps |
| PatchAPI.PatchObject.constructor | src/patchAPI/h/PatchObject.h:116 | a new object records its code object, base, CFG maker and callback, has no address space and empty stores (the body is not in the header: assumed, see Left out) |
| PatchAPI.PatchObject.CodeBase | src/patchAPI/h/PatchObject.h:70 | returns the stored code base and reads only the object |
| PatchAPI.PatchObject.Co | src/patchAPI/h/PatchObject.h:73 | returns the stored code object and reads only the object |
| PatchAPI.PatchObject.AddrSpace | src/patchAPI/h/PatchObject.h:75 | returns the stored address space and reads only the object |
| PatchAPI.PatchObject.Cb | src/patchAPI/h/PatchObject.h:102 | returns the stored callback and reads only the object |
| PatchAPI.PatchObject.SetAddrSpace | src/patchAPI/h/PatchObject.h:76 | sets the address space and changes nothing else (the body is not in the header: assumed, see Left out) |
| PatchAPI.PatchObject.GetFunc | src/patchAPI/h/PatchObject.h:80 | `getFunc(f, create = true)` behaves as `Get` on the function store; a wrapper returned wraps `f`; the other stores and handles are unchanged |
| PatchAPI.PatchObject.AddFunc | src/patchAPI/h/PatchObject.h:81 | records the wrapper under the function it wraps; nothing else changes |
| PatchAPI.PatchObject.RemoveFunc | src/patchAPI/h/PatchObject.h:82 | drops the entry of the function the wrapper wraps; nothing else changes |
| PatchAPI.PatchObject.RemoveFuncKey | src/patchAPI/h/PatchObject.h:83 | drops the entry of the static function, if any; nothing else changes |
| PatchAPI.PatchObject.CreateFuncs | src/patchAPI/h/PatchObject.h:121 | materialises the discovered functions; nothing else changes |
| PatchAPI.PatchObject.Funcs | src/patchAPI/h/PatchObject.h:129-136 | runs `createFuncs()`, then writes every function wrapper once, in ascending key order; the emit changes no store |
| PatchAPI.PatchObject.GetBlock | src/patchAPI/h/PatchObject.h:87 | `getBlock(b, create = true)` behaves as `Get` on the block store; a wrapper returned wraps `b`; nothing else changes |
| PatchAPI.PatchObject.AddBlock | src/patchAPI/h/PatchObject.h:88 | records the wrapper under the block it wraps; nothing else changes |
| PatchAPI.PatchObject.RemoveBlock | src/patchAPI/h/PatchObject.h:89 | drops the entry of the block the wrapper wraps; nothing else changes |
| PatchAPI.PatchObject.RemoveBlockKey | src/patchAPI/h/PatchObject.h:90 | drops the entry of the static block, if any; nothing else changes |
| PatchAPI.PatchObject.CreateBlocks | src/patchAPI/h/PatchObject.h:122 | materialises the discovered blocks; nothing else changes |
| PatchAPI.PatchObject.Blocks | src/patchAPI/h/PatchObject.h:138-145 | runs `createBlocks()`, then writes every block wrapper once, in ascending key order |
| PatchAPI.PatchObject.GetEdge | src/patchAPI/h/PatchObject.h:95 | `getEdge(e, src = NULL, trg = NULL, create = true)` behaves as `Get` on the edge store; a new edge keeps the endpoints asked for, absent ones included |
| PatchAPI.PatchObject.AddEdge | src/patchAPI/h/PatchObject.h:96 | records the wrapper under the edge it wraps; nothing else changes |
| PatchAPI.PatchObject.RemoveEdge | src/patchAPI/h/PatchObject.h:97 | drops the entry of the edge the wrapper wraps; nothing else changes |
| PatchAPI.PatchObject.RemoveEdgeKey | src/patchAPI/h/PatchObject.h:98 | drops the entry of the static edge, if any; nothing else changes |
| PatchAPI.PatchObject.CreateEdges | src/patchAPI/h/PatchObject.h:123 | materialises the discovered edges; nothing else changes |
| PatchAPI.PatchObject.Edges | src/patchAPI/h/PatchObject.h:147-154 | runs `createEdges()`, then writes every edge wrapper once, in ascending key order |

## Left out

- `open`, `read` and `close` of `/proc/self/maps` are not executed. The model takes whether `open` succeeds, the sequence of `read` replies and whether `malloc` succeeds as parameters. The messages `perror` and `fprintf` print are not modelled.
- `close(fd)` after the read loop has no effect on the result and is not modelled.
- `free(ms)` on a parse error: the partly filled array is simply dropped.
- `strtok`'s NUL writes and its hidden saved position are not modelled as memory. Piece boundaries are computed as positions in the unmodified text; they are the same positions `strtok` and `strlen` find.
- `malloc(0)` for an empty map may return NULL or not; both cases are covered by the `malloc` flag.
- The line counter `num` is an `unsigned`. With at most 2^15 characters it cannot wrap, so it is a `nat`.
- `DYNINSTheap_mmapFdOpen` and `DYNINSTheap_mmapFdClose` open and close `/dev/zero`. They are pure OS calls and are not modelled.
- The POWER low bound is meant to be set from `getpagesize()` when used. Only the `~0` initial values of both POWER bounds are modelled.
- The build macros `MUTATEE64` and `arch_power` become the `HeapPolicy.Config` parameter.
- `PatchObject::create`, `clone`, the copy constructor, the destructor, `copyCFG`, `splitBlock`, `consistency`, `format`, `codeOffsetToAddr`, `addrMask` and `mgr`: their bodies are not in the header. `PatchObject.cpp` is not part of this model.
- `createFuncs`, `createBlocks` and `createEdges` walk the parse layer through the CFG maker. Here the wrappers they would build are a parameter (`found`), and only their effect on the store is modelled (`PatchAPI.Materialise`).
- `getEdge` may look up the endpoint blocks of a new edge when they are not given. The model keeps the endpoints as passed; absent ones stay absent.
- `removeFunc` may detach the function from the blocks it owns. Block ownership is not part of the header's data, so it is not modelled.
- The callback `cb_` is kept only as a handle. The notifications it would receive on adds and removes are not modelled.
- The parse callback `pcb_` is not a field of the model. The header only declares it, and nothing in the header reads or sets it.
- `PatchAPI.PatchObject.constructor`: the header declares only its signature (`PatchObject.h:116`), not its body. That the new object starts with no address space, and that it keeps the CFG maker and callback it is given, null ones included, are assumptions the model makes.
- `PatchAPI.PatchObject.SetAddrSpace`: the header declares only its signature (`PatchObject.h:76`). That it stores the address space it is given and changes nothing else is an assumption the model makes.
- `friend` access from `AddrSpace` and `PatchParseCallback` is not modelled.
- The output iterator of the visitors is modelled as the sequence it writes into.
- `PatchAPI.PatchObject.GetFunc`, `PatchAPI.PatchObject.GetBlock`, `PatchAPI.PatchObject.GetEdge`: the wrapper the CFG maker would build is passed in as `made`. Which wrapper the maker builds is not modelled.
