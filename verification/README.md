# A verified model of the mulex server

These Dafny modules model the stateful parts of the mulex experiment server and prove what they promise.
`dafny verify dfyconfig.toml` checks everything.

The parts, each with its modules:

- **The real-time database** (`Pool`, `Keys`, `Records`, `Extents`, `Rdb`, `Image`, `History`, `Server`).
  Entries live in one byte pool behind an index of pointers. `Rdb.Database` is the imperative program: a byte
  array, an offset, a free list and an index, changed in place. `Records` is the finite map it stands for.
  Each method is proved to do what the map does, with first-fit reuse, splitting, doubling and relocation on
  the way; `Server.Serve` proves it for whole runs, together with the allocator's decisions and the history
  log, up to the first request that the C++ program does not define. `Pool` holds the allocator
  as a function, with its layout invariant and its byte accounting. `Image` is the file a closing database
  leaves, and `Rdb.Restart` the round trip through it.
- **Patterns and listings** (`Keys`, `Matcher`). The range query over the ordered index is a filter by
  prefix. The recursive wildcard matcher is characterised exactly against a declarative glob language.
- **Remote calls** (`Stream`, `Marshal`, `RpcProtocol`, `Wire`). Reassembly of frames from a byte stream;
  argument packing against the offset code that a generator emits; the call and reply protocol of a caller
  and two threads in any interleaving; and `Wire`, which puts framing and marshalling together end to end, and
  says exactly which calls arrive.
- **Events** (`EventSpec`, `Events`, `EventMetadata`). Registry, subscriptions and traffic statistics: one
  list of records as the specification, parallel vectors and maps as the program; and the packed table that
  the server prints and the web frontend parses.
- **Timers** (`Scheduler`), **the client registry** (`Rex`) and **permission masks** (`Permissions`).

`Bytes` holds raw memory and little-endian integers, `Collections` what several modules share.

Sockets, threads, locks and clocks appear as steps, byte queues and time parameters.

## What turned out not to hold

Each of these is stated as a theorem, with the exact condition or a concrete case. Where the C++ program would
leave its buffers or its arithmetic would wrap, the model stops with an outcome of its own, and the theorems say
exactly when.

- `_rdb_offset <= _rdb_size` is no invariant, because the reuse path adds to `_rdb_offset`
  (rdb/mxrdb.cpp:582) and nothing subtracts (`Pool.OffsetPassesSize`). A growing copy then leaves the pool,
  exactly under the guard of `Pool.OverrunExactly`, and so does the copy of a saved image (`Rdb.Database.Save`).
- Sizes of entries are 64-bit sums without a check: `Server.HugeCount` is a request for which the header and the
  data add up to 103 bytes. A create can bring fewer bytes than it asks for, and a history record can be larger
  than the history buffer. `Server.UndefinedExactly` gives the guards, `Server.ShortData` and
  `Server.LongHistory` are two more inputs.
- The matcher's last test looks at the first occurrence of the tail only (mxsystem.cpp:1434), so it rejects
  some targets of the language: `Matcher.MatchExactly` and `Matcher.FirstOccurrenceOnly`.
- The generator writes `constexpr` for an offset that depends on a run-time size when a fixed-size parameter,
  not the last, follows a generic one. Such a case does not compile: `Marshal.CompilesExactly`.
- `SysUnpackArguments` steps over a generic argument without its size prefix (mxsystem.h:115):
  `Marshal.UnpackInvertsExactly`.
- A call announces the size of a generic argument that is passed by name as that of the C++ object, 24 bytes,
  whatever it holds: `SysVargSize` is given the deduced reference type (network/rpc.h:273, mxsystem.h:152), while
  packing deduces the type anew. Unless such arguments happen to pack 24 bytes, the end of the arguments is lost,
  or the client reads past them. `RdbProxyValue::writeEntry` (rdb/mxrdb.cpp:1048) passes its value so:
  `Marshal.AnnouncedSize`, `Wire.DeliversExactly`, `Wire.WriteEntryExactly`. The announced size also has only
  32 bits, and a frame longer than the stream blocks it (`Wire.LongCallBlocks`).
- A void call to a procedure that returns something makes the next typed call return the wrong reply, and a
  typed call to a procedure that returns nothing never returns: `RpcProtocol.RightExactly` says for which
  clients this cannot happen.
- The once-a-second statistics pass counts in 16 bits and does not end with 65535 events:
  `Events.EventTables.Tick`, `Events.TickAtTheLimit`.
- The metadata loop counts in a signed 16-bit variable (network/mxevt.cpp:1073):
  `EventMetadata.GetAllMetadata`, `EventMetadata.NeverEndsExactly`. A reply without events is taken for data by
  the frontend: `EventMetadata.PublishAndParse`, `EventMetadata.NoTable`.
- The first frame of a client that had no statistics entry is counted for the event but not for the client
  (network/mxevt.cpp:913-926): `EventSpec.CountedForClient`, `EventSpec.FirstFrameUncounted`, and over whole runs
  `EventSpec.TotalsAddUp`.

## Model

| member | source | states |
|---|---|---|
| `Pool.FirstFit` | rdb/mxrdb.cpp:571-576 | the first free block that is large enough, or none when there is none |
| `Pool.AllocateKeepsLayout` | rdb/mxrdb.cpp:567-609 | an allocation, by reuse with splitting, at the end, or after any number of doublings, leaves all live extents and free blocks inside the pool and pairwise disjoint, and returns an extent of its own |
| `Pool.ReleaseKeepsLayout` | rdb/mxrdb.cpp:611-627 | freeing a live extent keeps the layout: the block is disjoint from everything left |
| `Pool.CarveBytes` | rdb/mxrdb.cpp:577-595 | splitting or consuming a free block removes exactly the requested bytes from the free list |
| `Pool.AllocateBytes` | rdb/mxrdb.cpp:567-609 | a successful request adds its size to the offset on every path, the reuse path too, and takes from the free list exactly the bytes it reused; a failed one moves nothing |
| `Pool.GrowthBound` | rdb/mxrdb.cpp:462-491 | grow-and-retry terminates from a positive size; a grown pool stays below twice offset plus request and within the limit; a request that fits a free block never grows the pool |
| `Pool.OverrunExactly` | rdb/mxrdb.cpp:567-609 | the model stops if and only if the 64-bit sum of counter and request wraps, or no free block fits, the counter exceeds the size, and the system still has memory for twice the size; it then changes nothing |
| `Pool.GrantedExactly` | rdb/mxrdb.cpp:567-609 | a request is granted if and only if the counter does not wrap and a free block fits, or the end does, or the counter is within the size and some doubling within the limit makes room; it goes to the first block that fits, else to the end |
| `Pool.StepKeeps` | rdb/mxrdb.cpp:567-627 | each take and each drop keeps the layout and the byte balance, and the pool never shrinks |
| `Pool.RunKeeps` | rdb/mxrdb.cpp:567-627 | over every run of takes and drops all live extents and free blocks are disjoint and inside the pool, and the counter equals its start plus all bytes granted, which are the live bytes, the free bytes and the bytes handed out again |
| `Pool.OffsetPassesSize` | rdb/mxrdb.cpp:567-609 | concrete run showing that offset can exceed size: ten times create and delete 112 bytes in 1 KiB, after which the next request that needs growth overruns |
| `Keys.LessTotal` | rdb/mxrdb.cpp:26 | the order of the index is total on keys |
| `Keys.InOrderUnique` | rdb/mxrdb.cpp:126-143 | a set of keys has one listing in the order of std::map |
| `Keys.PrefixRange` | rdb/mxrdb.cpp:918-922 | a key is not below the prefix and below the prefix with its last character incremented if and only if it starts with the prefix |
| `Keys.LowerBound` | rdb/mxrdb.cpp:919-922 | splits the ordered index into the keys below a string and the others |
| `Keys.UnderSlice` | rdb/mxrdb.cpp:918-927 | when the keys starting with a prefix are exactly a range of positions, filtering by the prefix gives that slice, in order |
| `Keys.FindSubkeys` | rdb/mxrdb.cpp:908-929 | nothing for a prefix that does not end in a slash, else exactly the keys that start with it, in order |
| `Records.EntryFields` | mxrdb.h:76-92 | the header of a stored entry gives back modification time, flags, type, size, count, and the data behind it |
| `Records.EntryCreated` | mxrdb.h:76-92 | the header of a stored entry gives back the creation time |
| `Records.EntryUpdate` | rdb/mxrdb.cpp:803-835 | patching the modification time and the data in place is the entry of the updated record |
| `Records.SetHistory` | rdb/mxrdb.cpp:973-977 | sets or clears the history bit and leaves every other flag bit as it is |
| `Records.CreateMeans` | rdb/mxrdb.cpp:629-680 | a granted create of a new key stores, at this time and without flags, a record of its type and count whose bytes are the initial ones, or zeros without any; any other create changes nothing and fails |
| `Records.DeleteMeans` | rdb/mxrdb.cpp:682-707 | a delete removes the key and nothing else, and succeeds exactly when the key is there |
| `Records.WriteMeans` | rdb/mxrdb.cpp:803-835 | a write of the record's length replaces its bytes and modification time and no other field or record; any other changes nothing |
| `Records.ToggleMeans` | rdb/mxrdb.cpp:979-993 | a toggle sets the history flag as asked and changes no other flag, field or record |
| `Records.ReadMeans` | rdb/mxrdb.cpp:756-777 | reading bytes or type changes nothing, and answers with the record's, or nothing and 0xFF |
| `Records.KeysAreIndependent` | rdb/mxrdb.cpp:629-707 | the record of a key after any run is what the requests about that key alone produce: no operation on one key changes another |
| `Records.ReadReturnsLastStored` | rdb/mxrdb.cpp:756-777 | after any run a read returns exactly the bytes last created or written for the key and not deleted since, byte for byte the initial ones of a create, or zeros without any; a wrong-length write, a duplicate create and an unknown delete count as nothing |
| `Records.RunWellFormed` | rdb/mxrdb.cpp:333-343 | in every reachable map the data of a record has the length its count and size say |
| `Extents.HeldFrame` | rdb/mxrdb.cpp:629-680 | writing outside every live extent changes no stored entry |
| `Extents.HeldInside` | rdb/mxrdb.cpp:803-835 | writing inside the extent of one key changes its bytes at that offset and no byte of any other key |
| `Extents.HeldCopy` | rdb/mxrdb.cpp:462-491 | a copy of the used part of the pool holds every entry at the same offset |
| `Rdb.Database.constructor` | rdb/mxrdb.cpp:248-301 | an empty database in a pool of the least multiple of 1024 bytes |
| `Rdb.Database.Load` | rdb/mxrdb.cpp:166-203 | loading a saved image rebuilds every record at its saved offset, in a pool of the least multiple of 1024 that holds the data |
| `Rdb.Database.WriteOffsetMap` | rdb/mxrdb.cpp:126-143 | the listing of the index, each key in order with a NUL and its 64-bit offset |
| `Rdb.Database.Save` | rdb/mxrdb.cpp:205-219 | the file is the two sizes, the listing and the used bytes of the pool; there is none exactly when the counter exceeds the size, where the copy would leave the pool |
| `Rdb.Database.Rebase` | rdb/mxrdb.cpp:477-484 | every index pointer moves to the new pool and keeps its offset |
| `Rdb.Database.Grow` | rdb/mxrdb.cpp:462-491 | doubles the pool, or fails and changes nothing; all entries stay byte for byte at their offsets |
| `Rdb.Database.TakeBlock` | rdb/mxrdb.cpp:577-587 | a free block gives up its front and leaves the list when used up, and the counter grows all the same |
| `Rdb.Database.Allocate` | rdb/mxrdb.cpp:567-609 | refines the allocator on real bytes, its stop at a wrapping sum or an overrunning copy included: same outcome, same pool, every stored entry untouched, and the new header cleared |
| `Rdb.Database.Insert` | rdb/mxrdb.cpp:646-671 | a new entry is stored exactly when the allocator grants it space, at the granted place, and nothing else changes |
| `Rdb.Database.NewEntry` | rdb/mxrdb.cpp:629-680 | a create refines the map: a duplicate or an ungranted one changes no record, a granted one stores exactly the initial bytes, or zeros without data even in a reused block; it is reported undefined exactly when the allocator overruns or granted space is filled from too few bytes |
| `Rdb.Database.DeleteEntry` | rdb/mxrdb.cpp:682-707 | a delete refines the map, and the block given back, read out of the header, is exactly the extent of the entry |
| `Rdb.Database.DataSizeAt` | rdb/mxrdb.cpp:333-343 | count times size in the stored header is the length of the record's data |
| `Rdb.Database.ReadValue` | rdb/mxrdb.cpp:756-777 | returns what the map says, nothing for an unknown key |
| `Rdb.Database.KeyType` | rdb/mxrdb.cpp:957-971 | returns the type of the record, 0xFF for an unknown key |
| `Rdb.Database.WriteValue` | rdb/mxrdb.cpp:803-835 | a write refines the map, wrong-length and unknown-key writes change nothing, places stay; the log grows by exactly one row, with this key, time, type and bytes, when the write is stored and history is on, and otherwise by nothing; reported undefined exactly when that record is larger than the history buffer |
| `Rdb.Database.ToggleHistory` | rdb/mxrdb.cpp:979-993 | changes only the history flag of one record |
| `Rdb.SavedRestorable` | rdb/mxrdb.cpp:126-143 | what an orderly database saves is a restorable image with the same places |
| `Rdb.Restart` | rdb/mxrdb.cpp:166-219 | save then load: the same keys, places and records, the counter of the old database, an empty free list, and the trimmed pool size; possible exactly when the counter is within the pool |
| `Rdb.RoundUpLeast` | rdb/mxrdb.cpp:188-196 | no smaller multiple of 1024 holds the data |
| `Image.FileParts` | rdb/mxrdb.cpp:205-219 | the two sizes, the listing and the pool are found again in the file by their positions |
| `Image.MapBytesAppend` | rdb/mxrdb.cpp:126-143 | one more index entry appends its key, a NUL and its 64-bit offset |
| `Image.FindString` | rdb/mxrdb.cpp:105-110 | one past the first NUL from the index on |
| `Image.ReadEntry` | rdb/mxrdb.cpp:116-123 | one turn of the parser yields the first listed key and offset and stops where the rest of the listing begins |
| `Image.LoadOffsetMap` | rdb/mxrdb.cpp:112-124 | the listing of NUL-free keys is parsed back exactly |
| `Image.PlacesAt` | rdb/mxrdb.cpp:112-124 | without duplicate keys every listed key gets its listed offset |
| `History.DecodeEncoded` | rdb/mxrdb.cpp:405-437 | the flush recovers key, type, time and data of a record from its own header, and the start of the next record |
| `History.NextRecord` | rdb/mxrdb.cpp:405-437 | at a record boundary inside an encoded run the walk reads the first record and lands on the next boundary |
| `History.Buffer.Flush` | rdb/mxrdb.cpp:405-437 | moves every buffered record to the table in order and visits exactly the record boundaries: table followed by buffer is unchanged |
| `History.Buffer.Add` | rdb/mxrdb.cpp:439-460 | the log gains exactly the new record, at its end, whether or not a flush was needed; reported undefined exactly when the record is larger than the whole buffer |
| `Server.ServeOne` | network/rpc.cpp:349-407 | one request: reply, records, pool and places are the specified ones, with a create granted exactly when the allocator has room; there is no reply exactly for an undefined request |
| `Server.UndefinedExactly` | rdb/mxrdb.cpp:567-680 | the guards of an undefined request: a new key whose size wraps the counter, or whose growing copy leaves the pool, or that is granted more bytes than it brings, when it brings any (an empty argument is a null pointer); or a stored write whose history record exceeds the buffer |
| `Server.GrantedWhen` | rdb/mxrdb.cpp:567-609 | a create is granted if and only if its key is new and header and data fit a free block, or the end, or a doubled pool |
| `Server.HugeCount` | rdb/mxrdb.cpp:570 | concrete undefined request in any store: a new key of 2^64 - 1 one-byte values, for which the sum of header and data is 103 |
| `Server.ShortData` | rdb/mxrdb.cpp:660-668 | concrete undefined request: a new 64-bit integer with one initial byte |
| `Server.LongHistory` | rdb/mxrdb.cpp:439-460 | concrete undefined request: 8 bytes written under a key with history on, with a history buffer of 540 bytes; with 544 bytes it is defined |
| `Server.OneMore` | rdb/mxrdb.cpp:629-835 | a run can be continued by a request exactly when that request is defined in the store the run leads to |
| `Server.ReplyAt` | rdb/mxrdb.cpp:629-835 | each reply of a run is the map's reply to that request, at its point of the run |
| `Server.Serve` | network/rpc.cpp:349-407 | over every sequence of requests, with reuse, splitting and relocation: replies and records are those of the finite map, pool and places those of the allocator, the history log gains exactly the stored writes in order, and the run stops early exactly at the first undefined request |
| `Server.RunIsMapRun` | rdb/mxrdb.cpp:629-835 | the records after any run are those of the finite map under the requests of that run |
| `Server.LogIsHistory` | rdb/mxrdb.cpp:829-832 | the rows of a run are, in order, one for each write of the right length to a key whose history was last toggled on since its creation, with that write's time and bytes and the key's type |
| `Matcher.IndexOf` | mxsystem.cpp:1400-1421 | the first occurrence of a character |
| `Matcher.Find` | mxsystem.cpp:1426-1434 | the first occurrence of a substring |
| `Matcher.AfterStar` | mxsystem.cpp:1417-1435 | from a star on, greedy leftmost search accepts exactly the glob language restricted by the condition on the tail |
| `Matcher.Leftmost` | mxsystem.cpp:1417-1430 | the exchange argument: choosing the first occurrence of a middle piece loses no match and keeps the tail condition |
| `Matcher.MatchExactly` | mxsystem.cpp:1382-1439 | the matcher says yes if and only if the target is in the pattern's language, in which the first slash-star-slash may also stand for one slash, and the tail occurs only at the end of what the pieces leave |
| `Matcher.MatchSound` | mxsystem.cpp:1382-1439 | every match is in the language |
| `Matcher.MatchDecides` | mxsystem.cpp:1382-1439 | when the text after the last star is empty or occurs in the target only at its end, the matcher decides the language |
| `Matcher.FirstOccurrenceOnly` | mxsystem.cpp:1434 | concrete pattern and target in the language that the matcher rejects, because the tail occurs earlier too |
| `Matcher.OneSlashForThree` | mxsystem.cpp:1406-1415 | concrete pattern and target the matcher accepts beyond the glob language: slash-star-slash standing for one slash |
| `Matcher.ListSubkeys` | rdb/mxrdb.cpp:931-955 | a plain directory is answered by the range query, a pattern by exactly the matching keys in order |
| `Matcher.MatchingAscends` | rdb/mxrdb.cpp:943-953 | the keys a pattern selects come in key order |
| `Stream.ByteStream.Push` | mxsystem.cpp:685-703 | appends the chunk if it fits and otherwise waits |
| `Stream.ByteStream.Fetch` | mxsystem.cpp:705-742 | hands out exactly the frame at the front once it is complete, leaves the residue at the front of the buffer, and otherwise waits |
| `Stream.RunConserves` | mxsystem.cpp:685-742 | fetched bytes followed by the residue are always the pushed bytes, and the buffer never exceeds its capacity |
| `Stream.Reassembly` | mxsystem.cpp:685-742 | for every chunking and every interleaving the fetched frames are the sent frames in order, and all of them once everything is pushed and no whole frame is left |
| `Stream.NeverDeadlocked` | mxsystem.cpp:685-742 | when every frame with every chunk exceeds the capacity by at most one byte, push and fetch are never both blocked |
| `Stream.TightDeadlock` | mxsystem.cpp:685-742 | one byte more and they can be: any such frame and chunk sizes deadlock |
| `Stream.FetchedFit` | mxsystem.cpp:685-742 | no run fetches a frame longer than the capacity |
| `Stream.Completes` | mxsystem.cpp:685-742 | when every frame with every chunk exceeds the capacity by at most one byte, every run can be continued until all frames have been fetched |
| `Marshal.Pack` | mxsystem.h:84-98 | the packed buffer is the encodings of all arguments one after another |
| `Marshal.AnnouncedSize` | mxsystem.h:149-166 | a generic argument passed by name is announced as 24 bytes whatever it holds (its deduced type is a reference, network/rpc.h:273): the announced and the packed size differ by what these arguments pack less 24 bytes each, and agree if and only if that is 0 |
| `Marshal.GenerateCase` | network/mxrpcgen.py:558-642 | emits one offset declaration for every parameter but the last and one access for every parameter |
| `Marshal.OffsetsAreStarts` | network/mxrpcgen.py:558-586 | the emitted offset expressions evaluate, on any packed buffer, to where the packer put the arguments |
| `Marshal.DispatcherInvertsPacking` | network/mxrpcgen.py:558-642 | for every signature the generated accesses on the packed buffer yield every original argument |
| `Marshal.CutLosesLast` | network/mxrpcgen.py:558-642 | on a packed buffer cut short anywhere the generated accesses do not yield the last argument |
| `Marshal.CompilesExactly` | network/mxrpcgen.py:560-586 | the emitted constexpr offsets are constant expressions if and only if no fixed-size parameter other than the last follows a generic one |
| `Marshal.ReplyRoundTrip` | network/rpc.h:305-322 | the caller reads back the value the generated reply encoding carries; a reply is empty only for a type of size 0 |
| `Marshal.UnpackInvertsExactly` | mxsystem.h:100-141 | the template unpacker inverts packing for all arguments if and only if a generic parameter comes only last |
| `RpcProtocol.EveryCallGetsItsReply` | network/rpc.h:255-368 | in every disciplined interleaving each typed call returns what the server computed for that very call, and the return stack is empty whenever no typed call waits |
| `RpcProtocol.ReachesInv` | network/rpc.cpp:195-232 | in every reachable state at most one non-empty reply is on its way, and it belongs to the waiting call |
| `RpcProtocol.StepMeans` | network/rpc.cpp:195-232 | a call queues its request, the server answers the oldest request, and the receiving thread takes the oldest reply, on the stack if it carries anything |
| `RpcProtocol.WaitingProgresses` | network/rpc.cpp:349-407 | a waiting typed call can always pop, or one of the two threads can bring its reply nearer |
| `RpcProtocol.EveryCallIsServed` | network/rpc.cpp:349-407 | from every reachable state the server alone, by as many steps as there are requests, serves every call made so far, void calls too |
| `RpcProtocol.RightExactly` | network/rpc.h:255-415 | a client gets right results and progress in every interleaving if and only if its typed calls go to procedures with a reply and its void calls do not, unless it makes no typed calls |
| `RpcProtocol.VoidCallMisleads` | network/rpc.h:325-368 | without the discipline it fails: a void call to a procedure with a reply makes the next typed call return the wrong reply |
| `RpcProtocol.TypedCallOfVoidHangs` | network/rpc.cpp:195-232 | a typed call to a procedure without reply waits for ever |
| `Wire.Send` | network/rpc.h:271-287 | the bytes sent for a call are its header with the announced size in 32 bits and as many bytes of the packed arguments; an outcome of its own exactly where more is announced than was packed and the copy would read past it |
| `Wire.FrameParts` | network/rpc.h:37-44 | what is sent for a call is one frame of the stream format, and client, procedure, message id and the announced bytes are found again in it |
| `Wire.ArrivesAsAnnounced` | network/rpc.h:271-287 | a call goes out and its dispatcher recovers it with all arguments if and only if it announces what it packed |
| `Wire.DeliversExactly` | network/rpc.h:271-287 | in sizes: a call arrives if and only if its packed arguments are fewer than 2^32 bytes and its generic arguments passed by name pack 24 bytes on average (modulo 2^32 from 2^16 arguments on) |
| `Wire.TemporariesArrive` | network/rpc.h:271-287 | a call without generic arguments passed by name arrives if and only if its packed arguments are fewer than 2^32 bytes |
| `Wire.WriteEntryExactly` | rdb/mxrdb.cpp:1042-1050 | a value written through the proxy, by name, arrives if and only if it has 16 bytes; with fewer the client reads past what it packed |
| `Wire.WriteEntryOf100` | rdb/mxrdb.cpp:1042-1050 | with 100 bytes 620 are packed, 536 announced and sent, and the value is lost |
| `Wire.WriteEntryOf4` | rdb/mxrdb.cpp:1042-1050 | with 4 bytes 524 are packed and 536 announced |
| `Wire.CallsArrive` | network/rpc.cpp:349-407 | end to end: however the network cuts the bytes of the calls sent, the fetched frames are those of the first calls in order, each delivers its call if and only if it announces what it packed, and when everything is pushed and no whole frame is left all have been fetched |
| `Wire.LongCallBlocks` | mxsystem.h:280 | a call whose frame is longer than the stream is never fetched, nor any call after it |
| `Wire.CallsComplete` | mxsystem.cpp:685-742 | when every frame with every chunk exceeds the stream by at most one byte, every run can be continued until all calls have been fetched |
| `Wire.ReplyArrives` | network/rpc.cpp:195-232 | a reply is one frame of the reply format and the caller reads the returned value out of it |
| `EventSpec.RunInv` | network/mxevt.cpp:890-996 | over every run names are distinct, every subscriber has a statistics entry, and the clients' counts never exceed the event's total |
| `EventSpec.ApplyInv` | network/mxevt.cpp:759-816 | each single operation keeps that invariant |
| `EventSpec.RegisterMeans` | network/mxevt.cpp:759-777 | a registration adds an empty event at the end unless the name is known, and no operation changes a name |
| `EventSpec.SubscribersAfter` | network/mxevt.cpp:792-816 | subscribing adds the client to the named event, unsubscribing removes it there, disconnecting everywhere, and no other operation changes the subscribers |
| `EventSpec.TotalAfter` | network/mxevt.cpp:895-944 | an event's total grows by the bytes of its frames, is 0 after a reset, and otherwise stays |
| `EventSpec.EntryAfter` | network/mxevt.cpp:895-996 | what every operation makes of one client's count: an entry of 0 on subscribing, none after leaving, bytes added to an existing one, 0 after a reset, and otherwise the same |
| `EventSpec.RegisteredExactly` | network/mxevt.cpp:779-790 | a name has an id exactly when it was registered in the run |
| `EventSpec.ReceivesExactly` | network/mxevt.cpp:792-816 | in every run a client is a receiver of an event if and only if an accepted subscription comes after its last unsubscription and its last disconnect |
| `EventSpec.GoneUntilBack` | network/mxevt.cpp:471-499 | after a disconnect the client is in no subscription and no entry until it subscribes or sends again, whatever others do and whatever is still sent to it |
| `EventSpec.CountedForClient` | network/mxevt.cpp:895-930 | a frame is added to the event's total always, and to the client's own count if and only if the client already had an entry |
| `EventSpec.FirstFrameUncounted` | network/mxevt.cpp:913-926 | concrete run in which a client's first frame counts for the event and not for the client |
| `EventSpec.TotalsAddUp` | network/mxevt.cpp:890-996 | in every run an event's total is exactly its clients' counts, plus the frames whose client had no entry, plus the counts of clients that left, since the last reset |
| `EventSpec.IdsAreStable` | network/mxevt.cpp:759-790 | the id of a registered name never changes |
| `EventSpec.IdUnique` | network/mxevt.cpp:779-790 | the id of a name is the position of the one event that has it |
| `Events.EventTables.GetId` | network/mxevt.cpp:779-790 | the id of a name, 0 for an unknown one |
| `Events.EventTables.Register` | network/mxevt.cpp:759-777 | registers a new name in every table at the next id and refuses a known one; the 65536th name gets id 0 and no statistics |
| `Events.EventTables.MakeStatsEntry` | network/mxevt.cpp:965-975 | adds the client to one event's entry with count 0 unless it is there |
| `Events.EventTables.DeleteStatsEntry` | network/mxevt.cpp:977-988 | removes the client from both aligned vectors of one event |
| `Events.EventTables.Subscribe` | network/mxevt.cpp:792-816 | the tables after the call stand for the board with the subscription and the entry added; unknown events and the server itself are refused |
| `Events.EventTables.UnsubscribeId` | network/mxevt.cpp:1087-1117 | removes subscription and entry together, or changes nothing when the client is not subscribed |
| `Events.EventTables.Unsubscribe` | network/mxevt.cpp:1081-1085 | the same by name |
| `Events.EventTables.Disconnect` | network/mxevt.cpp:471-499 | the client leaves every subscription and every entry, and nothing else changes |
| `Events.EventTables.PurgeClient` | network/mxevt.cpp:990-996 | completes a disconnect over all events |
| `Events.EventTables.Accumulate` | network/mxevt.cpp:895-930 | counts a frame for its event and for its client, if the client already had an entry, and makes a missing entry only when asked |
| `Events.EventTables.Tick` | network/mxevt.cpp:864-883 | hands out the statistics as they are and clears every counter, keeping the entries; the 16-bit pass ends if and only if there are at most 65534 events |
| `Events.TickAtTheLimit` | network/mxevt.cpp:878-882 | a run that registers 65535 events, after which the pass does not end |
| `Events.Perform` | network/mxevt.cpp:759-996 | every operation on the tables is the operation on the board |
| `Events.EmitAfter` | network/mxevt.cpp:543-589 | after any run on the tables an emitted event goes to exactly the clients whose accepted subscription comes after their last unsubscription and disconnect |
| `Events.EventTables.ResetStatistics` | network/mxevt.cpp:932-944 | clears the counters of one event and of its clients |
| `Events.EventTables.Emit` | network/mxevt.cpp:543-589 | an event goes to exactly its subscribers, an unknown one to nobody |
| `Events.Lookup` | network/mxevt.cpp:779-790 | the registry map and the board agree on every id |
| `Events.IoErase` | network/mxevt.cpp:977-988 | erasing one position of the two aligned vectors removes exactly that client from the map they stand for |
| `Events.IoUpdate` | network/mxevt.cpp:916-926 | changing one counter changes that client's count only |
| `EventMetadata.SizeIsExact` | network/mxevt.cpp:998-1017 | the size computed beforehand is exactly the length of all records |
| `EventMetadata.PopulateMetadataBuffer` | network/mxevt.cpp:1031-1065 | seven copies behind one another write exactly the record, change nothing else, and return the end of it |
| `EventMetadata.GetAllMetadata` | network/mxevt.cpp:1067-1079 | fills the buffer exactly with all records up to 32767 events and writes nothing above; the loop ends except for 32767, and the result is the complete table if and only if there are at most 32766 events |
| `EventMetadata.NeverEndsExactly` | network/mxevt.cpp:1073 | no 16-bit value of the count ends the loop if and only if there are 32767 events |
| `EventMetadata.ZerosIncomplete` | network/mxevt.cpp:1067-1079 | a buffer to which nothing was written is not the table of any events |
| `EventMetadata.Unpack` | frontend/src/lib/convert.ts:376-483 | parses a reply column by column and row by row until its end, with the size prefix skipped only when something follows it; nothing for an empty reply |
| `EventMetadata.SignedRoundTrip` | frontend/src/lib/convert.ts:419-443 | a signed column of any width is read back from its two's complement bytes |
| `EventMetadata.ColumnMeans` | frontend/src/lib/convert.ts:411-451 | boolean, floating-point and integer columns: what they hold, how far they move on, and that none reads past the view |
| `EventMetadata.TableParses` | frontend/src/lib/convert.ts:376-483 | the parser recovers every id, name, total, client list and frame list of a printed table |
| `EventMetadata.PublishAndParse` | network/mxevt.cpp:1067-1079 | from the server snapshot through the reply to the frontend, the rows are exactly the events if and only if there are 1 to 32766 |
| `EventMetadata.RowCells` | network/mxevt.cpp:1031-1065 | the five cells of an event: its id, name, total, and the words of its client and frame lists |
| `EventMetadata.NoTable` | frontend/src/lib/convert.ts:383-385 | a reply without events is taken for a row that it is too short for |
| `EventMetadata.WordsParse` | frontend/src/EventsViewer.tsx:91-114 | the byte columns are read back as the client ids and the frame counters |
| `EventMetadata.HalvesMean` | frontend/src/lib/utils.ts:62-67 | a counter holds sent bytes in its low half and received ones in its high half, and gives back both |
| `EventMetadata.ComputeClientsIo` | frontend/src/EventsViewer.tsx:91-114 | tabulates the two byte columns under hexadecimal ids, with the two halves of each counter; nothing exactly for empty, unequal or ragged columns |
| `EventMetadata.ClientsFound` | frontend/src/EventsViewer.tsx:103-113 | for clients without repetition the frontend finds each one's read and write counts under its hexadecimal id, and nothing else |
| `EventMetadata.SizesAgree` | frontend/src/lib/convert.ts:190-224 | the sizes of the frontend and of the database (rdb/mxrdb.cpp:493-512) agree for every type but strings |
| `EventMetadata.UnknownTypeHasNoSize` | rdb/mxrdb.cpp:493-512 | a type the frontend does not know has size 0 in the database |
| `Scheduler.ReachesInv` | mxsystem.cpp:860-944 | in every reachable state each queued or running task is the one it was scheduled as, due after exactly the executions it has had |
| `Scheduler.ExecutionsArePunctual` | mxsystem.cpp:860-944 | in every run no execution starts before its time, execution k of a recurring task is due k intervals after the first, and a one-shot task runs at most once |
| `Scheduler.RecurringTasksSurvive` | mxsystem.cpp:875-903 | a recurring task is always in exactly one place, once in the queue or in execution |
| `Scheduler.ScheduleMeans` | mxsystem.cpp:935-944 | a scheduled task is queued, due after its delay, and nothing else changes |
| `Scheduler.PollMeans` | mxsystem.cpp:881-894 | a due top leaves the queue, and runs and is logged exactly when it can be called; without a due task nothing changes |
| `Scheduler.FinishMeans` | mxsystem.cpp:894-903 | a recurring task whose job returned is queued again one interval later, any other is gone |
| `Scheduler.DueTaskRuns` | mxsystem.cpp:864-905 | every due task that can be called is brought to execution by finitely many polls and returns of jobs, even if the clock stands still, whatever else is due |
| `Scheduler.EventLoop.Schedule` | mxsystem.cpp:928-944 | queues the task with its first time, the delay from now |
| `Scheduler.EventLoop.Top` | mxsystem.h:242-253 | the top of the queue is a task with the least time |
| `Scheduler.EventLoop.Poll` | mxsystem.cpp:881-894 | if a task is due one with the least time leaves the queue and is started exactly when it can be called; else nothing changes |
| `Scheduler.EventLoop.Finish` | mxsystem.cpp:894-903 | queues a recurring task again, one interval after its last time |
| `Rex.HexRoundTrip` | mxsystem.cpp:1277-1282 | every 64-bit id is parsed back from its hexadecimal text |
| `Rex.HexDigits` | mxsystem.cpp:1277-1282 | the digits are hexadecimal, lower case, most significant first |
| `Rex.SplitOnTokenSkipCommas` | mxsystem.cpp:1189-1212 | one pass with a flag and a last index yields the pieces between the tokens outside quotes |
| `Rex.JoinSplit` | mxsystem.cpp:1189-1212 | joining the pieces with the token restores the input |
| `Rex.SplitExactly` | mxsystem.cpp:1189-1212 | the pieces are the only list that joins to the input, holds no token outside quotes, and is separated by tokens outside quotes |
| `Rex.InsideIsParity` | mxsystem.cpp:1196-1200 | a text ends inside quotes exactly when the number of its quotes says so |
| `Rex.FieldsOfLine` | rexs/mxrexs.cpp:352-358 | a printed line gives back id, directory, command line, name and binary |
| `Rex.ParseClientInfoLine` | rexs/mxrexs.cpp:648-673 | returns the fields of any line, where a missing field repeats the last one, fails only where the id does not convert, and inverts printing |
| `Rex.ArgumentsRecovered` | rexs/mxrexs.cpp:658-662 | a command line joined from a program and arguments without free spaces gives back the arguments |
| `Rex.ReplacedUpdates` | rexs/mxrexs.cpp:585-599 | rewriting every line of an id is a map update when the id is there and nothing otherwise |
| `Rex.ReplacedDeletes` | rexs/mxrexs.cpp:624-638 | leaving out every line of an id removes it from the map and nothing else |
| `Rex.AppendedCreates` | rexs/mxrexs.cpp:553-568 | appending a line adds the id and keeps ids unique if and only if the id is new |
| `Rex.Registry.CreateClientInfo` | rexs/mxrexs.cpp:553-568 | appends one line to the file |
| `Rex.Registry.UpdateClientInfo` | rexs/mxrexs.cpp:570-607 | succeeds exactly when the id is registered, then updates the map; otherwise leaves the file untouched |
| `Rex.Registry.DeleteClientInfo` | rexs/mxrexs.cpp:609-646 | succeeds exactly when the id is registered, then removes it; otherwise leaves the file untouched |
| `Rex.Registry.GetClientInfo` | rexs/mxrexs.cpp:675-697 | finds exactly the registered clients, with what was registered |
| `Rex.Registry.Announce` | mxsystem.cpp:401-416 | update, and create after a failed update, sets the entry and keeps ids unique |
| `Permissions.WordSubset` | mxrdb.h:226-229 | the masked comparison of two words is inclusion of their bits |
| `Permissions.PdbPermissions.Set` | mxrdb.h:231-235 | afterwards exactly the old permissions and the new one test true |
| `Permissions.TestIsSubset` | mxrdb.h:226-229 | the two-word test is inclusion of the sets the masks stand for |
| `Permissions.CalculatePermission` | network/mxrpcgen.py:716-728 | exactly the bits of the listed permissions' numbers are set |
| `Permissions.RoleHasExactly` | network/mxrpcgen.py:734-752 | a permission belongs to a role if and only if the first entry of that name lists it |
| `Permissions.GenerateCases` | network/mxrpcgen.py:759-767 | one case for each method, with the mask of what it requires |
| `Permissions.GetUserPermissions` | network/mxrpcgen.py:730-752 | the mask tests true for exactly the permissions of the first entry of the role's name, and for none if there is no such entry |
| `Permissions.CheckIsSubset` | network/mxrpcgen.py:754-772 | the generated check is true for a known method if and only if the role has permission 0 or every permission the method requires, and for an unknown method only with permission 0 |
| `Permissions.MayCall` | network/mxrpcgen.py:708-772 | from the tables to the decision: a role may call a method if and only if its first entry lists permission 0, or the method is known and the entry lists every permission it requires; an unknown role may call only what requires nothing |

## Left out

- Pool.Allocate: the model stops at the first wrap of the 64-bit byte counter, also where the C++ program would still reuse a free block.
- Rdb.Database.NewEntry: what an undefined create or write leaves behind is not modelled; the model reports it with nothing done.
- Rdb.Database.WriteValue: keys are shorter than 512 bytes, as the fixed-size key type demands.
- Rdb.Database.Load: images that `Rdb.Database.Save` can have written; other files, and the pool sizes near 2^64 whose rounding would wrap, are not possible inputs.
- Rdb.Restart: one start of the process for each image, so that the free list begins empty.
- Keys.FindSubkeys: an empty prefix, whose last character the source reads, is not a possible input.
- Matcher.MatchExactly: patterns in which every star follows a slash and, where the first star is the second character, targets that begin with a slash, as the source's own comment on patterns asks.
- Stream.ByteStream.Fetch: the destination is as large as the stream, as with all callers; the two waits are one step, and unblocking on shutdown is not modelled.
- Marshal.UnpackInvertsExactly: parameter types have at least one byte; the variant that takes a whole binary buffer is left out. Reading outside the buffer is None.
- Wire.CallsArrive: header layouts are those of a 64-bit little-endian platform (32-byte call header, 8-byte return header, 24-byte generic object). A constant temporary counts as passed by name.
- Wire.ReplyArrives: replies are shorter than 2^32 bytes.
- RpcProtocol.EveryCallGetsItsReply: calls on one client are serialised; which procedures they may go to is settled by RightExactly.
- Records.EntryFields: the header is that of a 64-bit Linux platform (104 bytes, with a 56-byte lock whose bytes are zero); the history header has 536 bytes.
- Events.EventTables.Accumulate: event ids of frames are not 0, which the listening thread rejects before, and counters do not wrap at 2^64.
- Events.EventTables.Register: after the 65536th name only the registry is stated; the tables are modelled up to there.
- Events.EventTables.Emit: gives the set of receivers; the queues to their sockets are left out.
- EventMetadata.PopulateMetadataBuffer: names fit their 32-byte field.
- EventMetadata.Unpack: the zero-terminated column type, whose length is that of decoded text, and unknown type names are left out; floating-point columns are given as their bytes, and the view starts at byte offset 0 of its buffer.
- Scheduler.ReachesInv: the running phase only; shutdown while a recurring task is in flight is left out. The worker is one thread, and a job's own effects are not modelled.
- Rex.Registry.GetClientInfo: for files this program wrote, where fields hold neither the separator nor a newline and ids always convert; prefixes, signs and blanks that the number parser of the C++ library also accepts are left out.
- Permissions.CalculatePermission: permission numbers below 128; a larger one makes the generator print a literal too wide for its word.
- Locks, threads, condition variables, sockets and clocks: they are the steps and parameters of the models.
- SQLite and all query building; the history table is a sequence of rows, and reading the history back is not modelled.
- Watch events sent after writes, access and performance statistics, and metadata dumps.
- File transfer, HTTP and its tokens, run control, plugins, drivers, process spawning, the hosts file, argument parsing, bindings and the user interface.
