# Distributed disk register: a Dafny model

This project models the core of a small leader-routed, replicated id → text register written in Java with gRPC.

Every node runs the same process. It has:
- a membership registry, a set of `{host, port}` descriptors;
- a storage engine: an in-memory id → text map backed by one `<id>.msg` file per id;
- the gRPC handlers its peers call: `join`, `getFamily`, `store`, `retrieve`, `receiveChat` and `getCount`.

The node bound to port 5555 is also the leader. It reads text lines from clients:
- `SET <id> <text>` replicates the text round-robin to up to `TOLERANCE` other nodes and records where it went in `messageLocations`;
- `GET <id>` asks the recorded holders in order;
- any other line is broadcast as a chat to every other member.

At startup each node joins through every lower port, and it reads `tolerance.conf`. A periodic health check evicts members that do not answer.

Remote calls, the disk and the configuration file become inputs:
- `store`, `retrieve`, `probe` and `join` are functions saying what each remote call answers;
- a `Directory` object holds the files as a map from name to contents;
- flags say whether a write or a read succeeds.

Modules, one per concern:
- `JavaString` and `LineReader`: the Java library behaviour the code relies on, namely `trim`, `Integer.parseInt`/`toString`, `split`, `replace`, `toUpperCase` and `BufferedReader.readLine`.
- `Nodes`, `Registry`: descriptors and the registry.
- `StorageFiles`, `BufferedStorage`, `UnbufferedStorage`: the two storage engines and their shared file layout and startup scan.
- `FamilyService`: the gRPC handlers.
- `Replication`: the leader's replica choice and read fallback, as functions.
- `ClientProtocol`: line classification and the tolerance file.
- `Leader`: the `NodeMain` state and its commands.

Three consequences of the leader's code that the model keeps:
- SET never writes to the leader's own storage.
- The recorded placement holds only the remote nodes whose Store succeeded, so it has at most `TOLERANCE` entries. A SET with no such node is answered `NOT_FOUND (Yazilacak uygun dugum bulunamadi)`.
- GET never consults the leader's own storage; it answers only from the recorded holders.

Source paths below are relative to the repository root.

## Model

| member | source | states |
|---|---|---|
| Registry.NodeRegistry.constructor | distributed-disk-register/distributed-disk-register/src/main/java/com/example/family/NodeRegistry.java:12 | a new registry has no members |
| Registry.NodeRegistry.Add | distributed-disk-register/distributed-disk-register/src/main/java/com/example/family/NodeRegistry.java:14-16 | the set becomes old ∪ {n}; it never shrinks; adding a member already present changes nothing |
| Registry.NodeRegistry.AddAll | distributed-disk-register/distributed-disk-register/src/main/java/com/example/family/NodeRegistry.java:18-20 | the set becomes old ∪ view; it never shrinks; once every member of the view is present the call changes nothing, so applying a view twice equals applying it once |
| Registry.NodeRegistry.Snapshot | distributed-disk-register/distributed-disk-register/src/main/java/com/example/family/NodeRegistry.java:22-24 | the list holds exactly the current members, each once, as many as the set has; the set is not changed |
| Registry.NodeRegistry.Remove | distributed-disk-register/distributed-disk-register/src/main/java/com/example/family/NodeRegistry.java:26-28 | the set becomes old − {n}; it never grows; removing a non-member changes nothing |
| JavaString.Trim | distributed-disk-register/distributed-disk-register/src/main/java/com/example/family/NodeMain.java:98 | `String.trim` strips every char ≤ U+0020: the result is the slice of the input that starts after its leading blanks, every char after the slice is blank, the slice starts and ends with a non-blank, and it is empty exactly when every char is blank |
| JavaString.TrimIdempotent | distributed-disk-register/distributed-disk-register/src/main/java/com/example/family/NodeMain.java:98 | trimming twice equals trimming once |
| JavaString.TrimAppendBlank | distributed-disk-register/distributed-disk-register/src/main/java/com/example/family/BufferedStorageService.java:71 | a trailing line break appended before `trim` makes no difference |
| JavaString.ParseInt | distributed-disk-register/distributed-disk-register/src/main/java/com/example/family/NodeMain.java:107 | `Integer.parseInt` succeeds exactly on an optional '+' or '-' followed by at least one ASCII digit whose value fits in 32 bits, and then answers that value, negated after '-'; leading zeros are accepted |
| JavaString.ParseIntIgnoresZeroAndPlus | distributed-disk-register/distributed-disk-register/src/main/java/com/example/family/NodeMain.java:107 | a leading '0' or a '+' in front of digits does not change what they parse to: "007" and "+7" parse as "7" does |
| JavaString.NatToString | distributed-disk-register/distributed-disk-register/src/main/java/com/example/family/BufferedStorageService.java:36 | the decimal form of an id is a non-empty digit string whose value is the number and which has no leading zero |
| JavaString.ParseIntToString | distributed-disk-register/distributed-disk-register/src/main/java/com/example/family/NodeMain.java:107 | the decimal form of every Java int parses back to that int |
| JavaString.SplitLimit | distributed-disk-register/distributed-disk-register/src/main/java/com/example/family/NodeMain.java:101 | `split(" ", 3)` yields between one and three parts |
| JavaString.SplitAtFirst | distributed-disk-register/distributed-disk-register/src/main/java/com/example/family/NodeMain.java:101 | the first part of a split ends at the first separator and the rest is split with one part fewer |
| JavaString.RemoveAllSuffix | distributed-disk-register/distributed-disk-register/src/main/java/com/example/family/BufferedStorageService.java:84 | `replace(".msg", "")` on `<digits>.msg` gives back the digits |
| JavaString.UpperCase | distributed-disk-register/distributed-disk-register/src/main/java/com/example/family/NodeMain.java:102 | upper-casing keeps the length and maps each char on its own |
| LineReader.ReadLinesKeepText | distributed-disk-register/distributed-disk-register/src/main/java/com/example/family/BufferedStorageService.java:62-66 | `readLine` drops nothing but the terminators: the lines it returns, run together, are the text with every "\n" and "\r" removed |
| LineReader.ReadLinesCount | distributed-disk-register/distributed-disk-register/src/main/java/com/example/family/BufferedStorageService.java:62-66 | `readLine` returns one line per terminator ("\r\n" counts once, a lone "\n" or "\r" once each), plus one when the text does not end with a line break; nothing for an empty text |
| LineReader.FirstLineBeforeBreak | distributed-disk-register/distributed-disk-register/src/main/java/com/example/family/NodeMain.java:333-334 | a text that starts with a break-free line and a terminator is first read as exactly that line, whatever follows |
| LineReader.ReadLinesHaveNoBreaks | distributed-disk-register/distributed-disk-register/src/main/java/com/example/family/BufferedStorageService.java:62-66 | no line returned by `readLine` contains "\n" or "\r" |
| LineReader.SingleLine | distributed-disk-register/distributed-disk-register/src/main/java/com/example/family/BufferedStorageService.java:62-66 | non-empty text without a line break is read as exactly that one line |
| LineReader.JoinReadLines | distributed-disk-register/distributed-disk-register/src/main/java/com/example/family/BufferedStorageService.java:62-66 | without '\r', appending each line plus "\n" rebuilds the file's contents, plus at most one "\n" |
| LineReader.BufferedReadAgreesWithRaw | distributed-disk-register/distributed-disk-register/src/main/java/com/example/family/BufferedStorageService.java:62-71 | without '\r', the buffered engine's disk read equals the unbuffered engine's trim of the raw contents |
| LineReader.CarriageReturnSplitsLines | distributed-disk-register/distributed-disk-register/src/main/java/com/example/family/BufferedStorageService.java:62-66 | "a\rb" is read as the two lines "a" and "b" |
| LineReader.BufferedReadRewritesCarriageReturn | distributed-disk-register/distributed-disk-register/src/main/java/com/example/family/BufferedStorageService.java:62-71 | with a lone '\r' the two engines differ: the buffered read of "a\rb" is "a\nb", the raw trim is "a\rb" |
| StorageFiles.FileNameRoundTrip | distributed-disk-register/distributed-disk-register/src/main/java/com/example/family/BufferedStorageService.java:84 | the file name `put` writes for an id ends with ".msg", and the startup scan parses it back to the same id |
| StorageFiles.LoadFromDiskToMemory | distributed-disk-register/distributed-disk-register/src/main/java/com/example/family/BufferedStorageService.java:77-92 | the startup scan loads exactly the ids of the readable `*.msg` files whose stem parses as an int, each holding the trimmed contents of such a file; other names are skipped |
| StorageFiles.PutKeepsCanonical | distributed-disk-register/distributed-disk-register/src/main/java/com/example/family/BufferedStorageService.java:36 | writing an id's own file keeps every loadable file named as `put` names it |
| StorageFiles.RecoveredFromOwnFile | distributed-disk-register/distributed-disk-register/src/main/java/com/example/family/BufferedStorageService.java:77-92 | in such a directory the scan loads each id from that id's own file, trimmed |
| StorageFiles.ColdRestartAfterPut | distributed-disk-register/distributed-disk-register/src/main/java/com/example/family/BufferedStorageService.java:77-92 | in a directory where every loadable `*.msg` file is named as `put` names it (no "007.msg" beside "7.msg"), and when the id's file is readable at startup, a fresh scan after a successful write of `m` holds `trim(m)` for the id |
| BufferedStorage.BufferedStorageService.constructor | distributed-disk-register/distributed-disk-register/src/main/java/com/example/family/BufferedStorageService.java:18-25 | a new engine's memory is what the startup scan recovers from its directory |
| BufferedStorage.BufferedStorageService.GetCount | distributed-disk-register/distributed-disk-register/src/main/java/com/example/family/BufferedStorageService.java:27-30 | the count is the number of distinct ids in memory |
| BufferedStorage.BufferedStorageService.Put | distributed-disk-register/distributed-disk-register/src/main/java/com/example/family/BufferedStorageService.java:32-43 | memory maps the id to `m` whether or not the write succeeds; the count grows by 1 for a new id and by 0 for a known one; the id's file holds exactly `m` when the write succeeds and is untouched otherwise |
| BufferedStorage.BufferedStorageService.Get | distributed-disk-register/distributed-disk-register/src/main/java/com/example/family/BufferedStorageService.java:45-76 | a memory hit answers the cached text and changes nothing; otherwise a missing file or a failed read answers null and caches nothing; a file that reads answers the trim of its lines joined with "\n", and caches it |
| BufferedStorage.WarmRoundTrip | distributed-disk-register/distributed-disk-register/src/main/java/com/example/family/BufferedStorageService.java:32-48 | right after `put(id, m)`, `get(id)` answers exactly `m`, untrimmed, even if the write failed |
| BufferedStorage.Overwrite | distributed-disk-register/distributed-disk-register/src/main/java/com/example/family/BufferedStorageService.java:32-48 | `put(id, a); put(id, b)` makes `get(id)` answer `b`, and every other id keeps its entry, whether or not either write succeeded |
| BufferedStorage.RepeatedGet | distributed-disk-register/distributed-disk-register/src/main/java/com/example/family/BufferedStorageService.java:45-76 | once a get has answered a text, later gets answer the same text, even if the disk would now fail |
| BufferedStorage.ColdRestart | distributed-disk-register/distributed-disk-register/src/main/java/com/example/family/BufferedStorageService.java:77-92 | in a directory where every loadable `*.msg` file is named as `put` names it, and when the id's file is readable at startup, a put whose write succeeded followed by a fresh engine over the same directory answers `trim(m)` |
| UnbufferedStorage.UnbufferedStorageService.constructor | distributed-disk-register/distributed-disk-register/UnbufferedStorageService.java:15-20 | a new engine's memory is what the startup scan recovers from its directory |
| UnbufferedStorage.UnbufferedStorageService.GetCount | distributed-disk-register/distributed-disk-register/UnbufferedStorageService.java:53-56 | the count is the number of distinct ids in memory |
| UnbufferedStorage.UnbufferedStorageService.Put | distributed-disk-register/distributed-disk-register/UnbufferedStorageService.java:23-34 | memory maps the id to `m`; the count grows by 1 for a new id and by 0 for a known one; the file is truncated to exactly `m` when the write succeeds and is untouched otherwise |
| UnbufferedStorage.UnbufferedStorageService.Get | distributed-disk-register/distributed-disk-register/UnbufferedStorageService.java:37-52 | a memory hit answers the cached text; otherwise a missing file or a read error answers null and caches nothing; a file that reads answers the trim of its raw contents, and caches it |
| UnbufferedStorage.WarmRoundTrip | distributed-disk-register/distributed-disk-register/UnbufferedStorageService.java:23-38 | right after `put(id, m)`, `get(id)` answers exactly `m` |
| UnbufferedStorage.Overwrite | distributed-disk-register/distributed-disk-register/UnbufferedStorageService.java:23-38 | `put(id, a); put(id, b)` makes `get(id)` answer `b`, and every other id keeps its entry, whether or not either write succeeded |
| UnbufferedStorage.RepeatedGet | distributed-disk-register/distributed-disk-register/UnbufferedStorageService.java:37-52 | once a get has answered a text, later gets answer the same text |
| UnbufferedStorage.ColdRestart | distributed-disk-register/distributed-disk-register/UnbufferedStorageService.java:58-73 | in a directory where every loadable `*.msg` file is named as `put` names it, and when the id's file is readable at startup, a put whose write succeeded followed by a fresh engine over the same directory answers `trim(m)` |
| FamilyService.FamilyServiceImpl.constructor | distributed-disk-register/distributed-disk-register/src/main/java/com/example/family/FamilyServiceImpl.java:17-22 | creating the service adds its own node to the registry |
| FamilyService.FamilyServiceImpl.Store | distributed-disk-register/distributed-disk-register/src/main/java/com/example/family/FamilyServiceImpl.java:25-37 | the record goes to storage through `put`, and the reply is always success, whatever the disk did |
| FamilyService.FamilyServiceImpl.Retrieve | distributed-disk-register/distributed-disk-register/src/main/java/com/example/family/FamilyServiceImpl.java:41-62 | the id is echoed; `found` is true exactly when storage answers a text, which is returned; otherwise the text is "" |
| FamilyService.FamilyServiceImpl.Join | distributed-disk-register/distributed-disk-register/src/main/java/com/example/family/FamilyServiceImpl.java:65-74 | the caller is added, and the reply is a snapshot of the registry after that: it holds the caller, and this node too whenever this node was registered |
| FamilyService.FamilyServiceImpl.GetFamily | distributed-disk-register/distributed-disk-register/src/main/java/com/example/family/FamilyServiceImpl.java:77-84 | the reply is a snapshot of the registry; nothing changes |
| FamilyService.FamilyServiceImpl.ReceiveChat | distributed-disk-register/distributed-disk-register/src/main/java/com/example/family/FamilyServiceImpl.java:88-97 | neither the registry nor storage changes |
| FamilyService.FamilyServiceImpl.GetCount | distributed-disk-register/distributed-disk-register/src/main/java/com/example/family/FamilyServiceImpl.java:100-108 | the storage engine's count is passed through unchanged |
| Replication.OtherPorts | distributed-disk-register/distributed-disk-register/src/main/java/com/example/family/NodeMain.java:113 | the filter keeps exactly the members whose port differs from this node's, none more often than in the snapshot |
| Replication.InsertByPortSorted | distributed-disk-register/distributed-disk-register/src/main/java/com/example/family/NodeMain.java:114 | inserting by port keeps a list sorted by port |
| Replication.SortByPort | distributed-disk-register/distributed-disk-register/src/main/java/com/example/family/NodeMain.java:114 | the sort by port is a permutation (same multiset) and its result is in ascending port order |
| Replication.Candidates | distributed-disk-register/distributed-disk-register/src/main/java/com/example/family/NodeMain.java:112-115 | the candidates are exactly the snapshot members on other ports, in ascending port order, each once when the snapshot has no duplicates |
| Replication.Rotate | distributed-disk-register/distributed-disk-register/src/main/java/com/example/family/NodeMain.java:124 | the walk order holds the same candidates, each as often |
| Replication.RotateAt | distributed-disk-register/distributed-disk-register/src/main/java/com/example/family/NodeMain.java:124 | step i of the walk visits candidate (start + i) mod \|candidates\| |
| Replication.Successes | distributed-disk-register/distributed-disk-register/src/main/java/com/example/family/NodeMain.java:126-129 | every node collected had its Store call succeed, and no more are collected than visited |
| Replication.SuccessesCount | distributed-disk-register/distributed-disk-register/src/main/java/com/example/family/NodeMain.java:126-129 | a node is collected as often as it is visited if its Store succeeds, and never otherwise |
| Replication.StartIndex | distributed-disk-register/distributed-disk-register/src/main/java/com/example/family/NodeMain.java:118 | the start index, counter mod \|candidates\|, is a valid index |
| Replication.WalkStopsAtTolerance | distributed-disk-register/distributed-disk-register/src/main/java/com/example/family/NodeMain.java:122 | stopping the walk once `TOLERANCE` stores have succeeded (at once for `TOLERANCE` ≤ 0) yields the first `TOLERANCE` successes of the full walk |
| Replication.PlacementSound | distributed-disk-register/distributed-disk-register/src/main/java/com/example/family/NodeMain.java:119-130 | the holders are candidates whose Store succeeded; there are at most `TOLERANCE` of them (none when `TOLERANCE` ≤ 0) and at most as many as candidates; no holder is listed twice |
| Replication.ReplicationBound | distributed-disk-register/distributed-disk-register/src/main/java/com/example/family/NodeMain.java:119-130 | with `TOLERANCE` ≥ 0, a SET places min(`TOLERANCE`, reachable) replicas, whatever the round-robin start; with no candidates that is none |
| Replication.SuccessesRotate | distributed-disk-register/distributed-disk-register/src/main/java/com/example/family/NodeMain.java:121-130 | where the walk starts does not change how many Store calls succeed |
| Replication.ShortfallMeansAllTried | distributed-disk-register/distributed-disk-register/src/main/java/com/example/family/NodeMain.java:121-130 | fewer than `TOLERANCE` holders only when every candidate whose Store succeeds is a holder |
| Replication.WrapInt32 | distributed-disk-register/distributed-disk-register/src/main/java/com/example/family/NodeMain.java:33 | the 32-bit counter agrees with the unbounded count while that count fits in an int |
| Replication.JavaRem | distributed-disk-register/distributed-disk-register/src/main/java/com/example/family/NodeMain.java:118 | Java's `%` takes the dividend's sign: in 0..b-1 for a non-negative dividend, in -(b-1)..0 for a negative one |
| Replication.JavaStartIndexBeforeWrap | distributed-disk-register/distributed-disk-register/src/main/java/com/example/family/NodeMain.java:118 | before the counter wraps, the start index as written equals the intended one |
| Replication.JavaStartIndexAfterWrap | distributed-disk-register/distributed-disk-register/src/main/java/com/example/family/NodeMain.java:118 | after 2^31 SETs the counter reads -2^31, and with three candidates the start index as written is -2 |
| Replication.StartCountWindow | distributed-disk-register/distributed-disk-register/src/main/java/com/example/family/NodeMain.java:118 | any M consecutive counter values pick each of M start indexes exactly once |
| Replication.RoundRobinFair | distributed-disk-register/distributed-disk-register/src/main/java/com/example/family/NodeMain.java:117-118 | over N consecutive SETs against M stable candidates, each candidate is the start ⌊N/M⌋ to ⌈N/M⌉ times |
| Replication.FirstFoundIsFirstHit | distributed-disk-register/distributed-disk-register/src/main/java/com/example/family/NodeMain.java:148-154 | the fallback yields v exactly when some holder answers v and every earlier holder misses |
| Replication.FirstFoundMissesAll | distributed-disk-register/distributed-disk-register/src/main/java/com/example/family/NodeMain.java:148-160 | the fallback finds nothing exactly when every holder misses |
| Replication.JoinedViewsMembers | distributed-disk-register/distributed-disk-register/src/main/java/com/example/family/NodeMain.java:238-259 | a node is gathered by discovery exactly when some port in range answered Join with a view holding it |
| ClientProtocol.ParseCommand | distributed-disk-register/distributed-disk-register/src/main/java/com/example/family/NodeMain.java:97-108 | a line is skipped exactly when it is all blanks; of the trimmed line's at most three space-separated parts, a first word that upper-cases to SET gives a SET exactly when there are three parts and the second parses as an int, with that int as id and the third part as message; GET likewise needs a second part that parses, and takes its id from it; a SET or GET that misses its condition is dropped, and exactly those are; any other non-blank line is a chat of the trimmed line |
| ClientProtocol.ParseSetLine | distributed-disk-register/distributed-disk-register/src/main/java/com/example/family/NodeMain.java:101-108 | `<verb> <id> <message>`, with any casing of SET, is a SET of exactly that id and message, spaces inside the message kept |
| ClientProtocol.ParseSetLineAnyId | distributed-disk-register/distributed-disk-register/src/main/java/com/example/family/NodeMain.java:101-108 | `<verb> <id text> <message>` with any casing of SET is a SET of the id the text parses to and exactly that message, and is dropped when the text does not parse ("SET abc m") |
| ClientProtocol.IdSpellingsAgree | distributed-disk-register/distributed-disk-register/src/main/java/com/example/family/NodeMain.java:105-107 | "SET 007 m" and "SET +7 m" are the same command as "SET 7 m" |
| ClientProtocol.ParseGetLine | distributed-disk-register/distributed-disk-register/src/main/java/com/example/family/NodeMain.java:143-145 | `<verb> <id>`, with any casing of GET, is a GET of that id |
| ClientProtocol.SetWithoutMessageIsDropped | distributed-disk-register/distributed-disk-register/src/main/java/com/example/family/NodeMain.java:105-108 | a SET with an id but no message is dropped without reply |
| ClientProtocol.LoadTolerance | distributed-disk-register/distributed-disk-register/src/main/java/com/example/family/NodeMain.java:332-342 | no file, or an empty one, gives the default 1; otherwise the value is what the file's first line configures |
| ClientProtocol.ToleranceFromLine | distributed-disk-register/distributed-disk-register/src/main/java/com/example/family/NodeMain.java:335-336 | a line that, trimmed, starts with "TOLERANCE=" and whose second '='-separated part, trimmed, parses as an int sets that int; every other line (no prefix, no second part, a value that does not parse) gives the default 1 |
| ClientProtocol.ToleranceLineSplit | distributed-disk-register/distributed-disk-register/src/main/java/com/example/family/NodeMain.java:336 | `TOLERANCE=<k>` splits on '=' into the key and the digits of k |
| ClientProtocol.LoadToleranceReadsValue | distributed-disk-register/distributed-disk-register/src/main/java/com/example/family/NodeMain.java:332-337 | a file holding just `TOLERANCE=<k>` configures exactly k, negative and zero included |
| ClientProtocol.LoadToleranceFirstLine | distributed-disk-register/distributed-disk-register/src/main/java/com/example/family/NodeMain.java:332-337 | a file whose first line is `TOLERANCE=<k>`, ended by any terminator and followed by anything (as in "TOLERANCE=2\n"), configures exactly k |
| Leader.GetReply | distributed-disk-register/distributed-disk-register/src/main/java/com/example/family/NodeMain.java:156-160 | a found text is answered "OK <text>", nothing found "NOT_FOUND" |
| Leader.OtherMembers | distributed-disk-register/distributed-disk-register/src/main/java/com/example/family/NodeMain.java:192-196 | exactly the members other than this node (same host and same port) |
| Leader.NodeMain.HoldersOf | distributed-disk-register/distributed-disk-register/src/main/java/com/example/family/NodeMain.java:148 | an id with no recorded placement has no holders |
| Leader.NodeMain.constructor | distributed-disk-register/distributed-disk-register/src/main/java/com/example/family/NodeMain.java:33-35 | the counter starts at 0 and no placement is recorded |
| Leader.NodeMain.Walk | distributed-disk-register/distributed-disk-register/src/main/java/com/example/family/NodeMain.java:119-130 | the loop with its early break collects the first `TOLERANCE` successes of the walk from `start` |
| Leader.NodeMain.Replicate | distributed-disk-register/distributed-disk-register/src/main/java/com/example/family/NodeMain.java:117-131 | the counter advances by exactly 1 only when there are candidates; the holders are the placement from the old counter; the placement map is unchanged |
| Leader.NodeMain.Record | distributed-disk-register/distributed-disk-register/src/main/java/com/example/family/NodeMain.java:133-138 | no holders: the no-holder reply and the map unchanged; otherwise "OK" and the id's entry replaced by the holders, other ids untouched; every recorded placement stays non-empty, within tolerance, duplicate-free and off this node's port |
| Leader.NodeMain.Set | distributed-disk-register/distributed-disk-register/src/main/java/com/example/family/NodeMain.java:104-141 | a SET over a registry snapshot: counter, reply and placement map as `Replicate` and `Record` state, with the placement computed from the candidates of that snapshot |
| Leader.NodeMain.Get | distributed-disk-register/distributed-disk-register/src/main/java/com/example/family/NodeMain.java:143-161 | the reply is the first recorded holder's text that is found, "OK <text>", else "NOT_FOUND"; local storage is never consulted |
| Leader.NodeMain.BroadcastToFamily | distributed-disk-register/distributed-disk-register/src/main/java/com/example/family/NodeMain.java:186-219 | the chat goes to every registry member except this node, in snapshot order |
| Leader.NodeMain.HandleLine | distributed-disk-register/distributed-disk-register/src/main/java/com/example/family/NodeMain.java:97-173 | blank and malformed lines get no reply and change nothing; SET and GET behave as above; any other line is broadcast as a chat from this node and answered BROADCAST_SENT |
| Leader.NodeMain.CheckHealth | distributed-disk-register/distributed-disk-register/src/main/java/com/example/family/NodeMain.java:298-330 | after one round a node is a member exactly when it was one and is this node or answered the probe; this node is never removed |
| Leader.NodeMain.DiscoverExistingNodes | distributed-disk-register/distributed-disk-register/src/main/java/com/example/family/NodeMain.java:233-260 | the registry becomes the initial one unioned with every view returned by ports 5555 up to this node's port; failed ports add nothing |
| Leader.SetThenGet | distributed-disk-register/distributed-disk-register/src/main/java/com/example/family/NodeMain.java:104-161 | when every node that accepts Store answers Retrieve with the message, a SET answered "OK" is followed by a GET answered "OK <message>"; a SET not answered "OK" was answered with the no-holder reply |

## Left out

- gRPC transport is not modelled: channels, stubs, `ServerBuilder`, and the generated `FamilyServiceGrpc` are left out. Each remote call is a function parameter saying what that call answers. A failed call is a `false` or a `None`.
- Sockets and threads are not modelled: `main`, `findFreePort`, the leader listener on port 6666, and the per-connection threads are left out.
  - `main` starts the leader listener only on port 5555, and that choice is not modelled.
  - `Leader.NodeMain.HandleLine` models one line of a connection, not the read loop over its lines.
- Scheduling is not modelled: `Leader.NodeMain.CheckHealth` is one round of the health checker, not the periodic schedule.
- `startFamilyPrinter` and `callGetCountRpc` are left out: they only print. Console logging elsewhere is also dropped.
- Concurrency is not modelled: the concurrent maps and sets, the atomic counter and races between SETs to the same id. Everything runs sequentially.
- File I/O is left out: the disk is a map from file name to contents.
  - A failed write leaves the file as it was; partial writes are not modelled.
  - A failed read is a flag.
  - Directory creation and UTF-8 encoding are left out; strings are char sequences.
  - The startup scan visits files in an unspecified order.
- The chat timestamp from `System.currentTimeMillis` is not modelled.
- JavaString.ParseInt: accepts only ASCII digits, whereas `Integer.parseInt` also accepts other Unicode decimal digits.
- JavaString.UpperCase: models the ASCII letters and U+017F (long s, which upper-cases to 'S'). Other case mappings are left out.
- Leader.NodeMain.Replicate: the request counter is unbounded here, while the source's counter is a 32-bit int. The wrap-around is worked out separately under Findings.
- FamilyService.FamilyServiceImpl.Join: the reply holds this node only when this node was registered. The constructor registers it, and the health round never removes it.
- Registry.NodeRegistry.Snapshot: the order of the list is left unspecified, as the concurrent set's iteration order is.
- The storage engine behind the handlers is the buffered one, as in `NodeMain`. The unbuffered engine is modelled on its own and is not wired into the handlers.

## Findings

| source | as written | input that shows it | evidently intended | confidence | as-written member | corrected member |
|---|---|---|---|---|---|---|
| distributed-disk-register/distributed-disk-register/src/main/java/com/example/family/NodeMain.java:118 | the start index is the 32-bit `requestCounter` value `%` the candidate count; after 2^31 SETs with candidates the counter wraps to -2^31 and Java's `%` gives a negative index, so `candidates.get` throws and the exception is swallowed at line 140: that SET gets no reply and places nothing | 2^31 SETs that found candidates, then a SET with three candidates: the counter reads -2^31 and the start index is -2 | a start index in 0 .. \|candidates\|-1 for every SET, e.g. a non-negative remainder | not executed | Replication.JavaStartIndexAfterWrap | Replication.StartIndex |
