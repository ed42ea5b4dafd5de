# A verified model of the TCPServerClient server core

The repository holds two near-identical C++ TCP servers, `newServer.cpp` and
`server.cpp`. Each admits a new client only while fewer than six are
registered. Each client session sends the client a 32-bit token line on every
loop pass and reads from the socket with a one-second timeout. For every
newline byte a client sends, the session broadcasts the current number of
registered clients to every registered client. On SIGINT the server says
"Thank you" to every client, closes all of them and closes the listening
socket.

The main difference between the two servers is how they make tokens. Both
put the seconds since local midnight, shifted left by 16 in `uint32_t`
arithmetic, in the high half:

- `newServer.cpp` uses a sequential 16-bit counter `last_id`. It is stored in
  the side file `./last_id` after every call and loaded at startup.
- `server.cpp` draws `rand() & 0xFFFF` until the token is not in the
  in-memory set `used_ids`, then inserts it.

They also differ in three smaller ways:

- `newServer.cpp` leaves the session loop when the token `send` fails
  (newServer.cpp:146-147). `server.cpp` ignores the result of that `send`
  (server.cpp:119). The two `EndsSession` predicates differ accordingly.
- `newServer.cpp` keeps its session threads and joins them at the end of
  `shutdown` (newServer.cpp:200-205). `server.cpp` detaches them
  (server.cpp:197).
- `server.cpp` closes the listening socket while it still holds the registry
  lock (server.cpp:162-168). `newServer.cpp` closes it after the join
  (newServer.cpp:207).

The model is imperative where the C++ is. `MyServer` is a class in each of the
modules `NewServer` and `Server`, with the C++ object's fields:
`client_sockets`, the spawned sessions, `running`, and `last_id` plus the side
file, or `used_ids`. Each method changes only what its `modifies` clause names.
Each method is proved against specification functions in `Registry` and
`Tokens`, and the properties the C++ code relies on are proved about those
functions as lemmas.

Modules:

- `Bits`: the 32-bit unsigned operators `<<`, `>>`, `+`, `&`, `|`, defined on
  natural numbers, with the closed forms the proofs need.
- `Wire`: log events and received buffers. `Received` gives the bytes
  `buffer[0..valread)` the newline scan looks at (newServer.cpp:158-163).
  `ToDecimal` and `Line` give `to_string(n)` and `to_string(n) + "\n"`.
- `Registry`: the vector operations on `client_sockets` (broadcast, close all,
  erase-remove) and the newline scan. `NewlineBroadcasts` is the log of the
  byte loop at newServer.cpp:163-169.
- `Tokens`: both token policies. `Loaded` is what `loadLastId` leaves in the
  counter at startup (newServer.cpp:41-50).
- `NewServer` and `Server`: the two server classes. `NewServer.MyServer.Valid`
  is the side-file invariant: when the file exists it holds the counter.
  `Server.DrawsReachFree` says that one call's `rand()` draws reach a token not
  yet in `used_ids`, and `Server.Issued` is the token the retry loop settles on.
  `Server.SessionFair` says that every call in a session reaches a free token;
  `SessionLoop` and `HandleClient` require it. In each,
  `EndsSession` says when a loop pass leaves the session loop: newServer.cpp:146-147
  and 159-160, and server.cpp:132-133. `StepLog` and `SessionLog` are the log of one
  pass and of a whole session, and `SessionLastId` and `SessionUsed` give the
  generator state after a session.

How the environment is represented:

- Sockets are integer handles.
- Every `send`, `close(client)` and `close(server_fd)` the server performs is
  appended to the field `log`, whether or not the system call succeeds.
- The clock reading is handed to each call as `seconds`.
- The values `rand()` returns are handed to the random generator as `draws`.
- The side file is an `Option<u32>`; `None` means the file does not exist.
- One session is driven by a finite sequence of ticks. A tick says what
  `send`, `select` and `recv` returned in one loop pass. The last tick ends
  the session.

Each method is one atomic step:

- `Register` and `Unregister` are atomic, as the `push_back` and
  erase-remove critical sections of `handleClient` are.
- `GenerateUniqueId` and `Broadcast` are atomic, as their lock scopes are.
- `SessionStep` is one loop pass as one step. In the code that pass holds the
  token generation and each count broadcast as separate critical sections.
- `HandleClient` runs a whole session as one step (see "## Left out").
- `Shutdown` runs as one step, although it is two critical sections in the
  code: the broadcast and the close loop.

Two points of the code the model follows closely:

- The accept loop does not register the new socket. It only spawns the
  session, under the registry lock. The session registers itself with
  `push_back` (newServer.cpp:136-139, server.cpp:109-112). So `AcceptStep`
  checks the size of the registry and records a spawned session, and
  `HandleClient` does the registration through `Register`.
- `client_sockets` is a `std::vector<int>`. Nothing stops a handle value from
  appearing twice, and erase-remove takes out every copy
  (newServer.cpp:176-179). The model keeps the vector as a `seq<int>`.

The sequential policy's 16-bit shift of seconds up to 86399 is modelled as
written: second `s` and second `s + 65536` of the day give the same token
(`Tokens.SecondsAlias`). `Tokens.ResumeAfterRestart` states the low half of the
resumed token as `(k + 1) % 2^16`. That is `(k + 1) & 0xFFFF` by
`Bits.AndLow16`. `NewServer.ResumeAcrossRestart` states the same round trip
on the class: one server saves, a new server loads, and the new server's
first token continues the counter.

## Model

| member | source | states |
|---|---|---|
| Bits.AndLow16 | newServer.cpp:75-76 | `x & 0xFFFF` is `x mod 65536`, the mask both generators apply |
| Bits.Pack16 | newServer.cpp:75 | `(hi << 16) OR lo` (bitwise) with `lo < 2^16` is `(hi mod 2^16)·2^16 + lo`: below 2^32, high half `hi mod 2^16`, low half `lo` |
| Wire.Line | newServer.cpp:144 | `to_string(n) + "\n"` ends in its only newline |
| Registry.SendAll | newServer.cpp:123-130 | a broadcast logs exactly one send of the message to each member, in vector order |
| Registry.SendAllMembers | newServer.cpp:126-128 | every entry of a broadcast log is a send of that message to a member |
| Registry.CloseAll | newServer.cpp:193-196 | closing every member logs exactly one close per member, in vector order |
| Registry.RemoveAll | newServer.cpp:176-179 | erase-remove never makes the vector longer |
| Registry.RemoveAllRemoves | newServer.cpp:176-179 | after erase-remove no copy of the handle is left, every other handle is kept as often as it was there, and the length drops by the number of copies |
| Registry.RemoveAllAppend | server.cpp:148-151 | erase-remove works piecewise over a concatenation, so the kept handles stay in their relative order |
| Registry.RemoveAllAbsent | newServer.cpp:176-179 | erase-remove of a handle that is not registered changes nothing |
| Registry.RegisterThenRemove | newServer.cpp:136-180 | `push_back` then erase-remove of the same handle leaves the others as they were, less any stale copy of it |
| Registry.NewlineCount | newServer.cpp:163-164 | the count is the number of `'\n'` bytes (their multiplicity in the buffer) |
| Registry.NewlineBroadcastsAreCountBroadcasts | newServer.cpp:163-169 | the byte scan logs one full count broadcast per newline byte and nothing else, so newlines × members sends |
| Registry.ShutdownLogAt | newServer.cpp:185-198 | in the shutdown log, member `k`'s farewell is entry `k` and its close is entry `n + k` |
| Registry.ShutdownReachesAll | server.cpp:157-167 | every member gets "Thank you\n" and is closed |
| Registry.FarewellBeforeClose | newServer.cpp:185-198 | every close in the shutdown log comes after a farewell to that socket |
| Tokens.NextId | newServer.cpp:75 | the packed sequential token is a `uint32_t` value |
| Tokens.NextLast | newServer.cpp:76 | the counter stored back is below 65536 |
| Tokens.NextIdClosed | newServer.cpp:75 | token = `(seconds mod 2^16)·2^16 + (last + 1) mod 2^16` |
| Tokens.NextIdLow | newServer.cpp:75 | the token's low 16 bits are `(last + 1) mod 65536` |
| Tokens.NextIdHigh | newServer.cpp:72-75 | the token's high 16 bits (`id >> 16`) are `seconds mod 65536` |
| Tokens.NextLastLow | newServer.cpp:76 | the new `last_id` is `id & 0xFFFF = (last + 1) mod 65536`, so it is below 65536 |
| Tokens.NextIdBits | newServer.cpp:75-76 | the three facts above together |
| Tokens.DifferentSecondsDifferentIds | newServer.cpp:72-75 | tokens from seconds that differ modulo 65536 never collide, whatever the counters |
| Tokens.SecondsAlias | newServer.cpp:72-75 | the shift truncation: second `s` and second `s + 65536` give the same token for the same counter |
| Tokens.FromZero | newServer.cpp:29 | from the initial counter 0 the next low half is 1 |
| Tokens.ResumeAfterRestart | newServer.cpp:41-50 | after loading a side file holding `k`, the next token's low half is `(k + 1) mod 2^16`; with no side file it is 1 |
| Tokens.IdRun | newServer.cpp:62-80 | `n` consecutive calls return `n` tokens |
| Tokens.IdRunStep | newServer.cpp:75-76 | a run continues from the counter the first call stored |
| Tokens.IdRunFirst | newServer.cpp:75 | the first token of a run in closed form |
| Tokens.IdRunAt | newServer.cpp:75-76 | the `k`-th of consecutive tokens within one second is `(seconds mod 2^16)·2^16 + (last + k + 1) mod 2^16` |
| Tokens.IdRunDistinct | newServer.cpp:75-76 | up to 65536 consecutive calls within one second return pairwise-distinct tokens |
| Tokens.IdRunWraps | newServer.cpp:75-76 | the 65537th consecutive call within one second repeats the first token |
| Tokens.Candidate | server.cpp:89 | a candidate `(base << 16) OR (rand() & 0xFFFF)` (bitwise) is a `uint32_t` value |
| Tokens.CandidateBits | server.cpp:83-89 | a candidate's high 16 bits are `base mod 65536`, and its low 16 bits are the draw masked to `0..65535` |
| Tokens.CandidateInjective | server.cpp:89 | distinct draws below 65536 give distinct candidates |
| Tokens.CandidatesSize | server.cpp:89 | the draws `0..n-1` (`n ≤ 65536`) give exactly `n` candidates |
| Tokens.FreeLowExists | server.cpp:87-90 | while fewer than 65536 issued tokens share the base's high half, some 16-bit draw gives a token not yet issued, so the retry loop can stop |
| Tokens.FirstFree | server.cpp:87-90 | where the retry loop stops: the first draw whose candidate is free, with every earlier draw's candidate already issued |
| NewServer.StepLogAddressees | newServer.cpp:141-169 | every entry one pass logs is a send of a 32-bit token line `to_string(v) + "\n"` to the session's own socket, or a send of the count line `to_string(|members|) + "\n"` to a registered member |
| NewServer.SessionLogAddressees | newServer.cpp:141-171 | the same for every entry of a whole session's log |
| NewServer.MyServer.constructor | newServer.cpp:82-84 | a new server is running, with an empty registry, and its counter is the side file's value (0 with no file) |
| NewServer.MyServer.LoadLastId | newServer.cpp:41-50 | the counter becomes the stored value when the side file exists, and is unchanged otherwise |
| NewServer.MyServer.SaveLastId | newServer.cpp:53-59 | the side file holds the counter |
| NewServer.MyServer.GenerateUniqueId | newServer.cpp:62-80 | returns the packed token with low half `(old last_id + 1) mod 65536` and high half `seconds mod 65536`; stores `id & 0xFFFF` (< 65536) as `last_id` and persists that same value |
| NewServer.MyServer.Broadcast | newServer.cpp:123-130 | logs exactly `SendAll(client_sockets, msg)` |
| NewServer.MyServer.ScanBuffer | newServer.cpp:163-169 | logs one count broadcast per newline in `buffer[0..valread)`, with the registry unchanged |
| NewServer.MyServer.SessionStep | newServer.cpp:141-170 | one loop pass: issue and send a token, then scan what was received; the loop is left exactly when the send fails or `recv` returns ≤ 0 |
| NewServer.MyServer.SessionLoop | newServer.cpp:141-171 | while running, the loop writes the whole session log, leaves the counter where the session's calls put it, and leaves that counter persisted in the side file; when not running it changes nothing |
| NewServer.MyServer.Register | newServer.cpp:136-139 | `push_back`: the socket is appended to the registry |
| NewServer.MyServer.Unregister | newServer.cpp:174-180 | the registry becomes its erase-remove of the socket |
| NewServer.MyServer.HandleClient | newServer.cpp:132-183 | register, run the session, erase-remove the socket and then close it; the registry ends as it was, less every copy of the socket; the final counter is persisted in the side file |
| NewServer.MyServer.AcceptStep | newServer.cpp:226-241 | an accepted handle gets a session if and only if fewer than six are registered; otherwise it gets exactly "server full\n" (12 bytes) and a close; the registry is unchanged either way |
| NewServer.ResumeAcrossRestart | newServer.cpp:41-84 | after a call persists the counter and a new server loads the side file, the new server's first token has low half `(previous token's low half + 1) mod 65536` |
| NewServer.MyServer.Shutdown | newServer.cpp:185-207 | `running` becomes false; every member gets "Thank you\n", then every member is closed; the registry ends empty; the listening socket is closed last |
| Server.SessionUsedGrows | server.cpp:92 | `used_ids` never shrinks over a session, and each session grows it |
| Server.MyServer.constructor | server.cpp:24-28 | a new server is running, with an empty registry and an empty `used_ids` |
| Server.MyServer.GenerateUniqueId | server.cpp:77-94 | returns the first draw's candidate not in `used_ids`, which was not there before, and adds exactly it to `used_ids` (size + 1); its high half is `base mod 65536` and its low half a draw mod 65536 |
| Server.MyServer.Broadcast | server.cpp:96-103 | logs exactly `SendAll(client_sockets, msg)` |
| Server.MyServer.ScanBuffer | server.cpp:135-142 | logs one count broadcast per newline in `buffer[0..valread)` |
| Server.MyServer.SessionStep | server.cpp:114-143 | one loop pass: issue and send a token, ignoring the send result, then scan; the loop is left exactly when `recv` returns ≤ 0 |
| Server.MyServer.SessionLoop | server.cpp:114-144 | while running, the loop writes the whole session log and leaves `used_ids` as the session's calls left it; when not running it changes nothing |
| Server.MyServer.Register | server.cpp:109-112 | `push_back`: the socket is appended to the registry |
| Server.MyServer.Unregister | server.cpp:146-152 | the registry becomes its erase-remove of the socket |
| Server.MyServer.HandleClient | server.cpp:105-155 | register, run the session, erase-remove the socket and then close it; the registry ends as it was, less every copy of the socket |
| Server.MyServer.AcceptStep | server.cpp:187-204 | the same admission rule as newServer.cpp: a session if and only if fewer than six are registered, else exactly "server full\n" and a close |
| Server.MyServer.Shutdown | server.cpp:157-169 | `running` becomes false; every member gets "Thank you\n" before any close; the registry ends empty; the listening socket is closed last |

## Left out

- Socket creation, `setsockopt`, `bind`, `listen`, `accept`, `select` and the real `send`/`recv` are OS I/O. They are inputs here: `Incoming` for the accept poll, and ticks for each session pass.
- Threads, `std::mutex`, `std::atomic` and the SIGINT handler are left out. Each method is one atomic step.
- HandleClient: a whole session is one atomic step. No other session registers, leaves or broadcasts while it runs, so every count line it logs is `Line(|old(clientSockets)| + 1)`. `Register`, `SessionStep` and `Unregister` are separate methods, but the model does not interleave two sessions' steps.
- Shutdown: its two critical sections (the broadcast, and the close loop with the clear) run as one step, so a session cannot register or leave between them.
- A `shutdown` that runs concurrently with a session loop is left out. The model's sessions never see `running` change mid-session; `SessionLoop` tests it once on entry.
- The capacity bound under interleaving is left out. The size check in `run` and the `push_back` in `handleClient` are in different critical sections, and `client_sockets.size()` is read without the lock in the newline scan, so a sequential model cannot show the race.
- The join of the session threads in `newServer.cpp`'s `shutdown` (newServer.cpp:200-205) is left out, because it is thread bookkeeping.
- `std::chrono` and `localtime` are left out. The seconds value is a parameter; the model allows any `uint32_t` value rather than only 0..86399.
- `rand()` is an oracle: a sequence of draws per call. `Server.MyServer.GenerateUniqueId` requires that some draw gives a free token. It does not model a `rand()` that never reaches one; `Tokens.FreeLowExists` says when a free token exists.
- Text parsing of the side file, a corrupt or unreadable file, and a failed write are left out. The side file is an optional stored `uint32_t`.
- `std::to_string` is modelled as plain decimal digits with no proof of its round trip. Console output, the `getInstance` singleton and `main` are left out.
- A session is driven by a finite sequence of ticks ending in one that ends the session. A peer that never goes away, giving an endless session, is not modelled.
- NewServer.MyServer.SessionLoop: states nothing for sessions in which `running` turns false during the loop, because a concurrent shutdown is not modelled.
