# kvstore server core in Dafny

This project models the core of a small key/value server. The server listens on a Unix socket. Each request is one text line, `SET <key> <value>` or `GET <key>`. The server keeps the pairs in a fixed chained hash table of 1024 buckets.

The model has five modules:

- `Wire`: bytes, C strings (the bytes before the first NUL) and `strncpy`-style truncation.
- `KvStore`: the storage engine.
  - `hash` is djb2 in 64-bit unsigned arithmetic over signed `char`s, reduced modulo 1024.
  - `set_kv` and `get_kv` run on a `Store` class. Its `buckets` array has one chain (a `seq<Entry>`) per bucket.
  - A ghost map is the abstract contents of the table.
  - The class invariant has four parts: every entry holds a NUL-free key of at most 255 bytes and a NUL-free value of at most 767 bytes, every entry sits in its key's bucket, no chain holds a key twice, and every lookup agrees with the map.
- `LineReader`: `read_line`, the one-byte-at-a-time line framing.
  - The socket is a `Connection` object. It holds the `read` events still to come and the bytes written so far.
  - An event is a byte, an interrupted call (`EINTR`) or a failure. Running out of events is end of file.
  - `read_line` fills a real `array` buffer and NUL-terminates it. It is proved against the pure function `ReadFrom`.
- `Protocol`: the two `sscanf` patterns of `handle_client` as an explicit parser.
  - The patterns are `SET %255s %767[^\n]` and `GET %255s`.
  - White-space directives skip any run of C-locale white space. Conversions stop at their width.
  - Keywords match case-sensitively.
- `Server`: `handle_client` itself. It reads one line, classifies it, applies it to the store and writes the reply. It returns 0 when the read gives no bytes or fails.

On these points the model follows the code, not a cleaner protocol one might expect:

- Keywords are case-sensitive.
- Each separator in the patterns matches zero or more white-space bytes, so fields may be separated by any run of white space, or by none where the bytes are unambiguous (`SETk v`, `GETk`).
- A `GET` line may carry trailing text after the key.
- Oversized keys and values are truncated, not rejected. A line longer than the 1023 bytes the buffer holds is not dropped either: its first 1023 bytes are served as one request and the rest is read as the next request.
- A failed allocation silently drops the `SET` and still replies `OK\n`.
- The error reply is the first 40 bytes of the 42-byte usage literal. The final `>` and the newline are never sent (`kvstore_server.c:206`).

## Model

| member | source | states |
|---|---|---|
| KvStore.Hash | kvstore_server.c:117-124 | the loop computes djb2 over the key's signed bytes, with 64-bit wrap-around, and returns that value modulo 1024, so always a bucket index below 1024 |
| KvStore.BucketIgnoresWrapAround | kvstore_server.c:117-124 | the bucket a key lands in is the same whether the accumulator wraps at 2^64 or is reduced modulo 1024 at every step |
| KvStore.SingleByteKeysSpread | kvstore_server.c:117-124 | two different one-byte keys always land in different buckets |
| KvStore.Djb2 | kvstore_server.c:119-122 | the djb2 accumulator over a key's bytes always fits in 64 bits |
| KvStore.Bucket | kvstore_server.c:123 | the bucket of a key is always an index below 1024 |
| KvStore.Position | kvstore_server.c:161-166 | the chain walk's answer is the index of the first entry whose key is equal, and it is absent exactly when no entry's key is equal |
| KvStore.Find | kvstore_server.c:133-142 | the `strcmp` loop over a chain returns the first matching index, or none when no entry matches |
| KvStore.Lookup | kvstore_server.c:157-168 | `get_kv` on table contents: a found value belongs to an entry with that key in the key's bucket, and nothing is found exactly when no entry of that bucket has the key |
| KvStore.StoreSet | kvstore_server.c:129-152 | `set_kv` on the abstract map: the truncated key is added (unless it is new and the allocation failed), every other key keeps its value, and the key, when bound, holds the truncated value |
| KvStore.SetTable | kvstore_server.c:131-151 | `set_kv` with the key truncated before it is hashed and compared (the corrected form; see Findings). The other buckets are unchanged. For an existing key: the matching entry gets the truncated value in place and every other entry is unchanged. For an absent key: one new entry with the truncated key and value at the head of its bucket. After an allocation failure: the whole table is unchanged |
| KvStore.SetTableLookup | kvstore_server.c:137-138 | after a set, a lookup of the truncated key yields the value truncated to 767 bytes (unless the key was new and the allocation failed); every other lookup is unchanged |
| KvStore.SetTablePreservesValid | kvstore_server.c:131-151 | after a set, every entry still sits in its key's bucket and has fitting, NUL-free key and value, and no chain holds a key twice |
| KvStore.SetTableAbstracts | kvstore_server.c:131-151 | after a set, the table stands for the map with the truncated key bound to the truncated value (or the old map after an allocation failure) |
| KvStore.SetTableRefines | kvstore_server.c:131-151 | a set preserves the table invariant and updates the abstract map |
| KvStore.SetKvAsWritten | kvstore_server.c:129-152 | `set_kv` as written hashes and compares the whole key but stores its 255-byte truncation; the result still has 1024 buckets |
| KvStore.AsWrittenAgreesOnShortKeys | kvstore_server.c:129-152 | for keys of at most 255 bytes, the code as written and the corrected set give the same table |
| KvStore.LongKeyIsLost | kvstore_server.c:131-151 | as written, after setting a key of more than 255 bytes, looking that key up finds nothing |
| KvStore.LongKeyIsDuplicated | kvstore_server.c:131-151 | as written, setting the same long key twice breaks the table invariant: its truncation is stored twice in one chain |
| KvStore.LookupAgrees | kvstore_server.c:157-168 | in a valid table, a lookup agrees with the abstract map, and a found value is NUL-free and at most 767 bytes |
| KvStore.Store.constructor | kvstore_server.c:25 | the zero-initialised table: every bucket empty, the map empty, the invariant established |
| KvStore.Store.Get | kvstore_server.c:157-168 | `get_kv` changes nothing and returns the value of the first entry in the key's bucket whose key is equal, which is the abstract map's value for the key, or none |
| KvStore.Store.Set | kvstore_server.c:129-152 | the corrected `set_kv` (identical to the code on every key of at most 255 bytes, which is every key `handle_client` passes): keeps the invariant, updates the bucket array in place as SetTable says and the abstract map as StoreSet says |
| Wire.CString | kvstore_server.c:184 | what `sscanf` sees of the buffer is NUL-free, a prefix of the buffer, and ends at the first NUL |
| Wire.CStringOfText | kvstore_server.c:184 | a NUL-free buffer is its own C string |
| Wire.Truncate | kvstore_server.c:146-149 | `strncpy` to `width` bytes plus a terminator keeps the first `min(len, width)` bytes unchanged |
| LineReader.ReadFrom | kvstore_server.c:70-91 | `read_line` on the stream: the line it yields, or -1, and the events left unread, never more than were there |
| LineReader.ReadLine | kvstore_server.c:70-91 | `read_line` consumes the events `ReadFrom` says. It returns -1 on a failed read. Otherwise it returns the line's length n (below the buffer size), with the line in `buf[..n]` and a NUL at `buf[n]` |
| LineReader.LineFraming | kvstore_server.c:73-88 | a line holds at most maxlen-1 bytes and a newline only as its last byte; reading stops at a newline, at end of file or when the room is used up |
| LineReader.LineIsReadData | kvstore_server.c:76-85 | the result is a line exactly when no consumed read failed, and the line is the bytes those reads delivered (interrupted reads are retried); -1 comes only from a failed read, which is the last one made |
| LineReader.ReadLeavesSuffix | kvstore_server.c:70-91 | `read_line` consumes a prefix of the stream and leaves the rest unread |
| LineReader.ReadsSentLine | kvstore_server.c:70-91 | a newline-terminated line that fits is read back exactly, and nothing after it is consumed |
| LineReader.LongLineIsSplit | kvstore_server.c:73-88 | a line longer than the room is cut after maxlen-1 bytes with no newline, and the rest opens the next read |
| LineReader.Connection.WriteAll | kvstore_server.c:96-112 | every byte given to `write_all` reaches the peer, in order, after what was sent before |
| Protocol.SkipSpace | kvstore_server.c:184 | a space directive skips exactly the run of white space in front of it |
| Protocol.Scan | kvstore_server.c:184 | a conversion takes the longest run of accepted bytes that fits its width |
| Protocol.ScanSet | kvstore_server.c:184 | `sscanf` with the SET pattern succeeds only on a line starting with `SET`, and then stores a 1-255 byte key without white space and a 1-767 byte value that does not start with white space and has no newline, both NUL-free when the line is |
| Protocol.ScanGet | kvstore_server.c:189 | `sscanf` with the GET pattern succeeds only on a line starting with `GET`, and then stores a 1-255 byte key without white space, NUL-free when the line is |
| Protocol.Parse | kvstore_server.c:184-189 | a SET result comes from a line starting with `SET`, with a 1-255 byte white-space-free key and a 1-767 byte value with no newline; a GET result comes from a line starting with `GET` with such a key |
| Protocol.ParseSetLine | kvstore_server.c:184 | `SET k v` followed by a newline is classified as that SET, for every key and value the patterns can hold |
| Protocol.ParseGetLine | kvstore_server.c:189 | `GET k` is classified as that GET, whatever follows the key after white space |
| Protocol.SetWithoutValueIsInvalid | kvstore_server.c:184-189 | `SET k` with no value matches neither pattern |
| Protocol.LongKeySpillsIntoValue | kvstore_server.c:184 | a key longer than 255 bytes is cut, and its excess becomes the start of the value |
| Protocol.BogusLineIsInvalid | kvstore_server.c:184-189 | `BOGUS foo` matches neither pattern |
| Protocol.BareGetIsInvalid | kvstore_server.c:189 | `GET` without a key matches neither pattern |
| Protocol.LowerCaseKeywordIsInvalid | kvstore_server.c:184-189 | keywords match case-sensitively: `get k` matches neither pattern |
| Server.ErrorReplyIsCut | kvstore_server.c:206 | the error reply is the usage literal without its last two bytes, so it carries no newline |
| Server.Dispatch | kvstore_server.c:184-207 | a classified line never removes a key and adds at most one; only a SET changes the store; the reply lacks a newline exactly when the line was invalid |
| Server.Serve | kvstore_server.c:183-207 | one served line never removes a key and adds at most one, and a reply without a newline (the error reply) comes with the store unchanged |
| Server.Respond | kvstore_server.c:184-207 | a SET updates the store and replies `OK\n`. A GET leaves the store as it is and replies the value plus a newline (never truncated by `snprintf`), or `NOT_FOUND\n`. Anything else replies the 40-byte error text |
| Server.HandleClient | kvstore_server.c:173-210 | after a failed read or an empty one, returns 0 and changes nothing but the stream. Otherwise applies the line to the store, writes its reply and returns 1 |
| Server.SetThenGet | kvstore_server.c:184-203 | after `SET k v` replies `OK\n`, a `GET k` replies `v` and a newline and leaves the store as it is |
| Server.GetAbsent | kvstore_server.c:189-202 | a GET of a key not in the store replies `NOT_FOUND\n` and changes nothing |
| Server.SetOverwrites | kvstore_server.c:131-140 | a SET of a stored key rebinds it without adding a key |
| Server.MalformedLinesRejected | kvstore_server.c:204-207 | `BOGUS foo`, a bare `GET` and a lower-case `get k` leave the store unchanged and get the error reply |

## Left out

- The socket setup and accept loop in `main` (`socket`, `bind`, `listen`, `accept`, `umask`, closing client descriptors). This is operating-system plumbing. The loop that calls `handle_client` until it returns 0 is not modelled either: `HandleClient` is one iteration.
- The signal handlers and the `atexit` cleanup that unlinks the socket and frees the chains. They manage the process lifecycle and release memory.
- The partial-write and `EINTR` retry loop inside `write_all`, and its -1 on a write error. `Connection.WriteAll` records the bytes delivered; `handle_client` ignores the result.
- The `printf` diagnostic on disconnect. It prints output and has no effect on the protocol.
- `sscanf` in general. Only the two patterns the server uses are modelled.
- `kvstore_client.c` is not part of this model.
- The chains are sequences, not heap nodes linked by `next`, so pointer identity and node sharing are not modelled. The order of entries within a chain is kept.
- `malloc` is represented by the boolean `allocOk`: the caller chooses whether the allocation succeeds.
- The platform is assumed to be LP64 with a signed `char`: `unsigned long` is 64 bits wide and bytes of 0x80 and above count as negative in `hash`.
- KvStore.Store.Set: on a key longer than 255 bytes it follows the corrected behaviour (truncate, then hash and compare), not the code, which hashes and compares the whole key; `handle_client` never passes such a key. The code as written is KvStore.SetKvAsWritten.
- KvStore.SetTable, KvStore.StoreSet: the same corrected key handling as Store.Set on keys longer than 255 bytes.
- The stream of read events is a finite sequence, so a `read` that blocks forever (an idle peer) or an endless run of `EINTR` cannot be represented: every `read_line` in the model terminates.
- LineReader.ReadLine: on a read error, the contract says nothing about the bytes the buffer held before the failure. `handle_client` discards them.
- LineReader.Connection.WriteAll: its contract does not model a failed `write`.

## Findings

| source | as written | input that shows it | evidently intended | confidence | as-written member | corrected member |
|---|---|---|---|---|---|---|
| kvstore_server.c:131-151 | `set_kv` hashes and `strcmp`s the whole key, but the new entry keeps only the key's first 255 bytes | any NUL-free key of 256 or more bytes passed to `set_kv`: `get_kv` of that key then returns NULL, and a second `set_kv` of it adds a second entry | truncate the key once, then hash, compare and store the same 255 bytes | low, not executed; `handle_client` never passes such a key, since `%255s` stops at 255 bytes | KvStore.SetKvAsWritten | KvStore.SetTable |
