# xlabs master-api: the master-server protocol engine in Dafny

This project models the protocol engine of the X Labs master-server API.
The engine asks the X Labs directory server (`master.xlabs.dev:20810`) for
the game servers of one game. It then sends every listed server a `getinfo`
query and collects the answers into records. The web front-end later pulls
named fields out of each record's info string.

Three source files are modelled.

- **backend/src/master.rs** is the multi-game client (IW4x, IW6x, S1x), in
  `master.dfy` (module `Master`).
  - It builds its request packets in zero-filled fixed arrays of 64 and 20
    bytes. The copy loop `for i in 4..command.len()` writes `command[i - 4]`,
    so the last four command bytes never reach the wire. The model keeps this
    behaviour and proves what is actually sent: `" full e"` instead of
    `" full empty"`, and 8 of the 12 challenge characters.
  - The byte-level parsing that both clients share is in `wire.dfy` (module
    `Wire`):
    - the transport result in its 4096-byte buffer;
    - the directory-reply parsing loop, proved against a reference definition;
    - the info-reply parsing loop, proved against a reference definition;
    - the aggregation of info results.
  - UTF-8 well-formedness (table 3-7 of the Unicode standard, section 3.9)
    and the trimming of NUL bytes are in `bytes.dfy` (module `Bytes`).
- **src/master.rs** is the older single-game client, in `legacy_master.dfy`
  (module `LegacyMaster`). It sends two literal packets: the whole IW4
  directory command, and `getinfo` with no challenge. It uses the same
  parsing loops, and its records carry no game name.
- **frontend/app.js**: `get_codInfo_value` and `parse_codInfo`, in
  `cod_info.dfy` (module `CodInfo`). JavaScript's `indexOf` and `substring`
  are modelled with their edge cases: an empty key is found at 0, and the
  bounds are clamped and swapped.

How the model represents the environment:

- **Network.** The network is a function from destination and packet to an
  optional reply datagram (`Wire.Network`). `Wire.Receive` turns a reply
  into the source's `SendResult`:
  - the reply is copied into a zero-filled 4096-byte buffer;
  - a longer datagram is truncated;
  - a missing reply has size 0, and size 0 is the error flag.
- **Challenges.** The random challenges are a parameter, `nat -> Challenge`:
  the `i`-th server is queried with the `i`-th challenge.
- **Panics.** `String::from_utf8(..).unwrap()` panics on a payload that is
  not UTF-8. The model makes this an explicit outcome, `Outcome.Panicked`,
  which ends `get_servers_full`.

The model keeps three behaviours of the code exactly as written:

- An info payload that is not UTF-8 panics. It is not treated as a failed
  server.
- Both parsing loops scan the whole 4096-byte buffer, not only the
  received bytes. Lemmas prove that the zero padding cannot change either
  result: `Wire.ServerListZeroPadding` and `Wire.InfoZeroPadding`.
- Servers are queried one after the other, in directory order.

## Model

| member | source | states |
|---|---|---|
| Bytes.CharWidth | backend/src/master.rs:275-276 | The width of the well-formed UTF-8 character that starts a byte string is 0 to 4 bytes and fits in the string. An ASCII byte is a 1-byte character. A non-ASCII lead byte starts a character of at least 2 bytes. |
| Bytes.CharWidthContinuation | backend/src/master.rs:275-276 | Every byte after the lead byte of a well-formed UTF-8 character is a continuation byte, at least 0x80. |
| Bytes.LeadOf | backend/src/master.rs:275-276 | A lead byte announces a width of at most 4. The width is 1 exactly for an ASCII byte. For a multi-byte character, the allowed range of its second byte lies within the continuation bytes. |
| Bytes.SmallBytesAreUtf8 | backend/src/master.rs:275-276 | A payload of ASCII bytes always decodes, so it never panics. |
| Bytes.Utf8Append | backend/src/master.rs:275-276 | Two well-formed UTF-8 texts concatenate to a well-formed text. |
| Bytes.Utf8ZeroPadding | backend/src/master.rs:275-276 | Appending zero bytes neither makes nor breaks UTF-8 well-formedness. |
| Bytes.LeadingNuls | backend/src/master.rs:277 | Counts the NUL bytes that start a string, stopping at the first non-NUL. |
| Bytes.TrailingNuls | backend/src/master.rs:277 | Counts the NUL bytes that end a string, stopping at the last non-NUL. |
| Bytes.TrimNul | backend/src/master.rs:277 | `trim_matches(char::from(0))` returns a contiguous slice with only NULs before and after it. The slice neither starts nor ends with NUL. |
| Bytes.TrimNulUnique | backend/src/master.rs:277 | A core that is surrounded by NULs and has non-NUL ends is exactly what trimming returns. |
| Bytes.TrimNulPadding | backend/src/master.rs:277 | Trailing zero padding never changes the trimmed text. |
| Wire.RecordBytes | backend/src/master.rs:176-187 | A directory record is six bytes. |
| Wire.ParseRecord | backend/src/master.rs:179-187 | A record reads as the address of its first four bytes and the big-endian port `bytes[4] * 256 + bytes[5]`. Encoding the result gives back the segment. |
| Wire.RecordRoundTrip | backend/src/master.rs:179-187 | Reading the record of a server gives back that server. |
| Wire.Decimal | src/master.rs:16-20 | The `Display` numeral is nonempty and all digits, and it has a leading 0 only for zero. |
| Wire.DecimalRoundTrip | src/master.rs:16-20 | The value of the numeral of `n` is `n`. |
| Wire.ServerText | src/master.rs:16-20 | The `"<ip>:<port>"` text of a server, which is also the destination string the backend builds with `format!("{}:{}", ip, port)` for `connect` (backend/src/master.rs, line 235). It is between 9 characters ("0.0.0.0:0") and 21 characters ("255.255.255.255:65535") long. |
| Wire.ServerTextPort | src/master.rs:16-20 | The text ends with a colon followed by the port's decimal digits, and no other colon comes before it. |
| Wire.ServerTextInjective | src/master.rs:16-20 | Distinct servers have distinct `"<ip>:<port>"` texts, so the destination names exactly one server. |
| Wire.Receive | backend/src/master.rs:82-102 | `send` returns a 4096-byte buffer, with the error flag exactly when the size is 0. A missing reply gives size 0 and an all-zero buffer. A reply gives the size `min(len, 4096)`, its bytes and then zeros. |
| Wire.HeaderLength | backend/src/master.rs:159-169 | The header scan reads at most four 0xFF bytes and stops at the first other byte. It reaches 4 exactly when the buffer starts with the 0xFF marker. |
| Wire.ScanSplits | backend/src/master.rs:171-202 | The segment scan cuts the body exactly at 0x5C. Joining the closed segments and then the open one gives back the body, and no segment contains 0x5C. |
| Wire.StepSplits | backend/src/master.rs:171-202 | One more byte keeps the scan exact: the closed segments and the open one still join to the bytes read, and none holds 0x5C. |
| Wire.JoinScans | backend/src/master.rs:171-202 | Delimiter-free segments, each followed by 0x5C, and then an undelimited tail scan back to those segments and that tail. |
| Wire.ScanCountsDelimiters | backend/src/master.rs:171-202 | The number of dispatched segments is the number of 0x5C bytes after the header. |
| Wire.ScanZeroPadding | backend/src/master.rs:159-204 | Zero bytes only extend the open segment, so the closed segments do not change. |
| Wire.ParseServerList | backend/src/master.rs:151-206 | The parsing loop of `get_servers` computes `ServerList`: the header scan, then the classification of the delimiter-closed segments. |
| Wire.ClassifyMeaning | backend/src/master.rs:172-199 | Segment 0 is the command whatever its length. The servers are the later 6-byte segments, read as records. `invalid` holds every other later segment, including empty ones. Both lists keep arrival order. |
| Wire.ClassifySnoc | backend/src/master.rs:172-199 | A newly closed segment is dispatched by its position alone. The segments before it keep their classification. |
| Wire.AddressesAndRejectsPartition | backend/src/master.rs:176-195 | Every later segment lands in exactly one of `servers` and `invalid`. |
| Wire.BadHeaderYieldsNothing | backend/src/master.rs:159-169 | A buffer that does not start with four 0xFF bytes yields no command, no servers and no invalid segments. The header keeps only the 0xFF bytes seen before the break. |
| Wire.DirectoryRoundTrip | backend/src/master.rs:151-206 | The marker, a command and then one delimited record per server parse back to that command and those servers in order, whatever undelimited bytes trail them. |
| Wire.RecordsParseBack | backend/src/master.rs:176-188 | The records of a server list read back as that list. |
| Wire.AddressHoldingDelimiterIsLost | backend/src/master.rs:171-195 | A server whose record holds 0x5C is split in two and not listed. For 92.0.0.1:28960 the result is an empty and a 5-byte invalid segment. |
| Wire.ServerListZeroPadding | backend/src/master.rs:159-204 | Scanning the zero padding after the received bytes gives the same result as scanning the received bytes alone. |
| Wire.HeaderZeroPadding | backend/src/master.rs:159-169 | Zero bytes after the received bytes never change the header length. |
| Wire.IndexOfByte | backend/src/master.rs:261-267 | The position of the first 0x5C: it holds 0x5C and none comes before it. |
| Wire.ParseInfoPayload | backend/src/master.rs:245-271 | The info loop computes `InfoPayload`. After a full header it skips up to and including the first 0x5C and collects the rest of the buffer. An incomplete header collects nothing. |
| Wire.DecodeInfo | backend/src/master.rs:273-279 | Decoding succeeds exactly when the payload is UTF-8, and then the text is the NUL-trimmed payload with `error` false. Otherwise it panics. |
| Wire.ReadInfo | backend/src/master.rs:238-279 | What `get_server_info` does after the exchange, equal to `InfoOf`. |
| Wire.InfoErrorOnlyOnTransportFailure | backend/src/master.rs:238-279 | `error` is true, with empty text, exactly when the transport failed. A bad header gives `error` false and empty text. |
| Wire.InfoRoundTrip | backend/src/master.rs:245-279 | A reply made of the marker, an echoed command, 0x5C and a trimmed UTF-8 text reads back as that text, whatever the zero padding. |
| Wire.InfoPayloadAfterEcho | backend/src/master.rs:261-270 | The payload is everything after the first 0x5C that follows the marker. |
| Wire.DecodePadded | backend/src/master.rs:273-279 | A trimmed UTF-8 text followed by zeros decodes to that text with `error` false. |
| Wire.InfoZeroPadding | backend/src/master.rs:251-279 | The zero padding the loop reads into the payload changes neither the panic nor the trimmed text. |
| Wire.PayloadZeroPadding | backend/src/master.rs:251-271 | The payload of a zero-padded buffer is the received payload followed by the zeros, or empty in both cases. |
| Wire.DecodeZeroPadding | backend/src/master.rs:273-279 | Appending zeros to a payload changes neither whether decoding panics nor the decoded text. |
| Wire.ReceiveDirectoryReply | backend/src/master.rs:147-206 | A well-formed directory reply that fits the buffer yields exactly the servers it lists. |
| Wire.ReceiveInfoReply | backend/src/master.rs:236-279 | A well-formed info reply that fits the buffer yields its text with `error` false. |
| Wire.ResponsivePanicSticks | backend/src/master.rs:287-298 | Once one info query has panicked, the whole aggregation has. |
| Wire.ResponsiveMeaning | backend/src/master.rs:287-298 | The aggregation panics exactly when some query panicked. Otherwise it holds as many entries as there were successful queries, no more than there are servers. The server at index i with a successful query sits at position "number of successes before i", paired with its text. So every successful server is kept exactly once, in directory order. Every entry is such a server at its own position. |
| Wire.ResponsiveKeepsAll | backend/src/master.rs:287-298 | When every query succeeds, every server is kept in directory order with its text. |
| Wire.ResponsiveDropsFailures | backend/src/master.rs:287-298 | When every query fails, nothing is kept. |
| Master.GameName | backend/src/master.rs:72-80 | A game's display name is ASCII, 3 or 4 characters long. |
| Master.GameToken | backend/src/master.rs:118-123 | A game's protocol token is ASCII, 4 to 7 characters long. |
| Master.GamesDistinct | backend/src/master.rs:72-80 | Two games share a display name exactly when they are the same game, and likewise a protocol token. |
| Master.DirectoryCommand | backend/src/master.rs:115-131 | `getservers\n`, the token and ` full empty`: 26 to 29 bytes. |
| Master.InfoCommand | backend/src/master.rs:210-217 | `getinfo ` and the 12-character challenge: 20 bytes. |
| Master.FillPacket | backend/src/master.rs:133-143 | The array-filling loops produce `Frame`. Bytes 0 to 3 are 0xFF, byte `i` is `command[i - 4]` for 4 ≤ i < \|command\|, and every other byte is 0. |
| Master.FrameDropsCommandTail | backend/src/master.rs:140-143 | A frame is the marker, the command without its last four bytes, and zeros up to the capacity. |
| Master.DirectoryRequest | backend/src/master.rs:127-143 | The directory request is the 64-byte frame of the game's command. |
| Master.DirectoryRequestOnWire | backend/src/master.rs:133-147 | The wire holds 64 bytes: the marker, `getservers\n`, the token, ` full e` and zeros. The command's final `mpty` is never sent. |
| Master.DirectoryFrame | backend/src/master.rs:133-143 | For every ASCII token of at most 7 characters, the frame is the marker, `getservers\n`, the token, ` full e` and zeros to 64 bytes, and the dropped tail is `mpty`. |
| Master.InfoRequest | backend/src/master.rs:210-233 | The info request is the 20-byte frame of the info command. |
| Master.InfoRequestOnWire | backend/src/master.rs:219-233 | The wire holds exactly the marker, `getinfo ` and the first 8 challenge characters. |
| Master.InfoRequestIgnoresChallengeTail | backend/src/master.rs:212-233 | Challenges that agree on their first 8 characters give the same packet. |
| Master.GetServers | backend/src/master.rs:113-207 | `get_servers` parses the reply to the game's request, `QueryServers`. |
| Master.GetServerInfo | backend/src/master.rs:209-280 | `get_server_info` reads the reply of `"<ip>:<port>"` to the info request, `QueryInfo`. |
| Master.GetServersFull | backend/src/master.rs:282-301 | The push loop of `get_servers_full` computes `ServersFull`, or panics when an info query panics. |
| Master.ServersFullMeaning | backend/src/master.rs:282-301 | The result panics exactly when some info query panicked. Otherwise it holds as many records as there were successful queries, no more than there are listed servers. The record for the listed server at index i with a successful query sits at position "number of successes before i" and holds the game's display name, that server's address and its text. So every successful server appears exactly once, in directory order, and every record is one of them. |
| Master.KeptRecords | backend/src/master.rs:287-298 | For any servers and their info outcomes, the records panic exactly when some outcome panicked. Otherwise there is one record per successful outcome, at the position given by the successes before it, so in server order. Each carries the given name, its server's address and its text, and every record is such a server at its own position. |
| Master.DirectoryTimeoutYieldsNothing | backend/src/master.rs:113-207 | A directory query with no reply lists no servers and gives an empty result. |
| Master.HealthyNetworkListsEveryone | backend/src/master.rs:282-301 | With a well-formed directory reply and well-formed info replies, the result holds every listed server in order, with the game's name and its text. |
| LegacyMaster.DirectoryRequestSentWhole | src/master.rs:103-105 | The literal directory request is the marker followed by the whole IW4 command, 33 bytes ending in `mpty`. |
| LegacyMaster.LiteralCommand | src/master.rs:103-105 | The literal packet is the marker followed by the multi-game client's IW4 command. |
| LegacyMaster.BackendDirectoryRequestLosesTail | src/master.rs:104-105 | The multi-game client's IW4 request agrees with this literal on 29 bytes and then sends zeros where the literal sends `mpty`. |
| LegacyMaster.InfoRequestHasNoChallenge | src/master.rs:169-170 | The info request is the 11 bytes marker + `getinfo`, which is also how the multi-game request begins. |
| LegacyMaster.GetServers | src/master.rs:101-165 | `get_servers` parses the reply to the literal request, `QueryServers`. |
| LegacyMaster.GetServerInfo | src/master.rs:167-214 | `get_server_info` reads the reply of `"<ip>:<port>"` to the literal `getinfo`, `QueryInfo`. |
| LegacyMaster.GetServersFull | src/master.rs:216-233 | The push loop of `get_servers_full` computes `ServersFull`. |
| LegacyMaster.ServersFullMeaning | src/master.rs:216-233 | The result panics exactly when some info query panicked. Otherwise it holds as many records as there were successful queries, no more than there are listed servers. The record for the listed server at index i with a successful query sits at position "number of successes before i" and holds that server's address and its text. So every successful server appears exactly once, in directory order, and every record is one of them. |
| LegacyMaster.KeptRecords | src/master.rs:222-231 | For any servers and their info outcomes, the records panic exactly when some outcome panicked. Otherwise there is one record per successful outcome, in server order, each with its server's address and text, and every record is such a server at its own position. |
| LegacyMaster.AllAnswerAllKept | src/master.rs:216-233 | When every listed server answers, every one is kept in directory order with its text. |
| LegacyMaster.DirectoryTimeoutYieldsNothing | src/master.rs:101-165 | A directory query with no reply lists no servers and gives an empty result. |
| LegacyMaster.HealthyNetworkListsEveryone | src/master.rs:216-233 | With a well-formed directory reply and well-formed info replies, the result holds every listed server in order with its text. |
| CodInfo.IndexOf | frontend/app.js:11 | `indexOf` is the first position where the key occurs, or -1 exactly when it occurs nowhere. The empty key is found at 0. |
| CodInfo.Clamp | frontend/app.js:14 | A `substring` bound is an index of the string: a negative bound becomes 0, a bound past the end becomes the length, and a bound in range is kept. |
| CodInfo.Substring | frontend/app.js:14-17 | Ordered bounds inside the string give exactly the text between them, so `substring(0, j)` with `j` the index of the backslash gives the text before it. A start inside the string and an end at or past its length, as in `substring(key_index + key.length + 1, codInfo.length)`, give the whole suffix. Reversed bounds, with the end at or below 0 and the start inside the string, give the prefix before the start. The result is never longer than the string. |
| CodInfo.SubstringSymmetric | frontend/app.js:14 | `substring` does not depend on the order of its two bounds. |
| CodInfo.CutAtSeparator | frontend/app.js:15-18 | The second `substring` keeps the text before the first backslash, or the whole text when there is none. |
| CodInfo.ValueAfter | frontend/app.js:13-18 | Cutting the rest of the string after a clamped start at the next backslash gives the value that starts there. |
| CodInfo.ValueAtUnique | frontend/app.js:13-18 | From a given start, at most one text runs up to the next backslash or the end. |
| CodInfo.GetCodInfoValue | frontend/app.js:10-28 | An empty string or an absent key gives 0 for an int field and `''` otherwise, even for a bool field. A key that occurs gives a boolean exactly when the bool flag is set. Otherwise it gives the string that starts one character after the key's first occurrence, contains no backslash, and ends at the next backslash or the end; the int flag does not convert it. |
| CodInfo.BoolFlagConvertsText | frontend/app.js:19-22 | A bool field applies `string_number_to_bool` to exactly the text the same key yields as a string. |
| CodInfo.FieldsWellFormed | frontend/app.js:31-52 | There are 20 fields with distinct names, and none is both bool and int. |
| CodInfo.ParseCodInfo | frontend/app.js:30-55 | The record has the 20 fields in source order. |
| CodInfo.ParsedEntryForName | frontend/app.js:30-55 | The only entry named after a field is that field's entry. It holds `get_codInfo_value` of that name with that field's flags. |
| CodInfo.ParsedKinds | frontend/app.js:30-55 | An entry is a boolean exactly for a bool field whose key occurs. It is the number 0 exactly for an int field whose key does not occur. Every other entry is a string, including a present int field. |
| CodInfo.EmptyInfoDefaults | frontend/app.js:24-27 | An empty info string gives 0 for the three counters and `''` for every other field, including the flags. |
| CodInfo.Split | frontend/app.js:15-18 | The source never splits the string. `Split` exists for the corrected reader `GetCodInfoValueExact`, which reads the value after the separator as the next part. Splitting at backslashes yields at least one part, and no part contains a backslash. |
| CodInfo.SplitInfoString | frontend/app.js:10-28 | Used by the corrected reader `GetCodInfoValueExact`; the source does not split. Splitting a `\key\value...` string of plain fields gives `""` followed by the keys and values in order. |
| CodInfo.SplitEntry | frontend/app.js:10-28 | Used by the corrected reader `GetCodInfoValueExact`; the source does not split. A `\key\value` entry in front of a text that starts a new part splits into an empty part, the key and the value. |
| CodInfo.ExactLookupRoundTrip | frontend/app.js:10-28 | The whole-key reader returns the first value whose key is exactly the field name, with the same defaults and conversions. |
| CodInfo.ClientsReadsMaxClients | frontend/app.js:37-42 | For `\sv_maxclients\18\clients\3` the `clients` field reads 18, while the whole-key reader reads 3. |

## Findings

| source | as written | input that shows it | evidently intended | confidence | as-written member | corrected member |
|---|---|---|---|---|---|---|
| frontend/app.js:11-14 | The key is found by `indexOf` anywhere in the info string, so it also matches inside a longer key or inside a value. | `\sv_maxclients\18\clients\3` makes `clients` read 18, the `sv_maxclients` value. | The value of the field whose whole key is the name. | high; not executed | CodInfo.ClientsReadsMaxClients | CodInfo.ExactLookupRoundTrip |

`CodInfo.GetCodInfoValueExact` is the corrected reader: it splits at backslashes and matches whole keys. `CodInfo.ParseCodInfo` keeps the code as written, because the served record is what the front-end actually computes.

## Left out

- `send` and `connect`: UDP bind, connect, the 300 ms read timeout and `recv_from` are socket I/O. They become the `Network` parameter and `Wire.Receive`.
- `socket.send(..).expect(..)` and the `unwrap` calls in `connect`: the panics of a failed send, bind or connect are not modelled.
- `utils::random_string`: it becomes the `challenges` parameter. The model only fixes the length and the ASCII range of each challenge.
- `utils::clone_into_array`: slicing the record is modelled directly.
- The `Serialize` implementations and the JSON they produce: serde is not part of this model. Records are Dafny datatypes.
- `println!` diagnostics.
- backend/src/main.rs, src/main.rs and src/api.rs: the scheduling, file writes and HTTP server are not part of this model.
- CodInfo.GetCodInfoValue: `string_number_to_bool` is an uninterpreted parameter `toBool`, because JavaScript's `Number()` coercion (floating point, NaN) is not modelled.
- `requireUncached`, the `fs` reads, the scheduler and the Express route with its `toLowerCase` filter: front-end I/O and Unicode case mapping.
- JavaScript strings are sequences of UTF-16 code units, while the model uses Dafny characters. The decoding of the UTF-8 info text into the front-end's string is not modelled.
- Master.GameName: states only that names are short ASCII strings and that distinct games have distinct names. The exact strings are in its definition.
- Master.GameToken: states only that tokens are short ASCII strings and that distinct games have distinct tokens. The exact strings are in its definition.
- The network is a deterministic function of the destination and the packet, so identical requests always get identical replies. The legacy client sends the same `getinfo` packet to every server, so it cannot model a server that answers one request and ignores a repeat of it.
- The source's `usize` and `u16` widths: the model's sizes never exceed 4096. The port is a `u16` newtype and cannot overflow.
