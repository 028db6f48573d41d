# PoolPumpControl: websocket telemetry, static files and sensor discovery

A Dafny model of the logic of the PoolPumpControl firmware (an ESP32 pool-pump controller) that the C sources actually implement:

- **Websocket sessions and telemetry** (`main/webServer.c`). A websocket session is classified at its handshake by the integer tag of the endpoint it opened: `WS_DEBUG` (1) for `/api/v1/ws/remoteDebugger`, `WS_DATA` (2) for `/api/v1/ws/data`. Any other tag is rejected. `sendData` packs the two 32-bit words `[dataType][data]` into an 8-byte binary frame and sends it to every session tagged `WS_DATA`. `sendToRemoteDebugger` sends the formatted text, cut to fit a 128-byte buffer, to every session tagged `WS_DEBUG`. Every other inbound frame is answered with the text "Debugger Message Received".
- **Static files** (`main/webServer.c`). The file path is the mount point followed by the URI, or by `/index.html` when the URI ends in `/`. It is built with `strlcpy`/`strlcat` in a `FILE_PATH_MAX`-byte buffer. The MIME type comes from the first of six case-insensitive suffix checks, with `text/plain` as the default.
- **Sensor discovery** (`main/temperature.c`). `getTempAddresses` searches the one-wire bus and fills the two-slot `tempSensors` array in discovery order. It keeps the global counter `sensorsFound` and warns unless that counter ends at 2. `getTemperatures` makes one conversion request, then reads the ambient sensor from slot 0 and the water sensor from slot 1.

Modules: `Wire` (bytes, 32-bit words, little-endian layout), `CString` (the libc string routines used: `strlen`, `strnlen`, `strlcpy`, `strlcat`, `strcasecmp`, and the store `vsnprintf` makes), `WebServer`, `StaticFiles`, `Temperature`, `Wrappers` (`Option`).

How the environment is represented:

- The HTTP server is a `WebServer.Server` value holding its client list as (descriptor, session context) pairs. The global handle `server` is an `Option<Server>`, where `None` stands for NULL.
- Each asynchronous send is a `Send` entry in the log that a method returns. No send's outcome affects another, so one failed send cannot stop the rest of a broadcast.
- The ds18b20 driver's `search` is an oracle: the list of answers it gives after `reset_search`. `getTempC` is a function from address to an opaque temperature.
- Whether the file system opens a path is a parameter.
- The formatted output of `vsnprintf` is a parameter.
- The ESP32 is little-endian, so `uint32_t payload[2]` goes out low byte first.
- Handlers are chosen for GET requests the way ESP-IDF's dispatcher with `httpd_uri_match_wildcard` chooses them: on the URL path before any `?`, in registration order. Every registration is for GET, so routing is modelled for GET requests only. The file handler still builds its path from the whole `req->uri`, query included, as `common_get_handler` does.
- `ESP_VFS_PATH_MAX` is 15, as in ESP-IDF's `esp_vfs.h`, which makes `FILE_PATH_MAX` 143.

What the firmware's C does not do:

- It has no pump decision engine, no threshold setter and no settings-frame protocol. The getters and setters declared in `main/pumpControl.h` and `tempIsDisconnected` declared in `main/temperature.h` are not defined in any of the `main/*.c` files (`main.c`, `pumpControl.c`, `sysTime.c`, `temperature.c`, `webServer.c`).
- `getTemperatures` reads each sensor once. `MAX_READ_ATTEMPTS` is declared but never used.
- An inbound websocket frame is not parsed. It is always answered with the fixed debugger reply.
- A new data session gets no replay of the settings.

## Model

| member | source | states |
|---|---|---|
| `CString.StrLen` | main/webServer.c:52 | the length of a buffer's C string is the index of its first NUL: no NUL comes before it, and a NUL (or the buffer's end) sits at it |
| `CString.StrLenUnique` | main/webServer.c:52 | any index with no NUL before it and a NUL or the end at it is that length |
| `CString.StrLenOf` | main/webServer.c:52 | the `strlen` loop over a buffer returns exactly that length |
| `CString.CStr` | main/webServer.c:52 | the C string a buffer holds is NUL-free and a prefix of the buffer |
| `CString.StrNLen` | main/webServer.c:162 | `strnlen` never exceeds its bound or the buffer, and stops at the first NUL within the bound |
| `CString.CopyTerminated` | main/webServer.c:49 | the store of `vsnprintf`/`strlcpy`/`strlcat`: as much text as fits before the last byte, then a NUL; the bytes before the start and after the NUL are unchanged |
| `CString.StrLCpy` | main/webServer.c:203 | `strlcpy` returns the source length, leaves the source cut to size minus one followed by a NUL, and so the buffer reads back as that prefix |
| `CString.StrLCat` | main/webServer.c:204-208 | `strlcat` on a terminated buffer returns old length plus source length and leaves the old string followed by as much of the source as fits, so the buffer reads as the concatenation cut to size minus one |
| `CString.ToLower` | main/webServer.c:15 | the `strcasecmp` fold turns the upper-case letter at position `k` of the alphabet into the lower-case letter at position `k`, and leaves every other character as it is |
| `CString.ToLowerSame` | main/webServer.c:15 | two characters fold to the same character if and only if they are equal or are one letter in its two cases |
| `CString.Lower` | main/webServer.c:15 | folding a string keeps its length and folds each character in place, so no upper-case letter is left and every other character is kept |
| `CString.LowerSame` | main/webServer.c:15 | two strings fold to the same string if and only if they have the same length and agree character by character up to ASCII case |
| `CString.EqualIgnoringCase` | main/webServer.c:15 | `strcasecmp(a, b) == 0` holds if and only if the strings have the same length and each pair of characters is equal or one letter in its two cases; so it holds for equal strings |
| `CString.PrefixOfCStr` | main/webServer.c:49-52 | cutting a buffer to `n` bytes and reading its C string equals reading the C string and cutting it to `n` characters |
| `CString.LowerIdempotent` | main/webServer.c:15 | ASCII case folding applied twice equals once, so folding a name before the suffix test changes nothing |
| `Wire.WordsRoundTrip` | main/webServer.c:75-87 | the bytes a `uint32_t` array occupies read back as the same words |
| `WebServer.WsDataType.Code` | main/webServer.h:5-11 | each `wsDataType_t` value is a code below 4 |
| `WebServer.DataTypeOfCode` | main/webServer.h:5-11 | a word names a data type exactly when it is below 4, and then it is that type's code |
| `WebServer.DataTypeCodeRoundTrip` | main/webServer.h:5-11 | decoding a data type's code yields that type |
| `WebServer.Broadcast` | main/webServer.c:60-66 | a pass over the client list sends at most one frame per listed client, and every frame sent is the given frame |
| `WebServer.BroadcastAppend` | main/webServer.c:89-96 | sends follow client-list order: the pass over two lists is the pass over the first, then over the second |
| `WebServer.BroadcastReaches` | main/webServer.c:89-96 | a descriptor receives the frame if and only if a listed session with that descriptor has the wanted context |
| `WebServer.BroadcastSkips` | main/webServer.c:89-96 | a descriptor that no listed client has receives nothing |
| `WebServer.BroadcastOncePerSession` | main/webServer.c:89-96 | with distinct descriptors, each session of the wanted context receives exactly one frame and every other session none |
| `WebServer.SendToTagged` | main/webServer.c:60-66 | the loop over the client list issues exactly the sends of `Broadcast` |
| `WebServer.DataFrame` | main/webServer.c:75-87 | the telemetry frame is binary, exactly 8 bytes long, and its two words are the data type's code and the data, unchanged |
| `WebServer.DataFrameRoundTrip` | main/webServer.c:75-87 | decoding the telemetry frame's two words yields the data type and the value that were sent |
| `WebServer.SendData` | main/webServer.c:70-98 | with no server nothing is sent; otherwise the telemetry frame goes to exactly the `WS_DATA` sessions, in client-list order |
| `WebServer.DebugText` | main/webServer.c:49-52 | the debugger text is exactly the first 127 characters (or fewer) of the C string the formatted text holds; so it is a NUL-free prefix of the formatted text, and the first 127 characters whenever the formatted text holds no NUL |
| `WebServer.DebugFrame` | main/webServer.c:54-58 | the debugger frame is a text frame carrying exactly the bytes of the debugger text, so it is at most 127 bytes long |
| `WebServer.SendToRemoteDebugger` | main/webServer.c:31-68 | with no server nothing is sent; otherwise the debugger frame built in the 128-byte buffer goes to exactly the `WS_DEBUG` sessions, in client-list order |
| `WebServer.DebugFrameLength` | main/webServer.c:49-57 | a NUL-free message is sent whole when shorter than 128 characters and cut to 127 otherwise |
| `WebServer.WsOutcome.HandshakeStatus` | main/webServer.c:121-129 | a handshake reports `ESP_OK` exactly when it was accepted, `ESP_FAIL` otherwise |
| `WebServer.ReplyFrame` | main/webServer.c:161-164 | the reply to an inbound frame is a text frame |
| `WebServer.ReplyFrameIsMessage` | main/webServer.c:161-167 | the reply to an inbound frame carries exactly the 25 bytes of "Debugger Message Received" |
| `WebServer.ReplyMessageText` | main/webServer.c:161 | the reply message has 25 characters, holds no NUL and fits in bytes |
| `WebServer.WsHandler` | main/webServer.c:105-167 | a GET request (the handshake) is accepted if and only if its tag is `WS_DEBUG` or `WS_DATA`, and an accepted session's context is that tag; a rejected one stores no context; any other request is answered with the text frame of exactly the 25 bytes of "Debugger Message Received" |
| `WebServer.Registrations` | main/webServer.c:267-293 | three GET handlers with distinct templates: two websocket endpoints first, then the `/*` file handler last, so the file handler only gets what neither endpoint claims |
| `WebServer.UriMatches` | main/webServer.c:261 | a template matches the identical path, and a path it matches is at least as long as the template without its `*` |
| `WebServer.UriPath` | main/webServer.c:261 | the path a handler is chosen on is the longest prefix of the URI without a `?`; when it is shorter than the URI, a `?` follows it |
| `WebServer.UriPathOfQuery` | main/webServer.c:261 | the path of `path?query` is `path`, and a URI without `?` is its own path |
| `WebServer.FirstMatch` | main/webServer.c:261-293 | the handler chosen for a URI is that of a registration whose template matches it, with no earlier registration matching; there is one exactly when some registration matches |
| `WebServer.CatchAllMatches` | main/webServer.c:288 | the `/*` template matches every path that starts with `/` |
| `WebServer.Route` | main/webServer.c:261-293 | every GET request whose URI path starts with `/` is handled by some registration |
| `WebServer.RouteEndpoints` | main/webServer.c:267-284 | `/api/v1/ws/remoteDebugger` is routed to the websocket handler with `WS_DEBUG`, `/api/v1/ws/data` to it with `WS_DATA` |
| `WebServer.RouteTags` | main/webServer.c:267-293 | for GET requests, the two websocket paths are the only ones routed to the websocket handler, and every other path starting with `/` goes to the file handler; both judged on the path before `?` |
| `WebServer.RouteIgnoresQuery` | main/webServer.c:261-293 | a query string does not change which handler a path is routed to |
| `WebServer.OpenSession` | main/webServer.c:107-129 | a session opened by a handshake keeps its descriptor and has context `WS_DEBUG` or `WS_DATA`; a handshake at `/api/v1/ws/remoteDebugger` opens a `WS_DEBUG` session and one at `/api/v1/ws/data` a `WS_DATA` session |
| `WebServer.SessionsGetTheirOwnStream` | main/webServer.c:60-96 | a client that connected at the data endpoint receives each telemetry frame exactly once and no debugger text; one that connected at the debugger endpoint receives each debugger text exactly once and no telemetry |
| `StaticFiles.NewServerContext` | main/webServer.c:257 | the server context keeps the base path cut to `ESP_VFS_PATH_MAX` characters |
| `StaticFiles.RequestedFile` | main/webServer.c:204-208 | the file appended to the base path is the URI itself when the URI does not end in `/`, and `/index.html` when it does; it never ends in `/` |
| `StaticFiles.FilePath` | main/webServer.c:203-208 | the file path is at most `FILE_PATH_MAX` - 1 characters and a prefix of base path plus requested file |
| `StaticFiles.FilePathShape` | main/webServer.c:203-208 | the file path is never longer than `FILE_PATH_MAX` - 1, is a prefix of base path plus requested file, equals it when it fits and is cut to exactly `FILE_PATH_MAX` - 1 otherwise |
| `StaticFiles.DirectoryUrisShareIndex` | main/webServer.c:204-205 | every URI ending in `/` leads to the same path, base path plus `/index.html`, whatever directory it names |
| `StaticFiles.BuildFilePath` | main/webServer.c:198-208 | `strlcpy` then `strlcat` into the `filepath` buffer yield exactly `FilePath(base, uri)`, at most `FILE_PATH_MAX` - 1 characters |
| `StaticFiles.HasExtension` | main/webServer.c:15 | a name has the extension if and only if each of its last characters is the suffix's character at that place up to ASCII case (`.HTML` matches `.html`, `.txt` does not); an exact suffix matches |
| `StaticFiles.FirstMatchingType` | main/webServer.c:176-193 | the table reading of the suffix checks yields the default or one of the table's types |
| `StaticFiles.FirstMatchingTypeNoMatch` | main/webServer.c:178-192 | when no suffix of the table matches, the table reading yields the default |
| `StaticFiles.FirstMatchingTypeIsFirst` | main/webServer.c:179-191 | when some suffix matches, the table reading yields the type of a matching entry with no earlier entry matching |
| `StaticFiles.FirstMatchingDefaultIffNoMatch` | main/webServer.c:178-192 | in a table none of whose types is `text/plain`, the reading is `text/plain` if and only if no suffix matches |
| `StaticFiles.ContentTypesFit` | main/webServer.c:178-191 | every suffix checked is at most as long as `.html`, and none of the six types is `text/plain` |
| `StaticFiles.ContentType` | main/webServer.c:176-193 | the content type is `text/plain` or one of the six types of the table |
| `StaticFiles.ContentTypeIsFirstMatch` | main/webServer.c:178-191 | the if-chain gives the type of the first suffix in the order `.html`, `.js`, `.css`, `.png`, `.ico`, `.svg` that matches |
| `StaticFiles.ContentTypeDefaultIffNoMatch` | main/webServer.c:178-191 | the type is `text/plain` if and only if none of the six suffixes matches |
| `StaticFiles.HasExtensionIgnoresCase` | main/webServer.c:15 | the suffix test gives the same answer on a name and on its lower-cased form |
| `StaticFiles.ContentTypeIgnoresCase` | main/webServer.c:176-193 | the content type of a path and of its lower-cased form are the same |
| `StaticFiles.CommonGetHandler` | main/webServer.c:196-217 | the request fails with "Failed to read existing file" if and only if the built path does not open; otherwise that path is served with its content type |
| `StaticFiles.MountPointPathsHaveRoom` | main/main.c:197 | with the mount point `/www` every built path is at least five characters long, so the suffix checks are defined |
| `Temperature.DiscoverAsWritten` | main/temperature.c:22-24 | the loop as written ends at the entry count plus the devices it recorded, which are the bus's first answers in order; from below 2 it never passes 2; it stops short of 2 only at a search that found nothing |
| `Temperature.Discover` | main/temperature.c:22-25 | from a count of at most 2 the pass ends at count plus the number recorded, never above 2; the recorded addresses are the bus's first answers, in order; below 2 it stopped at a search that found nothing, one search after the last device; from 2 it does nothing |
| `Temperature.AsWrittenOverrunsAfterTwo` | main/temperature.c:22-24 | the loop as written, entered with a count of 2, records a found device in slot 2, outside the two-slot array |
| `Temperature.DiscoverAgreesBelowTwo` | main/temperature.c:22-25 | from a count below 2 the bounded loop and the loop as written record the same addresses, reach the same count and make the same searches |
| `Temperature.DiscoverIs` | main/temperature.c:22-25 | a pass is determined by the devices it records: leading answers of the bus that either fill the slots or are followed by "none left" |
| `Temperature.StopsAtFirstFailure` | main/temperature.c:22 | if the bus reports `j` devices and then none, the count grows by `j`, capped at 2 |
| `Temperature.SecondPassResumes` | main/temperature.c:12-25 | a second pass starts at the count the first left, never lowers it, stays within 2, and does nothing once both sensors are found |
| `Temperature.SearchedInto` | main/temperature.c:22-25 | a loop exit over the two slots (both filled, or the search after the last device found none) leaves exactly the pass of `Discover`: the slots from the entry count onwards hold the devices found, and every other slot is as it was |
| `Temperature.Sensors.constructor` | main/temperature.c:11-12 | at start-up the count is 0 and both slots hold the zero address |
| `Temperature.Sensors.GetTempAddresses` | main/temperature.c:14-31 | the count becomes that of `Discover`; found addresses go to consecutive slots from the entry count and no other slot changes; it warns if and only if the final count is not 2; slots beyond the count keep the zero address |
| `Temperature.Sensors.ConfigureTempSensors` | main/temperature.c:42-52 | discovery runs into the module's own `tempSensors` array with the same result as `GetTempAddresses` |
| `Temperature.Sensors.GetTemperatures` | main/temperature.c:33-40 | one conversion request precedes both reads; ambient is read from slot 0 and water from slot 1; with fewer than two sensors found, water is read from the zero address |

## Left out

- The eight threshold getters and setters (`main/pumpControl.h:20-28`) and `tempIsDisconnected` (`main/temperature.h:5`). They are declared but not defined in any `main/*.c` file. The C has no pump decision logic, dwell timer or settings frame, so there is nothing to model.
- `main/pumpControl.c`: FreeRTOS timer, queue and periodic-delay plumbing, with no decision logic.
- `main/main.c` (WiFi, mDNS, NetBIOS, NVS, SPIFFS, event callbacks, its own retrying copy of `getTempAddresses`) and `main/sysTime.c` (SNTP and clock wrappers). These are hardware and network bring-up.
- `WebServer.WsHandler`: every request that is not a GET is taken as a received frame. The early returns when `httpd_ws_recv_frame` or `calloc` fails (`webServer.c:137-158`) are not modelled, because receiving is done by the HTTP library. The status returned after the reply is whatever the library's send returns, which is also not modelled.
- `WebServer.SendData`, `WebServer.SendToRemoteDebugger`: assume `httpd_get_client_list` returns the whole client list. The source receives it into a 7-slot `clientFds` array and passes the count argument uninitialised (`webServer.c:33-34`, `webServer.c:46`). The model puts no bound on the list, and what the library does with that count or with more than 7 clients is not part of this model.
- `WebServer.Route`: routes GET requests only. A request with another method to a registered path is answered by ESP-IDF itself (405), before any handler of this program runs.
- Send results and delivery. `httpd_ws_send_frame_async` return values are ignored by the source, and delivery belongs to the library.
- The formatting done by `vsnprintf`. The formatted text is an input, and only its store into the 128-byte buffer is modelled.
- Logging (`LOGI`, `LOGW`, `ESP_LOGI`). The warning of `getTempAddresses` is a returned flag.
- `start_web_server`'s `calloc`/`abort`, `httpd_start` and the mechanics of handler registration. Only the registration table and the copy of the base path are modelled.
- Opening, reading and chunked sending of a file (`webServer.c:218-243`). The file system and the HTTP library do this. Whether the path opens is a parameter. The URI is taken as `req->uri` holds it.
- The ds18b20 driver: `ds18b20_init`, `ds18b20_setResolution`, the search algorithm (an oracle of answers here) and the temperature conversion (an opaque function of the address). The float values are never interpreted. `search` is assumed to write its slot only when it reports a device.
- Two cases where the C is undefined behaviour are preconditions. `StaticFiles.HasExtension` and `StaticFiles.ContentType` need a name at least as long as the suffix. `StaticFiles.FilePath` and `StaticFiles.BuildFilePath` need a non-empty URI. `StaticFiles.MountPointPathsHaveRoom` shows that the program's mount point always meets the first.
- `Temperature.Sensors.GetTempAddresses`: implements the loop with its evident bound (see Findings). For every entry count the program can reach before both sensors are found, it is identical to the source (`Temperature.DiscoverAgreesBelowTwo`).

## Findings

| source | as written | input that shows it | evidently intended | confidence | as-written member | corrected member |
|---|---|---|---|---|---|---|
| main/temperature.c:22-24 | the loop searches into slot `sensorsFound` first and compares the count with 2 only after a successful search has incremented it; the counter is a global that no call resets | a second call of `getTempAddresses` after both sensors were found (`sensorsFound` = 2) with one device on the bus: the search writes slot 2 of the two-slot `tempSensors` array and the count becomes 3 | no search once both slots hold addresses, so the count stays at 2 and no slot outside the array is written | not executed; low impact: its only call site is in `configureTempSensors` (temperature.c:45), which no function of the program calls (`app_main` uses `main.c`'s own copy of `getTempAddresses`) | `Temperature.AsWrittenOverrunsAfterTwo` (on `Temperature.DiscoverAsWritten`) | `Temperature.Discover`, used by `Temperature.Sensors.GetTempAddresses` |
