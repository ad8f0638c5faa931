# ESP32 I/O controller firmware: a verified model of its core

The firmware runs on an ESP32. It keeps a station Wi-Fi link alive, with a supervisor
that restarts the device after repeated connect failures or lost gateway pings. It also
serves a small HTTP interface:

- `/app*` serves an embedded single-page application;
- `/api*` takes a pin number and pulses that GPIO pin;
- `/status*` reports the uptime;
- `/ota*` accepts a firmware image, writes it to the next OTA partition and reboots into it.

This project models the logic of those handlers and of the supervisor in Dafny and
proves properties about it.

| file | module | models |
|---|---|---|
| `wrappers.dfy` | `Wrappers` | `Option`, the model's NULL / error result |
| `cstrings.dfy` | `CStrings` | the C library pieces in use: `%d`, `%02d`, `atoi`, `strcmp`, `strstr`, `strrchr` |
| `ota_handler.dfy` | `OtaHandler` | `http_handle_ota` and the rollback check of `http_ota_handler_install` |
| `wifi_task.dfy` | `WifiTask` | `wifi_connect`, `ping_gateway`/`ping_on_end`, `wifi_watch_task`, the config check of `init_wifi`, the auth and cipher labels |
| `http_task.dfy` | `HttpTask` | `http_handle_status` (uptime), `http_handle_app`, `process_api`, `http_handle_api`, `gpio_ctrl_task` |
| `part_info.dfy` | `PartInfo` | `part_type`, `part_subtype`, `part_info_show` |

### How each part is modelled

**OTA upload.**
- The upload handler is a function over an effect trace. `Handle` runs the handler for three inputs: the declared content length, the bytes the client sends, and a sequence of socket events (`Timeout`, `SocketError`, `Arrived(avail)`).
- The trace records each response chunk, each `esp_ota_*` call and the spawn of the restart task, in program order.
- `Handle` is the handler for a `total_size` that is not negative.
- `HandleRequest` starts one step earlier, from the request's 32-bit `content_len`. `TotalSize` is line 33's conversion of that length to `int`. A length of 2^31 or more comes out negative, and then the loop is skipped.
- `HandleOta` is the imperative handler itself, from `content_len` on, with `remain` an `int` as in C. It is proved to produce exactly the trace of `HandleRequest`.
- One pass of the loop is split along the source: `Read` is the request of lines 45-51 and `Advance` the write and mark of lines 61-67. Each is proved against the pure `Step`.

**Wi-Fi supervisor.**
- The supervisor is a class `Supervisor` whose fields are the firmware's counters and flags. Its `Step` and `Watch` methods are proved against the pure `Iteration` and `Rounds` functions.
- The driver is reduced to inputs: whether a connect got its address within the 10 s wait, and what a ping cycle saw.
- The `wifi_stop` semaphore is the field `stopPending`. `vSemaphoreCreateBinary` (wifi_task.c:256) leaves it given, and the take at line 260 consumes that give. After that, only a failed `wifi_connect` gives it (line 185).
- Each `wifi_disconnect` of the loop (line 273) is counted in the field `disconnects`.

**Asset selection.** `SelectContent` keeps the `for` loop of `http_handle_app`. It is proved to return the last entry of `content_list` whose path occurs in the URI, or entry 0 when none does.

## Model

| member | source | states |
|---|---|---|
| `OtaHandler.Prelude` | main/http_ota_handler.c:27-41 | six effects, opening with the text/plain type and ending with `esp_ota_begin` of the declared length |
| `OtaHandler.Closing` | main/http_ota_handler.c:56-76 | `esp_ota_end`, the boot partition and the restart task appear exactly on completion; nothing follows a run that is still receiving; no closing call is a write |
| `OtaHandler.Threshold` | main/http_ota_handler.c:64 | for `percent` up to 100 the threshold lies in 0..`total` and is `total * (100 - percent) / 100` rounded down |
| `OtaHandler.RequestSize` | main/http_ota_handler.c:45-50 | each read asks for the whole 1024-byte buffer, or for what remains when that is less; never 0 and never more than remains |
| `OtaHandler.Receive` | main/http_ota_handler.c:51 | `httpd_req_recv` returns -3 exactly on a timeout, negative exactly when nothing arrived, and otherwise at most the requested length and at most the bytes the client still has; it returns a positive count when bytes are ready |
| `OtaHandler.Step` | main/http_ota_handler.c:44-68 | a timed-out read leaves the session unchanged and retries; a read of 0 or less that is not a timeout aborts; a successful pass keeps `percent` even and within 2..100, extends the trace and never raises `remain` |
| `OtaHandler.Loop` | main/http_ota_handler.c:44-79 | the trace of any run from a session is the prelude, what the session emitted and the closing calls of the outcome; the trace only grows, `remain` never rises, and the run completes exactly when `remain` reaches 0 |
| `OtaHandler.TotalSize` | main/http_ota_handler.c:33 | the 32-bit length read as an `int` lies in the `int` range; it is the length itself below 2^31, and from 2^31 on it is negative and 2^32 less than the length |
| `OtaHandler.Handle` | main/http_ota_handler.c:42-79 | for a `total_size` that is not negative, every run begins with the prelude, never has more left than was declared, and completes exactly when nothing remains |
| `OtaHandler.HandleRequest` | main/http_ota_handler.c:15-79 | every request's trace begins with the prelude; a length below 2^31 runs as `Handle`; a longer declared length always completes |
| `OtaHandler.HandleShape` | main/http_ota_handler.c:42-79 | in every run, failed or not, the trace is the prelude, chunks each followed by at most one mark, and the closing calls; the bytes written are a prefix of the bytes sent, with the rest still pending; `remain` plus the bytes written is `total`; the marks number `(percent-2)/2`; the run completes exactly when `remain` is 0 |
| `OtaHandler.Read` | main/http_ota_handler.c:45-51 | the read asks for `RequestSize(remain)` and returns what `httpd_req_recv` gives for that request |
| `OtaHandler.Advance` | main/http_ota_handler.c:61-67 | after a read of `n > 0` bytes, the write, the count-down and the optional mark move the session exactly as `Step` does |
| `OtaHandler.HandleOta` | main/http_ota_handler.c:15-79 | the handler, from the request's declared length on, produces, effect for effect, the trace and outcome of `HandleRequest` |
| `OtaHandler.TraceLayout` | main/http_ota_handler.c:27-41 | every run starts with the text/plain type, the banner, the scale, the ruler, the first mark and `esp_ota_begin`; it continues with writes and marks only, and ends with the closing calls of its outcome |
| `OtaHandler.CompletedWritesWholeImage` | main/http_ota_handler.c:61-76 | on completion the chunks written to flash, in order, are exactly the first `total` bytes sent; the trace then ends the image, sets the boot partition, sends "*\nComplete.\n", ends the response and spawns the restart task |
| `OtaHandler.FailedNeverActivates` | main/http_ota_handler.c:52-58 | a fatal read ends the response with 500 "Failed to receive firmware."; the image is never ended or made the boot partition, and no restart is scheduled |
| `OtaHandler.ActivationNeedsWholeImage` | main/http_ota_handler.c:44-70 | for a `total_size` that is not negative, the boot partition is set only when the run completed with all declared bytes received, using at least one write per 1024 bytes |
| `OtaHandler.OversizedLengthActivatesUnwritten` | main/http_ota_handler.c:33-76 | a declared length of 2^31 or more skips the loop; the trace is the prelude and then the closing calls of a completed run, so the boot partition is set with no write at all |
| `OtaHandler.ProgressBounded` | main/http_ota_handler.c:43-67 | `percent` stays even within 2..100, so the `uint8_t` never wraps; the marks drawn number `(percent-2)/2`, at most 49, and at most one per write |
| `OtaHandler.EmptyImageCompletes` | main/http_ota_handler.c:42-44 | with content length 0 the loop is skipped and the image is activated with no write |
| `OtaHandler.TimeoutsChangeNothing` | main/http_ota_handler.c:53-55 | the handler behaves exactly as if every timed-out read had never happened |
| `OtaHandler.DropTimeouts` | main/http_ota_handler.c:53-55 | the event sequence with its timeouts removed holds no timeout, is no longer than the original, and keeps every other event that occurs in it |
| `OtaHandler.DropTimeoutsAppend` | main/http_ota_handler.c:53-55 | removing the timeouts from two event sequences in a row gives the two results in the same order |
| `OtaHandler.TwoKilobyteImage` | main/http_ota_handler.c:44-68 | a 2048-byte image read in full is written as two 1024-byte chunks, each followed by one progress mark |
| `OtaHandler.InstallRollbackCheck` | main/http_ota_handler.c:92-101 | the rollback is cancelled exactly when rollback support is compiled in, the state query succeeds and the image is pending verification; the image is then valid and otherwise unchanged |
| `OtaHandler.RollbackCheckIdempotent` | main/http_ota_handler.c:92-101 | a second check changes nothing, and after a successful query no image is left pending verification |
| `WifiTask.AuthModeStr` | main/wifi_task.c:42-60 | "?" is returned exactly for values outside the six known auth modes |
| `WifiTask.AuthModeLabels` | main/wifi_task.c:42-60 | the six auth mode labels are pairwise distinct, so a label names one mode |
| `WifiTask.CipherTypeStr` | main/wifi_task.c:62-80 | "?" is returned exactly for values outside the six known cipher types |
| `WifiTask.CipherTypeLabels` | main/wifi_task.c:62-80 | the six cipher labels are pairwise distinct, so a label names one cipher type |
| `WifiTask.ShouldSaveConfig` | main/wifi_task.c:149-153 | an unchanged SSID and password are never rewritten |
| `WifiTask.SaveConfigIffChanged` | main/wifi_task.c:149-153 | the configuration is rewritten exactly when the stored SSID or stored password differs from the compiled-in one |
| `WifiTask.Received` | main/wifi_task.c:204-207 | the reply count of a session is at most the number of requests |
| `WifiTask.AllTimeout` | main/wifi_task.c:209-231 | `all_timeout` holds after a cycle exactly when there was no IP information or none of the requests was answered |
| `WifiTask.ReceivedZeroIffNoReply` | main/wifi_task.c:209 | the reply count is 0 exactly when no request was answered |
| `WifiTask.AfterConnect` | main/wifi_task.c:175-187 | a connect that gets its address resets `wifi_discon_count` to 0; a timed-out one adds exactly 1 and gives `wifi_stop`; nothing else changes |
| `WifiTask.GiveReady` | main/wifi_task.c:261-263 | the readiness mutex is given once exactly when the connect succeeded and the mutex exists; nothing else changes |
| `WifiTask.Boot` | main/wifi_task.c:250-263 | the task enters its loop running, with no lost cycle, `all_timeout` clear, no disconnect and no watchdog reset yet |
| `WifiTask.AfterPing` | main/wifi_task.c:279-290 | `all_timeout` is the cycle's result; a lost cycle adds one to `timeout_repeat` and an answered one resets it; the device restarts exactly when the count reaches 5, and otherwise the watchdog is fed once; nothing else changes |
| `WifiTask.Iteration` | main/wifi_task.c:265-291 | after a pass `wifi_stop` is given exactly when it was given, the count was below 5 and the reconnect failed; a disconnect happens exactly when `wifi_stop` was given below the count of 5; the watchdog is fed exactly when the device keeps running |
| `WifiTask.Rounds` | main/wifi_task.c:265-291 | a restarted device changes no more; a running one has fed the watchdog once per pass, and never more than once per pass |
| `WifiTask.BootValid` | main/wifi_task.c:250-263 | after boot the supervisor is running with the invariant established; a stop is pending and one failure counted exactly when the first connect failed; the mutex was given exactly when it succeeded and exists |
| `WifiTask.IterationValid` | main/wifi_task.c:265-291 | each pass keeps the invariant: failure count at most 5, fewer than 5 lost cycles while running, a pending stop exactly when a failure is counted |
| `WifiTask.RoundsValid` | main/wifi_task.c:265-291 | the invariant holds after any number of passes |
| `WifiTask.StopRestartIff` | main/wifi_task.c:266-273 | a pass restarts for connect failures exactly when `wifi_stop` was given and the count reached 5; it then restarts with only `wifi_stop` taken: the `disconnects` count, the counters, the mutex and the watchdog are untouched |
| `WifiTask.ReplyResetsTimeouts` | main/wifi_task.c:281-290 | a cycle with any answer resets `timeout_repeat` to 0, clears `all_timeout`, keeps the device running and feeds the watchdog once |
| `WifiTask.ReadyOnlyAfterConnect` | main/wifi_task.c:274-276 | a pass gives the readiness mutex exactly when it reconnects, the reconnect succeeds and the mutex exists |
| `WifiTask.ConnectFailuresRestart` | main/wifi_task.c:175-276 | from `c` counted failures and fewer lost cycles than that, `n` passes whose reconnects all fail restart the device exactly when `c + n > 5`, whatever the pings answer; until then each pass adds one failure |
| `WifiTask.FiveFailedConnectsRestart` | main/wifi_task.c:259-276 | after a failed first connect, passes that keep failing restart the device exactly from the fifth pass on, whatever the pings answer: passes 1 to 4 reconnect and fail, bringing the count to 5, and pass 5 restarts without reconnecting |
| `WifiTask.PingTimeoutsRestart` | main/wifi_task.c:281-289 | from `r` lost cycles, `n` more restart the device exactly when `r + n` reaches 5; until then `timeout_repeat` is `r + n` and the watchdog was fed once per pass |
| `WifiTask.FourLostCyclesKeepRunning` | main/wifi_task.c:281-289 | up to four lost cycles in a row after an answered one never restart the device |
| `WifiTask.Supervisor.constructor` | main/wifi_task.c:250-263 | the task's state on entering its loop is `Boot` |
| `WifiTask.Supervisor.Connect` | main/wifi_task.c:170-188 | `wifi_connect` reports success exactly when the address arrived, and updates the counters as `AfterConnect` |
| `WifiTask.Supervisor.PingOnEnd` | main/wifi_task.c:202-213 | `all_timeout` becomes "no replies received"; nothing else changes |
| `WifiTask.Supervisor.PingGateway` | main/wifi_task.c:215-245 | `all_timeout` becomes true without pinging when there is no IP information, and otherwise reflects the session's replies |
| `WifiTask.Supervisor.Step` | main/wifi_task.c:265-291 | one pass of the loop changes the state as `Iteration` says |
| `WifiTask.Supervisor.Watch` | main/wifi_task.c:265-291 | the loop, fed rounds until they run out or the device restarts, changes the state as `Rounds` says |
| `HttpTask.ElapsedSeconds` | main/http_task.c:140 | the seconds value is below 2^32 and, before the cast can wrap, is the whole seconds in the microsecond timer |
| `HttpTask.Decompose` | main/http_task.c:141-144 | `day*86400 + hour*3600 + min*60 + sec` is the elapsed seconds, with `hour < 24`, `min < 60`, `sec < 60` |
| `HttpTask.DecomposeUnique` | main/http_task.c:141-144 | these are the only fields with those bounds that add up to the elapsed seconds |
| `HttpTask.ElapsedText` | main/http_task.c:146 | the text starts with the decimal day count and has exactly 16 characters after it |
| `HttpTask.ElapsedTextLayout` | main/http_task.c:146 | the day count, " day(s) ", two-digit hours, ':', two-digit minutes, ':' and two-digit seconds sit at fixed offsets after the day count |
| `HttpTask.ElapsedTextReadsBack` | main/http_task.c:146 | the text is the day count, " day(s) ", then two digits each of hours, minutes and seconds separated by colons, and the fields it spells add up to the elapsed seconds |
| `HttpTask.ElapsedTextFits` | main/http_task.c:134-146 | for every 32-bit uptime the text and its terminator fit the 32-byte `elapsed_str` |
| `HttpTask.ElapsedExample` | main/http_task.c:141-146 | 90061 seconds reads "1 day(s) 01:01:01" |
| `HttpTask.ContentList` | main/http_task.c:39-47 | seven entries carrying the embedded files in order; only `index.htm`, the first, is served without gzip |
| `HttpTask.LastMatch` | main/http_task.c:53-57 | a found index is an entry of the list whose path occurs in the URI |
| `HttpTask.LastMatchIsLast` | main/http_task.c:53-57 | the search finds nothing exactly when no path occurs in the URI; otherwise it finds a path that occurs, and none after it does |
| `HttpTask.Served` | main/http_task.c:53-60 | the served entry is the last one whose path occurs in the URI, or entry 0 when none does |
| `HttpTask.SelectContent` | main/http_task.c:51-60 | the `for` loop and its NULL fallback pick `Served` |
| `HttpTask.HandleApp` | main/http_task.c:62-68 | the reply has the chosen entry's content type and its bytes as body, and has the gzip header exactly when the entry is gzipped |
| `HttpTask.DotlessUriServesIndex` | main/http_task.c:53-60 | a URI without a '.' matches no asset and is served `index.htm` |
| `HttpTask.ProcessApi` | main/http_task.c:101-115 | the call fails exactly when the URI has no '/'; otherwise the pin fits in 32 bits |
| `HttpTask.ApiReadsDecimalPin` | main/http_task.c:105-109 | a decimal number after the last '/' is read back as the pin, modulo 2^32, whatever non-digit text follows it |
| `HttpTask.ApiNonNumericSuffixIsPinZero` | main/http_task.c:105-109 | a suffix that starts with no space, sign or digit still succeeds, with pin 0 |
| `HttpTask.GpioNum` | main/http_task.c:83 | the pulse task keeps the low 8 bits of the pin: the result is below 256 and differs from the pin by a multiple of 256, so pins below 256 pass unchanged |
| `HttpTask.PinMask` | main/http_task.c:87 | the mask is defined exactly for pins below 64 |
| `HttpTask.PinMaskSingleBit` | main/http_task.c:87 | the mask has exactly one bit set, the pin's own, and fits in 64 bits |
| `HttpTask.HandleApi` | main/http_task.c:117-128 | the reply is always text/json; it is "OK" with a pulse on the 8-bit pin exactly when the URI has a '/', and "NG" with no pulse otherwise |
| `HttpTask.ApiRouteAlwaysOk` | main/http_task.c:117-128 | every URI the `/api*` route accepts has a '/', so that route always answers "OK" |
| `PartInfo.PartType` | main/part_info.c:4-14 | "app" exactly for application partitions, "data" exactly for data partitions, "?" exactly for every other type |
| `PartInfo.PartSubtype` | main/part_info.c:16-83 | the subtype is looked up in the table of the partition's own type; any other type gives "?" |
| `PartInfo.AppSubtype` | main/part_info.c:19-56 | an application subtype has a label exactly when it is the factory image ("Factory application") or one of the 16 OTA slots |
| `PartInfo.DataSubtype` | main/part_info.c:58-79 | a data subtype has a label exactly when it is one of the nine known ones, and that label is one of the nine data labels |
| `PartInfo.AppOtaLabels` | main/part_info.c:22-53 | OTA slot n, subtype 0x10+n, is labelled "OTA n" for n from 0 to 15 |
| `PartInfo.DataLabelsDistinct` | main/part_info.c:58-79 | two different known data subtypes get different labels |
| `PartInfo.TablesNotMixed` | main/part_info.c:16-83 | an application partition never gets a data label and a data partition never gets an application label, although subtype 0 means different things in the two tables |
| `PartInfo.SizeKB` | main/part_info.c:90 | the size shown is the whole number of kilobytes, the remainder dropped |
| `PartInfo.Show` | main/part_info.c:85-91 | the logged values are the heading, the two labels, the address, the size in whole kilobytes and the name, in that order |
| `CStrings.Decimal` | main/http_task.c:146 | `%d` prints at least one digit, with no leading zero unless the value is 0 |
| `CStrings.DecimalValue` | main/http_task.c:146 | reading the printed digits gives back the value |
| `CStrings.DecimalLength` | main/http_task.c:134-146 | a value below 10^k prints in at most k digits |
| `CStrings.Pad2` | main/http_task.c:146 | `%02d` of a value below 100 is exactly two digits that read back as the value |
| `CStrings.SkipSpace` | main/http_task.c:109 | `atoi` skips a prefix made only of white space, and what is left is a suffix that does not start with white space |
| `CStrings.LeadingDigits` | main/http_task.c:109 | the run `atoi` reads is a prefix of digits only, followed by the end of the text or by a non-digit |
| `CStrings.Atoi` | main/http_task.c:109 | `atoi` returns 0 for text that does not start with white space, a sign or a digit |
| `CStrings.AtoiOfDecimal` | main/http_task.c:109 | `atoi` reads back the decimal text of any value, whatever non-digit follows it |
| `CStrings.StrCmp` | main/wifi_task.c:149-150 | `strcmp` of equal strings is 0 |
| `CStrings.StrCmpZeroIffEqual` | main/wifi_task.c:149-150 | `strcmp` reports 0 exactly for equal C strings |
| `CStrings.Occurs` | main/http_task.c:54 | a needle that starts the haystack is found, and a needle that is found is no longer than the haystack |
| `CStrings.OccursHasPosition` | main/http_task.c:54 | when `strstr` finds the needle, there is a position where it sits |
| `CStrings.PositionOccurs` | main/http_task.c:54 | a needle sitting at some position is found by `strstr` |
| `CStrings.OccursIffSomewhere` | main/http_task.c:54 | `strstr` finds the needle exactly when it sits at some position of the haystack |
| `CStrings.LastIndexOf` | main/http_task.c:105-108 | `strrchr` gives NULL exactly when the character is absent, and otherwise the position of its last occurrence |
| `CStrings.LastIndexOfAppend` | main/http_task.c:105-108 | text without the character, appended after a string, leaves its last occurrence where it was |

## Left out

- I/O, the FreeRTOS scheduler, semaphores and delays are not modelled. Connect results, ping outcomes, socket events, the uploaded bytes and the embedded asset files are inputs instead.
- ESP-IDF driver and flash calls are kept only as much as the model needs. An `ESP_ERROR_CHECK` failure is assumed not to happen.
  - The `esp_ota_*` calls are effects in the OTA trace.
  - In the Wi-Fi supervisor, `esp_task_wdt_reset` is the counter `wdtResets` of `WatchState` and of `Supervisor`, and `wifi_disconnect` (and so `esp_wifi_disconnect`) is the counter `disconnects`.
  - The other calls are not modelled: the rest of `esp_wifi_*`, netif, NVS, the watchdog's set-up and `gpio_config`.
- `restart_task` is not modelled beyond the `SpawnRestart` effect. Its 3 s delay and `esp_restart` are outside the model.
- `OtaHandler.Threshold`: `total_size * (100 - percent)` is computed with unbounded integers. In C this `int` product overflows for images above about 21 MB, which is larger than any OTA partition of this device.
- `OtaHandler.HandleRequest`: `esp_ota_begin` and `esp_ota_end` are effects that succeed. Whether the SDK refuses an image size of 2^31 or more, or an image with no data, is not modelled. This is the `ESP_ERROR_CHECK` assumption above.
- `OtaHandler.ActivationNeedsWholeImage`: holds for declared lengths below 2^31 only. For longer ones `OversizedLengthActivatesUnwritten` proves the opposite.
- `OtaHandler.Handle`:
  - The closing calls are not modelled as failing.
  - A run whose events run out while bytes remain ends with outcome `Receiving`. The firmware would go on blocking in `httpd_req_recv`.
- `OtaHandler.Receive`: `httpd_req_recv` is abstracted to the minimum of the bytes ready, the length asked and the bytes the client still has.
- The NULL check on the next update partition does not exist in the source, so the model has none either. `part_info_show` and `esp_ota_begin` are given whatever partition the SDK returns.
- `CStrings.Atoi`: the value is the unbounded one. `atoi` is undefined on overflow in C.
- `HttpTask.PinMask`: a shift of `1ULL` by 64 or more, reachable for pins 64-255, is undefined in C. It gives `None` here.
- The `gpio_ctrl_task` drive sequence is not modelled beyond its pin and mask. That sequence is output, a 300 ms delay, input, then self-deletion. `process_api` starts this task, and the model records only its pin.
- The "/" to "/app/" redirect, wildcard route matching, handler registration and the `cJSON` object are not modelled. They are HTTP server and JSON library calls. Firmware name and version metadata in `/status*` is not modelled either.
- `WifiTask.PingCycle`: the two `xSemaphoreTake(ping_end, …)` calls of `ping_gateway` (lines 242 and 244) are not reproduced. Each cycle is taken to report its own result, and that result is an input.
  - The second take waits for the give in `ping_on_end` (line 212).
  - In the first cycle, the first take consumes the give that `vSemaphoreCreateBinary` left (line 257).
  - From the second cycle on, no give is pending before `esp_ping_start`, so the first take would wait indefinitely. The task watchdog set up at line 252 (60 s) would then reset the device. The model does not capture this.
- `WifiTask.AllTimeout`: the session's 10 echo requests (`PING_COUNT`, lines 21 and 238) are not counted. `Probed` accepts any number of replies.
- `event_handler` (wifi_task.c:98-115) is not modelled as a callback.
  - Its GOT_IP branch gives `wifi_start` (line 113). That give is what `gotIp` stands for: `wifi_connect` sees its address within the 10 s wait.
  - Its DISCONNECTED branch counts a retry and calls `esp_wifi_connect` again (lines 106-107). The driver's own retries are not modelled. They only change whether and when the address arrives, which is the `gotIp` input.
- The counters `wifi_discon_count` and `timeout_repeat` are `nat`. They stay within 0..5 by `WifiTask.Valid`, so 32-bit wrap-around never arises.
- Logging, including `wifi_log_rssi`'s line, is not modelled. Only the labels it prints are.

### Behaviour a reader might not expect

The model follows the code in each of these cases:

- `process_api` fails only when the URI has no '/'. A URI with a non-numeric suffix succeeds with pin 0.
- No check stops an upload when there is no candidate OTA slot.
- A declared length of 2^31 bytes or more becomes a negative `total_size` (line 33). The read loop is then skipped, and the handler goes on to `esp_ota_end`, `esp_ota_set_boot_partition` and "Complete" with nothing written.
- At most one progress mark is drawn per 1024-byte chunk. A small image therefore ends its bar with fewer than 50 marks. A 2048-byte image gets one mark after each of its two chunks.
