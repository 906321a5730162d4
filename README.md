# TEMP: BLE temperature reader, modelled in Dafny

TEMP.py runs on a Raspberry Pi. It is meant to do three things in turn:
- scan for a Bluetooth Low-Energy thermometer, and connect to it with up to five attempts;
- subscribe to its temperature characteristic and, for 30 seconds, decode each
  indication the device sends into a reading, keeping the distinct readings in a list;
- upload the temperature of the newest reading, with the Pi's `/proc/cpuinfo` identification fields.

As written, the script never gets past the connect. Right after a successful
connect, `main` calls `device.get_handle(Char_temperature)` (TEMP.py:146), and
`Char_temperature` is not defined anywhere in the file. The resulting `NameError`
is caught by the `except Exception` at TEMP.py:161, so subscribing, collecting and
uploading never run. The model of `process_indication`, the buffer and the
selection (`readings.dfy`) describes what that code does as if the name were defined.

This project models the deterministic core of that script:

- `payload.dfy` (module `Payload`): `decode_temperature` and `sanitize_timestamp`.
  It covers the struct layout `'<BHxxxxxxI'`, an inverse `Pack` for the round trips,
  and the host clock as a natural-number parameter `now`.
- `readings.dfy` (module `Readings`): the list `temperature_data` as class
  `TemperatureData`, whose method `ProcessIndication` is `process_indication`.
  The module also has Python's stable `sorted(..., reverse=True)` on timestamps,
  and the selection of element 0 for upload (`Freshest`).
- `acquisition.dfy` (module `Acquisition`): the address-type rule, `wait_for_device`
  (and its per-pass name match) and the `connect_device` retry loop. The radio is
  abstracted to the outcomes of its calls.
- `pystr.dfy` (module `PyStr`): the Python string operations `get_pi_info` needs,
  namely `str.strip()`, `str.split(sep)` with its inverse `str.join`, and `str.lower()`.
- `pi_info.dfy` (module `PiInfo`): `Plugin.get_pi_info` over the lines of `/proc/cpuinfo`.
- `wrappers.dfy` (module `Wrappers`): `Option` and `Result`.

Python exceptions that leave an operation become `Err` values:
- `struct.error` from the decoder;
- the `UnboundLocalError` of `connect_device` after five failed attempts;
- an adapter exception that the code does not catch: from a connect call, from a scan, or from the reset after a scan's BLEError;
- the `IndexError` of `get_pi_info`.

Four points where the code behaves differently from what its names and slices suggest:

- `decode_temperature` slices `values[0:14]`, which suggests a 14-byte payload, but the format
  `'<BHxxxxxxI'` is 13 bytes long and `unpack` demands exactly that many.
  So decoding succeeds exactly when the payload has 13 bytes, and every payload of 14 bytes or more raises `struct.error`.
  The model follows the code.
- `process_indication` returns nothing; it only logs whether the reading was appended or was a duplicate.
  `ProcessIndication` returns that logged outcome as `Appended`, `Duplicate` or `Unhandled`.
- The reading uploaded is the newest one, whatever its status byte: the selection never checks `valid`.
  `FreshestMayBeInvalid` shows that a newer reading whose status is not 0x02 is chosen over an older valid one.
- The Linux kernel prints `/proc/cpuinfo` field lines as the name, padded with one or more tabs, then `': '` and the value: `Hardware\t: BCM2835`, `Serial\t\t: …`.
  Splitting such a line on `': '` gives a first piece that ends in tabs, such as `Hardware\t`, which is not one of the four names.
  `KernelFileNamesNoKey` proves that input made only of such field lines, for any of the four names, any number of tabs and any value, leaves all four values empty.

## Model

| member | source | states |
|---|---|---|
| `Payload.Take` | TEMP.py:65 | the slice `values[0:14]` is the first 14 bytes, or the whole payload when it is shorter |
| `Payload.Unpack` | TEMP.py:65 | `unpack('<BHxxxxxxI', buf)` yields a value exactly when `buf` has 13 bytes; status < 2^8, temperature < 2^16, device time < 2^32 |
| `Payload.UnpackPack` | TEMP.py:65 | unpacking a packed record gives back its status, temperature and device time |
| `Payload.PackUnpack` | TEMP.py:65 | packing the unpacked fields reproduces every byte except the six pad bytes (3..8) |
| `Payload.DecodeTemperature` | TEMP.py:64-70 | succeeds iff the payload has exactly 13 bytes; then `valid` iff byte 0 is 0x02 (any other status still gives a reading), and `temperature == values[1] + 256*values[2]` < 2^16 |
| `Payload.DecodeLength` | TEMP.py:65 | decoding fails iff the payload is shorter than 13 bytes or has 14 or more (the `values[0:14]` slice against a 13-byte format) |
| `Payload.SanitizeTimestamp` | TEMP.py:61-62 | the timestamp is the clock reading; the device time argument never reaches it |
| `Payload.DecodeTimestampIsClock` | TEMP.py:61-62 | the reading's timestamp is the clock reading, not the device time |
| `Payload.DecodeIgnoresTail` | TEMP.py:64-70 | two payloads of equal length that agree on bytes 0..2 decode identically: pad bytes and the device time never reach the reading |
| `Payload.DecodePacked` | TEMP.py:64-70 | decoding a packed record gives `valid == (status == 0x02)`, its temperature, and the clock as timestamp |
| `Readings.AddIfAbsent` | TEMP.py:75-77 | append-if-absent keeps a duplicate-free list duplicate-free, keeps the old entries in order as a prefix, grows by one exactly when the reading is new, puts it last, and always leaves it present |
| `Readings.TemperatureData.constructor` | TEMP.py:145 | the buffer starts empty (and so duplicate-free) |
| `Readings.TemperatureData.ProcessIndication` | TEMP.py:72-81 | a foreign handle leaves the list unchanged (`Unhandled`); a payload that is not 13 bytes raises and leaves it unchanged; otherwise the decoded reading is appended iff no equal reading is present (`Appended`/`Duplicate`); the list stays duplicate-free |
| `Readings.SortByTimestampDescending` | TEMP.py:159 | the sorted list has as many entries as the list (order, permutation and stability in the three lemmas below) |
| `Readings.SortDescending` | TEMP.py:159 | the sorted list is in non-increasing timestamp order |
| `Readings.SortPermutes` | TEMP.py:159 | the sorted list is a permutation of the list (same multiset) |
| `Readings.SortStable` | TEMP.py:159 | for every timestamp, the entries carrying it appear in the sorted list in their list order (Python's sort is stable under `reverse=True`) |
| `Readings.Freshest` | TEMP.py:158-160 | there is no reading to upload exactly when the list is empty |
| `Readings.FreshestIsFirstNewest` | TEMP.py:49 | for a non-empty list, the uploaded element 0 is the entry with the largest timestamp that comes first among those with that timestamp |
| `Readings.FreshestMayBeInvalid` | TEMP.py:158-160 | an older valid reading and a newer invalid one: the invalid one is uploaded, since the selection ignores the status |
| `Readings.FreshestExample` | TEMP.py:158-160 | timestamps 5, 9, 2 inserted in that order: the reading stamped 9 is selected |
| `Readings.FreshestTieExample` | TEMP.py:158-160 | two readings with equal timestamps: the first inserted is selected |
| `Readings.DedupThenFreshestExample` | TEMP.py:72-81 | readings 100, 300 and the same 300 reading again leave two entries, and the 300 one is selected |
| `Acquisition.AddressTypeFor` | TEMP.py:140 | the address type is public iff the device model is exactly `"MBP70"`, random otherwise |
| `Acquisition.ScanMatches` | TEMP.py:89-93 | a scan pass finds the device iff some scanned entry has `name == devname` |
| `Acquisition.WaitForDevice` | TEMP.py:83-103 | scanning stops at the first pass that finds the name (result true) or raises past the handler (a non-BLEError from the scan, or an exception from the reset after a BLEError: an error); no earlier pass did either; if none does, all passes before the deadline run and the result is false; the resets equal the BLEError passes run |
| `Acquisition.ConnectDevice` | TEMP.py:105-116 | between 1 and 5 connect calls; every call but the last raised NotConnectedError; success iff the last call connected, returning its device; fewer than 5 calls only when the last one did not raise NotConnectedError; five NotConnectedErrors end in the unbound-`device` error; any other exception propagates from the call that raised it |
| `PyStr.IsSpace` | TEMP.py:23 | the characters `strip()` removes are Python's whitespace; among ASCII exactly space, `\t`, `\n`, `\v`, `\f`, `\r` and 0x1c-0x1f |
| `PyStr.StripLeftSuffix` | TEMP.py:23 | `lstrip` removes a run of leading whitespace and leaves a suffix that starts with a non-space |
| `PyStr.StripRightPrefix` | TEMP.py:23 | `rstrip` removes a run of trailing whitespace and leaves a prefix that ends with a non-space |
| `PyStr.Strip` | TEMP.py:23 | `strip()` is no longer than the line and neither starts nor ends with whitespace |
| `PyStr.StripSlice` | TEMP.py:23 | `strip()` is the middle slice of the line with only whitespace removed at both ends |
| `PyStr.Find` | TEMP.py:23 | returns the leftmost occurrence of the separator, or none when it does not occur |
| `PyStr.FindAt` | TEMP.py:23 | an occurrence with none before it is the one find reports |
| `PyStr.Split` | TEMP.py:23 | `split(sep)` always gives at least one piece |
| `PyStr.JoinSplit` | TEMP.py:23 | `sep.join(s.split(sep)) == s` |
| `PyStr.SplitPiecesAreFree` | TEMP.py:23 | no piece of `s.split(sep)` contains `sep` |
| `PyStr.SplitHead` | TEMP.py:23-25 | `split_line[0]` is the text before the first `': '` (or the whole line), and `split_line[1]` exists iff the separator occurs |
| `PiInfo.LowerKeysDistinct` | TEMP.py:18-19 | lower-casing sends the four names to four distinct keys of the dict |
| `PiInfo.InitialInfo` | TEMP.py:18-19 | the starting dict maps each of the four names, lower-cased, to `''`, and has no other key |
| `PiInfo.Pieces` | TEMP.py:23 | a stripped line split on `': '` has at least one piece, so `split_line[0]` always exists |
| `PiInfo.Step` | TEMP.py:23-25 | one loop pass raises exactly on a key line without a second piece; otherwise a key line sets its lower-case key to piece 1, the key set grows only by that key, and every other key keeps its value |
| `PiInfo.GetPiInfo` | TEMP.py:17-28 | the loop over the lines computes the fold `ParseCpuInfo`, including the early `IndexError` |
| `PiInfo.ParseCpuInfo` | TEMP.py:18-25 | the dict built from the lines always has exactly the keys `hardware`, `revision`, `serial`, `model` |
| `PiInfo.ParseUnnamedKey` | TEMP.py:19 | a key no line names keeps its initial value `''` |
| `PiInfo.ParseLastNamingLine` | TEMP.py:22-25 | a key holds the second `': '` piece of the last line whose first piece names it; later lines overwrite earlier ones |
| `PiInfo.BrokenLineFails` | TEMP.py:24-25 | a line whose first piece is a key but which has no `': '` raises `IndexError` |
| `PiInfo.FailureHasBrokenLine` | TEMP.py:20-27 | `IndexError` is the only way the parse fails, and it comes from such a line |
| `PiInfo.KernelFieldLinePieces` | TEMP.py:23 | the kernel-style line `Hardware\t: BCM2835` has `Hardware\t` (with the tab) as its first piece |
| `PiInfo.KernelFieldLineNamesNoKey` | TEMP.py:22-25 | parsing the kernel-style line `Hardware\t: BCM2835` leaves all four keys at `''` |
| `PiInfo.KernelLineNamesNoKey` | TEMP.py:22-24 | a line made of one of the four names, one or more tabs, `': '` and any value names no key: its first piece keeps the tab |
| `PiInfo.KernelFileNamesNoKey` | TEMP.py:18-27 | any file made only of such kernel-style field lines gives the starting dict, all four values `''` |

## Left out

- HTTP upload in `Plugin.execute` (TEMP.py:50-58): a network request, URL encoding and response decoding.
- The `if not rfid` branch of `Plugin.execute` (TEMP.py:44-47): it depends on file contents.
- File I/O: reading `rfid.txt` and `pin.txt`, writing `plugin_response.txt`, opening `/proc/cpuinfo` (TEMP.py:21, 36-47, 55-56).
  `GetPiInfo` takes the lines read as a parameter. An `IOError` on opening or while reading returns the dict built from the lines read before it. That is what `GetPiInfo` returns for those lines.
- Logging and configuration reading (TEMP.py:118-128): library plumbing. `setup_logging` names an undefined `loglevel` at TEMP.py:121; that path is not modelled.
- The pygatt adapter lifecycle: `start`, `stop`, `reset`, `subscribe`, `disconnect`, `get_handle` (TEMP.py:131-168). These are foreign calls.
  `WaitForDevice` counts the resets, and `ConnectDevice` sees each `connect` only as its outcome.
  `Char_temperature` (TEMP.py:146) is not defined anywhere in TEMP.py. So `main` raises `NameError` after every successful connect, and subscribing, collecting and uploading never run; the readings model treats the name as defined.
- The arguments of `adapter.connect(address, 8, addresstype)` (TEMP.py:110): they are the same on every attempt, so the attempt's index alone selects its outcome.
- `if device:` (TEMP.py:144): the truthiness of a pygatt device object is outside the model.
- Wall-clock time: `time.time()`, `time.sleep`, the 1800 s scan deadline and the 30 s collection window (TEMP.py:85-86, 96, 100, 115, 149).
  Timestamps are abstract naturals, not floats. The deadline is the number of scan passes that start before it.
- The concurrency of the notification callback thread with the 30 s wait (TEMP.py:148-149): `ProcessIndication` is modelled as one call at a time.
- The orchestration in `main` (TEMP.py:125-168) is covered piece by piece: address type, wait, connect, buffer and selection. The sequencing of subscribe, wait and disconnect around them is not modelled as one operation.
- `PyStr.LowerAscii`: lower-cases only ASCII letters, unlike Python `str.lower()`. It is applied only to the four ASCII key names, where the two agree.
