# Fake-keyboard firmware: a verified model

The firmware turns a small STM32 board into a USB keyboard. After power-up it
waits and then types five fixed strings as keystrokes. A second firmware
image in the same repository makes the board a USB mass-storage device that
is backed by a 16 KiB RAM disk. This project models the logic of both images
and proves properties of that model:

- **KeyEncoder** (`key_encoder.dfy`): `string_formating`. It stores the
  modifier byte (byte 0) and the first keycode (byte 2) of an 8-byte
  boot-keyboard report for one ASCII character. It is modelled as a decision
  table, `KeyStroke`, and as the in-place method `StringFormating` that has
  the source's chain of tests. The contract of `StringFormating` ties the two
  together.
- **Keystrokes** (`keystrokes.dfy`): `sys_tick_handler` and its static
  `tick` counter.
  - The handler is a class `Keyboard` with a `tick` field. Each report sent
    to the interrupt endpoint is appended to a ghost log, `sent`.
  - The schedule is stated once, generically, for any script of
    NUL-terminated payloads and any encoder. An encoder is a `press`
    function, which stores one character into the report buffer, together
    with the `release` report that every tick starts from. It is then instantiated with the
    firmware's payloads `t0`..`t4` (`Script`) and its encoder.
  - Payload k (0-based) is active at the ticks strictly between `(k+1)·d` and
    `(k+1)·d + 2·sizeof(t_k)`, where `d = 1000` and `sizeof` counts the NUL.
  - Because `d` is even, index 0 of every payload is never typed. The NUL at
    the last index gives an all-zero report, so every window ends with two
    releases. The model reproduces these quirks. `ScriptLog` gives the whole
    output of the firmware: each string is typed from its second character
    on, so `t1` = `"cmd\n"` types `md` and a newline.
- **HidRequests** (`requests.dfy`): the control-request callbacks
  `hid_control_request` and `dfu_control_request`, and the 45-byte HID
  report descriptor.
- **Msc** (`ramdisk.dfy`): the RAM disk.
  - It is 32 sectors of 512 bytes, with `msc_read_sector` and
    `msc_write_sector` as bounds-checked copies and the two geometry getters.
  - It is modelled as a class over a 16384-byte array. The pure functions
    `Read` and `Write` specify the class's methods.
- **Types** (`types.dfy`): the C fixed-width integers and unsigned 32-bit
  addition.

## Model

| member | source | states |
|---|---|---|
| KeyEncoder.KeyStroke | usbhid.c:272-325 | the encoder writes something iff the character is a digit, a letter or one of the fourteen symbols; digits get keycodes 30..39 with no modifier; letters get keycodes 4..29, with left shift exactly for capitals |
| KeyEncoder.Apply | usbhid.c:272-325 | storing a stroke sets byte 0 and byte 2 only where the stroke assigns them, and leaves every other byte and the length unchanged |
| KeyEncoder.Format | usbhid.c:272-325 | only bytes 0 and 2 of the buffer can change; a character outside the table (the NUL included) leaves the whole buffer unchanged |
| KeyEncoder.StringFormating | usbhid.c:272-325 | the in-place encoder leaves the buffer exactly as the decision table prescribes |
| KeyEncoder.DigitRowKeycodes | usbhid.c:273-279 | '1'..'9' give keycodes 30..38 and '0' gives 39, with no modifier |
| KeyEncoder.LetterRowKeycodes | usbhid.c:280-288 | the i-th lower-case letter gives keycode 4+i with no modifier; its capital gives 4+i with left shift (0x02) |
| KeyEncoder.CaseSharesKeycode | usbhid.c:280-288 | upper and lower case of one letter share their keycode |
| KeyEncoder.WhitespaceStrokes | usbhid.c:289-304 | space gives keycode 44 and newline gives keycode 88, neither with a modifier |
| KeyEncoder.UnshiftedSymbolStrokes | usbhid.c:291-320 | '=' 46, '/' 56, '.' 55 and '\'' 52, with no modifier |
| KeyEncoder.ShiftedSymbolStrokes | usbhid.c:293-323 | ':' 51, '?' 56, '(' 38, ')' 39 and '!' 30, each with left shift |
| KeyEncoder.ShortcutStrokes | usbhid.c:305-312 | '@' sets modifier 0x08 only, '#' gives (0x01, 22) and '&' gives (0x04, 61) |
| KeyEncoder.NulChangesNothing | usbhid.c:272-325 | encoding the NUL terminator changes no byte |
| Keystrokes.Delay | usbhid.c:326-345 | payload k opens after tick (k+1)·d, with d = 1000 |
| Keystrokes.Active | usbhid.c:338 | the window test of payload k's block: (k+1)·d < tick < (k+1)·d + 2·sizeof(t_k) |
| Keystrokes.ActiveOffsets | usbhid.c:338 | payload k is active at exactly the 2·sizeof − 1 ticks from delay + 1 to delay + 2·sizeof − 1 |
| Keystrokes.End | usbhid.c:338 | a window closes no earlier than it opens |
| Keystrokes.CharIndex | usbhid.c:339-341 | at an even tick of an active window, the index (tick − delay)/2 lies in 1 .. sizeof − 1 and is exactly half the distance from the window's opening |
| Keystrokes.After | usbhid.c:339-342 | a block changes the shared buffer only at an even tick of its active window |
| Keystrokes.ReportAt | usbhid.c:338-344 | the report of an active window is all-zero at odd ticks |
| Keystrokes.Handle | usbhid.c:338-371 | the five blocks send at most one report each |
| Keystrokes.Emitted | usbhid.c:334-373 | one handler call, starting from the zeroed buffer, sends at most one report per payload |
| Keystrokes.Log | usbhid.c:334-373 | an empty range of ticks sends nothing |
| Keystrokes.Strokes | usbhid.c:338-344 | typing characters lo..hi−1 of a payload takes 2·(hi − lo) reports, a release and a press per character |
| Keystrokes.Typed | usbhid.c:338-344 | a window of payload p sends 2·sizeof(p) − 1 reports |
| Keystrokes.Keyboard.constructor | usbhid.c:332 | the counter starts at 0 with nothing sent |
| Keystrokes.Keyboard.ServeWindow | usbhid.c:338-344 | one block leaves the buffer encoded as prescribed and sends the part of the prescribed reports that belongs to it |
| Keystrokes.Keyboard.ServeWindows | usbhid.c:338-371 | the five blocks, sharing one buffer, append exactly the prescribed reports of the tick |
| Keystrokes.Keyboard.SysTickHandler | usbhid.c:334-373 | each call increments tick by exactly 1, appends exactly that tick's reports to the log, and keeps the log equal to everything the schedule sends from tick 0 on |
| Keystrokes.ScriptWellFormed | usbhid.c:327-331 | the five payloads are NUL-terminated, hold a character besides the NUL, and fit their windows within d ticks |
| Keystrokes.ScriptWindows | usbhid.c:326-331 | the windows close at ticks 1008, 2010, 3038, 4048 and 5036 |
| Keystrokes.WindowsOrdered | usbhid.c:326-371 | each window closes before the next one opens |
| Keystrokes.WindowsDisjoint | usbhid.c:326-371 | no two windows are active at the same tick |
| Keystrokes.HandleSkip | usbhid.c:338-371 | blocks whose window is inactive send nothing and leave the buffer alone |
| Keystrokes.EmittedIdle | usbhid.c:338-371 | when no window is active the handler sends nothing |
| Keystrokes.EmittedActive | usbhid.c:338-371 | when window k is active, the handler sends exactly one report: window k's |
| Keystrokes.OneReportPerTick | usbhid.c:338-371 | one report per tick while some window is active, none otherwise |
| Keystrokes.IdleBetween | usbhid.c:326-371 | ticks between a window's close and the next window's opening are idle |
| Keystrokes.SilentOutsideScript | usbhid.c:326-371 | nothing is sent up to tick d, nor from the close of the last window on |
| Keystrokes.FirstPressSkipsIndexZero | usbhid.c:338-341 | the first press of every window is at tick delay + 2 and encodes index 1, never index 0 |
| Keystrokes.LastPressIsNul | usbhid.c:338-341 | the last press of every window encodes the NUL terminator |
| Keystrokes.LastPressIsRelease | usbhid.c:338-341 | with the firmware's encoder the last press is an all-zero report |
| Keystrokes.FirmwareReportsClean | usbhid.c:336-371 | every report sent is 8 bytes with byte 1 and bytes 3..7 zero |
| Keystrokes.LogSplit | usbhid.c:334-373 | the reports of consecutive tick ranges concatenate |
| Keystrokes.LogIdle | usbhid.c:326-371 | between two windows nothing is sent |
| Keystrokes.LogSilent | usbhid.c:334-373 | a range of ticks each of which sends nothing sends nothing |
| Keystrokes.TickIdle | usbhid.c:338-371 | a tick between the close of one window and the opening of the next sends nothing |
| Keystrokes.ReleaseAt | usbhid.c:336-344 | the odd ticks delay + 1 + 2i of an active window send one all-zero buffer, the release |
| Keystrokes.PressAt | usbhid.c:338-344 | the even tick delay + 2j of an active window sends one report, the encoding of character j into a zeroed buffer |
| Keystrokes.LogPair | usbhid.c:338-344 | ticks delay + 2j − 1 and delay + 2j send a release and then the press of character j |
| Keystrokes.LogWindowPrefix | usbhid.c:338-344 | the first 2(j − 1) ticks of a window type characters 1..j−1 as release/press pairs |
| Keystrokes.LogWindow | usbhid.c:338-371 | a window sends release/press pairs typing its payload from index 1 on, then one release |
| Keystrokes.LogWindowThenIdle | usbhid.c:326-371 | from the opening of window j−1 to the opening of window j, only window j−1 sends |
| Keystrokes.LogBefore | usbhid.c:326-371 | when window j opens, the log holds windows 0..j−1, each from its opening to its close, in order |
| Keystrokes.LogUpTo | usbhid.c:326-371 | up to the close of window m−1, the log is what windows 0..m−1 type, in order |
| Keystrokes.WindowsTyped | usbhid.c:326-371 | windows 0..m−1 together type their payloads one after the other, each from index 1 on |
| Keystrokes.LogAfterScript | usbhid.c:326-373 | after the last window, the log is exactly what all windows typed |
| Keystrokes.ScriptLog | usbhid.c:326-373 | from tick 5036 on, the firmware has sent the typing of t0..t4 (from their second characters) and nothing else |
| Keystrokes.CmdWindow | usbhid.c:328-351 | the window of t1 = "cmd\n" sends release, 'm' (keycode 16), release, 'd' (7), release, Enter (88), release, the all-zero report of the NUL, release: the 'c' is never typed |
| HidRequests.HidControlRequest | usbhid.c:171-187 | HANDLED iff bmRequestType is 0x81, bRequest is GET_DESCRIPTOR and wValue is 0x2200; then buf is the report descriptor and len its size; otherwise NOTSUPP with buf and len untouched |
| HidRequests.DfuControlRequest | usbhid.c:201-214 | HANDLED iff bmRequestType is 0x21 and bRequest is DFU_DETACH, and then the completion is the detach handler; otherwise NOTSUPP with the completion untouched |
| HidRequests.CallbacksExclusive | usbhid.c:171-214 | no request is taken by both callbacks |
| HidRequests.ReportDescriptorLayout | usbhid.c:37-61 | the descriptor is 45 bytes, as wDescriptorLength says; it ends with End Collection; the key array's logical maximum is 101 |
| HidRequests.EncoderKeycodesDeclared | usbhid.c:55 | every keycode the encoder stores is within the key array's logical maximum |
| Types.AddU32 | usbmsc.c:90 | uint32_t addition: the exact sum when it fits, the sum minus 2^32 when it wraps |
| Msc.MscGetSectorCount | usbmsc.c:103-105 | a positive sector count whose sectors of 512 bytes fill the 16384-byte disk |
| Msc.MscGetSectorSize | usbmsc.c:107-109 | a positive sector size; sector count times sector size is the disk size |
| Msc.OutOfRange | usbmsc.c:90 | the guard the model uses, over the integers: the request reaches past the last byte of the 16384-byte disk |
| Msc.GuardAsWritten | usbmsc.c:90 | the guard as C evaluates it: the sum lba + count taken modulo 2^32 exceeds 32 |
| Msc.WrappedOffset | usbmsc.c:92 | lba·512 computed in uint32_t is exact when it fits |
| Msc.InRangeCopyFits | usbmsc.c:90-93 | with the unbounded guard passed, the copied range lies inside the disk and the offset does not wrap |
| Msc.GuardsDisagree | usbmsc.c:90 | the guard as written and the unbounded guard disagree exactly when lba + count lies in 2^32 .. 2^32 + 32 |
| Msc.GuardSoundWithoutWrap | usbmsc.c:90 | without wrap-around the guard as written is the intended one |
| Msc.GuardAsWrittenAdmitsHugeLba | usbmsc.c:90-92 | lba 0xFFFFFFFF with count 1 passes the guard as written, and the copy would start at byte 0xFFFFFE00 of a 16384-byte array |
| Msc.Read | usbmsc.c:89-94 | refused iff the request runs past sector 32; otherwise count·512 bytes, byte i being disk byte lba·512 + i |
| Msc.Write | usbmsc.c:96-101 | refused iff the request runs past sector 32; otherwise bytes lba·512 .. (lba+count)·512 hold the data and every other byte is unchanged |
| Msc.ReadAfterWrite | usbmsc.c:89-101 | reading back the sectors just written returns the data written |
| Msc.WriteKeepsOtherSectors | usbmsc.c:96-101 | a write does not change what a read of other sectors returns |
| Msc.WriteIdempotent | usbmsc.c:96-101 | writing the same data twice equals writing it once |
| Msc.ZeroCountIsNoOp | usbmsc.c:89-101 | count 0 with lba ≤ 32 succeeds: the read returns nothing and the write changes nothing |
| Msc.Memcpy | usbmsc.c:92 | the n bytes from the destination offset on are the source's bytes, and every other destination byte is unchanged |
| Msc.RamDisk.constructor | usbmsc.c:83 | the disk starts out as 16384 zero bytes |
| Msc.RamDisk.ReadSector | usbmsc.c:89-94 | keeps the disk valid; returns −1 and copies nothing iff the request runs past sector 32; otherwise returns 0 and the first count·512 bytes of buf are what `Read` returns; the disk and the rest of buf are unchanged |
| Msc.RamDisk.WriteSector | usbmsc.c:96-101 | returns −1 and leaves the disk unchanged iff the request runs past sector 32; otherwise returns 0 and the disk is what `Write` gives |
| Msc.RoundTrip | usbmsc.c:89-101 | through the methods, a write followed by a read of the same in-range sectors returns the data written, also when the read goes back into the source buffer |

## Left out

- The descriptor tables (`dev_descr`, `hid_function`, endpoint, interface and configuration descriptors, `usb_strings`; usbhid.c:20-166, usbmsc.c:8-78) are constant data for the USB stack's enumeration. They are not modelled. The HID report descriptor is kept as a byte constant, and its length is part of the model. It is not parsed item by item.
- `main` in both files is clock, GPIO and USB-stack set-up plus polling loops, all hardware I/O. It is left out.
- `hid_set_config` and `msc_set_config` only register callbacks, configure endpoints and program SysTick. These are calls into the USB library, and they are left out.
- `dfu_detach_complete` drives a GPIO pin and resets the core. Only its scheduling as the completion callback is modelled (`DfuDetachComplete`).
- The bulk-only transport and SCSI engine (`usb_msc_init`, `usb_msc_control_request`) is not part of this model. Its code is not in the repository.
- `usbd_ep_write_packet`: the model does not include the endpoint. A send appends the 8-byte buffer to the ghost log `sent`. The report is not queued or lost, and the return value, which the firmware ignores, is not modelled.
- The tick handler runs from the SysTick interrupt alongside the USB polling loop. The model treats its calls as sequential.
- Keystrokes.Keyboard.SysTickHandler: `tick` is a mathematical natural. The wrap-around of the C `int` after 2^31 calls is not modelled.
- KeyEncoder.KeyStroke: `isdigit`, `isalpha` and `isupper` are modelled as the ASCII ranges of the C locale. Characters outside ASCII (a signed `char` with a negative value) are treated as unsupported.
- Keystrokes.Keyboard.ServeWindow: its contract ties the buffer to `After` and the reports sent to the remainder of `Handle`, rather than stating them outright. `ServeWindows` and `SysTickHandler` assemble these into the contract on the whole tick.
- The scheduler lemmas are stated for any well-formed script and any encoder. The firmware's handler writes out five blocks for its five strings, and `ServeWindows` requires a script of exactly five payloads.
- Msc.Read, Msc.Write, Msc.RamDisk.ReadSector, Msc.RamDisk.WriteSector: the specification functions and the methods use the unbounded guard `OutOfRange`, which is the corrected one (see Findings). The guard as written, with its 32-bit wrap, is modelled separately, by `GuardAsWritten` and `WrappedOffset`, and is not used by them. On the wrapping requests (2^32 ≤ lba + count ≤ 2^32 + 32) they refuse the request (`None`, or status −1), where the source copies outside the disk array.
- Msc.RamDisk.ReadSector, Msc.RamDisk.WriteSector: the caller's buffer must not be the disk array and must hold count·512 bytes. `memcpy` demands both of the source's callers. Overlapping ranges are not modelled.

## Findings

| source | as written | input that shows it | evidently intended | confidence | as-written member | corrected member |
|---|---|---|---|---|---|---|
| usbmsc.c:90 | `if ((lba + count) > MSC_RAMDISK_SECTORS)` is evaluated in `uint32_t`, so the sum wraps, and `lba * MSC_RAMDISK_SECTOR_SIZE` wraps as well | lba = 0xFFFFFFFF, count = 1: the sum wraps to 0, the guard passes, and the copy starts at byte 0xFFFFFE00 of the 16384-byte disk | refuse every request with lba + count > 32 over the integers, so that the copy stays inside the disk | high (not executed) | Msc.GuardAsWrittenAdmitsHugeLba | Msc.InRangeCopyFits |

The same guard guards `msc_write_sector` (usbmsc.c:97). There the wrapped
request writes outside the disk array.
