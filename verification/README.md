# ToN Suicide: a Dafny model of the OSC trigger, the config file and the listener flag

ToN Suicide listens for OSC datagrams on a UDP port. When the datagram
`/avatar/parameters/ton_suicide` arrives with the type tag `,T`, it drags the
title bar of a named window for a configured time. This project models the
logic of `Program.cs` that decides what happens, in four modules:

- `OscDecode`: the OSC 1.0 readers `MainForm.ReadOscString` and
  `MainForm.ReadOscInt`.
  - `ReadOscString` is an imperative scan over the datagram array. It is proved
    equal to a specification function, `OscStringAt`.
  - The C# alignment `(index + 4) & ~3` is modelled bit by bit and proved to be
    "the smallest multiple of four past the terminator".
  - A round trip holds against an OSC-string encoder. The int32 read goes the
    source's way, `BitConverter.ToInt32` then `IPAddress.NetworkToHostOrder`,
    and is proved equal to a big-endian two's-complement read.
- `Trigger`: `MainForm.ParseOscMessage`, reduced to the decision it makes:
  - `Fire`: the address and the type tag match, and the drag is attempted;
  - `NoTrigger`;
  - `DecodeFailed`: a reader threw and the exception was swallowed.

  The lemmas say exactly which byte sequences fire.
- `ConfigFile`: the `key=value` configuration.
  - `MainForm` is a class holding the three text boxes and the check box.
  - `LoadConfig` is a `foreach` loop over the file's lines, with `Split('=')`,
    `Trim()` and `bool.Parse`. It is proved against `LoadEntries`, a
    specification over the parsed lines.
  - `SaveConfig` gives the four lines it writes. Loading them restores the saved
    controls whenever the values survive the format.
- `Listener`: the `IsRunning` flag of `OscListener`, with `Start`, `Stop` and
  the receive loop's `finally` block as an event.

Three facts about the code:

- The address literal `/avatar/parameters/ton_suicide` has 30 bytes; two NULs
  pad it to 32, so the trigger packet is 36 bytes long.
- When the file exists, `LoadConfig` starts from the controls as
  `InitializeControls` left them: empty text and an unchecked box. The defaults
  9001 / 5000 / `VRChat` / false are used only when there is no file.
- The `FormatException` of `bool.Parse` is not caught in `LoadConfig`. A bad
  `AutoStart` value ends the loading at that line, and the earlier lines stay
  applied. The model returns the index of that line.

## Model

| member | source | states |
|---|---|---|
| OscDecode.AlignAfter | Program.cs:249 | the new offset is a multiple of four, lies one to four bytes past the terminator, and no smaller multiple of four lies past it |
| OscDecode.AlignBitwiseIsAlignAfter | Program.cs:249 | for every index a .NET byte array allows, `(index + 4) & ~3` on 32-bit patterns equals AlignAfter(index) |
| OscDecode.ClearLowTwo | Program.cs:249 | `x & ~3` for a non-negative int clears the two low bits and keeps the rest |
| OscDecode.FirstZero | Program.cs:247 | the loop stops at the first zero byte at or after the offset; None means no zero up to the end |
| OscDecode.OscStringAt | Program.cs:244-251 | IndexOutOfRange iff no zero byte from the offset to the end; otherwise the bytes up to the first zero (none of them zero), and the next offset is four-aligned, one to four past the zero and at most three past the buffer end |
| OscDecode.ReadOscString | Program.cs:244-251 | the scan over the array returns exactly OscStringAt of its contents |
| OscDecode.ReadEncodedString | Program.cs:244-251 | a NUL-free string padded with one to four NULs at a four-aligned offset reads back unchanged, whatever precedes or follows it, and the offset advances by the padded length |
| OscDecode.FromToBigEndian | Program.cs:255 | encoding an int32 big-endian and reading it back gives the same int |
| OscDecode.ToFromBigEndian | Program.cs:255 | reading four bytes as an int32 and encoding it gives the same bytes |
| OscDecode.SwappedLittleEndianIsBigEndian | Program.cs:255 | BitConverter.ToInt32 on a little-endian host followed by NetworkToHostOrder is the big-endian two's-complement read |
| OscDecode.ReadOscInt | Program.cs:253-258 | succeeds iff four bytes remain; the value is the big-endian int32 at the offset, within the int range, and the offset advances by exactly four |
| Trigger.ParseOscMessage | Program.cs:220-242 | the method's decision equals Decide on the datagram: two OSC-string reads, any failure swallowed, fire only on the exact address and tag |
| Trigger.ReadTwoEncoded | Program.cs:226-229 | two encoded strings in a row read back in order, the second at the offset the first leaves |
| Trigger.DecideEncoded | Program.cs:226-235 | an encoded address and tag, followed by anything, fire iff they are exactly the trigger's address and tag, and otherwise give NoTrigger |
| Trigger.FiresIff | Program.cs:226-235 | a datagram fires iff bytes 0-29 are the address, byte 30 is zero, bytes 32-33 are `,T` and byte 34 is zero; byte 31 and bytes 35 on are never examined |
| Trigger.Decide | Program.cs:226-241 | a datagram decided to fire is at least 35 bytes long, starts with the 30 address bytes and a NUL, and has `,T` and a NUL at bytes 32-34 |
| Trigger.TruncatedFails | Program.cs:226-241 | a datagram with no zero byte from offset 4 on ends in DecodeFailed, never in a trigger |
| Trigger.TriggerLiterals | Program.cs:232 | the address literal has 30 bytes, the tag 2, and neither holds a NUL |
| Trigger.TriggerPacket | Program.cs:232 | the encoded trigger message is 36 bytes long |
| Trigger.TriggerPacketFires | Program.cs:232 | the 36-byte trigger packet fires |
| Trigger.OtherTagDoesNotFire | Program.cs:232 | the trigger address with any other NUL-free tag gives NoTrigger |
| Trigger.OtherAddressDoesNotFire | Program.cs:232 | any other NUL-free address with the `,T` tag gives NoTrigger |
| Trigger.FalseTagDoesNotFire | Program.cs:232 | the tag `,F` does not fire |
| Trigger.ExtraTagDoesNotFire | Program.cs:232 | the tag `,TF` does not fire |
| Trigger.TrailingSlashDoesNotFire | Program.cs:232 | the address with a trailing `/` does not fire |
| Trigger.OtherCaseDoesNotFire | Program.cs:232 | the address spelled `/Avatar/...` does not fire |
| ConfigFile.Trim | Program.cs:146-147 | the trimmed string is no longer than the input and has no white space at either end |
| ConfigFile.TrimStripsEnds | Program.cs:146-147 | the trim is a slice of the input, and everything cut off before and after it is white space (or NUL where the rule drops it) |
| ConfigFile.TrimKeeps | Program.cs:146-147 | a string without white space at its ends is its own trim |
| ConfigFile.TrimIdempotent | Program.cs:146-147 | trimming twice is trimming once |
| ConfigFile.Split | Program.cs:143 | at least one part, and no part contains the separator |
| ConfigFile.SplitCount | Program.cs:143 | there is one part more than there are separators |
| ConfigFile.JoinSplit | Program.cs:143 | joining the parts with the separator gives back the line |
| ConfigFile.SplitInTwo | Program.cs:143-144 | two parts iff exactly one '=', and the line is then part 0, '=', part 1 |
| ConfigFile.SplitNoSeparator | Program.cs:143 | a line without '=' is one part, itself |
| ConfigFile.SplitKeyValue | Program.cs:143 | a key and a value without '=' joined by '=' split back into exactly the key and the value |
| ConfigFile.ParseBoolToString | Program.cs:156 | bool.Parse accepts what bool.ToString writes and gives back the same bool |
| ConfigFile.KeyValue | Program.cs:143-147 | a parsed key and value hold no '=' and have no white space at either end |
| ConfigFile.KeyValueOfLine | Program.cs:143-147 | a line yields an entry iff it holds exactly one '='; the entry is then the trimmed text before and after it |
| ConfigFile.Parsed | Program.cs:141-147 | one entry per line, in order, each the line's key and value or nothing |
| ConfigFile.ApplyEntry | Program.cs:149-156 | applying a line fails iff it is an AutoStart line whose value bool.Parse rejects; a Port, DragTime or WindowName line sets that text box to its value, an AutoStart line that parses sets the check box to the parsed bool, and a control the line's key does not name keeps its value |
| ConfigFile.LoadEntries | Program.cs:141-158 | a failed load names the index of one of its lines, and that line is an AutoStart line |
| ConfigFile.LoadEntriesSnoc | Program.cs:141-158 | one more line applies to the controls the earlier lines produced, or fails at that line's index |
| ConfigFile.LoadEntriesStep | Program.cs:141-158 | a line that applies extends the load; one that fails makes the load of the whole file fail at its index |
| ConfigFile.LoadEntriesLastWins | Program.cs:141-158 | after a load, each text box holds the value of the last line with its key, or its old text without one; the check box holds the parse of the last AutoStart value; other lines change nothing |
| ConfigFile.LastTextsWin | Program.cs:141-154 | after a load, each text box holds the value of the last line with its key, or its old text when no line has that key |
| ConfigFile.LastAutoStartWins | Program.cs:155-156 | after a load, the check box holds bool.Parse of the last AutoStart value, or its old state when no AutoStart line exists |
| ConfigFile.LoadEntriesStopsAtError | Program.cs:156 | once a line has failed, the lines after it do not matter |
| ConfigFile.LoadEntriesError | Program.cs:141-158 | a failure names a line of the file; the lines before it load, and that line is an AutoStart line that fails |
| ConfigFile.SaveConfig | Program.cs:171-177 | exactly four lines are written, one `key=value` line per saved entry (Port, DragTime, WindowName, AutoStart in that order); what they mean is stated by ParsedSaved and LoadAfterSave |
| ConfigFile.KeysStorable | Program.cs:171-177 | the four keys and both bool spellings contain no '=' and have no white space at either end |
| ConfigFile.SavedEntriesStorable | Program.cs:171-177 | when the three texts contain no '=' and have no white space at their ends, every key and value written does too |
| ConfigFile.KeyValueOfSaved | Program.cs:143-147 | a line written from such a key and value parses back as exactly that key and value |
| ConfigFile.SeparatorInValueIsLost | Program.cs:143-144 | a written line whose value contains '=' is skipped when loading |
| ConfigFile.ParsedLines | Program.cs:141-147 | lines written from such keys and values parse back as exactly those entries |
| ConfigFile.ParsedSaved | Program.cs:171-177 | the four saved lines parse back as Port, DragTime, WindowName and AutoStart with their values |
| ConfigFile.LoadSavedTexts | Program.cs:149-154 | the first three saved lines restore the three text boxes and leave the check box alone |
| ConfigFile.LoadSavedEntries | Program.cs:149-156 | the four saved entries, loaded from any controls, give back the saved controls |
| ConfigFile.LoadAfterSave | Program.cs:136-177 | loading what SaveConfig wrote restores the saved controls, from any starting state, when the texts contain no '=' and have no white space at their ends |
| ConfigFile.MainForm.constructor | Program.cs:62-113 | the controls start empty and unchecked |
| ConfigFile.MainForm.LoadLine | Program.cs:143-157 | one loop pass: the control the trimmed key names takes the trimmed value; a failed bool.Parse changes nothing and reports failure |
| ConfigFile.MainForm.LoadConfig | Program.cs:136-167 | no file gives the defaults; otherwise the controls become LoadEntries of the parsed lines, or at the first failing line that line's index, with the lines before it applied |
| Listener.OscListener.constructor | Program.cs:339-343 | not running, no source, no loop |
| Listener.OscListener.Start | Program.cs:345-384 | a no-op while running; otherwise a new uncancelled source, the flag set and a new loop; keeps Valid and Tracked |
| Listener.OscListener.Stop | Program.cs:386-409 | a no-op while stopped; otherwise the current source cancelled and the flag cleared; keeps Valid and Tracked, and afterwards every live loop is cancelled |
| Listener.OscListener.LoopExited | Program.cs:378-382 | as written: any loop's exit clears the flag and removes that loop |
| Listener.OscListener.OwnLoopExited | Program.cs:378-382 | as intended: only the current loop's exit clears the flag; keeps Tracked |
| Listener.StaleExit | Program.cs:345-409 | Start, Stop, Start, then the first loop exits: the flag says stopped while the second loop listens on an uncancelled source, and a later Stop cannot reach it |
| Listener.OwnExit | Program.cs:345-409 | the same events with the intended exit keep every listening loop tracked, and the final Stop cancels it |

## Left out

- The WinForms user interface is not modelled: `Main`, `InitializeForm`, the
  control layout, `UpdateStatus`, the status label and `BtnToggle_Click`. The
  initial state of the controls is kept, as the `MainForm` constructor.
- File I/O is left out. `File.Exists` becomes the `None` / `Some` of
  `LoadConfig`'s parameter, and `ReadAllLines` the sequence of lines. The
  splitting of the file into lines and `WriteAllLines` are not modelled.
- LoadAfterSave: the round trip holds line by line. A value holding `'\r'` or
  `'\n'` is `Storable`, but `WriteAllLines` and `ReadAllLines` would split it
  into more lines; that splitting is not modelled.
- A bad `AutoStart` value makes `bool.Parse` throw. The model returns the
  failing line's index. In the source the exception escapes `LoadConfig`, the
  `MainForm` constructor (Program.cs:43) and `Main` (Program.cs:18), so the
  program stops at start-up.
- `Encoding.UTF8.GetString` is not modelled. Addresses and tags are compared
  as bytes against the ASCII bytes of the literals. Equality of the decoded
  string with an ASCII literal is equality of the bytes.
- `int.Parse` of the port and the drag time is not modelled. The texts are
  stored and saved as they are. On a `Fire`, `int.Parse(txtDragTime.Text)`
  (Program.cs:235) runs before `PerformDrag` and may throw; the catch at
  Program.cs:238-241 swallows that, so `PerformDrag` is then not called.
- ParseBool: models .NET `bool.Parse` with an ASCII-only case comparison.
  Non-ASCII case mappings are not modelled.
- `ReadOscFloat` is not modelled. It decodes an IEEE-754 float and reverses the
  caller's buffer in place.
- `PerformDrag` and the user32 calls (`FindWindow`, `GetWindowRect`,
  `SetCursorPos`, `mouse_event`) are not modelled; they are foreign OS calls.
  `Thread.Sleep` and the console logging are left out too. A `Fire` decision
  stands for the matching address and tag that lead to that call.
- The UDP socket, `ReceiveAsync`, `Task.Run`, `CancellationTokenSource` and the
  dispatch of each datagram to its own task are not modelled; they are
  concurrency and asynchronous I/O. A receive loop's exit, for any reason, is
  the event `LoopExited`.
  - The `udpClient` field is shared by all loops, and a late `finally` closes
    whichever client is current. The model does not capture this.
  - A loop reads the `cts` field on every pass (Program.cs:357, 361), so an
    older loop still running after a later `Start` waits on the later source.
    The model ties loop `g` to source `g`.
  - The port passed to `Start` is not recorded.
- ReadOscString: assumes the buffer is no longer than the largest .NET byte
  array (0x7FFFFFC7 bytes), which keeps `index + 4` within a C# int.
- ReadOscInt: the source defines it but never calls it. It is modelled for a
  little-endian host, the only kind the program runs on.

## Findings

| source | as written | input that shows it | evidently intended | confidence | as-written member | corrected member |
|---|---|---|---|---|---|---|
| Program.cs:378-382 | the `finally` of every receive loop sets `IsRunning = false`, also for a loop an earlier `Start` created | Start, Stop, Start, then the first loop's `finally` runs after the second Start and before the second loop assigns `udpClient` (Program.cs:356); if it runs later, `udpClient?.Close()` (Program.cs:381) closes the new client and the second loop ends in its own error path | only the exit of the current loop clears the flag, so a listening loop is never reported as stopped and `Stop` can always cancel it | medium (depends on thread timing), not executed | Listener.StaleExit | Listener.OscListener.OwnLoopExited |
