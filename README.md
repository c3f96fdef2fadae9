# Terminal emulator detection (yazi-adapter `Emulator`), modelled in Dafny

When yazi starts, it asks the hosting terminal what it is and what it can do. It writes a burst of queries: a KGP (Kitty graphics protocol) probe, XTVERSION, the text-area size in pixels (`ESC [ 16 t`), the background colour (OSC 11), and primary device attributes (DA1). Then it reads the reply byte by byte until the DA1 answer arrives. From the captured bytes it builds an `Emulator` value with three parts:

- `kind`: a recognised brand, or `Unknown { kgp, sixel }`;
- `light`: whether the background is light;
- `cell_size`: the size of one cell in pixels, as `(width, height)`.

The project models the byte-level logic of `yazi-adapter/src/emulator.rs`:

- `Bytes` (bytes.dfy) holds terminal input as `seq<Byte>`, plus the searches the code uses. These are `split_once` (first occurrence), `contains`, `rsplitn(2, ..)` (the segment after the last ESC), `starts_with` and `ends_with`.
- `Numbers` (numbers.dfy) models `take_while(is_ascii_digit)`, `str::parse::<u16>` on a digit run and `u8::from_str_radix(_, 16)`. That includes the leading `+` the latter accepts. Each parser has a round-trip lemma against a reference encoder.
- `ResponseParser` (parser.dfy) models `cell_size` and `light_bg`. Each comes with a characterisation: what a well-formed report yields, what a result implies about the input, only the first report counts, and the dark/absent defaults.
- `ResponseReader` (reader.dfy) models `read_until_da1` and `read_until_dsr`. Each is a `while` loop over an input array that grows a buffer byte by byte. Each is proved equal to a specification function that returns the shortest prefix passing the stop test, or all the input when none does.
- `Emulator` (emulator.dfy) models the `Emulator` struct, `unknown()` and the classification step of `detect`. Brands are a type parameter `B`. `Brand::from_csi` is a function parameter, and the result of `Brand::from_env` is a value parameter.

The background luma test `r*0.2627/256 + g*0.6780/256 + b*0.0593/256 > 0.6` is stated over integers as `r*2627 + g*6780 + b*593 > 1536000`. That is the same test scaled by 2 560 000. It differs from the `f32` computation only through float rounding exactly at the boundary.

`cell_size` does not reject a zero field: `ESC[6;0;0t` gives `Some((0, 0))` (`CellSizeZeroAccepted`).

## Model

| member | source | states |
|---|---|---|
| Bytes.FindFirst | yazi-adapter/src/emulator.rs:186 | the split point of `split_once` is the first index where the pattern occurs, and there is none exactly when the pattern is absent |
| Bytes.AfterLastAppend | yazi-adapter/src/emulator.rs:121 | when the tail holds the separator, bytes in front of it do not change the first item of `rsplitn(2, ..)` |
| Bytes.AfterLast | yazi-adapter/src/emulator.rs:121 | the first item of `rsplitn(2, ESC)` holds no ESC; it is the whole buffer when there is no ESC, else the suffix right after the last ESC |
| Numbers.DigitRunLength | yazi-adapter/src/emulator.rs:188 | `take_while(is_ascii_digit)` takes a prefix made of digits, and the byte after it, if any, is not a digit |
| Numbers.DecimalRoundTrip | yazi-adapter/src/emulator.rs:195 | a number written in decimal is a nonempty digit string that reads back as the same number |
| Numbers.ParseU16RoundTrip | yazi-adapter/src/emulator.rs:195 | `parse::<u16>` of the decimal form of any u16 returns that u16 |
| Numbers.ParseHexPair | yazi-adapter/src/emulator.rs:201-203 | on a two-byte field, `from_str_radix(_, 16)` gives 16*hi+lo for two hex digits, and the digit's value for `+` and one digit; it succeeds only in those two cases |
| Numbers.HexRoundTrip | yazi-adapter/src/emulator.rs:201-203 | every byte written as two hex digits parses back to itself |
| ResponseParser.DigitRunStopsAt | yazi-adapter/src/emulator.rs:188-191 | a digit run followed by a non-digit at k is exactly k long |
| ResponseParser.CellSizeOfReport | yazi-adapter/src/emulator.rs:185-195 | after the first `ESC[6;`, the bytes H `;` W `t` (digit strings) give `Some((W, H))` if both are nonempty and fit in u16, and `None` if either is empty or overflows |
| ResponseParser.CellSizeSound | yazi-adapter/src/emulator.rs:185-195 | a `Some` result always comes from a well-formed report at the first `ESC[6;`, with nonempty fields, width first; so a missing prefix, separator or `t` gives `None` |
| ResponseParser.CellSizeFirstWins | yazi-adapter/src/emulator.rs:186 | appending bytes, a second report included, to a response that already yields a cell size does not change it |
| ResponseParser.CellSizeAfterEscFree | yazi-adapter/src/emulator.rs:185-195 | a report placed after bytes holding no ESC is the one parsed, whatever follows it, with the same Some/None rule as CellSizeOfReport |
| ResponseParser.CellSizeReadsBack | yazi-adapter/src/emulator.rs:185-195 | the report a terminal writes for height h and width w, after any ESC-free prefix, is read as `(w, h)` |
| ResponseParser.CellSizeZeroAccepted | yazi-adapter/src/emulator.rs:188-195 | `ESC[6;0;0t` gives `Some((0, 0))`: zero fields are not rejected |
| ResponseParser.CellSizeOverflowRejected | yazi-adapter/src/emulator.rs:195 | a height of 70000 (above u16::MAX) gives `None` |
| ResponseParser.LightBgDarkByDefault | yazi-adapter/src/emulator.rs:199-211 | anything other than `Ok(false)` needs `]11;rgb:` present with at least 14 bytes after its first occurrence: a missing or short report is dark and never an error |
| ResponseParser.LightBgAt | yazi-adapter/src/emulator.rs:199-203 | with a complete first report at i, the red, green and blue fields are the bytes at offsets 0-1, 5-6 and 10-11 after the prefix |
| ResponseParser.LightBgErrors | yazi-adapter/src/emulator.rs:201-203 | with a complete first report, the result is an error exactly when one of the three fields fails `from_str_radix(_, 16)`, and the error is that of the first failing field in the order red, green, blue |
| ResponseParser.LightBgOfReport | yazi-adapter/src/emulator.rs:200-206 | with hex digits at offsets 0-1, 5-6 and 10-11 after the first prefix, the result is `Ok` of the luma test on those three bytes |
| ResponseParser.LightBgFieldsOnly | yazi-adapter/src/emulator.rs:201-203 | two responses whose first reports agree on the three two-byte fields get the same result, whatever the other bytes |
| ResponseParser.WhiteIsLight | yazi-adapter/src/emulator.rs:204-206 | `]11;rgb:ffff/ffff/ffff` is light |
| ResponseParser.BlackIsDark | yazi-adapter/src/emulator.rs:204-206 | `]11;rgb:0000/0000/0000` is dark |
| ResponseReader.Da1Reply | yazi-adapter/src/emulator.rs:112-124 | the DA1 reader returns a prefix of the input that passes the DA1 test (or the whole input when exhausted), and no shorter prefix passes it |
| ResponseReader.DsrReply | yazi-adapter/src/emulator.rs:147-156 | the DSR reader returns a prefix of the input ending in `ESC[0n`/`ESC[3n` (or the whole input when exhausted), and no shorter prefix does |
| ResponseReader.ReadUntilDa1 | yazi-adapter/src/emulator.rs:108-141 | the byte-at-a-time loop returns exactly `Da1Reply` of the input |
| ResponseReader.ReadUntilDsr | yazi-adapter/src/emulator.rs:143-166 | the byte-at-a-time loop returns exactly `DsrReply` of the input |
| ResponseReader.Da1ReplyTerminates | yazi-adapter/src/emulator.rs:118-123 | any buffer ending in `ESC [ ? params c`, with no ESC in params, passes the DA1 test |
| ResponseReader.Da1ReplyAfter | yazi-adapter/src/emulator.rs:112-124 | when no earlier prefix passes the DA1 test, the DA1 reader stops right after the `ESC[?…c` reply; the bytes after it are not part of the result |
| ResponseReader.NoCNoDa1Stop | yazi-adapter/src/emulator.rs:118 | bytes holding no `c` never stop the DA1 reader |
| ResponseReader.EscStringNoDa1Stop | yazi-adapter/src/emulator.rs:118-121 | an escape string whose introducer is not `[` (OSC, DCS, APC), ended by BEL or `ESC \`, never stops the DA1 reader, even when its body holds `c` |
| ResponseReader.NoDa1StopAppend | yazi-adapter/src/emulator.rs:121 | the stop test only looks at the segment after the last ESC, so replies that each start with ESC and never stop the reader do not stop it one after the other |
| ResponseReader.DsrTerminatedIff | yazi-adapter/src/emulator.rs:153 | the `c == 'n'` check only short-cuts: the DSR test holds exactly when the buffer ends with `ESC[0n` or `ESC[3n` |
| ResponseReader.DsrReplyAfter | yazi-adapter/src/emulator.rs:147-156 | when no earlier prefix passes the DSR test, the DSR reader stops right after `ESC[0n`/`ESC[3n`; the bytes after it are not part of the result |
| Emulator.Detect | yazi-adapter/src/emulator.rs:46-62 | detection classifies exactly the bytes up to the DA1 terminator |
| Emulator.KindPrecedence | yazi-adapter/src/emulator.rs:49-56 | a brand from the reply wins over the environment's brand, which wins over Unknown; Unknown's kgp is "contains `ESC_Gi=31;OK`" and sixel is "contains one of `?4;` `?4c` `;4;` `;4c`" |
| Emulator.NoSixelWithoutFour | yazi-adapter/src/emulator.rs:54 | a reply without the byte `4` contains none of the Sixel markers |
| Emulator.SilentTerminalIsUnknown | yazi-adapter/src/emulator.rs:49-67 | an empty reply with no brand from the environment gives exactly `Emulator::unknown()`: Unknown with both flags false, dark, no cell size |
| Emulator.SnapshotDefaults | yazi-adapter/src/emulator.rs:58-62 | no colour report or an unparsable one gives light = false; no size report gives no cell size |
| Emulator.ProbeRepliesKept | yazi-adapter/src/emulator.rs:35-46 | the replies to the KGP, XTVERSION, cell-size and OSC 11 probes, written before DA1, never stop the DA1 reader, even with `c` in the version or colour fields: the reader returns them all, up to the DA1 reply's `c` |
| Emulator.KgpWithoutSixel | yazi-adapter/src/emulator.rs:46-56 | for `ESC_Gi=31;OK ESC\ ESC[?6c` and no brand, the reader stops at its final `c`, and the kind is Unknown with kgp true and sixel false |

## Left out

- Raw-mode enable/disable and its scope guard (lines 25-26): global terminal state.
- Writing the probe burst with `execute!` (lines 28-44): terminal output. The choice of probes is not modelled.
- `Mux::csi` and `Mux::tmux_drain` (lines 30, 39, 42, 47): multiplexer I/O in code that is not part of this model.
- Tokio stdin reads, the 2 s and 500 ms timeouts, and the 300 ms watchdog task with `abort` (lines 110-139, 160): asynchronous I/O and timing. EOF, a read error and a timeout are all modelled as the input array running out.
- `error_to_user` (lines 168-183): coloured terminal output only.
- `move_lock` (lines 76-106): cursor-control output, `thread::sleep`, and the `TMUX` / `cfg!(windows)` globals.
- `adapters()` (lines 69-74) and the per-brand adapter tables: the tables are not part of this model.
- `Brand::from_csi` and `Brand::from_env` are not part of this model. They are passed in as a function and a value.
- The read-ahead of `BufReader::new(tokio::io::stdin())` (lines 111, 146): the buffer takes in every byte already available, up to 8 KiB, and is dropped when the read ends. Bytes that arrived together with the terminator are lost rather than left for `Mux::tmux_drain` or a later read. The model returns only the result and says nothing about the bytes after it.
- `String::from_utf8_lossy` (lines 140, 165): the model keeps the reply as bytes. It does not model how invalid UTF-8 is replaced by U+FFFD before the parsers search it.
- The char-boundary panic of `&s[0..2]` on non-ASCII text (lines 201-203): the model slices bytes.
- Logging with `debug!`, `warn!` and `error!`.
- ResponseParser.LightBg: the luma test is exact integer arithmetic. The source's `f32` rounding is not modelled, so results may differ only for colours that land exactly on the 0.6 boundary.
- ResponseParser.LightBg: the error value records which field failed (offset 0, 5 or 10) instead of the source's `ParseIntError`. `detect` discards the error either way.
