# TCS34725 colour-sensor driver, modelled in Dafny

This project models the sensor driver of `Ambev_lodo.c`, firmware for a
Raspberry Pi Pico W that reads a TCS34725 colour-light sensor over I2C. It
covers everything above `main`, plus the dominant-colour verdict that `main`
prints for each sample:

- the register map and command framing;
- the single-register write, the single-register read and the 16-bit
  little-endian read;
- the four-write bring-up sequence `tcs34725_init`;
- the AVALID data-ready test and the colour read `tcs34725_read_color`;
- the normaliser `color_to_rgb`;
- the start-up diagnostics `i2c_scanner` and `tcs34725_test_connection`.

## How the model is built

The Pico SDK's two blocking I2C primitives are the only outside calls whose
results the driver uses. Each `sleep_ms` becomes a `Delay` event and `printf`
output is left out. The two primitives become an oracle, `Transport.Bus`,
that is indexed by transaction:

- `ret(t, 0)` is what the first transfer of the driver's t-th transaction
  returns;
- `ret(t, 1)` is what the read that follows it returns;
- `byte(t, j)` is the byte that read delivers at buffer position j.

Every operation that uses the bus, except the scanner, is a pure function of
the oracle and the index of its first transaction. It returns a `Step`: the C function's
result together with the trace of events it produced. The scanner,
`Diagnostics.Scan`, is a method instead: its nested loops follow the C loops,
and it returns the set of addresses present, the found flag and its trace
(the C function itself returns nothing). The normaliser `color_to_rgb` and
the verdict chain do not touch the bus: `Normalizer.ColorToRgb` and
`Classifier.Classify` are pure functions of the sample alone. An event is either a bus
transaction or a `Delay(ms)` standing for a `sleep_ms`. A transaction
records:

- the first transfer: a write that starts with the command byte, or the
  scanner's read;
- when the driver kept the bus, the read that followed;
- the address, the bytes sent, the hold-bus flag and the transport's return
  value of each transfer.

Properties about framing, ordering, "stop at the first failure" and "all
four reads attempted" are then statements about these traces. The C code
computes in `uint8_t` and `uint16_t`; the model uses integers in range
(`Bytes.Byte`, `Bytes.Word`). Lemmas show that the integer forms equal the
C bitwise expressions the driver writes:

- `COMMAND_BIT | reg`;
- `buf[0] | (buf[1] << 8)`;
- `status & 0x01`;
- `ENABLE_PON | ENABLE_AEN`.

Modules follow the structure of the driver:

| module | part of the driver |
|---|---|
| `Wrappers` | the `Option` type |
| `Bytes` | byte/word arithmetic |
| `Registers` | register constants |
| `Transport` | the I2C oracle and traces |
| `Protocol` | the low-level register functions |
| `Controller` | init, data-ready and colour read |
| `Normalizer` | `color_to_rgb` |
| `Classifier` | the verdict chain in `main` |
| `Diagnostics` | scanner and identity test |

### Behaviour of the code worth knowing

- **The normaliser is not monotone in general.** `color_to_rgb` casts
  `(raw * 255) / clear` to `uint8_t`. The cast drops the high bits exactly
  when `raw * 255 >= 256 * clear`, so raising a raw channel past that point
  can lower its output.
  - The model keeps the cast.
  - It states exactly where the quotient is kept whole
    (`Normalizer.ScaleExact`): a channel slightly above clear, such as 1001
    against 1000, still maps to 255.
  - It proves monotonicity wherever the quotient is kept whole, which covers
    every channel up to the clear count (`Normalizer.ScaleMonotone`).
  - It proves the failure beyond that point with a concrete pair
    (`Normalizer.ScaleWrapsPastClear`): with clear = 1, red = 1 maps to 255
    and red = 2 maps to 254.
- **Identity-test failures are not told apart.** `tcs34725_test_connection`
  returns one `bool` for both a bus failure and a wrong ID.
  - `Diagnostics.TestConnection` returns that `bool`.
  - The two causes stay distinguishable in its trace: no byte delivered, or
    a byte outside `{0x44, 0x4D}`.
- **A failed `read_register` yields `None`.** The C function passes its
  `value` argument straight to the SDK read, so after a failed read `*value`
  may or may not have been written. No caller looks at it; `Protocol.ReadRegister` returns
  `None`.
- **A failed `read_16bit` leaves its variable alone.** Its output is assigned
  only on success, so a colour channel whose read fails keeps its previous
  count (`Controller.Keep`).

## Model

| member | source | states |
|---|---|---|
| Bytes.SplitThenJoin | Ambev_lodo.c:93 | rebuilding a word from its low and high bytes gives the word back |
| Bytes.JoinThenSplit | Ambev_lodo.c:93 | the two bytes a word was rebuilt from are recovered as its low and high bytes |
| Bytes.LittleEndianExtremes | Ambev_lodo.c:93 | the rebuilt word is 0x0000 exactly for (0x00, 0x00) and 0xFFFF exactly for (0xFF, 0xFF) |
| Bytes.LittleEndianIsOr | Ambev_lodo.c:93 | `lo + 256 * hi` equals the C expression that ORs `buf[0]` with `buf[1] << 8` and casts to `uint16_t`, for all byte pairs |
| Bytes.LowBitIsAnd | Ambev_lodo.c:212 | `(status & 0x01) != 0` holds exactly when the status byte is odd |
| Registers.CommandIsOr | Ambev_lodo.c:62 | the command byte equals the bitwise or of `COMMAND_BIT` and `reg` for every byte |
| Registers.CommandFraming | Ambev_lodo.c:13 | the command byte always carries bit 7 and keeps the register's low seven bits |
| Registers.RegisterAt | Ambev_lodo.c:16-28 | a register found at an address has that address as its code |
| Registers.RegisterAtCode | Ambev_lodo.c:16-28 | every named register is found again at its own address, so the register addresses are distinct |
| Registers.CommandsDistinct | Ambev_lodo.c:16-28 | distinct registers are selected by distinct command bytes |
| Registers.HighFollowsLow | Ambev_lodo.c:21-28 | each channel's high-byte register is at the address right after its low-byte register, which a two-byte read relies on |
| Registers.PowerAndAdc | Ambev_lodo.c:33-34 | the bitwise or of `ENABLE_PON` and `ENABLE_AEN` is 0x03, the two bits being disjoint |
| Registers.GainOf | Ambev_lodo.c:37-40 | a gain is decoded exactly from the codes 0..3, each back to its code |
| Registers.GainCodeRoundTrip | Ambev_lodo.c:37-40 | decoding a gain's code gives that gain back |
| Registers.IntegrationTimeOf | Ambev_lodo.c:43-47 | a decoded integration time has the decoded byte as its code |
| Registers.IntegrationTimeCodeRoundTrip | Ambev_lodo.c:43-47 | decoding an integration time's code gives that integration time back |
| Protocol.WriteRegister | Ambev_lodo.c:61-65 | one two-byte write `[Command(reg), value]` to 0x29 without holding the bus; true exactly when the transport returns 2, which is exactly when the write completed |
| Protocol.AddressedRead | Ambev_lodo.c:81-91 | the command byte is written to 0x29 holding the bus; a read phase of `len` bytes follows exactly when that write returned 1; the bytes come back exactly when the read moved all of them |
| Protocol.ReadRegister | Ambev_lodo.c:68-78 | framed as `AddressedRead` with one byte: the command byte of `reg` is written to 0x29 holding the bus, and a one-byte read releasing the bus follows exactly when that write returned 1; a byte is returned exactly when the write returned 1 and the read returned 1, and it is the byte delivered |
| Protocol.Read16 | Ambev_lodo.c:81-95 | framed as `AddressedRead` with two bytes: the command byte of `reg` is written to 0x29 holding the bus, and a two-byte read releasing the bus follows exactly when that write returned 1; a word is returned exactly when the write returned 1 and the read returned 2, and it is the little-endian word of the two bytes delivered |
| Protocol.Read16Delivers | Ambev_lodo.c:86-94 | the 16-bit read's outcome equals an independent statement of what the transport delivered |
| Protocol.Read16Value | Ambev_lodo.c:93 | a successful 16-bit read is `buf[0] + 256 * buf[1]`, and its low and high bytes are `buf[0]` and `buf[1]` |
| Controller.WriteSequence | Ambev_lodo.c:168-196 | the writes of a sequence all go to the sensor, and the sequence succeeds exactly when every write completed |
| Controller.WriteSequenceOutcome | Ambev_lodo.c:168-196 | a write sequence succeeds exactly when the transport accepts every write in a row |
| Controller.WriteSequenceCalls | Ambev_lodo.c:168-196 | a write sequence issues the accepted writes plus the first rejected one, one bus call each |
| Controller.WriteSequenceFrames | Ambev_lodo.c:168-196 | the writes a sequence issues carry the planned frames in plan order |
| Controller.WriteSequenceEnds | Ambev_lodo.c:168-196 | a write sequence never pauses, and a failed one ends with the rejected write |
| Controller.Init | Ambev_lodo.c:168-204 | every bring-up transfer goes to 0x29, and the bring-up returns true exactly when every transfer completed |
| Controller.InitSucceedsIffAllAccepted | Ambev_lodo.c:168-204 | the bring-up returns true exactly when the transport accepts all four writes |
| Controller.InitCallCount | Ambev_lodo.c:168-204 | the bring-up makes one bus call per accepted write plus the first rejected one, and none after a rejection |
| Controller.InitFollowsPlan | Ambev_lodo.c:171-196 | the bring-up's writes are ENABLE, ENABLE, ATIME, CONTROL with their planned values, in that order, cut off after the first rejected write |
| Controller.InitStopsAtRejection | Ambev_lodo.c:171-196 | a failed bring-up ends with the write the transport rejected |
| Controller.InitPauses | Ambev_lodo.c:176-198 | a successful bring-up pauses 3 ms right after the power-on write and 120 ms as its last event, and nowhere else |
| Controller.BringUpFrames | Ambev_lodo.c:171-196 | the bring-up frames are, byte for byte, `[0x80, 0x01]`, `[0x80, 0x03]`, `[0x81, 0xD5]`, `[0x8F, 0x01]` |
| Controller.DataReady | Ambev_lodo.c:207-213 | one STATUS (0x13) read; ready exactly when the read succeeded and bit 0 of the byte is set; a failed read is "not ready" |
| Controller.DataReadyTestsAvalid | Ambev_lodo.c:207-213 | the ready test is the C test `(status & 0x01) != 0` on a successfully read STATUS byte |
| Controller.ReadWords | Ambev_lodo.c:224-228 | the channel reads make one transaction and keep one outcome per register |
| Controller.ReadWordsEach | Ambev_lodo.c:224-228 | the i-th channel transaction goes to the sensor and selects the i-th register; its outcome is the word it delivered, present exactly when it succeeded |
| Controller.ReadWordsDelivered | Ambev_lodo.c:224-228 | the i-th channel outcome is what the transport delivered to that transaction, whatever the earlier reads returned |
| Controller.ReadColor | Ambev_lodo.c:216-221 | when data is not ready the sample keeps its counts, is marked invalid, and only the STATUS read is on the bus |
| Controller.ReadColorNotReady | Ambev_lodo.c:218-221 | when data is not ready there is exactly one transaction, the STATUS read, the sample is invalid and its four counts are unchanged |
| Controller.ReadColorOrder | Ambev_lodo.c:223-228 | when data is ready there are exactly five transactions, all to 0x29: STATUS, then the low registers of clear, red, green and blue, in that order |
| Controller.ReadColorFields | Ambev_lodo.c:224-228 | each channel holds the word its transaction delivered, or its previous count when that transaction failed |
| Controller.ReadColorValid | Ambev_lodo.c:224-231 | the sample is valid exactly when all four channel reads succeeded, which is exactly when every transfer completed |
| Controller.ReadColorValidFromBus | Ambev_lodo.c:224-231 | the sample is valid exactly when each of the four channel transactions had its write return 1 and its read return 2 |
| Controller.ReadColorCountsFromBus | Ambev_lodo.c:224-228 | each channel count is the little-endian word its transaction delivered, or the previous count |
| Normalizer.Scale | Ambev_lodo.c:242-244 | when the channel is at most the clear count, the `uint8_t` cast drops nothing |
| Normalizer.QuotientBelow | Ambev_lodo.c:242-244 | when the channel is at most the clear count, `(raw * 255) / clear` is at most 255 |
| Normalizer.ScaleShare | Ambev_lodo.c:242-244 | up to the clear count, the output is the largest `s` with `s * clear <= raw * 255` |
| Normalizer.ColorToRgb | Ambev_lodo.c:235-239 | (0, 0, 0) for an invalid sample or a zero clear count, whatever the colour counts, so nothing is ever divided by zero |
| Normalizer.ScaleEnds | Ambev_lodo.c:242-244 | a dark channel maps to 0 and a channel as bright as clear maps to 255 |
| Normalizer.ScaleFullOnlyAtClear | Ambev_lodo.c:242-244 | up to the clear count, 255 is reached only at the clear count itself |
| Normalizer.ScaleExact | Ambev_lodo.c:242-244 | the output equals `(raw * 255) / clear` exactly when `raw * 255 < 256 * clear`; otherwise the `uint8_t` cast has dropped bits |
| Normalizer.ScaleMonotone | Ambev_lodo.c:242-244 | wherever the cast keeps the quotient whole (in particular up to the clear count), a brighter channel never maps lower |
| Normalizer.ScaleWrapsPastClear | Ambev_lodo.c:242 | once `raw * 255` reaches `256 * clear` the cast drops bits and monotonicity fails: with clear 1, raw 1 maps to 255 but raw 2 to 254 |
| Normalizer.ColorToRgbShare | Ambev_lodo.c:235-245 | for a valid sample with no channel above clear, each output is that channel's share of clear on a 0..255 scale, rounded down |
| Normalizer.ColorToRgbMonotone | Ambev_lodo.c:235-245 | raising any of the red, green and blue counts, none past the clear count, never lowers any output, and a channel whose count is unchanged keeps its output |
| Classifier.Classify | Ambev_lodo.c:317-333 | dark exactly when clear is at most 100; black exactly when there is light and all three outputs are below 50; a colour verdict's channel is strictly the strongest; white only when all outputs exceed 150 |
| Classifier.Max3 | Ambev_lodo.c:318-323 | the strongest channel is one of the three and at least each of them |
| Classifier.ColourVerdicts | Ambev_lodo.c:317-323 | a red, green or blue verdict is given exactly when there is light and one channel is strictly the strongest and above 80, and it names that channel |
| Classifier.WhiteVerdict | Ambev_lodo.c:317-325 | white exactly when there is light, all three outputs exceed 150 and no single channel is strictly the strongest |
| Classifier.DarkSample | Ambev_lodo.c:317-333 | a sample whose clear count is at most 100 is dark whatever its colour counts |
| Diagnostics.Probe | Ambev_lodo.c:118-119 | a probe is a one-byte read of the probed address that releases the bus |
| Diagnostics.Scan | Ambev_lodo.c:100-141 | exactly 112 probes, of addresses 8 to 119 in increasing order, each once; an address is present exactly when its probe returned a non-negative value; found exactly when some address is present; the sensor at 0x29 is present exactly when its own probe answered |
| Diagnostics.TestConnection | Ambev_lodo.c:144-163 | one ID (0x12) read; true exactly when both phases returned 1 and the byte is 0x44 or 0x4D; a failed read is false |

## Left out

- Console output: every `printf`, including the scanner's table and the
  emoji status lines, is formatting only. The scanner's marking of the
  sensor's address is part of that formatting.
- Timing: each `sleep_ms` is a `Delay(ms)` event carrying its duration. No
  clock is modelled.
- The SDK I2C primitives are the `Transport.Bus` oracle; their bus-level
  behaviour is not modelled.
- The pin, port and frequency configuration (lines 6-9) and `main`'s
  hardware bring-up are not modelled. Neither is `main`'s infinite sampling
  loop with its halt loops. Only the verdict chain inside the loop is lifted
  into `Classifier.Classify`.
- `servidor/rotas.py` and `app.py` (the HTTP handler and the app bootstrap
  that forward readings to a database) are not part of this model.
- A write-then-read round trip through a simulated echoing transport is not
  stated. The source contains no such transport, and the oracle has no
  device memory.
- `Scan` does not say what the scanner's probe reads deliver into its dummy
  byte. The source ignores that byte.
- `Protocol.ReadRegister`: on a failed read, the byte the SDK may have left
  in the caller's variable is not modelled. It returns `None` instead,
  because no caller reads the variable after a failure.
