# Cloud bathroom scale: infrared frame decoder and stable-weight trigger

This project models the decoding core of `cloud-bathroom-scale.py`. The
program listens to a bathroom scale's infrared transmission through a LIRC
mode2 device. It turns the pulse/space timings into bytes and groups the
bytes into five-byte frames `[0xAB, status, weight high, weight low,
checksum]`. It records a weight once enough consecutive frames report a
stable reading.

The model has five modules:

- `Lirc` (`lirc.dfy`): the mode2 word format and the device.
  - A 32-bit word splits into the pulse flag (bit 24) and a 24-bit length.
  - The device is a class holding a finite sequence of words and a read
    cursor.
- `BitDecoder` (`bit_decoder.dfy`): `read_byte`.
  - A specification function `DecodeFrom`/`DecodeByte` describes the loop
    over the samples.
  - `ReadByte` is the imperative loop on the device, proved equal to that
    function.
  - Lemmas characterise the function:
    - the round trip from bits to nominal timings and back;
    - every decoded byte is carried by well-formed pulse/space pairs;
    - the rejection cases;
    - bit order;
    - 7-bit bytes are even.
- `Checksum` (`checksum.dfy`): `verify_checksum` as a loop, proved equal to
  a single reduction of the whole sum.
- `Stability` (`stability.dfy`): what one complete frame does to the
  stability counter and to the recorded weights (`ApplyFrame`), and the same
  over a run of frames (`Tally`). Lemmas state when a record can happen.
- `MainLoop` (`main_loop.dfy`): the `while True` loop of `main`.
  - `StepSpec` is one pass; `RunSpec` runs the loop over the whole finite
    stream.
  - The class `Monitor` holds the buffer, the counter and the record list.
    Its `Step` and `Run` methods are proved against `StepSpec` and
    `RunSpec`.
  - Lemmas state the buffer rules and the invariant the loop keeps.
  - `RunIsTally` shows that the counter and the records of the whole loop
    are the frame rules applied to the frames the loop completes.

Uploading a weight ("record(weight)") is modelled as appending the weight, in
tenths, to the list `records`.

What the code does, and the model with it:

- the timing margin is 100 us either side of the nominal length, exclusive
  on both sides;
- every space before the first pulse of a byte is skipped, whatever its
  length;
- a record needs the stability counter at 5 or more, and afterwards the
  counter is set to -10;
- the file has no quiet window, recording thread, lock or LED: frames are
  handled one after the other in the single loop.

## Model

| member | source | states |
|---|---|---|
| Lirc.DecodeWord | cloud-bathroom-scale.py:65-68 | the length is below 2^24, and the word is some multiple of 2^25, plus 2^24 exactly when the sample is a pulse, plus the length: the flag is bit 24 and the length is the low 24 bits (PULSE_BIT, PULSE_MASK at lines 44-45) |
| Lirc.DecodeEncodeWord | cloud-bathroom-scale.py:44-45 | decoding the word built from a pulse flag and a 24-bit length gives back that flag and that length |
| Lirc.EncodeDecodeWord | cloud-bathroom-scale.py:65-68 | re-encoding a decoded word gives the word with bits 25 to 31 cleared, so the decoder ignores exactly those bits |
| Lirc.SamplesOfAppend | cloud-bathroom-scale.py:65-68 | each word is decoded on its own: the samples of two streams read one after the other are the samples of the first followed by those of the second |
| Lirc.Device.constructor | cloud-bathroom-scale.py:175 | the device starts at the first word of its stream |
| Lirc.Device.Read | cloud-bathroom-scale.py:65-68 | the read yields the decoding of the word at the cursor and advances the cursor by one; at the end of the finite stream it yields None and the cursor stays |
| BitDecoder.PosMaskIsShift | cloud-bathroom-scale.py:99 | the single-bit table entry for position k equals 1 << k |
| BitDecoder.PlaceIsShift | cloud-bathroom-scale.py:99 | for a bit value 0 or 1, placing bit number i equals byte \| (v << (7 - i)) |
| BitDecoder.PlaceBitAt | cloud-bathroom-scale.py:99 | after placing bit number i, position k is set exactly when it was set before or the bit is 1 and k = 7 - i |
| BitDecoder.PackMsbFirst | cloud-bathroom-scale.py:78-100 | in the byte built from the bits decoded in order, position k holds bit number 7 - k, and the positions below the last decoded bit are clear (most significant bit first) |
| BitDecoder.DecodeFrom | cloud-bathroom-scale.py:78-102 | the loop never moves the cursor back or past the stream, always consumes a sample while a bit is still due, and reports the end of the stream only once every sample is consumed |
| BitDecoder.ReadByte | cloud-bathroom-scale.py:71-102 | reading a byte from the device gives exactly the outcome and final cursor of the decoding specification from the old cursor |
| BitDecoder.EndedAt | cloud-bathroom-scale.py:79-87 | a stream that ends where a pulse is due, or right after a good pulse, ends the byte unfinished |
| BitDecoder.OnePair | cloud-bathroom-scale.py:86-100 | a pulse in (400,600) followed by a space in (400,600) or (900,1100) adds bit 1 or 0 and moves on two samples |
| BitDecoder.EncodesAtShift | cloud-bathroom-scale.py:86-92 | well-formed pairs keep their meaning whatever samples come before or after them |
| BitDecoder.EncodeBits | cloud-bathroom-scale.py:86-92 | the nominal timings (500 us pulse, 500 us space for 1, 1000 us for 0) are two samples per bit and carry exactly those bits |
| BitDecoder.LeadingSpaces | cloud-bathroom-scale.py:81-83 | the count of spaces before the next pulse: all those samples are spaces, and the next one is a pulse or the end of the stream |
| BitDecoder.SkipSpaces | cloud-bathroom-scale.py:81-83 | spaces before the first bit of a byte are consumed with no effect on the outcome |
| BitDecoder.DecodePairs | cloud-bathroom-scale.py:78-100 | decoding over well-formed pairs consumes two samples per pair and appends their bits in order |
| BitDecoder.PairsFromStart | cloud-bathroom-scale.py:78-100 | the same, for a byte read from its first pair |
| BitDecoder.DecodeByteEncoded | cloud-bathroom-scale.py:71-102 | spaces, then pairs carrying the bits, decode to the byte packing those bits, and the cursor stops right after the last pair |
| BitDecoder.DecodeCarried | cloud-bathroom-scale.py:71-102 | spaces, then any sample run carrying the bits, then anything, decode to the byte packing those bits |
| BitDecoder.EncodeDecodeRoundTrip | cloud-bathroom-scale.py:71-102 | round trip: the nominal encoding of 1 to 8 bits, after any spaces and before anything, decodes to the byte that packs them and consumes exactly the spaces and the pairs |
| BitDecoder.DecodedPairs | cloud-bathroom-scale.py:78-100 | converse of DecodePairs: a byte decoded from a pulse on was carried by well-formed pairs, and its value packs their bits |
| BitDecoder.DecodedByteIsEncoding | cloud-bathroom-scale.py:71-102 | every byte read_byte returns is the leading spaces followed by exactly one well-formed pair per bit, and the byte packs those bits |
| BitDecoder.DecodedLowBitsClear | cloud-bathroom-scale.py:78-99 | a byte read with fewer than 8 bits has its low 8 - bits positions clear |
| BitDecoder.SevenBitByteEven | cloud-bathroom-scale.py:78-99 | a byte read with 7 bits is even |
| BitDecoder.RejectStep | cloud-bathroom-scale.py:82-97 | a space where a pulse is due after the first bit, a pulse outside (400,600), or a good pulse followed by a pulse or a space in neither window gives None, whatever was decoded before |
| BitDecoder.DecodeRejects | cloud-bathroom-scale.py:71-102 | after the leading spaces and some well-formed pairs, an out-of-protocol timing makes read_byte return None, and the cursor stops right after the offending sample |
| Checksum.ClearLowBit | cloud-bathroom-scale.py:110 | clearing the low bit gives an even number at most one below the input |
| Checksum.Expected | cloud-bathroom-scale.py:105-111 | the checksum of four bytes is even and below 255 |
| Checksum.ModAdd | cloud-bathroom-scale.py:108-109 | reducing before an addition does not change the result modulo 255 |
| Checksum.VerifyChecksum | cloud-bathroom-scale.py:105-111 | the per-byte reduction loop accepts exactly when the fifth byte equals the whole four-byte sum reduced once modulo 255 with its low bit cleared |
| Checksum.SealedFrameChecks | cloud-bathroom-scale.py:105-111 | four bytes and a fifth byte pass the check exactly when the fifth is the checksum of the four |
| Checksum.OddChecksumFails | cloud-bathroom-scale.py:110-111 | a frame whose fifth byte is odd never passes |
| Stability.Weight | cloud-bathroom-scale.py:197 | the weight in tenths fits 16 bits |
| Stability.WeightIsShiftOr | cloud-bathroom-scale.py:197 | the weight equals data[2] << 8 \| data[3] |
| Stability.ApplyFrame | cloud-bathroom-scale.py:191-215 | a failed checksum leaves the counter and records nothing; a good frame with another status zeroes the counter; a weight is recorded exactly when the frame checks, is stable, weighs more than 0 and lifts the counter to 5 or more, and the counter is then -10 |
| Stability.Trailing | cloud-bathroom-scale.py:203-206 | the number of stable frames since the last reset frame is at most the number of frames |
| Stability.TallySnoc | cloud-bathroom-scale.py:190-215 | tallying a run and then one more frame is applying the frame rules to that frame after the run |
| Stability.HasResetSnoc | cloud-bathroom-scale.py:203-206 | a run plus one frame has a reset frame exactly when the run has one or the frame is one |
| Stability.CounterAfterFrames | cloud-bathroom-scale.py:203-206 | until the first record, the counter is the number of stable frames since the last reset frame, added to the starting value when there was no reset |
| Stability.TrailingSnoc | cloud-bathroom-scale.py:203-204 | a stable frame adds one to the trailing run |
| Stability.RecordingFrame | cloud-bathroom-scale.py:213-215 | the frame that makes the first record is stable and finds the counter at 4 or more |
| Stability.RecordNeedsStableRun | cloud-bathroom-scale.py:203-215 | the first record is made by a stable frame that ends a run of stable frames enough to lift the counter from its start to 5, or 5 of them after a reset frame |
| Stability.CooldownAfterRecord | cloud-bathroom-scale.py:213-215 | after a record the next record needs 15 stable frames, or 5 after a frame with another status |
| Stability.FifthStableFrameRecords | cloud-bathroom-scale.py:203-215 | from a fresh counter, four stable frames of 40.0 record nothing and the fifth records 400 tenths and sets the counter to -10 |
| MainLoop.BitsFor | cloud-bathroom-scale.py:182 | a byte is read with 8 bits or 7 bits |
| MainLoop.StepSpec | cloud-bathroom-scale.py:181-215 | one pass never moves the cursor back or past the stream, and moves it forward while samples remain |
| MainLoop.RunSpec | cloud-bathroom-scale.py:181-215 | the loop runs until the stream is used up |
| MainLoop.StepPreservesInv | cloud-bathroom-scale.py:181-215 | a pass keeps the buffer at four bytes or fewer, starting with 0xAB from its second byte on, the counter at -10 or above, and every record a positive 16-bit weight |
| MainLoop.RunPreservesInv | cloud-bathroom-scale.py:181-215 | the whole loop keeps the same invariant |
| MainLoop.StepBufferRules | cloud-bathroom-scale.py:182-210 | a stream that ends inside the byte leaves the buffer as it was; a failed read empties the buffer; a buffer not starting with 0xAB is emptied and the new byte dropped; a fifth byte empties it; otherwise the byte is appended |
| MainLoop.HeaderGate | cloud-bathroom-scale.py:184-196 | the counter and the records change only when a byte read with 7 bits completes a buffer that starts with 0xAB |
| MainLoop.FrameChecksumByteEven | cloud-bathroom-scale.py:182-183 | the fifth byte of a frame, read with 7 bits, is even |
| MainLoop.FrameOf | cloud-bathroom-scale.py:182-190 | a pass completes at most one frame, exactly when it reads a fifth byte, with 7 bits, into a buffer starting with 0xAB; the frame has five bytes, the header first and an even fifth byte |
| MainLoop.FramesDuring | cloud-bathroom-scale.py:181-190 | every frame the loop hands to the frame rules has five bytes, starts with 0xAB and has an even fifth byte |
| MainLoop.TallyAppend | cloud-bathroom-scale.py:181-215 | tallying two runs of frames one after the other is tallying their concatenation |
| MainLoop.ComposeTally | cloud-bathroom-scale.py:181-215 | a counter and record list reached by tallying two runs in turn are those of the concatenated run |
| MainLoop.StepIsTally | cloud-bathroom-scale.py:190-215 | one pass moves the counter and records as the frame rules do on the frame it completes, if any |
| MainLoop.RunIsTally | cloud-bathroom-scale.py:181-215 | the counter and records after the loop are the frame rules applied in order to the frames the loop completes |
| MainLoop.Monitor.constructor | cloud-bathroom-scale.py:175-177 | the loop starts with an empty buffer, counter 0 and no records |
| MainLoop.Monitor.Step | cloud-bathroom-scale.py:181-215 | one pass on the device changes the state exactly as StepSpec says and keeps the invariant; it reports exhaustion exactly when the stream ended inside the byte |
| MainLoop.Monitor.Run | cloud-bathroom-scale.py:181-215 | the loop consumes the whole stream and ends in the state RunSpec gives |

## Left out

- The device plumbing (`lirc.__init__`, `ioctl`, `get_features`, `get_rec_mode`, the request constants) is not modelled. The device is the sequence of words it would deliver.
- The blocking read is not modelled. The stream is finite, and reading past its end yields `Exhausted` (or `None` from `Device.Read`), which the source cannot produce. `while True` becomes `Monitor.Run` over the finite stream.
- OAuth and the Google Sheets upload (`get_authorization`, `record_weight`) are not modelled. A recording is the weight appended to `records`; network errors are left out.
- `weight /= 10.0` is left out. Recorded weights are integer tenths. `weight > 0` is equivalent on the integer, and the float is that integer divided by 10.
- Argument parsing, `--test`, the `--debug` printing and the "checksum failed" message are left out as I/O.
- `Checksum.VerifyChecksum` returns a boolean instead of raising. The bare `except:` around the frame rules can only catch that failed assertion, because every other statement in the `try` is total on five bytes.
- `Checksum.ClearLowBit`: `checksum &= ~1` is written as `c - c % 2`, which is the same on the non-negative value the loop produces.
- `Lirc.DecodeWord`: the masks are written as arithmetic on the unsigned word (`/` and `%` by 2^24), which is what `&` with a single bit or a low mask computes on non-negative integers.
- `BitDecoder.Place` writes `v << (7 - i)` through a table of single-bit masks. `PlaceIsShift` proves it equal to the shift.
- The `-1` sentinel for `v` in `read_byte` is `None` of an option, and the bit values are 1 and 0 as in the source.
