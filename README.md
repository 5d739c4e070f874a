# dbcc's C generator (`2c.c`) in Dafny

dbcc turns a DBC file (the description of the CAN messages on a bus) into C
code. For each message it emits:

- a record type;
- `Pack_<msg>`, which serialises the record into a 64-bit frame;
- `Unpack_<msg>`, which deserialises the frame into the record;
- scaled `Can_Encode_*` / `Can_Decode_*` accessors for every signal.

It also emits two dispatchers, `Can_<db>_Pack_message` and
`Can_<db>_Unpack_message`, that select a message by its CAN identifier.

This project models what `2c.c` decides and what the code it emits computes.
The printed text is not modelled.

- **`Word`**: `uint64_t` as 64 bits, with `&`, `|`, `~`, `<<` and `>>` and
  their arithmetic meaning. It also holds the emitted `reverse_byte_order`
  (three lane swaps).
- **`Signals`**: the signal record of the DBC file, plus:
  - `fix_start_bit`, in wrapping 32-bit unsigned arithmetic;
  - the `determine_*_type` choices;
  - the length checks of `signal2type`.
- **`Codec`**: the code `signal2serializer` and `signal2deserializer` emit:
  - the mask;
  - extraction and insertion of a field;
  - the conversion to the member type;
  - the sign extension with its `negative` constant, which is truncated to
    32, 16 or 8 bits.

  It proves that deserialising a serialised integer field gives back every
  value the field can represent, and that a floating field hands
  `unpack754` the bit pattern `pack754` produced.
- **`Frame`**: the scratch registers `m` (Motorola, byte-reversed) and `i`
  (Intel). It covers how `Pack` merges them into the frame and how `Unpack`
  splits the frame back, with `swap_motorola` true as in the source.
- **`Scaling`**: the range gates of the accessors and the accessors
  themselves:
  - `signal_are_min_max_valid`;
  - `unsigned_max`, `signed_max` and `signed_min`;
  - `gmin` and `gmax`. For a floating signal the source assigns `gmax`
    twice, so `gmin` keeps the value the signedness gave it. The model keeps
    that behaviour.
  - the `%g` printing of the bounds, of `-offset` and `1 / scaling` in
    `Can_Encode`, and of the scaling and offset in `Can_Decode`: the emitted
    code computes with six significant digits of each constant.
  - the type of `in`: the member's own type unless the signal is scaled or
    offset, so an integer argument is converted before it is checked.
- **`Sorting`**: the `qsort` calls. They are modelled by a sort promising
  only "sorted and a permutation", because `qsort` is not stable. The module
  also holds the comparators.
- **`Multiplex`**: `find_multiplexor` and `multiplexor_switch`.
  - `multiplexor_switch` sorts the signals by switch value, opens an arm at
    each multiplexed signal, and runs the arm to the end of the run of equal
    switch values.
  - The inner loop does not test `is_multiplexed`, so a plain signal with
    the same switch value joins the arm.
- **`Messages`**: `msg_dlc_check` (a 32-bit wrapping sum), the byte-order
  flags of `msg2c`, and the two sorts of `dbc2c`.
- **`Routines`**: what `msg_pack` and `msg_unpack` decide to emit for a
  message (`process_signals_and_find_multiplexer` then `multiplexor_switch`),
  and `msg2c` for one message.
- **`Generated`**: the semantics of the emitted routines on a record of
  members, including:
  - `Pack_<msg>`, `Unpack_<msg>` and the DLC guard;
  - `default: return -1` for an unknown multiplexor value;
  - the `_tx`, `_rx` and time-stamp fields;
  - the identifier dispatchers, which return -1 for an unknown identifier.

  It proves that a frame written by `Pack_<msg>` and read by `Unpack_<msg>`
  restores every integer member the sender coded and hands `unpack754` the
  pattern of every floating one. The two routines are built by `msg2c` from
  two separate sorts of the signals, and the proof only needs them to agree
  on which signals they code.
- **`Database`**: `dbc2c`'s pass over a whole database: sorting, declaring
  every member (`msg2h_types`), and `msg2c` over the messages in identifier
  order.

Integers are unbounded; the C widths are written out where they matter:

- `uint64_t` registers are `Word`s.
- `unsigned` arithmetic wraps modulo 2^32 (`Wrap32`).
- `(uintN_t)` and `(intN_t)` conversions reduce modulo 2^N (`AssignTo`).

In the accessors a member is its numeric value, a floating one included. In
`Pack_<msg>` and `Unpack_<msg>` a floating member is represented by its
IEEE-754 bit pattern: the one `pack754` makes of it when sending, and the one
handed to `unpack754` when receiving.

## Model

| member | source | states |
|---|---|---|
| Word.ShlValue | 2c.c:234-235 | `x << n`, for n < 64, is x * 2^n reduced modulo 2^64 |
| Word.ShrValue | 2c.c:185-186 | `x >> n`, for n < 64, is x / 2^n |
| Word.AndOnesValue | 2c.c:178-186 | and-ing with the n low ones is reduction modulo 2^n |
| Word.NotValue | 2c.c:199 | `~x` is 2^64 - 1 - x |
| Word.OrDisjointValue | 2c.c:207 | or-ing values with no common bit adds them |
| Word.SwapLanesBit | 2c.c:764-766 | each line of `reverse_byte_order` moves bit i to its partner in the neighbouring 32-, 16- or 8-bit lane |
| Word.ReverseByteOrderBit | 2c.c:762-768 | bit i of `reverse_byte_order(x)` is bit 8*(7 - i/8) + i%8 of x |
| Word.ReverseByteOrderBytes | 2c.c:762-768 | byte k of the result is byte 7 - k of the input |
| Word.ReverseByteOrderInvolution | 2c.c:762-768 | reversing twice gives the word back |
| Word.ReverseByteOrderOr | 2c.c:762-768 | reversal distributes over `\|` |
| Signals.Wrap32 | 2c.c:116-121 | unsigned 32-bit results differ from the exact ones by a multiple of 2^32 |
| Signals.FixStartBit | 2c.c:116-121 | Intel: the start bit. Motorola: the shift whose top bit is the start bit's byte-reversed position; when that underflows, the wrapped 32-bit value |
| Signals.MotorolaMsbIsStartBit | 2c.c:116-121 | a Motorola field's top register bit maps back to the start bit under the byte reversal |
| Signals.DetermineUnsignedType | 2c.c:123-133 | an unsigned type, the smallest of 8/16/32/64 bits holding the length (64 when none does) |
| Signals.DetermineSignedType | 2c.c:135-145 | the same for the signed types |
| Signals.DetermineType | 2c.c:147-154 | floating: `double` for 64 bits, else `float`; otherwise signed or unsigned as the signal is |
| Signals.SignedUnsignedSameWidth | 2c.c:123-145 | the signed and unsigned choices have the same width for every length |
| Signals.SignalToType | 2c.c:249-266 | accepted iff the length is not 0 and a floating signal has 32 or 64 bits; a zero length is its own error; an accepted signal gets `determine_type`'s member type, wide enough for its field |
| Codec.Mask | 2c.c:178-180 | the mask is 2^length - 1, and for length < 64 equals `(1 << length) - 1` |
| Codec.ShiftedOneValue | 2c.c:180 | `1 << length` is 2^length for length < 64 |
| Codec.MaskBits | 2c.c:178-180 | the mask is exactly the low `length` bits |
| Codec.Extract | 2c.c:185-188 | bit i of `(r >> start) & mask` is bit start + i of r inside the field, clear outside |
| Codec.ExtractValue | 2c.c:185-188 | the extracted field is (r / 2^start) mod 2^length |
| Codec.Insert | 2c.c:234-236 | `r \| (x << start)` sets the shifted bits of x and keeps every bit of r |
| Codec.InsertKeepsOutside | 2c.c:234-236 | inserting a field leaves every register bit outside it unchanged |
| Codec.InsertExtract | 2c.c:214-238 | inserting into a clear field and extracting it gives the field back |
| Codec.InsertOtherField | 2c.c:214-238 | inserting a field does not change a disjoint field |
| Codec.FieldBits | 2c.c:228-233 | the masked value fits the length and is the member reduced modulo 2^length |
| Codec.ConvertedWidth | 2c.c:228-232 | the cast's width is at least the field's length |
| Codec.FieldBitsValue | 2c.c:232 | casting to the unsigned type and then masking reduces modulo 2^length |
| Codec.Top | 2c.c:198 | `top` has exactly the field's sign bit set |
| Codec.NegativeBits | 2c.c:199-205 | `negative` has exactly bits length .. w - 1 set, w being the signed member's width |
| Codec.NegativeBit | 2c.c:199-205 | the same, one bit at a time |
| Codec.NegativeZeroIff | 2c.c:199-206 | `negative` is zero, so no sign extension is emitted, iff the length is 8, 16, 32 or 64 |
| Codec.NegativeValue | 2c.c:199-205 | `negative` is 2^w - 2^length |
| Codec.TruncationConstants | 2c.c:200-205 | the three truncation masks are the low 32, 16 and 8 bits |
| Codec.FieldNumber | 2c.c:197-207 | a field of n bits is below 2^n, and `x & top` tests whether it is at least 2^(n-1) |
| Codec.DeserializeUnsigned | 2c.c:170-212 | an unsigned integer member receives the field's number |
| Codec.DeserializeSigned | 2c.c:170-212 | a signed integer member receives the field read in two's complement of its length |
| Codec.SignExtendValue | 2c.c:197-210 | the sign-extension line, then the assignment to the signed member, gives the two's-complement value |
| Codec.SignExtendFullWidth | 2c.c:206-210 | without the sign-extension line, the fitting full-width member gives the same value |
| Codec.SignExtendNegative | 2c.c:207-210 | a field with its sign bit set reads as its value minus 2^length |
| Codec.SignExtendSets | 2c.c:207 | sign extension or-s in `negative`, which adds its value |
| Codec.SignExtendNonNegative | 2c.c:207-210 | a field with a clear sign bit reads as itself |
| Codec.SerializeDeserialize | 2c.c:170-238 | deserialising an integer field the serializer wrote into a clear place gives back every member value the field can represent |
| Codec.PatternDelivered | 2c.c:188-192 | a floating field written into a clear place delivers to `unpack754` exactly the masked pattern `pack754` produced (2c.c:230) |
| Codec.TwosComplementOfMod | 2c.c:197-210 | every n-bit two's-complement value survives the reduction modulo 2^n |
| Codec.TwelveBitExamples | 2c.c:197-208 | for 12 bits: 0xFFF reads as -1, 0x800 as -2048, 0x7FF as 2047 |
| Codec.TwelveBitDeserialize | 2c.c:170-212 | a signed 12-bit Intel field at bit 0 holding 0xFFF or 0x800 is read back as -1 or -2048 |
| Frame.Split | 2c.c:629-632 | Unpack's `m` byte-reversed is the frame, and `i` is the frame |
| Frame.ReverseZero | 2c.c:762-768 | reversing zero gives zero |
| Frame.MergeUnused | 2c.c:602-609 | with the unused register clear, each form of `*data = ...` is `reverse(m) \| i` |
| Frame.SplitMerge | 2c.c:602-632 | splitting Pack's frame gives `m \| reverse(i)` and `reverse(m) \| i` |
| Frame.ExtractOrClear | 2c.c:185-188 | or-ing in a word whose field is clear does not change the extracted field |
| Frame.Mirror | 2c.c:119 | the register position of frame bit q, inverted by the byte reversal |
| Frame.ReverseAt | 2c.c:762-768 | reversed bit p is the original's mirrored bit |
| Frame.MotorolaPlaced | 2c.c:116-121 | a Motorola field whose shift does not underflow lies in its register, with its top bit on the start bit |
| Frame.MergeBit | 2c.c:603-608 | frame bit p is m's mirrored bit or i's bit p |
| Frame.FirstByteBothWays | 2c.c:116-121 | an 8-bit field at Motorola start 7 and one at Intel start 0 both cover exactly frame bits 0-7 |
| Frame.FirstByteFrame | 2c.c:602-609 | either way, byte 0 of the frame is the field |
| Scaling.UnsignedMax | 2c.c:287-293 | 2^length - 1, with UINT64_MAX for 64 bits |
| Scaling.SignedMax | 2c.c:295-301 | 2^(length-1) - 1, with INT64_MAX for 64 bits |
| Scaling.SignedMin | 2c.c:303-309 | `~signed_max`, i.e. -2^(length-1), with INT64_MIN for 64 bits |
| Scaling.RangeIsRepresentable | 2c.c:287-309 | the field's range given by these bounds is exactly the set of values serialisation carries unchanged |
| Scaling.GatesOf | 2c.c:331-345 | no range checks unless minimum differs from maximum; a check per bound that is narrower than the field's range; floating signals: gmax always, gmin as the signedness gave it |
| Scaling.GatesNarrow | 2c.c:335-341 | an integer bound is checked iff it excludes some value the field can hold |
| Scaling.AccessorOf | 2c.c:311-391 | a zero scaling factor is fatal; otherwise the accessor uses the gates, the `%g` values of the bounds, of `-offset`, `1 / scaling`, the scaling and the offset, and an integer `in` exactly when the signal is neither floating, scaled nor offset |
| Scaling.Printed | 2c.c:350-360 | the value `%g` prints: zero iff the constant is zero, of the same sign, within five parts in a million of it |
| Scaling.Exponent | 2c.c:350-360 | the power of ten of the sixth significant digit: the constant divided by it has six digits before the point |
| Scaling.RoundHalfEven | 2c.c:350-360 | `%g`'s rounding to the nearest integer moves by at most one half and keeps whole numbers |
| Scaling.EncodeRaw | 2c.c:357-360 | `in += -offset; in *= 1 / scaling` computes `(in - offset) / scaling` whenever the printed constants are exact |
| Scaling.DecodeRaw | 2c.c:385-391 | `rval *= scaling; rval += offset` computes `member * scaling + offset` whenever the printed constants are exact |
| Scaling.TruncateInteger | 2c.c:361 | converting a whole number to the member type keeps it |
| Scaling.Encode | 2c.c:347-362 | -1, with the member cleared, iff `in` (the argument, truncated when `in` has the integer member type) fails an active printed gate; otherwise the member receives `in` shifted and scaled by the printed constants, truncated for an integer member and kept whole for a floating one |
| Scaling.Decode | 2c.c:385-432 | -1, with 0 written, iff the member scaled and offset by the printed constants fails an active printed gate; otherwise that value, which is `member * scaling + offset` when the constants print exactly |
| Scaling.EncodeDecode | 2c.c:347-432 | when `%g` prints the scaling and offset exactly, encoding a value with a whole raw value and decoding gives the value back; Encode refuses exactly the values outside the printed gates |
| Scaling.AccessorRoundTrip | 2c.c:347-432 | the same for any accessor with exactly printed constants and an integer `in` only when unscaled |
| Scaling.PrintedBoundExample | 2c.c:352 | an unsigned 32-bit signal with maximum 1234567 is checked against 1.23457e+06, so 1234568 is accepted and stored |
| Scaling.PrintedFactorExample | 2c.c:360-361 | with scaling 0.7, `in *= 1.42857` turns 0.7 into 0.999999 and the member receives 0, which decodes to 0 |
| Scaling.PrintedInverse | 2c.c:360 | `%g` prints 1 / 0.7 as 1.42857 |
| Sorting.SortByKey | 2c.c:524 | the array becomes sorted by the key and is a permutation of the old one |
| Sorting.CmpSignal | 2c.c:507-517 | negative, zero or positive as the switch values compare |
| Sorting.SignalCompare | 2c.c:786-796 | the same, reversed, on bit lengths (longest first) |
| Sorting.ComparatorKeys | 2c.c:507-517 | each comparator's "not greater" is exactly the sort key's order |
| Multiplex.FindMultiplexor | 2c.c:469-483 | none when no signal is a multiplexor; the only one when there is one; a second one found iff two exist |
| Multiplex.RunEnd | 2c.c:531 | the inner loop's final j: the end of the run of s[i]'s switch value |
| Multiplex.Cases | 2c.c:525-540 | every emitted arm is a non-empty range of positions |
| Multiplex.MultiplexorSwitch | 2c.c:518-543 | the signals are sorted by switch value and permuted, and the arms are those the walk emits |
| Multiplex.ScanRun | 2c.c:530-536 | the inner loop stops at the end of the run |
| Multiplex.CasesOpen | 2c.c:527-537 | a multiplexed signal opens an arm to the end of its run, and the walk resumes there |
| Multiplex.CasesShape | 2c.c:525-540 | each arm starts at a multiplexed signal and spans exactly the run of its value |
| Multiplex.CasesOrdered | 2c.c:524-540 | on the sorted array the arms are disjoint, in order, with strictly increasing values |
| Multiplex.CasesCover | 2c.c:525-540 | every multiplexed signal lies in some arm |
| Multiplex.ExactlyOneArm | 2c.c:525-540 | every multiplexed signal lies in exactly one arm |
| Multiplex.OneArmPerValue | 2c.c:525-541 | every multiplexed signal's value has exactly one `case`, which starts at or before it |
| Multiplex.PlainSignalInArm | 2c.c:527-533 | a plain signal sharing a multiplexed signal's value is coded in its arm when it sorts after it, not when it sorts before |
| Messages.MsgDlcCheck | 2c.c:679-694 | fatal iff two multiplexors; warns iff there is no multiplexor and the wrapped length sum exceeds the wrapped `dlc * 8` |
| Messages.WrapAdd | 2c.c:685-688 | accumulating in an `unsigned` gives the wrapped exact sum |
| Messages.DlcCheckExact | 2c.c:681-689 | for dlc <= 8 and a sum below 2^32, the warning means "more signal bits than frame bits" |
| Messages.SumLengthsPermutation | 2c.c:934-938 | the length sort does not change the sum, so it does not change the warning |
| Messages.UsageFlags | 2c.c:704-711 | `motorola_used` and `intel_used` are set iff some signal has that byte order |
| Messages.MessageCompare | 2c.c:774-784 | negative, zero or positive as the identifiers compare |
| Messages.MessageCompareKey | 2c.c:774-784 | the comparator's "not greater" is the identifier order |
| Messages.SortDatabase | 2c.c:931-938 | messages sorted by identifier and permuted; each message keeps everything but its signals, which are permuted and sorted by decreasing length |
| Routines.ArmsOf | 2c.c:529-536 | each arm codes the signals of its range of the sorted array, under its value |
| Routines.ProcessSignals | 2c.c:485-505 | fatal iff two multiplexors; otherwise the plain signals in list order and the multiplexor, if any |
| Routines.EmitRoutine | 2c.c:596-600 | the plain signals of the original order; without a multiplexor, no arms and the array unchanged; with one, the array sorted by switch value and its arms; and the routine codes the message's signals: plain iff not multiplexed, a switch iff the message has a multiplexor, an arm for exactly the multiplexed values, each holding every multiplexed signal of its value and only signals of its value |
| Routines.Msg2C | 2c.c:696-739 | stops on a second multiplexor or a zero scaling factor; otherwise Pack and Unpack for the message's id and DLC, with the same plain signals up to order, flags that match the byte orders used, the same multiplexor, and arms that both code the message's multiplexed signals |
| Routines.SwitchArmsFor | 2c.c:518-543 | the arms `multiplexor_switch` emits over any sorted permutation of the signals code exactly the multiplexed signals, one arm per value |
| Routines.CodesForPermutation | 2c.c:696-739 | what a routine codes for a message does not depend on the order its signals are in |
| Routines.ArmsForMembers | 2c.c:518-543 | arms for a list of signals are arms for every list with the same members |
| Routines.OnlyMultiplexor | 2c.c:469-483 | without a second multiplexor the two routines switch on the same one |
| Routines.PlainMembers | 2c.c:492-503 | a signal is outside the switch exactly when it is a signal of the message that is not multiplexed |
| Routines.FindZeroScaling | 2c.c:726-733 | the accessor loop stops iff some signal has a zero scaling factor |
| Routines.ZeroScalingPermutation | 2c.c:726-733 | the order of the signals does not change that |
| Routines.PermutationKeepsMultiplexors | 2c.c:469-483 | two multiplexors are found in every order of the signals |
| Routines.PlainPermutation | 2c.c:492-503 | the plain signals of two orders of a list are permutations of each other |
| Generated.PackSignal | 2c.c:214-238 | the signal's register receives the serializer's result, and the other register is unchanged |
| Generated.FindArm | 2c.c:523-541 | the `case` a switch enters is the first arm with the value; `default` iff none has it |
| Generated.Coded | 2c.c:596-600 | the coded signals start with the plain ones; a well-formed routine can code all of them |
| Generated.Pack | 2c.c:576-613 | -1, with nothing written, iff the multiplexor's value has no arm; otherwise 0, `_tx` set, and a frame written iff the message has signals |
| Generated.UnpackSignals | 2c.c:640 | decoding keeps every member already present |
| Generated.Unpack | 2c.c:615-648 | -1, with nothing changed, on a short DLC; otherwise -1 iff the decoded multiplexor value has no arm, with the plain members already written; 0 sets `_rx` and the time stamp |
| Generated.PackMiss | 2c.c:214-238 | a register bit outside every field of its byte order keeps its value |
| Generated.PackHit | 2c.c:214-238 | a register bit inside one field ends up as that field's bit |
| Generated.PackUnused | 2c.c:588-593 | a register no coded signal uses keeps its value through the serializers |
| Generated.OtherRegisterClear | 2c.c:602-609 | the other register's bit that lands on a field's frame bit belongs to no signal |
| Generated.SameRegisterOnly | 2c.c:602-609 | no other signal of the same byte order covers a field's bit |
| Generated.ReceivedRegisters | 2c.c:602-632 | the registers Unpack starts from are `m \| reverse(i)` and `reverse(m) \| i` of Pack's registers |
| Generated.BitReadBack | 2c.c:214-238 | every bit of a field arrives in its register as the serializer wrote it |
| Generated.FieldReadBack | 2c.c:185-188 | the field a deserializer extracts is the field the serializer wrote |
| Generated.DeserializeField | 2c.c:170-212 | a deserializer reads only its own field |
| Generated.FieldDecodes | 2c.c:170-238 | every coded integer signal decodes from the received frame to the sender's member; every coded floating signal delivers the sender's `pack754` pattern to `unpack754` |
| Generated.UnpackAppend | 2c.c:640-643 | decoding two lists in turn is decoding their concatenation |
| Generated.UnpackUntouched | 2c.c:170-212 | a member no signal names keeps its value |
| Generated.UnpackValue | 2c.c:640 | the member of a signal that appears once by name is that signal's decoded field |
| Generated.PackedFrame | 2c.c:602-609 | a successful Pack writes a frame, and Unpack's registers are the received registers |
| Generated.UnpackSucceeds | 2c.c:635-647 | past the length check, with an arm, Unpack decodes the plain signals then the arm, returns 0 and sets `_rx` and the time stamp |
| Generated.SameArm | 2c.c:640-643 | the multiplexor member Unpack decodes from Pack's frame is the sender's, so the receiver enters the arm of the same value |
| Generated.CodedMembers | 2c.c:523-541 | for a routine coding a message, `default` is taken iff no multiplexed signal has the value, and a run codes exactly the plain signals and the multiplexed ones with that value |
| Generated.NoArmValue | 2c.c:523-541 | no `case` has a value iff no multiplexed signal has it |
| Generated.ArmHolds | 2c.c:523-541 | the `case` entered for a value holds every multiplexed signal with that value and only signals with it |
| Generated.EmittedAgree | 2c.c:696-739 | the Pack and Unpack `msg2c` emits for a message agree on the multiplexor, the plain signals, `default` and the coded signals, for every record |
| Generated.DecodesOne | 2c.c:640-643 | a signal decoded from the received frame, in a list of sent signals, reads back the sender's member |
| Generated.DecodesAll | 2c.c:640-643 | decoding a list with exactly the coded signals restores every integer member and delivers every floating pattern the sender coded |
| Generated.PackUnpack | 2c.c:576-648 | a frame written by Pack, then read by an agreeing Unpack with a long-enough DLC, gives 0, sets `_rx` and the time stamp, restores every coded integer member and delivers every coded floating pattern |
| Generated.UnpackCoded | 2c.c:615-648 | that Unpack decodes the signals Pack coded, in its own order, from Pack's registers |
| Generated.DispatchIndex | 2c.c:819-831 | the dispatcher enters the first message with the identifier; `default` iff none has it |
| Generated.DispatchOwn | 2c.c:819-829 | with distinct identifiers, each message is reached by its own identifier |
| Generated.PackById | 2c.c:798-832 | unknown identifier: -1 and nothing changed; otherwise the message's Pack, and no other message changes |
| Generated.UnpackById | 2c.c:798-832 | unknown identifier: -1 and nothing changed; otherwise the message's Unpack, and no other message changes |
| Generated.DispatchRoundTrip | 2c.c:798-832 | for the Pack and Unpack `msg2c` emits, packing and unpacking by the same identifier restores every coded integer member and delivers every floating pattern |
| Database.FirstBadSignal | 2c.c:876-878 | none iff every signal passes `signal2type`; otherwise the first refused signal and its error |
| Database.MessageTypes | 2c.c:861-882 | none iff every signal of every message passes; otherwise the first refused signal, in message order |
| Database.GenerateMessage | 2c.c:1033-1037 | the signals are permuted; the run stops iff the message has two multiplexors or a zero scaling factor; otherwise its code: id, DLC, `motorola_used` / `intel_used` set iff some signal has that byte order, and a Pack and an Unpack that both code the message's signals with the same multiplexor |
| Database.EmitMessages | 2c.c:1033-1037 | every message in order, stopping at the first fatal one; the messages keep their identity; each emitted code describes its message as GenerateMessage's does, byte-order flags included |
| Database.DatabaseToC | 2c.c:931-1037 | after both sorts: -1 iff some signal is refused; else a stop at the first fatal message in identifier order; else code for every message, with ascending identifiers, byte-order flags matching its signals and routines that code its signals |
| Database.EmittedRoundTrip | 2c.c:798-832 | for the code dbc2c emits for messages with distinct identifiers, and a message whose DBC data is ready (signals present, fields inside the frame, no overlap between signals of one arm or the plain ones, while arms of different values may share bits, members of the selected signals that fit, a multiplexor that is not multiplexed), packing and unpacking by its identifier restores every coded integer member and delivers every floating pattern |
| Database.CodeReady | 2c.c:696-739 | for the code msg2c emits, the DBC data's conditions give the whole round-trip precondition: the multiplexor coded outside the switch, byte-order flags covering every coded signal (2c.c:704-711), and a per-arm layout that suffices because a run codes the plain signals and one arm |
| Database.CodedSelected | 2c.c:518-543 | a run codes only signals of the message that the record selects, and never two signals of different arms |
| Database.SharedArmLayout | 2c.c:518-543 | two arms that share a byte, beside a multiplexor in its own byte, satisfy the per-arm layout |
| Database.SharedArmReady | 2c.c:518-543 | such a message is ready for a record selecting one arm, whatever the other arm's member holds |

## Left out

- Printing: the emitted text, names (`make_name`), comments, headers, the
  `god` object and the print routines (`msg_print`, `signal2print`,
  `switch_function_print`) are output formatting. The one place where
  printing changes what the emitted code computes, the `%g` literals of the
  accessors, is modelled by Scaling.Printed.
- `pack754` / `unpack754` (2c.c:43-109) are not modelled: `Pack_<msg>` and
  `Unpack_<msg>` are modelled on the bit pattern. `unpack754` is not the
  inverse of `pack754`: `pack754(-0.0)` is `1 << 31` for 32 bits, which
  `unpack754` reads as -2^-127, and subnormals and NaN payloads are not kept
  either.
- Codec.SerializeDeserialize: stated for integer members only; a floating
  member's value is not shown to survive, only its pattern
  (Codec.PatternDelivered), because of `unpack754` above.
- Generated.FieldDecodes: for a floating signal, states only that `unpack754`
  receives the pattern `pack754` produced, not that the member's value is
  restored.
- Generated.DecodesAll: the same for floating members.
- Generated.PackUnpack: the same for floating members.
- Generated.DispatchRoundTrip: the same for floating members.
- Database.EmittedRoundTrip: the same for floating members. It also
  requires the multiplexor not to be multiplexed itself: such a multiplexor
  is decoded inside its own switch, so the emitted Unpack switches on the
  receiving record's old member, and the round trip is not claimed for it.
- Scaling.Encode: real arithmetic stands in for IEEE doubles, and the printed
  constants are exact decimals. The conversion of an argument or a result
  that the member type cannot hold (undefined in C), the rounding of a
  result stored into a `float` member, and the `use_doubles_for_encoding`
  and `use_id_in_name` options are not modelled.
- Scaling.Decode: the same real arithmetic; `rval`'s conversion from a
  floating member's `float` to `double` is exact and needs no model.
- Scaling.EncodeDecode: the round trip is stated only when `%g` prints the
  scaling, its inverse and the offset exactly; Scaling.PrintedFactorExample
  shows that it fails otherwise.
- Undefined shifts: the emitted code shifts by `fix_start_bit`, which wraps
  to 2^32 - k for a Motorola field that sticks out of the frame (2c.c:119)
  and is printed as -k with `%d` (2c.c:186) and as 2^32 - k with `%u`
  (2c.c:235); it shifts by an Intel start bit of 64 or more; and the
  generator's own mask `1uLL << length` (2c.c:180) shifts by a length above
  64, which `signal2type` lets through since it only refuses length 0 and
  odd floating lengths (2c.c:249-266). C leaves these shifts undefined. The
  model defines a shift by 64 or more as giving 0; the emitted routines are
  modelled only for lengths of 1 to 64 bits, and the round-trip lemmas
  require every field to lie inside the 64-bit frame.
- The emitted `assert`s (`o`, `data`, `dlc <= 8`, `id < 1 << 29`) are not
  modelled: a call that would fail one is modelled as if the assertion were
  compiled out.
- The `generate_pack` / `generate_unpack` / `generate_print` options: both
  routines are always generated.
- The dispatcher's `uint8_t dlc` parameter is an unbounded natural in the
  model, which covers every value a `uint8_t` can take.
- Generated.DispatchIndex: duplicate identifiers make the C `switch` fail to
  compile; the model takes the first matching message instead.
- `swap_motorola` is the constant `true` (2c.c:114); the `false` branch of
  the merge and split is not modelled.
- Signals.FixStartBit: the Motorola formula is modelled in exact integers
  wrapped once modulo 2^32, which equals C's step-by-step unsigned
  arithmetic.
- `error()` terminates the generator: it is modelled as a `Stopped` /
  `Aborted` outcome rather than a process exit.
- `warning()` is not modelled beyond the returned code.
- Reading the DBC file, file I/O, time stamps of generation and memory
  management are not part of this model.
- `msg2h` and `msg2h_god_object`: only the member declarations of
  `msg2h_types` (which can fail) are modelled.
