# YKOATH client engine of ykoath-rs, in Dafny

This project models the protocol engine of the `ykoath` Rust crate. The crate talks
Yubico's YKOATH protocol to a YubiKey over PC/SC. The engine does the following:

- it builds ISO/IEC 7816-4 command APDUs: CLA INS P1 P2, an Lc byte, then a body of
  one-byte-length TLVs;
- `transmit` patches Lc and sends the command;
- while the card answers with status word 0x61XX, it keeps asking for the rest with
  SEND REMAINING (`00 A5 00 00`), appending every frame to the caller's buffer and
  popping each status word off the end;
- the final status word maps to success or to one of the crate's errors;
- the replies of SELECT, CALCULATE and CALCULATE ALL are then decoded with the TLV
  cursor `pop`. CALCULATE ALL hands out a pull iterator over the reply.

The modules follow the crate:

- `Bytes` (bytes.dfy): the integer widths the code uses, big-endian conversion
  (`u32::from_be_bytes`, `i64::to_be_bytes`), and `Buffer`, the caller's `Vec<u8>`.
- `Errors` (errors.dfy): the `Error` enum of src/error.rs, and a `Result` type.
- `Utf8Text` (utf8.dfy): `str::from_utf8` validity, as the well-formed byte
  sequences of section 4 of RFC 3629.
- `Tlv` (tlv.dfy): `push`, `pop`, and the two `Payload` impls.
- `Apdu` (apdu.dfy): the status-word `match` and a scripted card. `Run`/`Exchange`
  are the loop of `transmit` written as functions, with a flag `guarded`: false is
  the code as written, true is the corrected loop described under "Findings". The
  `Transmit` method is the corrected loop itself, working on `Buffer`. It is proved
  to return the result, and to leave the buffer, of the guarded `Exchange` of the
  old buffer; the guarded `Exchange` never panics.
- `Readers` (readers.dfy): the reader-name `find` in `connect_with`.
- `Calculate` (calculate.dfy): `Response::try_from`, `Display for Response`, and
  `calculate`.
- `CalculateAll` (calculate_all.dfy): `calculate_all`. The `iter::from_fn` closure
  is the class `Entries`: a cursor field and a `Next` method. `Pull` is one call of
  the closure, as a function.
- `Select` (select.dfy): `select`, with its fixed AID and the decode of its reply.

The PC/SC card is a `Card` object with a fixed script of replies. One reply is
either a frame or a PC/SC failure code. The card answers each command with the next
reply and logs the command. It reports `SCARD_W_REMOVED_CARD` once the script is
used up.

### Resending the command after an empty 0x61XX frame

The loop's test is `mid == len` (src/lib.rs:62). After a 0x61XX frame that carried
no payload, it sends the original command again rather than SEND REMAINING.
`Apdu.Command` states the test, and `Apdu.ExchangeChainedSends` states which of the
two is sent at each turn.

### How the model differs from the code

The code pops the status word off the end of the whole buffer, so a frame of fewer
than two bytes lets the pops reach into the command (see "Findings"). `Transmit`
is the corrected loop: it rejects such a frame with InsufficientData before
popping. `Calculate.Calculate`, `CalculateAll.CalculateAll` and `Select.Select`
call this `Transmit`, so they inherit the correction. Their contracts are stated on
the guarded `Exchange`. The code as written is kept as the unguarded `Exchange`,
and the lemmas under "Findings" show what it does on those frames.

## Model

| member | source | states |
|---|---|---|
| Bytes.BeUint | src/calculate.rs:17-23 | `u32::from_be_bytes` of n bytes: a number below 256^n; the round-trip lemmas below pin it down |
| Bytes.Int64Bytes | src/lib.rs:146-149 | `i64::to_be_bytes`: always eight bytes, which is what the i64 `Payload::len` reports |
| Bytes.BeBytesRoundTrip | src/calculate.rs:17-23 | writing a number below 256^n as n big-endian bytes and reading them back gives the number |
| Bytes.BeUintRoundTrip | src/calculate.rs:17-23 | reading n big-endian bytes and writing the number back in n bytes gives the same bytes |
| Bytes.Int64RoundTrip | src/lib.rs:146-149 | the eight two's-complement big-endian bytes of an i64 decode back to it |
| Bytes.Buffer.Pop | src/lib.rs:72-75 | `Vec::pop`: None and nothing changes on an empty buffer; otherwise the last byte is returned and removed |
| Utf8Text.ValidUtf8 | src/calculate_all.rs:57 | the byte strings `str::from_utf8` accepts, as a sequence of RFC 3629 characters; it accepts the encoding of every scalar value and is closed under concatenation (EncodeScalarValid, ConcatValid), and every character it accepts is such an encoding (DecodeCharEncodes) |
| Utf8Text.DecodeCharEncodes | src/calculate_all.rs:57 | every character the syntax of section 4 of RFC 3629 accepts is the section 3 encoding of a scalar value (at most U+10FFFF, not a surrogate), so overlong forms, surrogates and stray continuation bytes are rejected |
| Utf8Text.Rejected | src/calculate_all.rs:57 | an overlong NUL, an encoded surrogate, a lone continuation byte and a value above U+10FFFF are not valid UTF-8 |
| Utf8Text.EncodeScalarValid | src/calculate_all.rs:57 | the UTF-8 encoding of every Unicode scalar value is valid UTF-8 and is a single character |
| Utf8Text.AsciiValid | src/calculate_all.rs:57 | every ASCII name is valid UTF-8 |
| Utf8Text.ConcatValid | src/calculate_all.rs:57 | the concatenation of two valid UTF-8 strings is valid |
| Tlv.Len | src/lib.rs:141-143 | the length byte of the two `Payload` impls: the `as u8` of the slice length, and 8 for an i64; stated by LenWraps |
| Tlv.LenWraps | src/lib.rs:141-153 | the length byte of a payload is its value length mod 256, and exactly that length when the value fits in 255 bytes |
| Tlv.PushInto | src/lib.rs:136-154 | `push_into` appends the slice itself, or the 8 big-endian bytes of an i64 |
| Tlv.Push | src/lib.rs:93-97 | push appends exactly [tag, length mod 256] and then the value; the earlier contents are left alone |
| Tlv.Pop | src/lib.rs:99-109 | succeeds exactly when the tag is allowed and the length byte fits the rest. An empty cursor and a short value give InsufficientData. A foreign tag gives UnexpectedValue(tag). On success the value has the declared length |
| Tlv.PopAdvances | src/lib.rs:104 | a successful pop moves the cursor forward by exactly 2 + len |
| Tlv.PopEncoded | src/lib.rs:93-109 | popping what push wrote returns that tag and value and leaves the cursor at what followed, when the tag is allowed and the value fits the length byte |
| Tlv.PopDecoded | src/lib.rs:99-109 | the converse: whatever pop accepts is a pushed TLV of at most 255 bytes followed by the rest |
| Tlv.PopWrongTag | src/lib.rs:101-108 | a tag outside the allowed set is UnexpectedValue of that tag, whatever follows |
| Tlv.PopTruncated | src/lib.rs:102-103 | a pushed TLV cut short anywhere after its tag byte is InsufficientData |
| Tlv.PopOverlong | src/lib.rs:141-143 | a slice longer than 255 bytes gets a wrapped length byte: pop returns only its first len mod 256 bytes and leaves the remainder in front of the rest |
| Apdu.StatusOf | src/lib.rs:76-89 | total on every u16: 0x9000 and only 0x9000 completes; 0x6100..=0x61FF and only those continue; every other code is a device error, and an UnknownCode carries the code |
| Apdu.StatusTable | src/lib.rs:83-88 | each named device error belongs to exactly one status word, in both directions; other codes are UnknownCode(code) |
| Apdu.StatusWord | src/lib.rs:72-75 | the code read from the two popped bytes has the second-to-last buffer byte as its high byte and the last as its low byte |
| Apdu.Card.Transmit | src/lib.rs:68 | the scripted card answers with its next reply and logs the command; once the script is used up it answers REMOVED_CARD |
| Apdu.Command | src/lib.rs:61-66 | the frame sent is the buffer itself (the command) while nothing follows the command, and SEND REMAINING otherwise |
| Apdu.Turn | src/lib.rs:57-89 | one turn of the loop, as written or guarded: send, append the frame, pop the status word, act on it; stated by TurnFrame, GuardedShortFrame and TurnOnce |
| Apdu.Received | src/lib.rs:71-75 | the two status pops off the end of the whole buffer, each failing with InsufficientData on an empty buffer; stated through TurnFrame and RunEnds |
| Apdu.Act | src/lib.rs:76-89 | the match on the status word: 0x9000 slices `buf[mid..]` (a panic when mid is past the end), 0x61XX goes on, other codes are their errors; stated through TurnFrame and RunEnds |
| Apdu.Run | src/lib.rs:56-90 | the whole loop as a function, ending at the latest with the script; its properties are RunEnds, GuardedRunEnds and RunChained |
| Apdu.Exchange | src/lib.rs:50-91 | the Lc fix-up followed by the loop from mid = length of the command; stated by GuardedExchange and ExchangeChained |
| Apdu.RunEnds | src/lib.rs:56-90 | for every script, guarded or not, the loop holds these: the first frame is the command; as written, InsufficientData comes only from a buffer of fewer than two bytes; a success is exactly `buf[mid..]`; the unguarded slice is reached only when the pops ate into the command; the only errors are device, PC/SC or InsufficientData errors |
| Apdu.GuardedRunEnds | src/lib.rs:56-90 | the corrected loop, started from a buffer holding the command, never panics, and the buffer it leaves starts with everything it was given |
| Apdu.GuardedShortFrame | src/lib.rs:68-75 | the corrected loop turns a frame of fewer than two bytes into InsufficientData at once, leaving the frame appended |
| Apdu.GuardedExchange | src/lib.rs:50-91 | the corrected transmit always returns, keeps the fixed-up command at the front of the buffer, and a success is exactly the buffer past it |
| Apdu.FixLc | src/lib.rs:51-54 | a command of 5 or more bytes gets (length - 5) mod 256 in byte 4 and no other byte changes; a shorter command is left as it is |
| Apdu.TurnFrame | src/lib.rs:57-89 | guarded or not, a turn that reads a frame with payload p and status code c appends p, and then stops or continues as StatusOf(c) says |
| Apdu.RunChained | src/lib.rs:56-90 | over frames whose status is 0x61XX and then one terminal status, the loop reads exactly those frames. On 0x9000 it returns every payload concatenated in order; otherwise it returns the error. The buffer ends as the old buffer followed by all payloads |
| Apdu.RunChainedSends | src/lib.rs:61-66 | over such a script, at turn i the loop sends the command if nothing followed it yet, SEND REMAINING otherwise |
| Apdu.ExchangeChained | src/lib.rs:50-91 | transmitting a command over such a script returns the concatenated payloads (or the final error), and the fixed-up command stays in front of the buffer |
| Apdu.ExchangeChainedSends | src/lib.rs:56-66 | the first frame sent is the fixed-up command; later frames are SEND REMAINING once some payload has arrived, and the command again while none has |
| Apdu.TurnOnce | src/lib.rs:57-89 | one pass through the corrected loop body does what the guarded Turn says: the same frame is sent, the same buffer is left, and it stops the same way; the old buffer stays a prefix |
| Apdu.Loop | src/lib.rs:56-90 | the imperative loop returns the result of the guarded Run, and leaves its final buffer, card position and command log |
| Apdu.Transmit | src/lib.rs:50-91 | transmit returns the result of the guarded Exchange on the old buffer and leaves its buffer, card position and command log; the buffer starts with the fixed-up command, and a success is the buffer past it |
| Readers.HasWindow | src/lib.rs:37-38 | `windows(w.len()).any(|x| x == w)` as a recursive predicate; HasWindowAt proves it means "w occurs at some offset" |
| Readers.IsYubiKeyReader | src/lib.rs:34-38 | the `find` predicate: the lowercased name contains "yubico yubikey"; stated by MatchIgnoresCase and ContainsMatches |
| Readers.ToAsciiLowercase | src/lib.rs:36 | each byte from 'A' to 'Z' is mapped to lower case, all others kept, and the length is preserved |
| Readers.HasWindowAt | src/lib.rs:37-38 | the `windows(..).any(..)` search holds if and only if the name occurs at some offset |
| Readers.FindReader | src/lib.rs:30-40 | NoDevice exactly when no reader matches; otherwise the first reader that does |
| Readers.FindReaderFirst | src/lib.rs:30-40 | when reader k matches and none before it does, reader k is selected |
| Readers.MatchIgnoresCase | src/lib.rs:34-38 | a name matches exactly when its lowercase form does |
| Readers.ContainsMatches | src/lib.rs:27-38 | a name containing "yubico yubikey" in any mix of case, at any position, matches |
| Calculate.ResponseFrom | src/calculate.rs:14-25 | succeeds exactly when the value has 5 or more bytes, otherwise InsufficientData; digits is byte 0 and the response is bytes 1..=4 big-endian; later bytes are ignored |
| Calculate.ResponseRoundTrip | src/calculate.rs:14-25 | the five bytes of a response, followed by anything, decode back to that response |
| Calculate.Decimal | src/calculate.rs:32 | the decimal form of n is non-empty, all digits, reads back as n, and has no leading zero ("0" for zero) |
| Calculate.Display | src/calculate.rs:29-33 | for 0..=9 digits: the code is the response mod 10^digits, zero-padded to max(1, digits) decimal characters; above 9 digits there is no result |
| Calculate.DisplayPadsWithZeros | src/calculate.rs:30-32 | 1234 shown with 6 digits is "001234" |
| Calculate.DisplayDropsHighDigits | src/calculate.rs:30-32 | 123456789 shown with 6 digits is "456789" |
| Calculate.DisplayZeroDigits | src/calculate.rs:30-32 | any response shown with 0 digits is "0" |
| Calculate.CalculateLc | src/calculate.rs:45-49 | after the fix-up, the command has header 00 A2 00 P2 with P2 = 1 when truncating, else 0, and Lc = (4 + len(name) + len(challenge)) mod 256 |
| Calculate.CalculateBody | src/calculate.rs:48-49 | the body pops back as the name under 0x71 and then the challenge under 0x74, with nothing after them |
| Calculate.CalculateCommand | src/calculate.rs:45-49 | the CALCULATE command with Lc still 0: header, name TLV, challenge TLV; its layout after transmit's fix-up is stated by CalculateLc and CalculateBody |
| Calculate.DecodeCalculate | src/calculate.rs:51-52 | succeeds exactly when the reply starts with a TLV under 0x76 when truncating, else 0x75, whose value has 5 or more bytes. An empty reply, a short TLV and a short value are InsufficientData; another tag is UnexpectedValue of it. On success the result is read from the TLV's value and later bytes are ignored |
| Calculate.DecodeCalculateRoundTrip | src/calculate.rs:51-52 | the card's encoding of a response, under the right tag and followed by anything, decodes to that response |
| Calculate.DecodeCalculateOtherTag | src/calculate.rs:51 | a response under the tag of the other truncation mode is rejected with that tag |
| Calculate.CalculateShortFrame | src/lib.rs:72-78 | an empty frame to a command ending in 90 00 makes the pops eat into the command and the slice panic, as written; the corrected exchange returns InsufficientData |
| Calculate.CalculateShortFrameStatus | src/lib.rs:72-82 | an empty frame to a command ending in 6A 84 is reported as NoSpace, as written; the corrected exchange returns InsufficientData |
| Calculate.CalculateLostPayload | src/lib.rs:71-79 | as written, an empty frame to a command ending in 61 00 continues with SEND REMAINING, and the next frame's payload AA BB is lost: 0x9000 returns an empty reply |
| Calculate.Calculate | src/calculate.rs:37-55 | the buffer is cleared and filled with the CALCULATE command; a transmit error comes back unchanged with no decode; otherwise the result is DecodeCalculate of the reply |
| CalculateAll.CalculateAllCommand | src/calculate_all.rs:36-39 | the CALCULATE ALL command with Lc still 0: header and challenge TLV; its layout after the fix-up is stated by CalculateAllLayout |
| CalculateAll.CalculateAllLayout | src/calculate_all.rs:36-39 | after the fix-up the command is 00 A4 00 P2, then Lc = (2 + len(challenge)) mod 256, then exactly the challenge TLV under 0x74 |
| CalculateAll.EntryData | src/calculate_all.rs:51-56 | 0x75/0x76 read the value as a Response, failing with InsufficientData below 5 bytes; 0x77 is Hotp; 0x7C is Touch; any other tag is UnexpectedValue |
| CalculateAll.Pull | src/calculate_all.rs:46-61 | the cursor stays put exactly when the name TLV fails, and then the item is that error. A success has a valid UTF-8 name and leaves the cursor at least four bytes further on; PullDecoded gives the exact split |
| CalculateAll.PullData | src/calculate_all.rs:47-60 | after the name, a success returns that name, which is valid UTF-8, and leaves the cursor at least two bytes further on; PullDataDecoded gives the exact split |
| CalculateAll.PullDataDecoded | src/calculate_all.rs:47-56 | a successful payload pull consumed exactly one TLV of at most 255 bytes under an accepted tag, whose raw value reads as the returned variant |
| CalculateAll.PullDecoded | src/calculate_all.rs:46-61 | the converse of PullEncoded: whatever a pull accepts is a name TLV and one payload TLV under an accepted tag, each of at most 255 bytes, and the cursor is left exactly after them |
| CalculateAll.PullSuffix | src/calculate_all.rs:46-50 | a pull only moves the cursor forward: what it leaves is a suffix of the cursor |
| CalculateAll.Entries.Next | src/calculate_all.rs:41-63 | None exactly when the cursor is empty, which it leaves unchanged; otherwise the item and the new cursor are those of Pull |
| CalculateAll.CalculateAll | src/calculate_all.rs:29-64 | a transmit error comes back unchanged; otherwise a fresh iterator over the reply with this truncation, with the buffer left as transmit leaves it |
| CalculateAll.Take | src/calculate_all.rs:41-63 | the first n items the iterator yields: at most n, and none from an empty reply |
| CalculateAll.PullName | src/calculate_all.rs:46 | a well-formed name TLV hands the rest of the pull to PullData |
| CalculateAll.PullDataEncoded | src/calculate_all.rs:47-60 | an encoded payload TLV reads back as its variant, and the pull succeeds exactly when the name is UTF-8 |
| CalculateAll.PullEncoded | src/calculate_all.rs:46-61 | one pull reads back one encoded credential and stops right after its two TLVs |
| CalculateAll.Collect | src/calculate_all.rs:41-63 | collecting the items into a `Result<Vec<_>>`: each credential took at least four bytes, and a failing name TLV at the front is the error |
| CalculateAll.CollectNamesValid | src/calculate_all.rs:57 | every name a successful collect returns is valid UTF-8 |
| CalculateAll.CollectEncoded | src/calculate_all.rs:41-63 | collecting the reply a card sends for a list of credentials gives that list back, in order |
| CalculateAll.NameFailureRepeats | src/calculate_all.rs:43-46 | when the name TLV fails, the cursor does not move, so the first n items are all that same error: the iterator never ends |
| CalculateAll.TakeOne | src/calculate_all.rs:43-61 | a reply holding one well-formed credential yields exactly one Ok item and then ends |
| CalculateAll.PullFullWhenTruncated | src/calculate_all.rs:47-50 | with truncation on, a full response under 0x75 is UnexpectedValue(0x75), and the cursor is left just past the name |
| CalculateAll.PullBadName | src/calculate_all.rs:57 | a name that is not UTF-8 gives Utf8 after both TLVs are consumed, so the next pull starts at the next credential |
| CalculateAll.PullShortResponse | src/calculate_all.rs:52 | a response value shorter than 5 bytes gives InsufficientData, and the cursor moves past both TLVs |
| Select.SelectCommand | src/select.rs:29-32 | the SELECT command with Lc still 0: header and raw AID; stated after the fix-up by SelectSent |
| Select.SelectSent | src/select.rs:29-32 | the command sent is 00 A4 04 00, then Lc = 7, then the raw AID A0 00 00 05 27 21 01 |
| Select.AlgorithmOf | src/select.rs:41-47 | [1], [2] and [3] give HmacSha1, HmacSha256 and HmacSha512; any other single byte v is UnexpectedValue(v); any other length L is UnexpectedValue(L mod 256) |
| Select.AlgorithmRoundTrip | src/select.rs:42-44 | every algorithm's byte decodes back to it |
| Select.DecodeInner | src/select.rs:36-52 | nothing left means no inner part, and only then; otherwise a challenge TLV must come first, with another tag rejected |
| Select.DecodeSelect | src/select.rs:34-35 | an empty reply is InsufficientData, and a first tag other than the version tag 0x79 is UnexpectedValue |
| Select.DecodeSelectSplit | src/select.rs:34-35 | once a version and a name TLV are read, the outcome is that of DecodeInner on what follows |
| Select.DecodeInnerRoundTrip | src/select.rs:36-52 | the encoding of an optional challenge and algorithm decodes back to it; bytes after the algorithm TLV are ignored |
| Select.DecodeSelectRoundTrip | src/select.rs:33-57 | decoding what a card sends gives the response back; trailing bytes are ignored when a challenge is present |
| Select.DecodeInnerSound | src/select.rs:36-52 | whatever DecodeInner accepts is the encoding of its result plus ignored bytes, and nothing is ignored when no challenge is present |
| Select.DecodeSelectHead | src/select.rs:34-35 | an accepted reply starts with the version and name TLVs of the result, and its inner part comes from what follows them |
| Select.DecodeSelectSound | src/select.rs:34-57 | every accepted reply is the encoding of the result followed by ignored bytes, and exactly the encoding when there is no challenge |
| Select.DecodeSelectNoName | src/select.rs:35 | a version TLV with no name TLV after it is InsufficientData |
| Select.DecodeSelectNoAlgorithm | src/select.rs:39-40 | a challenge with no algorithm TLV after it is InsufficientData |
| Select.DecodeSelectUnknownAlgorithm | src/select.rs:45 | an algorithm byte outside 1..=3 is reported as UnexpectedValue of that byte |
| Select.Select | src/select.rs:28-60 | the buffer is cleared and filled with the SELECT command; a transmit error comes back unchanged; otherwise the result is DecodeSelect of the reply |

## Left out

- PC/SC context, reader listing and connecting (src/lib.rs:19-31, 42-46) are foreign calls. `Readers.FindReader` takes the list of reader names as a parameter.
- `Card::transmit` (src/lib.rs:68) is a scripted `Card`. Its REMOVED_CARD answer after the last scripted reply is a feature of the model: it makes every exchange finite.
- The `MAX_BUFFER_SIZE` resize-then-truncate (src/lib.rs:59-60, 71) is modelled as appending the reply frame. The limit on one frame's size is not modelled.
- Tracing spans and events are left out. So are `EscapeAscii` and the `Debug` impls.
- The error messages and the `From` conversions of src/error.rs are left out; `Utf8` carries no `Utf8Error` detail.
- Lifetimes and borrowing are not modelled: the slices the crate returns alias `buf`, and here they are copies (`seq<byte>`). `Entries` keeps its own copy of the reply.
- `Payload` is a closed datatype of its two impls, not an open trait.
- Calculate.Display: for a digit count above 9, `10_u32.pow` overflows (src/calculate.rs:30). A debug build panics there. A release build wraps: from 10 to 31 digits it reduces modulo a wrong power and prints a wrong code; from 32 digits on 10^digits is 0 modulo 2^32, so the `%` divides by zero and panics in every build. The model returns None for all of these.
- Apdu.Transmit: when the card call fails (the `?` at src/lib.rs:68), the Rust buffer has already been resized at src/lib.rs:59 and is left grown by `MAX_BUFFER_SIZE` zero bytes. The model leaves the buffer as it was before that turn, since the resize is not modelled.
- CalculateAll.Take: its own contract states only the bound on the count. What it yields is stated by `NameFailureRepeats` and `TakeOne`, and for whole replies by `Collect` and `CollectEncoded`. The never-ending iterator on a name error is stated for every finite prefix, since an infinite sequence cannot be represented.
- The command-line examples (examples/oath.rs, examples/totp.rs) are not part of this model: they are argument parsing, the wall clock and printing.

## Findings

| source | as written | input that shows it | evidently intended | confidence | as-written member | corrected member |
|---|---|---|---|---|---|---|
| src/lib.rs:72-78 | The two status bytes are popped off the end of the whole buffer, command included, and `&buf[mid..]` is then taken without a check | A card that answers CALCULATE (empty name, challenge `90 00`) with an empty frame. The pops take `90 00` from the end of the command, the code reads 0x9000, and `&buf[mid..]` slices past the end of the buffer | A frame too short to carry a status word is InsufficientData, never a panic | not executed | Calculate.CalculateShortFrame | Apdu.GuardedShortFrame |
| src/lib.rs:71-79 | The same pops let an empty frame take a status word from the command, after which the loop goes on from the command cut short | A card that answers CALCULATE (empty name, challenge `61 00`) with an empty frame and then `AA BB 90 00`. The pops read 0x6100 off the command, SEND REMAINING is sent, and AA BB lands where the popped bytes were, before `mid`, so 0x9000 returns an empty reply | The same: the empty frame is InsufficientData, and no payload is dropped | not executed | Calculate.CalculateLostPayload | Apdu.GuardedExchange |
