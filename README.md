# BufferConsumer, modelled in Dafny

This project models `BufferConsumer` from the mDNS packet library
(`lib/bufferconsumer.js`). It is a read cursor over a fixed Node `Buffer`. It
hands out unsigned big-endian integers (`byte`, `short`, `long`), byte strings
(`slice`, `string`) and DNS names (`name`). A DNS name is read as
length-prefixed labels that end with a zero byte or with a two-byte compression
pointer (sections 3.1 and 4.1.4 of RFC 1035).

The project has four modules:

- `Wire` (`wire.dfy`) holds the shared vocabulary:
  - bytes, and the four exceptions the consumer can throw;
  - the `Result`, `Outcome` and `Option` wrappers;
  - `ReadAt`, which is what `Buffer.readUInt8/16BE/32BE` return, proved against
    its inverse `EncodeBigEndian`;
  - `ToStringRange`, the byte range `Buffer.toString` takes after clamping its
    arguments.
- `NameDecoding` (`names.dfy`) specifies `name()` with functions:
  - `Step` is one turn of its `while (len !== 0)` loop;
  - `Loop` runs those turns to the end;
  - `DecodeName` is the whole call;
  - `EncodeLabels` / `EncodeName` give the wire form of uncompressed labels;
  - `Join` / `Split` convert between labels and the dotted string.
- `NameProperties` (`name_properties.dfy`) proves what a caller can rely on
  from `DecodeName`:
  - the root name;
  - plain names read back from their encoding;
  - compression pointers, with the resume offset fixed at the first pointer;
  - the `endAt` cut-off;
  - cursor bounds and non-empty labels;
  - independence from the hop budget;
  - worked buffers, including a self-referencing pointer.
- `Consumer` (`bufferconsumer.dfy`) is the class `BufferConsumer`. Its fields
  are the buffer `view`, its `length` and the cursor `offset`. Each operation
  is a method. `Name` runs the source's loop imperatively and is proved equal
  to `DecodeName`.

A failed `byte`, `short` or `long` still moves the cursor by its width,
because `_offset += w` (`lib/bufferconsumer.js:54`, `:59`, `:64`) runs before
Node's `readUInt*` throws. The model keeps that moved cursor, so `offset` may
lie past `length` after such a failure, and `Valid()` only ties `length` to the
buffer.

An exception is a result value: `Err`/`Fail` for the primitive operations,
`Threw` for `Name`. The state at the moment of the throw is the new state.

## Model

| member | source | states |
|---|---|---|
| Consumer.BufferConsumer.constructor | lib/bufferconsumer.js:6-15 | The consumer holds the given bytes, its length is theirs and the cursor starts at 0. |
| Consumer.BufferConsumer.Tell | lib/bufferconsumer.js:17-19 | Returns the cursor and changes nothing. |
| Consumer.BufferConsumer.Seek | lib/bufferconsumer.js:21-32 | A negative position throws 'Negative pos not allowed'. A position past the length throws 'Cannot seek after EOF'. In both cases the cursor stays. Otherwise the cursor becomes the position, up to and including the length. |
| Consumer.BufferConsumer.Slice | lib/bufferconsumer.js:34-47 | When fewer than n bytes remain, it throws 'Buffer overflow' without moving. Otherwise it returns exactly the n bytes at the cursor and advances the cursor by n. |
| Consumer.BufferConsumer.IsEOF | lib/bufferconsumer.js:49-51 | True exactly when the cursor is at or past the length. Changes nothing. |
| Consumer.BufferConsumer.Byte | lib/bufferconsumer.js:53-56 | The cursor moves by 1, even when the read throws. The result is ReadAt of one byte at the old cursor, below 2^8. |
| Consumer.BufferConsumer.Short | lib/bufferconsumer.js:58-61 | The cursor moves by 2, even when the read throws. The result is the big-endian value of the two bytes at the old cursor, below 2^16. |
| Consumer.BufferConsumer.Long | lib/bufferconsumer.js:63-66 | The cursor moves by 4, even when the read throws. The result is the big-endian value of the four bytes at the old cursor, below 2^32. |
| Consumer.BufferConsumer.String | lib/bufferconsumer.js:68-86 | The end is cursor + n, or the length when n is left undefined. An end past the length throws from seek and the cursor stays. Otherwise it returns exactly the bytes from the old cursor to the end, and the cursor is left at the end. |
| Consumer.BufferConsumer.Name | lib/bufferconsumer.js:93-149 | The result is DecodeName of the buffer at the old cursor: joined with '.' unless join is false, or the exception thrown. The cursor is left where DecodeName says, for every call that does not run out of hops. |
| Consumer.BufferConsumer.PointerTurn | lib/bufferconsumer.js:108-120 | The pointer branch does exactly one Step. On going on, it keeps the cursor in the buffer and the saved resume offset within the length. |
| Consumer.BufferConsumer.LabelTurn | lib/bufferconsumer.js:123-135 | The label branch does exactly one Step. A name it finishes leaves a resume offset within the length. |
| Consumer.BufferConsumer.Finish | lib/bufferconsumer.js:137-146 | After the loop, the cursor is the resume offset. The labels are joined with '.' unless join is false, and undefined counts as true. |
| Wire.BigEndian | lib/bufferconsumer.js:53-66 | The big-endian value of w bytes is below 256^w. |
| Wire.ReadAt | lib/bufferconsumer.js:53-66 | A read of w bytes at o succeeds exactly when o + w is within the buffer. Its value is below 256^w. Otherwise it is a RangeError. |
| Wire.BigEndianOfEncode | lib/bufferconsumer.js:53-66 | Decoding the w-byte big-endian encoding of v gives back v. |
| Wire.EncodeOfBigEndian | lib/bufferconsumer.js:53-66 | Encoding the value of a byte string at its own width gives back the byte string. |
| Wire.ReadAtEncoded | lib/bufferconsumer.js:53-66 | A value written big-endian into the buffer at o is read back at o as that value. |
| Wire.ReadAtInjective | lib/bufferconsumer.js:53-66 | Two in-range reads of one width agree only when they read the same bytes. |
| Wire.BigEndianPair | lib/bufferconsumer.js:58-61 | The two-byte value is high * 256 + low. |
| Wire.BigEndianQuad | lib/bufferconsumer.js:63-66 | The four-byte value is a * 2^24 + b * 2^16 + c * 2^8 + d. |
| Wire.ToStringRange | lib/bufferconsumer.js:82 | For an in-range start and end, the bytes taken are exactly buf[start..end]. An empty range, or a start at or past the end of the buffer, gives nothing. |
| NameDecoding.PointerBits | lib/bufferconsumer.js:108 | The test len & 0xC0 == 0xC0 holds exactly for length bytes of at least 0xC0. |
| NameDecoding.PointerTarget | lib/bufferconsumer.js:110-112 | The offset ((len - 0xC0) << 8) + next that a pointer refers to lies in 0 .. 0x3FFF. |
| NameDecoding.PointerTargetBits | lib/bufferconsumer.js:110-111 | For a pointer byte, subtracting 0xC0 leaves exactly its low six bits, which is what the shift moves up. |
| NameDecoding.Step | lib/bufferconsumer.js:107-136 | A turn that goes on keeps the cursor in the buffer. It either spends a hop (a pointer) or moves the cursor forward (a label), so only pointers can keep the loop going. A turn that throws throws a RangeError or 'Cannot seek after EOF'. |
| NameDecoding.Loop | lib/bufferconsumer.js:107-136 | The loop run to its end never throws 'Negative pos not allowed' or 'Buffer overflow'. Pointer targets are never negative, and nothing slices. |
| NameDecoding.Continue | lib/bufferconsumer.js:107-136 | What follows one turn keeps that guarantee: if the turn's own outcome only throws those two exceptions, so does the rest of the loop. |
| NameDecoding.Initial | lib/bufferconsumer.js:102-106 | The state on reaching the loop: cursor one past the start, no pointer followed, the full hop budget. It holds the root's single empty label exactly when the first length byte is 0, and no label otherwise. |
| NameDecoding.DecodeName | lib/bufferconsumer.js:93-141 | name() at a cursor past the end throws a RangeError at start + 1. Any call throws only a RangeError or 'Cannot seek after EOF'. |
| NameDecoding.Join | lib/bufferconsumer.js:143 | parts.join('.') starts with the first label. For labels holding no '.', it contains exactly one '.' fewer than there are labels. |
| Consumer.Present | lib/bufferconsumer.js:142-146 | The result is the label array exactly when join is false, and undefined counts as true. Otherwise it is the '.'-joined text, which splits back into the labels when they hold no '.'. |
| Consumer.NameOf | lib/bufferconsumer.js:93-149 | A finished decoder run gives the presented labels. A failed run gives its exception, which is a RangeError or 'Cannot seek after EOF'. Running out of hops gives neither. |
| NameProperties.RootName | lib/bufferconsumer.js:102-106 | A first length byte of 0 gives the single empty label (joined: the empty string). The cursor is left one byte past the start. |
| NameProperties.DecodeNameFinished | lib/bufferconsumer.js:102-141 | A name that is read moves the cursor forward but not past the length. Unless it is the root, every label is non-empty. |
| NameProperties.StepFinished | lib/bufferconsumer.js:107-136 | One turn keeps the cursor bounds. It never changes a saved resume offset, and it only appends non-empty labels. |
| NameProperties.LoopFinished | lib/bufferconsumer.js:107-141 | A finished loop leaves the cursor within the buffer, at the saved resume offset once a pointer was followed. It adds only non-empty labels. |
| NameProperties.StepPrepend | lib/bufferconsumer.js:123-127 | A turn does the same with or without labels gathered before it, keeping those in front. |
| NameProperties.LoopPrepend | lib/bufferconsumer.js:107-136 | The labels gathered so far stay in front of whatever the rest of the loop appends. |
| NameProperties.ReadLabel | lib/bufferconsumer.js:124-134 | A plain label before endAt is appended, and the next length byte is read after it. |
| NameProperties.ReadLabelAtEnd | lib/bufferconsumer.js:130-133 | A label that reaches endAt is appended and ends the loop. The cursor is left after it, or at the resume offset once a pointer was followed. |
| NameProperties.WalkLabels | lib/bufferconsumer.js:107-134 | Encoded plain labels that all end before endAt are appended in wire order. Reading goes on after them. |
| NameProperties.PlainName | lib/bufferconsumer.js:107-141 | An encoded name ending in a zero byte, read before endAt, gives its labels in wire order. The cursor is left just past the zero byte. |
| NameProperties.NameEndsAt | lib/bufferconsumer.js:107-141 | Labels found up to a zero byte at q decode to those labels, or the root for none. The cursor is left at q + 1. |
| NameProperties.NameAfterLabels | lib/bufferconsumer.js:123-135 | A name that starts with labels reads them all, then reads the length byte after them with no pointer followed yet. |
| NameProperties.DecodeAsNext | lib/bufferconsumer.js:102-107 | A non-zero first length byte adds no root label and starts the loop. |
| NameProperties.FollowPointer | lib/bufferconsumer.js:108-120 | Labels then a pointer give those labels followed by the name at the target. The cursor ends right after the pointer's two bytes, whatever later pointers do. A target past the end makes the seek throw. |
| NameProperties.PointerAfterLabels | lib/bufferconsumer.js:108-120 | The same as FollowPointer, for labels located in the buffer rather than given by their encoding. |
| NameProperties.PointerAt | lib/bufferconsumer.js:108-120 | A first pointer at q continues at its target with resume offset q + 2. A later Finished run leaves the cursor there. |
| NameProperties.FirstPointerTurn | lib/bufferconsumer.js:113-119 | The first pointer saves the offset after its two bytes as the resume offset, seeks to the target and reads the length byte there. |
| NameProperties.EndAtCut | lib/bufferconsumer.js:130-133 | With endAt at the end of a run of labels, those labels are returned and the cursor is left at endAt, whatever bytes follow. |
| NameProperties.CutAfterLabels | lib/bufferconsumer.js:130-141 | Labels, then a last label ending exactly at endAt, finish with all those labels. The cursor is left at endAt. |
| NameProperties.StepMoreHops | lib/bufferconsumer.js:107-120 | A turn that does not run out of hops does the same with a larger budget. |
| NameProperties.LoopMoreHops | lib/bufferconsumer.js:107-120 | A loop that did not run out of hops gives the same outcome under any larger budget. |
| NameProperties.DecodeNameMoreHops | lib/bufferconsumer.js:107-120 | A call that did not run out of hops gives the same outcome under any larger budget. The budget only cuts off runs the source would carry on with. |
| NameProperties.SelfPointerLoop | lib/bufferconsumer.js:107-120 | A pointer to itself never leaves the loop, for any budget. |
| NameProperties.SelfPointerNeverFinishes | lib/bufferconsumer.js:107-120 | The buffer C0 00 makes name() follow pointers forever: under every hop budget it runs out. |
| NameProperties.PointerToRoot | lib/bufferconsumer.js:108-141 | A pointer to a zero byte gives no labels at all, unlike the root's one empty label. The cursor is left after the pointer. |
| NameProperties.CompressedSuffix | lib/bufferconsumer.js:108-146 | "www" followed by a pointer to "example.com" at offset 0 reads as www.example.com. The cursor is left right after the pointer. |
| NameProperties.SuffixAtStart | lib/bufferconsumer.js:117-141 | In that buffer, reading after the pointer from offset 0 gives "example", "com" and keeps the resume offset 19. |
| NameProperties.JoinExample | lib/bufferconsumer.js:143 | ["www", "example", "com"] joined with '.' is www.example.com. |
| NameProperties.SplitJoin | lib/bufferconsumer.js:142-143 | Labels without '.' joined with '.' are split back into the same labels. |

## Left out

- The `debug` logging and `util.format` message texts: output with no effect on results.
- The constructor's `instanceof Buffer` check: the buffer is typed as a byte sequence, so no other argument exists.
- Character decoding in `string()` and in the labels of `name()` ('ascii', 'utf8' through `Buffer.toString`): labels and strings are the raw bytes taken.
  - For 'ascii' one byte is one character, so label lengths agree with the source.
  - Node's 'ascii' decoding clears each byte's high bit, so a label byte 0xAE becomes '.' in the source's string. The '.' joins, and `SplitJoin`'s requirement that no label holds a '.', carry over to the source's strings only for labels of 7-bit bytes.
- Negative lengths passed to `slice` or `string`: the source does not guard them and Node's `Buffer` gives them its own meaning. The length is a `nat` here.
- Non-number `pos` or `length` arguments (NaN, strings): not modelled. Arguments are integers.
- `slice` returns a view that shares memory with the consumed Buffer. Since the model's buffer is never written, it is a copy here.
- Consumer.BufferConsumer.Name: the source follows pointers without limit, and a pointer cycle makes it loop forever.
  - The model takes a hop budget, the number of pointers it may follow, and returns `OutOfHops` when the budget is spent.
  - After `OutOfHops` the cursor is left unspecified.
  - `DecodeNameMoreHops` shows that the budget never changes the outcome of a call that ends within it.
- Consumer.BufferConsumer.Name: `join` is undefined, true or false, and `endAt` is an integer where 0 stands for undefined. Other truthy or falsy JavaScript values are not modelled.
- The 63-byte label and 255-byte name limits of RFC 1035 are not modelled, because the source does not enforce them.
