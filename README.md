# ICMP echo probe: checksum, request and reply validation

This project models the byte-level core of `icmp.go`, a command-line ping
tool that sends ICMP Echo Requests over a raw IPv4 socket and checks the
replies. The model covers three parts of the file.

- **The Internet checksum** (`checkSum`, module `Checksum`). The loop
  method `CheckSum` is proved against the function `CheckSumOf`. That
  function zero-pads an odd buffer, sums its big-endian 16-bit words, folds
  the carry twice and keeps the low 16 bits of `^sum`, as the Go code does.
  `InternetChecksum` is the reference definition from section 1 of RFC 1071.
  It keeps adding the end-around carry until the sum fits in 16 bits. The
  two agree, when Go's `int` is 64 bits wide, for every buffer of at most
  131074 bytes, and every IPv4 datagram fits in that. Past that bound they can differ: `FoldTwiceNeedsBound`
  gives a sum where they do.
- **Building the Echo Request** (the goroutine inside `ping`, module `Echo`).
  `BuildRequest` allocates `28 + pad` zero bytes and writes the RFC 792 header:
  type 8, code 0, identifier bytes 0 and 13, sequence bytes 0 and
  `byte(seq)`. It then *appends* the padding ramp `(i + 249) % 256` behind
  the allocation. So the ramp never reaches the `8 + pad` bytes that are
  sent: those are the header and `pad` zero bytes. Last, it stores the
  checksum of the sent span in bytes 2 and 3. A plain description of the
  tool would call the ramp the packet's payload. The model follows the
  code, and `SentSpanContents` and `RequestBody` state where the ramp goes.
- **Validating the reply** (module `Echo`). `Read` copies the received
  datagram into the same buffer; its length is `28 + 2 * pad`. `Validate`
  then emits the reply line (`seq + 1` and source bytes 12 to 15) and one
  line for each failed check:
  - identifier: byte 25 is not 13;
  - sequence: byte 27 is not `byte(seq)`;
  - checksum: bytes 22 and 23 differ from the checksum recomputed over
    bytes 20 to 27, with 22 and 23 cleared in place.

  As in the code, the identifier and sequence lines show bytes 5 and 7 of
  the buffer. Those are IPv4 header bytes, not the bytes compared. The
  checksum is recomputed over the 8-byte ICMP header only, not the whole
  reply. This is still right for a faithful reply, because the only padding
  ever sent is zeros (`HonestReplyValidates`). The reply's type byte is
  never checked.

`EchoReply` models the remote host as RFC 792 describes it: type 0, code 0,
the data echoed, and the RFC 1071 checksum (`InternetChecksum`, not the
tool's own routine) recomputed over the whole message. The
lemmas feed its answer, behind a 20-byte IPv4 header, back through the
validation. `Probe` chains building, sending, reading and validating as
`ping` does. It takes the 1-based probe number and decrements it first.

Bytes are `int`s in `0 .. 255`. Go's `byte(x)` is `x % 256`: Dafny's `%` is
Euclidean, which matches two's-complement truncation for negative `x` too.

## Model

| member | source | states |
|---|---|---|
| `Checksum.CheckSum` | icmp.go:152-165 | the loop's result is `CheckSumOf(msg)`: the words of the zero-padded buffer summed, the carry folded twice, and the low 16 bits of the complement kept |
| `Checksum.OnesFold` | icmp.go:161-162 | the full end-around-carry fold of RFC 1071 fits in 16 bits, keeps the value modulo 0xFFFF and is zero only for a zero sum |
| `Checksum.FoldTwiceAgrees` | icmp.go:161-163 | below 2^32, two unmasked folds followed by `uint16(^sum)` equal `0xFFFF` minus the full one's-complement fold |
| `Checksum.FoldTwiceNeedsBound` | icmp.go:161-162 | on a sum of 2^33 - 1, two folds give a different result from the RFC 1071 checksum |
| `Checksum.CheckSumIsInternetChecksum` | icmp.go:152-165 | on a 64-bit target, for every buffer of at most 131074 bytes, `checkSum` is the RFC 1071 Internet checksum |
| `Checksum.WordSumBound` | icmp.go:158-160 | the word sum of an `n`-byte buffer is at most `n / 2 * 0xFFFF` |
| `Checksum.OddLengthPadsWithZero` | icmp.go:155-157 | an odd-length buffer has the checksum of the same buffer with one zero byte appended |
| `Checksum.TrailingZerosNeutral` | icmp.go:155-160 | appending any number of zero bytes never changes the checksum |
| `Checksum.PaddedSumIgnoresZeros` | icmp.go:155-160 | appending any number of zero bytes never changes the word sum of the zero-padded buffer |
| `Checksum.WordSumUpdate` | icmp.go:158-160 | replacing the word at an even offset changes the sum by exactly the difference of the two words |
| `Checksum.ChecksumOfCheckedSum` | icmp.go:161-163 | a word sum below 2^32 plus its Internet checksum has checksum zero (the RFC 1071 check rule) |
| `Echo.SeqByte` | icmp.go:89 | `byte(seq)` is `seq` itself for `0 <= seq < 256` and agrees with `seq` modulo 256 otherwise |
| `Echo.WithChecksum` | icmp.go:97-98 | storing `c` big-endian in bytes 2 and 3 keeps the length, and the field then reads back as `c` |
| `Echo.Append` | icmp.go:93 | Go's `append` of one byte: a fresh array that holds the old contents followed by `x` |
| `Echo.WriteHeader` | icmp.go:82-89 | the first 8 bytes become the Echo Request header, and the rest of the buffer is unchanged |
| `Echo.AppendRamp` | icmp.go:90-95 | the buffer becomes the old buffer followed by the ramp of `pad` bytes |
| `Echo.StoreChecksum` | icmp.go:96-98 | bytes 2 and 3 take the checksum of the first `len` bytes, and everything else is unchanged |
| `Echo.BuildRequest` | icmp.go:81-98 | the new buffer is `Request(seq, pad)` and the length to send is `8 + pad` |
| `Echo.RequestFields` | icmp.go:81-89 | the request is `28 + 2 * pad` bytes long, with type 8, code 0, identifier 0 and 13, and sequence 0 and `seq % 256` |
| `Echo.RequestBody` | icmp.go:81-95 | bytes 8 to `27 + pad` are zero, and byte `28 + pad + k` is `(8 + k + 249) % 256` |
| `Echo.SentSpanContents` | icmp.go:90-100 | the sent span is the header with its checksum followed by `pad` zero bytes; the ramp is not sent |
| `Echo.HeaderChecksum` | icmp.go:82-96 | the header checksum is `0xFFFF - (0x0800 + 13 + byte(seq))` |
| `Echo.RequestChecksumIgnoresPadding` | icmp.go:90-98 | the stored checksum depends on the sequence byte only, not on the padding length |
| `Echo.RequestChecksumRoundTrip` | icmp.go:96-98 | clearing the stored field of the sent span and recomputing gives back the stored checksum |
| `Echo.RequestSelfVerifies` | icmp.go:96-100 | for every padding, recomputing over the sent span with the stored field in place gives zero |
| `Echo.ChecksumSelfVerifies` | icmp.go:96-98 | for any buffer of 4 to 131074 bytes whose field is clear, storing its checksum makes the buffer's checksum zero |
| `Echo.Received` | icmp.go:103 | after the read, each byte is the datagram's byte where the datagram reaches it and the old byte beyond it; the length is unchanged |
| `Echo.Read` | icmp.go:103 | copies `min(len(datagram), len(buf))` bytes into the buffer and leaves the rest as it was |
| `Echo.ExpectedChecksum` | icmp.go:128-130 | the recomputed reply checksum is a 16-bit value |
| `Echo.Validate` | icmp.go:113-134 | the lines emitted are `Validation(old buffer, seq)`; only bytes 22 and 23 change, and both become zero |
| `Echo.ValidationOrder` | icmp.go:113-134 | the report opens with the reply line (`seq + 1` and bytes 12 to 15), then has at most one line of each mismatch kind, in the order identifier, sequence, checksum |
| `Echo.IdentifierCheck` | icmp.go:117-121 | an identifier line appears iff byte 25 is not 13, and every identifier line shows byte 5 |
| `Echo.SequenceCheck` | icmp.go:122-126 | a sequence line appears iff byte 27 is not `seq % 256`, and every sequence line shows byte 7 |
| `Echo.ChecksumCheck` | icmp.go:127-134 | a checksum line appears iff bytes 22 and 23 differ from the header-only recomputation, and every checksum line shows those two values |
| `Echo.ValidationClean` | icmp.go:117-134 | the report is the reply line alone iff all three checks pass |
| `Echo.EchoAnswerValidation` | icmp.go:113-134 | for an answer behind a 20-byte IPv4 header that fits the buffer and carries identifier byte 13 and the sequence byte, the report is the reply line with the IPv4 source bytes 12 to 15, followed by one checksum line showing both values iff the stored checksum differs from the one recomputed over the 8 ICMP header bytes |
| `Echo.Probe` | icmp.go:73-134 | with the 1-based probe number, the bytes sent are the sent span of `probe - 1`, and the lines are the validation of the datagram read into the request buffer |
| `Echo.ProbeNumbering` | icmp.go:73-116 | byte 7 of the request is `(probe - 1) % 256`, and the reply line carries `probe` |
| `Echo.HonestReplyValidates` | icmp.go:81-134 | a faithful RFC 792 reply, checksummed by RFC 1071, behind a 20-byte IPv4 header yields only the reply line, for any padding |
| `Echo.TamperedChecksumReported` | icmp.go:127-134 | a faithful reply with any other value in its checksum field yields the reply line and exactly one checksum line showing both values |

## Left out

- Command-line parsing, opening the log file, launching probes at the set interval and exiting (`main`, icmp.go:28-70). This is process plumbing.
- Dialling the raw socket, writing to it and its errors, and the fatal exit in `checkError` (icmp.go:78-80, 100-105, 166-171). These are I/O. The received datagram is a parameter of `Probe`, and the `sent` out-parameter stands for the bytes written. A read or write failure, which ends the process, is not modelled.
- Send and receive timestamps and the elapsed time on the reply line (icmp.go:99, 104, 113-116). They depend on the clock, so `Replied` carries no duration.
- The race between the reply and the timeout: `readOk`, `cancel[seq]`, the ticker and the "Time out" line (icmp.go:74-77, 106-112, 138-147). This is concurrency. `Probe` models the path where the reply wins. Go's `select` may also pick the timer after `readOk` was sent, so the source does not guarantee exactly one report per probe.
- The text layout of the output lines and their copy to the log file. The report is the `Report` datatype.
- The aliasing effect of `append` in `checkSum` (icmp.go:156). It can write a zero into the caller's backing array. For every padding `pad >= 0` that byte is already zero wherever the code calls `checkSum`. `CheckSum` works on a sequence value instead.
- A negative padding (`-p`, icmp.go:32). Nothing in the source checks it, and every negative value ends in a panic. Below -28, `make` panics (line 81). From -28 to -21, the header writes panic (lines 82-89). From -20 to -9, `msg[0:len]` panics (line 96). From -8 to -1, a truncated request is sent and the reply line is printed, and then `msg[25]` or `msg[27]` panics (lines 117, 122). For -3 and -1 the `append` at line 156 also zeroes header byte 5 or 7. The model takes `pad` as a `nat`, so it covers only the non-panicking paths.
- Whether Go's `append` reuses the backing array or allocates a new one. `Echo.Append` always returns a fresh array. Nothing else holds the old slice, so the contents are the same either way.
- Checksum.CheckSum: the model's sum is unbounded, while the Go accumulator `sum := 0` (icmp.go:153) is an `int`, whose width depends on the target. On a 64-bit target the two differ only for buffers of more than 2^47 bytes. On a 32-bit target (386, arm, mips) the sum wraps once it reaches 2^31, which takes a buffer of at least 65537 bytes. For an example, take 65537 bytes of 0xFF. Their padded word sum is 0x8000_7F00. The model, 64-bit Go and RFC 1071 all give 0x00FF, but int32 arithmetic gives 0x0100. So `CheckSumIsInternetChecksum` holds as stated only on a 64-bit target. The program itself never reaches the wrap on any target. It checksums only the request header plus zeros, whose word sum is at most 0x0800 + 13 + 255, and bytes 20 to 27 of the reply, whose word sum is below 2^18.
- An IPv4 header with options in the reply. The validation reads fixed offsets that assume a 20-byte header, and the end-to-end lemmas assume one too.
