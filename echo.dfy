/** The ICMP Echo probe of icmp.go (`ping`): the Echo Request it builds
    (RFC 792: type 8, code 0, identifier, sequence), the copy of the received
    datagram into the same buffer, and the checks it runs on that buffer. */
module Echo {
  import opened Checksum

  /** ICMP type of an Echo Request. */
  const EchoRequestType: byte := 8

  /** ICMP type of an Echo Reply. */
  const EchoReplyType: byte := 0

  /** The low identifier byte every request carries and every reply must carry. */
  const IdentifierTag: byte := 13

  /** The 20 extra zero bytes of the `28 + pad` allocation, after the 8-byte
      header. */
  const Reserve: nat := 20

  /** Length of the IPv4 header the validation assumes in front of the reply. */
  const IpHeaderLength: nat := 20

  /** Go's `byte(sequence)`: the low 8 bits of an int. Dafny's `%` is Euclidean,
      which is what two's-complement truncation gives for negative values too. */
  function SeqByte(sequence: int): (b: byte)
    ensures 0 <= sequence < 256 ==> b == sequence
    ensures (sequence - b) % 256 == 0
  {
    sequence % 256
  }

  /** The fixed header the request starts with; the checksum field is zero. */
  function Header(sequence: int): (h: seq<byte>)
  {
    [EchoRequestType, 0, 0, 0, 0, IdentifierTag, 0, SeqByte(sequence)]
  }

  /** The bytes the padding loop appends, one per position `i` in
      `8 .. 8 + pad - 1`: `(i + 256 - 7) % 256`. */
  function Ramp(pad: nat): (r: seq<byte>)
  {
    seq(pad, k => (8 + k + 256 - 7) % 256)
  }

  /** The checksum field (bytes 2 and 3) of a buffer, read big-endian. */
  function StoredChecksum(s: seq<byte>): (c: nat)
    requires |s| >= 4
    ensures c < WordModulus
  {
    Word(s[2], s[3])
  }

  /** The buffer with `c` written big-endian into bytes 2 and 3. */
  function WithChecksum(s: seq<byte>, c: nat): (r: seq<byte>)
    requires |s| >= 4 && c < WordModulus
    ensures |r| == |s| && StoredChecksum(r) == c
  {
    s[2 := c / 256][3 := c % 256]
  }

  /** The buffer with the checksum field cleared. */
  function ClearChecksum(s: seq<byte>): (r: seq<byte>)
    requires |s| >= 4
  {
    s[2 := 0][3 := 0]
  }

  /** The request buffer before its checksum is stored: the header, the zero
      bytes of the `28 + pad` allocation, then the appended ramp. */
  function Unsummed(sequence: int, pad: nat): seq<byte>
  {
    Header(sequence) + Zeros(Reserve + pad) + Ramp(pad)
  }

  /** The request buffer after construction (length `28 + 2 * pad`). */
  function Request(sequence: int, pad: nat): (r: seq<byte>)
    ensures |r| == 8 + Reserve + 2 * pad
  {
    var u := Unsummed(sequence, pad);
    WithChecksum(u, CheckSumOf(u[..8 + pad]))
  }

  /** The bytes written to the connection: the first `8 + pad` of the buffer. */
  function SentSpan(sequence: int, pad: nat): seq<byte>
  {
    Request(sequence, pad)[..8 + pad]
  }

  /** Go's builtin `append` of one byte: the slice grows by one element. */
  method Append(a: array<byte>, x: byte) returns (b: array<byte>)
    ensures fresh(b) && b[..] == a[..] + [x]
  {
    b := new byte[a.Length + 1];
    forall k | 0 <= k < a.Length {
      b[k] := a[k];
    }
    b[a.Length] := x;
  }

  /** The padding loop of the request: appends the ramp byte of every
      position `i` in `8 .. 8 + pad - 1` behind the buffer. */
  method AppendRamp(msg: array<byte>, pad: nat) returns (out: array<byte>)
    ensures fresh(out) || (pad == 0 && out == msg)
    ensures out[..] == msg[..] + Ramp(pad)
  {
    out := msg;
    var i := 8;
    while i < 8 + pad
      invariant 8 <= i <= 8 + pad
      invariant fresh(out) || (i == 8 && out == msg)
      invariant out[..] == msg[..] + Ramp(pad)[..i - 8]
    {
      assert Ramp(pad)[..i - 7] == Ramp(pad)[..i - 8] + [(i + 256 - 7) % 256];
      out := Append(out, (i + 256 - 7) % 256);
      i := i + 1;
    }
    assert Ramp(pad)[..pad] == Ramp(pad);
  }

  /** Computes the checksum of the first `len` bytes and stores it
      big-endian in bytes 2 and 3, which the rest of the buffer keeps. */
  method StoreChecksum(msg: array<byte>, len: nat)
    requires 4 <= len <= msg.Length
    modifies msg
    ensures msg[..] == WithChecksum(old(msg[..]), CheckSumOf(old(msg[..len])))
  {
    var check := CheckSum(msg[..len]);
    msg[2] := check / 256;
    msg[3] := check % 256;
  }

  /** Writes the 8 header bytes of the request: type 8, code 0, a zero
      checksum, identifier 0 and 13, sequence 0 and the low byte of
      `sequence`. */
  method WriteHeader(msg: array<byte>, sequence: int)
    requires msg.Length >= 8
    modifies msg
    ensures msg[..] == Header(sequence) + old(msg[8..])
  {
    msg[0] := EchoRequestType;
    msg[1] := 0;
    msg[2] := 0;
    msg[3] := 0;
    msg[4] := 0;
    msg[5] := IdentifierTag;
    msg[6] := 0;
    msg[7] := SeqByte(sequence);
    assert msg[..] == msg[..8] + msg[8..];
  }

  /** Builds the Echo Request of a probe, returning the buffer and the
      number of bytes to send. `sequence` is already 0-based. */
  method BuildRequest(sequence: int, pad: nat) returns (msg: array<byte>, len: nat)
    ensures fresh(msg)
    ensures msg[..] == Request(sequence, pad) && len == 8 + pad
  {
    msg := new byte[8 + Reserve + pad](_ => 0);
    assert msg[8..] == Zeros(Reserve + pad);
    WriteHeader(msg, sequence);
    len := 8 + pad;
    if pad != 0 {
      msg := AppendRamp(msg, pad);
    } else {
      assert Ramp(pad) == [];
    }
    assert msg[..] == Unsummed(sequence, pad);
    StoreChecksum(msg, len);
  }

  /** The request's header fields: type 8, code 0, identifier 0 and 13,
      sequence 0 and the low byte of the 0-based sequence number; the buffer
      holds `28 + 2 * pad` bytes. */
  lemma RequestFields(sequence: int, pad: nat)
    ensures var r := Request(sequence, pad);
      |r| == 28 + 2 * pad &&
      r[0] == EchoRequestType && r[1] == 0 && r[4] == 0 &&
      r[5] == IdentifierTag && r[6] == 0 && r[7] == sequence % 256
  {
    var u := Unsummed(sequence, pad);
    assert u[..8] == Header(sequence);
  }

  /** The request's body: zeros from byte 8 up to the end of the `28 + pad`
      allocation, then the appended ramp, `(8 + k + 249) % 256` at byte
      `28 + pad + k`. */
  lemma RequestBody(sequence: int, pad: nat)
    ensures var r := Request(sequence, pad);
      (forall k :: 8 <= k < 28 + pad ==> r[k] == 0) &&
      (forall k :: 28 + pad <= k < 28 + 2 * pad ==> r[k] == (k - 20 - pad + 249) % 256)
  {
    var u := Unsummed(sequence, pad);
    assert forall k :: 8 <= k < 28 + pad ==> u[k] == Zeros(Reserve + pad)[k - 8];
    assert forall k :: 28 + pad <= k < 28 + 2 * pad ==> u[k] == Ramp(pad)[k - 28 - pad];
  }

  /** The ramp never reaches the bytes sent: the sent span is the header with
      its checksum, followed by `pad` zero bytes. */
  lemma SentSpanContents(sequence: int, pad: nat)
    ensures SentSpan(sequence, pad)
         == WithChecksum(Header(sequence), CheckSumOf(Header(sequence))) + Zeros(pad)
  {
    var u := Unsummed(sequence, pad);
    assert u[..8 + pad] == Header(sequence) + Zeros(pad);
    TrailingZerosNeutral(Header(sequence), pad);
  }

  /** The checksum of the request header, by its words 0x0800, 0, 13 and
      the sequence byte. */
  lemma HeaderChecksum(sequence: int)
    ensures CheckSumOf(Header(sequence)) == 0xFFFF - (0x0800 + IdentifierTag + SeqByte(sequence))
  {
    var h := Header(sequence);
    assert Padded(h) == h;
    assert WordSum(h[..2]) == 0x0800 by {
      assert h[..2] == [8, 0] && h[..2][..0] == [];
    }
    assert WordSum(h[..4]) == 0x0800 by {
      assert h[..4][..2] == h[..2];
    }
    assert WordSum(h[..6]) == 0x0800 + IdentifierTag by {
      assert h[..6][..4] == h[..4];
    }
    assert WordSum(h) == 0x0800 + IdentifierTag + SeqByte(sequence) by {
      assert h[..|h| - 2] == h[..6];
    }
  }

  /** The probe's checksum depends only on its sequence byte, whatever the
      padding: the padding that is summed is all zero. */
  lemma RequestChecksumIgnoresPadding(sequence: int, pad: nat)
    ensures StoredChecksum(SentSpan(sequence, pad)) == CheckSumOf(Header(sequence))
    ensures StoredChecksum(SentSpan(sequence, pad)) == 0xFFFF - (0x0800 + IdentifierTag + SeqByte(sequence))
  {
    SentSpanContents(sequence, pad);
    HeaderChecksum(sequence);
  }

  /** The checksum round trip of the request: clearing the stored field of the
      sent span and recomputing gives back the stored value. */
  lemma RequestChecksumRoundTrip(sequence: int, pad: nat)
    ensures CheckSumOf(ClearChecksum(SentSpan(sequence, pad))) == StoredChecksum(SentSpan(sequence, pad))
  {
    var u := Unsummed(sequence, pad);
    assert ClearChecksum(SentSpan(sequence, pad)) == u[..8 + pad];
  }

  /** The check rule of RFC 1071: summing the sent span with its stored
      checksum in place gives a zero checksum. */
  lemma RequestSelfVerifies(sequence: int, pad: nat)
    ensures CheckSumOf(SentSpan(sequence, pad)) == 0
  {
    var h := Header(sequence);
    SentSpanContents(sequence, pad);
    TrailingZerosNeutral(WithChecksum(h, CheckSumOf(h)), pad);
    ChecksumSelfVerifies(h);
  }

  /** For any buffer of at most 131074 bytes whose checksum field is zero,
      storing its checksum there makes its checksum zero. */
  lemma ChecksumSelfVerifies(s: seq<byte>)
    requires 4 <= |s| <= 131074 && s[2] == 0 && s[3] == 0
    ensures CheckSumOf(WithChecksum(s, CheckSumOf(s))) == 0
  {
    var c := CheckSumOf(s);
    var t := WithChecksum(s, c);
    var p: seq<byte> := Padded(s);
    var hi: byte, lo: byte := c / 256, c % 256;
    assert Padded(t) == p[2 := hi][3 := lo];
    WordSumUpdate(p, 2, hi, lo);
    assert WordSum(Padded(t)) == WordSum(p) + c;
    WordSumBound(p);
    CheckSumIsInternetChecksum(s);
    ChecksumOfCheckedSum(WordSum(p));
  }

  /** One line of the probe's report. `Replied` carries the 1-based probe
      number and the reply's IPv4 source address. */
  datatype Report =
    | Replied(probe: int, from: seq<byte>)
    | IdentifierMismatch(reported: byte)
    | SequenceMismatch(reported: byte)
    | ChecksumMismatch(reply: nat, expected: nat)

  /** The buffer after a read of `datagram` into `buf`: as many bytes as fit
      are copied to the front; the rest of the buffer keeps its old bytes. */
  function Received(buf: seq<byte>, datagram: seq<byte>): (r: seq<byte>)
    ensures |r| == |buf|
    ensures forall k :: 0 <= k < |buf| ==> r[k] == (if k < |datagram| then datagram[k] else buf[k])
  {
    if |datagram| >= |buf| then datagram[..|buf|] else datagram + buf[|datagram|..]
  }

  /** `conn.Read(msg[0:])`: copies the datagram into the buffer, truncating a
      datagram longer than the buffer; returns the number of bytes copied. */
  method Read(msg: array<byte>, datagram: seq<byte>) returns (n: nat)
    modifies msg
    ensures n == if |datagram| < msg.Length then |datagram| else msg.Length
    ensures msg[..] == Received(old(msg[..]), datagram)
  {
    n := if |datagram| < msg.Length then |datagram| else msg.Length;
    var i := 0;
    while i < n
      invariant 0 <= i <= n
      invariant forall k :: 0 <= k < i ==> msg[k] == datagram[k]
      invariant forall k :: i <= k < msg.Length ==> msg[k] == old(msg[k])
    {
      msg[i] := datagram[i];
      i := i + 1;
    }
  }

  /** The reply checksum the validation recomputes: over bytes 20 to 27 only
      (the ICMP header behind a 20-byte IPv4 header), with bytes 22 and 23
      cleared. */
  function ExpectedChecksum(b: seq<byte>): (c: nat)
    requires |b| >= 28
    ensures c < WordModulus
  {
    CheckSumOf(ClearChecksum(b[20..28]))
  }

  /** The identifier line: reported when byte 25 is not the tag, showing
      byte 5. */
  function IdentifierLines(b: seq<byte>): seq<Report>
    requires |b| >= 28
  {
    if b[25] == IdentifierTag then [] else [IdentifierMismatch(b[5])]
  }

  /** The sequence line: reported when byte 27 is not the low byte of
      `sequence`, showing byte 7. */
  function SequenceLines(b: seq<byte>, sequence: int): seq<Report>
    requires |b| >= 28
  {
    if b[27] == SeqByte(sequence) then [] else [SequenceMismatch(b[7])]
  }

  /** The checksum line: reported when bytes 22 and 23 differ from the
      recomputed checksum, showing both. */
  function ChecksumLines(b: seq<byte>): seq<Report>
    requires |b| >= 28
  {
    var check1 := Word(b[22], b[23]);
    var check2 := ExpectedChecksum(b);
    if check2 != check1 then [ChecksumMismatch(check1, check2)] else []
  }

  /** The lines the validation reports for a received buffer: the reply line
      with `sequence + 1` and the source address (bytes 12 to 15), then one
      line for each failed check. The mismatch lines show bytes 5 and 7, not
      the bytes that were compared. */
  function Validation(b: seq<byte>, sequence: int): seq<Report>
    requires |b| >= 28
  {
    [Replied(sequence + 1, b[12..16])] + IdentifierLines(b) + SequenceLines(b, sequence) + ChecksumLines(b)
  }

  /** Validates the received buffer, clearing its checksum field in place. */
  method Validate(msg: array<byte>, sequence: int) returns (lines: seq<Report>)
    requires msg.Length >= 28
    modifies msg
    ensures msg[..] == old(msg[..])[22 := 0][23 := 0]
    ensures lines == Validation(old(msg[..]), sequence)
  {
    ghost var b := msg[..];
    lines := [Replied(sequence + 1, msg[12..16])];
    if msg[25] == IdentifierTag {
    } else {
      lines := lines + [IdentifierMismatch(msg[5])];
    }
    assert lines == [Replied(sequence + 1, b[12..16])] + IdentifierLines(b);
    if msg[27] == SeqByte(sequence) {
    } else {
      lines := lines + [SequenceMismatch(msg[7])];
    }
    assert lines == [Replied(sequence + 1, b[12..16])] + IdentifierLines(b) + SequenceLines(b, sequence);
    var check1: nat := msg[22] as int * 256 + msg[23] as int;
    msg[22] := 0;
    msg[23] := 0;
    assert msg[20..28] == ClearChecksum(b[20..28]);
    var check2 := CheckSum(msg[20..28]);
    if check2 != check1 {
      lines := lines + [ChecksumMismatch(check1, check2)];
    }
    assert lines == Validation(b, sequence);
  }

  /** The order of report lines: the reply line, then identifier, sequence
      and checksum mismatches. */
  function Rank(r: Report): nat
  {
    match r
    case Replied(_, _) => 0
    case IdentifierMismatch(_) => 1
    case SequenceMismatch(_) => 2
    case ChecksumMismatch(_, _) => 3
  }

  /** The report opens with the reply line, carrying `sequence + 1` and the
      source address, and every later line is a mismatch, each kind at most
      once and in the fixed order. */
  lemma ValidationOrder(b: seq<byte>, sequence: int)
    requires |b| >= 28
    ensures var r := Validation(b, sequence);
      1 <= |r| <= 4 && r[0] == Replied(sequence + 1, b[12..16]) &&
      (forall i, j :: 0 <= i < j < |r| ==> Rank(r[i]) < Rank(r[j]))
  {
  }

  /** An identifier mismatch is reported exactly when byte 25 is not the tag,
      and it shows byte 5. */
  lemma IdentifierCheck(b: seq<byte>, sequence: int)
    requires |b| >= 28
    ensures IdentifierMismatch(b[5]) in Validation(b, sequence) <==> b[25] != IdentifierTag
    ensures forall v :: IdentifierMismatch(v) in Validation(b, sequence) ==> v == b[5]
  {
  }

  /** A sequence mismatch is reported exactly when byte 27 is not the low
      byte of `sequence`, and it shows byte 7. */
  lemma SequenceCheck(b: seq<byte>, sequence: int)
    requires |b| >= 28
    ensures SequenceMismatch(b[7]) in Validation(b, sequence) <==> b[27] != sequence % 256
    ensures forall v :: SequenceMismatch(v) in Validation(b, sequence) ==> v == b[7]
  {
  }

  /** A checksum mismatch is reported exactly when the received checksum
      field differs from the recomputed one, and it shows both. */
  lemma ChecksumCheck(b: seq<byte>, sequence: int)
    requires |b| >= 28
    ensures ChecksumMismatch(StoredChecksum(b[20..]), ExpectedChecksum(b)) in Validation(b, sequence)
        <==> StoredChecksum(b[20..]) != ExpectedChecksum(b)
    ensures forall x, y :: (ChecksumMismatch(x, y) in Validation(b, sequence)
        ==> x == StoredChecksum(b[20..]) && y == ExpectedChecksum(b))
  {
  }

  /** The reply a host returns for an Echo Request (RFC 792): type 0, code 0,
      the rest echoed, and the RFC 1071 checksum recomputed over the whole
      message. */
  function EchoReply(request: seq<byte>): (r: seq<byte>)
    requires |request| >= 8
    ensures |r| == |request|
  {
    var body := ClearChecksum(request[0 := EchoReplyType][1 := 0]);
    WithChecksum(body, InternetChecksum(body))
  }

  /** One probe of `ping` without its I/O, timing and timeout race: `probe`
      is the 1-based number the probe is launched with. It builds the request,
      notes the bytes sent, reads the datagram back into the same buffer and
      validates it. `datagram` stands for what the connection returns. */
  method Probe(probe: int, pad: nat, datagram: seq<byte>) returns (sent: seq<byte>, lines: seq<Report>)
    ensures sent == SentSpan(probe - 1, pad)
    ensures lines == Validation(Received(Request(probe - 1, pad), datagram), probe - 1)
  {
    var sequence := probe - 1;
    var msg, len := BuildRequest(sequence, pad);
    sent := msg[..len];
    var _ := Read(msg, datagram);
    lines := Validate(msg, sequence);
  }

  /** The probe's request carries `(probe - 1) % 256` in byte 7 and its
      reply line carries `probe` itself. */
  lemma ProbeNumbering(probe: int, pad: nat, datagram: seq<byte>)
    ensures SentSpan(probe - 1, pad)[7] == (probe - 1) % 256
    ensures Validation(Received(Request(probe - 1, pad), datagram), probe - 1)[0].probe == probe
  {
    RequestFields(probe - 1, pad);
  }

  /** The header a faithful host answers a probe with, before it stores
      the checksum: the request header with type 0. */
  function ReplyHeader(sequence: int): (h: seq<byte>)
    ensures |h| == 8
  {
    Header(sequence)[0 := EchoReplyType]
  }

  /** Updating a byte of the front part of a concatenation leaves the back
      part alone. */
  lemma UpdateInFront(x: seq<byte>, z: seq<byte>, i: nat, v: byte)
    requires i < |x|
    ensures (x + z)[i := v] == x[i := v] + z
  {
  }

  /** An echo reply to a message that ends in zero bytes is the reply to the
      message without them, followed by the same zeros. */
  lemma EchoReplyOfZeroPadded(x: seq<byte>, n: nat)
    requires |x| >= 8
    ensures EchoReply(x + Zeros(n)) == EchoReply(x) + Zeros(n)
  {
    var z := Zeros(n);
    var y := x[0 := EchoReplyType][1 := 0];
    var body := ClearChecksum(y);
    var c := InternetChecksum(body);
    assert ClearChecksum((x + z)[0 := EchoReplyType][1 := 0]) == body + z by {
      UpdateInFront(x, z, 0, EchoReplyType);
      UpdateInFront(x[0 := EchoReplyType], z, 1, 0);
      UpdateInFront(y, z, 2, 0);
      UpdateInFront(y[2 := 0], z, 3, 0);
    }
    assert InternetChecksum(body + z) == c by {
      InternetChecksumIgnoresZeros(body, n);
    }
    assert WithChecksum(body + z, c) == WithChecksum(body, c) + z by {
      UpdateInFront(body, z, 2, c / 256);
      UpdateInFront(body[2 := c / 256], z, 3, c % 256);
    }
  }

  /** A faithful host answers the probe with the reply header and its
      checksum, followed by the zero padding that was sent. */
  lemma EchoReplyOfProbe(sequence: int, pad: nat)
    ensures EchoReply(SentSpan(sequence, pad))
         == WithChecksum(ReplyHeader(sequence), InternetChecksum(ReplyHeader(sequence))) + Zeros(pad)
  {
    SentSpanContents(sequence, pad);
    var hs := WithChecksum(Header(sequence), CheckSumOf(Header(sequence)));
    EchoReplyOfZeroPadded(hs, pad);
    EchoReplyOfHeader(sequence);
  }

  /** The echo reply to the request header with its checksum is the reply
      header with its own checksum. */
  lemma EchoReplyOfHeader(sequence: int)
    ensures EchoReply(WithChecksum(Header(sequence), CheckSumOf(Header(sequence))))
         == WithChecksum(ReplyHeader(sequence), InternetChecksum(ReplyHeader(sequence)))
  {
    var hs := WithChecksum(Header(sequence), CheckSumOf(Header(sequence)));
    assert ClearChecksum(hs[0 := EchoReplyType][1 := 0]) == ReplyHeader(sequence);
  }

  /** A datagram of a 20-byte IPv4 header and an ICMP message that fits the
      buffer puts the source address at bytes 12 to 15 and the ICMP header
      at bytes 20 to 27. */
  lemma ReceivedIcmpHeader(buf: seq<byte>, ip: seq<byte>, icmp: seq<byte>)
    requires |ip| == IpHeaderLength && |icmp| >= 8 && |ip| + |icmp| <= |buf|
    ensures var b := Received(buf, ip + icmp);
      b[12..16] == ip[12..16] && b[20..28] == icmp[..8]
  {
  }

  /** The validation reports the reply line alone exactly when all three
      checks pass. */
  lemma ValidationClean(b: seq<byte>, sequence: int)
    requires |b| >= 28
    ensures Validation(b, sequence) == [Replied(sequence + 1, b[12..16])]
        <==> b[25] == IdentifierTag && b[27] == SeqByte(sequence)
             && StoredChecksum(b[20..28]) == ExpectedChecksum(b)
  {
    assert StoredChecksum(b[20..28]) == Word(b[22], b[23]);
    if Validation(b, sequence) == [Replied(sequence + 1, b[12..16])] {
      assert |Validation(b, sequence)| == 1;
    }
  }

  /** For a datagram of a 20-byte IPv4 header and an ICMP message that fits
      the buffer and carries the right identifier and sequence bytes, the
      report is the reply line with the IPv4 source bytes 12 to 15, then one
      checksum mismatch showing both values exactly when the stored checksum
      is not the one recomputed over the 8 ICMP header bytes. */
  lemma EchoAnswerValidation(buf: seq<byte>, ip: seq<byte>, icmp: seq<byte>, sequence: int)
    requires |ip| == IpHeaderLength && |icmp| >= 8 && |ip| + |icmp| <= |buf|
    requires icmp[5] == IdentifierTag && icmp[7] == SeqByte(sequence)
    ensures var stored, expected := StoredChecksum(icmp), CheckSumOf(ClearChecksum(icmp[..8]));
      Validation(Received(buf, ip + icmp), sequence)
      == [Replied(sequence + 1, ip[12..16])]
         + (if stored == expected then [] else [ChecksumMismatch(stored, expected)])
  {
    ReceivedIcmpHeader(buf, ip, icmp);
    var b := Received(buf, ip + icmp);
    assert b[25] == icmp[5] && b[27] == icmp[7];
    assert Word(b[22], b[23]) == StoredChecksum(icmp);
    assert ClearChecksum(b[20..28]) == ClearChecksum(icmp[..8]);
  }

  /** A header with a cleared checksum field, with a checksum `c` stored and
      any bytes behind it, keeps its other fields and gives back the header
      when its checksum field is cleared again. */
  lemma StoredHeaderFields(h: seq<byte>, c: nat, z: seq<byte>)
    requires |h| == 8 && h[2] == 0 && h[3] == 0 && c < WordModulus
    ensures var icmp := WithChecksum(h, c) + z;
      |icmp| == 8 + |z| && icmp[5] == h[5] && icmp[7] == h[7] &&
      StoredChecksum(icmp) == c && ClearChecksum(icmp[..8]) == h
  {
    var hs := WithChecksum(h, c);
    assert (hs + z)[..8] == hs;
  }

  /** The faithful answer to a probe carries the identifier tag and the
      sequence byte, and its stored RFC 1071 checksum is the one `checkSum`
      recomputes over its 8 header bytes. */
  lemma FaithfulAnswerFields(sequence: int, pad: nat)
    ensures var icmp := EchoReply(SentSpan(sequence, pad));
      |icmp| == 8 + pad && icmp[5] == IdentifierTag && icmp[7] == SeqByte(sequence) &&
      StoredChecksum(icmp) == CheckSumOf(ClearChecksum(icmp[..8])) &&
      StoredChecksum(icmp) == InternetChecksum(ReplyHeader(sequence))
  {
    var h := ReplyHeader(sequence);
    assert h[2] == 0 && h[3] == 0 && h[5] == IdentifierTag && h[7] == SeqByte(sequence);
    EchoReplyOfProbe(sequence, pad);
    StoredHeaderFields(h, InternetChecksum(h), Zeros(pad));
    CheckSumIsInternetChecksum(h);
  }

  /** Forging the checksum field of an ICMP message changes nothing else in
      its header. */
  lemma ForgedFields(icmp: seq<byte>, forged: nat)
    requires |icmp| >= 8 && forged < WordModulus
    ensures var f := WithChecksum(icmp, forged);
      |f| == |icmp| && f[5] == icmp[5] && f[7] == icmp[7] &&
      StoredChecksum(f) == forged && ClearChecksum(f[..8]) == ClearChecksum(icmp[..8])
  {
  }

  /** Whatever the buffer already holds, a faithful answer that fits it
      validates cleanly. */
  lemma HonestAnswerIn(buf: seq<byte>, sequence: int, pad: nat, ip: seq<byte>)
    requires |ip| == IpHeaderLength && |buf| >= 28 + pad
    ensures Validation(Received(buf, ip + EchoReply(SentSpan(sequence, pad))), sequence)
         == [Replied(sequence + 1, ip[12..16])]
  {
    FaithfulAnswerFields(sequence, pad);
    EchoAnswerValidation(buf, ip, EchoReply(SentSpan(sequence, pad)), sequence);
  }

  /** A faithful responder behind a 20-byte IPv4 header: the probe reports
      only the reply line, whatever the padding, because the checksum over
      the zero padding equals the checksum over the header alone. */
  lemma HonestReplyValidates(sequence: int, pad: nat, ip: seq<byte>)
    requires |ip| == IpHeaderLength
    ensures Validation(Received(Request(sequence, pad), ip + EchoReply(SentSpan(sequence, pad))), sequence)
         == [Replied(sequence + 1, ip[12..16])]
  {
    HonestAnswerIn(Request(sequence, pad), sequence, pad, ip);
  }

  /** Whatever the buffer already holds, an answer that fits it but carries
      any checksum other than the faithful one is reported as a checksum
      mismatch. */
  lemma TamperedAnswerIn(buf: seq<byte>, sequence: int, pad: nat, ip: seq<byte>, forged: nat)
    requires |ip| == IpHeaderLength && |buf| >= 28 + pad && forged < WordModulus
    requires forged != InternetChecksum(ReplyHeader(sequence))
    ensures Validation(Received(buf, ip + WithChecksum(EchoReply(SentSpan(sequence, pad)), forged)), sequence)
         == [Replied(sequence + 1, ip[12..16]),
             ChecksumMismatch(forged, StoredChecksum(EchoReply(SentSpan(sequence, pad))))]
  {
    var icmp := EchoReply(SentSpan(sequence, pad));
    FaithfulAnswerFields(sequence, pad);
    ForgedFields(icmp, forged);
    EchoAnswerValidation(buf, ip, WithChecksum(icmp, forged), sequence);
  }

  /** A responder that puts any other value in the checksum field gets the
      reply line and one checksum mismatch that shows both values. */
  lemma TamperedChecksumReported(sequence: int, pad: nat, ip: seq<byte>, forged: nat)
    requires |ip| == IpHeaderLength && forged < WordModulus
    requires forged != StoredChecksum(EchoReply(SentSpan(sequence, pad)))
    ensures Validation(Received(Request(sequence, pad), ip + WithChecksum(EchoReply(SentSpan(sequence, pad)), forged)), sequence)
         == [Replied(sequence + 1, ip[12..16]),
             ChecksumMismatch(forged, StoredChecksum(EchoReply(SentSpan(sequence, pad))))]
  {
    FaithfulAnswerFields(sequence, pad);
    TamperedAnswerIn(Request(sequence, pad), sequence, pad, ip, forged);
  }
}
