# ICMP ping and traceroute probes, modelled in Dafny

This project models the sequential core of two small raw-socket tools, `ping`
and `traceroute`:

- the RFC 1071 Internet checksum (`checksum`, the same code in both tools);
- the 64-byte ICMP Echo Request that `send_icmp_request` builds: RFC 792 for
  IPv4, with its checksum, or RFC 4443 section 4.1 for IPv6, with the checksum
  field left at 0;
- ping's `receive_icmp_reply`, which returns 0 on timeout, -1 when `poll` or
  `recvfrom` fails, and 1 for any datagram that arrives;
- traceroute's `receive_icmp_reply`, which finds the ICMP type byte (after
  the IPv4 header, or at offset 0 for ICMPv6) and returns 2 for Echo Reply, 1
  for Time Exceeded, -1 when `poll` or `recvfrom` fails, and 0 for anything
  else;
- the statistics loop of ping's `main`: packets sent and received, and the
  sum, minimum and maximum of the RTTs of the received probes.

Files and modules:

- `icmp_wire.dfy`: `IcmpWire` holds bytes, 16-bit big-endian fields and the
  ICMP type constants. `Transport` holds the abstract outcome of one wait:
  `poll`'s return value, what `recvfrom` did, and the elapsed time.
- `checksum.dfy`: `InternetChecksum` has the `Checksum` method with the C
  function's two loops. `ChecksumOf` is its specification. Lemmas cover the
  odd byte, the carry fold, the verification rule and byte-order independence.
- `echo_request.dfy`: `EchoRequest` has the buffer-filling method
  `SendIcmpRequest` and its specification `EchoRequestPacket`.
- `ping.dfy`: `Ping` has ping's receiver, the statistics loop `PingSession`
  and the lemmas about the reported numbers.
- `traceroute.dfy`: `Traceroute` has traceroute's receiver as a
  classification function.

The checksum function and `send_icmp_request` are identical, apart from
comments, in `ping.c` and `traceroute.c`. Each is modelled once, and both tools use that
one model.

Modelling decisions:

- The words are summed in network (big-endian) order, with an odd trailing
  byte as the high byte of a zero-padded word. The C code sums in host order.
  `InternetChecksum.HostOrderSameBytes` proves that a little-endian host
  computes the byte-swapped value and so stores the same two bytes
  (RFC 1071 section 2(B)). A big-endian host computes `SumWords` for an even
  length only: it adds an odd trailing byte as its plain value, a low byte,
  rather than as the high byte of the padded word RFC 1071 prescribes. The
  only calls (ping.c:67, traceroute.c:71) are over 64 bytes, so the program
  never reaches that difference.
- The `unsigned long` accumulator is an unbounded `nat`.
  `InternetChecksum.SumWordsBound` bounds it by 0xFFFF per word. With a
  64-bit `unsigned long` (LP64) it cannot wrap for any `int` length. The only
  call sums 64 bytes, at most 32 * 0xFFFF, which also fits in 32 bits (ILP32). `sum & 0xFFFF` is `% 0x10000`, `sum >> 16` is `/ 0x10000`, and
  `~sum` truncated to `unsigned short` is `0xFFFF - sum` on the folded sum.
- The code adds the trailing odd byte before folding the carries, and the
  model does the same.
- `htons` of a C `int` keeps the value modulo 65536. Identifiers and
  sequence numbers are written as `x % 0x10000`, so sequence numbers wrap.
- A negative `length` makes both C loops skip, and the checksum is that of
  the empty buffer. `Checksum` accepts any `length <= data.Length` and does
  the same.
- Neither receiver compares the identifier or the sequence number of what
  arrives with the probe's. The model doesn't either: ping counts any arrival
  as received.
- Traceroute's receiver never checks `bytes_received` against the offset it
  reads. This model gives such a datagram its own outcome, `ShortRead`; the C
  code reads beyond the received bytes. `ShortRead` happens for protocol 4 or
  6 when the datagram is empty, or, for IPv4, when it ends at or before the
  offset `ihl * 4`.
- RTTs are `real` values given as inputs. `rtt_min` starts at the exact value
  of `DBL_MAX` and `rtt_max` at 0, as in the code.
- `PingSession` requires `0 < count`, because `main` rejects a non-positive
  count before the loop (ping.c:144-148). It also requires one wait outcome
  per probe in `events`.

## Model

| member | source | states |
|---|---|---|
| `IcmpWire.Zeros` | ping.c:57 | the `memset` buffer: `n` bytes, every one 0 |
| `IcmpWire.U16` | ping.c:65-66 | `htons` of a C `int` keeps a 16-bit value congruent to it modulo 65536, and is the identity on values that fit |
| `InternetChecksum.Checksum` | ping.c:17-35 | the word loop, odd byte, fold loop and complement yield exactly `ChecksumOf` of the first `length` bytes (none for a negative length); the result is at most 0xFFFF |
| `InternetChecksum.ChecksumOf` | traceroute.c:21-39 | the checksum is at most 0xFFFF and is 0xFFFF minus the folded word sum |
| `InternetChecksum.SumWordsZeroIff` | ping.c:21-28 | the word loop and trailing byte in network order (RFC 1071's padded last word): the sum is 0 exactly when every byte is 0 |
| `InternetChecksum.SumWordsHost` | ping.c:21-28 | the word loop and trailing byte as a little-endian host reads them: at most 0xFFFF per (padded) word |
| `InternetChecksum.OnesComplementSum` | ping.c:30-32 | the folded sum is at most 0xFFFF, is 0 exactly when the unfolded sum is 0, and keeps its residue modulo 0xFFFF |
| `InternetChecksum.OnesComplementSumUnique` | ping.c:30-32 | those three properties determine the folded value, so the fold loop's result is the closed form |
| `InternetChecksum.FoldStep` | ping.c:30-31 | one fold `(sum & 0xFFFF) + (sum >> 16)` of a sum with a carry strictly decreases it, keeps it positive and keeps its residue modulo 0xFFFF (the loop terminates) |
| `InternetChecksum.SumWordsOddTail` | ping.c:26-28 | for an odd length the last byte is added alone, as a padded word, after all the whole words |
| `InternetChecksum.SumWordsAppendWord` | ping.c:21-24 | for an even length only whole words are added: one more word adds exactly its value |
| `InternetChecksum.SumWordsBound` | ping.c:19-24 | the word sum is at most 0xFFFF per (padded) word, so the 64-bit accumulator cannot wrap |
| `InternetChecksum.ChecksumVerifies` | ping.c:64-67 | with the checksum written into a zeroed, word-aligned field, the checksum of the whole buffer is 0 (RFC 1071 section 1) |
| `InternetChecksum.HostOrderSameBytes` | ping.c:18-34 | summing in little-endian host order gives the byte-swapped checksum, whose host-order bytes equal the network-order bytes of the modelled checksum |
| `EchoRequest.EchoRequestPacket` | ping.c:56-77 | 64 bytes; IPv4: type 8, code 0, the checksum of the buffer with the field zeroed, so that the datagram verifies to 0; IPv6: type 128, code 0, checksum field 0; identifier and sequence big-endian modulo 65536 at bytes 4-7; bytes 8-63 zero |
| `EchoRequest.SendIcmpRequest` | ping.c:55-77 | the buffer filled in place (zeroed, fields written, checksum computed by `Checksum` over all 64 bytes for IPv4) is exactly `EchoRequestPacket` |
| `EchoRequest.EchoChecksumValue` | traceroute.c:64-71 | the IPv4 checksum field is 0xFFFF minus the folded sum of 0x0800, the identifier and the sequence number |
| `EchoRequest.EchoFieldsRoundTrip` | traceroute.c:61-71 | reading the header back gives the type, code 0, the checksum (0 for IPv6), and the identifier and sequence as 16-bit values |
| `EchoRequest.SequenceWraps` | traceroute.c:70 | sequence numbers 65536 apart produce the same datagram |
| `Ping.ReceiveIcmpReply` | ping.c:97-120 | 0 exactly on timeout, -1 exactly when `poll` or `recvfrom` fails, 1 exactly when a datagram arrives, whatever its bytes; the RTT is written only for 1 |
| `Ping.ReceivedRtts` | ping.c:198-205 | one RTT per probe whose receive code is 1, so no more than there are probes |
| `Ping.AggregatesExtend` | ping.c:202-204 | `Sum`, the accumulated `rtt_sum`, grows by exactly the new RTT; the running minimum and maximum are updated by one comparison each, as the loop body does |
| `Ping.SumBounds` | ping.c:202 | when every RTT lies between `lo` and `hi`, the accumulated `rtt_sum` lies between `n * lo` and `n * hi` for `n` RTTs |
| `Ping.MinFrom` | ping.c:203 | the running minimum is at most its start and every RTT, and is the start or one of the RTTs |
| `Ping.MaxFrom` | ping.c:204 | the running maximum is at least its start and every RTT, and is the start or one of the RTTs |
| `Ping.PingSession` | ping.c:189-219 | `packets_sent == count`, `0 <= packets_received <= packets_sent`, and received count, `rtt_sum`, `rtt_min` (from `DBL_MAX`) and `rtt_max` (from 0) are taken over exactly the probes whose code is 1; probe `i` sends the echo request with sequence `i`; when something was received, `rtt_min <= rtt_sum / packets_received <= rtt_max` |
| `Ping.LossPercent` | ping.c:216 | the loss percentage times the packets sent is 100 times the packets lost |
| `Ping.LossBounds` | ping.c:214-216 | the loss percentage is between 0 and 100, is 100 exactly when nothing was received and 0 exactly when everything was |
| `Ping.AverageBetweenMinAndMax` | ping.c:217-219 | when something was received, `rtt_min <= rtt_sum / packets_received <= rtt_max` |
| `Ping.MinIsAReceivedRtt` | ping.c:191-203 | if at least one probe was received, the reported minimum is one of the received RTTs, not the initial `DBL_MAX` |
| `Ping.MaxIsAReceivedRtt` | ping.c:191-204 | if at least one probe was received, the reported maximum is one of the received RTTs, not the initial 0 |
| `Ping.NoArrivalsNothingReceived` | ping.c:198-201 | when no wait ends with a datagram, nothing is counted as received |
| `Ping.AllArrivedAllReceived` | ping.c:198-201 | when every wait ends with a datagram, every probe is counted as received |
| `Traceroute.IcmpOffset` | traceroute.c:122-123 | the ICMP header offset is `ihl * 4` for IPv4 (a multiple of 4, at most 60), 0 otherwise |
| `Traceroute.IcmpTypeAfterHeader` | traceroute.c:121-132 | the type byte read is the first byte of the ICMP message, both after an IPv4 header of `ihl * 4` bytes and at the start of an ICMPv6 datagram, and it lies within the received bytes |
| `Traceroute.ReceiveIcmpReply` | traceroute.c:103-138 | -1 exactly on a `poll` or `recvfrom` failure, 2 exactly for type 0 (IPv4) or 129 (IPv6) at the ICMP offset, 1 exactly for type 11 or 3, 0 exactly on timeout, for another protocol or for any other type; the sender is written exactly for 1 and 2; the RTT exactly once a datagram arrived |
| `Traceroute.OnlyTheTypeByteMatters` | traceroute.c:125-134 | arrivals that agree on the type byte are classified alike, whatever their code, identifier, sequence or payload |
| `Traceroute.IPv4HeaderIsSkipped` | traceroute.c:121-127 | for an IPv4 header of `ihl * 4` bytes followed by an ICMP message, the first byte of that message decides the result |
| `Traceroute.FailureBeforeAnyByte` | traceroute.c:103-116 | a failed `poll` yields -1 whatever the receive buffer would hold |

## Left out

- Socket creation and the `exit` on failure (ping.c:38-52, traceroute.c:42-57): operating-system I/O.
- `sendto`, `poll` and `recvfrom` are not modelled. A send is replaced by the datagram it would transmit. The outcome of a wait is an input (`Transport.WaitEvent`). So are the poll timeouts of 10000 ms (ping) and 1000 ms (traceroute).
- `clock_gettime` and the double-precision RTT formula (ping.c:116-117, traceroute.c:118-119): the RTT is an input `real` in milliseconds.
- Floating-point rounding is not modelled: `rtt_sum` and the loss percentage are exact `real` arithmetic.
- `inet_ntop` is a foreign call, so `sender_ip` is modelled as the sender's address value rather than its text.
- Argument parsing (`getopt`, `atoi`, `inet_pton`) and `getpid` are left out. The identifier is a parameter.
- `sleep` and flood mode are left out: they only delay the next probe.
- `printf` and `perror` output is left out.
- traceroute's `main` is empty and `MAX_HOPS` and `TIMEOUT` are never used, so there is no hop loop to model.
- The `id` parameter of both receivers is never read, so `Ping.ReceiveIcmpReply` takes none and neither receiver matches identifiers.
- Traceroute.ReceiveIcmpReply: for a datagram too short to hold the type byte at the offset the code reads, the C result depends on memory outside the received bytes; the model returns `ShortRead` instead of a code.
