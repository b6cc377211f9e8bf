# multicast_ping-rs: a Dafny model of the probe logic

`multicast_ping` is a small IPv6 multicast reachability tool. In server mode it joins a
multicast group and answers every datagram it receives with `"ACK:"` followed by the
received bytes, unicast back to the sender. In client mode it sends `"PING <seq>"` probes
to the group at a fixed interval and counts sends and replies.

This project models the deterministic logic of `src/main.rs`:

- **Address repair** (`AddressRepair`, `address_repair.dfy`): `try_fix_ipv6_str` splits the
  address text on `':'`, keeps every segment of at most four bytes, cuts every longer one
  into four-byte chunks (the last possibly shorter) with a `while` loop, and joins the
  pieces with `':'`. The text is modelled as bytes (`seq<uint8>`), as `seg.len()` and
  `as_bytes()` see it. `Repaired` is the specification function of the whole repair and
  `Chunks` that of one long segment. The method `ChunkSegment` (the `while` loop) is proved
  equal to `Chunks`, and the method `TryFixIpv6Str` (the `flat_map` pipeline) to `Repaired`.
  The lemmas prove these properties of the repair:
  - every output segment is at most four bytes long;
  - the output equals the input exactly when every input segment is short;
  - it only inserts separators;
  - a segment of n > 4 bytes becomes ⌈n/4⌉ pieces;
  - repairing twice is the same as repairing once;
  - the example in the source's comment comes out as stated.
- **Address parse with fallback** (`AddressParse`, `address_parse.dfy`): `parse_ipv6_addr`
  tries a direct parse, then a parse of the repaired text, and otherwise fails naming both
  texts. The standard library's `Ipv6Addr` parser is a function parameter `parse`.
- **Interface resolution** (`Interface`, `interface.dfy`): the `if_index` block of
  `run_server`. If no name is given, the index is 0. `CString::new` refuses a name that
  holds a NUL byte. A lookup result of 0 is an error. The platform call `if_nametoindex` is
  a function parameter `nameToIndex`.
- **Server replies** (`Server`, `server.dfy`): the receive loop with its 1500-byte buffer
  and the `"ACK:"` payload, sent back to the datagram's source.
- **Client sender** (`Client`, `client.dfy`): a `Sender` class with the sequence number
  and the sent counter and a `Step(sendOk)` method. `sendOk` says whether `send_to`
  succeeded. Its probe payload is `"PING "` followed by the number in decimal
  (`Bytes.Decimal`, proved injective).

Four points of `src/main.rs` that the model follows as written:

- No `ff00::/8` multicast check is made on the address.
- A numeric interface string is not taken as a literal index. Every name goes through
  `if_nametoindex`.
- The client keeps no per-peer reply map.
- A `recv_from` error in the server loop is not logged and skipped. The `?` returns it
  from `run_server`, so `Server.Serve` stops there and reports `failed`.

## Model

| member | source | states |
|---|---|---|
| `AddressRepair.Split` | src/main.rs:51-52 | `str::split(':')`: there is always at least one piece, and no piece contains the separator |
| `AddressRepair.JoinSplit` | src/main.rs:51-52 | joining (`Join`, `[String]::join` at line 70) the pieces of a split with the separator gives back the original text |
| `AddressRepair.SplitJoin` | src/main.rs:70 | splitting the join of one or more separator-free pieces gives back exactly those pieces |
| `AddressRepair.ChunksShape` | src/main.rs:58-65 | `Chunks`, the chunks the loop pushes: an n-byte segment gives ⌈n/4⌉ chunks; each has 1 to 4 bytes; all but the last have exactly 4; together they concatenate back to the segment |
| `AddressRepair.ChunkSegment` | src/main.rs:58-66 | the `while` loop, advancing `i` by 4 and pushing `bytes[i..min(i+4,len)]`, returns exactly the chunks of the segment |
| `AddressRepair.TryFixIpv6Str` | src/main.rs:48-71 | the split / `flat_map` / `join` pipeline returns exactly `Repaired(s)` |
| `AddressRepair.FixSegmentShape` | src/main.rs:54-66 | `FixSegment`, the `flat_map` closure: a segment of at most 4 bytes is kept unchanged; a longer one of n bytes becomes ⌈n/4⌉ ≥ 2 pieces, all but the last of 4 bytes and the last of 1 to 4; the pieces concatenate to the segment and hold no ':' when it holds none |
| `AddressRepair.FixSegmentsPieces` | src/main.rs:53-69 | `FixSegments`, the `flat_map` over all segments: every piece produced from colon-free segments is colon-free and at most 4 bytes long |
| `AddressRepair.FixSegmentsFlatten` | src/main.rs:58-65 | the pieces concatenate to the same bytes as the segments they came from |
| `AddressRepair.FixSegmentsCount` | src/main.rs:54-56 | there are never fewer pieces than segments; there are exactly as many iff every segment is short, and then the pieces are the segments, unchanged and in order |
| `AddressRepair.RepairedSegments` | src/main.rs:48-71 | `Repaired`, the text `try_fix_ipv6_str` returns: the ':'-separated segments of the repaired text are exactly the repaired pieces, each at most 4 bytes long |
| `AddressRepair.RepairedIdentity` | src/main.rs:54-56 | the repair returns its input unchanged iff no segment of the input is longer than 4 bytes |
| `AddressRepair.RepairedKeepsBytes` | src/main.rs:58-65 | taking every ':' out of the input and out of the output gives the same bytes |
| `AddressRepair.RepairedIdempotent` | src/main.rs:48-71 | repairing the repaired text changes nothing |
| `AddressRepair.RepairedJoin` | src/main.rs:51-70 | repairing a join of colon-free segments is the join of their repaired pieces |
| `AddressRepair.RepairedOneLongSegment` | src/main.rs:49-50 | an 8-byte segment in front of short segments is cut into its two halves, and nothing else changes |
| `AddressRepair.RepairedExample` | src/main.rs:50 | the example in the source comment: `ff12c909:3199:e8ba:6f6f:7d23:e6ae:d85d` becomes `ff12:c909:3199:e8ba:6f6f:7d23:e6ae:d85d` |
| `AddressParse.ParseIpv6Addr` | src/main.rs:73-85 | fails iff both the direct and the repaired parse fail, and the error names the original and the repaired text; a successful direct parse is the result; otherwise the parse of the repaired text is |
| `AddressParse.DirectParseWins` | src/main.rs:75-77 | when the direct parse succeeds, the result does not depend on what the parser does with the repaired text |
| `AddressParse.RetryAfterFailure` | src/main.rs:79-84 | when both parses fail, parsing the repaired text fails again, and its error names the repaired text twice (the repair is idempotent) |
| `AddressParse.RepairedParseAgrees` | src/main.rs:78-83 | when the direct parse fails and the repaired text parses, the original and the repaired text give the same result |
| `Interface.CStringNew` | src/main.rs:107 | `CString::new` succeeds iff the name has no NUL byte, and then keeps the name; otherwise it reports the position of the first NUL |
| `Interface.ResolveInterface` | src/main.rs:106-116 | no name gives index 0; a name without NUL whose lookup gives 0 is a not-found error naming the name; a name without NUL whose lookup is nonzero resolves to exactly that index; a name with a NUL gives an invalid-name error carrying the position of its first NUL |
| `Interface.ResolvedIndexZeroIffDefault` | src/main.rs:106-116 | a successfully resolved index is 0 iff no name was given |
| `Server.AckReplyEchoes` | src/main.rs:144-146 | `AckReply`, the reply payload: a reply is 4 bytes longer than the payload, and the payload can be read back from it |
| `Server.Truncated` | src/main.rs:133-136 | what `recv_from` leaves in the 1500-byte buffer is at most 1500 bytes, and a datagram that fits is kept whole; a longer one keeps exactly its first 1500 bytes |
| `Server.Serve` | src/main.rs:133-151 | the i-th reply is `"ACK:"` followed by the (truncated) i-th received datagram, addressed to that datagram's source; every datagram before the first receive error is answered, in order; the loop stops exactly at a receive error; every reply is at most 1504 bytes long |
| `Bytes.DecimalShape` | src/main.rs:211 | `Decimal`, the `{}` formatting of `seq`: the decimal text of a number is a non-empty string of digits, with a leading '0' only for zero |
| `Bytes.DecimalValue` | src/main.rs:211 | reading the decimal text back gives the number |
| `Bytes.DecimalInjective` | src/main.rs:211 | different numbers have different decimal texts |
| `Client.ProbeNumberRoundTrip` | src/main.rs:211 | `PingPayload`, `format!("PING {}", seq)`: the number can be read back from the payload `"PING <n>"` |
| `Client.PingPayloadInjective` | src/main.rs:211 | probes with different numbers have different payloads |
| `Client.Sender.constructor` | src/main.rs:190 | the sequence number and the sent counter start at 0, and no probe has been made |
| `Client.Sender.Step` | src/main.rs:209-217 | the sequence number goes up by 1 before the probe; the probe is `"PING <seq>"` with the new number; the sent counter goes up by 1 iff the send succeeded; the invariant `sent <= seq` is kept, with the k-th probe being `"PING k"` |
| `Client.RunSender` | src/main.rs:187-219 | over a run of send outcomes, the k-th probe (from 1) carries `"PING k"`, and the sent counter ends at the number of successful sends |
| `Client.ProbesIncreasing` | src/main.rs:210-211 | the probes of a run carry the numbers 1, 2, 3, … in order, so no two are the same |

## Left out

- Sockets and async plumbing are not modelled, because they are I/O and concurrency. This covers socket creation, bind, `join_multicast_v6`, `set_multicast_loop_v6`, `from_std`, the tokio runtime, `spawn`, `select!`, `ctrl_c` and `abort`. Receive outcomes and send outcomes enter the model as parameters.
- The reply task is spawned per packet. `Server.Serve` models the replies as made in receive order, so it does not capture that the replies run concurrently.
- A `send_to` failure of a reply is only logged, so the model records every reply as attempted.
- The counters are `AtomicUsize` with `Relaxed` ordering. They are modelled as plain fields, because the point of the atomics is concurrent access.
- The receiver task's counter and its error back-off (`sleep(10ms)`) are left out. The counter is only ever incremented by that separate task.
- The stats printer and the final summary are left out. They are floating-point percentages and console output.
- CLI parsing (`Args`/clap), `env_logger`, `log` and the `println!` notes are left out. They are external glue.
- The std `Ipv6Addr` parser and `libc::if_nametoindex` are foreign calls. They are function parameters of `ParseIpv6Addr` and `ResolveInterface`, and nothing about their grammar or behaviour is assumed.
- TryFixIpv6Str: does not model the panic of `String::from_utf8(...).unwrap()` when a chunk boundary splits a multi-byte UTF-8 character. The model works on bytes and returns the chunked bytes in that case too. The panic cannot happen on ASCII text.
- Client.Sender.Step: `seqNo` is an unbounded `nat`, so the `u64` overflow of `seq += 1` after 2^64 probes is not modelled. The same holds for the `usize` sent counter.
