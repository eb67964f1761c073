# A verified model of spotify-connect-scrobbler

This Dafny project models the parts of spotify-connect-scrobbler (a Spotify Connect listener built on librespot that
reports plays to Last.fm) that compute or keep state of their own, and proves what they guarantee:

- `Codec.dfy`: the encrypted packet codec of an access-point connection. The stream cipher is any lawful byte transducer.
- `MercuryPackets.dfy`, `Mercury.dfy`: Mercury packets, requests, reassembly of interleaved messages, completions and
  subscriptions.
- `CrcTable.dfy`, `Crc.dfy`, `Polynomials.dfy`, `CrcTheory.dfy`: the table-driven `cksum` of the protocol build script,
  and the polynomial arithmetic it stands for.
- `Scrobbler.dfy`: the application's own state machine, from "a new track is playing" to "a scrobble was sent".
- `Int128.dfy`, `SpotifyId.dfy`, `DiffieHellman.dfy`: the hand-written 128-bit integer, the identifiers read and printed
  with it, modular exponentiation and the key agreement.
- `Channel.dfy`, `Authentication.dfy`, `Restrictions.dfy`: the channel header and data streams, the credentials blob and
  the country restrictions.
- `Bytes.dfy`, `Wrappers.dfy`: bytes, big-endian numbers, the draining buffer, and an option type.

`dafny verify dfyconfig.toml` checks everything.

How the model is built:

- An object that the code updates is a class with the same fields. Each of its methods is proved equal to a function on a
  snapshot of those fields, and the theorems are about those functions, over all runs.
- Machine integers follow the release build (`Dockerfile:5`): `+` on `u16`, `u32` and `u64` wraps, casts keep the low
  bits, shifts drop what leaves the word. `/` and `%` are only used on numbers that are not negative.
- A panic is a precondition, or a `None` result where it matters when it comes (`Mul`, `FromBase16`, `FromBase62`,
  `ReadPacket`, `ReadBlob`, `Search`, `Decide`), or a poll result (`Channels`).
- Futures, the network, clocks and other services are inputs: what a future answers when polled, what instant is read,
  when a packet arrives, which subscribers still listen, what the protobuf reader makes of a header, which bytes are
  random. A run goes on after an `Err` from the scrobbler's `poll`, as its caller does (`src/spirc.rs:198-206`).
- The strings of the country lists are their UTF-8 bytes, because that is where the code cuts them.
- History fields (`sent`, `announced`, `closed`, `issued`, `finished`, `completed`, `delivered`, the play numbers) record
  what has happened; the code's decisions never depend on them.

Findings that a reader of the code may not expect:

- A `u128` product that does not fit is not always caught. Without a panic the upper half of a limb product that
  straddles bit 128 may be dropped (`SilentOverflow`), or a carry of the wrapping sum of the rows (`SilentCarry`). `Mul`
  states exactly when the panic comes, and `ExactExactly` that the result is right if and only if the product fits.
- `powm` does not reduce a zeroth power, so it is wrong for exponent 0 modulo 1 and only there (`PowerIsRemainder`).
- The codec truncates the length of a payload of 65536 bytes or more; everything else comes back (`StreamRoundTrip`).
- A final Mercury packet without parts drops a part that was still open, and only such a packet does
  (`FinalPacketCloses`).
- Country lists with a dangling half code run together when they are concatenated: FRU and SDE forbid US
  (`HalfCodesRunTogether`). `AppendAgreesExactly` says for which first lists appending is harmless, and
  `RuleFollowedExactly` for which list lengths the decision follows the rule for every country and all letters: all have
  even length; or there are allowed lists, all of them empty, and the forbidden ones are of even length together.
- The nonce counters wrap together, so the codec needs no bound on the number of packets.

## Model

| member | source | states |
|---|---|---|
| Codec.ChunkingIrrelevant | core/src/connection/codec.rs:61-94 | for any bytes, valid or not, and any cutting into chunks, feeding the chunks gives the packets, final state and MAC failure that decoding the whole gives |
| Codec.StreamRoundTrip | core/src/connection/codec.rs:41-94 | however the encoded stream is cut, the decoder yields exactly the packets, nothing left over, no MAC failure, nonces in step, if and only if every payload length fits sixteen bits |
| Codec.PrefixYieldsPrefix | core/src/connection/codec.rs:61-94 | any prefix of an encoded stream decodes without failure to exactly the packets whose whole frames it holds |
| Codec.AcceptedIsEncoded | core/src/connection/codec.rs:61-94 | bytes decoded without failure are the encoding of the reported packets followed by exactly the incomplete packet still held, whose bytes are the end of the input; the nonce has advanced by the headers read |
| Codec.DecodeAllSplit | core/src/connection/codec.rs:61-94 | decoding a concatenation is decoding the first part and going on from the state and bytes it left |
| Codec.FrameRoundTrip | core/src/connection/codec.rs:41-94 | one encoded packet followed by anything decodes to that packet, leaves the rest and advances the nonce once |
| Codec.DecodedPacketsFit | core/src/connection/codec.rs:73-74 | a decoder never reports a payload of 65536 bytes or more, whatever it is fed |
| Codec.APCodec.Encode | core/src/connection/codec.rs:41-59 | appends one encoded frame, made under the current nonce, and advances only the sending half |
| Codec.APCodec.WriteAll | core/src/connection/codec.rs:41-59 | encoding packets one by one appends the encoded stream and advances the nonce by their number, modulo 2^32 |
| Codec.PacketOnTheWire | core/src/connection/codec.rs:41-59 | each packet adds its command, its big-endian length and its payload, encrypted under the nonce of its place modulo 2^32, and a MAC of four bytes |
| Bytes.U16BigEndian | core/src/connection/codec.rs:46 | sixteen-bit fields put the byte that weighs 256 first and keep the low sixteen bits |
| Codec.APCodec.Decode | core/src/connection/codec.rs:61-94 | the in-place decoder computes the step the stream theorems are about, draining the buffer as it says |
| Codec.APCodec.Receive | core/src/connection/codec.rs:61-94 | buffering a chunk and decoding until nothing comes yields what the buffered bytes decode to |
| MercuryPackets.FragmentsRejoin | core/src/mercury/mod.rs:163-175 | the parts joined from framed packets are a message if and only if the packets carry that message cut into pieces |
| MercuryPackets.BytesConserved | core/src/mercury/mod.rs:163-175 | joining keeps every received byte, in order, in the finished parts or the open one |
| MercuryPackets.FinalPacketCloses | core/src/mercury/mod.rs:165-179 | a final packet leaves a part open, which completion drops, exactly when it has no part and one was open |
| MercuryPackets.JoinedExactly | core/src/mercury/mod.rs:163-175 | what one packet does to a message, in closed form: the first part is joined to the open one, and under flags 2 the last stays open |
| MercuryPackets.RequestRoundTrip | core/src/mercury/types.rs:56-80 | the packet reader undoes the request writer, nothing left over, if and only if every length fits sixteen bits |
| MercuryPackets.PacketOnTheWire | core/src/mercury/types.rs:56-80 | the bytes of a packet written out: every length in two bytes, the greater first, then the sequence, the flags, the count and the parts |
| MercuryPackets.PacketExactly | core/src/mercury/mod.rs:139-187 | for any bytes: a packet is read exactly from its own bytes and whatever follows is left, if and only if its lengths fit |
| MercuryPackets.Encode | core/src/mercury/types.rs:56-80 | writes one packet with flags 1 whose parts are the header of the method, URI and content type, and then the payload |
| Mercury.RunRefinesOwn | core/src/mercury/mod.rs:139-187 | over every run, what one sequence number holds and has finished depends only on its own requests and packets, folded in order |
| Mercury.InterleavedMessageArrives | core/src/mercury/mod.rs:139-187 | a message in any well-formed fragmentation, interleaved with anything, is completed once, with exactly its parts: from the empty entry of a request, or from nothing if its first packet is a push |
| Mercury.PushArrives | core/src/mercury/mod.rs:148-187 | a push whose number has no entry starts from nothing and is completed with exactly the parts sent |
| Mercury.IncomingExactly | core/src/mercury/mod.rs:139-229 | what a packet does, written out: nothing without an entry unless the command is 0xb5; otherwise it is joined, and flags 1 complete the message by its status |
| Mercury.ReceivableExactly | core/src/mercury/mod.rs:177-191 | the packets that do not panic: only a final packet that belongs to a message needs a readable first part |
| Mercury.RequestExactly | core/src/mercury/mod.rs:47-68 | a request opens an empty entry under its number in eight big-endian bytes and touches no other |
| Mercury.RequestAnswered | core/src/mercury/mod.rs:139-229 | from any state whose finished messages have been answered, the request waiting under that number gets the parts after the header, or an error for a status of 400 or more |
| Mercury.RequestAnsweredOnce | core/src/mercury/mod.rs:139-229 | in every run from the start, a request whose answer arrives in any fragmentation is completed exactly once, with exactly that answer or error, and not at all if the answer comes as a push |
| Mercury.IssuedRequestAnswered | core/src/mercury/mod.rs:47-229 | from the request to its answer: the n-th request of a run, answered under n in any well-formed fragmentation before 2^64 further requests, is completed exactly once with that answer or error |
| Mercury.CallbacksCompletedOnce | core/src/mercury/mod.rs:139-229 | in every run, also after the numbers have wrapped around, a callback waits under its own number, is completed at most once, and gets a response only for a status below 400 and no push |
| Mercury.OnlyFinalPacketsComplete | core/src/mercury/mod.rs:177-229 | a callback is completed only by a final packet bearing the number it waits under, with an error exactly for a status of 400 or more |
| Mercury.SequenceBytesInjective | core/src/mercury/mod.rs:48-52 | two sequence numbers have the same bytes exactly when they agree modulo 2^64 |
| Mercury.SequenceValue | core/src/mercury/mod.rs:48-52 | the eight bytes are the number modulo 2^64, the greatest byte first |
| Mercury.PushReachesSubscribers | core/src/mercury/mod.rs:205-224 | a push reaches exactly the matching listeners and forgets exactly the matching subscribers that no longer listen |
| Mercury.PushKeepsOrder | core/src/mercury/mod.rs:205-224 | deliveries and remaining subscriptions follow the order of the subscriptions |
| Mercury.PushDelivered | core/src/mercury/mod.rs:189-229 | the last packet of a pushed message delivers the parts after the header to the subscribers of the moment exactly if the status is below 400 |
| Mercury.SubscriberHears | core/src/mercury/mod.rs:113-133 | a channel that subscribes and goes on listening is delivered every later push to a URI the response listed, or to the requested one if none was listed, whatever happens in between |
| Mercury.MercuryManager.FinishSubscribe | core/src/mercury/mod.rs:113-133 | adds a subscription for each listed URI in order, or one for the requested URI, and changes nothing else |
| Mercury.MercuryManager.SendRequest | core/src/mercury/mod.rs:54-73 | a request opens an entry under the next number and sends its packet with that number under command 0xb2, 0xb3 or 0xb4 |
| Mercury.MercuryManager.NextSeq | core/src/util/mod.rs:115-124 | returns the current number as eight bytes and moves to the next |
| Mercury.MercuryManager.Dispatch | core/src/mercury/mod.rs:139-182 | reading the buffer and updating the map in place is the packet step of the runs; packets that belong to nothing change nothing |
| Mercury.MercuryManager.JoinParts | core/src/mercury/mod.rs:163-175 | the loop over the parts joins exactly the parts in the buffer |
| Mercury.MercuryManager.ParsePart | core/src/mercury/mod.rs:184-187 | takes one length-prefixed part off the buffer |
| Mercury.MercuryManager.CompleteRequest | core/src/mercury/mod.rs:189-229 | completes the callback or delivers the push as the completion function says, and changes nothing else |
| Crc.Cksum | protocol/build.rs:23-38 | both loops together compute the complement of the remainder of the bits of the input and of its length octets, times x^32 |
| CrcTheory.ChecksumIsPosix | protocol/build.rs:23-38 | the checksum is r xor 0xffffffff for the only word r with message * x^32 = q * generator + r for a polynomial q, as the `cksum` utility of IEEE Std 1003.1 defines |
| CrcTheory.BitsExactly | protocol/build.rs:26-29 | the message is read byte after byte, the most significant bit first |
| CrcTheory.LengthOctetsExactly | protocol/build.rs:31-35 | the length follows in base 256, least significant octet first, in as few octets as it needs |
| CrcTheory.GeneratorExactly | protocol/build.rs:40-105 | the generator is x^32 + x^26 + x^23 + x^22 + x^16 + x^12 + x^11 + x^10 + x^8 + x^7 + x^5 + x^4 + x^2 + x + 1 |
| CrcTable.TableEntry | protocol/build.rs:40-105 | each of the 256 table entries is its index times x^32 reduced by the generator |
| Crc.TableStepIsDivision | protocol/build.rs:28-33 | one table step divides eight more bits |
| Crc.FeedIsRemainder | protocol/build.rs:26-37 | feeding bits at the top of the register is long division of the bits followed by thirty-two zeros |
| CrcTheory.UndetectedExactly | protocol/build.rs:23-38 | inputs of equal length have the same checksum if and only if their difference is a multiple of the generator |
| CrcTheory.BurstsDetected | protocol/build.rs:23-38 | inputs of equal length that differ only within any thirty-two consecutive bits have different checksums |
| CrcTheory.FourByteChangesDetected | protocol/build.rs:23-38 | inputs that differ only inside four consecutive bytes have different checksums |
| CrcTheory.FeedInjective | protocol/build.rs:27-35 | the same following bits keep different registers different |
| CrcTheory.RemainderUnique | protocol/build.rs:23-38 | a polynomial has only one remainder of degree below 32 |
| Scrobbler.ExactlyOnce | src/scrobbler.rs:84-293 | over every interleaving of updates, polls and answers, failures included, each finished play was scrobbled exactly once if it was described and lasted over 20 s, otherwise never; the current one at most once; which plays there were, how long and whether described is read off the inputs |
| Scrobbler.ScrobblesAsFetched | src/scrobbler.rs:119-149 | over every run, each scrobble sent and each now-playing message carries exactly the words that the first poll to describe its play has read from the fetch, for the track last named before that poll |
| Scrobbler.PlaysExactly | src/scrobbler.rs:84-117 | a play ends with every update that is forced or names another track than the update before, and with nothing else |
| Scrobbler.AgesExactly | src/scrobbler.rs:110-190 | a play lasted from the update that started it to the update that ended it |
| Scrobbler.UpdateExactly | src/scrobbler.rs:84-117 | an update in closed form: a due play is reported, the new one starts with nothing known of it |
| Scrobbler.PollExactly | src/scrobbler.rs:198-293 | a whole poll in closed form, its early returns resolved: every field after it, and exactly when it returns `Err` |
| Scrobbler.RunRecorded | src/scrobbler.rs:84-293 | over every run, track, start, described, reported, waiting and the ended plays follow from the inputs by the rules of a record that has no flag, futures, fetch or metadata |
| Scrobbler.DescribedExactly | src/scrobbler.rs:198-293 | a play had metadata when it was replaced if and only if some poll during it was held up neither by authentication nor by an unanswered scrobble and read an answer of the fetch |
| Scrobbler.ReplacedPlayReported | src/scrobbler.rs:84-117 | replacing a play in any reachable state leaves one scrobble of it exactly if it has metadata and is over 20 s old, and none otherwise |
| Scrobbler.ScrobblesTruthful | src/scrobbler.rs:110-190 | every scrobble carries metadata fetched for the track and in the play that was timed at over 20 s; present metadata belongs to the current play |
| Scrobbler.StaleScrobbleNeverFlags | src/scrobbler.rs:217-254 | between calls a scrobble in flight for an earlier play implies a pending new track, no metadata and a clear flag; the flag implies a scrobble in the current play |
| Scrobbler.PollReportsDuePlay | src/scrobbler.rs:198-239 | one poll of a described play over 20 s old leaves it scrobbled |
| Scrobbler.RunKeepsInv | src/scrobbler.rs:84-293 | every run, polls that return `Err` included, keeps the invariant that ties flag, future in flight, pending track, fetch, metadata and past scrobbles together |
| Scrobbler.Scrobbler.UpdateCurrentTrack | src/scrobbler.rs:84-108 | the update method is the update step of the runs |
| Scrobbler.Scrobbler.SetNewTrack | src/scrobbler.rs:110-117 | starts the next play: new track and start time, no metadata, no flag, a pending new track |
| Scrobbler.Scrobbler.StartScrobble | src/scrobbler.rs:144-155 | sends the present metadata and puts the call in flight, or clears the future when there is none |
| Scrobbler.Scrobbler.CanScrobbleTrack | src/scrobbler.rs:166-190 | due means not flagged, nothing in flight, and more than 20 s since the start |
| Scrobbler.Scrobbler.Poll | src/scrobbler.rs:198-293 | the poll method is the poll step of the runs |
| Int128.AddWraps | core/src/util/int128.rs:27-55 | addition with the carry test is addition modulo 2^128 |
| Int128.Mul | core/src/util/int128.rs:64-101 | the product modulo 2^128 whenever it returns, and it panics exactly when some limb product lies wholly beyond bit 128 |
| Int128.RowsSumToProduct | core/src/util/int128.rs:78-100 | without a panic the sixteen rows sum to the full product up to a multiple of 2^128 |
| Int128.FittingProductsReturn | core/src/util/int128.rs:67-101 | a product below 2^128 never panics |
| Int128.PanicExactly | core/src/util/int128.rs:78-95 | the panic stays away exactly if a factor of more than 32, 64 or 96 bits meets one of at most 96, 64 or 32 |
| Int128.ExactExactly | core/src/util/int128.rs:64-101 | a multiplication returns the product itself if and only if the product is below 2^128 |
| Int128.SilentOverflow | core/src/util/int128.rs:87 | a product of 2^128 that does not panic, because the upper half of a limb product is shifted out |
| Int128.SilentCarry | core/src/util/int128.rs:27-55 | a product beyond 2^128 that does not panic although nothing is shifted out: the wrapping sum of the rows drops the carry |
| SpotifyIds.FromBase16 | core/src/util/spotify_id.rs:15-27 | reads a numeral of any length as the identifier of its positional value modulo 2^128, panicking only on a character that is no digit |
| SpotifyIds.FromBase62 | core/src/util/spotify_id.rs:29-41 | the same in base 62 |
| SpotifyIds.PositionalSnoc | core/src/util/spotify_id.rs:15-41 | a further digit multiplies the value by the base and adds its own |
| SpotifyIds.Base16Digit | core/src/util/spotify_id.rs:9-11 | the sixteen digits and their values, letters in lower case only |
| SpotifyIds.Base62Digit | core/src/util/spotify_id.rs:9-11 | the sixty-two digits and their values: decimal, lower-case, upper-case |
| SpotifyIds.ToBase16 | core/src/util/spotify_id.rs:52-65 | filling the array from both halves prints the thirty-two hexadecimal digits of the value |
| SpotifyIds.Base16RoundTrip | core/src/util/spotify_id.rs:15-65 | reading what is printed for an identifier gives that identifier; printing what is read from a string gives the string back exactly when it has thirty-two digits |
| SpotifyIds.FromRaw | core/src/util/spotify_id.rs:43-50 | the identifier whose value is the sixteen bytes, most significant first |
| SpotifyIds.ToRaw | core/src/util/spotify_id.rs:67-77 | the sixteen bytes of the value, most significant first |
| SpotifyIds.RawRoundTrip | core/src/util/spotify_id.rs:43-77 | the two undo each other, both ways, on identifiers and on bytes |
| SpotifyIds.RawPrintsBytewise | core/src/util/spotify_id.rs:43-91 | the hexadecimal form of a big-endian number is the two digits of each byte in turn, for identifiers and file identifiers alike |
| DiffieHellman.Powm | core/src/util/mod.rs:53-67 | square-and-multiply computes b^e mod m, a zeroth power being 1 |
| DiffieHellman.PowerIsRemainder | core/src/util/mod.rs:53-67 | the result is b^e mod m if and only if not both e = 0 and m = 1 |
| DiffieHellman.Round | core/src/util/mod.rs:58-64 | a round of the loop keeps result * base^exp modulo the modulus |
| DiffieHellman.SharedSecretsAgree | core/src/diffie_hellman.rs:29-50 | for all private keys both parties derive the same bytes, those of (2^a)^b modulo the prime of section 6.1 of RFC 2409 |
| DiffieHellman.KeysExactly | core/src/diffie_hellman.rs:29-50 | the public key is 2 to the random bytes and the secret the received number to the random bytes, both modulo the prime |
| DiffieHellman.PrimeExactly | core/src/diffie_hellman.rs:7-21 | the prime is the number given in section 6.1 of RFC 2409 |
| DiffieHellman.ToBytesRoundTrip | core/src/diffie_hellman.rs:41-50 | numbers survive the conversion to bytes and back |
| DiffieHellman.ToBytesMinimal | core/src/diffie_hellman.rs:41-50 | no leading zero byte, except that zero is one zero byte |
| Channels.GapsIrrelevant | core/src/channel.rs:71-139 | for any packets, what polling to the end emits and how it ends do not depend on when the packets arrive |
| Channels.StreamReceived | core/src/channel.rs:71-139 | a well-formed stream, headers grouped anyhow, comes out as its headers, its data and then its end or its error, in order |
| Channels.DataHalf | core/src/channel.rs:141-159 | for any packets, the data half sees the same stream and ending with the headers left out |
| Channels.StreamDataReceived | core/src/channel.rs:141-159 | through the data half exactly the data packets of a well-formed stream come out, then its end or its error |
| Channels.HeaderPolled | core/src/channel.rs:110-122 | a header is its big-endian length, counting the identifier, then the identifier and the header |
| Channels.PanicExactly | core/src/channel.rs:71-139 | exactly when a poll panics: a closed channel, bytes too short for their length or following a zero length, an error packet without its code |
| Channels.PollLeaves | core/src/channel.rs:71-139 | failing and ending close the channel; waiting has at most moved on from the headers |
| Channels.Channel.RecvPacket | core/src/channel.rs:71-88 | takes the next packet if there is one; an error packet closes the channel |
| Channels.Channel.PollChannel | core/src/channel.rs:101-138 | the looping poll is the single poll the stream theorems are about |
| Channels.ChannelData.PollData | core/src/channel.rs:145-158 | polls past headers to the next data, end, failure or wait |
| Authentication.UnchainInPlace | core/src/authentication.rs:100-103 | the backward in-place loop replaces every byte after the first block by its xor with the byte one block earlier, all as they were before |
| Authentication.UnchainedExactly | core/src/authentication.rs:100-103 | the first sixteen bytes stay; every later one is combined with the one sixteen places earlier |
| Authentication.UnchainChained | core/src/authentication.rs:100-103 | that undoes forward chaining, for every buffer |
| Authentication.ChainUnchained | core/src/authentication.rs:100-103 | and every buffer arises by chaining from what the loop makes of it |
| Authentication.NumberRoundTrip | core/src/authentication.rs:49-57 | every number below 32768 reads back from its one- or two-byte form |
| Authentication.NumbersAreShort | core/src/authentication.rs:49-57 | no number of 32768 or more can be read |
| Authentication.ReadIntExactly | core/src/authentication.rs:49-57 | for any bytes: one byte below 128, or seven bits of the first and eight of the second, or the end of the stream |
| Authentication.ReadBytesExactly | core/src/authentication.rs:59-65 | a field is read exactly if its length is and that many bytes follow |
| Authentication.ChainedBlobRoundTrip | core/src/authentication.rs:100-121 | a serialized and chained blob gives back its type and data, whatever the tags, the name and the padding |
| Authentication.WithBlob | core/src/authentication.rs:89-121 | unchains in place, reads the fields in order and fails where a read or the type fails |
| Restrictions.StrChunks.Next | core/src/util/mod.rs:81-93 | cuts off the next chunk until nothing is left; a chunk that is too short or ends inside a character panics |
| Restrictions.CountrylistContains | metadata/src/lib.rs:20-22 | the loop over the chunks is the search that the next rows describe, for every list |
| Restrictions.SearchMeaning | metadata/src/lib.rs:20-22 | for every byte list: true exactly if the country is a code before which every chunk can be cut, false exactly if all can be cut and none is the country, otherwise a panic |
| Restrictions.SearchExactly | metadata/src/lib.rs:20-22 | the same of the bytes: codes start at the even places, and a place inside a UTF-8 character cannot be cut |
| Restrictions.AsciiSearch | metadata/src/lib.rs:20-22 | an ASCII list panics exactly if it has odd length and does not list the country |
| Restrictions.AppendAgreesExactly | metadata/src/lib.rs:37-47 | whatever is appended to a list, a country is found in both together exactly if it is in one of them: this holds if and only if the first list has even length or lists the country |
| Restrictions.ListsAppendHalf | metadata/src/lib.rs:37-47 | after a dangling half code the appended list is read one byte off |
| Restrictions.ParseRestrictions | metadata/src/lib.rs:24-52 | for every sequence of restrictions: concatenates the lists that apply and decides by the three conditions in order, panicking where a search that is reached panics |
| Restrictions.ListsInOrder | metadata/src/lib.rs:33-47 | the lists that count are those of the restrictions that name the catalogue among theirs, in order |
| Restrictions.DecideExactly | metadata/src/lib.rs:49-51 | exactly when the decision is true and when it panics, the forbidden lists searched first |
| Restrictions.RestrictionsFollowRule | metadata/src/lib.rs:24-52 | restrictions with whole ASCII codes: available exactly if some restriction of the catalogue has a list, none forbids the country, and one allows it if any allows at all |
| Restrictions.WholeCodesFollowRule | metadata/src/lib.rs:24-52 | lists that can be cut into whole two-byte codes are decided by the rule stated list by list: some list applies, none forbids, and one allows if any allows at all |
| Restrictions.RuleFollowedExactly | metadata/src/lib.rs:24-52 | the decision follows that rule for every country and all letters if and only if all lists have even length, or there are allowed lists, all empty, and the forbidden ones are of even length together |
| Restrictions.HalfCodesRunTogether | metadata/src/lib.rs:37-51 | restrictions forbidding FRU and SDE leave US available by the rule, and the decision refuses it |

## Left out

- The Shannon cipher, SHA-1, HMAC, PBKDF2, AES and base64: the codec assumes only that the cipher is lawful
  (`LawfulCiphersExist` shows one), the blob is taken as decrypted; nothing is claimed about secrecy or forgery.
- Protobuf messages: a header is what an abstract writer and reader make of it, its size the number of bytes written.
- The handshake, access-point resolution, sessions, TCP, command line, logging, caches and credential files.
- `src/spirc.rs`: updates may come with any track, any force flag and at any time.
- The wait of `subscribe` for its response: in a Mercury run a subscription may be finished at any time, with any response.
- `ChannelManager`, the header half of a split channel and the lock shared by the halves: they add bookkeeping around
  the poll that is modelled.
- `core/src/audio_key.rs`, `core/src/mercury/sender.rs`, `core/src/util/subfile.rs`: simpler forms of what is modelled.
- The panic of a scrobbler future that is polled again after it has failed: the runs allow it any answer instead.
- Polling a channel again after it has failed or ended, and decoding on after a wrong MAC.
- Tracks without artists, and channels whose sender is gone: both panic.
- Instants that run backwards: every event of a scrobbler run is no earlier than the one before.
