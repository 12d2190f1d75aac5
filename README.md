# myscreen.live rendezvous and signalling, in Dafny

myscreen.live shares a screen from a host browser to client browsers over
WebRTC. Both sides know a short phrase, such as `42 brave otter`, and
optionally a password. From these and the current UTC day they derive:

- a relay room name: SHA-512 of `phrase-DD-MM-YYYY`, base64, `=` removed,
  `+`→`_`, `/`→`-`, first 20 characters;
- a secretbox key: the first 32 bytes of SHA-512 of
  `DD-MM-YYYY-phrase[-password]`.

A client posts an *offer request* into the room: its box public key, sealed
under the secretbox key. The host answers with an *offer* boxed to that key
and carrying its own fresh public key. The client replies with a boxed
*answer*.

This project models two parts:

- the helpers of `www/src/util.ts`: the date string, the room name, the
  request key, the byte framing, and the fail-closed decoders of the three
  message kinds;
- the host's `SignalSocket` in `www/src/hostPage.ts`, together with the
  phrase and URL computations of `HostPage`.

`SignalSocket` keeps a list of offers waiting for an answer. It dispatches
every relay message to the request key first, then to the waiting offers in
list order. Each waiting offer leaves the list at its answer or at its
timeout, whichever comes first. The timeout closes its connection, and so
does a failure to set the answer as the remote description.

Modules:

- `Wrappers`, `Bytes`: the `Option` type, bytes, and `Take` (JavaScript
  `slice(0, n)`).
- `Base64`: the encoding of section 4 of RFC 4648, as tweetnacl-util's
  `encodeBase64`/`decodeBase64` implement it. The encoder always pads. The
  decoder rejects bad input where the library throws. The module proves the
  decode/encode round trip and the shape of the encoder's output alphabet.
- `Decimal`: JavaScript's `'' + n` for integers and its inverse.
- `UtcDate`: the UTC calendar fields of a `Date`. `setUTCFullYear` is
  modelled with JavaScript's rollover from 29 February to 1 March, and the
  next and previous day are defined.
- `Json`: the JSON values the messages carry, and the `x.key == null` test.
- `Nacl`: tweetnacl (hash, secretbox, box), UTF-8 and `JSON` as a record of
  function values. The predicate `Sound` states everything the proofs assume
  of them:
  - each opening inverts its sealing under the matching key and nonce;
    for box, this holds with the key pair swapped;
  - parsing inverts stringifying, and UTF-8 decoding inverts encoding;
  - the documented sizes (64-byte hash, 16-byte tag, 32-byte public keys).

  The size checks that make tweetnacl throw are modelled as `None`.
- `Util`: `www/src/util.ts`.
- `Signaling`: the `SignalSocket` class. Browser callbacks become methods of
  the class:
  - a relay message arrives;
  - ICE gathering completes;
  - the answer timer fires;
  - offer creation fails;
  - `setRemoteDescription` settles, with success or failure.

  Some fields record what the source does to the outside world: sent
  messages, scheduled timers, connections handed to the page, and (ghost)
  every `peerConn.close()`. The class invariant `Valid` says three things.
  The waiting list never holds an attempt twice. Each attempt is in at most
  one of four states: waiting, setting its remote description, connected,
  or closed. No connection is closed twice.
- `HostPage`: `regeneratePhrase`, `getClientUrl` and the dates of the three
  sockets `startShare` opens.

## Model

| member | source | states |
|---|---|---|
| Util.ConcatBytes | www/src/util.ts:5-10 | the result is `|a| + |b|` bytes long: its first `|a|` bytes are `a` and the rest are `b` |
| Util.SplitTail | www/src/util.ts:97-99 | `slice(0, -n)` and `slice(-n)` cut the bytes into a head of `length - n` and a tail of `n` bytes, which together are the input |
| Util.SplitConcat | www/src/util.ts:96-99 | `slice(0, -n)` / `slice(-n)` on `concatBytes(a, t)` with `n = |t|` give back exactly `a` and `t` |
| Util.SimpleUTCDateString | www/src/util.ts:124-131 | two digits for the day, `-` at position 2, two digits for the month, `-` at position 5, then the decimal year |
| Util.ParseSimpleUTCDateString | www/src/util.ts:124-131 | reading the date string back gives the UTC day, month (0-based) and year, so zero-padding loses nothing |
| Util.SimpleUTCDateStringInjective | www/src/util.ts:124-131 | two different days never share a date string |
| Util.RemoveAll | www/src/util.ts:119 | `replace(/=/g, '')` leaves no `=`, and every character it keeps comes from the input |
| Util.RemoveAllKeepsPrefix | www/src/util.ts:119 | if the first `k` characters contain no `=`, removing `=` keeps them in front |
| Util.ReplaceAll | www/src/util.ts:119 | a global one-character `replace` keeps the length, turns every `a` into `b` and keeps every other character in place |
| Util.Rewrite | www/src/util.ts:119 | after the three rewrites no `=`, `+` or `/` is left |
| Util.RoomNamePreimage | www/src/util.ts:118 | the hashed text is the phrase, `-`, then the date string |
| Util.SignalRoomName | www/src/util.ts:114-122 | the room name is at most 20 characters long, and its inputs are only phrase and date, never the password |
| Util.RoomNameShape | www/src/util.ts:114-122 | under sound primitives the name is exactly 20 characters of `[A-Za-z0-9_-]` with no `=`: it is the first 20 base64 characters of the hash with `+`→`_` and `/`→`-` |
| Util.RequestKeyPreimage | www/src/util.ts:90-91 | the hashed text starts with the date string, `-` and the phrase; it is exactly that when the password is empty, and otherwise `-` and the password follow |
| Util.OfferRequestEncryptionKey | www/src/util.ts:88-94 | under sound primitives the key is exactly `secretbox.keyLength` (32) bytes |
| Util.RequestKeyPreimageSeparatesPasswords | www/src/util.ts:90-91 | different passwords, the empty one included, give different hash inputs; with the empty password the input is just the date string, `-` and the phrase |
| Util.DescriptionJson | www/src/util.ts:108 | the object the sender stringifies has the `sdp` and `type` members the receiver tests, holding the description's text |
| Util.ParseSecret | www/src/util.ts:102 | `JSON.parse(encodeUTF8(secret))` fails when the bytes are not UTF-8 |
| Util.ParseSecretStringified | www/src/util.ts:102 | under sound primitives a stringified, UTF-8 encoded value parses back to itself |
| Util.RtcSdpEncrypted | www/src/util.ts:107-112 | sealing succeeds exactly when nonce and keys have the sizes tweetnacl demands; the output ends in the nonce |
| Util.RtcSdpDecrypted | www/src/util.ts:96-105 | input shorter than nonce + 1 gives `None`; a result exists only when the input is long enough to split and the box before the trailing nonce opened under the keys, and it has non-null `sdp` and `type` |
| Util.RtcSdpRoundTrip | www/src/util.ts:96-112 | what A seals to B opens, with the pair swapped, to the original description |
| Util.AnswerEncrypted | www/src/util.ts:32-35 | the answer is produced exactly when `rtcSdpEncrypted` succeeds |
| Util.AnswerDecrypted | www/src/util.ts:22-30 | bad base64 or a short message gives `None` (never an exception); a result exists only when the decoded box opened under the given keys, and it has `sdp` and `type` |
| Util.AnswerRoundTrip | www/src/util.ts:22-35 | `answerDecrypted(answerEncrypted(sdp, privA, pubB), privB, pubA)` returns `sdp` |
| Util.OfferEncrypted | www/src/util.ts:57-61 | the offer is produced exactly when `rtcSdpEncrypted` succeeds |
| Util.OfferDecrypted | www/src/util.ts:42-55 | bad base64 or fewer than 33 bytes gives `None`; the sender key in a result is the trailing 32 bytes, the box before it opened under that key and the recipient's private key, and the offer has `sdp` and `type` |
| Util.OfferRoundTrip | www/src/util.ts:42-61 | the recipient recovers the description and the sender's public key |
| Util.OfferRequestPlaintext | www/src/util.ts:82 | under sound primitives the plaintext parses back to an object whose `offerRequest` member is the base64 of the public key |
| Util.OfferRequestEncrypted | www/src/util.ts:80-86 | the output is valid base64 |
| Util.OpenOfferRequest | www/src/util.ts:66-73 | fewer than 25 bytes gives `None`; a result exists only when the secretbox opened under the key, the secret is UTF-8 JSON with a non-null string member `offerRequest`, and the result is that member base64-decoded |
| Util.OfferRequestDecrypted | www/src/util.ts:63-78 | bad base64 or a short message gives `None`; a result exists only when the secretbox opened under the key of this phrase, day and password, and the secret carries a non-null `offerRequest` string that decodes to the result |
| Util.OpenOfferRequestSealed | www/src/util.ts:66-73 | a sealed request frame opens to the requester's public key |
| Util.OfferRequestRoundTrip | www/src/util.ts:63-86 | with the same phrase, day and password, `offerRequestDecrypted(offerRequestEncrypted(...))` returns the public key |
| Nacl.SecretboxOpen | www/src/util.ts:69 | a nonce or key of the wrong size gives `None` (tweetnacl throws) |
| Nacl.BoxSeal | www/src/util.ts:110 | `nacl.box` succeeds exactly when the nonce and both keys have their sizes |
| Nacl.BoxOpen | www/src/util.ts:100 | a wrongly sized nonce or key gives `None` |
| Json.Member | www/src/util.ts:72 | for the member names the source tests (`offerRequest`, `sdp`, `type`), `x.key == null` is false exactly when `x` is an object with that member non-null, and the result is that member |
| Base64.Encode | www/src/util.ts:118 | the encoding is `4 * ceil(n / 3)` characters long (88 for a 64-byte hash) |
| Base64.Decode | www/src/util.ts:24 | only strings of complete four-character groups decode |
| Base64.DecodeEncode | www/src/util.ts:82-85 | decoding an encoding gives back the bytes |
| Base64.EncodeAlphabet | www/src/util.ts:118-119 | every output character is in the alphabet or is `=`, and `=` occurs only among the last two |
| Decimal.NatString | www/src/util.ts:126 | a natural number is written with at least one digit and nothing else: one digit exactly below 10, two exactly from 10 to 99 |
| Decimal.ParseNatString | www/src/util.ts:126 | the decimal text reads back as the number |
| Decimal.IntString | www/src/util.ts:130 | the year text starts with `-` exactly for negative years |
| Decimal.ParseIntString | www/src/util.ts:130 | the year text reads back as the year |
| Bytes.Take | www/src/util.ts:93 | `slice(0, n)` keeps the first `min(n, length)` elements |
| UtcDate.ShiftYears | www/src/hostPage.ts:137 | `setUTCFullYear(year + k)` keeps a valid date in year `year + k`: same month and day, except that 29 February becomes 1 March in a year that is not a leap year |
| UtcDate.DayStepIsNoYearShift | www/src/hostPage.ts:100-108 | the next and previous days differ from the day itself and from the day moved by one year either way |
| Signaling.IndexOf | www/src/hostPage.ts:181 | `indexOf` gives the first position holding the attempt, or -1 exactly when the attempt is not listed |
| Signaling.RemoveId | www/src/hostPage.ts:181-184 | index-then-splice removes one entry when the attempt is listed, and otherwise leaves the list as it is |
| Signaling.RemoveIdIsWithout | www/src/hostPage.ts:181-184 | with unique ids, index-then-splice equals keeping every other entry in order |
| Signaling.RemoveIdSpec | www/src/hostPage.ts:180-186 | removal takes out exactly that attempt, keeps ids unique, and a second removal changes nothing |
| Signaling.TryAnswer | www/src/hostPage.ts:160 | an entry's keys accept only a well-framed message whose box opens under the entry's private key and the requester's public key, and what they accept has `sdp` and `type` |
| Signaling.AppendFacts | www/src/hostPage.ts:194 | pushing the entry of an attempt not yet listed keeps ids unique and adds just that attempt |
| Signaling.RemovedEntryFacts | www/src/hostPage.ts:181-184 | removal drops exactly that attempt's id and adds no entry |
| Signaling.FirstAnswer | www/src/hostPage.ts:159-165 | the loop's choice is the first entry, in list order, whose keys decrypt the message; there is none exactly when no entry decrypts it |
| Signaling.Dispatch | www/src/hostPage.ts:152-167 | it is a new request exactly when the request key opens the message; otherwise it is the first decrypting answer; otherwise the message is dropped |
| Signaling.RequestShadowsAnswers | www/src/hostPage.ts:155-157 | a message that opens as a request is dispatched the same whatever answers are waiting |
| Signaling.SignalSocket.constructor | www/src/hostPage.ts:144-151 | the socket keeps phrase, date and password, is bound to the room of (phrase, date), and has nothing pending |
| Signaling.SignalSocket.Create | www/src/hostPage.ts:134-142 | the socket exists exactly when the relay connection opened; its date is the given date moved by `yearDiff` years, and its room is that date's room; it starts empty, with no attempt, waiting answer, sent message, timer, connection being set up, connection handed to the page, or close |
| Signaling.SignalSocket.OnOfferRequest | www/src/hostPage.ts:170-179 | a new attempt with a fresh key pair is recorded; nothing is listed, sent or closed |
| Signaling.SignalSocket.ClosePendingAnswer | www/src/hostPage.ts:180-186 | a listed attempt is closed once and removed; an unlisted one changes nothing; afterwards it is not listed, and the invariant holds |
| Signaling.SignalSocket.GatheringComplete | www/src/hostPage.ts:190-200 | a missing local description changes nothing; otherwise the entry is appended, one timer is scheduled and at most one offer is sent |
| Signaling.SignalSocket.TimerFired | www/src/hostPage.ts:196 | the timer closes and removes the attempt only if it is still listed; after a match it closes nothing |
| Signaling.SignalSocket.OfferCreationFailed | www/src/hostPage.ts:202-206 | a failure before gathering completes neither removes nor closes anything |
| Signaling.SignalSocket.OnAnswerReceived | www/src/hostPage.ts:211-217 | only the matched entry leaves the list, the others keep their order, and nothing is closed |
| Signaling.SignalSocket.RemoteDescriptionSet | www/src/hostPage.ts:217-218 | the connection is handed to the page, once |
| Signaling.SignalSocket.RemoteDescriptionFailed | www/src/hostPage.ts:219-222 | the connection is closed, for the first and only time |
| Signaling.SignalSocket.OnMessage | www/src/hostPage.ts:152-167 | the new state follows `Dispatch`: a new attempt for a request, removal of the first matching entry for an answer, and no change for anything else |
| HostPage.PhraseNumber | www/src/hostPage.ts:79 | the leading number is between 2 and 500 |
| HostPage.PhraseNumberOnto | www/src/hostPage.ts:78-79 | every number from 2 to 500 can come out |
| HostPage.WordAt | www/src/hostPage.ts:80-81 | the chosen word is from its list (index in bounds) when the list is not empty |
| HostPage.RegeneratePhrase | www/src/hostPage.ts:73-83 | the phrase starts with decimal digits followed by a space |
| HostPage.UpToSeparated | www/src/hostPage.ts:77-81 | the text before the first separator is the part written before it, when that part has no separator |
| HostPage.RegeneratedPhraseParts | www/src/hostPage.ts:73-83 | the phrase reads back as its parts: the text before the first space is the number, parsing to a value in [2, 500], followed by the two words |
| HostPage.LastIndexOf | www/src/hostPage.ts:70 | `lastIndexOf` gives the last position of the character, or -1 when it does not occur |
| HostPage.LastIndexOfSeparated | www/src/hostPage.ts:70 | the last `#` of `prefix + '#' + e`, where `e` has no `#`, is the one after the prefix |
| HostPage.Substring | www/src/hostPage.ts:70 | `substring(0, k)` is the first `k` characters, and `''` for `k = -1` |
| HostPage.DashedPhrase | www/src/hostPage.ts:69 | `replace(/ /gi, '-')` leaves no space and keeps the length; each space becomes `-` and every other character stays in place |
| HostPage.GetClientUrl | www/src/hostPage.ts:67-71 | the URL ends in `#` followed by the encoded phrase, and is at most the page URL, `#` and the encoded phrase long |
| HostPage.ClientUrlFragment | www/src/hostPage.ts:67-71 | the text after the URL's last `#` is the encoded phrase, and before it stands the page URL up to its last `#` (nothing if it has none) |
| HostPage.ClientUrlReplacesFragment | www/src/hostPage.ts:67-71 | building the URL from a client URL replaces only the fragment |
| HostPage.HostSocketDates | www/src/hostPage.ts:100-108 | as written, the sockets' dates are today and today moved by one year back and forward: same month and day, except that 29 February becomes 1 March |
| HostPage.RoomNamePreimageInjective | www/src/util.ts:118 | two days give two different room-name hash inputs |
| HostPage.HostSocketsMissAdjacentDays | www/src/hostPage.ts:100-108 | as written, no socket's date is yesterday or tomorrow, and no socket's room-name hash input is that of yesterday or tomorrow |
| HostPage.IntendedSocketDates | www/src/hostPage.ts:100 | the corrected dates: yesterday, today, tomorrow |
| HostPage.IntendedSocketDatesSymmetric | www/src/hostPage.ts:100 | with day steps, a client day is covered by the host exactly when the host day is covered by the client |
| HostPage.IntendedSocketsCoverClientDay | www/src/hostPage.ts:100-108 | with day steps, one of the host's room-name hash inputs is the client's exactly when the client's day is within one day of the host's |

## Left out

- NaCl cipher and hash internals, UTF-8 and `JSON` are not defined. They are function values, and `Sound` is assumed of them rather than proved. No concrete instance is given, so the model does not show that `Sound` can be satisfied.
- Authentication failure under a wrong key is not assumed. The model therefore does not prove that an answer can never be taken for a request, or one waiting offer's answer for another's. It proves only what the dispatch order does.
- `nacl.randomBytes`, `nacl.box.keyPair` and `crypto.getRandomValues` are randomness. Nonces, fresh key pairs and the three 16-bit values are parameters.
- `encodeURIComponent` is a parameter. The URL lemmas use only the fact that it writes no `#`.
- The contents of `words.json` are parameters. An empty list gives the text `undefined`, as in JavaScript.
- `WebSocket`, `RTCPeerConnection`, `setTimeout` and promise scheduling are I/O. Each callback is a method, and a sent message, a scheduled timer or a close is recorded in a field. The 60-second timeout value plays no part: `TimerFired` may be called at any time after the entry was listed.
- Adding the stream's tracks, the state-change logging and `console.error` are not modelled.
- `HostPage`'s DOM code is left out: the constructor, `show`, `reset`, `startShare` apart from its socket dates, and `stop`, which holds only TODOs. The page's `peerConns.push` is represented by `newClients`.
- `startShare` makes three `new Date()` values. The model takes them as one UTC day, so three reads that straddle midnight are not modelled.
- The time of day of a `Date` is not modelled, nor is the year range a `Date` can hold.
- Room names are compared through their hash inputs. SHA-512 is not defined and the name keeps only 20 characters, so the model does not exclude two days whose room names collide. The statements about which rooms a socket joins are about these inputs.
- Property names JavaScript inherits from prototypes, such as `length` on a string, are not modelled. `Json.Member` is exact for the names the source reads: `offerRequest`, `sdp` and `type`.
- `www/src/pubSub.ts`, `www/src/clientPage.ts`, `www/src/homePage.ts`, `www/src/index.ts` and the Go host under `host/` are not part of this model.
- Signaling.SignalSocket.GatheringComplete: requires that this is the attempt's first end-of-candidates event. A renegotiation that gathers again, and would push the same entry a second time, is not modelled.
- Signaling.SignalSocket.OnAnswerReceived: requires the entry to be listed. The source also tolerates an unlisted entry, but its only caller, the `onmessage` loop, always passes a listed one.
- Util.OpenOfferRequest: an `offerRequest` member that is not a JSON string is rejected. JavaScript would first turn a number into text and then try to decode it as base64.
- Signaling.SignalSocket.Create: keeps the source's year shift. The corrected day shift of the finding below is `HostPage.IntendedSocketDates`, which is not wired into `Create`.

## Findings

| source | as written | input that shows it | evidently intended | confidence | as-written member | corrected member |
|---|---|---|---|---|---|---|
| www/src/hostPage.ts:137 | `d.setUTCFullYear(d.getUTCFullYear() + yearDiff)` with `yearDiff` -1, 0, 1 gives sockets for the same day a year earlier, today and a year later | The host starts on 16 Oct 2026 at 23:59 UTC and listens on the rooms of `16-10-2025`, `16-10-2026` and `16-10-2027`. A client whose clock already reads 17 Oct 2026 hashes `phrase-17-10-2026`, an input none of the three sockets uses. | sockets for yesterday, today and tomorrow, as the comment at www/src/hostPage.ts:100 says | high that the comment states the intent; not executed | HostPage.HostSocketsMissAdjacentDays | HostPage.IntendedSocketsCoverClientDay |
