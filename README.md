# TronLink websocket server: codec and server state in Dafny

This project models the two pieces of logic in the TronLink websocket server.

**The Base58Check address codec** (`utils.js`):
- `hexToBase58` appends a four-byte checksum to a hexadecimal address. The checksum is the first eight digits of the double SHA-256. The bytes are then written in base 58, using the Bitcoin alphabet.
- `decode58` reads base-58 text back into bytes.
- `base58ToHex` drops the last four decoded bytes and writes the rest in hexadecimal.
- `toHexString` gives the lowercase hexadecimal text of bytes.

**The server's state** (`server_ws.js`):
- the alert subscriptions, keyed by address and then by user id;
- the list of clients that receive price updates;
- the last published price;
- the height of the last processed block, and the store file that keeps it.

The model covers how these change on:
- a new connection;
- a START_ALERT message;
- an address alert;
- a price broadcast;
- a price update;
- a block;
- one step of the block loop.

The digit and byte arrays of the codec are sequences of unbounded integers. The loops run on those sequences as the source runs them. Every intermediate value stays below 2^15, so the source's 32-bit `>> 8`, `& 0xff`, `<< 8` and `| 0` are integer division, remainder and multiplication. The loop invariants carry the bounds that show this.

Connections are ids. The transport (`Transport.Network`) keeps, for each id, whether the socket is open and the log of payloads sent on it. The server's methods are proved against specification functions of the sockets' state before the call:
- `PrunedAll` and `Deliveries` for address alerts;
- `OpenOnly` and `Copies` for price broadcasts;
- `BlockAddresses` for blocks.

SHA-256 is a parameter: any function from text to 64 lowercase hexadecimal digits. The round trip holds whatever that function is.

Files:
- `wrappers.dfy`: `Option` and `Result`.
- `positional.dfy`: positional notation and the codec's multiply-add-carry loops.
- `utils.dfy`: the codec.
- `transport.dfy`: connections and payloads.
- `address_alerts.dfy`: subscriptions and alerts.
- `price_feed.dfy`: price broadcast.
- `block_scan.dfy`: block addresses and block progress.
- `server_ws.dfy`: the server class.

## Model

| member | source | states |
|---|---|---|
| Utils.AlphabetAscending | utils.js:3 | the alphabet has 58 characters in strictly ascending order |
| Utils.AlphabetDistinct | utils.js:3 | no character of the alphabet occurs twice |
| Utils.BuildIndexTable | utils.js:4-7 | the loop over the alphabet builds the table that maps each character to its position |
| Utils.IndexTable | utils.js:4-7 | every character of the alphabet maps to its position, and every key is an alphabet character at that position |
| Utils.AlphabetMapInverse | utils.js:3-7 | the reverse table and the alphabet are inverse to each other on the digits 0..57 |
| Utils.AlphabetExcludes | utils.js:3-7 | '0', 'O', 'I' and 'l' are not digits; '1' is digit 0 and the only character for it |
| Utils.HexDigit | utils.js:12 | `toString(16)` of a value below 16 is the lowercase digit of that value |
| Utils.ToBase16 | utils.js:12 | `toString(16)` of a byte is lowercase, one digit below 16 and two from 16 on, and the digits, most significant first, have the byte's value |
| Utils.ByteToHex | utils.js:12 | the padded, last-two-characters form of a byte is two lowercase digits whose value is the byte |
| Utils.ToHexString | utils.js:10-14 | the hexadecimal text of bytes is lowercase with two digits per byte |
| Utils.HexDecodeOfToHexString | utils.js:10-14 | reading the text of `toHexString` back as hexadecimal gives the bytes |
| Utils.HexDecode | utils.js:69 | `Buffer.from(s, 'hex')` gives one byte per digit pair, high digit first |
| Utils.HexDecodeAppend | utils.js:69 | the bytes of concatenated hexadecimal texts are the concatenated bytes |
| Utils.HexDecodeInjective | utils.js:10-14 | two lowercase hexadecimal texts with the same bytes are equal |
| Utils.ToHexStringOfHexDecode | utils.js:10-14 | on lowercase hexadecimal text, `toHexString` undoes the hexadecimal reading |
| Utils.DigitsOfChars | utils.js:95 | the digits spelt with the alphabet read back as the same digits |
| Utils.CharsOfDigitsOf | utils.js:26-31 | base-58 text read as digits and spelt again is the same text |
| Utils.LeadingOnes | utils.js:95 | spelt digits have as many leading '1' characters as the digits have leading zeros |
| Utils.Base58ValueSnoc | utils.js:26-31 | each further character multiplies the value read so far by 58 and adds its digit |
| Utils.DecodedFails | utils.js:23-28 | decode58 of empty text gives no bytes, and it fails exactly when some character is outside the alphabet |
| Utils.DecodedFailsAt | utils.js:28 | one character outside the alphabet is enough for decode58 to fail |
| Utils.DecodedValue | utils.js:26-51 | decoded bytes have the value of the text, and one leading zero byte per leading '1', never counting the last character |
| Utils.EncodedValue | utils.js:70-95 | encoded text uses only alphabet characters, has the value of the bytes, and has one leading '1' per leading zero byte, never counting the last byte |
| Utils.DecodeEncode | utils.js:22-52 | decoding the base-58 text of a nonempty buffer gives the buffer back |
| Utils.EncodeDecode | utils.js:70-95 | encoding the decoding of nonempty base-58 text gives the text back |
| Utils.EmptyBufferRoundTrip | utils.js:92-93 | the empty buffer encodes as "1", which decodes to one zero byte, so it is the one buffer the round trip misses |
| Utils.Decode58Round | utils.js:30-45 | one round for a character turns the canonical bytes of value v into those of v * 58 + digit |
| Utils.Base58Round | utils.js:73-89 | one round for a byte turns the canonical base-58 digits of value v into those of v * 256 + byte |
| Utils.Base256Digits | utils.js:25-46 | the rounds over the text, from its first character, give the canonical little-endian bytes of its base-58 value, and fail exactly when some character is outside the alphabet |
| Utils.Decode58 | utils.js:22-52 | the loops of decode58 compute the decoding, the empty result or the error |
| Utils.DecodedFromDigits | utils.js:49-51 | the canonical bytes with one zero per leading '1', reversed, are the decoding |
| Utils.CheckedBuffer | utils.js:66-69 | the buffer is the bytes of the text followed by the four bytes of the first eight digits of the double SHA-256 |
| Utils.HexToBase58 | utils.js:65-96 | the method computes the Base58Check address of the text |
| Utils.Base58Digits | utils.js:70-90 | the rounds over the buffer, from its first byte, give the canonical little-endian base-58 digits of its big-endian value |
| Utils.Encode58 | utils.js:70-95 | the loops of hexToBase58 compute the base-58 text of the buffer |
| Utils.EncodedFromDigits | utils.js:92-95 | the canonical digits with one zero per leading zero byte, reversed and spelt, are the encoding |
| Utils.Base58ToHex | utils.js:54-63 | a decoding error passes through; no more than four bytes give null; otherwise the result is the lowercase hexadecimal of all but the last four bytes |
| Utils.Base58CheckRoundTrip | utils.js:54-96 | for nonempty lowercase hexadecimal text, base58ToHex of hexToBase58 gives the text back, whatever the hash |
| Utils.EmptyHexRoundTrip | utils.js:56-59 | the address of the empty text holds only the checksum, so base58ToHex gives null for it |
| Utils.ChecksumIgnored | utils.js:54-62 | base58ToHex returns the data whatever four bytes follow it, so the checksum is never checked |
| Positional.ScaleDigits | utils.js:30 | multiplying every element by m multiplies the little-endian value by m (also utils.js:73-74) |
| Positional.PropagateCarry | utils.js:33-39 | the carry loop leaves only digits below the base, keeps the value with the final carry on top, and bounds the carry (also utils.js:78-84) |
| Positional.PushCarry | utils.js:41-45 | pushing the carry keeps the array as a prefix, adds the carry's value on top, and never pushes a zero top digit (also utils.js:86-89) |
| Positional.Normalize | utils.js:33-45 | carry loop then push loop: every element a digit, the same value, growth only by nonzero top digits (also utils.js:78-89) |
| Positional.MultiplyAdd | utils.js:30-45 | a whole round on canonical digits gives the canonical digits of value * m + d (also utils.js:73-89) |
| Positional.CanonUnique | utils.js:30-45 | trimmed digits are the canonical digits of their value, the form the rounds keep |
| Positional.SplitCanonical | utils.js:49-51 | any nonempty digit array is its leading zeros followed by the canonical digits of its value |
| Positional.ZerosThenCanon | utils.js:49-51 | zeros before canonical digits are the leading run and do not change the big-endian value |
| Transport.Network.Send | server_ws.js:69 | `ws.send` puts the payload at the end of that socket's log and changes no other socket |
| Transport.LiveAfterSend | server_ws.js:69 | sending does not open or close any socket |
| AddressAlerts.Subscribed | server_ws.js:58-60 | the pair now maps to the sender, the address's entry is created when missing, an earlier socket for the pair is replaced, and every other entry is unchanged |
| AddressAlerts.SubscribedIsAlerted | server_ws.js:58-60 | after subscribing, an open sender is alerted at least once for that address |
| AddressAlerts.AlertUsers | server_ws.js:80-92 | the loop over the address's user ids sends each open socket one event per user id it holds and keeps exactly the entries of open sockets |
| AddressAlerts.PrunedHolders | server_ws.js:80-91 | pruning keeps every user id of an open socket and none of a closed one |
| AddressAlerts.PrunedTwice | server_ws.js:78-94 | a second alert with the same open sockets removes nothing more |
| AddressAlerts.Deliveries | server_ws.js:72-76 | every event sent when alerting a list is an address event for an address of the list |
| AddressAlerts.DeliveriesCount | server_ws.js:72-94 | alerting distinct addresses sends a socket, for each address, exactly one event per user id it holds there if it is open, and none for addresses outside the list |
| AddressAlerts.NothingToAlert | server_ws.js:151-154 | alerting no address changes no subscription and sends nothing |
| PriceFeed.OpenOnly | server_ws.js:98-105 | the kept clients are open and no more numerous than before |
| PriceFeed.OpenOnlyCounts | server_ws.js:98-105 | the broadcast keeps each open client as often as it was listed, and no closed client |
| PriceFeed.OpenOnlyAllLive | server_ws.js:98-105 | a list of open clients is kept as it is |
| PriceFeed.OpenOnlyTwice | server_ws.js:98-105 | a second broadcast with the same open sockets removes nothing more |
| PriceFeed.SpliceStep | server_ws.js:103 | splicing out entry i of the partly filtered list leaves the entries from i on filtered and those before i in place |
| BlockScan.ContractsHexesNamed | server_ws.js:141-147 | an address is among the contracts' addresses exactly when one contract names it |
| BlockScan.TransactionsHexesNamed | server_ws.js:140-147 | an address is among the transactions' addresses exactly when one of their contracts names it |
| BlockScan.ImagesMembers | server_ws.js:144-146 | an address is converted from the block exactly when it is the conversion of an address the block mentions |
| BlockScan.Dedup | server_ws.js:150 | the keys hold the same addresses as the recorded list, each once |
| BlockScan.CollectedNamed | server_ws.js:138-150 | the addresses processBlock alerts are distinct, and are exactly the conversions of the owners and present recipients of the block's contracts |
| BlockScan.CollectedNone | server_ws.js:139 | a block without transactions alerts nothing |
| BlockScan.CollectAddresses | server_ws.js:138-150 | the loops over transactions and contracts record the block's addresses as keys, in first-mention order |
| BlockScan.RecordTransaction | server_ws.js:141-147 | the loop over one transaction's contracts records their addresses as keys after those already recorded, in order |
| BlockScan.RecordContract | server_ws.js:142-146 | one contract records its owner's address, and its recipient's address when one is present |
| BlockScan.Requests | server_ws.js:157-167 | the block loop makes one request per reply |
| BlockScan.RequestsInSequence | server_ws.js:157-173 | the i-th request is for the height after the stored one plus the blocks processed before it, so a height is asked for until its block arrives |
| BlockScan.RequestsFrom | server_ws.js:160-166 | from any step on, the loop asks for the height after the current one, then goes on from the next height; the blocks processed from that step on are this step's block, if it has one, plus those after it |
| BlockScan.NoSkips | server_ws.js:160-167 | consecutive requests are for the same height, or for the next one after a block arrived |
| ServerWs.Server.constructor | server_ws.js:13-26 | a new server has no price, no clients and no subscriptions, and it takes its height from the store file, or -1, so the stored height is not past the processed one |
| ServerWs.Server.LoadStore | server_ws.js:28-36 | the height is the stored one, or -1 when the store cannot be read |
| ServerWs.Server.SaveStore | server_ws.js:38-40 | a write that succeeds leaves the store file holding the current height. A write that fails before the file is opened leaves it as it was. A write that fails after the open leaves the file empty or cut short, so it cannot be read. Either failure is reported |
| ServerWs.Server.OnConnection | server_ws.js:42-47 | the new client, whose socket is open, is sent the last price, possibly null, and joins the end of the price list |
| ServerWs.Server.OnMessage | server_ws.js:49-66 | a START_ALERT subscribes the sender as `Subscribed` states; any other message, or text that does not parse, changes nothing |
| ServerWs.Server.SendPrice | server_ws.js:68-70 | the last price goes at the end of that socket's log |
| ServerWs.Server.BroadcastAddressAlerts | server_ws.js:72-76 | alerting each address in turn prunes the closed entries of the listed addresses and sends each socket the events `Deliveries` gives |
| ServerWs.Server.BroadcastAddressAlert | server_ws.js:78-94 | an address without an entry changes nothing; otherwise only its entry changes, to its open sockets, and each open socket gets one event per user id it holds |
| ServerWs.Server.BroadcastPrice | server_ws.js:96-106 | the list becomes its open clients in their order, and each socket gets the last price once per entry it had, if open |
| ServerWs.Server.UpdatePrice | server_ws.js:112-118 | a TRON quote with a positive update time becomes the last price and is broadcast; any other reply changes nothing and sends nothing |
| ServerWs.Server.ProcessBlock | server_ws.js:137-155 | the block's distinct addresses are alerted in first-mention order; with none, nothing changes |
| ServerWs.Server.UpdateBlocks | server_ws.js:157-173 | height + 1 is requested. A block with a header is processed and the height goes up by exactly one. If the store write then succeeds, the height is saved and the next step follows at once. If the write throws, the file keeps its old height, or is left unreadable when the write failed after the open, and the retry comes after 1000 ms. Any other reply, including a failed request, changes nothing and the retry comes after 1000 ms. In every case the stored height stays at or below the processed one, so a restart never resumes past a block that was not processed |
| ServerWs.Server.BlockLoop | server_ws.js:157-173 | as updateBlocks calls itself on the node's successive replies, it requests the heights `Requests` gives, the height rises by the number of blocks processed, and the stored height stays at or below the processed one |

## Left out

- HTTP requests (`axios`) are inputs. The block request's answer is the `fetch` parameter of `UpdateBlocks`. The ticker's answer is the `reply` of `UpdatePrice`.
- `setTimeout` and the self-rescheduling of `updatePrice` and `updateBlocks` are left out. `UpdateBlocks` is one step, and it returns the delay before the next step (0 or 1000 ms). `BlockLoop` runs the steps one after another, without the delays. The price interval comes from the settings file, which is not part of this model.
- The constructor does not start the price and block loops; those are `UpdatePrice` and `UpdateBlocks` (`BlockLoop`), called step by step.
- A failed price request stops the price loop in the source. The model has no loop to stop.
- `fs`, `JSON.parse` and `JSON.stringify` are left out:
  - the store file is `disk: Option<int>`, where `None` means missing or unreadable;
  - how a write to the store ends is the `WriteOutcome` input of `SaveStore` and `UpdateBlocks`: written, failed before the open, or failed after the open; a file a failed write left cut short is taken to be unreadable;
  - inbound messages arrive already parsed as `Inbound`;
  - payloads are datatypes, not JSON text;
  - the USD quote is opaque text.
- A store file that parses but has no `block` field is not modelled.
- `ServerWs.Server.UpdateBlocks`: about the store file, the model promises only that the stored height never passes the processed one. The source keeps no more than that. A failed write followed by one that succeeds moves the stored height from h to h + 2. A write that fails after the open leaves the file unreadable. A restart then resumes from -1 and processes, and alerts, every block again from height 0.
- A ticker reply whose `quotes` field is missing is not modelled.
- `console.log` and `console.error` output is left out.
- The websocket server is left out. A connection is an id, with an open flag and a log of sent payloads. A socket that is CONNECTING, CLOSING or CLOSED counts as not open, as `readyState === OPEN` does.
- Connections are ids rather than objects. The same id can appear in the price list and the subscriptions, which is what sharing one `ws` object means there.
- The unused `lastBlock` field and the unused `_getNowBlock` are left out.
- Plain-object keys such as `__proto__` are not modelled.
- Integer-like keys are not modelled. `Object.keys` lists them first, in numeric order. The model lists keys in first-insertion order; a base-58 address made only of digits would be listed differently.
- `AddressAlerts.AlertUsers`: the source deletes from the inner object while `for…in` visits it. The model returns the kept map, and `ServerWs.Server.BroadcastAddressAlert` stores it. The visit order is a choice among the keys, and the result does not depend on it.
- `BlockScan.CollectAddresses` requires well-formed blocks: every owner and every present recipient is even-length hexadecimal. On other text, `Buffer.from` with 'hex' is library-defined, and `BlockScan.Address` gives "" there.
- A malformed transaction makes `processBlock` throw, and the promise is never awaited. That path is not modelled.
- `Utils.HexToBase58` requires hexadecimal input for the same reason.
- SHA-256 (`jssha`) is a parameter. Its value never matters to the properties.
- `Utils.Base58CheckRoundTrip` is stated for lowercase, nonempty hexadecimal, because `toHexString` always writes lowercase. For the empty text the result is null (`Utils.EmptyHexRoundTrip`).
- The checksum is never verified by `base58ToHex` (`Utils.ChecksumIgnored`). This is how the source behaves, and the model keeps it.
