# rusnmp, modelled and proved in Dafny

`rusnmp` is an SNMP v1/v2c/v3 client with its own BER codec. This project models what its code computes and
proves properties of it: the codec from integers up to whole messages, the assembly and signing of SNMPv3
packets, the trap decoders, the walk over a subtree, and the counters behind identifiers, salts and
initialization vectors. `dafny verify dfyconfig.toml` checks everything. Nothing was executed.

## How it is built

* Readers are functions from the octets not yet consumed to a value and the octets left (`BerSpec`,
  `Messages`, `V3Messages`, `Traps`); writers are functions to octets. The mutable `BerEncoder` and
  `BerDecoder`, the loops of the codec, and the client classes are methods proved equal to these functions,
  on every input and for every error.
* The theorems are about the functions, so they hold of the methods.
* `Layout` writes every message a second time, from the standards alone, with literal tags and numbers and its own
  lengths. `LayoutFacts`, `LayoutValues` and `Conformance` compare the codec, the clients and the trap decoders with it,
  and the cryptographic steps with the bare primitives.
* Machine integers are ranges of `int` with the casts written out. `ToI32`, `ToU32`, `ToI64`, `ToU64` keep low bits.
* Digests, HMAC and ciphers are function values in a `Suite`; `Sound` states their output lengths and that
  decryption undoes encryption. A `Hasher` carries the octets it has absorbed.
* The peer is a `Network`: an arbitrary finite list of datagrams or errors, then silence. Whatever an agent does in
  a finite run is such a list, so results about every list are results about every agent.
* A conforming agent (`Agent`, `V3Wire`) is a reader of request octets and a condition on its replies. It knows of the
  client only the packets that the walk methods are proved to send.

## Main results

| Question | Result |
|---|---|
| When does a message survive the wire? | `Limits.MessageRoundTripExactly`, `Limits.ScopedRoundTripExactly`, `Limits.UsmRoundTripExactly`, `Limits.V3RoundTripExactly`: exactly when its contents stay below 2^24 octets, for any number of varbinds and any octets behind it |
| What does the wire lose? | `BerFacts.FaithfulOnWire`: a varbind list comes back unchanged exactly when its identifiers are encodable and no exception marker is collapsed to NULL |
| Are the octets those of the standards? | `LayoutFacts.MessageAgrees`, `LayoutFacts.V3Agrees`, `LayoutFacts.ScopedAgrees`, `LayoutFacts.TrapV1Agrees`, `Conformance.V3RequestLaidOut`; values under their tags `LayoutValues.ReadByTag`, digits by their weights `LayoutValues.IntegerOctets`, `LayoutValues.SubIdOctets` |
| Are requests signed and encrypted as the standards say? | `Conformance.RequestAuthentic`, `Conformance.RequestOpens`: on the packet's own octets, by HMAC and cipher |
| Does engine state follow the peer? | `Conformance.EngineStarts`, `Conformance.EngineFollows`, `Conformance.EngineStays` |
| Which identifiers are encodable, which octets canonical? | `Oids.OidRoundTrip` and `Oids.OidCanonical`, both exact |
| Is signing in place the same as encoding with the MAC? | `Placeholder.PatchingIsReencoding`: exactly when neither the encoded engine identifier nor the encoded user name contains a run of zeros as long as the placeholder (or the MAC is itself zeros); `Placeholder.ZeroNameTakesMac` shows it fail |
| Does a receiver get what was sent? | `V3Session.RequestDelivered`, all three security levels, through MAC, cipher and padding: if and only if the names are unmistakable (or the MAC is zeros) and the message is below 2^24 octets; `V3Session.MispatchedArrives` says what arrives otherwise |
| Which requests does an agent accept? | `V3Wire.RequestAccepted`: exactly those that sign in place, for names of any length; the packets of mistakable names do not decode or name another engine or user (`V3Session.MispatchedNames`), and a walk with them ends empty (`V3Wire.RefusedWalk`) |
| What does the client make of a reply? | `V3Session.MessageReceived`, for any header, security parameters, context and level; `V3Session.ProperReplyRefused` says when a correctly signed one is refused |
| What does a walk return? | `Walk.BulkWalkIsExact`, `Walk.NextWalkIsExact`; with an agent that sees only octets `Client.WireWalkIsExact` and, signed and encrypted, `V3Wire.V3WireWalkIsExact`; for hostile agents `Walk.WalkIsSafe`, `Walk.StepsAreSafe` |
| From which roots is it exact? | `Agent.WalkableRoots`: GETBULK from all but the single components 1 to 6, GETNEXT from encodable roots and [0], if and only if |
| Do the two families of decoders agree? | `Traps.V2TrapAgrees`, `Traps.V3TrapAgrees`, errors included |
| When do identifiers and initialization vectors repeat? | `Freshness.IdsRepeat`, `Freshness.AesIvsRepeat`, `Freshness.DesIvsRepeat`, `V3Wire.RunVectorsRepeat`, exact over all requests of a session; on the wire `V3Wire.VectorArrives`, `V3Wire.WalkVectorsDiffer` |

## Where the code and its descriptions part

* `send_request` says that it zeroes the authentication parameters of a reply before verifying it
  (src/v3_client.rs:204). It looks for a window that is already zero and writes zeros over it, so the reply is verified as
  received (`Placeholder.ZeroingIsIdle`, `V3Session.CheckedAsReceived`). Section 6.3.2 of RFC 3414 asks for the MAC of
  the message with that field zeroed. A correctly signed reply is therefore refused unless its MAC is the same over
  both (`V3Session.ProperReplyRefused`, with one suite that refuses every one: `V3Session.TellingRefuses`), while a
  reply without authentication parameters is always taken.
* The placeholder search is not tied to the authentication parameters: a user name of twelve zero octets receives
  the MAC instead and the field stays zero (`Placeholder.ZeroNameTakesMac`).
* A walk is documented to return everything under its root (src/client.rs:131-132). Of a root with a single component
  nothing is sent (`Client.SingleComponentsLookAlike`), so from [1] to [6] the walk may begin elsewhere and
  return nothing (`Agent.LostSubtree`, octet for octet `Client.LostOnWire`).
* Neither walk looks at the PDU type of a reply (src/v3_client.rs:310-329), so an agent's report that it refused the request ends
  the v3 walk with an empty subtree instead of an error (`V3Wire.RefusedWalk`).
* Version 1 traps are accepted with an INTEGER timestamp only; the TimeTicks of RFC 1157 is refused (`Traps.V1TrapRead`).
* A version 1 walk to the very end of a MIB gives the caller the agent's noSuchName instead of the entries
  (`Walk.NextWalkIsExact`), and no walk bounds the number of its requests (`Walk.RepeatingAgent`).

## Model

| member | source | states |
|---|---|---|
| Integers.EncodeIntegerBytes | src/codec.rs:114-130 | the stripping loops reach the recursively defined shortest two's-complement form of every i64 |
| Integers.EncodeUnsigned32 | src/codec.rs:479-481 | the same form for every u32 |
| Integers.EncodeUnsigned64 | src/codec.rs:483-497 | skipping zero octets and adding one back gives the shortest two's-complement form of every u64 |
| Integers.DecodeInteger | src/codec.rs:303-312 | the shift loop yields the low 64 bits of the two's-complement value of any octets, zero for none |
| Integers.DecodeUnsigned32 | src/codec.rs:314-320 | the shift loop yields the big-endian value modulo 2^32 |
| Integers.DecodeUnsigned64 | src/codec.rs:322-328 | the shift loop yields the big-endian value modulo 2^64 |
| Integers.IntegerRoundTrip | src/codec.rs:114-130 | every i64 survives encoding and decoding |
| Integers.IntegerCanonical | src/codec.rs:303-312 | no shorter octets decode to the same i64, and no others of the same length |
| Integers.IntBytesOfSigned | src/codec.rs:119-128 | octets whose first nine bits are not all equal are the encoding of their own value |
| Integers.UnsignedRoundTrip | src/codec.rs:314-328 | the unsigned readers restore exactly the values below 2^32 and 2^64 |
| Integers.UnsignedLength | src/codec.rs:479-497 | values with the top bit set take the five- and nine-octet forms with a leading zero, nothing takes more |
| LayoutValues.IntegerOctets | src/codec.rs:114-130 | every i64 is written as the weighted sum of its octets, sign by the first bit, never with nine equal bits in front |
| LayoutValues.SignedIsWeighted | src/codec.rs:303-312 | the value read is that sum, for any octets |
| LayoutValues.SubIdOctets | src/codec.rs:144-162 | sub-identifiers are written as weighted base-128 digits, all but the last flagged, without leading zero |
| LayoutValues.OidOctets | src/codec.rs:132-142 | the first octet of an encodable identifier is 40 times the first component plus the second |
| Octets.CastsKeepLowBits | src/codec.rs:314-328 | the casts differ from their operand by a multiple of 2^32 or 2^64 |
| Oids.EncodeSubId | src/codec.rs:144-162 | digits pushed, reversed and flagged are the recursively defined base-128 form, appended to what was there |
| Oids.EncodeOid | src/codec.rs:132-142 | first octet modulo 256 and all further sub-identifiers in order; nothing below two components |
| Oids.DecodeOid | src/codec.rs:330-353 | the nested loops compute the recursive reader, truncation error included |
| Oids.SubIdRoundTrip | src/codec.rs:144-162 | a sub-identifier reads back whatever follows it, and what follows is untouched |
| Oids.SubIdMinimal | src/codec.rs:339-349 | no octets that read as a sub-identifier are fewer than those written for it |
| Oids.OidOnWire | src/codec.rs:132-142 | what any identifier at all decodes to after encoding |
| Oids.OidRoundTrip | src/codec.rs:132-142 | identifiers survive exactly when empty, or when the second component is below 40 and the pair fits one octet |
| Oids.OidCanonical | src/codec.rs:330-353 | re-encoding restores octets exactly when no sub-identifier starts with 0x80, exceeds 32 bits or is truncated |
| Ber.BerEncoder.constructor | src/codec.rs:39-48 | a new encoder is empty |
| Ber.BerEncoder.Extend | src/codec.rs:54-56 | appends and nothing else |
| Ber.BerEncoder.WriteLength | src/codec.rs:95-111 | appends the length octets, low 24 bits at most |
| Ber.BerEncoder.WriteTagged | src/codec.rs:64-68 | appends one element |
| Ber.BerEncoder.WriteSequence | src/codec.rs:58-62 | appends one SEQUENCE element |
| Ber.BerEncoder.WriteInteger | src/codec.rs:70-75 | appends one INTEGER element in shortest form |
| Ber.BerEncoder.WriteOctetString | src/codec.rs:77-81 | appends one OCTET STRING element |
| Ber.BerEncoder.WriteNull | src/codec.rs:83-86 | appends the empty NULL element |
| Ber.BerEncoder.WriteOid | src/codec.rs:88-93 | appends one OBJECT IDENTIFIER element |
| Ber.BerEncoder.WriteValue | src/codec.rs:463-477 | appends the element of the value's own tag, NULL for the three markers |
| Ber.BerDecoder.constructor | src/codec.rs:172-174 | a cursor before all of its data |
| Ber.BerDecoder.Remaining | src/codec.rs:176-178 | the number of octets not consumed |
| Ber.BerDecoder.PeekTag | src/codec.rs:180-185 | the next octet, without consuming it, or the end-of-data error |
| Ber.BerDecoder.ReadTag | src/codec.rs:187-191 | consumes one octet or reports the end; the position never leaves the data or goes back |
| Ber.BerDecoder.ReadLength | src/codec.rs:193-213 | short and long forms, big-endian modulo 2^64, with both errors |
| Ber.BerDecoder.ReadRaw | src/codec.rs:215-222 | a contiguous slice that ends at the new position, or the too-short error |
| Ber.BerDecoder.ReadTlv | src/codec.rs:224-229 | one element, its contents a contiguous slice of the data |
| Ber.BerDecoder.ReadTlvWithHeader | src/codec.rs:232-240 | one element with its own header octets |
| Ber.BerDecoder.ReadInside | src/codec.rs:525-532 | the expected tag is checked before the length is read; a fresh cursor over the contents |
| Ber.BerDecoder.ReadSequence | src/codec.rs:242-250 | the same for SEQUENCE |
| Ber.BerDecoder.ReadInteger | src/codec.rs:252-258 | one INTEGER element, the tag checked after the element is read |
| Ber.BerDecoder.ReadOctetString | src/codec.rs:260-266 | one OCTET STRING element, likewise |
| Ber.BerDecoder.ReadOid | src/codec.rs:268-274 | one OBJECT IDENTIFIER element, likewise |
| Ber.BerDecoder.ReadValue | src/codec.rs:276-300 | one element as a value |
| Ber.DecodeValue | src/codec.rs:278-299 | the value of every tag, unknown tags and odd addresses as octet strings |
| Ber.BerDecoder.ReadVarBinds | src/codec.rs:539-546 | the loop that pushes varbinds terminates and computes the recursive list reader |
| Ber.EncodeVarBindList | src/codec.rs:451-461 | the loop concatenates the varbinds' elements in order |
| Ber.EncodeVarBindListNull | src/codec.rs:439-449 | the same with NULL under every identifier |
| BerFacts.LengthOnWire | src/codec.rs:95-111 | a reader sees the low 24 bits of any length written |
| BerFacts.TlvOnWire | src/codec.rs:224-229 | what any element reads back as, oversize ones included |
| BerFacts.TlvRoundTrip | src/codec.rs:64-68 | an element survives exactly below 2^24 octets of contents |
| BerFacts.TlvUnique | src/codec.rs:95-111 | two elements followed by anything are equal only part by part |
| BerFacts.TlvStable | src/codec.rs:224-229 | reading an element never looks behind its end |
| BerFacts.TlvTruncated | src/codec.rs:193-229 | every strict prefix of an element is unreadable |
| BerFacts.ValueRead | src/codec.rs:276-300 | every value reads back as its image on the wire, whatever follows |
| LayoutValues.ReadByTag | src/codec.rs:276-300 | a value of each kind is read from under its literal tag |
| LayoutValues.ReadAnyContents | src/codec.rs:276-300 | what any contents under any literal tag read as, wrong addresses and unknown tags included |
| LayoutValues.WriteByTag | src/codec.rs:463-477 | each kind of value is written under its literal tag |
| BerFacts.VarBindsRead | src/codec.rs:539-546 | by induction over both loops, any number of varbinds reads back |
| BerFacts.FaithfulOnWire | src/codec.rs:463-477 | the list is unchanged exactly when every varbind is faithful |
| Messages.EncodePdu | src/codec.rs:418-437 | GET and GETNEXT requests have the message layout, values NULL |
| Messages.EncodeGetBulkRequest | src/codec.rs:368-394 | GETBULK requests carry both counts in the status fields |
| Messages.EncodeSetRequest | src/codec.rs:397-416 | SET requests carry the varbinds |
| Messages.DecodeResponse | src/codec.rs:511-556 | the decoder computes the reader of responses, every error included |
| Messages.MessageRoundTrip | src/codec.rs:511-556 | any message read back from the response decoder, and the refusal of every other PDU tag |
| Messages.ResponseStable | src/codec.rs:511-513 | octets behind a message never change what is decoded |
| Messages.MessageTruncated | src/codec.rs:511-513 | every strict prefix of a message is refused |
| LayoutFacts.LengthAgrees | src/codec.rs:95-111 | below 2^24, length octets are those of section 8.1.3 of X.690 |
| LayoutFacts.BindingsAgree | src/codec.rs:439-461 | varbind lists are laid out as RFC 3416 says |
| LayoutFacts.MessageAgrees | src/codec.rs:368-437 | community messages are laid out as RFC 1157 and RFC 1901 say |
| Conformance.RequestsLaidOut | src/codec.rs:27-31 | the octets of GET, GETNEXT, GETBULK and SET requests |
| Conformance.WalkPacketLaidOut | src/client.rs:139-143 | the octets of a walk's requests, with their twenty repetitions |
| Conformance.ResponseUnderstood | src/codec.rs:511-556 | what a caller makes of a response so laid out |
| Limits.MessageRoundTripExactly | src/codec.rs:95-111 | the whole-message round trip holds if and only if the contents are below 2^24 octets |
| Limits.ScopedRoundTripExactly | src/v3.rs:436-461 | the scoped PDU round trip, if and only if |
| Limits.UsmRoundTripExactly | src/v3.rs:413-433 | the security parameters round trip, if and only if |
| Limits.V3RoundTripExactly | src/v3.rs:378-410 | the v3 message round trip, if and only if |
| Limits.ParamsSeen | src/v3.rs:511-513 | at any size, the security parameters are read up to what their length octets admit to |
| Limits.CutVarBinds | src/codec.rs:539-546 | a varbind list that lost its end never decodes to the list that was encoded |
| V3Messages.EncodeV3Message | src/v3.rs:378-410 | header, parameters and scoped PDU nested as laid out, in an OCTET STRING only when encrypted |
| V3Messages.EncodeUsmParams | src/v3.rs:413-433 | the six parameters in order inside a SEQUENCE |
| V3Messages.EncodeScopedPdu | src/v3.rs:436-461 | context and PDU in order inside a SEQUENCE |
| V3Messages.DecodeV3Message | src/v3.rs:494-542 | the decoder computes the reader of v3 messages, every error included |
| V3Messages.DecodeUsmParams | src/v3.rs:583-596 | empty parameters are defaults, others are read field by field |
| V3Messages.DecodeScopedPdu | src/v3.rs:545-580 | the decoder computes the reader of scoped PDUs |
| V3Messages.UsmRoundTrip | src/v3.rs:583-596 | all six parameters come back, u32 boots and time included |
| V3Messages.ScopedRoundTrip | src/v3.rs:545-580 | every field and varbind comes back, the two i32s reinterpreted as u32, trailing octets ignored |
| V3Messages.V3RoundTrip | src/v3.rs:516-525 | header and parameters come back; the scoped PDU if flag 0x02 agrees with how it was written, else its OCTET STRING with header, or the refusal of its tag |
| V3Messages.V3Stable | src/v3.rs:494-496 | trailing octets never change a decoded v3 message or scoped PDU |
| V3Messages.V3Truncated | src/v3.rs:494-496 | every strict prefix of a v3 message is refused |
| V3Messages.ScopedTruncated | src/v3.rs:545-547 | every strict prefix of a scoped PDU is refused |
| LayoutFacts.ParametersAgree | src/v3.rs:413-433 | security parameters are laid out as section 2.4 of RFC 3414 says |
| LayoutFacts.ScopedAgrees | src/v3.rs:436-461 | scoped PDUs are laid out as section 6 of RFC 3412 says |
| LayoutFacts.V3Agrees | src/v3.rs:378-410 | v3 messages are laid out as section 6 of RFC 3412 says |
| Placeholder.FindAuthPlaceholder | src/v3_client.rs:411-417 | the first all-zero window, none for an empty placeholder, none only if there is none |
| Placeholder.PacketLayout | src/v3.rs:387-433 | the packet is a prefix that knows the MAC only by its length, the MAC, and the rest |
| Placeholder.PrefixRuns | src/v3.rs:387-433 | nothing but engine identifier and user name can bring a run of zeros before the placeholder |
| Placeholder.PlaceholderFound | src/v3_client.rs:187 | the search hits the authentication parameters exactly for unambiguous names |
| Placeholder.PatchingIsReencoding | src/v3_client.rs:164-190 | the packet patched in place equals the encoding with the MAC, if and only if names are unambiguous or the MAC is zeros |
| Placeholder.PatchingWithFencedNames | src/v3_client.rs:164-190 | for names empty or of a length that 256 does not divide, if and only if neither contains such a run itself |
| Placeholder.PatchInsideParams | src/v3_client.rs:187-189 | whatever the names, the MAC lands inside the security parameters |
| Placeholder.MacLands | src/v3_client.rs:187-189 | for such names, the first of engine identifier, user name and authentication parameters with a run of zeros takes the MAC |
| Placeholder.StruckParams | src/v3_client.rs:187-189 | with names of any length that can be mistaken, the patched security parameters never read as the same engine and user |
| Placeholder.ZeroNameTakesMac | src/v3_client.rs:187-189 | a user name of zeros arrives as the MAC, the authentication parameters as zeros |
| Placeholder.ZeroingIsIdle | src/v3_client.rs:203-209 | the zeroing step on a reply changes nothing |
| Crypto.PasswordToMasterKey | src/v3.rs:104-163 | the chunked loops hash exactly 1048576 octets of the repeated password |
| Crypto.KeyOfPassword | src/v3.rs:99-192 | the localized key by what is digested |
| Crypto.CycleJoins | src/v3.rs:118-127 | the repeated password does not depend on where chunks end |
| Crypto.LocalizeKey | src/v3.rs:165-192 | the digest of key, engine identifier and key |
| Crypto.PasswordToKey | src/v3.rs:99-102 | master key localized to the engine |
| Crypto.VerifyAuth | src/v3.rs:236-247 | the accumulating comparison accepts exactly the first 12 or 24 octets of the HMAC |
| Crypto.Encrypt | src/v3.rs:252-264 | ciphertext and privacy parameters of both protocols, by the cipher, the octets of the key, the vector's fields and the padding |
| Crypto.Decrypt | src/v3.rs:267-279 | plaintext by the cipher, the octets of the key and the vector's fields, or the error for parameters or data of a wrong length |
| Crypto.AesVector | src/v3.rs:338-342 | the AES vector is boots, time and privacy parameters, and nothing else is |
| Crypto.PrivacyParameters | src/v3.rs:288-291 | the privacy parameters carry boots and half the salt, or the salt |
| Crypto.FillDesIv | src/v3.rs:293-297 | the buffer loop masks the pre-IV octet by octet |
| Crypto.DecryptUndoesEncrypt | src/v3.rs:281-373 | decryption returns the data, under DES followed by fewer than eight zeros |
| Freshness.IdCycle | src/v3_client.rs:65-75 | from a non-negative start identifiers run round 1 .. 2^31 - 1 in closed form |
| Freshness.IdRange | src/client.rs:54-58 | identifiers stay in that range from every start, with the one exception named |
| Freshness.IdsRepeat | src/v3_client.rs:65-75 | two calls agree if and only if a multiple of 2^31 - 1 calls lies between them |
| Freshness.SaltsRepeat | src/v3_client.rs:77-80 | two salts agree if and only if a multiple of 2^64 calls lies between them |
| Freshness.AesIvsRepeat | src/v3.rs:338-342 | AES vectors agree if and only if boots, time and the call modulo 2^64 do |
| Freshness.DesIvsRepeat | src/v3.rs:288-297 | DES vectors under one key agree if and only if boots and the call modulo 2^32 do |
| Walk.Collect | src/client.rs:149-164 | the inner loop keeps exactly the leading varbinds in the subtree that are no markers, and says whether it stopped |
| Walk.KeptMeans | src/client.rs:151-160 | a varbind is kept if and only if it begins with the root's components and is none of the three markers |
| Walk.LessMeans | src/client.rs:152-156 | the order is decided by the first difference, prefixes first |
| Walk.WalkIsSafe | src/client.rs:134-168 | for any replies at all, results are an initial part of what was sent, in the subtree, free of markers |
| Walk.StepsAreSafe | src/v3_client.rs:340-367 | the same before every request, whatever happens later |
| Walk.RequestsFollowReplies | src/client.rs:138-164 | every request names the last varbind received, or the root |
| Walk.RepeatingAgent | src/client.rs:138-169 | an agent that repeats one varbind is asked again for every number of rounds |
| Walk.LaterRequest | src/client.rs:138-164 | each later request names the end of the reply before it |
| Walk.AskedIsEntry | src/client.rs:138-164 | after a legal reply the next request names an entry of the MIB that the reply brought |
| Walk.SubtreeContiguous | src/client.rs:152-156 | in lexicographic order a subtree, once left, never returns |
| Walk.SubtreeIsPending | src/client.rs:152-156 | the entries below the root are the initial run of those beyond it |
| Walk.ReplyTakesPending | src/client.rs:149-164 | every legal reply takes an initial part of what is pending, all of it when it stops the walk |
| Walk.BulkWalkIsExact | src/v3_client.rs:339-369 | against an ordered MIB and any batch sizes the walk ends and returns exactly the subtree |
| Walk.NextWalkIsExact | src/client.rs:133-172 | the version 1 walk returns the subtree if and only if an entry follows it, else noSuchName |
| Walk.BatchesDoNotMatter | src/client.rs:138-169 | batch sizes never change the result; asking one by one agrees if and only if an entry follows |
| Client.SnmpClient.NextRequestId | src/client.rs:54-58 | one step of the identifier cycle |
| Client.SnmpClient.Ask | src/client.rs:60-69 | one packet out, the next reply decoded, an error status turned into an error |
| Client.SnmpClient.Get | src/client.rs:72-82 | the GET packet under a fresh identifier, one exchange |
| Client.SnmpClient.GetNext | src/client.rs:91-101 | the GETNEXT packet under a fresh identifier, one exchange |
| Client.SnmpClient.GetBulk | src/client.rs:104-116 | the GETBULK packet under a fresh identifier, one exchange |
| Client.SnmpClient.Set | src/client.rs:119-129 | the SET packet under a fresh identifier, one exchange |
| Client.SnmpClient.WalkSubtree | src/client.rs:133-172 | result, packets sent and identifiers used are those of the walk's specification, for any replies |
| Client.DatagramIsInterpreted | src/client.rs:104-116 | an encoded response means to the caller what the agent meant, error statuses included |
| Client.WalkPacketRead | src/client.rs:139-143 | an agent reads in a walk's packet its version, PDU type, request id, repetitions and the identifier as the wire carries it |
| Client.SingleComponentsLookAlike | src/codec.rs:133-136 | packets asking for a single component and for nothing are the same octets |
| Client.WireWalkIsExact | src/client.rs:133-172 | the closed loop over request and reply octets: for every root what lies ahead of it as it arrives, for walkable roots exactly the subtree, or noSuchName |
| Agent.QueryRead | src/codec.rs:418-437 | a community agent reads every field of any request |
| Agent.WalkableIsExact | src/client.rs:133-172 | from a walkable root a walk is exact on every MIB that the codec can carry |
| Agent.LostSubtree | src/codec.rs:133-136 | for each root [1] to [6] a MIB with one entry below it of which nothing lies ahead of the root as it arrives |
| Client.LostOnWire | src/client.rs:133-172 | the failing run: one datagram that serves that MIB, and the walk returns nothing |
| Agent.WalkableRoots | src/client.rs:133-172 | a root is walked exactly on all such MIBs if and only if it is walkable, for both kinds of walk |
| V3Session.SignedIsReencoded | src/v3_client.rs:179-190 | the packet sent is the encoding with its MAC, if and only if names are unmistakable or the MAC is zeros |
| V3Session.CheckedAsReceived | src/v3_client.rs:199-214 | on any decodable reply the check differs from no check exactly for authentication parameters that are not the MAC of the octets as received |
| V3Session.CipherIsTransparent | src/v3.rs:281-330 | padding, encryption and decryption never change what the scoped PDU reader returns |
| V3Session.RequestDelivered | src/v3_client.rs:134-190 | the receiver finds the message meant, MAC included, if and only if names are unmistakable (or the MAC zeros) and it is below 2^24 octets; decrypted and parsed it gives all fields and varbinds |
| V3Session.MispatchedDiffers | src/v3_client.rs:183-190 | at any size, a packet patched elsewhere never decodes to the message meant |
| V3Session.MispatchedNames | src/v3_client.rs:183-190 | nor, for names of any length, to one that names the session's engine and user |
| V3Session.MispatchedArrives | src/v3_client.rs:183-190 | what it decodes to for names empty or of a length that 256 does not divide: the name with the MAC in it |
| V3Session.PeerMessageArrives | src/v3.rs:494-542 | a peer's message with any header, security parameters and context decodes to its parts |
| V3Session.MessageReceived | src/v3_client.rs:192-237 | what a caller gets from any such message: varbinds, error status, the refusal of a MAC, or of encryption without privacy |
| V3Session.ProperReplyRefused | src/v3_client.rs:199-214 | a reply signed as section 6.3.1 of RFC 3414 asks is refused if and only if its MAC differs from that of the octets that carry it |
| V3Session.TellingRefuses | src/v3_client.rs:199-214 | one HMAC under which every correctly signed reply is refused, encrypted or not |
| Conformance.V3RequestLaidOut | src/v3_client.rs:134-190 | the octets of every request that signs in place, with 65507, model 3 and one flag bit per service; the same header and parameters decode from it |
| Conformance.AskLaidOut | src/v3_client.rs:345 | the scoped PDU of a walk's request |
| Conformance.RequestAuthentic | src/v3_client.rs:183-190 | the authentication parameters are the first 12 or 24 octets of the HMAC of the packet with zeros in their place |
| Conformance.RequestOpens | src/v3.rs:281-373 | the key octets and vector with which a receiver decrypts, from the packet's own boots, time and privacy parameters |
| Conformance.PeerMessageLaidOut | src/v3.rs:494-542 | the octets of a peer's message |
| Conformance.EngineFollows | src/v3_client.rs:312-313 | the request after a peer's message carries its boots and time |
| Conformance.EngineStays | src/v3_client.rs:309-313 | the request after what does not decode carries what the one before it did |
| Conformance.EngineStarts | src/v3_client.rs:287-293 | the first request carries the session's engine state |
| Conformance.DiscoveryLaidOut | src/v3_client.rs:103-113 | the octets of the discovery request |
| Conformance.DiscoveryLearns | src/v3_client.rs:118-126 | discovery takes identifier, boots and time from the peer's message, or fails |
| V3Client.DiscoveryDelivered | src/v3_client.rs:103-113 | the discovery packet decodes to empty names, no varbinds and the reportable flag alone |
| V3Client.SnmpV3Client.constructor | src/v3_client.rs:41-52 | seeds in place, no engine, no keys |
| V3Client.SnmpV3Client.NextMsgId | src/v3_client.rs:65-69 | one step of the identifier cycle, nothing else changed |
| V3Client.SnmpV3Client.NextRequestId | src/v3_client.rs:71-75 | one step of the identifier cycle, nothing else changed |
| V3Client.SnmpV3Client.DrawSalt | src/v3_client.rs:77-80 | one wrapping step of the salt, nothing else changed |
| V3Client.SnmpV3Client.DeriveKeys | src/v3_client.rs:82-89 | keys exactly for the passwords that protocols ask for, long enough for the ciphers |
| V3Client.SnmpV3Client.DiscoverEngine | src/v3_client.rs:103-131 | the engine of the reply, or its error with the engine unchanged |
| V3Client.SnmpV3Client.MessageFlags | src/v3.rs:76-85 | the flags set bit by bit are one bit per service and the reportable bit |
| V3Client.SnmpV3Client.Seal | src/v3_client.rs:148-160 | a salt is drawn and the scoped PDU encrypted only under a privacy protocol |
| V3Client.SnmpV3Client.Sign | src/v3_client.rs:183-190 | the first 12 or 24 octets of the packet's HMAC over its first window of zeros, only with a key |
| V3Client.SnmpV3Client.BuildRequest | src/v3_client.rs:135-190 | the packet of the session's specification under fresh identifiers and salt |
| V3Client.SnmpV3Client.CheckAuth | src/v3_client.rs:199-214 | true exactly for authentic replies as the code understands them |
| V3Client.SnmpV3Client.OpenReply | src/v3_client.rs:216-236 | decryption when flagged, parsing, and the error status |
| V3Client.SnmpV3Client.Exchange | src/v3_client.rs:192-237 | one packet out, one reply in, engine boots and time become those of a message that decodes, and stay otherwise |
| V3Client.SnmpV3Client.SendRequest | src/v3_client.rs:134-237 | the whole round of GET, GETNEXT and SET |
| V3Client.SnmpV3Client.Get | src/v3_client.rs:240-243 | the whole round of GET |
| V3Client.SnmpV3Client.GetNext | src/v3_client.rs:252-255 | the whole round of GETNEXT |
| V3Client.SnmpV3Client.GetBulk | src/v3_client.rs:258-330 | the whole round of GETBULK, without a MAC check |
| V3Client.SnmpV3Client.Set | src/v3_client.rs:333-336 | the whole round of SET, its packet carrying the varbinds |
| V3Client.SnmpV3Client.AskBeyond | src/v3_client.rs:345 | one request of a walk: its packet, its reply, and the state it leaves |
| V3Client.SnmpV3Client.WalkSubtree | src/v3_client.rs:339-370 | result, exact packets, counters, engine and inbox are those of the walk's specification, for any replies |
| V3Client.ReceivedInStep | src/v3_client.rs:310-329 | what a reply gives depends on keys and protocols, not on the engine state that moves along a walk |
| V3Wire.RequestAccepted | src/v3_client.rs:258-306 | an agent that authenticates by section 6.3.2 of RFC 3414, decrypts and parses accepts a request if and only if it signs in place, and reads what was asked |
| V3Wire.UnmistakableInPlace | src/v3_client.rs:300-305 | with unmistakable names every packet of a walk signs in place, whatever the replies |
| V3Wire.V3WireWalkIsExact | src/v3_client.rs:339-369 | the closed loop over signed and encrypted octets, replies of any header, level and MAC, requests that sign in place: what lies ahead of the root as it arrives, for walkable roots exactly the subtree |
| V3Wire.RefusedWalk | src/v3_client.rs:310-367 | the first packet is refused if and only if it does not sign in place; the agent's report of it ends the walk with an empty subtree |
| V3Wire.RunGrows | src/v3_client.rs:77-80 | each request under the next salt extends the session's run |
| V3Wire.WalkIsRun | src/v3_client.rs:339-369 | the packets of a walk are such a run |
| V3Wire.RunVectorsRepeat | src/v3.rs:281-297 | any two requests of a session share a vector if and only if boots (under AES also time) agree and a multiple of 2^32 (DES) or 2^64 (AES) requests lies between them |
| V3Wire.RunVectorsDiffer | src/v3.rs:338-342 | within that span they never do, whatever names, boots and time |
| V3Wire.VectorArrives | src/v3.rs:267-279 | the receiver of a packet derives the vector that it was encrypted under |
| V3Wire.WalkVectorsDiffer | src/v3.rs:281-297 | a receiver derives different vectors from any two packets of a walk within the span |
| Traps.DecodeTrap | src/trap.rs:69-86 | the decoder computes the reader of traps of all versions |
| Traps.DecodeV1Trap | src/trap.rs:88-134 | the version 1 fields and varbinds |
| Traps.DecodeV2Trap | src/trap.rs:136-171 | community and varbinds behind tag 0xA7 |
| Traps.DecodeV3Trap | src/trap.rs:173-218 | the varbinds of an unencrypted scoped PDU, whatever the security parameters |
| Traps.V1TrapRead | src/trap.rs:88-134 | a version 1 trap comes back field by field, if and only if its timestamp is tagged INTEGER |
| LayoutFacts.TrapV1Agrees | src/trap.rs:88-134 | the Trap-PDU is laid out as section 4.1.6 of RFC 1157 says |
| Conformance.TrapV1Understood | src/trap.rs:88-134 | such a trap is read field by field, or refused for its timestamp's tag |
| Conformance.TrapV2Understood | src/trap.rs:136-171 | a version 2 trap under tag 0xA7 gives its community and varbinds |
| Conformance.TrapV3Understood | src/trap.rs:173-218 | a peer's plaintext v3 message gives its varbinds, an encrypted one is refused |
| Traps.V2TrapAgrees | src/trap.rs:136-171 | a v2c response retagged 0xA7 gives the trap decoder the same community and varbinds, or the same error |
| Traps.V3TrapAgrees | src/trap.rs:173-218 | on every decodable v3 message the trap decoder and the scoped PDU decoder agree; encrypted ones are refused |
| Traps.Retagged | src/codec.rs:526-529 | overwriting the PDU tag of a community message changes nothing else |
| OidText.ParsePrinted | src/types.rs:18-30 | every u32 parses back from its decimal text |
| OidText.TextExample | src/types.rs:28-32 | components in decimal, dots between them |
| OidText.SplitAtDot | src/types.rs:15-17 | splitting undoes joining with a dot |
| OidText.TextRoundTrip | src/types.rs:14-33 | identifiers parse back from their text, any leading dots aside, if and only if they are not empty |

## Left out

- Sockets, address parsing, timeouts, logging and the receive loop of traps; a silent peer is a timeout error.
- The insides of MD5, SHA, HMAC, DES, AES, CBC and CFB; `Suite.Sound` is what the proofs ask of them.
- Ber.BerDecoder.ReadLength: the bounds comparison is made in natural numbers; the `usize` sum of the code could overflow for absurd claimed lengths.
- Ber.BerDecoder.ReadRaw: the same for position plus length.
- Oids.EncodeOid: the product of the first component wraps as in a release build; a debug build panics there instead.
- Crypto.PasswordToMasterKey: the three copies of the loop, one per digest, are one method over a hasher of that digest.
- Crypto.Encrypt: the AES vector is a concatenation, not four copies into a buffer; slices of keys below sixteen octets, where the code panics, are a precondition.
- V3Client.SnmpV3Client.BuildRequest: the assembly written twice in the source is one method; a privacy protocol without a privacy key, where the code unwraps nothing, is a precondition.
- V3Session.MispatchedArrives: names the field that takes the MAC unless a name's length is a positive multiple of 256; the length octets of such a name may begin the run themselves, and then `V3Session.MispatchedDiffers` and `V3Session.MispatchedNames` say what cannot arrive.
- V3Wire.V3WireWalkIsExact: asks for requests that sign in place, since by `V3Wire.RequestAccepted` an agent refuses all others and `V3Wire.RefusedWalk` follows; the agent does not check time windows.
- Drawing the random seeds; the absolute value of the smallest i32, which overflows, is covered only in that identifiers start from any i32 in `Freshness.IdRange`.
- `get_one` of both clients: one-line wrappers around modelled methods.
- Matching replies to request ids and engine time windows: the code does neither.
- Error texts, `as_str`, `as_i64`, `as_bytes`, debug output, the credential constructors and the `oid!` macro.
- Walks without end: a run is a finite script of replies, so an endless one appears as its finite beginnings.
