# A verified model of the native SMB engine

This project models the clean-room SMB2/3 engine of the browser (`src/native_smb`)
and two algorithms of its application layer (`src/application`), and proves what
they are for: that the codecs undo each other, that the cryptographic modes are
laid out as their standards ask, exactly when a session uses a message id twice,
that a recursive delete removes exactly what was named, that a server-side copy
is complete, that a connection is encrypted when policy says so, that the search
finds entries in level order, and that the cache evicts no more than it must.

| file | what it holds |
|---|---|
| `Bytes.dfy` | bytes, little- and big-endian integers, exclusive or |
| `Framing.dfy` | Direct TCP frames and the SMB2 header |
| `Utf.dfy` | UTF-8 to UTF-16LE and back |
| `EaChain.dfy`, `OffsetChain.dfy` | linked-offset lists: extended attributes, directory pages, change notifications |
| `Spnego.dfy` | DER lengths and the SPNEGO wrapping of NTLM tokens |
| `Cmac.dfy`, `Signing.dfy` | AES-CMAC and message signing |
| `Ccm.dfy`, `Transform.dfy` | AES-CCM, the SMB3 transform and its nonces |
| `Connector.dfy` | negotiation, session-setup rounds, keys, encryption policy, tree connect |
| `MessageIds.dfy`, `ServerCopy.dfy`, `Session.dfy` | every session operation as the requests it sends, over whole runs |
| `Wildcard.dfy`, `RemotePath.dfy`, `RecursiveDelete.dfy` | the matcher, path joining, recursive and wildcard delete |
| `Search.dfy`, `CacheEviction.dfy` | breadth-first search and cache clean-up |

The form follows the source. What the source writes with loops and mutable
buffers is a method with the same loops, proved equal to a specification function;
what it keeps in fields is a class. The theorems are lemmas about those
specification functions or contracts over whole runs.

Outside the model stand, as parameters that every theorem ranges over: the AES
block function, HMAC-SHA256 and SHA-512; the server (a function of everything it
has been sent, or, for recursive delete, a tree with unreliable replies); the
cancellation token (one answer for each poll); the token provider; the file
system's listing order and its willingness to remove a file. Thrown
`std::invalid_argument` exceptions are the error `InvalidArgument`.

The codecs and modes are also described without their own functions, by bytes, bits
and chaining states as the standards give them, so that the specification functions
are themselves held to something. Every session operation, the search and the
recursive delete state how often they ask the cancellation token, through
`MessageIds.Asked`, `Search.PolledThroughout` and `RecursiveDelete.Paced`: a
cancellation ends them at the poll that sees it.

## What the code does not do

Each of these is a lemma or a run with an input, beside the exact condition under
which the expected law does hold.

- The wildcard matcher compares letters before it looks for `*`, so pattern `*`
  rejects the name `*ab` (`Wildcard.StarRejectsStarAB`). Every pattern means what
  it should on a name exactly when the name holds no star (`Wildcard.CorrectIffStarFree`).
- A failed listing advances the message id by three whatever it sent, so one that
  fails on its third page makes the next request reuse an id; so does a stat whose
  token says cancelled right after its open, which then reports no request at all.
  Both are runs of the session against a concrete server and token
  (`Session.ThirdPageFailureOverlaps`, `Session.StoppedStatOverlaps`). A run is free
  of overlaps exactly when no operation overlaps itself and every request of each
  ends before the first request of any later one (`Session.WindowsExactly`): leaving
  the reserved range need not show if unused ids follow (`MessageIds.UnusedIdsHideOverrun`).
  Where every operation sent something the condition is local: no operation overlaps
  itself and all but the last stay inside what they reserved (`MessageIds.RunIffTidy`).
- A one-shot transfer reserves three ids whatever its length: a completed write stays
  inside them exactly up to 65536 bytes, a completed read exactly up to 65536 bytes or
  once the 16-bit credit charge wraps to zero (`MessageIds.CompletedWrite`,
  `MessageIds.CompletedRead`).
- A write of more than 16777103 bytes fits in no frame: if its open succeeds and no
  poll says cancelled, an exception leaves the file open and the next id where it was,
  so the next request repeats the id of the open (`Session.NativeSession.WriteFileOnce`,
  `MessageIds.OversizedWrite`, `Session.OversizedWriteOverlaps`).
- The matcher accepts only what a pattern means, on every name (`Wildcard.MatcherSound`):
  what goes wrong on a star is always a name passed over, never one too many.
- An operation on one file leaves the handle it was granted open exactly when it
  stopped before its close (`Session.HandleClosedIff`); only the server-side copy
  closes what it opened on every path.
- The bounds test on DER lengths adds in 64 bits. For tokens below 2^63 bytes it is
  wrong exactly if the length has eight bytes and comes close enough to 2^64
  (`Spnego.BoundsTestOnBytes`); ten bytes show it (`Spnego.TestMissesTruncation`).
- The UTF-16 encoder lets overlong forms and surrogates through; a string comes
  back unchanged exactly when it is well-formed UTF-8 (`Utf.EncodeThenDecode`,
  `Utf.OverlongIsAccepted`).
- Normalising a search path trims white space before it removes trailing slashes,
  so a second normalisation can change the result (`Search.NormalizedTwiceCanDiffer`).
  It changes nothing exactly when the trimmed path, without its trailing slashes of
  either kind, is empty or does not end in white space (`Search.NormalizedTwice`).
- The header decoder ignores the process id slot, so a header is re-encoded to the
  same bytes exactly when that slot holds the engine's own id (`Framing.HeaderReencodes`).
- The 64-bit limit on CCM plaintexts wraps to zero for nonces below eight bytes:
  those are refused for every plaintext (`Ccm.CbcMacAccepts`).
- Recursive delete announces that it refuses the share root; its guard refuses only
  the empty string. Every path of separators names the root (`RemotePath.NamesRoot`).
  Given a single backslash, the guard lets it pass and everything in the share is
  deleted; only the last request, the delete of the root itself, is refused
  (`RecursiveDelete.BackslashEmptiesShare`). Against a reliable server such a path
  leaves the share as it was if and only if it is empty, or the share was
  (`RecursiveDelete.DeleteRoot`). The path is one of the session's interface: the
  client of the application strips leading separators first
  (`src/infrastructure/smb/NativeSmbClient.cpp:183-190`), and then the guard is exact
  (`RemotePath.StrippedNamesRoot`).

## Model

| member | source | states |
|---|---|---|
| Framing.FrameRoundTrip | src/native_smb/Protocol.cpp:2092-2148 | every message that fits in 24 bits of length is recovered from its Direct TCP frame |
| Framing.PayloadReencodes | src/native_smb/Protocol.cpp:2108-2148 | framing a decoded payload gives back the frame up to its declared length; trailing bytes are dropped |
| Framing.FrameBytes | src/native_smb/Protocol.cpp:2092-2106 | the bytes of a frame: zero, three length bytes in network order, the message; longer ones are refused |
| Framing.PayloadBytes | src/native_smb/Protocol.cpp:2108-2148 | exactly which frames are accepted, and the bytes taken out of them |
| Framing.HeaderBytes | src/native_smb/Protocol.cpp:399-418 | every field of the header in its place, little-endian |
| Bytes.LeByte | src/native_smb/Protocol.cpp:18-62 | byte i of a fixed-width field counts 256^i |
| Framing.HeaderRoundTrip | src/native_smb/Protocol.cpp:399-450 | decoding inverts encoding for every header, whatever follows it |
| Framing.HeaderReencodes | src/native_smb/Protocol.cpp:420-450 | encoding inverts decoding exactly when the process id slot holds 0xFEFF |
| Utf.EncodeUtf16LeBytes | src/native_smb/Protocol.cpp:296-354 | the encoder's loop computes the recursive reading of the text, or its exception |
| Utf.DecodeUnitsBytes | src/native_smb/Protocol.cpp:356-393 | the decoder's loop computes the recursive reading of the code units |
| Utf.DecodeUtf16LeBytes | src/native_smb/Protocol.cpp:356-397 | odd lengths are refused, anything else goes through the loop |
| Utf.DecodeMeaning | src/native_smb/Protocol.cpp:128-144 | UTF-16LE of any text decodes to its shortest-form UTF-8 |
| Utf.EncodeMeaning | src/native_smb/Protocol.cpp:296-354 | UTF-8 of any text encodes to its UTF-16LE |
| Utf.DecodeThenEncode | src/native_smb/Protocol.cpp:296-393 | exactly well-formed UTF-16LE is accepted, its result is well-formed UTF-8, and encoding that restores the bytes |
| Utf.EncodeThenDecode | src/native_smb/Protocol.cpp:296-393 | a byte string survives encoding and decoding if and only if it is well-formed UTF-8 |
| Utf.OverlongIsAccepted | src/native_smb/Protocol.cpp:296-354 | C0 80 is encoded although ill-formed, and comes back as one zero byte |
| Utf.GrammarIffWellFormed | src/native_smb/Protocol.cpp:128-144 | what the decoder can produce is exactly the byte grammar of section 4 of RFC 3629 |
| Utf.ScalarValues | src/native_smb/Protocol.cpp:128-144 | the reference encodings by their values |
| Utf.EncoderReads | src/native_smb/Protocol.cpp:296-354 | exactly what the encoder takes for a character, and the value it reads |
| EaChain.AppendEntry | src/native_smb/Protocol.cpp:1666-1704 | one entry is appended in place and zero-padded to its aligned size |
| EaChain.BuildBytes | src/native_smb/Protocol.cpp:1666-1704 | the builder's loop produces the linked list, or the exception for an impossible name or value |
| EaChain.DecodeBytes | src/native_smb/Protocol.cpp:1706-1757 | the decoder's loop follows the links and stops at the first error |
| EaChain.EaRoundTrip | src/native_smb/Protocol.cpp:1666-1757 | a list is built exactly if every name has 1 to 255 bytes and every value at most 65535, and then decodes to itself |
| EaChain.EntriesAligned | src/native_smb/Protocol.cpp:1666-1704 | entry k starts on a four-byte boundary and the chain from there is the chain of the remaining entries |
| EaChain.DecodedEntriesBounded | src/native_smb/Protocol.cpp:1706-1757 | on any input the decoder consumes at least eight bytes for each entry |
| EaChain.EntryLayout | src/native_smb/Protocol.cpp:1666-1704 | the bytes of one entry |
| EaChain.ChainLayout | src/native_smb/Protocol.cpp:1666-1704 | the link is the size rounded up to four, with zeros in between |
| EaChain.EntryAccepted | src/native_smb/Protocol.cpp:1706-1757 | exactly which bytes are taken for an entry, and what is read from them |
| OffsetChain.DirectoryEntries | src/native_smb/Protocol.cpp:1883-1954 | the loop over a directory page computes the walk of its linked entries |
| OffsetChain.NotifyEntries | src/native_smb/Protocol.cpp:2023-2084 | the same for notifications with their four-byte links |
| OffsetChain.DecodeDirectoryBytes | src/native_smb/Protocol.cpp:1844-1955 | the whole response: command, status, output bounds, entries |
| OffsetChain.DecodeNotifyBytes | src/native_smb/Protocol.cpp:1988-2085 | the whole response, with the enumerate-directory status accepted |
| OffsetChain.RegionOk | src/native_smb/Protocol.cpp:1883-1954 | an accepted link leads behind the entry's name and stays in bounds: its 32-bit sum cannot wrap |
| OffsetChain.DirectoryShape | src/native_smb/Protocol.cpp:1883-1954 | entries of an accepted page are disjoint, ordered and in bounds, at most one for each 104 bytes |
| OffsetChain.NotifyShape | src/native_smb/Protocol.cpp:2023-2084 | the same for notifications, each on a four-byte boundary, at most one for each 12 bytes |
| OffsetChain.WalkInverts | src/native_smb/Protocol.cpp:1883-1954 | walking a laid-out list finds one region for each item, holding its fixed parts and name |
| OffsetChain.DirectoryRoundTrip | src/native_smb/Protocol.cpp:1844-1955 | any list of entries laid out as FileIdBothDirectoryInformation, with any filler, decodes to itself; an empty page too |
| OffsetChain.NotifyRoundTrip | src/native_smb/Protocol.cpp:1988-2085 | any list of notifications laid out with four-byte alignment decodes to itself; an empty one too |
| OffsetChain.BoundsAccepted | src/native_smb/Protocol.cpp:1869-1893 | exactly when the output buffer is accepted, and where it is |
| OffsetChain.DirectoryRegionAccepted | src/native_smb/Protocol.cpp:1883-1954 | exactly when an entry of a directory page is accepted: fixed part, name, link, well-formed UTF-16LE |
| OffsetChain.NotifyRegionAccepted | src/native_smb/Protocol.cpp:2023-2084 | the same for a notification |
| OffsetChain.DirectoryAccepted | src/native_smb/Protocol.cpp:1844-1955 | exactly when a directory response is accepted, and the offsets its fields are read from |
| OffsetChain.NotifyAccepted | src/native_smb/Protocol.cpp:1988-2085 | exactly when a notification response is accepted, and the offsets its fields are read from |
| Spnego.AppendDerLength | src/native_smb/SpnegoToken.cpp:22-37 | the in-place writer appends the DER length: short form below 128, else minimal big-endian bytes |
| Spnego.ReadLengthBytes | src/native_smb/SpnegoToken.cpp:71-95 | the reader's loop: short and long forms, indefinite and over-long ones refused |
| Spnego.LengthRoundTrip | src/native_smb/SpnegoToken.cpp:22-95 | every length below 2^64 reads back, with the offset of what follows it |
| Spnego.LengthAccepted | src/native_smb/SpnegoToken.cpp:71-95 | exactly which DER lengths are read, and their values |
| Spnego.FindBytes | src/native_smb/SpnegoToken.cpp:97-140 | the search with its loop and its recursion of bounded depth |
| Spnego.FindSound | src/native_smb/SpnegoToken.cpp:97-140 | whatever the search returns is a part of the input that starts with the NTLMSSP signature |
| Spnego.SignatureIs | src/native_smb/SpnegoToken.cpp:64-69 | the NTLMSSP signature byte by byte |
| Spnego.BoundsTestExact | src/native_smb/SpnegoToken.cpp:115-118 | the bounds test on a 64-bit sum says what it should exactly when the sum does not wrap |
| Spnego.BoundsTestOnBytes | src/native_smb/SpnegoToken.cpp:71-118 | the same on the bytes read: it is wrong exactly for an eight-byte length within the offset of 2^64 |
| Spnego.TestMissesTruncation | src/native_smb/SpnegoToken.cpp:115-118 | ten bytes whose announced value is missing although the 64-bit sum stays within bounds |
| Spnego.MechTypesHoldNothing | src/native_smb/SpnegoToken.cpp:97-158 | the mechTypes branch yields no token, so the search goes on behind it |
| Spnego.UnwrapInit | src/native_smb/SpnegoToken.cpp:144-167 | unwrapping a NegTokenInit returns the wrapped token if and only if it starts with the NTLMSSP signature |
| Spnego.UnwrapResp | src/native_smb/SpnegoToken.cpp:160-167 | the same for a NegTokenResp |
| Spnego.InitAsInRfc4178 | src/native_smb/SpnegoToken.cpp:144-158 | a strict reader of section 4.2.1 of RFC 4178 finds every element of a NegTokenInit, the mechanism and the token |
| Spnego.RespAsInRfc4178 | src/native_smb/SpnegoToken.cpp:160-167 | the same for a NegTokenResp |
| Cmac.LeftShiftOneBit | src/native_smb/Smb2Signing.cpp:306-315 | the byte loop with its carry shifts the whole block |
| Cmac.SubkeyDouble | src/native_smb/Smb2Signing.cpp:317-323 | shift, then 0x87 into the last byte when a bit fell out |
| Cmac.DoubleMultipliesByX | src/native_smb/Smb2Signing.cpp:306-323 | doubling multiplies the polynomial by x modulo x^128 + x^7 + x^2 + x + 1, coefficient by coefficient |
| Cmac.CoefficientsDetermine | src/native_smb/Smb2Signing.cpp:317-323 | the coefficients determine the block, so that law fixes the subkeys |
| Cmac.Subkeys | src/native_smb/Smb2Signing.cpp:519-524 | K1 and K2 are the first and second doubling of the encrypted zero block |
| Cmac.Aes128Cmac | src/native_smb/Smb2Signing.cpp:511-545 | for data of every length the index arithmetic computes the CBC specification of section 2.4 of RFC 4493 |
| Cmac.MacAsInRfc4493 | src/native_smb/Smb2Signing.cpp:511-545 | the MAC block by block: chaining states from zero, the last block completed, and masked by x times the encrypted zero block, or x^2 times it when it was short |
| Signing.ZeroSignature | src/native_smb/Smb2Signing.cpp:174-177 | bytes 48 to 63 become zero in place, nothing else changes |
| Signing.SignFrame | src/native_smb/Smb2Signing.cpp:612-646 | signing in place on the decoded payload, with every error case |
| Signing.VerifyFrame | src/native_smb/Smb2Signing.cpp:648-687 | verification, with an unsigned frame reported as not verified |
| Signing.SignPayloadShape | src/native_smb/Smb2Signing.cpp:612-646 | only bytes 16 to 19 and 48 to 63 change, the flag is set, and the signature is the MAC of the blanked result |
| Signing.SignatureBytes | src/native_smb/Smb2Signing.cpp:612-646 | the signature by dialect: the start of the HMAC for 2.0.2 and 2.1, the CMAC for 3.x, of the payload with zeros in its place; the flag has weight 8 |
| Signing.SignSucceeds | src/native_smb/Smb2Signing.cpp:612-646 | exactly when a frame can be signed: dialect, key length for CMAC, 64 bytes of payload |
| Signing.SignThenVerify | src/native_smb/Smb2Signing.cpp:612-687 | a signed frame verifies under the same key and dialect |
| Signing.VerifiedBytes | src/native_smb/Smb2Signing.cpp:648-687 | exactly which payloads verify, byte by byte |
| Signing.VerifyIffFixedPoint | src/native_smb/Smb2Signing.cpp:648-687 | verification accepts exactly the frames that signing leaves as they are |
| Signing.SignIdempotent | src/native_smb/Smb2Signing.cpp:612-646 | signing a signed frame is the identity |
| Signing.SigningPreservesHeader | src/native_smb/Smb2Signing.cpp:612-646 | every decoded header field but flags and signature, and the body, are preserved |
| Ccm.FormatAadBytes | src/native_smb/Smb3Encryption.cpp:112-127 | two length bytes, the data, zero bytes up to a block; nothing for 0xFF00 bytes or more |
| Ccm.ShiftedLimit | src/native_smb/Smb3Encryption.cpp:149-153 | the shifted limit is 256 to the width of the length field, and zero when it has left 64 bits |
| Ccm.LengthBlock | src/native_smb/Smb3Encryption.cpp:160-170 | filling a block from its right end writes the big-endian number |
| Ccm.CbcMacBytes | src/native_smb/Smb3Encryption.cpp:129-195 | the three stages of chaining compute the CBC-MAC of the formatted message, with every refusal in order |
| Ccm.CbcMacAccepts | src/native_smb/Smb3Encryption.cpp:129-195 | a MAC comes out if and only if the key has 16 bytes, the nonce 8 to 13, and tag, plaintext and AAD are in range |
| Ccm.KeystreamBlock | src/native_smb/Smb3Encryption.cpp:197-231 | the keystream block of a counter value |
| Ccm.CryptBytes | src/native_smb/Smb3Encryption.cpp:209-225 | the offset loop computes counter mode from counter 1, the last block cut short |
| Ccm.EncryptBytes | src/native_smb/Smb3Encryption.cpp:294-312 | ciphertext and masked tag |
| Ccm.DecryptBytes | src/native_smb/Smb3Encryption.cpp:314-333 | decrypt, re-encrypt, compare the tag |
| Ccm.DecryptIffEncrypt | src/native_smb/Smb3Encryption.cpp:294-333 | decryption of (c, tag) yields p if and only if encryption of p yields (c, tag) |
| Ccm.EncryptThenDecrypt | src/native_smb/Smb3Encryption.cpp:294-333 | for a 16-byte key and parameters in range, decrypting an encryption returns the plaintext |
| Ccm.EncryptBytewise | src/native_smb/Smb3Encryption.cpp:209-231 | plaintext byte i is masked by the encrypted counter block 1 + i / 16, tag byte j by block 0 |
| Ccm.EncryptAccepts | src/native_smb/Smb3Encryption.cpp:294-312 | exactly which keys and parameters are accepted |
| Ccm.CounterBlockBytes | src/native_smb/Smb3Encryption.cpp:197-207 | flags, nonce, and the counter in network order |
| Ccm.NoCounterBlockTwice | src/native_smb/Smb3Encryption.cpp:197-231 | no counter block masks two blocks of one message, the tag included, and none is the first block of the MAC |
| Ccm.FlagsBits | src/native_smb/Smb3Encryption.cpp:160-170 | the bit fields of section 2.2 of RFC 3610 |
| Ccm.FormatBytes | src/native_smb/Smb3Encryption.cpp:112-195 | the authenticated block string by its slices |
| Ccm.MacIsLastState | src/native_smb/Smb3Encryption.cpp:160-195 | the MAC is the last chaining state, from zero, over that string |
| Ccm.CounterBlocksDistinct | src/native_smb/Smb3Encryption.cpp:197-207 | counter blocks of one nonce are equal only for equal counters |
| Ccm.CountersOfMessageFit | src/native_smb/Smb3Encryption.cpp:209-231 | all counters one message uses fit their field, so its blocks are pairwise distinct |
| Ccm.B0IsNoCounterBlock | src/native_smb/Smb3Encryption.cpp:160-207 | the first MAC block is no counter block, of this or any other nonce |
| Ccm.B0Determines | src/native_smb/Smb3Encryption.cpp:160-170 | the first block determines nonce, length and the presence of AAD |
| Ccm.FormatPrefixFree | src/native_smb/Smb3Encryption.cpp:112-195 | for one tag length no formatted message starts another: nonce, AAD and plaintext are determined |
| Transform.SealedFields | src/native_smb/Smb3Encryption.cpp:265-290 | where the receiver finds tag, nonce, size, algorithm and session, and that filling the tag slot leaves the AAD alone |
| Transform.SealedBytes | src/native_smb/Smb3Encryption.cpp:347-385 | the encrypted frame by its slices: identifier, tag, nonce, size, algorithm, session and ciphertext, with bytes 20 to 51 authenticated |
| Transform.AadDetermines | src/native_smb/Smb3Encryption.cpp:265-290 | headers with equal additional data agree on exactly bytes 20 to 51 |
| Transform.TransformRoundTrip | src/native_smb/Smb3Encryption.cpp:347-442 | a frame is encrypted exactly when its payload leaves room for 52 bytes, and then decrypts to the re-encoded payload |
| Transform.AcceptedIffSealed | src/native_smb/Smb3Encryption.cpp:387-442 | a frame is accepted if and only if its fields are right and tag and ciphertext are what CCM makes of the plaintext under the received header |
| Transform.NoncesAgree | src/native_smb/Smb3Encryption.cpp:476-484 | 11-byte nonces of two counter values agree exactly when the values agree modulo 2^64 |
| Transform.NonceBytes | src/native_smb/Smb3Encryption.cpp:476-484 | eight little-endian counter bytes, then zeros |
| Transform.EncryptionTransport.NextNonce | src/native_smb/Smb3Encryption.cpp:476-484 | the byte loop writes the counter, which advances and wraps in 64 bits |
| Transform.EncryptionTransport.Exchange | src/native_smb/Smb3Encryption.cpp:451-474 | every exchange encrypts under the next nonce; what was put on the wire is recorded with its counter value |
| Transform.StampedDistinct | src/native_smb/Smb3Encryption.cpp:451-484 | in any run of fewer than 2^64 exchanges no two frames on the wire carry the same CCM nonce |
| Wildcard.WildcardMatchesLoop | src/native_smb/NativeSmbSession.cpp:96-127 | the backtracking loop terminates by a lexicographic measure and computes the cursor semantics |
| Wildcard.MatcherCorrect | src/native_smb/NativeSmbSession.cpp:96-127 | on texts without a star the matcher is the recursive meaning of star and question mark, for every pattern |
| Wildcard.PatternMeaning | src/native_smb/NativeSmbSession.cpp:91-127 | the meaning by the first byte of the pattern, with letters alike in both ASCII cases |
| Wildcard.MatcherSound | src/native_smb/NativeSmbSession.cpp:96-127 | on every text, stars or not, only what the pattern means is accepted |
| Wildcard.CaseBlind | src/native_smb/NativeSmbSession.cpp:91-105 | ASCII case makes no difference in pattern or text |
| Wildcard.LiteralPattern | src/native_smb/NativeSmbSession.cpp:96-127 | a pattern without wildcards accepts the texts of its length that are alike byte by byte |
| Wildcard.SingleWildcards | src/native_smb/NativeSmbSession.cpp:96-127 | a star accepts every text without a star, a question mark every single byte |
| Wildcard.CorrectIffStarFree | src/native_smb/NativeSmbSession.cpp:96-127 | a text is matched correctly by every pattern if and only if it holds no star |
| Wildcard.StarRejectsStarAB | src/native_smb/NativeSmbSession.cpp:103-113 | pattern `*` rejects `*ab`, because equality is tried first |
| RemotePath.JoinAppends | src/native_smb/NativeSmbSession.cpp:80-89 | joining a good name to any parent path adds exactly one component |
| RemotePath.JoinBytes | src/native_smb/NativeSmbSession.cpp:80-89 | which separator comes between, and when none does |
| RemotePath.GoodNames | src/native_smb/NativeSmbSession.cpp:76-78 | the names of entries: not empty, not a dot entry, without separators |
| RemotePath.NamesRoot | src/native_smb/NativeSmbSession.cpp:823-826 | a path names the root if and only if it holds nothing but separators |
| RemotePath.StrippedNamesRoot | src/infrastructure/smb/NativeSmbClient.cpp:183-190 | of the paths the client passes on, without leading separators, only the empty one names the root |
| RecursiveDelete.Share.ListDirectory | src/native_smb/NativeSmbSession.cpp:250-273 | a listing without the dot entries still lists every child once |
| RecursiveDelete.Share.DeleteObject | src/native_smb/NativeSmbSession.cpp:530-545 | what one delete may do: remove the named entry, a directory only when empty, whatever it reports |
| RecursiveDelete.Share.DeleteTree | src/native_smb/NativeSmbSession.cpp:820-864 | success leaves the old tree without the subtree; on any failure or cancellation only nodes at or below the path are missing; no call names a path below a link; only the last poll may say cancelled, and then the result says so; otherwise it fails exactly if its last call failed, with the error of that call; on success there was one poll for each stat and delete but one; exactly the empty path is refused without a call |
| RecursiveDelete.DeleteRoot | src/native_smb/NativeSmbSession.cpp:823-826 | a path of separators only: on a reliable server the share keeps its content if and only if the path is empty or there is no content |
| RecursiveDelete.BackslashEmptiesShare | src/native_smb/NativeSmbSession.cpp:823-826 | given one backslash the guard passes, the share's file is gone, and the result is a failure |
| RecursiveDelete.ServerSaysInvalidPath | src/native_smb/Protocol.cpp:212-215 | a run that fails with the guard's error code although the guard let the path pass |
| RecursiveDelete.CancellationStops | src/native_smb/NativeSmbSession.cpp:845-852 | if the token says cancelled from poll n on, at most n deletes are sent and the result is a cancellation |
| RecursiveDelete.Share.DeleteListed | src/native_smb/NativeSmbSession.cpp:845-861 | the loop removes the subtrees of the listed children, a failure leaves everything outside them; it polls before every child and stops at the first cancellation or failed call |
| RecursiveDelete.Share.DeleteWildcard | src/native_smb/NativeSmbSession.cpp:553-592 | success removes exactly the children whose names the matcher accepts; a failure removes nothing else; it polls before every one of them and stops at the first cancellation or failed call; exactly the empty pattern is refused without a call |
| RecursiveDelete.SelectedMeaning | src/native_smb/NativeSmbSession.cpp:571-574 | only children the pattern means are selected, and all of these without a star in their names |
| RecursiveDelete.RemoveEmptied | src/native_smb/NativeSmbSession.cpp:840-863 | removing all listed children and then the directory is removing the subtree |
| MessageIds.ChargesAgree | src/native_smb/NativeSmbSession.cpp:173-178 | reservation and 16-bit CreditCharge agree exactly up to 65535 credits, and the field is never larger |
| MessageIds.ChargeCounts | src/native_smb/NativeSmbSession.cpp:173-178 | the charge is the number of 64 KiB units begun, at least one; the field keeps 16 bits |
| MessageIds.TidyRun | src/native_smb/NativeSmbSession.cpp:874-878 | if every operation stays in the ids it took, all windows of the run are disjoint, increasing and within the ids taken |
| MessageIds.RunIffTidy | src/native_smb/NativeSmbSession.cpp:874-878 | in runs in which every operation sent a request from its first id on: disjoint and increasing if and only if no operation overlaps itself and all but the last stay inside what they reserved |
| MessageIds.RunIncreasing | src/native_smb/NativeSmbSession.cpp:874-878 | for every run: windows are disjoint and increasing if and only if no operation overlaps itself and none reaches the first request of a later one |
| MessageIds.ConsecutiveTidy | src/native_smb/Protocol.cpp:1083-1089 | when requests at consecutive ids stay inside a reservation: all but the last charged at most one |
| MessageIds.GentleIsTidy | src/native_smb/NativeSmbSession.cpp:250-360 | which outcomes of each kind of operation cannot overlap what follows |
| MessageIds.FailedListing | src/native_smb/NativeSmbSession.cpp:258-262 | a failed listing leaves its range exactly when it sent more than three requests |
| MessageIds.CompletedRead | src/native_smb/NativeSmbSession.cpp:275-292 | a completed one-shot read leaves its range exactly when its READ is charged more than one credit |
| MessageIds.CompletedWrite | src/native_smb/NativeSmbSession.cpp:341-360 | a one-shot write completes only with data that fits in a frame, and stays in its range exactly up to 65536 bytes |
| MessageIds.OversizedWrite | src/native_smb/Protocol.cpp:2092-2095 | a longer one fails, and leaves its range exactly when it threw, its open sent and no id taken |
| MessageIds.CompletedShares | src/native_smb/NativeSmbSession.cpp:788-802 | a completed share enumeration leaves its range exactly when one of its two writes carries more than 65536 bytes |
| MessageIds.SharesReport | src/native_smb/RemoteShareEnumerator.cpp:137-238 | unless it threw, an enumeration takes one id for each request, and one more exactly when a poll before a request to the open pipe says cancelled |
| MessageIds.StoppedReports | src/native_smb/RemoteStatReader.cpp:59-150 | a stat leaves the range it reports exactly when one of its three polls after a request says cancelled; a metadata operation has one such poll |
| MessageIds.OverrunOverlaps | src/native_smb/NativeSmbSession.cpp:874-878 | an operation that sent more requests than it reserved ids overlaps the next request when that follows at once |
| MessageIds.UnusedIdsHideOverrun | src/native_smb/NativeSmbSession.cpp:250-292 | a listing that overran, a read cancelled before its first request, and any request: no overlap |
| Session.ThirdPageFailureOverlaps | src/native_smb/NativeSmbSession.cpp:250-309 | a run of the session: against a server that fails the fourth request, the third page request and the open after it carry the same id |
| Session.StoppedStatOverlaps | src/native_smb/NativeSmbSession.cpp:294-388 | a run of the session: a stat whose second poll says cancelled, and the open after it, carry the same id |
| Session.OversizedWriteOverlaps | src/native_smb/NativeSmbSession.cpp:341-360 | a run of the session: an oversized write whose open succeeds throws, and the open after it carries the same id |
| Session.HandleClosedIff | src/native_smb/FileReader.cpp:55-107 | for every operation that opens one file: the granted handle is left open exactly when the close was not reached |
| Session.NativeSession.AllocateMessageIds | src/native_smb/NativeSmbSession.cpp:874-878 | the next id is returned and moved on by the count |
| Session.NativeSession.ReadFileOnce | src/native_smb/NativeSmbSession.cpp:275-292 | whatever happens its requests are a prefix of CREATE, READ, CLOSE on the handle granted, and all three on success |
| Session.NativeSession.ReadSteps | src/native_smb/FileReader.cpp:55-107 | the same for the reader itself, with the ids it uses |
| Session.NativeSession.OpenFileForRead | src/native_smb/NativeSmbSession.cpp:294-309 | one CREATE, one id, the granted handle |
| Session.NativeSession.ReadFileChunk | src/native_smb/NativeSmbSession.cpp:311-331 | at most one READ, under as many ids as the length is worth |
| Session.NativeSession.CloseFileHandle | src/native_smb/NativeSmbSession.cpp:333-339 | at most one CLOSE of the given handle |
| Session.NativeSession.WriteFileOnce | src/native_smb/NativeSmbSession.cpp:341-360 | CREATE, WRITE, CLOSE, or CREATE, CLOSE for no data; two or three ids on success, three on failure, and none when the frame encoder throws, which happens exactly if the data is too large, the open succeeded and no poll said cancelled |
| Session.NativeSession.WriteSteps | src/native_smb/FileWriter.cpp:47-118 | the writer's sequence, the number of messages it reports, and when it throws |
| Session.NativeSession.Stat | src/native_smb/NativeSmbSession.cpp:362-388 | CREATE, basic query, standard query, CLOSE in this order; ids as reported |
| Session.NativeSession.StatSteps | src/native_smb/RemoteStatReader.cpp:59-150 | the requests sent and the count reported, exactly, by the poll that said cancelled; without one both are equal, and a failure means some reply was no help |
| Session.NativeSession.StatQuery | src/native_smb/RemoteStatReader.cpp:87-121 | one query, the polls around it and after it, and its decoding |
| Session.NativeSession.MetadataOperation | src/native_smb/NativeSmbSession.cpp:394-511 | CREATE, one SET_INFO or QUERY_INFO of the asked kind, CLOSE; ids as reported |
| Session.NativeSession.MetadataSteps | src/native_smb/RemoteMetadataOperator.cpp:148-383 | the same for the operator: requests and count, exactly, by the poll that said cancelled |
| Session.NativeSession.MakeDirectory | src/native_smb/NativeSmbSession.cpp:513-528 | CREATE, CLOSE, two ids |
| Session.NativeSession.CreateDirectorySteps | src/native_smb/RemoteObjectOperator.cpp:125-146 | the operator's two requests |
| Session.NativeSession.Mutate | src/native_smb/NativeSmbSession.cpp:530-645 | delete, rename and links: CREATE, the one change, CLOSE, three ids |
| Session.NativeSession.ThreeSteps | src/native_smb/RemoteObjectOperator.cpp:148-299 | the operator's three requests for each kind of change |
| Session.NativeSession.WatchDirectoryOnce | src/native_smb/DirectoryWatcher.cpp:66-115 | CREATE, CHANGE_NOTIFY, CLOSE, three ids |
| Session.NativeSession.ListRemoteDirectory | src/native_smb/NativeSmbSession.cpp:250-273 | CREATE, at least one page request of which only the first restarts, CLOSE, following the answers one by one; uncancelled it fails exactly if its last answer was no success; the names are those of all pages without dot entries |
| Session.NativeSession.ListSteps | src/native_smb/DirectoryLister.cpp:57-132 | the lister's requests as determined by the answers, its message count, and the concatenation of all pages |
| Session.NativeSession.ListPages | src/native_smb/DirectoryLister.cpp:84-115 | one page request for each page that goes on, and one for the last; the loop ends when the server's pages end, and gathers every page in order |
| Session.KeepNames | src/native_smb/NativeSmbSession.cpp:264-272 | the filtering loop |
| Session.WithoutDotsKeeps | src/native_smb/NativeSmbSession.cpp:264-272 | filtering loses nothing but the two dot names |
| Session.NativeSession.ListRemoteShares | src/native_smb/NativeSmbSession.cpp:788-802 | the pipe conversation; ids as reported, exactly, on success, failure, cancellation and exception |
| Session.NativeSession.ListSharesSteps | src/native_smb/RemoteShareEnumerator.cpp:137-238 | requests and count by the poll that said cancelled; an opened pipe is closed last on every path, except a cancellation seen just before its regular close or an exception; success takes six requests |
| Session.NativeSession.PipeStep | src/native_smb/RemoteShareEnumerator.cpp:161-219 | one request on the pipe, and the cleanup close in its place or behind it when it is not answered as hoped; a write too large for a frame throws and skips the cleanup |
| Session.NativeSession.GetDfsReferrals | src/native_smb/RemoteDfsReferralFetcher.cpp:35-71 | at most one IOCTL, on the all-ones handle |
| Session.NativeSession.CopyFileServerSide | src/native_smb/NativeSmbSession.cpp:647-765 | chunks tile the file, success means all of it, reported progress is that of the chunks and ends at the size, and on every path each granted handle is closed exactly once; it fails only if a poll says cancelled or some reply was no help; success: source opened, target opened, resume key of the source, chunks on the target with that key, both closed |
| Session.NativeSession.CopyChunks | src/native_smb/NativeSmbSession.cpp:716-759 | each chunk starts where the last copied byte ended and is at most 1 MiB; the loop ends for every server, at the size unless cancelled or answered badly |
| Session.NativeSession.PerformAll | src/native_smb/NativeSmbSession.cpp:243-878 | any sequence of operations with any outcomes keeps the accounting, leaves disjoint increasing windows if all were gentle, and succeeds throughout without cancellation, with a helpful server and requests that fit in a frame |
| Session.WindowsNeverOverlap | src/native_smb/NativeSmbSession.cpp:874-878 | in a run of gentle operations no two requests share an id, ids grow, and all lie below the next id |
| Session.WindowsExactly | src/native_smb/NativeSmbSession.cpp:874-878 | for every run of the session: disjoint and increasing if and only if no operation overlaps itself and every request of one ends before the first request of any later one |
| Session.ObligedSucceeds | src/native_smb/NativeSmbSession.cpp:243-878 | every operation whose requests fit in a frame succeeds if the token never cancels and the server answers each request helpfully |
| Session.CopyEndToEnd | src/native_smb/NativeSmbSession.cpp:647-765 | after a copy that reported success the target starts with the first `size` bytes of the source |
| ServerCopy.TilesBound | src/native_smb/NativeSmbSession.cpp:716-759 | at most `size` chunks are sent and at most `size` bytes copied |
| ServerCopy.ChunkBounds | src/native_smb/NativeSmbSession.cpp:716-724 | each chunk starts at the sum copied before it and asks for 1 MiB or the rest of the file |
| ServerCopy.ProgressIncreases | src/native_smb/NativeSmbSession.cpp:755-758 | progress strictly increases, never passes the size, and ends at what was copied |
| ServerCopy.CompleteCopy | src/native_smb/NativeSmbSession.cpp:718-764 | a complete tiling makes the target's first `size` bytes those of the source, whatever it held |
| Connector.FoldAppend | src/native_smb/Smb2Signing.cpp:576-590 | one update extends the fold over all messages so far |
| Connector.FoldIsLastHash | src/native_smb/Smb2Signing.cpp:572-590 | the hash starts from 64 zero bytes and takes in one message after the other |
| Connector.TranscriptAt | src/native_smb/NativeSmbConnector.cpp:128-150 | requests and answers alternate in the transcript, and the last answer is not in it |
| Connector.NativeConnector.Negotiate | src/native_smb/Negotiator.cpp:30-87 | one request, and a result determined by its answer: the dialect, signing if either side requires it, encryption if the server announced it, and for SMB 3.1.1 the fold over request and response; or the error of the exchange or of decoding |
| Connector.NativeConnector.SetUpSession | src/native_smb/NativeSmbConnector.cpp:109-162 | on any outcome: rounds at consecutive ids, each with the token and session id that follow from the previous answer, another one only if the server asked for it; it succeeds if and only if the last answer ends the rounds with a session id, and else gave up for the error stated; the hash is the fold over all but the last response |
| Connector.NativeConnector.KeyForSigning | src/native_smb/NativeSmbConnector.cpp:190-239 | a key comes out if and only if dialect and session key give one and a signed or sign-required final response verifies under it; else the error of the check that failed |
| Connector.NativeConnector.EnableEncryption | src/native_smb/NativeSmbConnector.cpp:246-285 | the layer is enabled if and only if the session can encrypt and there is a key, with one key for each direction |
| Connector.NativeConnector.ConnectTree | src/native_smb/NativeSmbConnector.cpp:287-327 | on any outcome: one tree connect, none if encryption must come first and there is no key, and a second one under encryption exactly if policy prefers it, the first was denied and there is a key; it succeeds if and only if the last was granted and the demands of the tree can be met |
| Connector.NativeConnector.Connect | src/native_smb/NativeSmbConnector.cpp:77-341 | on any outcome the log is negotiation, setup rounds, tree connects, each stage reached exactly if the one before allows it; it succeeds if and only if the answers, policy and keys let every stage through, returns what they determine, and else the error of the stage that stopped it |
| Connector.NothingTooEarly | src/native_smb/NativeSmbConnector.cpp:77-341 | whatever comes of it: a bounded handshake in the clear, no tree connect outside the encryption layer if policy or the session asks for it, and with required signing none unsigned but for guests |
| Connector.TranscriptBound | src/native_smb/NativeSmbConnector.cpp:178-239 | a connection is signed exactly if either side asks for it and the session is no guest; its key is the start of the HMAC of an input whose slices are given: for SMB 3.1.1 it holds the hash of all messages from the negotiation to the last setup request |
| Connector.InputDetermines | src/native_smb/Smb2Signing.cpp:350-372 | different contexts, such as transcript hashes or directions, give different key inputs |
| Connector.DirectionsDiffer | src/native_smb/Smb3Encryption.cpp:233-345 | the two encryption keys by their inputs, which differ |
| Connector.FinalAnswerVerified | src/native_smb/NativeSmbConnector.cpp:207-232 | if either side requires signing or the final answer is flagged as signed, a signed connection means that it verified |
| Connector.RequiredMeansEncrypted | src/native_smb/NativeSmbConnector.cpp:163-173 | success under a required policy: the server chose SMB 3.0 or 3.0.2 and announced encryption, one tree connect, through the encryption layer, no guest or anonymous session |
| Connector.EncryptedTreeIff | src/native_smb/NativeSmbConnector.cpp:287-327 | exactly when, in terms of the server's answers, the accepted tree connect was encrypted |
| Connector.RetryExactly | src/native_smb/NativeSmbConnector.cpp:287-310 | exactly when, in terms of the server's answers, a second tree connect is sent |
| Connector.IdsConsecutive | src/native_smb/NativeSmbConnector.cpp:109-162 | on any outcome setup and tree requests use the ids from the first on, one each; the first round carries the first token and no session id, later ones what follows from the answer before |
| Search.NormalizeRemotePath | src/application/RecursiveSearchService.cpp:91-104 | the chopping loop computes the normal form |
| Search.Normalized | src/application/RecursiveSearchService.cpp:91-104 | a normal form is rooted, without backslashes, without trailing slash |
| Search.NormalForm | src/application/RecursiveSearchService.cpp:91-104 | the normal form character by character |
| Search.TrimmedIs | src/application/RecursiveSearchService.cpp:91-104 | what is trimmed is white space, and what is left neither starts nor ends with any |
| Search.NormalizedTwice | src/application/RecursiveSearchService.cpp:91-104 | normalising again changes nothing if and only if the trimmed path without its trailing slashes is empty or does not end in white space |
| Search.NormalizedTwiceCanDiffer | src/application/RecursiveSearchService.cpp:91-104 | a path with a blank before its last slash shows it |
| Search.Search | src/application/RecursiveSearchService.cpp:25-89 | the queue loop returns the first hits of the level-order unrolling up to the limit, stops in the directory holding the last of them, and fails only at the first directory that cannot be listed or on cancellation; it polls before every directory and every entry, and a cancellation ends it at once |
| Search.HitsAre | src/application/RecursiveSearchService.cpp:53-62 | exactly what can be found: files, others only if directories are asked for, whose name or path contains the trimmed query |
| Search.HitsInOrder | src/application/RecursiveSearchService.cpp:53-62 | hits are taken directory by directory and entry by entry |
| Search.UnrollingInOrder | src/application/RecursiveSearchService.cpp:44-86 | levels follow each other, and the directories of a level those of the one before |
| Search.SubdirectoriesInOrder | src/application/RecursiveSearchService.cpp:78-85 | the directories a listing leads to, in its order, by their normal forms |
| Search.Dequeue | src/application/RecursiveSearchService.cpp:44-52 | the head of the queue is always the next directory of the unrolling |
| Search.DirectoryDone | src/application/RecursiveSearchService.cpp:63-85 | scanning a directory moves it behind and appends its subdirectories below the depth limit |
| Search.EmptyLevels | src/application/RecursiveSearchService.cpp:44-86 | an empty queue means every later level is empty too |
| Search.SelfLoop | src/application/RecursiveSearchService.cpp:81-84 | a directory that contains itself is scanned once for each depth |
| CacheEviction.SumIsTotal | src/application/TempFileCache.cpp:82-88 | the total does not depend on the order of the listing |
| CacheEviction.TotalSize | src/application/TempFileCache.cpp:82-88 | the summing loop |
| CacheEviction.SortOldestFirst | src/application/TempFileCache.cpp:180-183 | sorted by time of change, and a permutation |
| CacheEviction.TempFileCache.CollectFiles | src/application/TempFileCache.cpp:59-71 | every file once, in any order |
| CacheEviction.TempFileCache.RemoveCacheFile | src/application/TempFileCache.cpp:90-103 | a file goes exactly if it is not protected and the file system removes it; a removal changes one file and both counters |
| CacheEviction.TempFileCache.AgePass | src/application/TempFileCache.cpp:167-174 | only files older than the cutoff are tried, and those left were protected or refused |
| CacheEviction.TempFileCache.SizePass | src/application/TempFileCache.cpp:180-192 | oldest first, each attempt while the total exceeded the limit; at the end the limit holds or all survivors were protected or refused |
| CacheEviction.TempFileCache.CleanupFiles | src/application/TempFileCache.cpp:154-199 | both passes together: protected files stay, every vanished file was removed in one of the attempts, the totals they note are those of the cache, removed and remaining bytes add up to the initial total |
| CacheEviction.TempFileCache.ProtectPath | src/application/TempFileCache.cpp:226-232 | exactly this path becomes protected; the empty path is ignored |
| CacheEviction.TempFileCache.UnprotectPath | src/application/TempFileCache.cpp:234-240 | exactly this path stops being protected |

## Hypotheses

- `Session.NativeSession`: the server ends each listing, that is, it does not serve
  more than some fixed number of non-empty pages in a row; the lister itself has no
  limit. Nothing else is assumed of the server.
- Gentle operations (`MessageIds.Gentle`): one-shot transfers and pipe writes charged
  at most one credit, no exception, failed listings of at most three requests, and, for
  stat and metadata operations, no cancellation at the polls after which nothing is
  reported. The lemmas `FailedListing`, `CompletedRead`, `CompletedWrite`,
  `OversizedWrite`, `CompletedShares` and `StoppedReports` make each an equivalence,
  those on charges for completed operations.
- `Transform.StampedDistinct`: fewer than 2^64 exchanges; `Transform.NoncesAgree` is
  the exact statement for any number.
- `RecursiveDelete.Share`: nobody else changes the tree, DELETE acts on the named
  entry and refuses the root and a directory that is not empty, listings are
  complete. Any call may fail, and a delete that reports failure may have happened. A
  server reads a path as its components between separators, so one of separators only
  is the root; section 2.2.13 of MS-SMB2 forbids a leading separator, and a server may
  refuse it instead. What is visible through a link is a copy of its own: a link from
  outside into the deleted subtree, whose view would change, is not represented.
- `Search.Search`: listings do not change during the search.
- `CacheEviction`: nobody else changes the cache directory during a clean-up.
- The C locale, in which the matcher's folding changes ASCII letters only.

## Left out

- Internals of AES, SHA-256, SHA-512 and HMAC, and the strength of any cipher or MAC: they are parameters.
- Encryption stacked on signing: signing rewrites bytes of any payload, an encrypted one included, so the stack has no round trip; each layer is proved alone. `SigningTransport` itself, which only calls sign and verify around an exchange, is not modelled.
- `DirectTcpTransport`: sockets, timeouts, DNS. A session's exchange is one answer of the abstract server.
- NTLM messages, SRVSVC and DCERPC stubs, DFS referral decoding, and the decoders of fixed structures: further codecs of the kinds proved here.
- Error texts, status names and the table from NT status to error code: a failing status is kept as a number.
- Values a session only passes on (file data and offsets, times, attributes, security descriptors), and transfer progress of the search.
- Exceptions of request builders other than for WRITE data too large for a frame: names and paths that are too long or not UTF-8.
- Message ids are unbounded; the source wraps them in 64 bits.
- The token provider and the request builders inside the connector are arbitrary functions, and a cancellation there is one of the server's failures.
- `clearAll`, `removeOlderThan`, `localPathFor` and the removal of empty directories of the file cache: no further property. The cache directory is a map from paths to files, without its sub-directories.
- `OperationQueue`, `ConnectionService`, the user interface, settings, logging, the SQLite repositories and the keychain.
- Ccm.DecryptBytes: asks for at least 16 key bytes and a nonce of at most 15, because the code reads the key and places the nonce before it checks either.
- Spnego.FindBytes: offsets are unbounded where the code adds them in 64 bits; the two agree exactly while the sum does not wrap (`Spnego.BoundsTestExact`, `Spnego.BoundsTestOnBytes`), and what the code does then is not modelled.
- Spnego.AppendDerLength: lengths below 2^64 only, which are all a `size_t` can hold.
- Search.Search: the case-insensitive substring test of the library is a parameter, and white space is that of the basic plane.
- CacheEviction.SortOldestFirst: sorts by insertion; callers use only that the result is a sorted permutation, as with the library's unstable sort.
- RecursiveDelete.Share.ListDirectory: one call of the model; its open, pages, close and the polls between them are those of `Session.NativeSession.ListSteps`.
- RecursiveDelete.Share.DeleteObject: states the assumption on the server; the three requests of the client are those of `Session.NativeSession.ThreeSteps`.
- Session.NativeSession.AllocateMessageIds: ids are unbounded and do not wrap at 2^64.
- CacheEviction.TempFileCache.CollectFiles: lists a flat map of files instead of descending into sub-directories.
- RecursiveDelete.Share.DeleteTree: the requests inside one stat, listing or delete are those of `Session.dfy` and not repeated; effects of opening a link without the open-reparse option are the server's.
- Session.NativeSession.CopyFileServerSide: bytes are copied by the server; that it copies what it reports is the hypothesis of `ServerCopy.CompleteCopy`.
