# FullStack crypto core and operation pipeline, in Dafny

This project models the file-encryption engine of `FullStack.Crypto`, the
small helpers around it, and the request pipeline of `FullStack.Svc`. The
following are modelled:

- **Counter** (`counter.dfy`): `ByteExtensions.Increment` treats a byte array
  as an unbounded unsigned integer and grows it by one byte on overflow. It is
  an imperative method over an `array<byte>`, proved against the spec
  functions `IncrementLE` and `IncrementBE`.
- **Block churners** (`aead.dfy`): `IBlockChurner` with its GCM and CCM
  implementations. Each AEAD is a pair of function fields:
  - a counter-mode keystream;
  - a tag function of key, nonce and ciphertext.
- **Stream churn** (`churn.dfy`, `churnprops.dfy`): `ChurnExtensions.Churn`
  over streams.
  - It reads 32 KiB blocks and increments a 12-byte counter per block.
  - It routes one 16-byte tag per block to or from an optional tag stream.
  - Streams are `MemStream` objects (`streams.dfy`): a byte sequence, a
    position and capability flags.
- **File churn** (`filechurn.dfy`): `ChurnExtensions.Churn` over files. The
  file system is a `FileSystem` object holding a map from full path to
  contents and the set of directories that exist. Each step is modelled:
  - target path and tag path;
  - skip or churn;
  - roll back on exception;
  - source deletion.
- **In-place encryption** (`crypt.dfy`, `cryptprops.dfy`):
  `CryptExtensions.Encrypt`, `Decrypt`, `DecryptBlock` and the key-material
  helpers. This covers:
  - the salt permutation;
  - the file name made of the salt's hex;
  - the appended pepper;
  - the per-block counter rebuilt from the block index on decryption.
- **CBC churn** (`cryptocore.dfy`): the stream and file churn of
  `FullStack.Crypto.Extensions`, using AES-CBC under a PBKDF2 key. Its
  argument checks come from `FullStack.Extensions.Crypto.Assert`, which is
  not part of this model; the model assumes that they make the same checks
  with the same messages as `FullStack.Crypto`'s `AssertExtensions`, and
  reuses `Assertions` for them.
- **Helpers**:
  - the `AssertExtensions` checks (`assertions.dfy`);
  - the hex codec and codec dispatch (`codec.dfy`);
  - `Page`/`PageAs` (`paging.dfy`);
  - `Hash`, `LightHash` and `ToAlgorithm` (`hashing.dfy`);
  - `DeriveKey` (`keyderive.dfy`).
- **Operation pipeline** (`svc.dfy`): the stage machine of `Operation`,
  `MappedOperation` and their sync/async `Operate`.
  - `OperationData` is a class whose fields the steps assign.
  - Thrown exceptions are values of a `Completion` datatype.

The cryptographic primitives, the hash algorithms, the base64 and character
encodings and PBKDF2/AES-CBC are parameters. They are function fields of
datatypes such as `Aead.Primitives`, `Hashing.HashFamily`,
`Codec.Encodings` and `CryptoCore.Cbc`. Randomness is a parameter: the pepper
is passed in. So is the current culture's lower-casing (`toLower`), which
`string.ToLower()` applies to each character. Characters are Unicode scalar
values, as Dafny's strings are; .NET strings are UTF-16 code units (see
"## Left out"). So is the platform byte order (`platformLittleEndian`), which
stands for `BitConverter.IsLittleEndian`.

Some behaviour of the code is easy to miss; the model follows the code:

- **`.enc` removal.** `Regex(@"\.enc$")` also matches just before a final
  line feed, and `FileChurn.StripEnc` models that.
- **Hex decoding.** It goes through `Convert.ToByte(pair, 16)`:
  - a `+` sign and a `0x` prefix are recognised;
  - a `-` is an `ArgumentException`;
  - other bad pairs are a `FormatException`.
- **CBC stream churn.** `CryptoExtensions`' stream `Churn` does not rewind the
  source. It transforms from the current position onwards.
- **Tag file.** `File.OpenWrite` does not truncate an existing tag file.
  Stale trailing bytes stay after the newly written tags.

## Model

| member | source | states |
|---|---|---|
| Counter.Increment | FullStack.Crypto/ByteExtensions.cs:25-48 | the counter afterwards is the one-larger integer in the resolved byte order; the same array comes back exactly when some byte was below 0xFF, otherwise a fresh array, with the old one left all zeros |
| Counter.ResolveBigEndian | FullStack.Crypto/ByteExtensions.cs:27 | a given byte order wins; with none, the order is big-endian exactly when the platform is not little-endian |
| Counter.IncrementValue | FullStack.Crypto/ByteExtensions.cs:25-48 | read as an unsigned integer in the chosen order, the counter's value grows by exactly 1 |
| Counter.IncrementLEValue | FullStack.Crypto/ByteExtensions.cs:32-48 | little-endian: the value grows by exactly 1 |
| Counter.IncrementBEValue | FullStack.Crypto/ByteExtensions.cs:32-48 | big-endian: the value grows by exactly 1 |
| Counter.IncrementLEOverflow | FullStack.Crypto/ByteExtensions.cs:32-48 | little-endian: when every byte is 0xFF (the empty array included) the result is all zeros followed by a single 1; otherwise the length is unchanged |
| Counter.IncrementBEOverflow | FullStack.Crypto/ByteExtensions.cs:32-48 | big-endian: when every byte is 0xFF the result is a single 1 followed by all zeros; otherwise the length is unchanged |
| Counter.IncrementLEStopsAt | FullStack.Crypto/ByteExtensions.cs:32-43 | little-endian without overflow: the run of 0xFF below the first smaller byte becomes 0, that byte is incremented, every more significant byte is untouched |
| Counter.IncrementBEStopsAt | FullStack.Crypto/ByteExtensions.cs:32-43 | big-endian without overflow: the same, counted from the end |
| Counter.IncrementMirror | FullStack.Crypto/ByteExtensions.cs:28-48 | big-endian increment of the reversed counter is the reverse of little-endian increment |
| Counter.CountUpLE | FullStack.Crypto/ByteExtensions.cs:25-48 | k little-endian increments of n zero bytes give k's n-byte little-endian encoding |
| Counter.CountUpBE | FullStack.Crypto/ByteExtensions.cs:25-48 | k big-endian increments of n zero bytes give k's n-byte big-endian encoding |
| Counter.IncrementNMirror | FullStack.Crypto/ByteExtensions.cs:28-48 | k big-endian increments of a reversed counter are the reverse of k little-endian increments |
| Aead.GetChurner | FullStack.Crypto/ChurnExtensions.cs:139-144 | the churner is GCM exactly when `isGcm`, otherwise CCM, keyed with the SHA-256 of the unique key |
| Aead.ChurnBlock | FullStack.Crypto/GcmBlockChurner.cs:36-53 | the output is as long as the input; encryption and authless decryption are the same sealing operation; authenticated decryption succeeds exactly when the tag matches, else throws a cryptographic error |
| Aead.Open | FullStack.Crypto/GcmBlockChurner.cs:47-50 | opening succeeds exactly when the tag is the one the ciphertext determines, keeps the length, and fails only with a cryptographic error |
| Aead.OpenSeal | FullStack.Crypto/GcmBlockChurner.cs:43-50 | opening what sealing produced, with its tag, gives the plaintext back |
| Aead.SealInvolution | FullStack.Crypto/GcmBlockChurner.cs:43-46 | sealing is its own inverse for a fixed key and nonce (the authless round trip) |
| Aead.OpenRejects | FullStack.Crypto/GcmBlockChurner.cs:47-50 | any tag other than the sealed one is rejected with a tag-mismatch error |
| Aead.CounterAtValue | FullStack.Crypto/ChurnExtensions.cs:102-118 | the counter used for block k (1-based) is k's 12-byte encoding in the platform byte order |
| Aead.CounterAtNext | FullStack.Crypto/ChurnExtensions.cs:118 | the counter of block k + 1 is the increment of block k's |
| ChurnEngine.UniqueKey | FullStack.Crypto/ChurnExtensions.cs:109 | the churner key is the pass followed by the salt |
| ChurnEngine.Churn | FullStack.Crypto/ChurnExtensions.cs:91-137 | the source is unchanged and the target, tag stream and positions are those of the block-by-block run `Churned` from a rewound source, a truncated target and a zero counter; the target ends at position 0 when nothing threw |
| ChurnProperties.EncryptChurn | FullStack.Crypto/ChurnExtensions.cs:99-137 | encryption never throws; the target is the counter-mode image of the source, of the same length; the tag stream receives one tag per block in block order |
| ChurnProperties.AuthlessDecryptChurn | FullStack.Crypto/ChurnExtensions.cs:120-133 | decryption without a tag stream never throws and produces the counter-mode image |
| ChurnProperties.AuthenticatedDecryptChurn | FullStack.Crypto/ChurnExtensions.cs:120-133 | decryption with a tag stream holding the right tags never throws, produces the counter-mode image and consumes one tag per block |
| ChurnProperties.RoundTripAuthless | FullStack.Crypto/ChurnExtensions.cs:91-137 | decrypting without tags what encryption produced gives the source back |
| ChurnProperties.RoundTripAuthenticated | FullStack.Crypto/ChurnExtensions.cs:91-137 | decrypting with the tags encryption wrote gives the source back without an error and reads every tag |
| ChurnProperties.TamperedFirstTag | FullStack.Crypto/ChurnExtensions.cs:120-133 | a wrong first tag stops authenticated decryption with a cryptographic error before anything is written |
| ChurnProperties.TamperedTag | FullStack.Crypto/ChurnExtensions.cs:100-133 | after the expected tags of blocks 0..k-1, any other whole tag at block k stops authenticated decryption at block k with a cryptographic error, the output holding exactly the counter-mode image of the blocks before it |
| ChurnProperties.ChurnFailures | FullStack.Crypto/ChurnExtensions.cs:111-134 | only authenticated decryption can throw, and only a cryptographic error |
| Assertions.AssertReadable | FullStack.Crypto/AssertExtensions.cs:21-27 | throws an ArgumentException exactly when the stream is null, unreadable, unseekable or empty |
| Assertions.AssertWriteable | FullStack.Crypto/AssertExtensions.cs:34-40 | throws an ArgumentException exactly when the stream is null, unwriteable, unseekable or not empty |
| Assertions.AssertReusable | FullStack.Crypto/AssertExtensions.cs:47-53 | throws exactly when the hasher cannot reuse its transform |
| Assertions.AssertExists | FullStack.Crypto/AssertExtensions.cs:60-66 | throws exactly when the file is missing, naming its full path |
| Codec.EncodeHex | FullStack.Text.Extensions/Codec/CodecExtensions.cs:94-103 | the hex text of the bytes, two characters per byte |
| Codec.ToHexAt | FullStack.Text.Extensions/Codec/CodecExtensions.cs:97-100 | characters 2i and 2i+1 are the high and low hex digits of byte i |
| Codec.ToHexNoUpper | FullStack.Text.Extensions/Codec/CodecExtensions.cs:99 | the hex text holds no upper-case letter |
| Codec.ParsePair | FullStack.Text.Extensions/Codec/CodecExtensions.cs:80 | two hex digits (other than a "0x" prefix) parse to their base-16 value; a failure is an ArgumentException or a FormatException |
| Codec.DecodeHex | FullStack.Text.Extensions/Codec/CodecExtensions.cs:75-84 | decoding a string of length L gives floor(L/2) bytes or the error of the first bad pair |
| Codec.FromHexPairsAt | FullStack.Text.Extensions/Codec/CodecExtensions.cs:78-81 | byte i is the value of characters 2i and 2i+1 |
| Codec.FromHexPairsSuccess | FullStack.Text.Extensions/Codec/CodecExtensions.cs:78-81 | decoding succeeds exactly when every pair parses |
| Codec.FromHexPairsFailure | FullStack.Text.Extensions/Codec/CodecExtensions.cs:78-81 | decoding fails with the error of the first pair that does not parse |
| Codec.OddCharacterIgnored | FullStack.Text.Extensions/Codec/CodecExtensions.cs:77 | an odd trailing character does not change the result |
| Codec.FromHexToHex | FullStack.Text.Extensions/Codec/CodecExtensions.cs:75-103 | decoding the hex text of any bytes gives those bytes back |
| Codec.AsBytes | FullStack.Text.Extensions/Codec/CodecExtensions.cs:70-87 | Hex and Base64 decode; any other codec value v is a NotSupportedException "v -> bytes unsupported", v printed as its number |
| Codec.AsString | FullStack.Text.Extensions/Codec/CodecExtensions.cs:89-106 | Hex and Base64 encode; any other codec value v is a NotSupportedException "v -> string unsupported", v printed as its number |
| Codec.CharBytes | FullStack.Text.Extensions/Codec/CodecExtensions.cs:59-68 | ASCII, UTF-16 and UTF-8 encode; any other value v is a NotSupportedException "v unsupported", v printed as its number |
| Codec.CharString | FullStack.Text.Extensions/Codec/CodecExtensions.cs:59-68 | ASCII, UTF-16 and UTF-8 decode; any other value v is a NotSupportedException "v unsupported", v printed as its number |
| Codec.HexRoundTrip | FullStack.Text.Extensions/Codec/CodecExtensions.cs:32-57 | `AsBytes(AsString(b, Hex), Hex) == b` |
| Paging.Page | FullStack.Linq.Extensions/Page/PageExtensions.cs:24-46 | more than `int.MaxValue` items are an OverflowException from `Count()`, and only then; otherwise page number and size are clamped to at least 1 and reported, the total is the item count, at most a page of data, and the total page count as `TotalPages` states |
| Paging.TotalPages | FullStack.Linq.Extensions/Page/PageExtensions.cs:43 | at least 1, enough pages to hold every item, and not one page more than needed |
| Paging.PageData | FullStack.Linq.Extensions/Page/PageExtensions.cs:33-36 | the data is the items from (p-1)*s up to p*s, truncated at the end; a page past the end is empty |
| Paging.PagesPrefix | FullStack.Linq.Extensions/Page/PageExtensions.cs:33-36 | the first k pages put together are the first k*s items |
| Paging.AllPages | FullStack.Linq.Extensions/Page/PageExtensions.cs:33-43 | pages 1 to `TotalPages` put together are exactly the items |
| Paging.PageAs | FullStack.Linq.Extensions/Page/PageExtensions.cs:58-73 | fails exactly when `Page` does, with its exception; otherwise the same page metadata as `Page`, with each item of `Page`'s data mapped |
| Paging.PageAsWritten | FullStack.Linq.Extensions/Page/PageExtensions.cs:24-46 | the page as the code computes it, with the 32-bit offset; the same OverflowException for more than `int.MaxValue` items, and it agrees with `Page` whenever the offset fits in an int |
| Paging.PageAsWrittenWraps | FullStack.Linq.Extensions/Page/PageExtensions.cs:34 | page 2^30+1 of size 4 over four items is empty, but the code returns the first page |
| Hashing.ToAlgorithm | FullStack.Crypto/Hash/HashExtensions.cs:119-130 | the five algorithm values map to their hashers; any other value is a NotSupportedException naming it |
| Hashing.HashBytes | FullStack.Crypto/Hash/HashExtensions.cs:23-27 | the digest of the bytes under the chosen algorithm, or the NotSupportedException |
| Common.IntText | FullStack.Crypto/Hash/HashExtensions.cs:128 | an undefined enum value prints as its signed decimal number |
| Common.DecimalRoundTrip | FullStack.Crypto/Hash/HashExtensions.cs:97 | the decimal text of the stream length reads back as that length |
| Hashing.HashStream | FullStack.Crypto/Hash/HashExtensions.cs:37-43 | an unreadable or empty stream is refused with its position untouched; otherwise the digest of the whole stream (or the unsupported-algorithm error), the stream left at its end after a digest |
| Hashing.HashFile | FullStack.Crypto/Hash/HashExtensions.cs:51-55 | a missing file is refused; otherwise the stream hash of its contents |
| Hashing.SampleSchedule | FullStack.Crypto/Hash/HashExtensions.cs:102-112 | chunk k is sampled exactly when offset k*(chunkSize+skip) is inside the stream, and holds min(chunkSize, rest) bytes from there |
| Hashing.SampleTotal | FullStack.Crypto/Hash/HashExtensions.cs:102-112 | the number of chunks is the number of offsets below the length |
| Hashing.ReadSamples | FullStack.Crypto/Hash/HashExtensions.cs:105-112 | the read loop feeds exactly the sampled chunks, in order |
| Hashing.LightHash | FullStack.Crypto/Hash/HashExtensions.cs:87-117 | the algorithm, reusability and readability are checked in that order before anything is read; a negative chunk size is then an OverflowException with the stream untouched; otherwise the digest of the seeded length digest and the sampled chunks, with the stream back at 0 |
| Hashing.LightHashFile | FullStack.Crypto/Hash/HashExtensions.cs:66-74 | a missing file is refused; for an existing file, an unknown algorithm, a non-reusable transform and (then) an empty file throw the errors `LightHash` gives; otherwise the light hash of its contents, a negative chunk size being an OverflowException |
| KeyDerivation.DeriveKey | FullStack.Crypto/StringExtensions.cs:22-39 | the fold over the sorted hex strings, then SHA-1 of the final seed |
| KeyDerivation.OrderIndependent | FullStack.Crypto/StringExtensions.cs:24-34 | two source lists that are permutations of each other derive the same key |
| KeyDerivation.NoSources | FullStack.Crypto/StringExtensions.cs:36-38 | with no sources the key is SHA-1 of the UTF-8 seed |
| KeyDerivation.KeyLength | FullStack.Crypto/StringExtensions.cs:36-38 | the key is a 20-byte digest |
| KeyDerivation.HexHashes | FullStack.Crypto/StringExtensions.cs:24-26 | one hex string per source, duplicates kept, as a permutation of the sources' hex |
| KeyDerivation.SortSorted | FullStack.Crypto/StringExtensions.cs:26 | the hex strings are folded in ordinal (code-unit) order |
| KeyDerivation.SortedUnique | FullStack.Crypto/StringExtensions.cs:26 | there is one sorted arrangement of a multiset of strings, so the order of the sources cannot matter |
| Crypt.Scramble | FullStack.Crypto/CryptExtensions.cs:42-44 | the three in-place reversals leave `[h2,h1,h0] ++ h[8..] ++ h[3..8]` |
| Crypt.ReverseRange | FullStack.Crypto/CryptExtensions.cs:42-44 | `Array.Reverse(a, lo, hi - lo)` reverses that range and nothing else |
| Crypt.ScrambledPermutation | FullStack.Crypto/CryptExtensions.cs:42-44 | the salt is a permutation of the digest |
| Crypt.ScrambledInjective | FullStack.Crypto/CryptExtensions.cs:42-44 | different digests give different salts |
| Crypt.EncryptedFileName | FullStack.Crypto/CryptExtensions.cs:70 | for any culture's lower-casing that keeps separators and lower-case hex digits, the encrypted file is named by the salt's hex followed by the lower-cased original extension |
| Crypt.LowerFileName | FullStack.Crypto/CryptExtensions.cs:70 | for any such culture's lower-casing, lower-casing the whole path lower-cases its file name and nothing moves across a separator |
| Crypt.GenerateSalt | FullStack.Crypto/CryptExtensions.cs:127-130 | a file name shorter than 64 characters is refused; otherwise its first 64 characters hex-decoded |
| Crypt.SaltFromName | FullStack.Crypto/CryptExtensions.cs:45-130 | the salt read back from the encrypted file's name is the salt used to encrypt |
| Crypt.GeneratePepper | FullStack.Crypto/CryptExtensions.cs:137-144 | the last 32 bytes, with the stream left at 0; a shorter stream is an IOException |
| Crypt.GenerateAesKey | FullStack.Crypto/CryptExtensions.cs:116-120 | the cipher key is SHA-256(pepper ++ key ++ reverse(salt)) |
| Crypt.CounterCoherence | FullStack.Crypto/CryptExtensions.cs:179-183 | the counter `DecryptBlock` builds for block k (8-byte block number and four zero bytes in platform order) equals the zero counter after k increments, on either byte order |
| Crypt.Encrypt | FullStack.Crypto/CryptExtensions.cs:30-72 | a negative buffer length, a missing file and an empty one are refused before anything is written; otherwise the file is overwritten in place by its ciphertext plus pepper and the tag stream gets one tag per block; then, when the directory of the new path (the salt-hex name, the whole path lower-cased by the culture's `toLower`) exists, the file moves there, and when it does not, a DirectoryNotFoundException leaves the encrypted file under its old name |
| Crypt.PlaceEncrypted | FullStack.Crypto/CryptExtensions.cs:67-71 | the pepper is written and the file moved to the lower-cased salt-hex path, or, when that path's directory does not exist, left encrypted under its old name with a DirectoryNotFoundException |
| Crypt.LowerDirectoryName | FullStack.Crypto/CryptExtensions.cs:70 | lower-casing a whole path lower-cases its directory name and nothing else, for any lower-casing that keeps separators |
| Crypt.EncryptedDirectory | FullStack.Crypto/CryptExtensions.cs:70-71 | the directory `MoveTo` needs is the file's own directory lower-cased: on a case-sensitive file system a file in "/Data" with no "/data" cannot be moved |
| Crypt.EncryptBlocks | FullStack.Crypto/CryptExtensions.cs:51-65 | each block is overwritten in place by its ciphertext, of the same length, and its tag written in block order |
| Crypt.DecryptedBlock | FullStack.Crypto/CryptExtensions.cs:174-177 | each read is min(length - 32 - position, buffer) bytes, so the pepper is never read; a position inside the pepper is an ArgumentOutOfRangeException |
| Crypt.DecipherBlockSpec | FullStack.Crypto/CryptExtensions.cs:185-192 | without authentication the block is deciphered by sealing; with it, success exactly when the tag matches, and a failure is a cryptographic error |
| Crypt.DecryptBlock | FullStack.Crypto/CryptExtensions.cs:166-195 | the read count, position and buffers are those of `DecryptedBlock` |
| Crypt.Decrypt | FullStack.Crypto/CryptExtensions.cs:83-107 | a negative buffer length is an OverflowException before anything changes; then a bad file name, a missing file or a file shorter than the pepper are refused as the code does; otherwise the target receives the blocks of the run `Decrypted` and the tag stream is read one tag per block |
| CryptProperties.DecryptOfEncrypted | FullStack.Crypto/CryptExtensions.cs:99-106 | decrypting ciphertext laid out as `Encrypt` leaves it yields the plaintext, without an error, consuming one tag per block |
| CryptProperties.EncryptThenDecrypt | FullStack.Crypto/CryptExtensions.cs:30-107 | `Decrypt` of the file `Encrypt` produced, with or without the tags it wrote, gives back the original content |
| CryptProperties.TamperedTagStopsDecrypt | FullStack.Crypto/CryptExtensions.cs:185-188 | a wrong tag at block k stops authenticated decryption there with a cryptographic error, leaving exactly the plaintext before block k |
| FileChurn.StripEnc | FullStack.Crypto/ChurnExtensions.cs:44 | one final ".enc" is removed, and a name without it is unchanged |
| FileChurn.TargetPathRules | FullStack.Crypto/ChurnExtensions.cs:40-44 | an override name is the target's file name in the source directory; otherwise encrypt appends ".enc" and decrypt removes one trailing ".enc" |
| FileChurn.TargetPathRoundTrip | FullStack.Crypto/ChurnExtensions.cs:40-44 | decrypting the name encryption chose gives back the source name |
| FileChurn.Churn | FullStack.Crypto/ChurnExtensions.cs:27-79 | the outcome and the files afterwards are those of `FileChurned` |
| FileChurn.OpenAndChurn | FullStack.Crypto/ChurnExtensions.cs:60-72 | opening target, source and tag file, churning and disposing leave the outcome and files of `Tried` |
| FileChurn.ChurnedFile | FullStack.Crypto/ChurnExtensions.cs:36-78 | direction from `IsDecrypt`, GCM unless `IsCcm`, tag file beside the encrypted file; a churn that opens cleanly and does not throw leaves the target (and tag file when encrypting) as the stream churn wrote them and deletes the source unless kept |
| FileChurn.SkipKeepsTarget | FullStack.Crypto/ChurnExtensions.cs:56-60 | when the target exists, no redo is asked and any needed tag file exists, the existing target is left untouched |
| FileChurn.FailureRollsBack | FullStack.Crypto/ChurnExtensions.cs:61-72 | when the churn throws, the target is gone and every other file, the source included, is as before |
| FileChurn.ChurnFrame | FullStack.Crypto/ChurnExtensions.cs:27-79 | files other than source, target and tag file are untouched |
| FileChurn.SourceKeptOrDeleted | FullStack.Crypto/ChurnExtensions.cs:75-78 | after a churn or a skip the source is gone exactly when `KeepSource` is not set, and kept unchanged otherwise |
| FileChurn.FileRoundTrip | FullStack.Crypto/ChurnExtensions.cs:27-79 | encrypting a file and decrypting the ".enc" file, with or without authentication, restores the original contents at the original path |
| FileChurn.SameTargetLosesSource | FullStack.Crypto/ChurnExtensions.cs:40-78 | decrypting a name without ".enc" targets the source itself and deletes it |
| FileChurn.GuardedKeepsData | FullStack.Crypto/ChurnExtensions.cs:40-78 | with a guard refusing a target equal to the source, a normal return leaves a target and an exception leaves the source intact |
| CryptoCore.Cryptor | FullStack.Crypto.Extensions/Core/CryptoExtensions.cs:208-217 | key derivation fails exactly for a salt under 8 bytes or a non-positive iteration count, the salt checked first |
| CryptoCore.StreamChurn | FullStack.Crypto.Extensions/Core/CryptoExtensions.cs:197-226 | readable source and writeable target are asserted before the cipher is built, and a refusal changes nothing; the target is truncated, receives the transform of the rest of the source, and ends at 0 on success |
| CryptoCore.Churn | FullStack.Crypto.Extensions/Core/CryptoExtensions.cs:83-124 | the outcome and files afterwards are those of `CryptoCore.FileChurned` |
| CryptoCore.OpenAndChurn | FullStack.Crypto.Extensions/Core/CryptoExtensions.cs:106-118 | opening target and source and churning leave the outcome and files of `CryptoCore.Tried` |
| CryptoCore.EmptySourceRefused | FullStack.Crypto.Extensions/Core/CryptoExtensions.cs:205 | an empty source is refused as unreadable and the new target is removed again |
| CryptoCore.FailureRollsBack | FullStack.Crypto.Extensions/Core/CryptoExtensions.cs:113-117 | when the churn throws, the target is gone and the source survives |
| CryptoCore.ChurnedFile | FullStack.Crypto.Extensions/Core/CryptoExtensions.cs:104-123 | the churn happens exactly when the target is missing or redo is asked; a churn that does not throw leaves the transform in the target and deletes the source unless kept |
| CryptoCore.FileRoundTrip | FullStack.Crypto.Extensions/Core/CryptoExtensions.cs:83-124 | for a sound cipher, encrypting a non-empty file and decrypting the ".enc" file restores the original |
| CryptoCore.SameTargetLosesSource | FullStack.Crypto.Extensions/Core/CryptoExtensions.cs:97-123 | decrypting a name without ".enc" targets the source itself and deletes it |
| CryptoCore.GuardedKeepsData | FullStack.Crypto.Extensions/Core/CryptoExtensions.cs:97-123 | with the guard, a normal return leaves a target and an exception leaves the source intact |
| Svc.AssertValid | FullStack.Svc/OperationBase.cs:49-58 | throws exactly when the errors are non-null and non-empty, carrying those errors, the operation data and the message |
| Svc.PreOp | FullStack.Svc/Operation.cs:21-27 | the result and the operation data afterwards are those of `PreOpped`: stage CheckingRequest assigned, request recorded, the request check's errors asserted |
| Svc.PostOp | FullStack.Svc/Operation.cs:35-44 | the result and the operation data afterwards are those of `PostOpped`: stage CheckingResponse assigned, response recorded, the response check's errors asserted |
| Svc.DefaultPreOp | FullStack.Svc/Operation.cs:21-27 | `PreOp` records stage and request, leaves the response alone, and throws "Request is invalid" exactly when the request has validation errors |
| Svc.DefaultPostOp | FullStack.Svc/Operation.cs:35-44 | `PostOp` records stage and response, leaves the request alone, and throws "Response is invalid" exactly when the response has validation errors |
| Svc.Operate | FullStack.Svc/SyncOperation.cs:20-36 | fresh operation data; the result and what it records are those of `Operated` |
| Svc.OperateSucceeds | FullStack.Svc/SyncOperation.cs:20-36 | success exactly when both checks pass and `OperateInternal` returns; the response is `OperateInternal`'s and the stages are CheckingRequest then CheckingResponse |
| Svc.InvalidRequestSkipsInternal | FullStack.Svc/SyncOperation.cs:25-26 | when the request check throws, the run does not depend on `OperateInternal` |
| Svc.OperateEscapes | FullStack.Svc/SyncOperation.cs:30-35 | what escapes is an InvalidItemsException, or an OperationException "Unexpected error" carrying the operation data and the original as inner |
| Svc.InternalFailureStage | FullStack.Svc/SyncOperation.cs:25-34 | a failure inside `OperateInternal` is wrapped and reported at stage CheckingRequest |
| Svc.MappedPreOp | FullStack.Svc/MappedOperation.cs:68-84 | the stages, recorded values and result of `MappedPreOpped` |
| Svc.MappedPostOp | FullStack.Svc/MappedOperation.cs:94-114 | the stages, recorded values and result of `MappedPostOpped` |
| Svc.OperateMapped | FullStack.Svc/MappedSyncOperation.cs:22-38 | fresh operation data; the result and what it records are those of `MappedOperated` |
| Svc.MappedSucceeds | FullStack.Svc/MappedSyncOperation.cs:22-38 | a normal return has assigned the six stages in order, recorded all four values and returns `MapOut`'s result |
| Svc.NeverOperating | FullStack.Svc/MappedSyncOperation.cs:27-29 | stage Operating is never assigned, and the stages assigned are a prefix of the six |
| Svc.InnerFailureStage | FullStack.Svc/MappedSyncOperation.cs:27-28 | a failure in `OperateInner` is wrapped and reported at stage CheckingInnerRequest |
| Svc.InvalidRequestSkipsMapIn | FullStack.Svc/MappedOperation.cs:70-76 | when the initial request check throws, the run depends neither on `MapIn` nor on `OperateInner` |
| Svc.ResponseAfterMapOut | FullStack.Svc/MappedOperation.cs:105-109 | a recorded response is what `MapOut` returned for the recorded inner request and response |
| Svc.DefaultInnerChecksPass | FullStack.Svc/MappedOperation.cs:27-41 | with the default (null) inner checks, success exactly when the request check passes, `MapIn`, `OperateInner` and `MapOut` return and the final check passes |

## Left out

- Async variants: `ChurnAsync` (`CryptoExtensions.cs:31-72`, `156-185`) and `OperateAsync` (`AsyncOperation.cs:21-37`, `MappedAsyncOperation.cs:23-39`) make the same decisions in the same order as their sync counterparts, which model them; task scheduling is not modelled.
- Cryptographic primitives: AES-GCM, AES-CCM, AES-CBC with PKCS7, PBKDF2, SHA-1, SHA-256, MD5, SHA-384 and SHA-512 are function fields. The AEADs are modelled only as counter-mode keystream plus tag; `CryptoCore.Sound` states the CBC assumption the round trip needs.
- Randomness: `RandomNumberGenerator.Fill` is replaced by a pepper parameter of 32 bytes.
- File and stream I/O is an in-memory map, a set of existing directories and `MemStream`. Directories are only consulted by `FileSystem.Move`; opening a file in a missing directory is the missing-file case. Sharing modes only appear as `FileChurn.OpenConflict`: an IOException when the same file is opened twice in conflicting modes.
- `CryptoStream` disposing its source stream is not modelled; the source stream's state after `CryptoCore.StreamChurn` is its state before disposal.
- Floating point: `Math.Ceiling` and `Math.Floor` of a double quotient (`CryptExtensions.cs:99` and `:179`) are modelled as exact integer ceiling and floor division, and the truncating `(long)` cast of a double quotient (`HashExtensions.cs:102`) as exact integer division; a rounded double quotient can differ from these only for operands near 2^53. `PageExtensions.cs:43` divides in `decimal`, which for int operands gives the exact ceiling that `Paging.TotalPages` states.
- Crypt.Decrypt: the `(int)` narrowing of the read size (`CryptExtensions.cs:177`) is not modelled; the read size never exceeds the buffer length, which is an int.
- Hashing.LightHash: requires at least one read. With `reads` 0 the skip is `(long)(Length / 0.0)`, a conversion of infinity whose value depends on the platform; with a negative count the stream seeks backwards and either throws an IOException or, when the chunk covers the stream, never ends.
- Hashing.LightHashFile: the same restriction to at least one read, for the same reasons.
- Crypt.Decrypt: requires a non-zero buffer length. With 0 the block count is `(long)Math.Ceiling(x / 0.0)`, a conversion of infinity or NaN whose value depends on the platform. It also requires a writeable, seekable target and a readable tag stream; otherwise the stream's NotSupportedException is not modelled.
- Crypt.Encrypt: requires a writeable tag stream when one is given; a read-only one would throw NotSupportedException after the first block, which is not modelled.
- ChurnEngine.Churn: requires a readable, seekable source, a writeable, seekable target and a tag stream that can be written (encrypting) or read (decrypting); the NotSupportedException such a stream throws is not modelled.
- Crypt.CounterCoherence: requires the block number to be below 2^63, the range of the `long` block number.
- Crypt.Encrypt: `string.ToLower()` is modelled as the culture's mapping applied to each character, a character being a Unicode scalar value; .NET strings are UTF-16 code units, and how .NET lowers the surrogate pair of a character outside the Basic Multilingual Plane is not modelled.
- Codec.DecodeHex: characters outside the Basic Multilingual Plane count as one character, where .NET's `Length` and `Substring` count them as two UTF-16 code units. `Codec.AsBytes`, `Crypt.GenerateSalt` and `Crypt.Decrypt` inherit this. `FromHex` of a lone emoji succeeds with no bytes where `Convert.ToByte` of the surrogate pair throws a FormatException. A 64-code-unit file name holding one such character is 63 characters here, so `GenerateSalt` reports an ArgumentOutOfRangeException where the source throws a FormatException, and in longer names the 64-character prefix differs. Text inside the Basic Multilingual Plane is modelled exactly.
- CryptoCore: the argument checks of `FullStack.Extensions.Crypto.Assert` are not part of this model; `CryptoCore.StreamChurn` and `CryptoCore.OpenAndChurn` assume they are those of `Assertions`, with the same messages.
- KeyDerivation.SortSorted: the hex strings are sorted in ordinal order, whereas `OrderBy(s => s)` (`StringExtensions.cs:26`) compares with the current culture's collation. A culture whose collation orders lower-case hex text differently (Danish and Norwegian sort "aa" as "å", after "f") folds the sources in another order and derives another key. `KeyDerivation.DeriveKey` and `KeyDerivation.OrderIndependent` are stated for the ordinal order.
- Validation (`ValidationExtensions.cs`, reflection over data annotations) is an abstract error-list function; `InvalidItem` omits the offending property value.
- Base64, ASCII, UTF-16 and UTF-8 are abstract functions of `Codec.Encodings`; the hex codec is modelled in full for characters inside the Basic Multilingual Plane (see `Codec.DecodeHex` above).
- Svc: the four generic types of a mapped operation are one type parameter `V`; requests and responses of every kind are values of it.
- HTTP, JSON and database helpers are not part of this model.

## Findings

| source | as written | input that shows it | evidently intended | confidence | as-written member | corrected member |
|---|---|---|---|---|---|---|
| FullStack.Linq.Extensions/Page/PageExtensions.cs:34 | the offset `pageSize * (pageNumber - 1)` is an unchecked 32-bit product and wraps | items [10,20,30,40], pageNumber 2^30+1, pageSize 4: the offset wraps to 0 and the first page is returned | a page past the end is empty | not executed | Paging.PageAsWrittenWraps | Paging.PageData |
| FullStack.Crypto/ChurnExtensions.cs:40-78 | decrypting a file whose name does not end in ".enc" (or giving the source's own name as override) makes the target the source itself; the existing "target" skips the churn and the source is then deleted, or, with RedoTarget, deleted before the churn fails | decrypt "/d/a.txt" with default flags: the call returns normally and "/d/a.txt" is gone | the file is refused and left in place | not executed | FileChurn.SameTargetLosesSource | FileChurn.GuardedKeepsData |
| FullStack.Crypto.Extensions/Core/CryptoExtensions.cs:97-123 | the same target path rule and skip/delete sequence lose the source in the same way | decrypt "/d/a.txt" with default flags: the call returns normally and "/d/a.txt" is gone | the file is refused and left in place | not executed | CryptoCore.SameTargetLosesSource | CryptoCore.GuardedKeepsData |
