# TTPlayer lyrics protocol and ID3v1 tag reader, in Dafny

This project models two byte-level parts of the Kreogist Mu music player.

**The TTPlayer lyrics downloader** (`knmusicttplayerlyrics.cpp`) works in two rounds:

- The first round sends a discovery request to each of the two TTPlayer mirror hosts. The request carries artist and title as uppercase hexadecimal UTF-16LE.
- Every `lrc` record found in the replies is then downloaded. Each download request carries an authentication code, computed by `generateCode`, a bit-exact 32-bit hash of the UTF-8 bytes of artist + title and of the record's numeric id.
- The second round saves every reply that carries lyrics.

What the downloader asks of its base class becomes a list of actions: set the number of replies to wait for, fetch a URL, save lyrics, complete the request.

**The ID3v1 / ID3v1.1 tag reader** (`knmusictagid3v1.cpp`):

- It checks that a file holds a 128-byte record that starts with `TAG`.
- It slices the fixed-width fields, temporarily NUL-terminating each one in place with `backupByte`.
- It writes the fields into the detail record.

The modules are:

- `Bytes`: bytes and their signed `char` reading.
- `Hex`: the uppercase Base16 encoders of section 8 of RFC 4648, and the pairwise decoder of `generateCode`.
- `Decimal`: `QString::number` and `QString::toLongLong` on decimal text.
- `TtplayerCode`: `conv` and `generateCode`.
- `TtplayerLyrics`: `generateInitialUrl`, `initialStep` and `processStep`.
- `Id3v1`: `backupByte`, `parseRawData`, `writeTagDataToDetailInfo` and `praseTag`.

How the code is modelled:

- Loops of the source are methods with loop invariants, each proved equal to a function.
- The tag buffer is an `array`.
- `ID3v1Struct` and the detail record are classes whose fields the methods update.
- Each 32-bit word of `generateCode` is held either as a `bv32` (for the bit operations) or as its residue modulo 2^32 (for the wrapping sums, shifts and products). Each conversion between the two is stated explicitly.

Three details of the code are easy to misread:

- The code is the decimal of an **unsigned** 32-bit number, never negative. The comparison at `knmusicttplayerlyrics.cpp:227` is against `(qint32)0x80000000`, which is -2^31 and lies below every value of `conv`. So the branch is always taken, and its masked subtraction gives the value back (`FinalCorrectionIsIdentity`).
- When bits 24-31 of the id are zero, the low byte of `t3` is the complement of the id's **low** byte, not of its top byte (`T3LowByte`).
- The forward pass starts again from `t1 = 0`.

## Model

| member | source | states |
|---|---|---|
| Bytes.SignedByte | src/plugin/knmusicplugin/plugin/knmusicttplayerlyrics/knmusicttplayerlyrics.cpp:199 | the `(qint8)` reading of a byte lies in [-128, 128), is congruent to the byte modulo 256, and is the byte or the byte minus 256 |
| Hex.NumberBase16 | src/plugin/knmusicplugin/plugin/knmusicttplayerlyrics/knmusicttplayerlyrics.cpp:246 | `QString::number(v, 16)` gives one lower-case digit below 16 and exactly two (high, low) for 16..255 |
| Hex.ToUpperOfLowerHex | src/plugin/knmusicplugin/plugin/knmusicttplayerlyrics/knmusicttplayerlyrics.cpp:246 | upper-casing the lower-case base-16 digits gives upper-case hexadecimal text of the same length |
| Hex.AppendedDigitsArePair | src/plugin/knmusicplugin/plugin/knmusicttplayerlyrics/knmusicttplayerlyrics.cpp:242-246 | the optional '0' plus the upper-cased base-16 number is exactly the two-digit uppercase pair of the byte, zero-padded below 16 |
| Hex.HexText | src/plugin/knmusicplugin/plugin/knmusicttplayerlyrics/knmusicttplayerlyrics.cpp:240-248 | the encoding of n bytes has length 2n and consists of uppercase hex digits only |
| Hex.HexTextAppend | src/plugin/knmusicplugin/plugin/knmusicttplayerlyrics/knmusicttplayerlyrics.cpp:240-248 | the encoding of a concatenation is the concatenation of the encodings (byte-by-byte appending) |
| Hex.Utf8HexText | src/plugin/knmusicplugin/plugin/knmusicttplayerlyrics/knmusicttplayerlyrics.cpp:234-249 | the loop appending a '0' below 16 and the upper-cased digits produces the Base16 encoding of the UTF-8 bytes |
| Hex.Utf16LEHex | src/plugin/knmusicplugin/plugin/knmusicttplayerlyrics/knmusicttplayerlyrics.cpp:251-273 | fewer than 2 bytes give empty text; otherwise the result is the encoding of bytes 2..n-1, of length 2(n-2) |
| Hex.HexDigitValue | src/plugin/knmusicplugin/plugin/knmusicttplayerlyrics/knmusicttplayerlyrics.cpp:176 | a character's value is -1 exactly when it is neither 0-9, A-F nor a-f, otherwise in [0, 16); an upper-case digit's value is the digit it writes |
| Hex.ToIntBase16 | src/plugin/knmusicplugin/plugin/knmusicttplayerlyrics/knmusicttplayerlyrics.cpp:176 | `toInt(0, 16)` of the one- or two-digit slices `utf8HexText` produces is below 256, a single digit reads as its value and a pair of digits as sixteen times the first plus the second; the model reads an empty slice or one holding a character other than a hex digit as 0 |
| Hex.Mid2 | src/plugin/knmusicplugin/plugin/knmusicttplayerlyrics/knmusicttplayerlyrics.cpp:176 | `mid(i, 2)` is the text starting at i: two characters, or the one or none left at the end of the text |
| Hex.HexPairValue | src/plugin/knmusicplugin/plugin/knmusicttplayerlyrics/knmusicttplayerlyrics.cpp:176 | reading the pair of a byte in base 16 gives the byte back |
| Hex.DecodePairs | src/plugin/knmusicplugin/plugin/knmusicttplayerlyrics/knmusicttplayerlyrics.cpp:171-177 | the pairwise reading of the hex text: each `mid(i, 2)` read with `toInt(0, 16)` becomes one byte, then the text from i + 2; DecodeHexText shows it inverts HexText |
| Hex.DecodeHexText | src/plugin/knmusicplugin/plugin/knmusicttplayerlyrics/knmusicttplayerlyrics.cpp:171-177 | decoding the encoding pairwise recovers exactly the bytes, and their number is half the text length |
| Hex.Utf16LEHexDecodes | src/plugin/knmusicplugin/plugin/knmusicttplayerlyrics/knmusicttplayerlyrics.cpp:256-272 | the hex of a UTF-16LE array of at least 2 bytes decodes to the array without its byte order mark |
| Decimal.DecimalText | src/plugin/knmusicplugin/plugin/knmusicttplayerlyrics/knmusicttplayerlyrics.cpp:231 | `QString::number(n, 10)` of n >= 0 is a non-empty digit string without a leading zero |
| Decimal.NumberText | src/plugin/module/knmusicplugin/plugin/knmusictagid3v1/knmusictagid3v1.cpp:114 | the decimal of any integer is digits, or a '-' followed by digits |
| Decimal.ToLongLong | src/plugin/knmusicplugin/plugin/knmusicttplayerlyrics/knmusicttplayerlyrics.cpp:178 | `toLongLong()` always yields a qint64 |
| Decimal.DigitsValueOfDecimalText | src/plugin/knmusicplugin/plugin/knmusicttplayerlyrics/knmusicttplayerlyrics.cpp:231 | the digits written for n denote n |
| Decimal.DecimalTextRoundTrip | src/plugin/knmusicplugin/plugin/knmusicttplayerlyrics/knmusicttplayerlyrics.cpp:231 | a non-negative qint64 written in decimal reads back as itself |
| Decimal.NumberTextRoundTrip | src/plugin/module/knmusicplugin/plugin/knmusictagid3v1/knmusictagid3v1.cpp:114 | every qint64 written in decimal, negative ones included, reads back as itself |
| TtplayerCode.Int32 | src/plugin/knmusicplugin/plugin/knmusicttplayerlyrics/knmusicttplayerlyrics.cpp:178 | the qint32 conversion is in [-2^31, 2^31) and keeps the residue modulo 2^32 |
| TtplayerCode.Conv | src/plugin/knmusicplugin/plugin/knmusicttplayerlyrics/knmusicttplayerlyrics.cpp:275-288 | for every qint64, conv lies in [0, 2^32) and equals its argument modulo 2^32 |
| TtplayerCode.ConvIdempotent | src/plugin/knmusicplugin/plugin/knmusicttplayerlyrics/knmusicttplayerlyrics.cpp:275-288 | conv applied to its own result changes nothing |
| TtplayerCode.Int8 | src/plugin/knmusicplugin/plugin/knmusicttplayerlyrics/knmusicttplayerlyrics.cpp:199 | the qint8 conversion lies in [-128, 128) and keeps the residue modulo 256 |
| TtplayerCode.SignCorrectionIsIdentity | src/plugin/knmusicplugin/plugin/knmusicttplayerlyrics/knmusicttplayerlyrics.cpp:199-203 | `c -= (qint8)0x100` leaves the signed byte unchanged, since `(qint8)0x100` is 0 |
| TtplayerCode.ShiftLeft | src/plugin/knmusicplugin/plugin/knmusicttplayerlyrics/knmusicttplayerlyrics.cpp:205 | a shifted word is again a 32-bit word |
| TtplayerCode.Backward | src/plugin/knmusicplugin/plugin/knmusicttplayerlyrics/knmusicttplayerlyrics.cpp:196-208 | the backward pass keeps t2 a 32-bit word at every step |
| TtplayerCode.Forward | src/plugin/knmusicplugin/plugin/knmusicttplayerlyrics/knmusicttplayerlyrics.cpp:209-222 | the forward pass keeps t1 a 32-bit word at every step |
| TtplayerCode.ShiftAddIsMultiply | src/plugin/knmusicplugin/plugin/knmusicttplayerlyrics/knmusicttplayerlyrics.cpp:204-206 | one masked step, the shift by k plus the old value plus the byte, is multiplication by 2^k + 1 plus the byte, modulo 2^32 |
| TtplayerCode.BackwardIsHash | src/plugin/knmusicplugin/plugin/knmusicttplayerlyrics/knmusicttplayerlyrics.cpp:196-208 | the backward pass equals a polynomial hash from the last byte, multiplying by 17 at even and 33 at odd indices, modulo 2^32 |
| TtplayerCode.ForwardIsHash | src/plugin/knmusicplugin/plugin/knmusicttplayerlyrics/knmusicttplayerlyrics.cpp:209-222 | the forward pass from t1 = 0 equals a polynomial hash from the first byte, multiplying by 9 at even and 17 at odd indices, modulo 2^32 |
| TtplayerCode.T3FromId | src/plugin/knmusicplugin/plugin/knmusicttplayerlyrics/knmusicttplayerlyrics.cpp:178-195 | t3 packed from the bytes of the id by the masks, shifts and ORs of the source; T3TopByte, T3SecondByte, T3ThirdByte and T3LowByte give each of its bytes |
| TtplayerCode.T3TopByte | src/plugin/knmusicplugin/plugin/knmusicttplayerlyrics/knmusicttplayerlyrics.cpp:178-195 | the top byte of t3 is the low byte of id |
| TtplayerCode.T3SecondByte | src/plugin/knmusicplugin/plugin/knmusicttplayerlyrics/knmusicttplayerlyrics.cpp:178-195 | the second byte of t3 is bits 16-23 of id, or the complement of bits 8-15 when those are zero |
| TtplayerCode.T3ThirdByte | src/plugin/knmusicplugin/plugin/knmusicttplayerlyrics/knmusicttplayerlyrics.cpp:178-195 | the third byte of t3 is bits 8-15 of id |
| TtplayerCode.T3LowByte | src/plugin/knmusicplugin/plugin/knmusicttplayerlyrics/knmusicttplayerlyrics.cpp:178-195 | the low byte of t3 is bits 24-31 of id, or the complement of id's low byte when those are zero |
| TtplayerCode.Mix | src/plugin/knmusicplugin/plugin/knmusicttplayerlyrics/knmusicttplayerlyrics.cpp:223-226 | the wrapping product (a + b) * c * d is an unsigned 32-bit value |
| TtplayerCode.Combined | src/plugin/knmusicplugin/plugin/knmusicttplayerlyrics/knmusicttplayerlyrics.cpp:223-226 | ((t2 xor t3) + (t1 or id)) * (t1 or t3) * (t2 xor id) in wrapping 32-bit arithmetic is in [0, 2^32) |
| TtplayerCode.Token | src/plugin/knmusicplugin/plugin/knmusicttplayerlyrics/knmusicttplayerlyrics.cpp:166-232 | the numeric code of a record is below 2^32 |
| TtplayerCode.CodeText | src/plugin/knmusicplugin/plugin/knmusicttplayerlyrics/knmusicttplayerlyrics.cpp:166-232 | what generateCode returns: the decimal of the token of the UTF-8 bytes and of the id read with `toLongLong`; CodeIsUnsignedDecimal shows it is unsigned digits that read back as the token |
| TtplayerCode.CodeIsUnsignedDecimal | src/plugin/knmusicplugin/plugin/knmusicttplayerlyrics/knmusicttplayerlyrics.cpp:223-231 | the returned code is a digit string without sign, and it reads back as the token, in [0, 4294967295] |
| TtplayerCode.ProductInInt64 | src/plugin/knmusicplugin/plugin/knmusicttplayerlyrics/knmusicttplayerlyrics.cpp:225-226 | the product of a conv result and a qint32 never overflows qint64 |
| TtplayerCode.BackwardPass | src/plugin/knmusicplugin/plugin/knmusicttplayerlyrics/knmusicttplayerlyrics.cpp:196-208 | the `while (j >= 0)` loop computes the backward pass, which is the backward polynomial hash |
| TtplayerCode.ForwardPass | src/plugin/knmusicplugin/plugin/knmusicttplayerlyrics/knmusicttplayerlyrics.cpp:209-222 | the `while (j < len)` loop computes the forward pass, which is the forward polynomial hash |
| TtplayerCode.DecodePairsStep | src/plugin/knmusicplugin/plugin/knmusicttplayerlyrics/knmusicttplayerlyrics.cpp:174-177 | reading from position i yields the pair at i followed by what is read from i + 2 |
| TtplayerCode.ReadPairs | src/plugin/knmusicplugin/plugin/knmusicttplayerlyrics/knmusicttplayerlyrics.cpp:172-177 | the `i += 2` loop appends the value of each pair, and `len` is half the text length |
| TtplayerCode.HexRoundTrip | src/plugin/knmusicplugin/plugin/knmusicttplayerlyrics/knmusicttplayerlyrics.cpp:171-177 | encoding the UTF-8 bytes and reading them back pairwise gives exactly those bytes, and `len` equals their number |
| TtplayerCode.ConvSumStep | src/plugin/knmusicplugin/plugin/knmusicttplayerlyrics/knmusicttplayerlyrics.cpp:224 | the sum of a conv result and a qint32 fits in qint64, and conv of it is the sum of the residues |
| TtplayerCode.ConvProductStep | src/plugin/knmusicplugin/plugin/knmusicttplayerlyrics/knmusicttplayerlyrics.cpp:225-226 | the product of a conv result and a qint32 fits in qint64, and conv of it is the product of the residues |
| TtplayerCode.FinalCorrectionIsIdentity | src/plugin/knmusicplugin/plugin/knmusicttplayerlyrics/knmusicttplayerlyrics.cpp:227-230 | `(qint32)0x80000000` is -2^31, every conv result exceeds it, and the masked subtraction returns the value unchanged |
| TtplayerCode.MixOfResidues | src/plugin/knmusicplugin/plugin/knmusicttplayerlyrics/knmusicttplayerlyrics.cpp:223-226 | combining the qint32 readings of the operands gives the same residue as combining their unsigned readings |
| TtplayerCode.ConvChain | src/plugin/knmusicplugin/plugin/knmusicttplayerlyrics/knmusicttplayerlyrics.cpp:223-231 | the four conv steps on qint32 operands and the final branch produce the wrapping product (a + b) * c * d |
| TtplayerCode.Combine | src/plugin/knmusicplugin/plugin/knmusicttplayerlyrics/knmusicttplayerlyrics.cpp:223-231 | the qint64 combination of t1, t2, t3 and id equals ((t2 xor t3) + (t1 or id)) * (t1 or t3) * (t2 xor id) modulo 2^32 |
| TtplayerCode.GenerateCode | src/plugin/knmusicplugin/plugin/knmusicttplayerlyrics/knmusicttplayerlyrics.cpp:166-232 | generateCode returns the unsigned decimal of the token of the bytes and of the id's low 32 bits |
| TtplayerLyrics.GenerateInitialUrl | src/plugin/knmusicplugin/plugin/knmusicttplayerlyrics/knmusicttplayerlyrics.cpp:156-164 | host, search path, the artist in hexadecimal UTF-16LE, "&Title=", the title likewise, "&Flags=0"; InitialUrlParameters shows both parameters decode to the codec's bytes |
| TtplayerLyrics.InitialUrlParameters | src/plugin/knmusicplugin/plugin/knmusicttplayerlyrics/knmusicttplayerlyrics.cpp:156-164 | the discovery URL is host, search path, artist hex, "&Title=", title hex, "&Flags=0"; both values are uppercase hex and decode to the codec's bytes without the byte order mark |
| TtplayerLyrics.InitialStep | src/plugin/knmusicplugin/plugin/knmusicttplayerlyrics/knmusicttplayerlyrics.cpp:37-49 | SetReplyCount(2), then one discovery request per mirror host tagged with that host; see InitialStepCountsItsRequests |
| TtplayerLyrics.InitialStepCountsItsRequests | src/plugin/knmusicplugin/plugin/knmusicttplayerlyrics/knmusicttplayerlyrics.cpp:37-49 | initialStep announces exactly as many replies (2) as it issues requests |
| TtplayerLyrics.Candidates | src/plugin/knmusicplugin/plugin/knmusicttplayerlyrics/knmusicttplayerlyrics.cpp:69-102 | the `lrc` records of the discovery replies, reply by reply and in element order within a reply, each tagged with its reply's host; see CandidatesOfTwo and CollectInfos |
| TtplayerLyrics.CandidatesOfTwo | src/plugin/knmusicplugin/plugin/knmusicttplayerlyrics/knmusicttplayerlyrics.cpp:71-102 | the records of the two replies are the first reply's followed by the second's, and their number is the sum |
| TtplayerLyrics.DownloadUrl | src/plugin/knmusicplugin/plugin/knmusicttplayerlyrics/knmusicttplayerlyrics.cpp:118-120 | the record's host, the download path, its id, "&Code=" and generateCode of the record; see DownloadUrlCode |
| TtplayerLyrics.DownloadUrlCode | src/plugin/knmusicplugin/plugin/knmusicttplayerlyrics/knmusicttplayerlyrics.cpp:118-120 | the download URL is host + "/dll/lyricsvr.dll?dl?Id=" + id + "&Code=" + code, and the code is unsigned digits denoting the token |
| TtplayerLyrics.Fetches | src/plugin/knmusicplugin/plugin/knmusicttplayerlyrics/knmusicttplayerlyrics.cpp:111-122 | one download request per record, in record order; see FetchesAreGets, GetCountOfFetches and FetchesNeverComplete |
| TtplayerLyrics.FetchesAreGets | src/plugin/knmusicplugin/plugin/knmusicttplayerlyrics/knmusicttplayerlyrics.cpp:112-122 | one request per record, and the i-th request fetches the i-th record's URL tagged with that record |
| TtplayerLyrics.GetCountOfFetches | src/plugin/knmusicplugin/plugin/knmusicttplayerlyrics/knmusicttplayerlyrics.cpp:112-122 | the number of requests issued equals the number of records |
| TtplayerLyrics.Step1Actions | src/plugin/knmusicplugin/plugin/knmusicttplayerlyrics/knmusicttplayerlyrics.cpp:60-124 | step 1: completion when there are not two replies or no record, otherwise the record count then one fetch per record; see Step1GivesUpIff and Step1Requests |
| TtplayerLyrics.Step1GivesUpIff | src/plugin/knmusicplugin/plugin/knmusicttplayerlyrics/knmusicttplayerlyrics.cpp:63-109 | step 1 only completes the request, and issues no request, exactly when there are not two replies or they yield no record |
| TtplayerLyrics.AnnouncedFetches | src/plugin/knmusicplugin/plugin/knmusicttplayerlyrics/knmusicttplayerlyrics.cpp:111-122 | announcing the record count and then fetching announces exactly the number of requests, never completes, and fetches the i-th record as action i + 1 |
| TtplayerLyrics.Step1Requests | src/plugin/knmusicplugin/plugin/knmusicttplayerlyrics/knmusicttplayerlyrics.cpp:111-122 | otherwise step 1 sets the reply count to the record count, fetches every record in reply-then-element order, and does not complete |
| TtplayerLyrics.FetchesNeverComplete | src/plugin/knmusicplugin/plugin/knmusicttplayerlyrics/knmusicttplayerlyrics.cpp:112-122 | the download requests contain no completion |
| TtplayerLyrics.Saves | src/plugin/knmusicplugin/plugin/knmusicttplayerlyrics/knmusicttplayerlyrics.cpp:128-145 | one save per non-empty reply without "errmsg", in reply order; see SavesConcat, SavesOnlyAccepted, AcceptedAreSaved and NothingSavedIff |
| TtplayerLyrics.SavesConcat | src/plugin/knmusicplugin/plugin/knmusicttplayerlyrics/knmusicttplayerlyrics.cpp:129-145 | the saves of two batches of replies are the first batch's followed by the second's |
| TtplayerLyrics.SavesOnlyAccepted | src/plugin/knmusicplugin/plugin/knmusicttplayerlyrics/knmusicttplayerlyrics.cpp:129-145 | every save is the save of a non-empty reply without "errmsg" |
| TtplayerLyrics.AcceptedAreSaved | src/plugin/knmusicplugin/plugin/knmusicttplayerlyrics/knmusicttplayerlyrics.cpp:129-145 | every non-empty reply without "errmsg" is saved under its record's title and artist |
| TtplayerLyrics.NothingSavedIff | src/plugin/knmusicplugin/plugin/knmusicttplayerlyrics/knmusicttplayerlyrics.cpp:129-145 | nothing is saved exactly when every reply is empty or contains "errmsg" |
| TtplayerLyrics.SavesNeverComplete | src/plugin/knmusicplugin/plugin/knmusicttplayerlyrics/knmusicttplayerlyrics.cpp:129-145 | the saves contain no completion |
| TtplayerLyrics.Step2Actions | src/plugin/knmusicplugin/plugin/knmusicttplayerlyrics/knmusicttplayerlyrics.cpp:125-149 | step 2: the saves, then one completion; see Step2CompletesOnce and Step2OnlyCompletesIff |
| TtplayerLyrics.Step2CompletesOnce | src/plugin/knmusicplugin/plugin/knmusicttplayerlyrics/knmusicttplayerlyrics.cpp:146-148 | step 2 completes the request exactly once, as its last action, even when nothing was saved |
| TtplayerLyrics.Step2OnlyCompletesIff | src/plugin/knmusicplugin/plugin/knmusicttplayerlyrics/knmusicttplayerlyrics.cpp:126-149 | step 2 does nothing but complete exactly when every reply is empty or an error |
| TtplayerLyrics.CollectInfos | src/plugin/knmusicplugin/plugin/knmusicttplayerlyrics/knmusicttplayerlyrics.cpp:69-102 | the nested loops, which skip replies without `lrc` elements, collect exactly the records in reply-then-element order |
| TtplayerLyrics.Fetch | src/plugin/knmusicplugin/plugin/knmusicttplayerlyrics/knmusicttplayerlyrics.cpp:113-121 | one record's request fetches its download URL with its code, tagged with the record |
| TtplayerLyrics.FetchAll | src/plugin/knmusicplugin/plugin/knmusicttplayerlyrics/knmusicttplayerlyrics.cpp:111-122 | the loop issues one download request per record, in order |
| TtplayerLyrics.SaveAll | src/plugin/knmusicplugin/plugin/knmusicttplayerlyrics/knmusicttplayerlyrics.cpp:128-145 | the loop saves exactly the accepted replies, in order |
| TtplayerLyrics.StepActions | src/plugin/knmusicplugin/plugin/knmusicttplayerlyrics/knmusicttplayerlyrics.cpp:51-154 | processStep as a list of actions: step 1, step 2, or nothing for any other step; the ProcessStep method is proved to emit it |
| TtplayerLyrics.ProcessStep | src/plugin/knmusicplugin/plugin/knmusicttplayerlyrics/knmusicttplayerlyrics.cpp:51-154 | processStep emits the actions of step 1 or step 2, and nothing for any other step |
| Id3v1.UntilNul | src/plugin/module/knmusicplugin/plugin/knmusictagid3v1/knmusictagid3v1.cpp:78 | a C string read is the longest NUL-free prefix: a prefix, without NUL, followed by a NUL or the end |
| Id3v1.UntilNulStops | src/plugin/module/knmusicplugin/plugin/knmusictagid3v1/knmusictagid3v1.cpp:95 | a NUL at position k hides everything behind it from the read |
| Id3v1.BackupStep | src/plugin/module/knmusicplugin/plugin/knmusictagid3v1/knmusictagid3v1.cpp:118-137 | a backup step keeps a 128-byte buffer and a valid saved position |
| Id3v1.BackupStepEffect | src/plugin/module/knmusicplugin/plugin/knmusictagid3v1/knmusictagid3v1.cpp:124-136 | backupByte restores the saved byte at its old position, saves the target and its position, zeroes the target only when clearData is set, and changes no other index |
| Id3v1.BackupMoves | src/plugin/module/knmusicplugin/plugin/knmusictagid3v1/knmusictagid3v1.cpp:76-88 | moving the NUL from one field end to the next leaves the original buffer with only the new target zeroed, and saves its original byte |
| Id3v1.FiveBackups | src/plugin/module/knmusicplugin/plugin/knmusictagid3v1/knmusictagid3v1.cpp:76-88 | after the five backups the buffer is the original except index 127, which is 0, and the saved byte is the original byte 127 |
| Id3v1.BackupByte | src/plugin/module/knmusicplugin/plugin/knmusictagid3v1/knmusictagid3v1.cpp:118-137 | the in-place operation on the array and the two reference parameters performs one backup step |
| Id3v1.Id3v1Struct.constructor | src/plugin/module/knmusicplugin/plugin/knmusictagid3v1/knmusictagid3v1.cpp:44 | a fresh structure has five empty texts and no track |
| Id3v1.CStringWindow | src/plugin/module/knmusicplugin/plugin/knmusictagid3v1/knmusictagid3v1.cpp:76-78 | a C string read at start with a NUL placed at end stays inside start..end-1 of the original |
| Id3v1.Layout | src/plugin/module/knmusicplugin/plugin/knmusictagid3v1/knmusictagid3v1.cpp:67-98 | the tag parseRawData produces from the 128 bytes: title and comment up to the first NUL, artist, album and year as raw windows, the ID3v1.1 track, the signed genre; see ParseRawData and RecordReadsBack |
| Id3v1.ParseRawData | src/plugin/module/knmusicplugin/plugin/knmusictagid3v1/knmusictagid3v1.cpp:67-98 | the buffer ends as the original with byte 127 zeroed. The fields are title 3-32 up to NUL, artist 33-62, album 63-92, year 93-96, comment 97-126 up to NUL, the track from byte 126 exactly when byte 125 is 0 (otherwise unchanged), and the genre the signed original byte 127 |
| Id3v1.Written | src/plugin/module/knmusicplugin/plugin/knmusictagid3v1/knmusictagid3v1.cpp:100-116 | the detail fields after writeTagDataToDetailInfo: the five texts and the genre, the track number only when there is one; see WrittenFields |
| Id3v1.WrittenFields | src/plugin/module/knmusicplugin/plugin/knmusictagid3v1/knmusictagid3v1.cpp:100-116 | the five texts go to Name, Artist, Album, Year, Comments and the genre to Genre; TrackNumber is written exactly when track != -1; no other field changes |
| Id3v1.WriteTagDataToDetailInfo | src/plugin/module/knmusicplugin/plugin/knmusictagid3v1/knmusictagid3v1.cpp:100-116 | the detail record's fields become the written fields of the parsed tag |
| Id3v1.ReadTag | src/plugin/module/knmusicplugin/plugin/knmusictagid3v1/knmusictagid3v1.cpp:34-52 | a file, read from its start, has a tag exactly when it has at least 128 bytes and its last 128 start with "TAG" |
| Id3v1.PraseTag | src/plugin/module/knmusicplugin/plugin/knmusictagid3v1/knmusictagid3v1.cpp:30-58 | praseTag succeeds exactly when the file has a tag. It then writes the tag's fields into the detail record; otherwise it leaves the record untouched |
| Id3v1.PaddedTextReadsBack | src/plugin/module/knmusicplugin/plugin/knmusictagid3v1/knmusictagid3v1.cpp:78 | NUL-free text that fits its NUL-padded field, full width included, is read back whole |
| Id3v1.RecordReadsBack | src/plugin/module/knmusicplugin/plugin/knmusictagid3v1/knmusictagid3v1.cpp:67-98 | the reader recovers an ID3v1.1 record: title and comment whole, up to the full 30 and 28 bytes, the other texts as their padded windows, the track byte, and the genre as a signed byte |

## Left out

- Text codecs are parameters of the model, not modelled:
  - `QString::toUtf8` and the UTF-16LE `QTextCodec` of the lyrics downloader;
  - the locale codec of the tag reader.

  The tag reader's text fields are the bytes the codec would receive. `QString::simplified` is not modelled either.
- XML parsing of the discovery replies with `QDomDocument` is a parameter: a function from the reply bytes to the list of `lrc` elements.
- `processKeywords` is defined outside the two modelled files and is a parameter.
- `KNMusicGlobal::indexedGenre` is kept as the genre index it is given.
- The request barrier and network transport of the downloader base class are not modelled: `setReplyCount`, `get`, `saveLyrics`, `completeRequest` and the request identifier. These calls are emitted actions.
- `QFile`/`QDataStream` reading is replaced by the file's contents as a byte sequence.
- Id3v1.PraseTag: the file size is a mathematical integer. The source stores it in an `int`, so files of 2 GiB and more are not modelled.
- Id3v1.ReadTag: the record is taken as the file's last 128 bytes. The source skips `fileSize - 128` bytes from the stream's current position, so the model assumes the stream is at the start of the file when `praseTag` is called.
- Id3v1.PraseTag: like ReadTag, it assumes the stream starts at the beginning of the file.
- Id3v1.ParseRawData: the genre index is the saved `char` byte 127, read as a signed byte (-128..127). C++ leaves the signedness of `char` to the implementation; where `char` is unsigned, bytes from 0x80 give 128..255 instead.
- Hex.ToIntBase16: a sign or surrounding whitespace, which `QString::toInt` accepts, reads as 0 here. Line 176 only ever receives upper-case digit pairs from `utf8HexText`, so this does not change the code.
- Decimal.ToLongLong: leading and trailing whitespace, which Qt accepts, is not modelled. Such text converts to 0 here.
- Id3v1.ParseRawData: the source leaves the saved byte uninitialised before the first backup. The model starts it at 0. No step reads it before the first backup overwrites it.
- Id3v1.Id3v1Struct.constructor: the declaration of `ID3v1Struct` (knmusictagid3v1.h) is not part of this model. The "no track" value -1, which `writeTagDataToDetailInfo` tests for, is taken as the default of `track`.
- TtplayerCode.ShiftLeft: `t << k` on a `qint32` is modelled as multiplication by 2^k modulo 2^32, the two's-complement result. Overflow of a signed left shift is formally undefined in C++ before C++20.
- TtplayerCode.Combine: the sign extension of `t2` and `t3` to 64 bits before the first XOR is modelled as the qint32 reading of `t2 ^ t3`. The two agree because the upper halves are copies of the sign bits.
- Hex.Utf16LEHex: the in-place `remove(0, 2)` on the byte array is modelled as taking the sequence from index 2.
- Other methods of the two classes are not part of this model: `downloaderName`, `parseAlbumArt` and the constructors.
