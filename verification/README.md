# Models of clib4

clib4 is a C library for AmigaOS 4. This project models the parts of it with the most state and
the most involved data: the file hierarchy walker `fts`, the password hashing behind `crypt`, the
character set conversion `iconv`, and `argz_replace`. It proves what they promise over whole runs
and for all inputs. `dafny verify dfyconfig.toml` verifies it.

| files | models |
|---|---|
| `FtsSpec`, `FtsStack`, `FtsTour`, `FtsMemory`, `FtsStream`, `FtsRead`, `FtsOpen`, `FtsWalk` | `library/fts/fts.c`: a recursive tour of the file hierarchy; the walker as a stack machine; what a tour is, said by a reader of visits; the structures, links and the path buffer it keeps in memory; whole runs of calls |
| `Digest`, `DigestPadding`, `ShaCrypt`, `HashText`, `CryptSetting`, `Crypt`, `CryptMeaning`, `CryptHashes` | `library/crypt/crypt_md5.c`, `crypt_sha256.c`, `crypt_sha512.c`, `crypt_r.c`: streaming digests, key stretching, the text form of digests, settings, and the schemes from end to end |
| `DesTables`, `DesPermute`, `Des`, `DesFips`, `Encrypt` | `library/crypt/crypt_des.c`, `encrypt.c`: the permutation tables and the wirings they stand for, key schedule, rounds, the same bit by bit as FIPS 46-3 has it, blocks of characters |
| `Blowfish`, `BlowfishKey`, `BlowfishText` | `library/crypt/crypt_blowfish.c`: cipher, expansions, key set-up with its two historical variants, base-64 text |
| `Legacy`, `Charmaps`, `Jis`, `GapFill`, `IconvDecode`, `IconvRun`, `IconvRanks`, `IconvRoundTrip`, `IconvJapanese`, `IconvUnits` | `library/iconv/iconv.c`, `iconv_open.c`, `iconv_priv.c`: the packed list of character maps, table look-ups, decoding, encoding, runs of calls, and which texts come back |
| `Argz` | `library/argz/replace.c` |
| `Arith`, `Common` | what the others share |

Objects that the C code updates in place are classes (`FtsWalk.Fts`, `Digest.Context`,
`Encrypt.Crypter`, `IconvRun.Converter`); loops are methods proved against functions, and the
theorems are about those functions. A function that both a method and the theorems use is also
described without it: by a standard, a table, a grammar, an inverse or a reader. Bytes and sizes are mathematical integers where no operation
wraps; where one does (`len` of a digest, `new_argz_len`, the 32-bit words of the ciphers) the
model wraps as well.

## Model

| member | source | states |
|---|---|---|
| FtsStack.StepTour | library/fts/fts.c:316-511 | with what the application asked for on the current node, one fts_read reports the first visit of the recursive tour that is still pending and leaves the others pending |
| FtsStack.NextOfArguments | library/fts/fts.c:95-213 | what is pending once the arguments are open is the whole tour of them, each measured against its own device |
| FtsTour.WalkIsTour | library/fts/fts.c:95-511 | a sequence of visits is the walk if and only if it can be read as a tour: one visit at a time, with the open directories and their names still to come on a stack, each code checked against stat and lstat, links followed, directories skipped, unreadable or entered, and left when no name remains |
| FtsTour.VisitsAreTrue | library/fts/fts.c:888-968 | every visit of a walk, apart from those that leave a directory or cannot read it, has the code that the file system gives the file at its path |
| FtsTour.StepRestates | library/fts/fts.c:336-358 | FTS_AGAIN on any node, and FTS_FOLLOW on a link, reports the node once more with the code the file system gives it, and changes nothing else |
| FtsTour.BaseNameIs | library/fts/fts.c:231-239 | an argument goes by what comes after its last slash |
| FtsStream.Stat | library/fts/fts.c:888-968 | FTS_F, FTS_SL, FTS_DEFAULT, FTS_SLNONE, FTS_NS, FTS_DOT, FTS_DC and FTS_D are each returned if and only if stat or lstat, the name and the ancestors say so; the search for a cycle finds the ancestor |
| FtsStream.ReadEntries | library/fts/fts.c:743-840 | the readdir loop builds a linked list with one structure for each listed entry, in order, classified as the tour classifies it; the buffer and the rest of memory stay as the invariant says |
| FtsStream.Build | library/fts/fts.c:618-885 | fts_build of a directory in pre-order: list, buffer and the info of the directory, for all three kinds of call |
| FtsStream.PathKept | library/fts/fts.c:718-861 | after a directory has been listed the buffer still starts with its path if and only if there were entries or the path does not end in a slash or colon |
| FtsRead.ReadAgain | library/fts/fts.c:336-358 | FTS_AGAIN and FTS_FOLLOW classify the node once more, an error or a list of children notwithstanding, and change nothing else |
| FtsRead.ReadSkip | library/fts/fts.c:360-372 | FTS_SKIP and FTS_XDEV free the list and turn the node into its post-order visit |
| FtsRead.ReadDown | library/fts/fts.c:374-409 | entering a directory pushes exactly its children; a list with names only is rebuilt |
| FtsRead.ReadNext | library/fts/fts.c:411-511 | the node is freed and the walk moves to the next sibling, the next argument or the parent, with the right path in the buffer |
| FtsRead.Read | library/fts/fts.c:316-511 | fts_read in memory refines one step of the stack machine and keeps the invariant of structures, links and buffer; the list of children outlives only a repeated visit |
| FtsRead.ListChildren | library/fts/fts.c:535-602 | fts_children builds the list of the current directory and changes no visit to come |
| FtsRead.FreeChain | library/fts/fts.c:256-265 | following fts_link and fts_parent frees each structure of the chain once, and nothing else |
| FtsRead.Close | library/fts/fts.c:244-289 | fts_close leaves nothing allocated |
| FtsOpen.MaxArgLen | library/fts/fts.c:1159-1169 | one more than the longest argument |
| FtsOpen.OpenRoots | library/fts/fts.c:130-173 | the loop over the arguments links them in order, or frees all of them if one is empty |
| FtsOpen.Open | library/fts/fts.c:95-213 | fts_open yields a stream before its first node whose pending visits are the arguments, or nothing allocated |
| FtsOpen.CloseUnread | library/fts/fts.c:244-265 | fts_close before any fts_read leaves nothing allocated if and only if the level of the dummy structure, which nothing has set, is not negative |
| FtsOpen.ReadFirst | library/fts/fts.c:411-438 | the first fts_read frees the dummy structure and loads the first argument |
| FtsWalk.ReadAny | library/fts/fts.c:316-511 | fts_read in any state reports the first pending visit, or NULL when there is none |
| FtsWalk.WalkAll | library/fts/fts.c:95-511 | the application's loop sees exactly the recursive tour, in one more call than there are visits, and leaves nothing allocated; what it sees can be read as a tour |
| FtsWalk.AncestorsDiffer | library/fts/fts.c:942-961 | at every node returned no two ancestors are the same directory, and a directory that may be entered is none of them |
| FtsWalk.Perform | library/fts/fts.c:316-602 | each call that does not come too late keeps the invariant and moves the stack machine as it should |
| FtsWalk.Session | library/fts/fts.c:244-602 | any sequence of fts_read, fts_children and fts_set with any instructions, up to the first call that comes too late, and then fts_close: nothing stays allocated; every call is performed if and only if no fts_children or fts_set comes after the NULL return and no FTS_AGAIN on an argument "." or ".." whose children have been listed |
| FtsWalk.InTimeIs | library/fts/fts.c:316-602 | which calls come too late |
| FtsWalk.LateChildren | library/fts/fts.c:548-561 | a run in which fts_children comes after the NULL return and uses a node that does not exist |
| FtsWalk.DotAgain | library/fts/fts.c:336-340 | a run in which FTS_AGAIN after fts_children turns the argument "." into FTS_DOT with its list still there |
| FtsWalk.Fts.constructor | library/fts/fts.c:95-213 | the object holds a stream whose pending visits are the tour of the arguments |
| FtsWalk.Fts.Read | library/fts/fts.c:316-511 | returns the first pending visit and keeps the others |
| FtsWalk.Fts.Set | library/fts/fts.c:520-533 | fts_set changes the instruction of the current node and no visit of the policy's tour |
| FtsWalk.Fts.Children | library/fts/fts.c:535-602 | fts_children returns the list of the arguments before the first fts_read, then that of a directory in pre-order, and NULL otherwise; the pending visits stay |
| FtsWalk.Fts.Close | library/fts/fts.c:244-289 | nothing stays allocated, unless nothing was read and the level of the dummy happens to be negative |
| Digest.PaddingFits | library/crypt/crypt_sha256.c:99-119 | message and padding fill whole blocks, with one or two blocks at the end |
| Digest.HashFinished | library/crypt/crypt_sha256.c:99-143 | the padding done on the buffered tail and the wrapped byte count gives the hash of the whole message |
| Digest.Absorb | library/crypt/crypt_sha256.c:157-161 | the loop over whole blocks of the input |
| Digest.Context.Update | library/crypt/crypt_sha256.c:145-163 | update appends to the message the context stands for |
| Digest.Context.Sum | library/crypt/crypt_sha512.c:116-164 | sum returns the hash of that message |
| Digest.SumOfChunks | library/crypt/crypt_sha256.c:121-163 | a digest is that of the concatenated input, however it was cut into updates |
| DigestPadding.BytesAt | library/crypt/crypt_md5.c:130-138 | byte i of the length, to base 256, stands at place i from the start or from the end, as the algorithm has it |
| DigestPadding.HashIs | library/crypt/crypt_sha256.c:99-143 | the digest is that of the blocks of the padded message: a one bit, zeros, the number of bits modulo 2^64 in the last eight bytes, whole blocks and no more than needed |
| DigestPadding.PaddedOnce | library/crypt/crypt_sha256.c:99-119 | there is one such padding |
| DigestPadding.FoldLast | library/crypt/crypt_sha256.c:157-161 | the last block is compressed last |
| ShaCrypt.RepeatedAt | library/crypt/crypt_sha256.c:186-192 | byte i of a repeated digest is byte i modulo its size |
| ShaCrypt.HashMd | library/crypt/crypt_sha256.c:186-192 | hashmd appends n bytes of the repeated digest |
| ShaCrypt.RoundInputIs | library/crypt/crypt_sha256.c:284-297 | the text of round i, by length and pieces: p first and a last if i is odd, the other way round if it is even, s after the first piece unless 3 divides i, p before the last unless 7 divides i |
| ShaCrypt.RoundOnce | library/crypt/crypt_sha256.c:284-297 | there is one such text |
| ShaCrypt.Round | library/crypt/crypt_sha256.c:284-298 | a round gives the digest of that text |
| ShaCrypt.Md5Round | library/crypt/crypt_md5.c:270-283 | the same for MD5 |
| ShaCrypt.PerBitIs | library/crypt/crypt_sha256.c:264-268 | the loop over the bits of a length: bit k of the number chooses piece k, and there are as many pieces as bits |
| ShaCrypt.ShaRounds | library/crypt/crypt_sha256.c:283-299 | the rounds alternate the four inputs by 2, 3 and 7 |
| ShaCrypt.ShaStretch | library/crypt/crypt_sha256.c:252-299 | the whole of B, A, DP, DS and the rounds, written with one context, equals the digest defined without it |
| ShaCrypt.Md5Stretch | library/crypt/crypt_md5.c:246-284 | the same for MD5, with its 1000 rounds |
| ShaCrypt.ShaTranscript | library/crypt/crypt_sha256.c:252-299 | the digest is the last of a transcript in which every text is described by its pieces: key salt key; key, salt, as much of B as the key is long, the bits of that length; the key as often as it is long; the salt 16 times and once for each unit of the first byte of A; and the rounds |
| ShaCrypt.Md5Transcript | library/crypt/crypt_md5.c:246-284 | the same for MD5 |
| HashText.From64To64 | library/crypt/crypt_sha256.c:168-174 | what to64 writes, lowest digit first, is any number modulo 64 to the power of its digits |
| HashText.To64At | library/crypt/crypt_sha256.c:168-174 | character i is digit i to base 64, counted from the lowest |
| HashText.Put64 | library/crypt/crypt_sha256.c:168-174 | the loop of to64 |
| HashText.PrintDigest | library/crypt/crypt_sha256.c:304-320 | the loop over the perm table |
| HashText.Md5Sound | library/crypt/crypt_md5.c:290-300 | each of the 16 bytes has exactly one place in the table |
| HashText.Sha256Sound | library/crypt/crypt_sha256.c:304-319 | each of the 32 bytes has exactly one place |
| HashText.Sha512Sound | library/crypt/crypt_sha512.c:327-376 | each of the 64 bytes has exactly one place |
| HashText.Md5Row | library/crypt/crypt_md5.c:290-300 | the bytes of a row are six apart, and byte 5 stands for a sixteenth |
| HashText.ValueIs | library/crypt/crypt_sha256.c:317-319 | a group of bytes is one number, the first byte at the top |
| HashText.ReadPrint | library/crypt/crypt_sha256.c:304-320 | a digest can be read back from its text |
| HashText.PrintedLengths | library/crypt/crypt_sha512.c:327-376 | texts of 22, 43 and 86 characters |
| CryptSetting.NumberOfDecimal | library/crypt/crypt_sha256.c:229-243 | the number that is written with %u is the one that strtoul reads |
| CryptSetting.NumberBoth | library/crypt/crypt_sha256.c:232 | digits count by their places |
| CryptSetting.SaltAgain | library/crypt/crypt_sha256.c:246-250 | a salt that was written back is scanned as the same salt |
| CryptSetting.SaltEnds | library/crypt/crypt_sha256.c:246-250 | a salt ends at a dollar sign, the end or the maximum, and not before |
| CryptSetting.ScanSalt | library/crypt/crypt_md5.c:243-244 | the scanning loop stops at a dollar sign, the end or the maximum |
| Crypt.ParseAgain | library/crypt/crypt_sha256.c:207-250 | what is written for a setting, with clamped or zero-prefixed rounds, is parsed as what was read |
| Crypt.ShaAgain | library/crypt/crypt_sha256.c:194-322 | sha256crypt and sha512crypt accept their own results |
| Crypt.Md5Again | library/crypt/crypt_md5.c:226-304 | so does md5crypt |
| Crypt.BfAgain | library/crypt/crypt_blowfish.c:614-734 | so does BF_crypt, the cleared last letter of the salt included, for every setting that it reads within the string and without a negative index or shift |
| Crypt.DesAgain | library/crypt/crypt_des.c:884-991 | so do both forms of DES crypt |
| Crypt.CryptAgain | library/crypt/crypt_r.c:17-35 | hashing a key again with the result as the setting selects the same scheme, parses the same salt and cost and gives the same result |
| Crypt.CryptFits | library/crypt/crypt_r.c:17-35 | every result fits 128 bytes with its terminator |
| Crypt.UndefinedIndex | library/crypt/crypt_blowfish.c:629-633 | every setting that starts with "$2A$05$" reaches BF_crypt and indexes a table with -32 |
| Crypt.UndefinedShift | library/crypt/crypt_blowfish.c:632-638 | every setting that starts with "$2a$/9$" reaches BF_crypt and shifts by -1 |
| Crypt.UndefinedEnd | library/crypt/crypt_blowfish.c:626-634 | settings that end before the cost, or after its first digit, reach BF_crypt, which lets the terminator pass and reads behind it |
| CryptMeaning.SchemeIs | library/crypt/crypt_r.c:24-34 | the prefix of a setting selects the scheme |
| CryptMeaning.Md5Means | library/crypt/crypt_md5.c:226-304 | md5crypt accepts every setting with its prefix and keys of up to 30000 characters; salt and digest can be read from the result |
| CryptMeaning.ParsesIs | library/crypt/crypt_sha256.c:207-250 | a setting is parsed if and only if it has that form: nothing or a decimal number of at most 9999999 rounds with its closing dollar sign, raised to 1000; then a salt of at most 16 characters without line feed or colon |
| CryptMeaning.Sha256Means | library/crypt/crypt_sha256.c:194-322 | sha256crypt accepts such a setting for keys of up to 256 characters; rounds, salt and digest can be read from the result |
| CryptMeaning.Sha512Means | library/crypt/crypt_sha512.c:215-379 | the same for sha512crypt |
| CryptMeaning.ShaRefuses | library/crypt/crypt_sha256.c:207-250 | and no other setting |
| CryptMeaning.FlagsAre | library/crypt/crypt_blowfish.c:609-612 | the subtypes are a, b, x and y; x asks for the bug and a for the safety measure |
| CryptMeaning.BfMeans | library/crypt/crypt_blowfish.c:614-734 | BF_crypt accepts a subtype, two digits of cost from 04 to 19 and 22 letters; the result repeats them with the unused bits cleared, and the digest can be decoded from it |
| CryptMeaning.BfAccepted | library/crypt/crypt_blowfish.c:626-641 | and nothing else with digits for the cost |
| CryptMeaning.PlaceIs | library/crypt/crypt_des.c:659-677 | ascii_to_bin is the place in the alphabet, and only its characters are accepted |
| CryptMeaning.FourIs | library/crypt/crypt_des.c:912-926 | count and salt are numbers of four digits, the lowest first |
| CryptMeaning.TwoIs | library/crypt/crypt_des.c:956-957 | the old salt is a number of two |
| CryptMeaning.DesTextIs | library/crypt/crypt_des.c:969-988 | the eleven characters are the 64 bits of the result, the highest first, and two zeros |
| CryptMeaning.TraditionalMeans | library/crypt/crypt_des.c:944-988 | which old settings are accepted, and what is written: 25 iterations |
| CryptMeaning.ExtendedMeans | library/crypt/crypt_des.c:906-988 | which new settings are accepted, and what is written |
| CryptHashes.ShaCryptOf | library/crypt/crypt_sha512.c:215-379 | parsing, stretching and writing compute the result, which is accepted as a setting again |
| CryptHashes.Md5CryptOf | library/crypt/crypt_md5.c:226-304 | the same for MD5 |
| CryptHashes.Md5HashIs | library/crypt/crypt_md5.c:246-284 | what md5crypt writes is the digest of such a transcript, in which "$1$" comes after the key |
| CryptHashes.ShaHashIs | library/crypt/crypt_sha256.c:252-299 | the same for the SHA schemes |
| CryptHashes.HashedAgain | library/crypt/crypt_r.c:17-35 | crypt with the modelled digests accepts its own results |
| DesTables.PickIsIndex | library/crypt/crypt_des.c:775-779 | row[(x >> ibit) & 0xf] is the entry that four bits of x select |
| DesTables.Pick8IsIndex | library/crypt/crypt_des.c:747-749 | row[(x >> ibit) & 7] likewise for three bits |
| DesPermute.InitialPermutation | library/crypt/crypt_des.c:770-781 | the table loop is the wiring of IP |
| DesPermute.FinalPermutation | library/crypt/crypt_des.c:837-853 | the table loop is the wiring of FP |
| DesPermute.KeyPermutation | library/crypt/crypt_des.c:721-730 | the table loop is the wiring of PC-1 |
| DesPermute.CompressionPermutation | library/crypt/crypt_des.c:745-757 | the table loop is the wiring of PC-2 |
| DesPermute.FpUndoesIp | library/crypt/crypt_des.c:837-853 | FP undoes IP on every block |
| DesPermute.IpUndoesFp | library/crypt/crypt_des.c:770-781 | IP undoes FP on every block |
| Des.ShiftTurns | library/crypt/crypt_des.c:735-743 | the shift and or of a half without a mask is a rotation by that many places, as far as PC-2 looks |
| Des.SetKey | library/crypt/crypt_des.c:702-758 | the key schedule is PC-2 of the rotated halves of PC-1 |
| Des.DoDes | library/crypt/crypt_des.c:763-854 | __do_des is IP, count times sixteen rounds and a swap, and FP |
| DesFips.ExpandLeftIs | library/crypt/crypt_des.c:796-800 | each of the first 24 bits of the expansion is the bit that the E table names |
| DesFips.ExpandRightIs | library/crypt/crypt_des.c:802-806 | each of the last 24 |
| DesFips.IpLeftIs | library/crypt/crypt_des.c:770-781 | each bit of the left half of IP is the bit that the table of the standard names |
| DesFips.IpRightIs | library/crypt/crypt_des.c:770-781 | each of the right half |
| DesFips.SubkeyLeftIs | library/crypt/crypt_des.c:702-758 | each bit of the left half of each subkey is the bit of the key that PC-2, the shifts so far and PC-1 lead to |
| DesFips.SubkeyRightIs | library/crypt/crypt_des.c:702-758 | each of the right half |
| DesFips.FIs | library/crypt/crypt_des.c:811-825 | the S-boxes are asked for the expansion, with its halves exchanged where the salt has a one and kept where it has a zero, and the subkey added |
| DesFips.SubstituteIs | library/crypt/crypt_des.c:818-825 | S-box i is asked for bits 6i + 1 to 6i + 6 |
| DesFips.CipherIs | library/crypt/crypt_des.c:763-854 | the halves follow L(n+1) = R(n), R(n+1) = L(n) xor F, and the result is R16 L16 under the inverse of IP |
| Des.Decrypts | library/crypt/encrypt.c:44-54 | with the subkeys reversed, and for any salt and count, the cipher undoes itself |
| Des.Complements | library/crypt/crypt_des.c:702-854 | the complemented key maps the complemented block to the complemented result |
| Encrypt.PackUnpacked | library/crypt/encrypt.c:36-41 | a word written as 32 characters is packed into the same word |
| Encrypt.UnpackPacked | library/crypt/encrypt.c:54-57 | 32 characters come back as their lowest bits |
| Encrypt.DecryptUndoesEncrypt | library/crypt/encrypt.c:30-58 | decrypting an encrypted block gives the lowest bits of its characters |
| Encrypt.Crypter.SetKey | library/crypt/encrypt.c:17-28 | setkey stores the schedule of the packed key |
| Encrypt.Crypter.Encrypt | library/crypt/encrypt.c:30-58 | encrypt replaces the block in place by its encryption or decryption |
| Encrypt.ThereAndBack | library/crypt/encrypt.c:17-58 | encrypt with edflag 0 and then 1 restores the bits of a block |
| Blowfish.BlockUndone | library/crypt/crypt_blowfish.c:451-506 | the block cipher with its subkeys reversed undoes itself, for any S-boxes |
| Blowfish.FIs | library/crypt/crypt_blowfish.c:451-465 | each byte of a word selects an entry of its S-box |
| Blowfish.FSum | library/crypt/crypt_blowfish.c:451-465 | F is the sum of the first two, xor the third, plus the fourth |
| Blowfish.BlockIs | library/crypt/crypt_blowfish.c:467-506 | the rounds of the code, which are ahead by one subkey, give the cipher as it was published |
| Blowfish.EncryptBlock | library/crypt/crypt_blowfish.c:467-506 | the loop of paired rounds is the cipher under the state |
| Blowfish.EncryptAll | library/crypt/crypt_blowfish.c:467-506 | BF_encrypt over the whole state: each pair is the encryption, under the words written before it and the old ones after, of the pair before it |
| Blowfish.ExpandSalted | library/crypt/crypt_blowfish.c:649-668 | the salted expansion likewise, with the halves of the salt added in turns; every word of the state is written once and it ends after the last |
| BlowfishKey.PositionWraps | library/crypt/crypt_blowfish.c:552-575 | the positions read are those of the key with its terminator, over and over |
| BlowfishKey.ByteIs | library/crypt/crypt_blowfish.c:552-575 | so are the bytes |
| BlowfishKey.CorrectIs | library/crypt/crypt_blowfish.c:552-575 | a word read correctly has its four bytes in order |
| BlowfishKey.WordIs | library/crypt/crypt_blowfish.c:552-575 | which are those of the key from 4i on |
| BlowfishKey.BuggyIs | library/crypt/crypt_blowfish.c:552-575 | with the bug, a byte whose sign is extended wipes out those before it in the word |
| BlowfishKey.DeviationIs | library/crypt/crypt_blowfish.c:589-606 | the bit arithmetic on diff, sign and safety flips bit 16 exactly when the words agree, a sign was extended and safety is asked for |
| BlowfishKey.SetKey | library/crypt/crypt_blowfish.c:508-607 | BF_set_key yields the correct or the buggy words, and the deviation exactly when both readings of the key agree although a sign was extended |
| BlowfishText.DecodeEncode | library/crypt/crypt_blowfish.c:385-437 | BF_decode of a BF_encode text gives the bytes back |
| BlowfishText.LetterIs | library/crypt/crypt_blowfish.c:364-366 | the alphabet |
| BlowfishText.SameNumber | library/crypt/crypt_blowfish.c:408-437 | bytes and letters spell the same number, the first at the top |
| BlowfishText.DecodeCleared | library/crypt/crypt_blowfish.c:723-725 | clearing the unused bits of the last letter of a salt does not change the salt |
| BlowfishText.EncodeLength | library/crypt/crypt_blowfish.c:408-437 | the length of the text, so that 23 bytes take 31 characters |
| BlowfishText.BfEncode | library/crypt/crypt_blowfish.c:408-437 | the loop of BF_encode |
| BlowfishText.BfDecode | library/crypt/crypt_blowfish.c:385-406 | the loop of BF_decode with its error return |
| Legacy.ReadsEntry | library/iconv/iconv.c:71-77 | on a table of the right size legacy_map reads two bytes inside it, and they hold exactly packed entry x, for every byte the page defines |
| Legacy.BitsAre0 | library/iconv/iconv.c:71-77 | entry 0 of four is ten bits of two bytes, the second one at the top, from bit 0 on |
| Legacy.BitsAre1 | library/iconv/iconv.c:71-77 | entry 1, from bit 2 on |
| Legacy.BitsAre2 | library/iconv/iconv.c:71-77 | entry 2, from bit 4 on |
| Legacy.BitsAre3 | library/iconv/iconv.c:71-77 | entry 3, from bit 6 on |
| Charmaps.PackedStart | library/iconv/iconv_priv.h:38-39 | the packed form, on the first record of the list |
| Charmaps.FindCharmap | library/iconv/iconv_priv.c:15-30 | the scan of the packed list returns the place of the first record with a matching name, or -1, and stays inside the list |
| Charmaps.FoundRecord | library/iconv/iconv_priv.c:15-30 | the result is -1 just when no name matches; otherwise code and table of the first matching record stand there |
| Charmaps.FoundPage | library/iconv/iconv.c:71-108 | on the record that find_charmap found, legacy_map reads the packed entries of that page |
| Charmaps.Open | library/iconv/iconv_open.c:11-37 | iconv_open succeeds if and only if both names are found and the target is none of the GB, Big5 and Korean types; the places are those of the first matching records and fit a descriptor; a state is kept for just four source types |
| Charmaps.Extracted | library/iconv/iconv_priv.c:32-42 | two places below 0x8000 can be taken out of a descriptor again, which is never mistaken for a pointer to a state |
| Charmaps.SourceOnTop | library/iconv/iconv_priv.c:32-34 | the place of the source is in the upper half |
| IconvUnits.StateIsNeeded | library/iconv/iconv_open.c:23-34 | the sources for which a state is kept are exactly those with units that change it |
| Jis.UniToJis | library/iconv/iconv.c:79-96 | the binary search, for any sorted reverse table, the case of one element included |
| Jis.FindCell | library/iconv/iconv.c:79-96 | with the whole table it finds a cell exactly when there is one |
| GapFill.Fill | library/iconv/iconv.c:306-314 | for any table the loop ends, at the least code point with that number among those the table leaves out |
| GapFill.Increasing | library/iconv/iconv.c:386-394 | different numbers have different code points in the same order |
| GapFill.Onto | library/iconv/iconv.c:306-314 | every code point the table leaves out has a number |
| GapFill.AtMost | library/iconv/iconv.c:306-314 | the code point of a number is at most x if and only if the table leaves that many code points up to x |
| IconvDecode.DecodeFits | library/iconv/iconv.c:120-403 | a unit lies within the input; only the look for a byte order mark may take nothing, and not twice |
| IconvDecode.DecodeStable | library/iconv/iconv.c:120-403 | more input does not change a unit that was complete |
| IconvRun.PutByte | library/iconv/iconv.c:423-443 | the passes through the single-byte case put out the byte of the first that finds one |
| IconvRun.PassesEnd | library/iconv/iconv.c:423-443 | they come to an end if and only if the target page, read with the type of the source, has the character or an asterisk |
| IconvRun.StarIsThere | library/iconv/iconv.c:423-443 | which is so for every source type from 11 on |
| IconvRun.PageIgnored | library/iconv/iconv.c:428-442 | from a source that is no 8-bit page the target page is not looked at |
| IconvRun.SamePage | library/iconv/iconv.c:428-442 | where both pages leave out as many entries, there is a byte if and only if the page has the character, and it stands for it |
| IconvRun.Ibm1047NeverEnds | library/iconv/iconv.c:423-443 | the letter A from IBM1047 to US-ASCII: no pass ever puts anything out |
| IconvRun.OneUnit | library/iconv/iconv.c:120-551 | once around the loop of iconv, why it may end there, and what it adds to the count |
| IconvRun.Iconv | library/iconv/iconv.c:98-567 | a call converts a prefix of the characters, stays within the room, stops for the right reason, and counts the characters it replaced |
| IconvRun.Converter.constructor | library/iconv/iconv_open.c:11-37 | a new descriptor is in state 0 |
| IconvRun.Converter.Convert | library/iconv/iconv.c:98-567 | a call on a descriptor: what it puts out and what is still to come make up the whole; it counts the characters it replaced |
| IconvRun.Run | library/iconv/iconv.c:98-567 | any run of calls with windows and room of any size puts out a prefix of the one conversion of the whole text, with the rest still to come |
| IconvRun.OneCall | library/iconv/iconv.c:98-567 | one call puts out a prefix of the whole; it runs out of room if and only if the whole is longer than the room, and otherwise puts out the whole, reports why the text ended and returns how many of its characters were replaced |
| IconvRoundTrip.RoundTrip32 | library/iconv/iconv.c:136-148 | UTF-32 texts come back, with and without a byte order mark |
| IconvRoundTrip.RoundTripWchar | library/iconv/iconv.c:135-146 | so do texts of wide characters |
| IconvUnits.Standard32 | library/iconv/iconv.c:540-548 | a text put out in UTF-32 is its characters, four bytes each in the byte order of the type |
| IconvUnits.Standard16 | library/iconv/iconv.c:517-539 | the algorithm of section 2.2 of RFC 2781 reads a text put out in UTF-16 as its characters, pairs included, and in the other 16-bit types with U+FFFD for the supplementary ones |
| IconvUnits.PairIs | library/iconv/iconv.c:532-538 | the units of a pair and the character they make |
| IconvUnits.PairWouldBeRead | library/iconv/iconv.c:155-163 | how a pair would be read if the test before it let UTF-16 pass |
| IconvUnits.GetsUnit | library/iconv/iconv.c:43-69 | get_16 and get_32 read base-256 numbers in the byte order of the type |
| IconvUnits.NoMark | library/iconv/iconv.c:165-189 | without a byte order mark the most significant byte comes first |
| IconvRoundTrip.RoundTrip16 | library/iconv/iconv.c:149-164 | UTF-16BE and UTF-16LE texts come back if and only if they have no supplementary characters |
| IconvRoundTrip.SupplementaryIsLost | library/iconv/iconv.c:517-539 | U+10000 comes back as U+FFFD and is not counted |
| IconvRoundTrip.RoundTripPairs | library/iconv/iconv.c:517-539 | a text put out as UTF-16 can be read if and only if it has no supplementary characters; otherwise reading stops at the first |
| IconvRoundTrip.Recode | library/iconv/iconv.c:98-567 | a text in UTF-32, or in UTF-16 without supplementary characters, read in calls with windows and room of any size: they put out a prefix of the original characters in the target encoding, and all of it once the input is used up |
| IconvJapanese.SearchIsSound | library/iconv/iconv.c:79-96 | the search in the JIS table finds a cell whenever there is one, and that cell |
| IconvJapanese.CellRead | library/iconv/iconv.c:190-279 | the pairs of the standards for a row and a cell of JIS X 0208 are read as the same character in the three encodings |
| IconvJapanese.CellWritten | library/iconv/iconv.c:444-516 | and written so |
| IconvJapanese.KatakanaIs | library/iconv/iconv.c:190-279 | half-width katakana in the three encodings |
| IconvJapanese.EscapesAre | library/iconv/iconv.c:233-256 | the escape sequences of RFC 1468 and the one of katakana, and no others of 7-bit characters |
| IconvJapanese.RoundTripJapanese | library/iconv/iconv.c:190-279 | a text put out in Shift_JIS, EUC-JP or ISO-2022-JP comes back if and only if each of its characters is one the encoding keeps, which in ISO-2022-JP no escape character is; a text of such characters can be put out from every source |
| IconvJapanese.EscapeIsLost | library/iconv/iconv.c:482-516 | every text with an escape character that is put out in ISO-2022-JP either cannot be read to its end or has fewer characters then |
| IconvJapanese.CountTells | library/iconv/iconv.c:409-516 | the count that iconv returns for a Japanese target is the number of characters that do not come back, and zero if and only if the text comes back, escape characters in ISO-2022-JP excepted |
| IconvJapanese.SjisInside | library/iconv/iconv.c:190-213 | a pair of Shift_JIS is looked up inside the table if and only if its first byte is at most 0xEA and its second at most 0xFC |
| IconvJapanese.SjisSecondCode | library/iconv/iconv.c:203-211 | a second byte below 0x40 gives a second code for the pair with another second byte |
| IconvRoundTrip.RoundTripPage | library/iconv/iconv.c:428-442 | texts on an 8-bit page come back if and only if the page has all their characters |
| IconvRoundTrip.CountTells | library/iconv/iconv.c:423-443 | the count that iconv returns is the number of characters that the page does not have, and zero if and only if the text comes back |
| IconvRoundTrip.RoundTripAscii | library/iconv/iconv.c:423-443 | texts in ASCII from a source that is no 8-bit page come back, and none is counted, if and only if all characters are below U+0080 |
| IconvRoundTrip.AsciiText | library/iconv/iconv.c:132-134 | a text in ASCII is its bytes, or refused if one is above 0x7F |
| IconvRanks.SameNumber | library/iconv/iconv.c:296-315 | two four-byte codes of GB18030 are the same character if and only if they have the same number |
| IconvRanks.FourByteCodes | library/iconv/iconv.c:296-315 | four-byte codes whose third byte is not 0xFF are different characters, none of them in the two-byte table |
| IconvRanks.FourOrder | library/iconv/iconv.c:296-315 | four-byte codes and characters are in the same order |
| IconvRanks.TwoRead | library/iconv/iconv.c:288-320 | the row and the column of a two-byte code |
| IconvRanks.OlderTypes | library/iconv/iconv.c:280-320 | what GBK and GB2312 refuse; the rest is read as in GB18030 |
| IconvRanks.SecondCode | library/iconv/iconv.c:299-301 | a third byte 0xFF gives a second code for a character that has another |
| IconvRanks.FourScalar | library/iconv/iconv.c:296-315 | a four-byte code is a Unicode scalar value if and only if its number lies below the surrogates, or between them and the end, as the table counts |
| IconvRanks.FourOutside | library/iconv/iconv.c:296-315 | the two ranges in numbers, for a table with as many characters as the one in gb18030.h, and the first codes beyond each |
| IconvRanks.GbCovers | library/iconv/iconv.c:280-320 | every code point from U+0080 on has a code, of two bytes if the table has it and else of four |
| IconvRanks.ExtendedCodes | library/iconv/iconv.c:373-396 | different pairs of CP949 outside the KS X 1001 square are different characters, none of them in the square |
| IconvRanks.ExtendedOrder | library/iconv/iconv.c:373-396 | these pairs and their characters are in the same order |
| IconvRanks.SquareRead | library/iconv/iconv.c:373-399 | the square is read by row and column |
| IconvRanks.KrScalar | library/iconv/iconv.c:373-396 | a pair outside the square is a Hangul syllable if and only if its first byte is at most 0xC6, and a Unicode scalar value if and only if it is at most 0xC7 |
| IconvRanks.KrCovers | library/iconv/iconv.c:373-396 | every Hangul syllable outside the square has a pair |
| Argz.ReplacedLength | library/argz/replace.c:42-63 | the length of the result is that of the argz and one difference for each occurrence |
| Argz.ReplacedPieces | library/argz/replace.c:39-99 | the substitution puts a text that was cut, from the left, at every occurrence together with the replacement |
| Argz.CutIsLeftmost | library/argz/replace.c:13-37 | every text can be cut in that way |
| Argz.InEveryEntry | library/argz/replace.c:39-99 | the substitution takes place in every entry by itself; their number stays |
| Argz.FindStr | library/argz/replace.c:13-37 | _buf_findstr goes to the end of the first occurrence, or to the end, without reading past the last terminator |
| Argz.Measure | library/argz/replace.c:53-62 | the first pass counts the occurrences and works out the length of the result modulo 2^32, which is the length if and only if that is below 2^32 |
| Argz.Write | library/argz/replace.c:67-84 | the second pass writes exactly the result, to the last byte of a buffer of its length |
| Argz.ArgzReplace | library/argz/replace.c:38-99 | the entries afterwards, replace_count, and the failure of realloc |
| Argz.EmptyNeverEnds | library/argz/replace.c:53-58 | with an empty str the loop never ends, unless there is no entry |
| Argz.LengthWraps | library/argz/replace.c:53-64 | an input for which a buffer of 1 byte is allocated and 2^32 + 1 bytes are written |

## Findings

Where the code does not do what its documentation or its callers expect, the model follows the code.

| source | what the code does | members |
|---|---|---|
| library/iconv/iconv.c:157 | `type - UCS2BE < 2` compares signed numbers and holds for UTF-16 as well: every surrogate pair is refused | IconvRoundTrip.RoundTripPairs |
| library/iconv/iconv.c:525 | the same comparison when writing: UTF-16BE and UTF-16LE write U+FFFD for every supplementary character without counting it, and only the type UTF-16 writes pairs | IconvRoundTrip.RoundTrip16, IconvRoundTrip.SupplementaryIsLost |
| library/iconv/iconv.c:482-483 | ISO-2022-JP puts an escape character out as it is, uncounted, and reading takes it for the start of a sequence | IconvJapanese.RoundTripJapanese, IconvJapanese.EscapeIsLost |
| library/crypt/crypt_blowfish.c:629-633 | `setting[2] - 'a' > 25`, `setting[4] - '0' > 1` and `setting[5] - '0' > 9` compare signed numbers: smaller characters pass and become a negative index or a negative shift; the terminator passes as well, and the characters behind the end of the string are read | Crypt.UndefinedIndex, Crypt.UndefinedShift, Crypt.UndefinedEnd |
| library/iconv/iconv.c:430-439 | legacy_map is called for the target page with the type of the source: from a source that is no 8-bit page all characters below U+0100 go out as they are, whatever the page | IconvRun.PageIgnored |
| library/iconv/iconv.c:423-443 | for the same reason the substitution of an asterisk may never end: exactly when the page so read has no asterisk, as from IBM1047 (type 1) to US-ASCII | IconvRun.PassesEnd, IconvRun.Ibm1047NeverEnds |
| library/iconv/iconv.c:239 | the escape sequences of ISO-2022-JP are told apart by one sum, so ESC ( followed by 0xC0 or 0xC2 selects the two-byte sets | IconvDecode.Escape |
| library/iconv/iconv.c:300 | the third byte of a GB18030 code may be 0xFF, which gives characters a second code | IconvRanks.SecondCode |
| library/iconv/iconv.c:296-315 | four-byte codes of GB18030 go on past the last code point and through the surrogates | IconvRanks.FourScalar, IconvRanks.FourOutside |
| library/iconv/iconv.c:377-385 | pairs of EUC-KR with first bytes above 0xC6 are accepted: 0xC7 gives unassigned code points and those above it give surrogates | IconvRanks.KrScalar |
| library/iconv/iconv.c:199-211 | Shift_JIS takes first bytes up to 0xEF, which are rows 84 to 93 of a table of 84, and leaves second bytes below 0x40 or above 0xFC as they are, which are second codes or lie behind the row | IconvJapanese.SjisInside, IconvJapanese.SjisSecondCode |
| library/fts/fts.c:548-561 | fts_children after fts_read has returned NULL uses the current node, which is NULL then | FtsWalk.LateChildren, FtsWalk.Session |
| library/fts/fts.c:251-265 | fts_close on a stream that was never read goes by the level of the dummy structure, which fts_open does not set (fts.c:181-184): if it happens to be negative the arguments are not freed | FtsOpen.CloseUnread, FtsWalk.Fts.Close |
| library/fts/fts.c:336-340 | FTS_AGAIN on an argument "." turns it into FTS_DOT (fts.c:946-947), and a list that fts_children had made stays behind | FtsWalk.DotAgain, FtsWalk.Session |
| library/fts/fts.c:718-861 | an empty directory whose path ends in a slash or colon loses the last character of its path in the buffer | FtsStream.PathKept |
| library/argz/replace.c:53-58 | an empty str makes argz_replace loop for ever | Argz.EmptyNeverEnds |
| library/argz/replace.c:53-64 | a result of 2^32 bytes or more is written to a buffer of its length modulo 2^32 | Argz.LengthWraps |

## Left out

- FtsWalk.WalkAll: the application never asks for FTS_AGAIN, nor to follow a dangling link, which on a file system that nobody changes repeats a visit for ever.
- FtsWalk.Session: arguments and names do not end in a slash or colon, as the other members of the walk require too (PathKept says what the buffer holds then, except for "/" alone and a path that ends in ":/"); the list of arguments is not empty, where fts_read would use the parent of the dummy structure, which nothing has set.
- FtsRead.Read: FTS_NOCHDIR is set and FTS_NOSTAT is not; there is no comparison routine, so fts_sort is not part of this model; allocation does not fail.
- FtsRead.ReadNext: instructions that were set on a node before it was read (fts.c:445-457) are not covered.
- FtsRead.Close: streams that have been read; CloseUnread covers the others.
- fts: changing directories, whiteouts, fts_padjust (the path buffer is an index space of its own) and a file system that changes during the walk.
- Digest.Context.Sum: the compression functions (processblock) and the constants of the digests are parameters; what is proved holds for any of them.
- Crypt.CryptAgain: the hash functions are parameters (MD5 and SHA are filled in by CryptHashes); settings for which BF_crypt is not defined are excluded, as UndefinedIndex, UndefinedShift and UndefinedEnd say.
- Des.DoDes: setup_salt, the folding of long keys in the extended form and the S-box contents are left out; the theorems hold for any S-boxes, salt bits and subkeys.
- Des.SetKey: the packing of eight key bytes into two words is left out.
- Blowfish.ExpandSalted: the loop over the cost and the encryption of the magic words are left out.
- CryptHashes.HashedAgain: the hashes of DES crypt and BF_crypt stay parameters.
- crypt: the self-tests that the schemes run after each call.
- IconvRun.Run: UTF-8 and Big5, which rest on mbrtowc, wctomb and hard-wired pairs; texts with a character whose substitution never ends, as PassesEnd says.
- IconvRun.Converter.constructor: the look-up of the names, which Charmaps.Open models, and the failure of malloc.
- iconv: fuzzycmp is a parameter of FindCharmap; the contents of the character tables are parameters, with the properties that are needed of them as hypotheses.
- Argz.ArgzReplace: the result is shorter than 2^32 bytes, as Measure and LengthWraps say; malloc does not fail, which the code does not check (replace.c:64).
- The rest of argz, and envz, would only add easy members.
