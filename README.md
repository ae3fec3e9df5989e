# Steganographic messenger: compression, encryption framing and server helpers

This project models in Dafny the text-to-bits core of a messenger that hides
messages. A secret plaintext goes through two steps before it is embedded:

- **Compression.** The plaintext becomes message bits by one of five methods.
  - UTF-8 writes the bytes of the text.
  - LZ77 writes 9-bit literal tokens and 17-bit match tokens, zero-filled to a
    whole byte.
  - Huffman writes a code table built from character counts.
  - Six-bit writes one 6-bit index per lowercased character of a 62-character
    table.
  - Seven-bit writes one 7-bit index per character of an 88-character table.
- **Encryption.** The message bits are packed into bytes and encrypted with AES
  in EAX or OFB mode. The nonce and tag (EAX) or the IV (OFB) are written in
  front of the ciphertext as bits.

The relay server's helpers are modelled too:

- delivery-path normalisation and validation;
- email validation;
- the list of delivery paths offered for a region and the contact details;
- the loops that select the stored messages of a conversation (or the recent
  unseen ones) and mark whether the requesting device sent each one.

Modules, one per file:

| module | file | what it holds |
|---|---|---|
| `Wrappers` | wrappers.dfy | `Option` and `Result`. A `Failure` carries the message the Python code raises. |
| `Bits` | bits.dfy | Big-endian bit strings, `bytes2bits`/`frombytes`, `bits2bytes`/`tobytes`. |
| `Text` | text.dfy | `str.lower` and `str.strip()`. |
| `FixedWidth` | fixedwidth.dfy | The table-indexed fixed-width codec shared by the six-bit and seven-bit compressors. |
| `SixBit`, `SevenBit` | sixbit.dfy, sevenbit.dfy | The two compressors: their tables, and the codec instantiated. |
| `Lz77` | lz77.dfy | `LZ77Compressor`. |
| `Huffman` | huffman.dfy | `HuffmanCompressor`. |
| `Encryption` | encryption.dfy | `Encryptor`. AES is a parameter. |
| `Compression` | compression.dfy | The method dispatcher. |
| `Server` | server.dfy | The server helpers. |

Each loop of the source is a `method` with a `while` loop. It is proved equal
to a recursive specification function, and the properties are proved about
that function.

The seven-bit table in seven_bit_compressor.py has 88 characters, the
indices 0 to 87. The model follows the code. A 7-bit code from 88 to 127 is
reported as an invalid character code.

## Model

| member | source | states |
|---|---|---|
| `Bits.ValueOfToBits` | six_bit_compressor.py:28 | Reading a number back from its `w`-bit writing gives the number. |
| `Bits.ToBitsOfValue` | six_bit_compressor.py:44 | Writing a bit string's value at its own width gives the same bit string. |
| `Bits.ValueInjective` | six_bit_compressor.py:44 | Two bit strings of one width with equal values are equal. |
| `Bits.ValueAppend` | encryption.py:30 | The value of a concatenation is the high part shifted left by the low part's width, plus the low part. |
| `Bits.BytesToBitsAt` | encryption.py:5-15 | Bits 8i to 8i+8 of `bytes2bits(data)` are byte i, most significant bit first. |
| `Bits.BytesToBitsAppend` | encryption.py:5-15 | `bytes2bits` distributes over concatenation. |
| `Bits.PackedLength` | encryption.py:17-32 | `bits2bytes` produces ceil(n/8) bytes. |
| `Bits.PackedAt` | encryption.py:28-31 | Byte i of `bits2bytes` is packed from bits 8i to 8i+8. A short last chunk takes the high-order positions. |
| `Bits.PackedOfBytesToBits` | encryption.py:5-32 | `bits2bytes(bytes2bits(b)) == b`. |
| `Bits.BytesToBitsOfPacked` | encryption.py:5-32 | `bytes2bits(bits2bytes(x)) == x` when the length of x is a multiple of 8. |
| `Bits.BytesToBitsOfPackedPads` | encryption.py:5-32 | In general, `bytes2bits(bits2bytes(x))` is x followed by zero bits up to the next byte boundary. |
| `Bits.BitsToBytes` | encryption.py:27-32 | The chunk loop returns the packing of the bits, which has ceil(n/8) bytes. |
| `Text.StripIsStrip` | server.py:58 | `strip()` removes only whitespace, from both ends, and leaves none at either end. |
| `Text.StripUnchanged` | server.py:58 | A string with no whitespace at its ends is unchanged by `strip()`. |
| `Text.StripIdempotent` | server.py:58 | `strip()` is idempotent. |
| `Text.LowerKeepsSpace` | server.py:58 | Lowercasing neither creates nor removes whitespace. |
| `Text.StripLowerCommute` | server.py:58 | `s.lower().strip() == s.strip().lower()`. |
| `Text.LowerIdempotent` | six_bit_compressor.py:24 | Lowercasing twice is lowercasing once. |
| `FixedWidth.LastIndex` | six_bit_compressor.py:9 | ENCODE_MAP keeps the last index of a repeated character: the result holds the character and no later position does. |
| `FixedWidth.EncodeMap` | six_bit_compressor.py:9 | ENCODE_MAP's keys are exactly the table's characters. Each maps to a position that holds it. |
| `FixedWidth.DecodeMap` | six_bit_compressor.py:10 | DECODE_MAP's keys are exactly the table's indices. Each maps to the character there. |
| `FixedWidth.MapsInverse` | six_bit_compressor.py:9-10 | For a table without repeats, ENCODE_MAP and DECODE_MAP are mutual inverses. |
| `FixedWidth.EncodeSucceeds` | six_bit_compressor.py:23-28 | Compression succeeds if and only if every normalised character is in the table. |
| `FixedWidth.EncodeLength` | six_bit_compressor.py:28 | A successful compression writes exactly w bits per character. |
| `FixedWidth.EncodeFails` | six_bit_compressor.py:25-26 | Compression fails with "Unsupported character: c", where c is the first offending character as the user wrote it. |
| `FixedWidth.RoundTrip` | six_bit_compressor.py:12-48 | Decompressing a compression gives back the normalised text. |
| `FixedWidth.InvalidCode` | six_bit_compressor.py:44-46 | A group whose code is past the table fails with "Invalid character code: n", n in decimal. |
| `FixedWidth.DecodeThenEncode` | six_bit_compressor.py:12-48 | Whole groups that decompress, compress back to the same bits, for a table without repeats and closed under normalisation. |
| `FixedWidth.Compress` | six_bit_compressor.py:22-29 | The loop that extends the bit string code by code computes the encoding. |
| `FixedWidth.Decompress` | six_bit_compressor.py:41-48 | The loop over w-bit groups computes the decoding. The last group may be short. |
| `SixBit.CharsetValid` | six_bit_compressor.py:5-8 | The table has 62 distinct characters, each its own lower case, and every index fits in 6 bits. |
| `SixBit.MapsInverse` | six_bit_compressor.py:9-10 | The six-bit ENCODE_MAP and DECODE_MAP invert each other. |
| `SixBit.RoundTrip` | six_bit_compressor.py:12-48 | Text whose lowercased characters are all in the table compresses to 6 bits per character. It decompresses to the lowercased text. |
| `SixBit.Unsupported` | six_bit_compressor.py:24-26 | The first character whose lower case is not in the table is reported as written. |
| `SixBit.InvalidCode` | six_bit_compressor.py:44-46 | Codes 62 and 63 are rejected as invalid character codes. |
| `SixBit.DecodeThenEncode` | six_bit_compressor.py:12-48 | Whole 6-bit groups that decompress, compress back to the same bits. |
| `SixBit.Compress` | six_bit_compressor.py:12-29 | `compress` is the table-driven encoding. |
| `SixBit.Decompress` | six_bit_compressor.py:31-48 | `decompress` is the table-driven decoding. |
| `SevenBit.CharsetValid` | seven_bit_compressor.py:5-9 | The table has 88 distinct characters, and every index fits in 7 bits. |
| `SevenBit.MapsInverse` | seven_bit_compressor.py:10-11 | The seven-bit ENCODE_MAP and DECODE_MAP invert each other. |
| `SevenBit.RoundTrip` | seven_bit_compressor.py:13-48 | Text in the table compresses to 7 bits per character and decompresses to itself. Case is kept. |
| `SevenBit.Unsupported` | seven_bit_compressor.py:24-26 | The first character outside the table is reported. |
| `SevenBit.InvalidCode` | seven_bit_compressor.py:44-46 | Codes 88 to 127 are rejected as invalid character codes. |
| `SevenBit.DecodeThenEncode` | seven_bit_compressor.py:13-48 | Whole 7-bit groups that decompress, compress back to the same bits. |
| `SevenBit.Compress` | seven_bit_compressor.py:13-29 | `compress` is the table-driven encoding. |
| `SevenBit.Decompress` | seven_bit_compressor.py:31-48 | `decompress` is the table-driven decoding. |
| `Lz77.TimesLength` | LZ77.py:162-164 | `len(s * n) == n * len(s)`. |
| `Lz77.MatchTest` | LZ77.py:158-166 | The comparison `data[i:cp]*rep + data[i:i+last] == substring` holds if and only if each of the l bytes from cp equals the byte cp-i positions before it, so a match may overlap itself. Its slices are in range. |
| `Lz77.FirstDistance` | LZ77.py:153-168 | The first start index whose comparison succeeds gives a matching distance within the window. |
| `Lz77.FirstDistanceLargest` | LZ77.py:153-168 | If any distance up to d matches, the scan finds one, and it is the largest matching one. |
| `Lz77.LongestMatch` | LZ77.py:124-172 | A returned match has distance 1 to min(cp, window), length 2 to 14, and lies within the data. |
| `Lz77.LongestMatchValid` | LZ77.py:124-172 | A returned match really repeats the bytes `distance` back. |
| `Lz77.LongestMatchIsBest` | LZ77.py:148-172 | Optimality. If any tried distance and length match, a match is returned. No matching pair is longer, and none of equal length has a larger distance. |
| `Lz77.UnpackOfPack` | LZ77.py:60-63 | The decompressor's `(b1 << 4) \| (b2 >> 4)` and `b2 & 0xf` recover a distance below 4096 and a length below 16 from the two bytes written. |
| `Lz77.TokenBits` | LZ77.py:53-78 | A literal token is 9 bits, a match 17, and the first bit is the match flag. |
| `Lz77.NextPosition` | LZ77.py:68-78 | Each step advances the position and stays within the data. |
| `Lz77.Compressed` | LZ77.py:30-83 | The output is zero-filled to a whole number of bytes. |
| `Lz77.CopyBackReproduces` | LZ77.py:117-118 | Copying a valid, possibly overlapping, match from the end of the output reproduces the next bytes. |
| `Lz77.DecodeLiteral` | LZ77.py:104-108 | A literal token decodes to its byte, and decoding resumes after its 9 bits. |
| `Lz77.DecodeCopy` | LZ77.py:109-118 | A match token copies from the end of the output, and decoding resumes after its 17 bits. |
| `Lz77.DecodesFrom` | LZ77.py:100-118 | Decoding the tokens emitted from position i, after the first i bytes, restores all the data. The zero fill is ignored. |
| `Lz77.RoundTrip` | LZ77.py:30-121 | Decompressing the compressed bytes gives them back, for every window size up to 400. |
| `Lz77.Lz77Compressor.constructor` | LZ77.py:24-28 | The window is the requested size capped at 400. The lookahead buffer is 15. |
| `Lz77.Lz77Compressor.FindLongestMatch` | LZ77.py:124-172 | The two nested loops return `LongestMatch`: the longest match, at the largest distance of that length. |
| `Lz77.Lz77Compressor.TryStart` | LZ77.py:158-166 | One comparison tells whether distance cp-i matches. |
| `Lz77.Lz77Compressor.ScanStarts` | LZ77.py:150-168 | The inner loop takes the first start index that matches, the largest distance, and otherwise keeps the best so far. |
| `Lz77.Lz77Compressor.EmitToken` | LZ77.py:51-78 | One step appends the bits of the match token or the literal token, and moves to the next position. |
| `Lz77.Lz77Compressor.CompressData` | LZ77.py:44-83 | The compression loop and the final `fill()` produce `Compressed`, a whole number of bytes. |
| `Lz77.Lz77Compressor.CopyMatch` | LZ77.py:117-118 | The copy loop appends the byte `distance` back, `length` times. It fails like `output_buffer[-distance]` on an index out of range. |
| `Lz77.Lz77Compressor.Decompress` | LZ77.py:97-118 | The token loop, on its own copy of the bits, computes `Decoded`. A match flag with no second byte fails in `ord`. |
| `Huffman.Chars` | huffman.py:7 | `Counter`'s keys: no repeats, and exactly the characters of the text. |
| `Huffman.PrefixKeepsPrefixFree` | huffman.py:15-18 | Prefixing one bit to every code keeps the codes prefix-free and makes them non-empty. |
| `Huffman.MergeWellFormed` | huffman.py:13-19 | The merge of two prefix-free nodes is prefix-free with non-empty codes. The two sides differ in their first bit. |
| `Huffman.StepWellFormed` | huffman.py:12-19 | One round of the merge loop keeps every heap node well formed. |
| `Huffman.StepKeys` | huffman.py:12-19 | One round of the merge loop keeps the multiset of characters on the heap. |
| `Huffman.MergedInvariant` | huffman.py:12-19 | The loop ends with one well-formed node holding every character it started with. |
| `Huffman.TreeShape` | huffman.py:6-25 | For non-empty text, `build_tree` gives each distinct character exactly one code. The codes are prefix-free, and non-empty when there are two or more characters. |
| `Huffman.EmptyText` | huffman.py:22 | On empty text, `heappop` on an empty heap fails, in `build_tree` and in `compress`. |
| `Huffman.SingleCharacter` | huffman.py:11-31 | With one distinct character, the loop never runs. That character gets the empty code, compression writes no bits, and decompression gives "". |
| `Huffman.TreeCovers` | huffman.py:27-30 | Every character of the text has a code in its table. |
| `Huffman.AsMapAt` | huffman.py:22 | With distinct keys, the dictionary maps each entry's character to its code. |
| `Huffman.ReverseKeys` | huffman.py:34 | `reverse_tree`'s keys are exactly the table's codes. |
| `Huffman.ReverseAt` | huffman.py:34 | With prefix-free codes, `reverse_tree` maps each code back to its character. |
| `Huffman.ReadCode` | huffman.py:37-41 | Reading a whole code, after a buffer that is a proper prefix of it, emits its character and empties the buffer. |
| `Huffman.EncodeAppend` | huffman.py:27-31 | The bits of a concatenation are the two texts' bits one after the other, so the compressed length is the sum of the characters' code lengths. |
| `Huffman.GreedyDropsTail` | huffman.py:37-42 | Trailing bits that, with the buffer, never complete a code are dropped: decoding emits nothing more. |
| `Huffman.DecodeEncoded` | huffman.py:30-42 | Greedy decoding inverts encoding for distinct keys and non-empty prefix-free codes. |
| `Huffman.RoundTrip` | huffman.py:6-42 | For text with two or more distinct characters, decompressing with the built table gives the text back. The table has the shape above. This holds whichever node `heappop` returns. |
| `Huffman.Frequencies` | huffman.py:7-9 | `Counter(text)` and the loop that counts again give each character twice its number of occurrences. |
| `Huffman.PrependBit` | huffman.py:15-18 | The in-place loop puts the bit in front of every code. |
| `Huffman.MergeRound` | huffman.py:13-19 | One pass pops low, pops high, and pushes their merge. |
| `Huffman.BuildTreeLoop` | huffman.py:6-25 | `build_tree` computes `BuildTree`. |
| `Huffman.CompressText` | huffman.py:27-31 | `compress` computes `Compress`. |
| `Huffman.DecompressBits` | huffman.py:33-42 | The buffer loop computes the greedy decoding. |
| `Encryption.Split` | encryption.py:93-95 | Cutting a concatenation at the first part's length gives the parts back. |
| `Encryption.OfbFraming` | encryption.py:69-103 | Opening what OFB sealed, the IV comes back off at byte 16 and the ciphertext is decrypted. |
| `Encryption.EaxFraming` | encryption.py:63-97 | Opening what EAX sealed, nonce and tag come back off at bytes 16 and 32 and the ciphertext is verified and decrypted. |
| `Encryption.Encryptor.constructor` | encryption.py:35-48 | The mode, key, key length and IV are stored as given. |
| `Encryption.Encryptor.Refusals` | encryption.py:69-105 | A mode other than EAX and OFB is refused by both `encrypt` and `decrypt`. OFB without an IV cannot encrypt. |
| `Encryption.Encryptor.OfbDispatch` | encryption.py:63-105 | In OFB mode with an IV, `encrypt` and `decrypt` take the OFB branches. |
| `Encryption.Encryptor.OfbRoundTrip` | encryption.py:51-109 | With a 16-byte IV and a keystream that undoes itself, `decrypt(encrypt(m))` is m zero-filled to a whole byte. |
| `Encryption.Encryptor.EaxRoundTrip` | encryption.py:51-109 | With a 16-byte nonce and tag that verify, `decrypt(encrypt(m))` is m zero-filled to a whole byte. |
| `Compression.Name` | compression.py:12 | Each method's name is in VALID_METHODS. |
| `Compression.NamedIsName` | compression.py:12 | The recognised names are exactly VALID_METHODS, and naming inverts recognising. |
| `Compression.ChosenCases` | compression.py:13-22 | A requested name is accepted exactly when its lower case is in VALID_METHODS. A refusal reads "Unsupported compression method: " and the lowercased name. |
| `Compression.ChosenStable` | compression.py:20-22 | Asking again for the chosen method's name chooses the same method. |
| `Compression.Compressor.Create` | compression.py:13-22 | The constructor builds a compressor for the lowercased name, or fails as `__init__` raises. |
| `Compression.Compressor.Utf8RoundTrip` | compression.py:36-64 | UTF-8 writes 8 bits per encoded byte, and decompression gives the text back when the codec round-trips. |
| `Compression.Compressor.Lz77RoundTrip` | compression.py:38-67 | LZ77 output is a whole number of bytes, and decompression gives the text back. |
| `Compression.Compressor.SixBitRoundTrip` | compression.py:44-71 | Six-bit succeeds if and only if every lowercased character is in the table, and then decompresses to the lowercased text. |
| `Compression.Compressor.SevenBitRoundTrip` | compression.py:46-73 | Seven-bit succeeds if and only if every character is in the table, and then decompresses to the text. |
| `Compression.Compressor.HuffmanOneWay` | compression.py:41-69 | Huffman compresses text of two or more distinct characters and fails on empty text. Decompression always fails with the TypeError Python 3.10 and later raise for the missing `tree` argument, since the table is never passed. |
| `Server.NormalizeCases` | server.py:52-68 | `normalize_path` gives "" exactly for a non-string or an all-whitespace string. Otherwise it gives "email" or "sms" for the aliases, or the cleaned string itself. The result is always lowercase and trimmed. |
| `Server.NormalizeIdempotent` | server.py:52-68 | Normalising a normalised path changes nothing. |
| `Server.ValidatePathAccepts` | server.py:182-186 | `validate_path` accepts exactly the strings that lowercase and trim to one of eight spellings. |
| `Server.ValidatePaths` | server.py:80-114 | The loop with early returns answers true exactly for a list whose every entry is a string normalising to "", "email" or "sms". |
| `Server.StoredPaths` | server.py:280-285 | After validation, the normalised list holds only "email" and "sms", and holds every non-empty normalised entry. |
| `Server.Find` | server.py:76 | The index of the first occurrence of a character, or the length when there is none. |
| `Server.Split` | server.py:76 | `str.split` gives at least one piece, and two or more when the separator occurs. The first piece runs up to the first separator, and no piece contains it. |
| `Server.JoinSplit` | server.py:76 | Joining the pieces of `split` with the separator gives the string back. |
| `Server.ValidateEmailShape` | server.py:70-78 | `validate_email` holds exactly for a string whose trimmed lower case has a first `@` followed, before any further `@`, by a `.`. |
| `Server.WithoutMembers` | server.py:910-913 | The filter keeps exactly the other elements. |
| `Server.CheckAvailablePaths` | server.py:895-915 | The answer is strictly sorted with no repeats and drawn from "Email" and "SMS". A path is in it exactly when the region offers it, SMS needs a phone and Email needs an address. |
| `Server.KeptMembers` | server.py:699-717 | A message is selected exactly when it is stored and passes the test, as many times as it is stored. |
| `Server.KeptAppend` | server.py:699-717 | Selection keeps the stored order: two stretches are filtered one after the other. |
| `Server.Select` | server.py:699-717 | The loop that appends each message passing the test computes the selection. |
| `Server.PartnerToCurrentOnce` | server.py:711-714 | The two disjuncts of `is_partner_to_current` are the same test. |
| `Server.AnnotatedFields` | server.py:724-732 | A returned message gets the ownership flag and copies of its present text, cover text and non-empty image. Its stored fields are unchanged. |
| `Server.MarkOwnership` | server.py:722-732 | The in-place loop annotates every message with the flag the test gives it, and keeps the length. |
| `Server.Get` | server.py:780-781 | `record.get(key)` is a string exactly when the stored value is one; absent and `null` both give `None`. |
| `Server.GetOr` | server.py:701-703 | `record.get(key, "")` gives `None` exactly for a stored `null`, the default for an absent key, and the string otherwise. |
| `Server.Lowered` | server.py:701-702 | A non-`null` address lowers to `""` when absent and to the lowered string otherwise. |
| `Server.NullSenderId` | server.py:703-724 | A `null` sender id equals no string device id: the message is selected by its addresses alone and never marked as the current user's. |
| `Server.SelectConversation` | server.py:699-717 | The loop fails with the AttributeError of `.lower()` exactly when some stored address is `null`, and otherwise selects the conversation in stored order. |
| `Server.FetchConversation` | server.py:666-738 | The handler fails with the `.lower()` AttributeError exactly when a requested or stored address is `null`. Otherwise the lowercased addresses select the conversation in stored order, and each message is marked as sent by the current user exactly when its `sender_id` (`""` when absent, `None` when `null`) equals the device id. |
| `Server.FetchMessages` | server.py:758-788 | The recent messages with unseen ids, in stored order. Each is marked as sent by the current user exactly when its `sender_id` equals the device id, an absent or `null` one matching an absent or `null` device id. |

## Left out

- AES is not modelled. The EAX seal and open and the OFB keystream are parameters of type `Cipher`. The round trips require a cipher whose opening undoes its sealing.
- The random nonce `AES.new` draws in EAX mode is a parameter of `Encrypt`.
- The key length field is stored but, as in the source, never read.
- Python's UTF-8 `str.encode` and `bytes.decode` are a parameter `Utf8Codec`. The UTF-8 and LZ77 round trips require a codec that decodes what it encodes.
- `heapq.heappop` is a parameter `pick` choosing the index popped. The source never heapifies its list and compares `[weight, [char, code]]` lists, so its pop order depends on the library. Every Huffman property holds for all choices.
- Huffman.SingleCharacter: follows the source text, where a one-character alphabet gets the empty code. Whether bitarray's `encode` accepts an empty code is library behaviour and not modelled.
- `str.lower` is modelled for the ASCII capitals and the Kelvin sign, the only characters whose lower case is ASCII. Other capitals, such as `Ä` or `É`, are left as they are. The yes-or-no answers of `validate_path`, `validate_paths`, `validate_email`, the six-bit table lookup and the method check of `Compressor` are still exact, because no other character lowers to ASCII. The strings below are not.
- Server.NormalizeCases: an unknown path is returned with its non-ASCII capitals unlowered, where `normalize_path` lowers them.
- Server.FetchConversation: the user and partner addresses and the stored sender and recipient addresses are compared with non-ASCII capitals unlowered. A stored message from `ä@x.com` is not selected for the user `Ä@x.com`, though `fetch_conversation_messages` selects it.
- Compression.ChosenCases: the refused name in "Unsupported compression method: " keeps its non-ASCII capitals. For `Compressor("É")` the model reports `É` where `__init__` reports `é`.
- Compression.Compressor.Create: fails with the message of `Compression.ChosenCases`, with the same unlowered non-ASCII capitals.
- `isinstance` checks are modelled through `Server.Value`: a JSON value is a string, a list, or something else. The type checks of `compress` and `decompress` are left out, since Dafny's types rule those inputs out.
- The integer lists of `bytes2bits` and `bits2bytes` are bit strings. Elements other than 0 and 1 are not modelled.
- The `else` branches that raise in `compress` and `decompress` are left out: after `__init__` the method is always one of the five, so they cannot run.
- Flask routing, request parsing, file I/O, JSON decoding, SMTP, Twilio, the GPT-2 cover text, the configuration loader and the debug `print` calls are left out.
- `fetch_messages` compares timestamps with the clock. That test is the parameter `isRecent`, false where `fromisoformat` would fail.
- Stored message fields and the request's address and device fields are strings, `null` or absent. `store_message` writes `null` for an address the client leaves out, so every `send_sms` record has `null` addresses and makes `fetch_conversation_messages` fail. A number, boolean, array or object in one of these fields is not modelled; `.lower()` on it would raise an AttributeError naming its type.
- Server.CheckAvailablePaths: the region is a string. A number, boolean or `null` region falls to `["Email"]` in the source, as an unknown string does here. An array or object region makes `region_defaults.get` raise TypeError (unhashable type), and the request fails. The model does not capture that failure.
- Server.CheckAvailablePaths: `sorted(set(...))` is modelled for lists drawn from "Email" and "SMS", the only values the list can hold.
- The loops that extend lists in place are modelled on `seq` values that the methods reassign. Aliasing of the message dictionaries is not modelled, since the source returns them right after annotating them.
- The verbose trace printing of `compress_data` is left out.
