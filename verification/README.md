# Verification of libpict's JSON codec, PTP engine and data codecs

This Dafny 4.11 project models three parts of libpict and proves properties of the models.
`dafny verify dfyconfig.toml` checks all of it.

**The JSON codec of `src/lua/lua-cjson`.** `JsonSyntax` holds the grammar of section 2 of
RFC 4627 as syntax trees, relaxed as the code relaxes it: any value may stand at the top, strings
may hold raw control characters, and a number is one lexical class, a numeral of `strtod`. All
other terminals are its own. `JsonLexis` and `JsonParser` say what the tokenizer and the
recursive descent compute; `JsonTokens`, `JsonCorrect` and `JsonTheorem` prove that this is
exactly the grammar, and `JsonUnicode` compares the escapes with UTF-16 and UTF-8. `JsonDecoder` is the decoder as it
runs, with its index and its temporary buffer. `JsonEncoding`, `JsonTables`, `JsonEncoder`,
`JsonRoundTrip`, `JsonReturned` and `JsonCodec` do the same for the encoder and prove when it
succeeds, what comes back of its text, and when that is the value itself. `StrBuf` is the growing
buffer under both.

**The PTP transaction engine of `src/transport.c`, `src/packet.c`, `src/lib.c`, `src/error.c`
and `src/operations.c`.** The device is an endpoint that delivers and accepts as few bytes at a
time as it likes, or fails (`Transport`). `Packets` holds the containers of Annex D of
ISO 15740 and the packets of section 2.3 of CIPA DC-005; `IpTransport` the receiving side of
PTP/IP; `Transactions` whole runs of calls; `Runtime` the class `PtpRuntime` with its buffer,
proved against these specifications; `Threads` a step model of any number of threads;
`Operations` the array replies and downloads.

**The stateful data codecs of `src/data.c`, `src/generic.c`, `src/canon_adv.c` and
`src/dec/main.c`.** `EosEvents` is the two-pass walk over EOS events, `EosMessages` the messages
that a camera writes for it, and `PropAvail` the linked list of announced values that it feeds;
`ObjectInfo` and `ObjectInfoCodec` are the ObjectInfo dataset; `EvProc`, `EvProcText` and
`EvProcPack` the EvProc commands.

Preconditions are those of the code: whole transactions are for USB containers, because sending
panics for plain PTP/IP (`src/transport.c:19-21`); PTP/IP frames have at least 8 bytes, because
shorter ones are not defended against (`src/transport.c:70-85`); `response_wait_default` and
`max_packet_size` are at least 1 (`Transport.ImpatienceIsEndless` says what happens otherwise).
Where the code and what it says of itself disagree the model follows the code: `ptp_get_param`
after a data phase returns the response code (`src/packet.c:207-211`), a re-announced property
keeps its first size and count (`src/lib.c:72-80`), linear buffer growth does not reach the
request (`src/lua/lua-cjson/strbuf.c:153-156`), the EvProc lexer steps over the end of a text with
trailing blanks (`src/canon_adv.c:104-109,167-170`), an event keeps the low 16 bits of an object
handle (`src/libpict.h:172`, `src/data.c:783`), and the PTP/IP payload length is the one that the
start packet declares, whatever the end packet holds (`src/packet.c:171-178`).

## Model

| member | source | states |
|---|---|---|
| `JsonTheorem.DecoderMatchesGrammar` | src/lua/lua-cjson/lua_cjson.c:1215-1239 | For every text, mode and value: decoding succeeds with that value if and only if what the decoder sees of the text (up to its first NUL) derives from the relaxed RFC 4627 grammar, with white space, words, punctuation and escapes of its own, by a derivation that denotes the value. Termination is part of it. |
| `JsonTheorem.Unambiguous` | src/lua/lua-cjson/lua_cjson.c:1103-1239 | Two derivations of one text denote the same value. |
| `JsonTheorem.Complete` | src/lua/lua-cjson/lua_cjson.c:997-1239 | Every text that derives from the grammar is decoded, to the value the grammar assigns. |
| `JsonTheorem.Sound` | src/lua/lua-cjson/lua_cjson.c:997-1239 | Every text that is decoded has a derivation with the decoded value; the lemma builds it. |
| `JsonCorrect.ValueRead` | src/lua/lua-cjson/lua_cjson.c:1185-1212 | The text of any well-formed syntax tree, behind blanks and before anything that continues no numeral, is parsed to the value of the tree, and parsing stops right behind it. |
| `JsonCorrect.ValueFound` | src/lua/lua-cjson/lua_cjson.c:1185-1212 | Whatever is parsed as a value is the text of a well-formed tree of that value. |
| `JsonCorrect.MembersRead` | src/lua/lua-cjson/lua_cjson.c:1103-1148 | Members are parsed in order into one table; of equal names the later wins. |
| `JsonCorrect.ElementsRead` | src/lua/lua-cjson/lua_cjson.c:1151-1182 | Elements are parsed in order to the keys i, i + 1, ... |
| `JsonTokens.StringRead` | src/lua/lua-cjson/lua_cjson.c:868-923 | A string literal is read whole, with exactly the bytes its characters and escapes stand for. |
| `JsonTokens.StringWritten` | src/lua/lua-cjson/lua_cjson.c:868-923 | A string literal that is read consists of well-formed characters and escapes of the decoded bytes. |
| `JsonTokens.LiteralLexed` | src/lua/lua-cjson/lua_cjson.c:997-1069 | Numbers, words and strings are read whole in either mode, and give the token they spell. |
| `JsonTokens.LiteralFound` | src/lua/lua-cjson/lua_cjson.c:997-1069 | A token that carries a value comes from the text of a literal of that value. |
| `JsonTokens.StrictnessRead` | src/lua/lua-cjson/lua_cjson.c:940-975 | The strict test rejects exactly the numerals with a plus sign, a leading zero, hexadecimal digits, infinity or NaN. |
| `JsonTokens.RfcNumber` | src/lua/lua-cjson/lua_cjson.c:940-991 | Every number of section 2.4 of RFC 4627 is a numeral, in strict mode too. |
| `JsonTokens.RfcInteger` | src/lua/lua-cjson/lua_cjson.c:977-991 | An integer of RFC 4627 that a double holds is read as the number its digits stand for. |
| `JsonTokens.HexAgrees` | src/lua/lua-cjson/lua_cjson.c:722-754 | Hexadecimal digits of either case, and no other characters, with their values. |
| `JsonTokens.ShortAgrees` | src/lua/lua-cjson/lua_cjson.c:411-421 | Exactly the eight escapes of two characters of section 2.5 of RFC 4627, with their characters. |
| `JsonParser.ParseDocument` | src/lua/lua-cjson/lua_cjson.c:1090-1239 | An error never names as found a token that would have suited what it wants. |
| `JsonLexis.LongestNumeralIsLongest` | src/lua/lua-cjson/lua_cjson.c:977-991 | strtod as a specification: what is consumed is a numeral and no longer prefix is one. |
| `JsonLexis.NumeralStops` | src/lua/lua-cjson/lua_cjson.c:977-991 | A numeral before a character that no numeral contains is consumed whole. |
| `JsonLexis.ScanString` | src/lua/lua-cjson/lua_cjson.c:868-923 | The decoded text is always shorter than the characters consumed, so that the unchecked appends fit a buffer of the size of the text. |
| `JsonLexis.CodepointToUtf8` | src/lua/lua-cjson/lua_cjson.c:758-791 | A code point up to 0x1FFFFF takes one to four bytes, one up to 0xFFFF at most three, a larger one none. |
| `JsonUnicode.EscapesTranscode` | src/lua/lua-cjson/lua_cjson.c:802-858 | For every sequence of UTF-16 units spelled as \u escapes: the literal is accepted if and only if the units are well-formed UTF-16 (section 2.2 of RFC 2781), and then the token is the UTF-8 encoding (section 4 of RFC 3629) of the characters; lone and misordered surrogates are rejected. |
| `JsonUnicode.ScalarsTranscode` | src/lua/lua-cjson/lua_cjson.c:802-858 | Any sequence of Unicode scalars, written as \u escapes with pairs above 0xFFFF, is read as its UTF-8 encoding. |
| `JsonUnicode.Utf8Unique` | src/lua/lua-cjson/lua_cjson.c:758-791 | The grammar of RFC 3629 gives each sequence of characters exactly one encoding, so the token is the only possible one. |
| `JsonUnicode.Utf8CharUnique` | src/lua/lua-cjson/lua_cjson.c:758-791 | A byte sequence that the RFC 3629 grammar reads as a character is the one that codepoint_to_utf8 writes for it. |
| `JsonUnicode.Utf8CharRead` | src/lua/lua-cjson/lua_cjson.c:758-791 | What codepoint_to_utf8 writes for a scalar is read back by the RFC 3629 grammar as that scalar. |
| `JsonUnicode.Utf16RoundTrip` | src/lua/lua-cjson/lua_cjson.c:815-845 | Scalars survive UTF-16 encoding and decoding. |
| `JsonUnicode.Utf16DecodesToScalars` | src/lua/lua-cjson/lua_cjson.c:815-845 | Well-formed units decode to scalars whose encoding they are. |
| `JsonDecoder.Parser.constructor` | src/lua/lua-cjson/lua_cjson.c:1215-1228 | The temporary buffer has the size of the whole text, the index starts at 0. |
| `JsonDecoder.Parser.DecodeHex4` | src/lua/lua-cjson/lua_cjson.c:722-754 | The value of four hexadecimal digits, -1 otherwise; it never reads past the terminator. |
| `JsonDecoder.Parser.ReadEscape` | src/lua/lua-cjson/lua_cjson.c:802-845 | The code point and the width of the escape at the index, or that it is rejected. |
| `JsonDecoder.Parser.AppendUnicodeEscape` | src/lua/lua-cjson/lua_cjson.c:802-858 | Appends the UTF-8 of the escape without a check and moves on, keeping the size argument; a rejected escape changes nothing. |
| `JsonDecoder.Parser.AppendItem` | src/lua/lua-cjson/lua_cjson.c:884-913 | One character or escape: appended bytes and index agree with the specification of the literal, and the buffer still holds what may come. |
| `JsonDecoder.Parser.NextStringToken` | src/lua/lua-cjson/lua_cjson.c:868-923 | The token and the new index are those of the specification; the buffer is never reallocated. |
| `JsonDecoder.Parser.NextNumberToken` | src/lua/lua-cjson/lua_cjson.c:977-991 | The number token is the longest numeral, or an error. |
| `JsonDecoder.Parser.NextToken` | src/lua/lua-cjson/lua_cjson.c:997-1069 | The next token and the new index, for every text and mode. |
| `JsonDecoder.Parser.ProcessValue` | src/lua/lua-cjson/lua_cjson.c:1185-1212 | The result and the new index agree with the specification of a value. |
| `JsonDecoder.Parser.ParseArrayContext` | src/lua/lua-cjson/lua_cjson.c:1151-1182 | The loop builds exactly the table of the specification, or stops with the same error. |
| `JsonDecoder.Parser.ParseObjectContext` | src/lua/lua-cjson/lua_cjson.c:1103-1148 | The same for objects. |
| `JsonDecoder.Parser.ParseToEnd` | src/lua/lua-cjson/lua_cjson.c:1230-1236 | A value and then the end of the text. |
| `JsonDecoder.Decode` | src/lua/lua-cjson/lua_cjson.c:1215-1239 | The imperative decoder computes what DecoderMatchesGrammar is about. |
| `JsonDecoder.JsonDecode` | src/lua/lua-cjson/lua_cjson.c:1241-1261 | Texts with a NUL among their first two bytes are refused, all others decoded. |
| `JsonCodec.RoundTrip` | src/lua/lua-cjson/lua_cjson.c:686-715 | For every encodable value within the nesting limit, decoding the encoder's text succeeds in both modes and reads it to its end; it gives what JsonReturned.Returned says, and the value itself if and only if every table in it has the keys 1 to n, in any order, or string keys only. |
| `JsonCodec.TreeDecoded` | src/lua/lua-cjson/lua_cjson.c:1215-1261 | The text of any well-formed tree passes the test for wide encodings and is decoded to what the tree denotes. |
| `JsonCodec.EncodesExactly` | src/lua/lua-cjson/lua_cjson.c:497-684 | Encoding succeeds if and only if the value holds no foreign type, no infinity or NaN, no such key, and no table with positive integer keys of which one is beyond the safe index and beyond the ratio to the entries, unless such tables are converted; and its nesting fits encode_max_depth. |
| `JsonCodec.RefusedWithReason` | src/lua/lua-cjson/lua_cjson.c:497-684 | The reason for which a value is refused is a true one: what it names is in the value. |
| `JsonCodec.EmptyTableIsObject` | src/lua/lua-cjson/lua_cjson.c:663-668 | The empty table is written as {}. |
| `JsonReturned.TreeReturned` | src/lua/lua-cjson/lua_cjson.c:552-684 | What is written for any value denotes the value with the holes of its arrays filled by null up to the largest index, and the keys of its objects as texts, numbers as they are printed. |
| `JsonReturned.ExpressibleIsRegular` | src/lua/lua-cjson/lua_cjson.c:497-538 | Whether a value comes back does not depend on the configuration. |
| `JsonTables.ShapeIs` | src/lua/lua-cjson/lua_cjson.c:497-538 | By the keys alone: a table is refused exactly if it is sparse and not converted, and an array, as long as its largest key, exactly if all keys are positive integers and it is not sparse. |
| `JsonTables.DenseIsArray` | src/lua/lua-cjson/lua_cjson.c:497-538 | A table with the keys 1 to n, in any order, is an array of n elements under every configuration, and so never refused. |
| `JsonCodec.HolesComeBackFilled` | src/lua/lua-cjson/lua_cjson.c:558-582 | The table { [2] = true } is encoded as [null,true] and decoded to a table with null at 1 and true at 2: a value that does not come back. |
| `JsonRoundTrip.TreeRoundTrip` | src/lua/lua-cjson/lua_cjson.c:646-684 | The tree the encoder writes for a value denotes it if and only if every table in it is an array without holes or has string keys only. |
| `JsonRoundTrip.ArrayRoundTrip` | src/lua/lua-cjson/lua_cjson.c:558-582 | An array denotes its table if and only if it has no hole and its elements round-trip. |
| `JsonRoundTrip.ObjectRoundTrip` | src/lua/lua-cjson/lua_cjson.c:600-643 | An object denotes its table if and only if all keys are strings and its values round-trip. |
| `JsonRoundTrip.ItemsRight` | src/lua/lua-cjson/lua_cjson.c:467-491 | Escaping keeps every byte of a string and needs at most six characters for each. |
| `JsonRoundTrip.EscapeItemIs` | src/lua/lua-cjson/lua_cjson.c:135-170 | A byte is written as the escape of two characters that RFC 4627 has for it, if any, as a numeric escape if it is another control character, and otherwise as it is. |
| `JsonRoundTrip.PrintIntIs` | src/lua/lua-cjson/lua_cjson.c:584-598 | Integers are printed as RFC 4627 writes them: a minus sign only if negative, no leading zeros, and the digits of the number. |
| `JsonRoundTrip.PrintIntRight` | src/lua/lua-cjson/lua_cjson.c:584-598 | A printed integer is a numeral of that value, also in strict mode. |
| `JsonEncoder.PrintIntLength` | src/lua/lua-cjson/lua_cjson.c:584-598 | An integer below 10^14 prints in at most 15 characters, so the reserve of 32 bytes holds it. |
| `JsonEncoder.Encoder.AppendString` | src/lua/lua-cjson/lua_cjson.c:467-491 | Appends exactly the quoted, escaped string; after the reserve of 6 * len + 2 bytes every unchecked append fits and the buffer grows at most once. |
| `JsonEncoder.Encoder.AppendNumber` | src/lua/lua-cjson/lua_cjson.c:584-598 | Appends exactly the digits of an integer, within the reserve of 32 bytes. |
| `JsonEncoder.Encoder.AppendFloat` | src/lua/lua-cjson/lua_cjson.c:584-598 | Appends exactly what sprintf prints for any other finite number. |
| `JsonEncoder.Encoder.LuaArrayLength` | src/lua/lua-cjson/lua_cjson.c:497-538 | Array with its largest index, object, or refused as too sparse, in one walk over the entries. |
| `JsonEncoder.Encoder.AppendArray` | src/lua/lua-cjson/lua_cjson.c:540-582 | Appends exactly the array, holes as null, and restores the depth; or stops for the same reason as the specification, nesting beyond the limit included. |
| `JsonEncoder.Encoder.AppendObject` | src/lua/lua-cjson/lua_cjson.c:600-643 | Appends exactly the object, every numeric key in quotes, and restores the depth; or stops for the same reason. |
| `JsonEncoder.Encoder.AppendData` | src/lua/lua-cjson/lua_cjson.c:646-684 | Appends exactly the text of any value. |
| `JsonEncoder.Encoder.Encode` | src/lua/lua-cjson/lua_cjson.c:686-715 | The text of the value, whatever depth and buffer an earlier failed call left behind. |
| `StringBuffer.StrBuf.constructor` | src/lua/lua-cjson/strbuf.c:44-66 | Room for the length asked for and a terminator, or the default size. |
| `StringBuffer.NewSizeHolds` | src/lua/lua-cjson/strbuf.c:134-159 | The new size holds the request if and only if growth is exponential, or the buffer shrinks, or the old size takes more steps of the linear increment, rounded up, than the request, rounded down. |
| `StringBuffer.NoMultipleBetween` | src/lua/lua-cjson/strbuf.c:153-156 | For a linear increment the condition says that no multiple of it lies between the old size and the request; otherwise the new size is such a multiple. |
| `StringBuffer.LinearGrowthMisses` | src/lua/lua-cjson/strbuf.c:153-156 | A buffer of 10 bytes in steps of 4, asked for 20, gets 12. |
| `StringBuffer.GrownReaches` | src/lua/lua-cjson/strbuf.c:145-151 | The sizing loop ends at or above the request. |
| `StringBuffer.GrownLeast` | src/lua/lua-cjson/strbuf.c:145-151 | It multiplies as often as needed and not once more. |
| `StringBuffer.NewSizeIs` | src/lua/lua-cjson/strbuf.c:134-159 | Shrinking is exact, and linear growth goes to the next multiple of the increment. |
| `StringBuffer.MultiplyUp` | src/lua/lua-cjson/strbuf.c:145-151 | The loop computes the repeated product. |
| `StringBuffer.StrBuf.Resize` | src/lua/lua-cjson/strbuf.c:164-180 | For every increment and request: the buffer has the computed size, what fits both sizes survives, and the request fits exactly under the condition of NewSizeHolds. |
| `StringBuffer.StrBuf.AppendString` | src/lua/lua-cjson/strbuf.c:182-198 | Appends the string, byte by byte, with any increment with which it can fit; without reallocation if it fitted before. |
| `StringBuffer.StrBuf.AppendFmt` | src/lua/lua-cjson/strbuf.c:202-217 | Appends formatted text that its caller has bounded. |
| `StringBuffer.StrBuf.EnsureEmptyLength` | src/lua/lua-cjson/strbuf.h:93-97 | Contents unchanged, at most one reallocation, and room for len bytes and a terminator exactly if there was room or the resize reaches it. |
| `StringBuffer.StrBuf.AppendCharUnsafe` | src/lua/lua-cjson/strbuf.h:110-113 | Appends a byte where one fits. |
| `StringBuffer.StrBuf.AppendMemUnsafe` | src/lua/lua-cjson/strbuf.h:122-126 | Appends bytes where they fit. |
| `Packets.ContainerFields` | src/packet.c:56-80 | Length, type, code, transaction and payload are where the accessors look for them. |
| `Packets.CommandOnWire` | src/packet.c:68-80 | The bytes of a command: length, type 1, code, transaction and its parameters in order, each in its place. |
| `Packets.DataOnWire` | src/packet.c:56-66 | The bytes of a data packet: length, type 2, code, transaction and the data. |
| `Packets.AccessorsAfterData` | src/packet.c:128-230 | After a data container and a response the accessors give the response's code, transaction and parameter count and the payload of the data, whatever else is in the buffer; asked for a parameter they give the code. |
| `Packets.AccessorsAfterResponse` | src/packet.c:128-230 | After a response alone they give its code, transaction and parameters. |
| `Packets.IpResponseFound` | src/packet.c:92-230 | After start, end and response packets no accessor panics; they find exactly the response with its code, transaction and parameters, and the bytes of the end packet; the payload length is that of the end packet if and only if the start packet declares it. |
| `Packets.IpAccessorsAlone` | src/packet.c:92-230 | After a response alone it is found at the start with its fields, and asking for a payload or its length panics. |
| `Octets.ReadWriteU32` | src/libpict.h:282-304 | A written word is read back, whatever follows it. |
| `Octets.WordsAreLittleEndian` | src/libpict.h:276-304 | Words of two and four bytes are the little-endian numbers. |
| `Octets.WriteReadU32` | src/libpict.h:282-304 | A word that is read and written again gives the same bytes. |
| `Transport.FragmentationIndependent` | src/transport.c:140-217 | For every reply and every way the endpoint splits it: reading succeeds if and only if the bytes arrive with fewer than response_wait_default empty or failed reads, and then it stops at the last byte with exactly the reply in the buffer; otherwise the read after the last tolerated failure decides between an I/O error and a command that counts as ignored. |
| `Transport.QueuedReply` | src/transport.c:140-217 | A reply in front of more that the device has sent is read exactly, if no read crosses its end, and the rest stays for the next call. |
| `Transport.SurplusRead` | src/transport.c:190-213 | A last read that brings more than the reply: an I/O error behind a data phase, unnoticed behind a response alone. |
| `Transport.BadContainerRead` | src/transport.c:195-206 | Behind a data container anything but a response is an I/O error, however it is split, as soon as twelve bytes of it are there. |
| `Transport.SuccessIsResponse` | src/transport.c:190-216 | Whatever was sent, success leaves a response in the buffer, at its start or right behind a data container, where it ends the buffer. |
| `Transport.SilenceDecides` | src/transport.c:158-179 | As many idle reads as are tolerated and one more: an empty one means ignored, a failed one an I/O error, and nothing has been read. |
| `Transport.ReceiveConserves` | src/transport.c:140-217 | On any stream, what was read and what is left are the stream; success means that the reply is complete. |
| `Transport.ReplyStatus` | src/transport.c:180-211 | A reply is complete with its last byte and not before. |
| `Transport.CompleteInBounds` | src/transport.c:180-211 | A complete reply has its response container inside, so reading its fields stays in bounds. |
| `Transport.ImpatienceIsEndless` | src/transport.c:140-217 | With no failure tolerated, on an endpoint whose reads do not fail and that falls silent, the loop ends if and only if the whole reply comes first; otherwise no number of rounds is enough. |
| `Transport.TransmitExact` | src/transport.c:9-37 | Under any short writes a packet is accepted in order, and wholly exactly on success. |
| `Transport.TransmitAccepts` | src/transport.c:9-37 | A packet is sent if and only if the endpoint accepts as many bytes, offered at most max_packet_size at a time. |
| `Transport.TransmitAllExact` | src/lib.c:224-255 | The bytes accepted in an attempt are a prefix of command container ++ data container, and all of it exactly on success. |
| `IpTransport.FrameReads` | src/transport.c:39-98 | A frame is read if and only if its length word arrives at once after fewer than response_wait_default empty reads and its body without a failed one; then exactly the frame is taken from the stream. Otherwise the command counts as ignored if the last of the tolerated reads failed, and it is an I/O error in all other cases. |
| `IpTransport.BulkReassembles` | src/transport.c:100-138 | A reply with a data phase is put together if and only if each of its three frames arrives, however its bytes are split and however long the first one is waited for; otherwise the code is that of the frame that does not. |
| `IpTransport.BulkRejects` | src/transport.c:110-127 | Frames of the wrong type behind a start packet are an I/O error, however they arrive. |
| `IpTransport.FirstFrameDecides` | src/transport.c:100-133 | A first frame that is a response is the reply, and one that is neither that nor a start packet is an I/O error. |
| `IpTransport.BulkIsReply` | src/transport.c:100-138 | On any framed stream success leaves RESPONSE or START ++ END ++ RESPONSE in the buffer and takes nothing more. |
| `IpTransport.AccessorsAfterBulk` | src/packet.c:92-230 | After success the accessors of the response point at exactly the response that was read and give its fields, and those of the payload at exactly the end packet's, or panic if there was no data phase; the length is right if and only if the start packet declares it. |
| `Runtime.PtpRuntime.BufferResize` | src/lib.c:111-126 | The buffer grows and keeps its bytes; no caller asks for less than there is. |
| `Runtime.PtpRuntime.SendPacket` | src/transport.c:9-37 | The bytes put on the wire and the result are those of the specification, in writes of at most max_packet_size. |
| `Runtime.PtpRuntime.PutHeader` | src/packet.c:56-80 | The overlapping 32-bit writes leave the right length, 16-bit type, 16-bit code and transaction. |
| `Runtime.PtpRuntime.NewCmdPacket` | src/packet.c:68-80 | The buffer starts with exactly the command container. |
| `Runtime.PtpRuntime.NewDataPacket` | src/packet.c:56-66 | The buffer starts with exactly the data container. |
| `Runtime.PtpRuntime.EnsureRoom` | src/transport.c:146-149 | Room for another read; what has been read survives. |
| `Runtime.PtpRuntime.Inspect` | src/transport.c:180-211 | The tests on the two containers give the status of what has been read. |
| `Runtime.PtpRuntime.ReadAllPackets` | src/transport.c:140-217 | Result, buffer and endpoint are those of the specification; every read and store stays inside the buffer. |
| `Runtime.PtpRuntime.ReadIpPacket` | src/transport.c:39-98 | The same for one PTP/IP frame, whatever wait_for_response was before; success leaves room for the length word of the next. |
| `Runtime.PtpRuntime.ReceiveBulkPackets` | src/transport.c:100-138 | The same for a whole PTP/IP reply. |
| `Runtime.PtpRuntime.SendTry` | src/lib.c:172-186 | One attempt: packet sent, reply read. |
| `Runtime.PtpRuntime.SendDataTry` | src/lib.c:224-255 | One attempt with a data phase. |
| `Runtime.PtpRuntime.CheckReply` | src/lib.c:157-170 | 0 for an OK code, an I/O error for 0xFFFF, otherwise the code to be checked. |
| `Runtime.PtpRuntime.Send` | src/lib.c:189-222 | One call of the specification; the lock is given back on every path, the wire grows by exactly the attempts, and after a completed exchange the reply is at the start of the buffer. |
| `Runtime.PtpRuntime.SendData` | src/lib.c:258-297 | The same with a data phase, for which the buffer is grown first. |
| `Runtime.PtpRuntime.StartSession` | src/operations.c:87-100 | ptp_open_session: a new session whose transactions start at 0. |
| `Transactions.CallKeeps` | src/lib.c:189-222 | One call transmits at most two attempts, each a prefix of the same packets; it is completed exactly when the transaction number moves on; otherwise the kill switch is set and the result is an I/O error. |
| `Transactions.ReturnCodes` | src/lib.c:157-170 | 0 exactly for the response code 0x2001, -5 exactly for 0xFFFF and -8 for all others, the code being that of the response behind the data container, if there is one. |
| `Transactions.RetriedOnce` | src/lib.c:201-222 | An attempt that meets only empty and failed reads, as many as are tolerated, and then an empty one, is repeated; a reply in time completes the second attempt. |
| `Transactions.IgnoredTwice` | src/lib.c:201-210 | A command that is ignored twice has been sent twice, and fails for good. |
| `Transactions.FailedWriteOnce` | src/lib.c:172-176 | A call whose write fails is not repeated. |
| `Transactions.FailedReadOnce` | src/lib.c:211-214 | A call whose read fails behind the last tolerated failure is not repeated. |
| `Transactions.BadContainerOnce` | src/lib.c:211-214 | An exchange that ends with a bad container is not repeated. |
| `Transactions.AnsweredAtOnce` | src/lib.c:189-222 | A call whose reply arrives in time is completed at the first attempt, with the result that its response code means. |
| `Transactions.AnsweredFromQueue` | src/lib.c:189-222 | The same when the device has already sent more behind the reply. |
| `Transactions.TransactionsCount` | src/lib.c:189-297 | In every run the transaction number equals the number of completed exchanges since the last ptp_open_session began. |
| `Transactions.AttemptsAlike` | src/lib.c:189-297 | In every run all attempts of a call repeat the same text, whose packets carry that number. |
| `Transactions.SessionsCount` | src/operations.c:87-99 | In every run the session number counts the sessions opened. |
| `Transactions.CompletedOnWire` | src/lib.c:189-297 | In every run the bytes of a completed operation are those of its command and data, with the number of exchanges completed before; for ptp_open_session code 0x1002, number 0 and the session as parameter. |
| `Transactions.NothingAfterFailure` | src/lib.c:189-214 | In every run a call after a failed one writes nothing and fails. |
| `Threads.RunsAreSafe` | src/lib.c:189-222 | In every run of any number of threads: only the owner of the lock is at the endpoint, at most one reporter closes the session, a completed exchange is checked by the reply to its own command, and an operation that holds the lock parses that reply. |
| `Threads.MutualExclusion` | src/lib.c:128-142 | Of two threads that hold the recursive lock, both are its owner: they are one. |
| `Threads.InvariantKept` | src/error.c:6-40 | Every step keeps the lock counts, the ownership of the reply, the single closer, the switches and the pending failures right. |
| `Threads.NothingAfterShutdown` | src/error.c:6-40 | Once a reporter has set the switches no exchange starts before a reconnect. |
| `Threads.AtMostOneAfterKill` | src/lib.c:189-195 | After the operation switch is set at most the one exchange that is behind both checks still starts. |
| `Threads.ErrorStopsFirst` | src/error.c:7-15 | A reporter of an error stops operations before it waits for the lock. |
| `Threads.NoNewWaiters` | src/lib.c:190-191 | Once operations are stopped no thread begins to wait for the lock in ptp_send. |
| `Threads.NoLateReporters` | src/error.c:7 | Once the session is shut down no further reporter begins to wait. |
| `Threads.ReporterLeavesSwitches` | src/error.c:20-29 | A reporter that is through has left both switches set. |
| `Threads.ClosedExactlyOnce` | src/error.c:20-27 | In a run without reports of errors the session has been closed by exactly one reporter when the switches are set. |
| `Threads.UnlockedParsing` | src/operations.c:109-117 | An operation that parses after giving back the lock finds its own reply if and only if no exchange has started since its own. |
| `Threads.UnlockedParsingFails` | src/operations.c:200-211 | A run in which such an operation finds another thread's reply in the buffer. |
| `Threads.WindowAfterFailure` | src/lib.c:211-214 | After a failed exchange another thread can pass its second check only while a thread with a broken exchange has given back the lock and not yet set the switch. |
| `Threads.NoWindowAfterIgnored` | src/lib.c:202-210 | Behind a command that was ignored twice there is no such window. |
| `Threads.FailureWindowIsReal` | src/lib.c:211-214 | A run in which that happens. |
| `Operations.DupUintArray` | src/operations.c:11-26 | A copy of exactly the words that the payload counts. |
| `Operations.ArrayRoundTrip` | src/operations.c:11-26 | A written array is found again, whatever follows it. |
| `Operations.GetStorageIds` | src/operations.c:149-168 | The words of the reply to this command, copied under the lock, which is given back on both paths. |
| `Operations.Download` | src/operations.c:355-383 | On the runtime, from a device that answers the bytes of each successful request with the piece they ask for: without a failure there are size / max + 1 requests and the file receives exactly the object; with one it receives what the earlier requests brought and the code is returned; the lock is given back on every path. |
| `Operations.RequestsOnWire` | src/operations.c:189-198 | In request k the code at 6 is 0x101B and the words at 12, 16 and 20 are the handle, k * max and max. |
| `Operations.QueueServes` | src/operations.c:355-383 | A device that has the pieces ready one behind the other, however it splits them into reads, answers so. |
| `Operations.QueueSucceeds` | src/operations.c:355-383 | From such a device none of the size / max + 1 requests fails. |
| `Operations.PieceFound` | src/operations.c:355-383 | The payload accessors find exactly the piece in a reply to GetPartialObject. |
| `EosEvents.OffsetsTile` | src/data.c:723-743 | The visited records are consecutive and end at the end of the payload or at the record of type 0. |
| `EosEvents.EventsLength` | src/data.c:723-743 | The first pass ends, and counts the records before the terminator. |
| `EosEvents.Events` | src/data.c:747-812 | The second pass visits exactly the records that the first has counted, unpacks each, and applies their announcements in order to the list of values. |
| `EosMessages.MessagesRead` | src/data.c:630-812 | For every list of camera messages, written in a byte layout of their own with or without a terminator: the payload is tiled, and read as exactly those messages with code, value, name and text, and exactly their announcements. |
| `EosMessages.EventsOf` | src/data.c:747-812 | The same for ptp_eos_events itself and the list of values behind it. |
| `EosEvents.EventsAreRecords` | src/data.c:630-812 | The event i is what the record i says. |
| `EosEvents.ValuesFit` | src/data.c:791-804 | memb_size * count never exceeds what is left of the record. |
| `EosEvents.UpdateAvail` | src/data.c:791-804 | One announcement of values, without dividing by zero. |
| `PropAvail.AvailList.Set` | src/lib.c:64-99 | The linked list stands for a map in which each code occurs once; an announcement updates the map as the specification says. |
| `PropAvail.AvailList.Validate` | src/generic.c:7-39 | 0 for a member, 2 for another value, 1 for an unknown code. |
| `PropAvail.AvailList.Find` | src/lib.c:66-70 | The walk along prev finds the node of a code exactly if there is one. |
| `PropAvail.LatestWins` | src/lib.c:64-99 | After any history whose re-announcements keep size and count, the entry of a code is its latest announcement, and there is none for a code never announced. |
| `PropAvail.SteadyHasRoom` | src/lib.c:72-80 | Such a history never writes past the memory of an entry: each announcement may be set. |
| `PropAvail.HistoryAnswered` | src/generic.c:7-39 | After such a history of values of 1, 2 or 4 bytes, validation gives 0 exactly if one of the little-endian numbers of the latest announcement of the code is the value, 2 otherwise, and 1 for a code never announced. |
| `PropAvail.AnnounceThenValidate` | src/generic.c:7-39 | The same on the linked list itself: every announcement set in turn and a value validated. |
| `PropAvail.ValidationInBounds` | src/lib.c:72-80 | After a re-announcement of any size that stays inside the entry, validation does so too if and only if the entry was empty, the count has not grown, or the new values take as many bytes as the old. |
| `PropAvail.StaleExactly` | src/lib.c:72-80 | After a re-announcement of the same size but any count, validation answers by it if and only if every surplus old value is a new one too and no new value stands only behind the old count. |
| `PropAvail.Reannounced` | src/lib.c:72-80 | What each place of the entry then holds. |
| `PropAvail.StaleValue` | src/lib.c:72-80 | After 1, 2 and 3 the announcement of 1 alone leaves 3 valid. |
| `ObjectInfo.StringRoundTrip` | src/data.c:35-62 | A string comes back from an array of max characters, with the reader right behind it, if and only if it is empty, or holds only characters 32 to 128 and is at most max - 2 long. |
| `ObjectInfo.StringBytes` | src/data.c:99-118 | The bytes of a string: its length with the terminator, little-endian units, and a zero unit. |
| `ObjectInfo.CharacterRead` | src/data.c:46-53 | Units above 128 become a question mark, control characters a blank, all others stay. |
| `ObjectInfo.DatasetRoundTrip` | src/data.c:398-470 | A written dataset is read back field by field if and only if each of its texts survives. |
| `ObjectInfoCodec.RecordRoundTrip` | src/data.c:398-470 | The same for the layout of PtpObjectInfo and its arrays of 64, 32, 32 and 64 characters. |
| `ObjectInfoCodec.PackedFits` | src/data.c:444-470 | Any record with terminated texts packs into 440 bytes, below the 1024 that the guard demands. |
| `ObjectInfoCodec.PtpObjectInfo.Pack` | src/data.c:444-470 | Writes each number of the record at its place in the dataset of ISO 15740 and the four texts behind them, inside the buffer; 0 if the buffer is smaller than 1024. |
| `ObjectInfoCodec.PtpObjectInfo.Parse` | src/data.c:398-423 | Fills every number from its place and every text with what the payload encodes, as far as its texts end inside their arrays. |
| `ObjectInfoCodec.PutString` | src/data.c:99-118 | Appends exactly the string dataset. |
| `ObjectInfoCodec.ReadString` | src/data.c:35-62 | Stores what the specification says and returns the bytes consumed. |
| `EvProcPack.EvProcRoundTrip` | src/canon_adv.c:98-266 | From command text to the decoder: for a name, any numbers and at most one quoted string at the end, at most ten tokens and texts of at most 63 characters, the packer succeeds within its buffers and the decoder gives the name, the count and every argument. |
| `EvProcText.CommandLexed` | src/canon_adv.c:98-184 | A command text is lexed if and only if it does not end in a blank, and then to its name and arguments, however the numbers are written and whatever characters that start nothing stand between them. |
| `EvProcPack.PackRoundTrip` | src/dec/main.c:25-61 | The decoder gives back name, count and parameters of a packed command. |
| `EvProcPack.PackedFits` | src/canon_adv.c:186-266 | Such a command packs into at most 320 bytes, inside the packer's buffers of 500. |
| `EvProcPack.PackedHead` | src/canon_adv.c:206-219 | The packed form starts with the name, its terminator and the number of parameters. |
| `EvProcPack.PackedLayout` | src/canon_adv.c:221-253 | Parameter j stands at its place with its five words: type 2 and the number, or type 4 and the size of the string. |
| `EvProcPack.PackedFooter` | src/canon_adv.c:235-258 | Behind the parameters stand the number of strings and, behind a zero word, the string. |
| `EvProcPack.WordsIgnored` | src/canon_adv.c:221-253 | Plain words behind the name are left out. |
| `EvProcPack.PackedIfNamed` | src/canon_adv.c:200-214 | A text is packed exactly if it starts with a name. |
| `EvProcPack.NumberDecoded` | src/dec/main.c:38-44 | The decoder takes the words of a number in order and passes over the size. |
| `EvProcPack.UnknownDecoded` | src/dec/main.c:38-57 | Of a parameter of unknown type the decoder takes the type alone. |
| `EvProc.LexEvprocCommand` | src/canon_adv.c:98-184 | The loop computes the specified tokens. |
| `EvProcPack.CanonEvprocPack` | src/canon_adv.c:186-266 | From the text itself: the packer writes exactly the packed bytes of the tokens that the lexer finds, counting parameters and strings in place; a text that does not start with a name is refused. |
| `EvProcPack.LexedWell` | src/canon_adv.c:98-184 | The lexer finds only tokens that can be packed: C strings within their arrays and numbers in the range of an int. |
| `EvProcPack.DecodeEosEvproc` | src/dec/main.c:25-61 | The decoder's loop computes the specified decoding. |

## Left out

- JsonEncoder.Encoder.AppendFloat: how "%.14g" rounds and what it prints is not part of this model; the text is given, as a strict numeral of at most 31 digits, signs, points and e. The decoder keeps a numeral that is no exact integer by its text, because rounding is strtod's.
- JsonEncoder.Encoder.AppendNumber: integers of 10^14 and more are such texts, and are left out as keys; encode_refuse_badnum is always on.
- JsonDecoder.JsonDecode: the texts of error messages and their positions are not modelled; an error is what was wanted and what was found.
- The Lua C API: stack checks, longjmp (an error is a failure result), locale of strtod, encode_keep_buffer, and nil at the top level, which comes back as null.
- StringBuffer.StrBuf.AppendString: with a linear increment that does not reach the text the code writes past its buffer; this is excluded by the exact condition, here as in AppendFmt. Running out of memory is not modelled.
- Runtime.PtpRuntime.BufferResize: a failing realloc is not modelled, and new bytes hold anything.
- Runtime.PtpRuntime.Send: io_kill_switch is not a field of this class, since only the backends and the error reporter look at it; it is part of the step model of threads.
- Transport.Transmit: endpoints that accept zero bytes for ever, on which ptp_send_packet would not end; the model takes endpoints whose writes fail at last.
- IpTransport.ReadBody: endpoints that answer reads with zero bytes for ever, on which the body loop of ptpip_read_packet would not end; the model takes endpoints that end by failing.
- Sending over PTP/IP, its bulk, start and end packet builders, and the event sockets.
- libusb, libwpd and socket calls, sleeping and logging.
- Threads: a reconnect that clears the switches ends a run; the step model has one step per access to shared state and none for purely local computation.
- EosEvents.Events: the fixed tables of src/conv.c and src/enums.c are parameters; reading past the payload on records shorter than their type is excluded by the tiling.
- PropAvail.AvailList.Set: memory of an entry is a byte sequence; copying more than an entry has allocated, on which the code writes past its memory, is excluded by a precondition.
- PropAvail.StaleExactly: re-announcements with another size of values, which the entry then reads with its old size; ValidationInBounds covers them as far as memory goes.
- ObjectInfoCodec.PtpObjectInfo.Parse: payloads shorter than the dataset are excluded, because the parser does not look.
- EvProc.LexEvprocCommand: texts on which the lexer leaves its arrays, its text or the range of an int are excluded; on them the code's behaviour is undefined.
- Operations: the other locked operations of src/operations.c, which have the shape of GetStorageIds and differ in the parser they call.
- JsonParser.ParseDocument: an error also carries the fault of a token, such as an unexpected end; no property of the choice is stated.
- Machine-integer overflow of counters and lengths beyond 31 bits, except where a 32-bit sum is written out.
- src/bind.c, src/cli.c, src/stuff.c, src/conv.c, src/enums.c, src/ml.c, src/liveview.c, most of src/canon.c, the pcap scanner, and the JSON text that src/data.c formats.
