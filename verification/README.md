# A verified model of go-jose

This project models the parts of go-jose whose correctness is hardest to see, and proves what they promise.

**The JSON engine.** A hand-written pushdown automaton (`Scanner`) drives validation, the decoder, `Compact`,
`Indent` and the streaming `Decoder`. `Grammar` writes down RFC 7159 as trees of text, and `Parser` is a reference
parser proved sound and complete for it. `ScanCore` is the automaton as a pure machine, and `ScanLiteral` and
`ScanGrammar` prove that it accepts exactly the grammar and that its answers are exactly the signals of the tree.
Everything that consumes those answers is then proved against trees: `Validate`, `Numbers`, `Decode`, `Compact`,
`Indent`, `Stream`. `Tokens` is the `Token` and `Decode` machine, `TokenTree` what it answers on JSON, `TokenSound`
that it lets nothing else through, and `Viable` that errors are reported at the first hopeless byte. `Utf8`,
`Strings`, `Escape` and `Values` hold the string and value level, and `Spelling` states what string literals stand for
without the decoder. `Lines` and `TokensKept` say what `Indent` and `Compact` write. `Encode` and `RoundTrip` cover
`Marshal`.

**The symmetric constructions.** `KeyWrap`, `CbcHmac` and `ConcatKdf` keep the loops, buffers and index arithmetic
of the source and take the block cipher, keyed hash and hash as function parameters: any permutation of 16-byte
blocks, any function with outputs of the right length.

**Messages.** `Base64`, `Dots`, `Headers`, `Protected`, `Jws` and `Jwe` cover header merging, compact
serialization, the signing input, and the way from the allow-lists given to the parser to the algorithms used.
`JwsRoundTrip` and `JweRoundTrip` follow messages across signing, serializing, parsing and verifying.

Objects that the source updates are classes (`Scanner`, `DecodeState`, `Decoder`, `Buffer`, `ConcatKdf`,
`CbcAead`, `RawHeader`); each method is proved against a pure function, and the properties are lemmas about those
functions. Bytes are integers from 0 to 255 and integer widths are written out where they matter: `BigEndian`
keeps the low bytes, and the counter of `ConcatKdf` wraps at 32 bits.

Five promises hold only under a condition. Each condition is proved exact, and each has a lemma at an input where the
promise fails:

- The algorithm name checked when a JWS is parsed is the one used for verification, for all messages, if and only
  if the allow-list does not contain the empty name (`Jws.AllowListExact`; the message is in
  `Jws.UnlistedAccepted`). In the general form the check runs before the unprotected header is attached.
- A protected header printed by `Sign` reads back if and only if no two of its names become equal when ill-formed
  UTF-8 is replaced (`Protected.PrintedReadsBack`; two such names are in `Protected.CollidingNames`).
- Serializing a parsed JWS, when the result is accepted, keeps its signing input if and only if its header text is
  the text its header prints as (`JwsRoundTrip.ParsedThenSerialized`; a header with a leading space is in
  `JwsRoundTrip.SpaceLost`). Serializing prints the header again, while verification uses the text received.
- Compact serialization of a JWE, when the result is accepted, keeps its authenticated data if and only if there is
  no additional authenticated data and a header that was received prints as it was received
  (`JweRoundTrip.CompactJweRoundTrip`; the message is in `JweRoundTrip.ExtraDataLost`).
- `CbcAead.Open` either returns a plaintext or refuses, if and only if the message is not a valid tag and nothing
  else. On such a message the removal of padding indexes an empty buffer (`CbcHmac.CbcAead.OpenPanicsExactly`; the
  input and the length that rules it out are in `CbcHmac.CbcAead.TagAlonePanics`).

## Model

| member | source | states |
|---|---|---|
| `Parser.ParseExact` | json/scanner.go:20-32 | the reference parser finds a document in a text exactly when the document is one of the grammar of sections 2 to 7 of RFC 7159 and spells that text, so the grammar is unambiguous |
| `ScanCore.NextKept` | json/scanner.go:172-189 | from every reachable state, every byte leads to a reachable state: the parse stack is never read or popped when empty, the end and error flags are never taken back |
| `ScanCore.ErrorIsFinal` | json/scanner.go:112-114 | once one call answers with an error, every later call does, and so does end of input |
| `ScanGrammar.AcceptsExactly` | json/scanner.go:153-170 | the automaton accepts a byte string exactly when it is white space, one value of the grammar, and white space |
| `ScanGrammar.SignalsExactly` | json/scanner.go:108-131 | on every JSON text the answers to the bytes are exactly the signals of its tree, byte for byte |
| `Viable.FailsExactly` | json/scanner.go:112-114 | the scan of a prefix has failed exactly when no continuation makes it a JSON text: an error is reported at the earliest byte possible |
| `ScanGrammar.PopPush` | json/scanner.go:172-189 | popping what was pushed for a container leaves the scanner where a value at that place ends, for every rest of the input |
| `Scanner.Scanner.Reset` | json/scanner.go:145-151 | the scanner is in its start state with no pending undo |
| `Scanner.Scanner.Eof` | json/scanner.go:155-170 | end of input does what the machine does; with an undo pending it fails |
| `Scanner.Scanner.PushParseState` | json/scanner.go:173-175 | the stack grows by the given state and nothing else changes |
| `Scanner.Scanner.PopParseState` | json/scanner.go:179-189 | the machine's pop: the last pop ends the top-level value |
| `Scanner.Scanner.StateBeginValueOrEmpty` | json/scanner.go:196-204 | the machine's transition after an opening bracket |
| `Scanner.Scanner.StateBeginValue` | json/scanner.go:207-244 | the machine's transition where a value must begin |
| `Scanner.Scanner.StateBeginStringOrEmpty` | json/scanner.go:247-257 | the machine's transition after an opening brace |
| `Scanner.Scanner.StateBeginString` | json/scanner.go:260-269 | the machine's transition where a name must begin |
| `Scanner.Scanner.StateEndValue` | json/scanner.go:273-317 | the machine's transition after a value, by the top of the stack |
| `Scanner.Scanner.StateEndTop` | json/scanner.go:322-328 | a byte after the top-level value is recorded as an error but still answered with the end signal |
| `Scanner.Scanner.StateInString` | json/scanner.go:331-397 | the machine's transitions inside a string and its escapes |
| `Scanner.Scanner.StateInNumber` | json/scanner.go:400-486 | the machine's transitions inside a number |
| `Scanner.Scanner.StateInName` | json/scanner.go:489-577 | the machine's transitions inside true, false and null |
| `Scanner.Scanner.Step` | json/scanner.go:88-88 | one call of the current step function, looking through a pending undo |
| `Scanner.Scanner.Undo` | json/scanner.go:608-616 | the last answer will be given once more, and the machine state is unchanged; undoing twice is excluded |
| `Scanner.Scanner.StateRedo` | json/scanner.go:619-623 | the pending answer is given and the machine state is unchanged |
| `Validate.CheckValid` | json/scanner.go:20-32 | succeeds exactly on the JSON texts |
| `Validate.NextValue` | json/scanner.go:37-61 | succeeds exactly when the input begins with a value of the grammar; value plus rest is the input, the value ends where the grammar's first value ends and is a JSON text by itself |
| `Validate.FirstValueIsJson` | json/scanner.go:34-36 | the first value with the white space before it parses to the tree the reference parser finds at the front of the whole input |
| `Viable.FirstIsLongest` | json/scanner.go:37-61 | a longer text at the front of the input is JSON exactly when it is the first value followed by white space |
| `Validate.ProbeAt` | json/scanner.go:43-49 | after every closing bracket a probing space leaves the scanner exactly where it was, and tells whether the top-level value is complete |
| `Validate.PendingStep` | json/scanner.go:39-56 | what one more byte reveals about the first value of the input: that there is none, that it ended before this byte, that it ends with it, or nothing yet |
| `Numbers.IsValidNumber` | json/decode.go:189-246 | holds exactly for the numbers of section 6 of RFC 7159 |
| `Numbers.NumberIsScanned` | json/scanner.go:223-241 | a text is a number of the grammar exactly when the scanner accepts it, it begins with a minus or digit and does not end in white space |
| `Strings.UnquoteBytes` | json/decode.go:1104-1216 | computes the value of a string literal, in a buffer that grows as needed and is never written out of range |
| `Strings.UnquoteRest` | json/decode.go:1133-1215 | the loop with its read and write positions yields what unquoting character by character yields |
| `Strings.UnquotesString` | json/scanner.go:331-397 | unquoting succeeds on every string literal the grammar, and so the scanner, accepts |
| `Spelling.UnquoteSpelled` | json/decode.go:1133-1215 | every spelling of every well-formed string unquotes to it: each code point verbatim, by a two-character escape, by one unit in hexadecimal, or by a surrogate pair, as section 7 of RFC 7159 lists them |
| `Spelling.UnquoteLiteral` | json/decode.go:1104-1132 | the same for the literal with its quotation marks |
| `Spelling.LoneHalf` | json/decode.go:1176-1196 | half of a surrogate pair, where the other half does not follow, stands for U+FFFD |
| `Spelling.IllFormed` | json/decode.go:1204-1213 | a byte at which no code point is encoded stands for U+FFFD |
| `Spelling.BadExactly` | json/decode.go:1121-1126 | a byte is ill-formed exactly when no encoded code point of section 3 of RFC 3629 begins there |
| `Spelling.QuoteWritten` | json/encode.go:788-861 | every well-formed string is written code point by code point: short escapes for quote, backslash and line breaks, hexadecimal for other controls, <, >, &, U+2028 and U+2029, anything else verbatim |
| `Strings.QuoteIsString` | json/encode.go:788-861 | what is written for any byte string is one string literal of the grammar |
| `Strings.QuoteRoundTrip` | json/encode.go:827-836 | unquoting what was written for any byte string gives the string with each ill-formed byte replaced by U+FFFD |
| `Utf8.CoerceFixes` | json/encode.go:827-836 | that replacement changes nothing exactly when the string is well-formed UTF-8 |
| `Utf8.EncodeDecode` | json/decode.go:1208-1212 | encoding a decoded rune gives back the bytes it was read from (sections 3 and 4 of RFC 3629) |
| `Values.NoMeaning` | json/decode.go:1015-1021 | a tree has no value exactly when some object in it, at any depth, has two names equal after unquoting |
| `Decode.DecodeState.ScanWhile` | json/decode.go:320-336 | skips exactly the bytes answered with the given code and returns the first other answer, keeping decoder and scanner in step |
| `Decode.DecodeState.LiteralInterface` | json/decode.go:1047-1081 | returns the literal's value and stops just past the literal, one byte un-read |
| `Decode.DecodeState.ValueInterface` | json/decode.go:948-960 | returns the value the grammar gives the tree at this place, or the duplicate-key error exactly when it repeats a key; stops just past the value; never reports being out of sync |
| `Decode.DecodeState.ArrayInterface` | json/decode.go:963-988 | the same for the rest of an array |
| `Decode.DecodeState.ObjectInterface` | json/decode.go:991-1044 | the same for the rest of an object |
| `Decode.DecodeState.MemberInterface` | json/decode.go:1006-1032 | one member: its unquoted name and value, or the duplicate-key error when the name was seen before |
| `Decode.DecodeState.NextContainer` | json/decode.go:297-315 | cuts off exactly the next value, and the invented closing bracket leaves the scanner in the state that scanning the whole container would have left |
| `Decode.InventedClose` | json/decode.go:306-312 | from every state in which a value may begin, closing a container right after its opening bracket ends in the state that scanning all of it ends in |
| `Decode.Unmarshal` | json/decode.go:85-97 | a syntax error exactly for texts that are not JSON; else the value of the document, with the offset just past it, or a duplicate-key error exactly when some object repeats a key; the out-of-sync error never occurs |
| `Compact.CompactInto` | json/indent.go:15-58 | fails exactly when the text is not JSON and then leaves the destination as it was; else appends the compact form |
| `Compact.SqueezeDoc` | json/indent.go:20-56 | what the loop keeps of a JSON text is the text of its tree without white space and with escaped literals |
| `Compact.CompactForm` | json/indent.go:9-13 | the compact form is JSON, has no white space outside literals, stands for the same value, and compacting it again changes nothing |
| `Escape.EscUnquote` | json/indent.go:20-37 | the escaping never changes what a string literal stands for |
| `Escape.EscTwice` | json/indent.go:20-37 | escaping twice is escaping once |
| `Escape.EscHarmless` | json/indent.go:20-37 | escaped text holds no U+2028 or U+2029 and, on request, none of <, > and & |
| `Escape.EscFixes` | json/indent.go:20-37 | escaping changes a text exactly when it holds one of those |
| `Escape.EscPieces` | json/indent.go:20-37 | text is escaped piece by piece, so everything else is kept |
| `Escape.EscEach` | json/indent.go:20-37 | the escape written for each of the five characters |
| `TokensKept.CompactTokens` | json/indent.go:9-13 | compacting keeps every bracket, name and literal value of a text in order, repeated names included |
| `Indent.IndentInto` | json/indent.go:79-141 | fails exactly when the text is not JSON and then leaves the destination as it was; else appends the indented form |
| `Indent.LaidDoc` | json/indent.go:85-135 | what the loop emits for a JSON text is the indented text of its tree, trailing white space kept |
| `Indent.CompactOfIndent` | json/indent.go:68-78 | for prefix and indent of JSON white space, compacting the indented text gives what compacting the text itself gives, and the value is the same |
| `TokensKept.IndentTokens` | json/indent.go:68-78 | so does indenting with white space |
| `Lines.IndentPieces` | json/indent.go:85-135 | the indented text told from the scanner alone: line breaks after opening brackets and commas and before closing brackets, except in an empty container, each followed by the prefix and one indent for every container open there, and a space after each colon |
| `Indent.HeightAlways` | json/indent.go:94-130 | for every input and every prefix of it that has not failed, the depth plus one while an indent is pending is the height of the scanner's stack |
| `Indent.HeightKept` | json/indent.go:94-130 | one byte without an error keeps that relation |
| `Encode.WriteString` | json/encode.go:788-861 | appends exactly the literal specified for the string and returns its length |
| `Encode.EncodeItems` | json/encode.go:572-590 | prints fields in order with commas between, and fails exactly when one of them does |
| `Encode.EncodeScalar` | json/encode.go:530-553 | prints nil, booleans, integers, numbers and strings; an empty number prints as 0 and any other invalid number fails |
| `Encode.IntReads` | json/encode.go:486-495 | the digits printed for an integer read back as that integer |
| `Encode.EncodeValue` | json/encode.go:412-426 | prints the text of the value's tree; a self-marshalled value is compacted with escaping; fails exactly when the value has no tree |
| `Encode.Marshal` | json/encode.go:137-144 | the output is the text of the value's tree, is JSON, and is a fixpoint of compacting with escaping |
| `Encode.MarshalForm` | json/encode.go:412-426 | every output of Marshal parses to the printed tree, and compacting it with escaping leaves it unchanged |
| `RoundTrip.SortKeeps` | json/encode.go:778-785 | sorting puts distinct names in strictly ascending order and keeps every entry |
| `RoundTrip.BeforeExactly` | json/encode.go:778-785 | that order is byte by byte: a proper prefix comes first, else the smaller byte where two names first differ |
| `RoundTrip.MapInOrder` | json/encode.go:608-625 | the names of a printed map are exactly those of the map, in that order |
| `RoundTrip.FieldsInOrder` | json/encode.go:572-590 | the fields of a struct are printed in the order given |
| `RoundTrip.MapOrder` | json/encode.go:608-625 | two enumerations of the same map print the same text |
| `RoundTrip.RemarshalSame` | signing.go:335-342 | marshalling each value of a map by itself and then the map of raw messages prints the bytes that marshalling the map prints |
| `RoundTrip.DecodesBack` | json/encode.go:137-144 | the tree printed for a value with well-formed strings and valid numbers stands for that value |
| `RoundTrip.MarshalDecodes` | json/decode.go:85-97 | the bytes printed for such a value are JSON and decode to that value |
| `RoundTrip.MarshalThenUnmarshal` | json/encode.go:137-144 | running Marshal and then Unmarshal gives the value back |
| `Stream.Decoder.Refill` | json/stream.go:139-161 | unread bytes, buffered or still in the reader, are neither lost nor reordered |
| `Stream.Decoder.SlideDown` | json/stream.go:140-146 | the unread bytes move to the front of the buffer in place and stay the same |
| `Stream.Decoder.Grow` | json/stream.go:148-154 | there is room for 512 more bytes and the unread bytes are the same |
| `Stream.Decoder.ReadValue` | json/stream.go:88-137 | length and errors are a function of the unread bytes and of how the reader ends, however the stream is split; the length is where the grammar's first value ends; unread bytes are unchanged and an error is remembered |
| `Viable.ReadErrors` | json/stream.go:94-130 | a syntax error exactly when no further bytes could bring a value; at the end of the stream an unexpected end exactly when they could and something is there, the end itself exactly when only white space is there; a reader's own error otherwise |
| `Stream.Decoder.AtFault` | json/stream.go:117-130 | when the reader has failed and everything is scanned: complete, unexpected end, end of file or the reader's own error |
| `Stream.Decoder.Peek` | json/stream.go:450-467 | skips exactly the leading white space of the unread bytes and returns the next byte without consuming it |
| `Stream.Decoder.TokenPrepareForDecode` | json/stream.go:258-285 | consumes the one comma or colon that is due, or reports what is there instead |
| `Stream.Decoder.TokenValueEnd` | json/stream.go:295-302 | moves a value state to the state after that value |
| `Stream.Decoder.Decode` | json/stream.go:48-78 | the new state and the answer are those of the pure machine on the unread bytes |
| `Stream.Decoder.Token` | json/stream.go:322-416 | the new state and the answer are those of the pure machine on the unread bytes |
| `Stream.Play` | json/stream.go:311-321 | over every list of Token and Decode calls the answers depend only on the concatenated stream, the brackets returned are a prefix of a matched word, and the stack height is the number of open brackets |
| `Tokens.TokensNest` | json/stream.go:314-316 | the same for the pure machine, for every input, every way the stream ends, and every run including errors |
| `Tokens.TokenSteps` | json/stream.go:322-416 | one Token call keeps the stack well-formed and moves the open containers exactly as the bracket it returns says; no pop meets an empty stack |
| `TokenTree.TextTokens` | json/stream.go:311-321 | on every JSON text successive Token calls return the brackets, names and literals of its tree in order, and then end of file |
| `TokenTree.SamePlace` | json/stream.go:48-78 | wherever a value may begin, every way of reading it, by Token down to any subtree and by Decode from there, is answered as its tree says and leaves the decoder in the same place |
| `TokenTree.TextPlanned` | json/stream.go:311-321 | the same for a whole JSON text, and then the end of file |
| `TokenTree.ArrayStreamed` | json/stream.go:258-285 | Token, one Decode for each element, Token: the brackets and the value of each element in order, or its duplicate-key error |
| `TokenTree.ObjectStreamed` | json/stream.go:258-285 | Token for each name and Decode for each value: the brackets, names and values in order |
| `TokenTree.ValuesStreamed` | json/stream.go:48-78 | on values one after another each Decode answers the next one, and then end of file |
| `TokenSound.ReadsExactly` | json/stream.go:311-416 | some calls of Token and Decode come back to the top level without an error exactly when the stream begins with a JSON value: nothing else is let through |
| `TokenSound.TokenFollows` | json/stream.go:322-416 | one Token call that is not refused moves the token state exactly as the scanner moves over the bytes it consumes |
| `TokenSound.ValuePlanned` | json/stream.go:322-416 | a value at the front of the stream is read in all those ways whatever follows it |
| `KeyWrap.SingleLoop` | cipher/key_wrap.go:46-57 | the single loop over t computes what the two nested loops of section 2.2.1 of RFC 3394 compute |
| `KeyWrap.WrappedShift` | cipher/key_wrap.go:46-57 | the wrapped key is what the shift-register form of section 2.2.1 of RFC 3394 leaves: both forms of the standard agree |
| `KeyWrap.UnwrapWrapped` | cipher/key_wrap.go:28-66 | for every permutation of 16-byte blocks, unwrapping a wrapped non-empty key gives the key back; wrapping adds one block |
| `KeyWrap.UnwrapExactly` | cipher/key_wrap.go:73-117 | unwrapping yields a key exactly when the ciphertext is the wrapped form of that non-empty key |
| `KeyWrap.Wrap` | cipher/key_wrap.go:29-66 | computes the nested-loop specification in place; fails exactly for lengths that are not multiples of 8 |
| `KeyWrap.Unwrap` | cipher/key_wrap.go:73-117 | computes the inverse in place; refuses short and ragged inputs and a wrong initial value |
| `KeyWrap.WrapLoop` | cipher/key_wrap.go:46-57 | the in-place loop runs all 6n steps |
| `KeyWrap.UnwrapLoop` | cipher/key_wrap.go:94-105 | the in-place loop undoes all 6n steps, last first |
| `KeyWrap.XorCounter` | cipher/key_wrap.go:51-55 | exactly the first 8 bytes are changed, by exclusive or with the big-endian counter |
| `Words.BigEndianAt` | cipher/key_wrap.go:51-51 | byte i of k big-endian bytes is n divided by 256 to the power k - 1 - i, modulo 256 |
| `Words.NumberBigEndian` | cipher/concat_kdf.go:62-62 | read from left to right, the big-endian form gives the number, as far as it fits |
| `Words.XorAt` | cipher/key_wrap.go:53-55 | each bit of an exclusive or is set exactly when it is set in one of the two bytes |
| `CbcHmac.UnpadExactly` | cipher/cbc_hmac.go:169-196 | a non-empty buffer is accepted exactly when it is the padding of the result |
| `CbcHmac.AuthInputInjective` | cipher/cbc_hmac.go:138-144 | data, nonce and ciphertext are determined by the MAC input as long as the data length in bits fits 64 bits |
| `CbcHmac.UnchainChain` | cipher/cbc_hmac.go:89-91 | chained decryption undoes chained encryption for every block permutation |
| `CbcHmac.CbcAead.OpenExactly` | cipher/cbc_hmac.go:101-135 | opening yields a plaintext exactly when the ciphertext is what sealing that plaintext produces |
| `CbcHmac.CbcAead.OpenPanicsExactly` | cipher/cbc_hmac.go:178-196 | opening is an index error exactly when the ciphertext is the tag of the empty ciphertext and nothing else |
| `CbcHmac.CbcAead.TagAlonePanics` | cipher/cbc_hmac.go:102-135 | that tag is such an input, and every ciphertext of another length is safe |
| `CbcHmac.CbcAead.Seal` | cipher/cbc_hmac.go:83-99 | appends the sealed text to dst, whose contents are kept |
| `CbcHmac.CbcAead.Open` | cipher/cbc_hmac.go:102-135 | appends the plaintext to dst; refuses otherwise; an index error exactly for a message of nothing but a valid tag |
| `CbcHmac.CbcAead.PadPlaintext` | cipher/cbc_hmac.go:84-87 | padding happens in the buffer first allocated: it never reallocates |
| `CbcHmac.CbcAead.ComputeAuthTag` | cipher/cbc_hmac.go:138-151 | the truncated MAC of data, nonce, ciphertext and the data length in bits as eight big-endian bytes, in that order |
| `CbcHmac.CbcAead.SealedParts` | cipher/cbc_hmac.go:83-99 | a sealed text part by part: the plaintext with k bytes k up to the next block, chained from the nonce block by block, then that tag |
| `CbcHmac.Resize` | cipher/cbc_hmac.go:156-166 | extends in place exactly when the capacity suffices, and keeps the contents |
| `CbcHmac.PadBuffer` | cipher/cbc_hmac.go:169-175 | the padded contents, reallocated exactly when the capacity does not suffice |
| `CbcHmac.UnpadBuffer` | cipher/cbc_hmac.go:178-196 | returns the one text the buffer is the padding of, or fails when there is none |
| `ConcatKdf.ConcatKdf.constructor` | cipher/concat_kdf.go:34-52 | the info string is the five parts in order; nothing has been handed out |
| `ConcatKdf.ConcatKdf.Read` | cipher/concat_kdf.go:54-75 | fills the whole buffer with the next bytes of the stream: cached bytes are neither lost nor repeated |
| `ConcatKdf.ReadAll` | cipher/concat_kdf.go:54-75 | for every list of read sizes the outputs together are a prefix of the stream of round hashes |
| `ConcatKdf.SameTotal` | cipher/concat_kdf.go:54-75 | two ways of reading give outputs one of which extends the other |
| `ConcatKdf.RoundsDiffer` | cipher/concat_kdf.go:61-64 | as long as the 32-bit counter does not wrap, no two rounds hash the same input |
| `ConcatKdf.CounterWraps` | cipher/concat_kdf.go:71-71 | only the low 32 bits of the round number reach the hash |
| `ConcatKdf.InfoInjective` | cipher/ecdh_es.go:36-43 | the info string determines algorithm, both party infos and output size |
| `ConcatKdf.LengthPrefixed` | cipher/ecdh_es.go:81-86 | four bytes that read as the length, then the data |
| `ConcatKdf.PaddedIs` | cipher/ecdh_es.go:50-60 | the padded secret is the coordinate in exactly as many big-endian bytes as the curve asks for |
| `ConcatKdf.StreamAt` | cipher/concat_kdf.go:54-75 | byte j of the output is byte j modulo the hash size of the hash of round number, secret and info string |
| `ConcatKdf.DeriveKey` | cipher/ecdh_es.go:31-68 | refuses exactly sizes over 64 KiB; else each byte of the key is the byte of the round hash over the counter, the padded secret and the prefixed algorithm and party infos with the size in bits |
| `Base64.DecodeEncode` | encoding.go:177-179 | decoding undoes encoding |
| `Base64.EncodeAt` | encoding.go:177-179 | each character is the letter of the URL-safe alphabet of RFC 4648 for its six bits of the input, in order |
| `Dots.Base64JoinWithDots` | encoding.go:201-228 | fills the precomputed buffer exactly with the dot-joined encodings |
| `Dots.TotalCount` | encoding.go:206-211 | the precomputed size is the size of the joined text |
| `Dots.SplitThree` | jws.go:377-391 | three parts exactly when there are two dots; the parts joined are the input |
| `Dots.SplitFive` | jwe.go:295-312 | five parts exactly when there are four dots; the parts joined are the input |
| `Dots.SplitJoined` | encoding.go:201-228 | cutting and decoding the joined text gives back exactly the byte parts |
| `Headers.RawHeader.Merge` | shared.go:521-533 | the source fills in what is not set, whatever order its keys are visited in |
| `Headers.FirstSetWins` | shared.go:520-533 | every name present in a merge of several headers comes from some one of them: the first where it is set, else the last where it is present |
| `Headers.MergeAssociative` | shared.go:521-533 | merging is associative |
| `Headers.MergeAgain` | shared.go:521-533 | merging the same header twice changes nothing |
| `Headers.MergedString` | shared.go:242-253 | the string read from a merge is the first header's when it is set there, else the second's when present |
| `Protected.MarshalHeader` | jws.go:160-160 | the printed header does not depend on the order in which its keys are visited |
| `Protected.Reserialized` | signing.go:310-342 | reprinting the raw messages that Sign stores gives the bytes that were signed |
| `Protected.PrintedReadsBack` | jws.go:248-254 | a printed header reads back exactly when no two of its names coincide after ill-formed bytes are replaced |
| `Protected.CollidingPair` | jws.go:248-254 | any two different names with the same replacement make a header that prints and does not read back |
| `Protected.CollidingNames` | json/decode.go:1015-1021 | two such names, of one ill-formed byte each |
| `Protected.PrintedField` | shared.go:242-253 | a field with an ASCII name is present exactly when it was given, and reads back as what was printed under that name |
| `Protected.ReadHeaderPrints` | jws.go:158-165 | every protected header that was read can be printed again |
| `Jws.SignOne` | signing.go:310-343 | the signature is the signer's over the signing input and every header value is kept as a raw message; fails exactly when a value does not marshal, b64 is not a boolean or the signer fails |
| `Jws.Sign` | signing.go:269-347 | signs for every recipient in order, or fails because one of them fails |
| `Jws.RawMessages` | signing.go:335-342 | the stored header holds exactly each value's own output |
| `Jws.ComputeAuthData` | jws.go:148-181 | the rebuilt bytes: original or reprinted header, dot, payload encoded unless b64 is false |
| `JwsRoundTrip.SignedCompact` | signing.go:310-333 | what is signed is what is sent: the compact form is the signing input, a dot and the encoded signature |
| `JwsRoundTrip.SignedDetached` | signing.go:317-333 | with b64 false, the signing input cut at its first dot is the first part of the detached form and the payload itself |
| `JwsRoundTrip.SignedVerifies` | signing.go:418-447 | a message that was signed, sent and accepted verifies exactly when its critical headers are supported and the key accepts the signature over the signed bytes under the signed name |
| `Jws.SignedInput` | jws.go:158-180 | right after signing, verification rebuilds exactly the signed bytes, for b64 true or false |
| `JwsRoundTrip.SignedThenParsed` | jws.go:372-439 | after signing and serializing (attached or detached), parsing accepts exactly when the header names stay distinct, the algorithm named is listed, every value decodes as its name calls for and an embedded key is acceptable; then payload and signature are the same, verification rebuilds exactly the signed bytes, and the algorithm is the one signed with |
| `JwsRoundTrip.SignedAlgorithm` | signing.go:442-444 | the name verified under is the signed name with ill-formed bytes replaced |
| `JwsRoundTrip.PassesPrinted` | jws.go:312-364 | a printed header passes the parser's checks exactly when the values it was printed from are acceptable |
| `JwsRoundTrip.ParsedKeepsHeader` | jws.go:248-254 | a parsed signature keeps the header text it was parsed from |
| `JwsRoundTrip.ParsedThenSerialized` | jws.go:148-181 | serializing a parsed message and parsing that, if accepted, keeps payload and signature; the signing input is the same exactly when the received header text is the text its header prints as |
| `JwsRoundTrip.SpaceLost` | jws.go:422-439 | an accepted message whose header begins with a space, for which the signing input changes |
| `Jws.CompactSerialize` | jws.go:422-439 | only a single signature with a protected header that was not null and no unprotected header; its three parts joined |
| `Jws.ParseSignedCompact` | jws.go:372-420 | three decoded parts, or a detached payload and an empty middle part, put through the checks; else an error |
| `Jws.CheckSignature` | jws.go:312-364 | the checks on one signature, with the allow-list applied to the merged headers known at that point |
| `Jws.Sanitized` | jws.go:232-367 | all signatures pass their checks, or the message is refused; flattened and general form |
| `Jws.AllowListExact` | jws.go:326-335 | for every accepted message the algorithm that verification uses is in the allow-list, exactly when the allow-list does not contain the empty name |
| `Jws.ParsedAllowed` | jws.go:278-287 | a flattened message never escapes the allow-list, and a general one does not when the list has no empty name |
| `Jws.UnlistedAccepted` | jws.go:326-363 | with the empty name in the list, a general message whose only algorithm name is unprotected is accepted and verified under a name not in the list |
| `Jws.VerifySignature` | signing.go:418-447 | critical headers, rebuilt input and the merged algorithm name all pass |
| `Jws.DetachedVerify` | signing.go:402-450 | accepts exactly a single signature that verifies, never one with a critical header outside the protected one; a message without signatures is an index error |
| `Jws.ParsedHasSignature` | jws.go:232-367 | a parsed message has at least one signature |
| `Jws.DetachedVerifyMulti` | signing.go:479-525 | returns the first signature that verifies, or none; never one with a critical header outside the protected one |
| `Jwe.MergedHeaders` | jwe.go:74-84 | the merge of protected, unprotected and the recipient's header, in that order |
| `Jwe.ValidateAlgEnc` | jwe.go:275-285 | named algorithms are in their lists |
| `Jwe.ValidateAll` | jwe.go:239-265 | every recipient and both shared headers pass |
| `Jwe.DecodeRecipients` | jwe.go:222-237 | all listed keys decode and no recipient header has a nonce |
| `Jwe.Sanitize` | jwe.go:170-273 | a message is accepted exactly when every check passes, and is then the parsed one |
| `Jwe.CipherAllowed` | crypter.go:473-494 | after a successful parse, the content cipher that decryption uses and every recipient's key algorithm are in the caller's lists |
| `Jwe.ParsedJweAllowed` | jwe.go:239-265 | after a successful parse the shared headers name no content cipher or a listed one |
| `Jwe.AuthenticatedData` | jwe.go:87-106 | the header as received or as it prints, then the extra data if any |
| `JweRoundTrip.AuthenticatedCompact` | jwe.go:87-106 | what is authenticated is what is sent: the compact form is the authenticated data and then the encoded key, iv, ciphertext and tag; extra data is authenticated after a dot |
| `Jwe.Decrypt` | crypter.go:452-511 | returns a plaintext exactly when there is one recipient, the checks pass, its key unwraps, the content opens with it and decompresses to that plaintext; refuses every message with a critical header; an index error exactly when there is no recipient and the checks pass |
| `Jwe.MultiAgrees` | crypter.go:523-602 | with a single recipient whose headers decode, both ways of decrypting give the same plaintext or both fail |
| `Jwe.ParsedHasRecipient` | jwe.go:214-237 | a parsed message has at least one recipient |
| `Jwe.OnlyListedUsed` | crypter.go:473-511 | for every parsed message, decrypters that agree on listed key algorithms and content ciphers give the same result, for one recipient and for several: nothing unlisted is used |
| `Jwe.TryRecipients` | crypter.go:558-589 | finds the first recipient whose key opens the message, and none exactly when no key does |
| `Jwe.DecryptMulti` | crypter.go:523-602 | returns the first recipient whose key opens the message, its merged headers and the plaintext; fails only when there is none or decompression or the headers fail; refuses every message with a critical header |
| `Jwe.SerializeCompact` | jwe.go:351-366 | only a single recipient without header and no unprotected header; its five parts joined |
| `Jwe.ParseEncryptedCompact` | jwe.go:290-348 | five decoded parts put through the checks; else an error |
| `JweRoundTrip.CompactJweRoundTrip` | jwe.go:350-366 | parsing the compact form of any message, fresh or parsed, if accepted, gives back key, iv, ciphertext and tag; the authenticated data is the same exactly when there is no extra data and a header that was received prints as it was received |
| `JweRoundTrip.SerializedThenParsed` | jwe.go:290-366 | parsing accepts the compact form of a message made with given header values exactly when the names stay distinct, every value decodes and both algorithm names are given and listed; decryption then uses those names |
| `JweRoundTrip.ParsedJweKeepsHeader` | jwe.go:170-215 | a parsed message keeps the text it was parsed from, and its protected header is the one in that text |
| `JweRoundTrip.ParsedJweThenSerialized` | jwe.go:87-106 | for every parsed message that serializes, that condition is that it has no extra data and its header text is the text its header prints as |
| `JweRoundTrip.ExtraDataUnseen` | jwe.go:350-366 | messages that differ only in their extra data have the same compact form |
| `JweRoundTrip.ExtraDataLost` | jwe.go:350-366 | for every extra data, a fresh message that serializes and is accepted with other authenticated data |

## Left out

- Reflection-driven decoding and encoding (struct fields, type caches, the `string` tag option): values are a JSON datatype, and decoding goes to interface values only.
- Floating-point conversion: numbers stay text, as with the number type that keeps them as such; floats and byte slices are not among the values `Encode` prints.
- The byte-slice twin of the string printer, HTMLEscape and MarshalIndent: each would repeat a proved loop.
- Error messages, error offsets and byte counters of the scanner: only which error it is.
- AES, SHA, HMAC, RSA, elliptic curves, PBKDF2, DEFLATE, X.509 and randomness: function parameters or absent.
- Key-type dispatch, JWK conversion, JWK sets and opaque signers: parsing and verification take them as the function parameters in `Env`, `Verifier` and `Decrypter`.
- The assembly of the protected header from signer options (kid, jwk, nonce, extra headers) and the encryption side of JWE: `Sign` starts from any map of header values.
- The JSON serialization of messages: `Sanitized` and `Sanitize` start from the raw structure.
- The jwt package, command line tools and test helpers: single-branch checks and input/output.
- Stream.Reader.Read: a reader delivers finitely many chunks and then keeps failing with one error, so an error that goes away again is not modelled.
- Base64.DecodeEncode: only decoding after encoding, because the decoder accepts line breaks and stray bits.
- KeyWrap.Wrap: the blocks are held as values in an array, so aliasing between blocks and the input is not modelled.
- CbcHmac.CbcAead.Seal: plaintext and data are values, so overlap between them and `dst` is not modelled.
