# DNS wire-format codec of dns_from_scratch, in Dafny

This project models the pure message codec of `dns_from_scratch`, a small
DNS server written in Rust, and proves properties of it. The codec follows
RFC 1035:

- the cursor-passing big-endian readers (`parse_u8`, `parse_u16`,
  `parse_u32`, `parse_string`, `parse_data`);
- the record-type table with its 16-bit codes (section 3.2.2), kept in two
  copies, one over `u16` and one over `i16`;
- the uncompressed length-prefixed label codec for domain names
  (section 3.1);
- the twelve-byte header and its bit fields (section 4.1.1), together with
  the server's second header decoder, `parse_request`;
- the question codec and the counted question loop (section 4.1.2);
- the resource-record codec and the answer-section codec (section 4.1.3).

Every decoder is a total function over `seq<Byte>`, and every encoder a
total function over its record; the counted loops are methods proved
equal to recursive functions. A decoder or encoder returns `Result<T>`,
which is `Ok(value)` or `Err(failure)`. The failure is
`Returned` when the Rust code returns an `anyhow` error, and `Panicked`
when it panics: an index or slice out of range, or an overflow in a debug
build. A contract can therefore say which of the two an input leads to.
Readers return the new cursor together with the value, as the Rust
functions do.

Modules, one per file:

| file | module | models |
|---|---|---|
| `wrappers.dfy` | `Wrappers` | `Result` and `Failure` |
| `bytes.dfy` | `Bytes` | `u8`/`u16`/`u32`/`i16`, big-endian layouts, runs written one after another |
| `text.dfy` | `Text` | UTF-8 well-formedness (`String::from_utf8`), `split(".")` and `join(".")` |
| `parse.dfy` | `Parse` | src/parse/parse.rs |
| `question_type.dfy` | `QuestionTypes` | src/dns/question_type.rs |
| `label.dfy` | `Label` | src/dns/label.rs |
| `header.dfy` | `Header` | src/dns/header.rs |
| `question.dfy` | `Question` | src/dns/question.rs |
| `answer.dfy` | `Answer` | src/dns/answer.rs |
| `request.dfy` | `Request` | `parse_request` in src/dns/dns.rs |
| `loop.dfy` | `Loop` | the counted loop that reads items one after another, shared by `parse_questions` and `DnsAnswerSet::decode` |

## Model

| member | source | states |
|---|---|---|
| Parse.ParseU8 | src/parse/parse.rs:9-14 | succeeds exactly when a byte remains at the cursor, and panics otherwise; the cursor moves one byte on and the value is that byte |
| Parse.ParseU16 | src/parse/parse.rs:16-21 | succeeds exactly when two bytes remain, and panics otherwise; the cursor moves two bytes on and the value is their big-endian reading |
| Parse.ParseU16Reads | src/parse/parse.rs:16-21 | the reader yields `n` at a position exactly when the two bytes there are `n` written big-endian (`put_u16`), so reading and writing are inverse |
| Parse.ParseU32 | src/parse/parse.rs:23-28 | succeeds exactly when four bytes remain, and panics otherwise; the cursor moves four bytes on and the value is their big-endian reading |
| Parse.ParseU32Reads | src/parse/parse.rs:23-28 | the reader yields `n` at a position exactly when the four bytes there are `n` written big-endian (`put_u32`) |
| Parse.ParseString | src/parse/parse.rs:30-39 | as written, the reader never succeeds: it returns an error at every in-range position and panics at every other one |
| Parse.StringAfterLength | src/parse/parse.rs:32-38 | a length slice that is not the eight bytes `usize::from_be_bytes` needs is an error; on success the length is below 255 and the cursor lies just past the string |
| Parse.ParseStringFixed | src/parse/parse.rs:30-39 | with the length read as the one byte it is, the reader succeeds exactly when that byte is below 255, that many bytes follow and they are UTF-8; it returns those bytes and moves past them |
| Parse.ParseStringFixedReads | src/parse/parse.rs:30-39 | a length-prefixed UTF-8 string shorter than 255 bytes is read back from wherever it sits |
| Parse.ParseStringRejectsAbc | src/parse/parse.rs:32 | the well-formed string "abc" is rejected as written and read back by the corrected reader |
| Parse.ParseData | src/parse/parse.rs:41-43 | succeeds exactly when `len` bytes remain, and panics otherwise; the result is exactly those `len` bytes and the cursor moves past them |
| QuestionTypes.ToU16 | src/dns/question_type.rs:67-90 | the code of a type always exists and lies in 1..16 |
| QuestionTypes.FromU16 | src/dns/question_type.rs:41-65 | a code is accepted exactly when it lies in 1..16; any other code is a returned error |
| QuestionTypes.FromU16Code | src/dns/question_type.rs:41-90 | an accepted code names the type whose code it is |
| QuestionTypes.FromU16ToU16 | src/dns/question_type.rs:41-90 | converting a type to its code and back gives the type |
| QuestionTypes.ToU16Injective | src/dns/question_type.rs:67-90 | distinct types have distinct codes |
| Label.FromDomain | src/dns/label.rs:14-31 | succeeds exactly when no dot-separated piece is longer than 256 bytes; the labels are dot-free, there is at least one, and joining them with dots gives the domain back |
| Label.AsDomain | src/dns/label.rs:33-35 | the labels joined with dots; when there is at least one label and none holds a dot, splitting the result at its dots gives the labels back |
| Label.FromDomainOfAsDomain | src/dns/label.rs:14-35 | a label set that `from_domain` could have produced is recovered from its dotted form |
| Label.EncodeLabels | src/dns/label.rs:39-42 | the loop over the labels fails, with a returned error, exactly when some label is longer than its length byte can say (255) |
| Label.Encode | src/dns/label.rs:37-45 | succeeds exactly when every label fits its length byte; the result is never empty and ends in the zero byte |
| Label.EncodeLength | src/dns/label.rs:37-45 | the encoding is one length byte plus the bytes for each label, plus the final zero byte |
| Label.EncodeEmpty | src/dns/label.rs:43 | the name without labels is the zero byte alone |
| Label.EncodeCons | src/dns/label.rs:39-42 | a label in front of a name puts its length byte and its bytes in front of that name's encoding |
| Label.ReadLabels | src/dns/label.rs:51-59 | on success the cursor stops inside the buffer on a zero byte, and every label read is non-empty, fits a length byte and is UTF-8 |
| Label.ReadLabelsEncodes | src/dns/label.rs:47-62 | the bytes the loop consumed, up to and including the zero byte, are exactly the encoding of the labels it read |
| Label.ReadLabelsLength | src/dns/label.rs:47-62 | the loop consumes exactly the wire length of the labels it returns |
| Label.Decode | src/dns/label.rs:47-62 | a decoded name re-encodes to a prefix of the buffer, and its labels are ones the decoder can produce |
| Label.DecodeEncode | src/dns/label.rs:37-62 | decoding an encoding gives the labels before the first empty one; with no empty label it gives the label set back |
| Label.ReadEncoded | src/dns/label.rs:51-59 | an encoding found at any position reads back as its labels up to the first empty one, and stops on that label's zero byte |
| Label.ReadsEncoding | src/dns/label.rs:51-59 | an encoding of labels the decoder can produce, found at any position, reads back as exactly those labels and stops on its final zero byte |
| Label.GoogleComLabels | src/dns/label.rs:71-79 | "google.com" becomes the labels "google" and "com" |
| Label.GoogleComEncoding | src/dns/label.rs:71-79 | those labels encode to `06 67 6f 6f 67 6c 65 03 63 6f 6d 00` |
| Label.LongLabelGap | src/dns/label.rs:21-40 | a 256-byte label passes `from_domain` but fails `encode` |
| Label.EmptyLabelDomain | src/dns/label.rs:14-31 | "a..b" becomes three labels, the middle one empty |
| Label.EmptyLabelEncoding | src/dns/label.rs:37-45 | the empty label encodes as a zero byte in the middle of the name |
| Label.EmptyLabelEndsName | src/dns/label.rs:51-59 | decoding that name stops at the empty label and returns "a" alone |
| Header.Masked | src/dns/header.rs:43-59 | cutting OPCODE, Z and RCODE to their bit widths gives a well-formed header and leaves a well-formed one unchanged |
| Header.FlagsByte | src/dns/header.rs:39-53 | byte 2 carries QR in its top bit, OPCODE in the four bits below, then AA, TC and RD in its three low bits |
| Header.CodesByte | src/dns/header.rs:54-59 | byte 3 carries RA in its top bit, Z in the three bits below and RCODE in its low four bits |
| Header.Encode | src/dns/header.rs:32-71 | the header is always twelve bytes: ID big-endian in bytes 0-1, the flag bytes 2 and 3, then QDCOUNT, ANCOUNT, NSCOUNT and ARCOUNT big-endian in bytes 4-11 |
| Header.FlagsByteRead | src/dns/header.rs:91-129 | the fields read from byte 2 by shifting and masking put it back together |
| Header.CodesByteRead | src/dns/header.rs:131-144 | the fields read from byte 3 put it back together |
| Header.Decode | src/dns/header.rs:88-169 | succeeds exactly on buffers of at least twelve bytes and panics on shorter ones; it reads bytes 0-11 whatever the cursor is, returns the cursor twelve bytes on, and the header read is well-formed and encodes back to those twelve bytes |
| Header.DecodedBytes | src/dns/header.rs:88-169 | the fields as `decode` reads them encode back to the bytes read |
| Header.DecodeEncode | src/dns/header.rs:225-234 | decoding an encoded header, followed by anything, gives the header with its `u8` fields masked and the cursor twelve bytes on; a well-formed header comes back unchanged |
| Header.EncodeInjective | src/dns/header.rs:32-71 | well-formed headers with the same bytes are the same header |
| Header.EncodeMasked | src/dns/header.rs:43-59 | the bits that the masks drop do not reach the wire |
| Question.ToI16 | src/dns/question.rs:72-96 | the signed code of a type always exists and lies in 1..16 |
| Question.ToI16AgreesWithU16 | src/dns/question.rs:76-92 | the signed table gives every type the same code as the unsigned table of src/dns/question_type.rs |
| Question.FromI16 | src/dns/question.rs:46-70 | a signed code is accepted exactly when it lies in 1..16, so negative codes are rejected, and an accepted code names the type whose code it is |
| Question.FromI16ToI16 | src/dns/question.rs:46-96 | converting a type to its signed code and back gives the type |
| Question.NameFromDomain | src/dns/question.rs:108-111 | the question-side split always succeeds, with at least one dot-free label, and joins back to the domain |
| Question.NameFromDomainAgrees | src/dns/question.rs:108-111 | the checked `from_domain` of label.rs succeeds exactly when no piece exceeds 256 bytes, and then agrees with the unchecked one |
| Question.ToBytes | src/dns/question.rs:136-149 | fails exactly when the name cannot be encoded; otherwise the bytes are the name's encoding plus four |
| Question.ToBytesLayout | src/dns/question.rs:136-149 | the name's encoding comes first, then the type's signed code, then class 1 |
| Question.ToBytesIgnoresClass | src/dns/question.rs:146 | the question's class never reaches the wire |
| Question.ParseQuestion | src/dns/question.rs:152-184 | a buffer with no zero byte anywhere is an error whatever the start; on success the cursor lies more than four bytes past the start and within the buffer |
| Question.ParseQuestionParts | src/dns/question.rs:160-183 | the labels end on the zero byte five bytes before the returned cursor, the type code occupies the next two bytes and the class the last two |
| Question.ParseQuestionEncodes | src/dns/question.rs:152-184 | what `parse_question` consumed is what `to_bytes` writes for the question it returned, except that the class on the wire is read as it stands and written as 1 |
| Question.ParseQuestionOfParts | src/dns/question.rs:152-184 | a buffer holding a zero byte, labels readable at the start, a known type code and a class parses as the question of those parts |
| Question.ParseQuestionRejectsType | src/dns/question.rs:171-172 | once the labels end on a zero byte, a type code outside 1..16 in the two bytes after it is a returned error |
| Question.ParseQuestionAt | src/dns/question.rs:152-184 | a question whose labels the decoder can produce is read back, with class 1, from its bytes wherever they sit, and the cursor ends just past them |
| Question.Chain | src/dns/question.rs:189-201 | the loop as written, which moves the start on by each absolute end position, returns exactly the requested number of items when it succeeds, and none for a count of zero |
| Question.ReadChain | src/dns/question.rs:189-201 | the counted loop with `start += i` computes the as-written recursion `Chain` |
| Question.ParseQuestions | src/dns/question.rs:189-201 | `parse_questions` as written returns the items of `Chain` over `parse_question`: exactly `num_questions` questions, or the first failure |
| Question.ParseQuestionsFixed | src/dns/question.rs:189-201 | the corrected loop (`start = i`) returns the items of the shared counted loop `Loop.Many` over `parse_question`: exactly `num_questions` questions, or the first failure |
| Question.ChainRunAgree | src/dns/question.rs:191-197 | for up to two items the as-written and the corrected loops return the same items |
| Question.QuestionReadsRun | src/dns/question.rs:152-184 | a question whose labels the decoder can produce is read back, with class 1, from wherever its bytes sit, and the read ends just past them |
| Question.RunQuestionsAt | src/dns/question.rs:189-201 | the corrected loop reads back every question of a run written one after another, wherever the run sits in the buffer, each with class 1, and ends just past the run |
| Question.ChainThirdFails | src/dns/question.rs:193-197 | the as-written loop looks for the third item at the sum of the first two end positions |
| Question.QuestionABytes | src/dns/question.rs:136-149 | the question "a", type A, class IN is written `01 61 00 00 01 00 01` |
| Question.RunReadsThreeA | src/dns/question.rs:189-201 | the corrected loop reads all three questions of a 21-byte run of three copies and ends at byte 21 |
| Question.ChainMissesThreeA | src/dns/question.rs:196 | the as-written loop looks for the third of those questions at offset 21 of the 21-byte buffer and panics |
| Question.GoogleComQuestion | src/dns/question.rs:220-233 | the unit test's 16-byte buffer reads as the question google.com, type A, class 1 |
| Answer.RdLength | src/dns/answer.rs:42 | as written, RDLENGTH is the data length cut to 16 bits times four, and the product panics when it overflows 16 bits; below 16384 bytes it is four times the length; the corrected rule writes the length itself and refuses one that does not fit |
| Answer.RdLengthWraps | src/dns/answer.rs:42 | 64 KiB of data is announced as zero bytes by the cast, and refused by the corrected rule |
| Answer.Encode | src/dns/answer.rs:25-48 | fails exactly when the name cannot be encoded (a returned error) or RDLENGTH cannot be computed (its failure); otherwise the record is the name's bytes plus ten plus the data |
| Answer.EncodeLayout | src/dns/answer.rs:25-48 | the name comes first, then TYPE, CLASS, TTL and RDLENGTH big-endian, then the data |
| Answer.Decode | src/dns/answer.rs:51-81 | on success the cursor lies past the name, the ten fixed bytes and the data, and within the buffer |
| Answer.DecodeFields | src/dns/answer.rs:55-80 | after the name, the cursor moves past the ten fixed bytes and the data, and the name is kept |
| Answer.FieldsParts | src/dns/answer.rs:55-80 | what the field reader read: TYPE is the code of the type returned, CLASS and TTL as returned, RDLENGTH equal to the number of data bytes, which follow it |
| Answer.FieldsShort | src/dns/answer.rs:69-72 | when fewer bytes remain than RDLENGTH announces, reading the data panics |
| Answer.DecodeRejectsType | src/dns/answer.rs:56-60 | a TYPE code outside 1..16 after the name is a returned error |
| Answer.DecodeFacts | src/dns/answer.rs:51-81 | what the decoder read: the labels up to the zero byte, then TYPE, CLASS, TTL and RDLENGTH big-endian, with RDLENGTH the number of data bytes |
| Answer.DecodeEncodes | src/dns/answer.rs:51-81 | an answer that was read re-encodes, with RDLENGTH as the data length, to exactly the bytes read |
| Answer.DecodeAt | src/dns/answer.rs:51-81 | an answer whose name the decoder can produce, encoded with RDLENGTH as the data length, is read back from wherever its bytes sit, and the cursor ends just past them |
| Answer.DecodeOfPieces | src/dns/answer.rs:51-81 | labels ending on a zero byte, followed by the fixed fields and the data, decode as the answer of those parts |
| Answer.RulesAgreeOnlyWithoutData | src/dns/answer.rs:42 | for any amount of data, the as-written and the corrected RDLENGTH give the same result exactly when there is no data |
| Answer.BothRulesEncode | src/dns/answer.rs:25-48 | below 16384 data bytes both RDLENGTH rules encode the answer, and their bytes agree exactly when there is no data |
| Answer.SampleEncodings | src/dns/answer.rs:25-48 | an address record for "a" with four data bytes announces 16 data bytes as written and 4 when corrected |
| Answer.TimesFourBreaksRoundTrip | src/dns/answer.rs:202-210 | decoding that record's bytes as written runs past the end of the buffer and panics |
| Answer.TimesFourNeverRoundTrips | src/dns/answer.rs:25-81 | for every answer with a name the decoder can produce and 1 to 16383 data bytes, the as-written encoding succeeds but decoding it at its start panics |
| Answer.SampleReadsBack | src/dns/answer.rs:202-210 | with the corrected RDLENGTH the same record reads back whole |
| Answer.EncodeAll | src/dns/answer.rs:97-106 | the loop succeeds exactly when every answer can be encoded |
| Answer.EncodeSet | src/dns/answer.rs:90-107 | a count different from the number of answers is a returned error; otherwise the set encodes exactly when every answer does |
| Answer.EncodeAllConcat | src/dns/answer.rs:97-106 | the answers' bytes follow one another: answer k starts after the bytes of answers 0 to k-1 |
| Answer.EncodeSetConcat | src/dns/answer.rs:90-107 | the set's bytes are each answer's bytes in turn |
| Loop.Many | src/dns/answer.rs:115-124 | reading a count of items one after another returns exactly that many, and a count of zero leaves the cursor where it was |
| Loop.ReadMany | src/dns/answer.rs:115-124 | the counted loop, pushing each item and moving the cursor to where it ended, computes the recursion `Many` |
| Answer.DecodeAll | src/dns/answer.rs:109-125 | `count` answers read one after another from `pos`: exactly `count` of them on success, and none with the cursor unchanged for a count of zero |
| Answer.DecodeSet | src/dns/answer.rs:109-125 | `DnsAnswerSet::decode` returns exactly `num_answers` answers in order or fails, and with no answers leaves the cursor unchanged |
| Answer.DecodeSetAt | src/dns/answer.rs:90-125 | answers whose names the decoder can produce, encoded as a set with RDLENGTH as the data length and found anywhere in a buffer, are read back in order, and the cursor ends just past them |
| Answer.DecodeChunksAt | src/dns/answer.rs:109-125 | the same, with the bytes given as each answer's encoding in turn |
| Loop.ManyReadsRuns | src/dns/answer.rs:115-124 | a reader that reads each item from wherever its bytes sit reads all of the items from their bytes written one after another, and ends just past the last |
| Request.Indicator | src/dns/dns.rs:82-91 | the QR `match` accepts exactly 0 and 1, and 1 is a response |
| Request.Flag | src/dns/dns.rs:95-131 | a one-bit `match` accepts exactly 0 and 1, and 1 is true |
| Request.ParseRequest | src/dns/dns.rs:79-160 | succeeds exactly on buffers of at least twelve bytes and panics on shorter ones, so no error arm of a `match` is ever taken; the fields read are well-formed and, written back as a header, give exactly the twelve bytes read |
| Request.AgreesWithHeader | src/dns/dns.rs:79-160 | `parse_request` and `DnsHeader::decode` accept the same buffers and read the same fields from them, whatever cursor the header decoder is given |
| Request.ParsesEncoding | src/dns/dns.rs:79-160 | the bytes of any header, followed by anything, parse as that header with its `u8` fields masked |
| Request.FieldPositions | src/dns/dns.rs:80-143 | the ID and the four counts are big-endian in bytes 0-1 and 4-11; QR is the top bit of byte 2, OPCODE the four bits below it, and AA, TC and RD its three low bits; RA is the top bit of byte 3, Z the three bits below it and RCODE its low four bits |

## Left out

- Name compression is not modelled. This covers the `LabelMap`, the
  `Domain` type, pointer encoding and decoding, and the `pos` and
  `label_map` arguments of the answer codec. The `Domain` and `LabelMap`
  that src/dns/answer.rs imports are not part of this model, so an
  answer's name uses the uncompressed `LabelSet` codec of
  src/dns/label.rs, read at the answer's cursor.
- The server is not modelled: `DnsServer`, socket I/O, `main`,
  initialization, and the message-level tests that drive a live server.
  These are I/O and process bootstrap.
- `tracing` logging and the text of `anyhow` error messages are not
  modelled; an error is only `Returned` or `Panicked`.
- Integers are unbounded. A `usize` overflow in cursor arithmetic such as
  `pos + len` is not modelled, because no buffer comes near that size.
- Answer.RdLength: the as-written rule models the debug build, where
  `len as u16 * 4` panics on overflow. A release build would wrap the
  product modulo 2^16 instead.
- Header.Decode: the error arms of its one-bit `match`es are left out,
  since a shifted or masked bit is always 0 or 1.
  Request.ParseRequest keeps these arms and proves them unreachable.
- Question.ParseQuestion: the `ensure!(buf.len() > 0)` check is left out.
  It cannot fire once a zero byte has been found in the buffer.
- The second copy of `LabelSet::encode` and `as_domain` in
  src/dns/question.rs is modelled once, as `Label.Encode` and
  `Label.AsDomain`. The two are textually identical.
- Question.ParseQuestion: its contract states only the missing-zero-byte
  error and the cursor bounds. What it reads is stated by
  `ParseQuestionParts`, `ParseQuestionEncodes` and `ParseQuestionAt`.
- Answer.Decode: its contract states only the cursor bounds. What it
  reads is stated by `DecodeFacts`, `DecodeEncodes`, `DecodeAt` and
  `DecodeRejectsType`.
- Limits and error kinds are those of the code:
  - `DnsAnswerSet::encode` checks the count with `ensure!`, so a mismatch
    is a returned error;
  - labels are limited to 256 bytes by `from_domain` and to 255 by
    `encode`, not to the 63 bytes of section 2.3.4 of RFC 1035;
  - the header round trip holds only for headers whose `u8` fields fit
    their bit fields.

## Findings

| source | as written | input that shows it | evidently intended | confidence | as-written member | corrected member |
|---|---|---|---|---|---|---|
| src/parse/parse.rs:32 | the one-byte length slice is converted to the eight-byte array `usize::from_be_bytes` needs, and that conversion always fails | buffer `03 61 62 63` at position 0: an error instead of "abc" | read the length as the single byte it is | high; not executed | Parse.ParseString, Parse.ParseStringRejectsAbc | Parse.ParseStringFixed, Parse.ParseStringFixedReads |
| src/dns/answer.rs:42 | RDLENGTH is written as the data length times four, but the decoder reads RDLENGTH bytes of data | the answer "a", type A, class 1, TTL 5, data `01 02 03 04`: RDLENGTH 16 for 4 bytes, and decoding panics | RDLENGTH is the data length | high; not executed | Answer.RdLength, Answer.TimesFourBreaksRoundTrip, Answer.TimesFourNeverRoundTrips, Answer.RulesAgreeOnlyWithoutData | Answer.DecodeAt, Answer.DecodeEncodes, Answer.SampleReadsBack, Answer.DecodeSetAt |
| src/dns/question.rs:196 | the start position grows by the absolute end position `parse_question` returns (`start += i`) | three copies of "a", type A, class IN (21 bytes) with a count of 3: the third question is looked for at offset 21 and the read panics | the next question starts where the last ended (`start = i`) | high; not executed | Question.ParseQuestions, Question.ChainMissesThreeA | Question.ParseQuestionsFixed, Question.RunQuestionsAt, Question.RunReadsThreeA |
