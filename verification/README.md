# Verified models of the bundled C libraries

This project models, in Dafny, the self-contained logic of the C libraries that the
repository bundles (libbson and libwebsockets), and proves what each part promises.

| module files | models |
|---|---|
| `Common` | the few types and functions that several components share |
| `DecimalDigits`, `Decimal128`, `DecimalPrint`, `DecimalToString`, `DecimalSyntax`, `DecimalFromString` | BSON decimal128: encoding, printing and parsing, step by step |
| `DecimalGrammar`, `DecimalLayout` | which texts are numerals and what their parts mean; what every printed number looks like |
| `DecimalRoundTrip`, `DecimalWindow`, `DecimalExact`, `DecimalAcceptance`, `DecimalCounterexamples` | what printing and parsing promise, and exactly when they keep it |
| `Sha1Spec`, `Sha1Laws`, `Sha1`, `Sha1Context` | SHA-1 of FIPS 180-4 and what its functions mean, and the streaming context that computes it in place |
| `RingArcs`, `Ring`, `RingLife` | the multi-tail ring buffer, and whole lives of it against a model made of queues |
| `TruncatedSend` | the send side of a connection: what a short write leaves over |
| `RxStream`, `RxFlow` | the receive side: the buflist and the list of connections with pending bytes |
| `DllList`, `Timers` | the intrusive linked list and the sorted timer list on it |
| `FdTable` | the table of polled descriptors and its reverse index |
| `Utf8`, `UrlCodec`, `Base64` | the three codecs |

Code that the source runs step by step is a method over arrays or object fields, proved
against functions; lemmas then say what those functions promise. Promises about whole runs
are stated on runs: `TruncatedSend.Run` and `RxStream.Run` fold arbitrary event sequences,
and the class methods of `TruncatedSend.Wsi` and `RxFlow.Connection` are proved equal to one
step of them; `RingLife.WholeLife` takes a ring from its creation over any events to its
destruction, and equates what it destroys with what the queue model `RingLife.Lived` takes in.

## What the proofs found

* **Parsing, which numerals are refused.** A numeral is answered rightly when it is accepted
  if and only if some decimal128 number has its value (`AnsweredRightly`). Take a numeral
  without leading zeros, or with at most 34 digits behind them. Without a point it is always
  answered rightly (`AcceptedWithoutPoint`). With a point, and unless the exponent is clamped
  (see below), it is refused wrongly exactly when it is representable and either more than 34
  digits are written and fewer of them than the surplus stand behind the point, or the point
  stands right behind the first of the digits that have to go (`RightInReach`): `10.0E-6177`
  is refused, because the point is taken for a digit to be rounded (line 700). With leading
  zeros and more than 34 digits behind them, the check of line 667 looks at digits too far in
  front (`LeadingZeroShiftsTheCheck`); `AcceptedWhen` covers these numerals too.
* **Parsing, digits that are lost.** The same check misses digits at the end
  (`LeadingZerosHideADigit`). `DecimalExact.ExactWhen` gives, for every accepted numeral, the
  exact condition under which the encoding has the value of the text.
* **Parsing, clamped exponent.** At `bson-decimal128.c:626` the 32-bit exponent is compared
  with a `size_t`, so a negative exponent becomes huge and never takes the clamping branch.
  The branch is taken exactly when the exponent is not negative and the number of fraction
  digits exceeds it by more than 2^14 (`DecimalExact.WhenClamped`). In that case every
  accepted non-zero numeral gets a wrong value; `LongFractionIsClamped` names inputs. Acceptance
  is then wrong as well: numerals of at most 34 digits are accepted although no number has
  their value, and one without leading zeros is refused although a number may have its value
  (`AcceptedInReach`, `LongFractionIsNoNumber`, `LongHundredIsRefused`).
* **Parsing, the end of the digit array.** The first normalisation loop (lines 633-651) lets
  the last digit become the 35th of 34. This happens exactly when at most 34 digits and the
  exponent of the last one add up to 6146 (`ReadsPastDigitsWhen`), for example for `1E6145`
  (`OneE6145ReadsPastDigits`). `DecimalFromString.NormaliseExponent` shows that there is no
  other way, so the domain of `FromString` leaves out just these texts.
* **Parsing, lengths and zeros.** A length that ends inside the digits cuts the text there, but
  an exponent behind the digits is read even beyond the length (`LengthBehindSignificand`), and
  a length of zero is read as the number zero (`LengthZero`). The exponent of a zero is clamped
  to the range, but one below -2^31 wraps around, so that the exponent becomes 6111 instead of
  -6176 (`ExponentOfZero`).
* **Parsing does not round.** The header comment (lines 427 and 460) speaks of rounding; the
  code refuses a numeral whose dropped digits it sees not to be zero. The model follows the
  code.
* **Printing.** A significand of 10^34 or more is non-canonical and stands for zero in the
  standard, but the code compares with 2^113 (line 206). In the window in between it prints
  35 digits, and in the scientific layout behind a minus sign only the first 34 of them.
  Printing agrees with the standard, and parsing the text gives the number back, exactly
  outside the window (`DecimalWindow.RoundTrip`). The documented 43 bytes are enough exactly
  unless the number is negative, in the window and has exponent -40 (`RoomNeeded`); then the
  terminator is the 44th byte. `MinusTen34Overruns` is such an encoding. For a negative number
  in the window with exponent 6111, the printed text makes the parser read past its digits
  (`DomainOfWindow`).
* **Ring.** With one-byte elements a single free slot is reported as none
  (`lws-ring.c:90`); `FreePlusWaiting` shows that this is the only exception.
* **Base64.** Both directions want one byte more than the text and its terminator take. The
  output depends on the uninitialised quad exactly for texts with one to three digits that
  end in a character of neither alphabet other than the padding character
  (`OutputIsDetermined`). The count that decoding answers is one less than the number of bytes
  written exactly when a padding character ends a text that has no group to pad
  (`CountIsLength`); for a padding character alone it is -1, like for a buffer that is too small.
* **URL decoding** writes up to `len` bytes and then the terminator, so the buffer must be
  one byte longer than `len`.
* **Sending.** When memory for the rest of a short write is missing, the part that went out
  stays on the wire and the write is answered with -1. `TornWhen` says exactly when,
  `FirstWriteTorn` gives a run, and `AcceptedIs` shows that this is the only way in which the
  stream departs from the writes that were answered with their length.
* **Receiving.** `lws_buflist_aware_read` answers -1 when a segment cannot be added; the
  bytes just read are then gone. `FatalWhenNotKept` says exactly when, and `BytesCanBeLost`
  gives runs that get there, one of them without any lack of memory.

## Model

| member | source | states |
|---|---|---|
| Decimal128.Divide1B | thirdparty/libmongoc/bson/bson-decimal128.c:76-102 | one long division of a 128-bit value by 10^9: quotient times 10^9 plus remainder is the value, remainder below 10^9 |
| Decimal128.Mul64x64 | thirdparty/libmongoc/bson/bson-decimal128.c:329-362 | the two result words are the exact product of any two 64-bit numbers; no carry is lost |
| Decimal128.DecodeEncode | thirdparty/libmongoc/bson/bson-decimal128.c:163-201 | the encoding of every representable number is canonical and decodes to that number |
| Decimal128.EncodeDecode | thirdparty/libmongoc/bson/bson-decimal128.c:163-201 | every canonical encoding is the encoding of the number it stands for, bit for bit |
| Decimal128.FiniteLayout | thirdparty/libmongoc/bson/bson-decimal128.c:163-201 | the encoding of a finite number, as one 128-bit number: the sign times 2^127, the exponent plus 6176 times 2^113, and the significand |
| Decimal128.SpecialLayout | thirdparty/libmongoc/bson/bson-decimal128.c:33-39 | the encodings of infinities and NaN |
| Decimal128.SmallForm | thirdparty/libmongoc/bson/bson-decimal128.c:187-201 | what every encoding in the small form stands for; a significand of 10^34 or more stands for zero |
| Decimal128.LargeFormIsZero | thirdparty/libmongoc/bson/bson-decimal128.c:183-209 | every encoding in the large form stands for a zero with the exponent of its own field |
| Decimal128.SpecialForms | thirdparty/libmongoc/bson/bson-decimal128.c:171-183 | the five bits behind the sign tell infinities and NaN, whatever follows them |
| DecimalPrint.WriteNineDigits | thirdparty/libmongoc/bson/bson-decimal128.c:226-229 | nine array entries get exactly the nine zero-padded digits of a number below 10^9 |
| DecimalPrint.ExtractDigits | thirdparty/libmongoc/bson/bson-decimal128.c:214-231 | four passes leave the 36-entry array holding exactly the decimal expansion of any value below 10^36 |
| DecimalPrint.SkipLeadingZeros | thirdparty/libmongoc/bson/bson-decimal128.c:237-246 | what is left after the leading zeros is the shortest digit sequence of the value |
| DecimalPrint.SignificandDigits | thirdparty/libmongoc/bson/bson-decimal128.c:203-246 | for every significand: the shortest digits of the value below 2^113, and a single zero for 2^113 or more |
| DecimalToString.HalvesAgree | thirdparty/libmongoc/bson/bson-decimal128.c:167-201 | exponent and significand picked from 32-bit words are those of the 128-bit encoding, in the small and the large form |
| DecimalToString.WriteScientific | thirdparty/libmongoc/bson/bson-decimal128.c:258-272 | the scientific layout of up to 35 digits: those that fit in front of position 36, and the signed exponent of all of them |
| DecimalToString.WriteInteger | thirdparty/libmongoc/bson/bson-decimal128.c:275-279 | the layout without a point: exactly the digits, up to 35 of them |
| DecimalToString.WriteFractional | thirdparty/libmongoc/bson/bson-decimal128.c:280-305 | the layout with a point, inside the digits or in front of zeros and the digits; it needs a 44th byte exactly for a sign, five zeros and 35 digits |
| DecimalToString.ToString | thirdparty/libmongoc/bson/bson-decimal128.c:126-307 | for every encoding the buffer holds exactly the printed text and its terminator; 43 bytes are demanded, and one more only for an encoding that overruns them |
| DecimalLayout.Limits | thirdparty/libmongoc/bson/bson-decimal128.c:28-31 | the constants as numbers |
| DecimalLayout.PrintedText | thirdparty/libmongoc/bson/bson-decimal128.c:248-306 | the text of every finite encoding, put together from the usual way to write its significand, its adjusted exponent and the zeros behind the point; in the window too |
| DecimalLayout.ExponentIsPrinted | thirdparty/libmongoc/bson/bson-decimal128.c:258-272 | `E` occurs in the text if and only if the adjusted exponent is below -6 or the exponent is positive |
| DecimalLayout.IntegerLook | thirdparty/libmongoc/bson/bson-decimal128.c:275-279 | with exponent zero there are only digits behind the sign |
| DecimalLayout.PointLook | thirdparty/libmongoc/bson/bson-decimal128.c:280-305 | with a negative exponent and no `E` there is one point, with exactly so many digits behind it, and no needless zero in front of it |
| DecimalLayout.PrintedWords | thirdparty/libmongoc/bson/bson-decimal128.c:167-191 | `Infinity`, `-Infinity` and `NaN` are printed exactly for the infinities and NaN |
| DecimalRoundTrip.RenderedLength | thirdparty/libmongoc/bson/bson-decimal128.c:248-306 | the text the standard asks for never takes more than 43 bytes with its terminator |
| DecimalFromString.Istreq | thirdparty/libmongoc/bson/bson-decimal128.c:396-415 | true exactly for strings that are equal but for letter case |
| DecimalFromString.ReadDigits | thirdparty/libmongoc/bson/bson-decimal128.c:531-567 | scanning stops where the numeral stops, refuses a second point, counts correctly and stores the first 34 significant digits |
| DecimalFromString.TrimZeros | thirdparty/libmongoc/bson/bson-decimal128.c:613-616 | the number of significant digits left when trailing zeros are not counted |
| DecimalFromString.ShiftDown | thirdparty/libmongoc/bson/bson-decimal128.c:633-651 | a too large exponent comes down by appending zeros, exactly when they fit, or freely for zero |
| DecimalFromString.ShiftUp | thirdparty/libmongoc/bson/bson-decimal128.c:653-691 | a too small exponent, or too many digits, are brought into range exactly when only zeros are dropped, as far as the code looks |
| DecimalFromString.NormaliseExponent | thirdparty/libmongoc/bson/bson-decimal128.c:633-691 | both loops together; they let the last digit pass the 34th exactly when the digits and the exponent add up to one too many |
| DecimalFromString.EncodeSignificand | thirdparty/libmongoc/bson/bson-decimal128.c:711-749 | the two 17-digit halves, the product and its carry give the exact value of the digits |
| DecimalFromString.Pack | thirdparty/libmongoc/bson/bson-decimal128.c:752-770 | sign, exponent and significand land in their fields in either form |
| DecimalFromString.PackedIsCanonical | thirdparty/libmongoc/bson/bson-decimal128.c:752-770 | a significand below 10^34 never needs the large form; the result is the canonical encoding |
| DecimalFromString.ReadSpecial | thirdparty/libmongoc/bson/bson-decimal128.c:516-529 | infinity and NaN in any letter case, everything else refused |
| DecimalFromString.FinishNumber | thirdparty/libmongoc/bson/bson-decimal128.c:598-773 | everything after the scan: accepted or refused as the numeral demands, and encoded |
| DecimalFromString.FromString | thirdparty/libmongoc/bson/bson-decimal128.c:475-773 | true exactly for the texts that have a meaning, and then the result is the encoding of that meaning, else NaN; for all texts but those for which the code reads past its digits |
| DecimalGrammar.SignInFront | thirdparty/libmongoc/bson/bson-decimal128.c:511-514 | for every text without a sign: a plus sign in front of it changes nothing, and a minus sign changes the sign of a number and nothing else |
| DecimalGrammar.NumeralWhen | thirdparty/libmongoc/bson/bson-decimal128.c:511-596 | a text is scanned as a numeral if and only if it is an optional sign, digits with at most one point among them, and nothing or `e` or `E` with an integer |
| DecimalGrammar.NumeralParts | thirdparty/libmongoc/bson/bson-decimal128.c:531-592 | the digits in front of and behind the point and the written exponent, with its sign, are what the scan finds |
| DecimalGrammar.NumeralWithoutExponent | thirdparty/libmongoc/bson/bson-decimal128.c:531-573 | the same for a numeral that ends behind its digits |
| DecimalGrammar.DigitCharacters | thirdparty/libmongoc/bson/bson-decimal128.c:531-551 | the digit that a character stands for |
| DecimalGrammar.LengthBehindSignificand | thirdparty/libmongoc/bson/bson-decimal128.c:531-596 | a length that does not cut the digits changes nothing, even if it ends inside the exponent |
| DecimalGrammar.LengthCuts | thirdparty/libmongoc/bson/bson-decimal128.c:531-596 | a length that ends the digits cuts the text there unless an exponent follows |
| DecimalGrammar.LengthZero | thirdparty/libmongoc/bson/bson-decimal128.c:531-611 | a text that starts like a numeral is read as zero when its length is zero |
| DecimalGrammar.WordsWhen | thirdparty/libmongoc/bson/bson-decimal128.c:516-529 | of all texts that do not start like a numeral, exactly `inf`, `infinity` and `nan` in any letter case have a meaning |
| DecimalRoundTrip.PrintThenParse | thirdparty/libmongoc/bson/bson-decimal128.c:125-307 | for every representable number, in every layout, parsing the printed text gives the number back |
| DecimalWindow.RoundTrip | thirdparty/libmongoc/bson/bson-decimal128.c:125-307 | for every encoding: the printed text is the one of the number it stands for, and its meaning is that number, if and only if the significand is not in the window; the text is within the domain of the parser but for negative encodings in the window with exponent 6111; canonical encodings come back bit for bit |
| DecimalWindow.DomainOfWindow | thirdparty/libmongoc/bson/bson-decimal128.c:258-272 | in the window, the printed text makes the parser read past its digits exactly for a minus sign and exponent 6111 |
| DecimalWindow.RoomNeeded | thirdparty/libmongoc/bson/bson-decimal128.c:248-306 | 43 bytes hold the printed text and its terminator if and only if the number is not a negative one in the window with exponent -40; 44 bytes always do |
| DecimalWindow.LaidLength | thirdparty/libmongoc/bson/bson-decimal128.c:258-305 | the length of the text of 35 digits in every layout |
| DecimalCounterexamples.MinusTen34Overruns | thirdparty/libmongoc/bson/bson-decimal128.c:280-305 | an encoding of zero whose printed text fills all 43 bytes |
| DecimalExact.NormaliseIsExact | thirdparty/libmongoc/bson/bson-decimal128.c:633-691 | exponent normalisation keeps the value if and only if the digits for which there is no room are zero |
| DecimalExact.ExactWhen | thirdparty/libmongoc/bson/bson-decimal128.c:598-770 | an accepted numeral is encoded with exactly the value of its text if and only if it is zero, or it was not clamped and all digits behind the first 34 significant ones are zero |
| DecimalExact.ExactUnlessClamped | thirdparty/libmongoc/bson/bson-decimal128.c:598-770 | without leading zeros, or with at most 34 digits behind them, exact if and only if zero or not clamped |
| DecimalExact.WhenClamped | thirdparty/libmongoc/bson/bson-decimal128.c:626-630 | the clamping branch is taken exactly for a non-negative exponent exceeded by more than 2^14 fraction digits |
| DecimalAcceptance.HasValueWhen | thirdparty/libmongoc/bson/bson-decimal128.c:633-691 | digits and an exponent have the value of some decimal128 number if and only if the digits that have no place, or that would put the exponent too low, are zeros, and appended zeros find a place |
| DecimalAcceptance.AcceptedWhen | thirdparty/libmongoc/bson/bson-decimal128.c:598-709 | every numeral: accepted if and only if it is zero, or its digits, with zeros for those behind the 34th and with the exponent the code works with (the written one, or -6176 when clamped), are representable and the two checks in the text find zeros where they look |
| DecimalAcceptance.AcceptedInReach | thirdparty/libmongoc/bson/bson-decimal128.c:598-709 | without leading zeros, or with at most 34 digits behind them: unless clamped, accepted if and only if zero, or some number has the value of the text and no point is in the way of a check; clamped, accepted if and only if there are at most 34 digits |
| DecimalAcceptance.RightInReach | thirdparty/libmongoc/bson/bson-decimal128.c:598-709 | the same numerals: exactly when acceptance agrees with representability of the value of the text, clamped or not |
| DecimalAcceptance.ClampedWhen | thirdparty/libmongoc/bson/bson-decimal128.c:626-709 | every clamped numeral, leading zeros or not: acceptance and its agreement with representability in terms of the digits, at exponent -6176 against the written one |
| DecimalAcceptance.AcceptedWithoutPoint | thirdparty/libmongoc/bson/bson-decimal128.c:598-709 | the same numerals without a point: never clamped, and accepted if and only if zero or some number has the value of the text |
| DecimalAcceptance.ExponentWhen | thirdparty/libmongoc/bson/bson-decimal128.c:598-709 | the exponent of every accepted number other than zero: the one of its last digit, less zeros appended and plus zeros dropped to get into range |
| DecimalAcceptance.TakenAsWritten | thirdparty/libmongoc/bson/bson-decimal128.c:598-770 | at most 34 digits with an exponent in range are taken exactly as they are written: digits, exponent and sign |
| DecimalAcceptance.ExponentOfZero | thirdparty/libmongoc/bson/bson-decimal128.c:633-691 | the exponent of every zero that is not clamped: brought into range, but an exponent below -2^31 wraps around and becomes the largest one |
| DecimalCounterexamples.LongFractionIsClamped | thirdparty/libmongoc/bson/bson-decimal128.c:626-630 | a family of accepted texts whose encoding has the wrong value because of the clamp |
| DecimalCounterexamples.LeadingZerosHideADigit | thirdparty/libmongoc/bson/bson-decimal128.c:666-673 | an accepted text with leading zeros that loses a non-zero digit |
| DecimalCounterexamples.PointIsRounded | thirdparty/libmongoc/bson/bson-decimal128.c:695-708 | a representable numeral that is refused because the point is taken for a rounded digit |
| DecimalCounterexamples.LeadingZeroShiftsTheCheck | thirdparty/libmongoc/bson/bson-decimal128.c:666-671 | a family of representable numerals with a leading zero that are refused |
| DecimalCounterexamples.PointBehindManyDigits | thirdparty/libmongoc/bson/bson-decimal128.c:666-671 | a family of representable numerals that are refused because a point stands behind 35 digits |
| DecimalCounterexamples.LongHundredIsRefused | thirdparty/libmongoc/bson/bson-decimal128.c:626-691 | a hundred, written with more than 2^14 zeros behind the point, is refused |
| DecimalCounterexamples.LongFractionIsNoNumber | thirdparty/libmongoc/bson/bson-decimal128.c:626-691 | a family of accepted texts whose value no decimal128 number has |
| DecimalCounterexamples.ReadsPastDigitsWhen | thirdparty/libmongoc/bson/bson-decimal128.c:633-651 | the numerals for which the 35th of 34 digits is read: those whose digits and exponent add up to 6146 |
| DecimalCounterexamples.OneE6145ReadsPastDigits | thirdparty/libmongoc/bson/bson-decimal128.c:633-651 | one of them |
| Sha1Laws.RoundConstants | thirdparty/libWebSockets/misc/sha-1.c:68-71 | the four constants are the square roots of 2, 3, 5 and 10 with 30 binary places, for twenty rounds each |
| Sha1Laws.InitialWords | thirdparty/libWebSockets/misc/sha-1.c:191-200 | the bytes of the initial hash value |
| Sha1Laws.RotationByOne | thirdparty/libWebSockets/misc/sha-1.c:78 | rotation by one, in terms of the upper bit and the other 31 |
| Sha1Laws.RotationByFive | thirdparty/libWebSockets/misc/sha-1.c:78 | rotation by five, in terms of the upper five bits and the others |
| Sha1Laws.RotationByThirty | thirdparty/libWebSockets/misc/sha-1.c:78 | rotation by thirty, in terms of the lower two bits and the others |
| Sha1Laws.ChooseBits | thirdparty/libWebSockets/misc/sha-1.c:73 | every bit of the first function is that of `y` or of `z`, as the bit of `x` says |
| Sha1Laws.MajorityWithFirst | thirdparty/libWebSockets/misc/sha-1.c:75 | where `x` has a bit, the third function has it exactly if one of the others has it |
| Sha1Laws.MajorityWithoutFirst | thirdparty/libWebSockets/misc/sha-1.c:75 | where `x` does not have it, exactly if both others have it |
| Sha1Laws.ParityBits | thirdparty/libWebSockets/misc/sha-1.c:74-76 | the second and fourth functions differ from each word by the difference of the other two |
| Sha1Laws.RoundMoves | thirdparty/libWebSockets/misc/sha-1.c:149-178 | which word goes where in a round, rotated by how much, and which of the three functions is used in which round |
| Sha1Laws.FirstWords | thirdparty/libWebSockets/misc/sha-1.c:109-145 | the first 16 words of the schedule are the bytes of the block, most significant first |
| Sha1Laws.FurtherWords | thirdparty/libWebSockets/misc/sha-1.c:149-178 | every later word is the words 3, 8, 14 and 16 places back, combined and rotated by one |
| Sha1Laws.RoundByRound | thirdparty/libWebSockets/misc/sha-1.c:149-178 | the rounds start from the old hash value, and each takes its own word of the schedule |
| Sha1Laws.CompressAdds | thirdparty/libWebSockets/misc/sha-1.c:180-184 | the words after eighty rounds are added to the old hash value, each to its own |
| Sha1Laws.ChainGrows | thirdparty/libWebSockets/misc/sha-1.c:236-259 | blocks are compressed one after the other, from the initial value on |
| Sha1Laws.PadShape | thirdparty/libWebSockets/misc/sha-1.c:202-234 | the padding is the byte 0x80, the fewest zeros that fill the last block, and the length in bits as a 64-bit number |
| Sha1Laws.DigestWords | thirdparty/libWebSockets/misc/sha-1.c:261-282 | the digest is the five words, most significant byte first |
| Sha1.ChooseAgrees | thirdparty/libWebSockets/misc/sha-1.c:73-76 | the first round function is the Ch function of section 4.1.1 of FIPS 180-4 |
| Sha1.MajorityAgrees | thirdparty/libWebSockets/misc/sha-1.c:73-76 | the third round function is the Maj function of section 4.1.1 of FIPS 180-4 |
| Sha1.LoadWords | thirdparty/libWebSockets/misc/sha-1.c:109-145 | the 16 words loaded from the block are the first 16 of the schedule |
| Sha1.NextWord | thirdparty/libWebSockets/misc/sha-1.c:149-178 | the expression over four circular slots is the next word of the 80-word schedule |
| Sha1.Slide | thirdparty/libWebSockets/misc/sha-1.c:149-178 | overwriting one slot keeps the window of the last 16 schedule words |
| Sha1.RoundBody | thirdparty/libWebSockets/misc/sha-1.c:149-178 | one round in place is one round of section 6.1.2 of FIPS 180-4 |
| Sha1.EightyRounds | thirdparty/libWebSockets/misc/sha-1.c:103-187 | the four loops over a 16-word circular schedule compute the 80 rounds of the standard |
| Sha1Context.Context.Step | thirdparty/libWebSockets/misc/sha-1.c:103-187 | a full block is compressed into the hash words and the block buffer is cleared |
| Sha1Context.Context.PutPad | thirdparty/libWebSockets/misc/sha-1.c:94-100 | one padding byte goes into the block, which is compressed when full |
| Sha1Context.Context.Loop | thirdparty/libWebSockets/misc/sha-1.c:236-259 | any input is absorbed; the whole new state is that of absorbing it byte by byte |
| Sha1Context.AnyChunks | thirdparty/libWebSockets/misc/sha-1.c:236-259 | feeding a message in any chunks gives the same state as feeding it at once |
| Sha1Context.RunIsFeed | thirdparty/libWebSockets/misc/sha-1.c:236-259 | copying a run and compressing at the end of the block is the same as byte by byte |
| Sha1Context.Context.Pad | thirdparty/libWebSockets/misc/sha-1.c:202-234 | padding appends 0x80, the right number of zeros, and the bit length in eight bytes |
| Sha1Context.PaddedMessage | thirdparty/libWebSockets/misc/sha-1.c:202-234 | absorbing a message and padding it hashes exactly the padded message of section 5.1.1 of FIPS 180-4, in whole blocks |
| Sha1Context.Context.Result | thirdparty/libWebSockets/misc/sha-1.c:261-282 | the 20 bytes of the digest are the five hash words, high byte first |
| Sha1Context.Sha1Digest | thirdparty/libWebSockets/misc/sha-1.c:289-298 | for every message below 2^64 bits the result is the FIPS 180-4 digest |
| Ring.LwsRing.constructor | thirdparty/libWebSockets/misc/lws-ring.c:25-47 | a new ring is empty, with the oldest tail at the head |
| Ring.LwsRing.GetCountFreeElements | thirdparty/libWebSockets/misc/lws-ring.c:67-94 | the number of elements that can be inserted, in both positions of head and oldest tail |
| Ring.LwsRing.GetCountWaitingElements | thirdparty/libWebSockets/misc/lws-ring.c:97-120 | the number of elements that a tail has waiting |
| Ring.LwsRing.FreePlusWaiting | thirdparty/libWebSockets/misc/lws-ring.c:67-120 | free and waiting elements are all but one slot, except exactly when a single one-byte slot is free |
| Ring.LwsRing.Insert | thirdparty/libWebSockets/misc/lws-ring.c:154-192 | exactly the first min(count, free) elements are appended to what every tail on the arc has waiting; nothing waiting is overwritten |
| Ring.LwsRing.CopyIn | thirdparty/libWebSockets/misc/lws-ring.c:170-190 | one or two copies write the source circularly at the head |
| Ring.LwsRing.Consume | thirdparty/libWebSockets/misc/lws-ring.c:195-248 | the first min(count, waiting) elements are copied out in order, and exactly the rest is still waiting at the new tail, which stays on the arc |
| Ring.LwsRing.ConsumeSingle | thirdparty/libWebSockets/misc/lws-ring.c:195-248 | the same with the ring's own tail, whose elements are then destroyed |
| Ring.LwsRing.GetElement | thirdparty/libWebSockets/misc/lws-ring.c:251-260 | nothing exactly when nothing waits, else the first waiting element, in one piece |
| Ring.LwsRing.UpdateOldestTail | thirdparty/libWebSockets/misc/lws-ring.c:263-275 | the elements between the old and the new oldest tail are destroyed once each, in order; the loop ends |
| Ring.LwsRing.DestroyOldest | thirdparty/libWebSockets/misc/lws-ring.c:263-275 | one turn destroys one element and brings the modular distance to the new tail down |
| Ring.LwsRing.Advance | thirdparty/libWebSockets/misc/lws-ring.c:263-275 | elements destroyed and waiting stay exactly those inserted, and no tail ahead is left behind |
| Ring.LwsRing.Slowest | thirdparty/libWebSockets/libwebsockets.h:6447-6460 | the tail found is that of a consumer with the most elements waiting |
| Ring.LwsRing.ConsumeAndUpdate | thirdparty/libWebSockets/libwebsockets.h:6434-6462 | all tails stay on the arc, the oldest tail is the slowest consumer's, and the consumer's waiting elements lose exactly the consumed ones |
| Ring.LwsRing.NextLinearInsertRange | thirdparty/libWebSockets/misc/lws-ring.c:123-145 | the free stretch up to the end of the buffer, and none exactly when nothing is free |
| Ring.LwsRing.BumpHead | thirdparty/libWebSockets/misc/lws-ring.c:148-151 | bytes written into the free stretch are appended to what every tail has waiting |
| Ring.LwsRing.Destroy | thirdparty/libWebSockets/misc/lws-ring.c:50-64 | after destroying the ring the elements destroyed are exactly the elements ever inserted, in order |
| RingLife.WholeLife | thirdparty/libWebSockets/misc/lws-ring.c:25-275 | from creation over any inserts, consumes and departures of consumers to destruction: the elements destroyed are exactly those that the queue model takes in on these events, in order |
| RingLife.OneEvent | thirdparty/libWebSockets/misc/lws-ring.c:153-275 | every event keeps the ring a mirror of the model: each consumer has exactly its queue waiting, and what was inserted is what the model took in |
| RingLife.LivedInOrder | thirdparty/libWebSockets/misc/lws-ring.c:153-275 | over every run the queue of each consumer is the end of the concatenation of all elements taken in |
| RingLife.LivedSteps | thirdparty/libWebSockets/misc/lws-ring.c:25-275 | a run of the model starts with empty queues and leaves no event out |
| RingLife.InsertStep | thirdparty/libWebSockets/misc/lws-ring.c:153-192 | an insert into the model takes the first elements, as many as fit beside the longest queue, and appends them to every queue |
| RingLife.ConsumeStep | thirdparty/libWebSockets/misc/lws-ring.c:195-248 | a consume drops so many elements from the front of one queue, or all there are, and leaves the other queues alone |
| RingLife.LeaveStep | thirdparty/libWebSockets/misc/lws-ring.c:263-275 | a consumer that leaves takes its queue with it and nothing else; the last one stays |
| RingLife.ElementAt | thirdparty/libWebSockets/misc/lws-ring.c:263-275 | the elements of a run of bytes are its consecutive parts of one element length |
| RingArcs.WriteAppends | thirdparty/libWebSockets/misc/lws-ring.c:170-190 | a circular write at the head leaves what a tail has waiting and appends to it |
| RingArcs.OldestMoves | thirdparty/libWebSockets/misc/lws-ring.c:263-275 | tails that are not behind the new oldest tail stay between it and the head |
| TruncatedSend.StepConserves | thirdparty/libWebSockets/core/output.c:27-195 | every write, drain or flush keeps: bytes on the socket, pending bytes and discarded bytes are the accepted bytes, in order |
| TruncatedSend.RunConserves | thirdparty/libWebSockets/core/output.c:27-195 | the same over every run of events with any socket outcomes |
| TruncatedSend.StreamIsConserved | thirdparty/libWebSockets/core/output.c:27-195 | from the start, until something is discarded, socket bytes and pending bytes are exactly what was accepted; the socket always saw a prefix |
| TruncatedSend.AcceptedIs | thirdparty/libWebSockets/core/output.c:27-195 | what was accepted is the data of the writes that were answered with their length, in order, if and only if no write was torn |
| TruncatedSend.TornWhen | thirdparty/libWebSockets/core/output.c:167-178 | exactly when a write is torn: with nothing pending, part of it goes out, the rest does not fit the old allocation, and there is no memory; it is answered with -1 |
| TruncatedSend.FirstWriteTorn | thirdparty/libWebSockets/core/output.c:167-178 | a run of one write that is torn |
| TruncatedSend.PendingGoesFirst | thirdparty/libWebSockets/core/output.c:59-73 | while bytes are pending no other write is accepted, and nothing gets between them |
| TruncatedSend.SocketTakes | thirdparty/libWebSockets/core/output.c:78-100 | how much a ready socket takes: the smallest of what it is ready for, what there is, and the limit plus 20 |
| TruncatedSend.RefusedWrite | thirdparty/libWebSockets/core/output.c:49-73 | a write is refused, and changes nothing, after another one without a writable event in between or while bytes are pending |
| TruncatedSend.EmptyWrite | thirdparty/libWebSockets/core/output.c:56-57 | a write of nothing is answered with zero and changes nothing |
| TruncatedSend.DiscardedWrite | thirdparty/libWebSockets/core/output.c:59-73 | while flushing with nothing left to flush, a write is answered with its length and goes nowhere |
| TruncatedSend.FreshWrite | thirdparty/libWebSockets/core/output.c:76-195 | any other write: exactly what goes out, what becomes pending, which answer is given, and when memory is the reason |
| TruncatedSend.WritableSocket | thirdparty/libWebSockets/core/service.c:54-92 | a writable event takes exactly what the socket takes off the pending bytes; without any, it lets the next write through |
| TruncatedSend.NextWriteGoesOut | thirdparty/libWebSockets/core/service.c:54-92 | after a writable event with nothing pending, the next write is answered with its length, and its bytes are on the wire or pending |
| TruncatedSend.Wsi.IssueRaw | thirdparty/libWebSockets/core/output.c:27-195 | a write, or the drain with the pending slice itself, does exactly one step of the state machine; the pending slice stays inside its allocation |
| TruncatedSend.Wsi.StashRemainder | thirdparty/libWebSockets/core/output.c:162-181 | the remainder of a short write becomes the pending slice, in the old allocation or a larger one, exactly unless a larger one cannot be had |
| TruncatedSend.Wsi.AdvancePending | thirdparty/libWebSockets/core/output.c:116-146 | the pending slice loses exactly what was sent; drained while flushing, the answer is negative |
| TruncatedSend.Wsi.HandlePollout | thirdparty/libWebSockets/core/service.c:54-92 | a writable socket drains pending bytes before anything else, as the state machine says |
| RxStream.StreamIsConserved | thirdparty/libWebSockets/core/service.c:351-433 | over every run of reads, uses and flow-control stops: bytes used, then bytes in hand, then the list, are exactly the bytes received |
| RxStream.RunConserves | thirdparty/libWebSockets/core/service.c:351-433 | the invariant behind it holds after every run that starts in it |
| RxStream.HandIsNext | thirdparty/libWebSockets/core/service.c:351-391 | what a read hands out is always exactly the next unused part of the stream |
| RxStream.ReadHands | thirdparty/libWebSockets/core/service.c:351-391 | a read hands out the first segment if there is one, else all that arrived, else the code of the socket; the limit of 1024 segments |
| RxStream.HandAfterRead | thirdparty/libWebSockets/core/service.c:351-391 | after a read that is not fatal the protocol has bytes in hand unless nothing arrived and nothing was kept or asked for |
| RxStream.ConsumeLeaves | thirdparty/libWebSockets/core/service.c:393-433 | what a consume leaves in the list: the unused rest of the first segment, or the unused rest of what arrived as a new one |
| RxStream.CacheKeeps | thirdparty/libWebSockets/core/service.c:272-303 | the three answers of flow control and the list that goes with each of them |
| RxStream.FatalWhenNotKept | thirdparty/libWebSockets/core/service.c:351-433 | exactly when a step is fatal: a read finds bytes in the list and no memory or 1024 segments, or bytes of the socket that were not used find no memory |
| RxStream.BytesCanBeLost | thirdparty/libWebSockets/core/service.c:351-391 | runs from the start that end in the loss of bytes: with memory when 1024 reads were left unused, without memory at the second |
| RxStream.UseDrops | thirdparty/libWebSockets/core/libwebsockets.c:1037-1052 | using bytes of the first segment drops exactly them from the front of the stream and leaves no empty segment |
| RxFlow.Buflist.FindLast | thirdparty/libWebSockets/core/libwebsockets.c:951-958 | the walk finds the last segment, and gives up exactly for lists of 1024 segments or more |
| RxFlow.Buflist.AppendSegment | thirdparty/libWebSockets/core/libwebsockets.c:939-979 | a segment is linked at the end; the answer is 1 exactly for the first one and negative exactly when there is none |
| RxFlow.Buflist.DestroySegment | thirdparty/libWebSockets/core/libwebsockets.c:981-992 | the first segment goes; the answer tells whether it was the last |
| RxFlow.Buflist.NextSegmentLen | thirdparty/libWebSockets/core/libwebsockets.c:1009-1035 | the unread bytes of the first segment, none exactly for an empty list |
| RxFlow.Buflist.UseSegment | thirdparty/libWebSockets/core/libwebsockets.c:1037-1052 | bytes of the first segment are used up, and a used-up segment goes; the answer is zero exactly when the list is empty |
| RxFlow.Connection.BuflistAwareRead | thirdparty/libWebSockets/core/service.c:351-391 | the read step, and: this and every other connection is on the pending list exactly when its buflist is not empty |
| RxFlow.Connection.BuflistAwareConsume | thirdparty/libWebSockets/core/service.c:393-433 | the consume step, with the same list invariant for all connections |
| RxFlow.Connection.RxflowCache | thirdparty/libWebSockets/core/service.c:272-303 | bytes not yet used are kept, or are already in the first segment, with the same list invariant |
| DllList.List.AddFront | thirdparty/libWebSockets/core/libwebsockets.c:175-190 | a node not on the list becomes the first; one on it stays where it is; all links agree |
| DllList.List.Remove | thirdparty/libWebSockets/core/libwebsockets.c:220-243 | the node is off the list and its pointers are null; the others keep their order; all links agree |
| DllList.List.LinkAt | thirdparty/libWebSockets/core/libwebsockets.c:312-339 | linking in front of or behind a node puts the new node at that place; all links agree |
| Timers.TimerList.FindPlace | thirdparty/libWebSockets/core/libwebsockets.c:299-311 | the walk stops at the first timer that is not earlier, or behind the last one |
| Timers.TimerList.SetTimerUsecs | thirdparty/libWebSockets/core/libwebsockets.c:279-342 | arm, re-arm and cancel keep a well-formed list, sorted by deadline, every connection on it at most once; the others keep their order |
| Timers.TimerList.Service | thirdparty/libWebSockets/core/libwebsockets.c:350-396 | exactly the expired prefix fires, in order; what is left lies in the future, sorted; the wait is to the next deadline, zero when it has passed, and the no-wait constant for an empty list |
| Timers.TimerList.ServiceOne | thirdparty/libWebSockets/core/libwebsockets.c:362-383 | the successor saved before a callback is still the right place to go on after it, even if the callback re-armed its own timer |
| Timers.Rearmed | thirdparty/libWebSockets/core/libwebsockets.c:362-383 | a timer that re-arms itself in the future lands behind every expired one |
| Timers.SavedNext | thirdparty/libWebSockets/core/libwebsockets.c:362-383 | the saved successor is the next expired timer, or still on the list |
| Timers.PlacedAt | thirdparty/libWebSockets/core/libwebsockets.c:299-339 | what stands in front of a newly armed timer is earlier, what stands behind it is not, and the others keep their order |
| Timers.ServiceMeans | thirdparty/libWebSockets/core/libwebsockets.c:362-383 | timer by timer: fired exactly if expired; after that on the list exactly if it re-armed itself, with the deadline it asked for; any other keeps place and deadline |
| FdTable.PerThread.InsertWsiSocketIntoFds | thirdparty/libWebSockets/core/pollfd.c:228-289 | refused exactly when the table is full or the descriptor too high; else the connection takes the next slot, and table and index agree |
| FdTable.PerThread.RemoveWsiSocketFromFds | thirdparty/libWebSockets/core/pollfd.c:291-374 | the last slot moves into the vacant one, the index loses one entry, and table and index agree, also when the last slot itself is removed |
| FdTable.PerThread.NoFdTwice | thirdparty/libWebSockets/core/pollfd.c:228-374 | no descriptor is in two slots, and the index leads from a slot's descriptor to a connection that knows the slot |
| FdTable.SwapRemoveKeeps | thirdparty/libWebSockets/core/pollfd.c:332-353 | the swap loses exactly the removed connection |
| FdTable.PerThread.CloseAt | thirdparty/libWebSockets/core/context.c:1862-1874 | a slot's connection is closed exactly when it belongs to the vhost |
| FdTable.PerThread.CloseVhost | thirdparty/libWebSockets/core/context.c:1862-1874 | the loop over a table that changes under it ends, closes every connection of the vhost once, and no other |
| Utf8.Validator.CheckUtf8 | thirdparty/libWebSockets/core/libwebsockets.c:2280-2335 | the bytes are taken one after the other by the table; a refusal leaves the state as it was |
| Utf8.OneByte | thirdparty/libWebSockets/core/libwebsockets.c:2310-2330 | one step of the table keeps exactly the continuations that the grammar of section 4 of RFC 3629 allows |
| Utf8.InPieces | thirdparty/libWebSockets/core/libwebsockets.c:2280-2335 | splitting the input into two calls changes nothing |
| Utf8.AnySplit | thirdparty/libWebSockets/core/libwebsockets.c:2280-2335 | neither does any other split |
| Utf8.AcceptsPrefixes | thirdparty/libWebSockets/core/libwebsockets.c:2280-2335 | accepted are exactly the beginnings of well-formed texts |
| Utf8.EndsOnBoundary | thirdparty/libWebSockets/core/libwebsockets.c:2280-2335 | the final state is zero exactly for well-formed texts |
| Utf8.ValidatesUtf8 | thirdparty/libWebSockets/core/libwebsockets.c:2280-2335 | both statements for any split into calls |
| Utf8.CharWhen | thirdparty/libWebSockets/core/libwebsockets.c:2281-2335 | the grammar has exactly the bytes of the Unicode scalar values as section 3 of RFC 3629 lays out their bits: no surrogate, nothing above 0x10ffff, shortest form only |
| Utf8.AcceptsExactlyUnicode | thirdparty/libWebSockets/core/libwebsockets.c:2280-2335 | from the start, over any split, the validator ends between characters exactly on the bytes of texts of such characters |
| UrlCodec.UrlEncode | thirdparty/libWebSockets/core/libwebsockets.c:2743-2771 | the buffer holds the whole encoding of a beginning of the string and the terminator, within the length; bytes behind it are untouched |
| UrlCodec.WrittenIsEncoded | thirdparty/libWebSockets/core/libwebsockets.c:2743-2771 | what is written is the encoding of whole characters: no escape is cut |
| UrlCodec.WrittenFits | thirdparty/libWebSockets/core/libwebsockets.c:2743-2771 | for every length of at least 1 there is room for the terminator |
| UrlCodec.TakenIs | thirdparty/libWebSockets/core/libwebsockets.c:2743-2771 | encoding goes on exactly as long as an escape and the terminator would fit |
| UrlCodec.EscapeWhen | thirdparty/libWebSockets/core/libwebsockets.c:2750-2764 | a space becomes a plus, letters and digits stay, and every other byte becomes a percent sign and its two upper-case hexadecimal digits |
| UrlCodec.EncodedCharacters | thirdparty/libWebSockets/core/libwebsockets.c:2750-2764 | every byte of an encoding is a plus, a percent sign, a letter or a digit |
| UrlCodec.PlainText | thirdparty/libWebSockets/core/libwebsockets.c:2755-2758 | a text of letters and digits is its own encoding |
| UrlCodec.EncodedAppend | thirdparty/libWebSockets/core/libwebsockets.c:2747-2766 | the encoding of two texts one behind the other is that of the first and that of the second |
| UrlCodec.UrlDecode | thirdparty/libWebSockets/core/libwebsockets.c:2773-2820 | success exactly when no escape is malformed within the room; then the buffer holds the decoded bytes and the terminator, also in place, and for a negative length without limit |
| UrlCodec.HexDigitsWhen | thirdparty/libWebSockets/core/libwebsockets.c:77-89 | the value of the digits in either letter case, and none for any other character |
| UrlCodec.DecodesPlain | thirdparty/libWebSockets/core/libwebsockets.c:2779-2795 | any character but a percent sign stands for itself, but a plus stands for a space |
| UrlCodec.DecodesPair | thirdparty/libWebSockets/core/libwebsockets.c:2796-2813 | two digits behind a percent sign are a byte, and anything else there is refused |
| UrlCodec.DecodesEnd | thirdparty/libWebSockets/core/libwebsockets.c:2773-2820 | an escape that is cut at the end of the text is dropped, unless it is malformed already |
| UrlCodec.DecodeEncoded | thirdparty/libWebSockets/core/libwebsockets.c:2743-2820 | decoding the encoding of any string gives it back, as far as there is room |
| UrlCodec.UrlRoundTrip | thirdparty/libWebSockets/core/libwebsockets.c:2743-2820 | decoding what was encoded never fails and gives a beginning of the string; all of it exactly when neither buffer was short |
| Base64.EncodeString | thirdparty/libWebSockets/misc/base64-decode.c:52-93 | the encoding and its terminator, exactly when the buffer has two bytes more than the encoding |
| Base64.Alphabets | thirdparty/libWebSockets/misc/base64-decode.c:45-48 | the 64 characters of both alphabets; they differ in the last two only |
| Base64.EncodedShape | thirdparty/libWebSockets/misc/base64-decode.c:62-85 | three bytes are four characters; what is left is padded to four |
| Base64.SextetsConcatenate | thirdparty/libWebSockets/misc/base64-decode.c:76-81 | the four sextets one behind the other are the three bytes one behind the other |
| Base64.LookUp | thirdparty/libWebSockets/misc/base64-decode.c:129-138 | the decoding table gives every character of both alphabets its value, and none to any other |
| Base64.SkipInvalid | thirdparty/libWebSockets/misc/base64-decode.c:126-139 | the inner loop stops behind the next character that has a value, or at the end |
| Base64.DecodeString | thirdparty/libWebSockets/misc/base64-decode.c:115-177 | count, bytes and terminator for every input, counted or NUL-terminated, whatever the uninitialised quad held |
| Base64.ValueWhen | thirdparty/libWebSockets/misc/base64-decode.c:49-50 | the value of every character in either alphabet, and of no other |
| Base64.DecodeWhen | thirdparty/libWebSockets/misc/base64-decode.c:115-177 | what the decoder does with every text but those that end in junk within a group, from the values of its characters alone: bytes, count and when there is no room |
| Base64.SameValuesSameBytes | thirdparty/libWebSockets/misc/base64-decode.c:115-177 | an encoding without its padding, or with other characters in between, decodes to the same bytes |
| Base64.GroupDecodes | thirdparty/libWebSockets/misc/base64-decode.c:115-177 | a group of one, two or three bytes, padded or not, decodes to its bytes |
| Base64.DecodeInterleaved | thirdparty/libWebSockets/misc/base64-decode.c:115-177 | decoding an encoding gives the bytes back exactly when they fit with two bytes to spare, with characters of neither alphabet put in front of any character |
| Base64.Base64RoundTrip | thirdparty/libWebSockets/misc/base64-decode.c:52-177 | for both alphabets, every byte string comes back with its length |
| Base64.OutputIsDetermined | thirdparty/libWebSockets/misc/base64-decode.c:115-177 | the answer is the same whatever the uninitialised quad held, if and only if the text does not end in junk after one to three digits |
| Base64.CutEncodingsAreDetermined | thirdparty/libWebSockets/misc/base64-decode.c:115-177 | an encoding, cut anywhere, never uses an unread digit |
| Base64.CountIsLength | thirdparty/libWebSockets/misc/base64-decode.c:158-176 | the answer is the number of bytes written if and only if no padding character ends a text without a group to pad; else it is one less |
| Base64.OnlyPadding | thirdparty/libWebSockets/misc/base64-decode.c:158-176 | a padding character alone is answered with -1, whatever the room |

## Left out

- DecimalFromString.FromString: requires that the text is shorter than 0x7fff0000 characters, that the written exponent fits an `int`, and that the code does not read past its digits (`ReadsPastDigits`); beyond that C defines no behaviour.
- DecimalFromString.FinishNumber: requires the same.
- DecimalExact.ExactUnlessClamped: a special case of `ExactWhen` for inputs without hidden digits.
- Sha1Context.Sha1Digest: messages of 2^64 bits or more are outside the standard and the model.
- Sha1Context.Context.Step: the word view of the block union is an array of its own; byte order is that of a little-endian machine.
- Ring.LwsRing.constructor: sizes are unbounded products in the model, kept below 2^31 by the precondition; allocation failure is not modelled.
- Ring.LwsRing.BumpHead: the source takes any number of bytes; the model asks for whole elements in the free stretch, without which head and tails no longer lie on element boundaries.
- TruncatedSend.Wsi.IssueRaw: datagram sockets are not modelled; a pointer into another allocation counts as outside the pending one.
- TruncatedSend.Wsi.AdvancePending: the answer of a deferred HTTP transaction, which replaces the count of bytes, is not modelled.
- RxFlow.Buflist.AppendSegment: the comparison of a list pointer with its own address cannot be expressed; the allocation's outcome is a parameter.
- RxFlow.Buflist.NextSegmentLen: the branch for a first segment of length zero is left out, since segments are never empty when appended.
- RxFlow.Connection.RxflowCache: the pointer comparison with the first segment is a parameter; a stop while the protocol works on bytes from the list is not an event of `RxStream.Run`, because the code leaves them where they are.
- RxStream.StreamIsConserved: covers flow-control stops only while the protocol holds bytes from the socket, for the same reason.
- Timers.TimerList.Service: a callback leaves other connections' timers alone and re-arms its own, if at all, later than the service time; the deadline field of each connection is a map from its list node.
- Timers.TimerList.ServiceOne: makes the same assumption about callbacks.
- FdTable.PerThread.InsertWsiSocketIntoFds: the operating system hands out a descriptor that is not in the table; locking callbacks, external polling and accept modulation are no-ops.
- FdTable.PerThread.CloseVhost: closing a connection does to the table just what its removal does.
- Base64.EncodeString: the input is a value that cannot overlap the output; lengths do not wrap around.
- Base64.DecodeString: lengths do not wrap around; the uninitialised quad is a parameter.
- `sscanf("%d%n")` is modelled as reading optional white space, a sign and decimal digits.
- Reference counting, locks, logging, sockets, TLS, clocks and event loops: outcomes are parameters or are absent; the build has a single service thread.
- `lws_ring_dump`, `lws_dll_dump`, `lws_buflist_describe`: they only log.
- The application code of the repository (SIP, RTSP, Lua, HTTP): plumbing over libraries that are not part of it.
