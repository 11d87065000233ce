# Proofs about ten commands of the tree

This project models the algorithmic cores of ten commands under `sys/src/cmd` and proves what they promise: `dc`
(arbitrary precision arithmetic), `aan` (a reliable channel over connections that break), `ed` (its temporary file and
its line table), `fplot` (an expression compiler), `ar` (the symbol table of an archive), `derp` (three-way comparison of
directory trees), `fcp` (copying by several processes), `col` (reverse line feeds), `factor` and `crc32`.

`dafny verify dfyconfig.toml` checks everything. File names begin with the command they are about.

Code that changes things step by step is modelled by classes and loops that change the same things: dc's blocks with
their read cursor, ed's two block buffers and its table, ar's chains, col's ring, the operator stack of fplot, the table
of crc32. Each of these methods is proved against a function or predicate over its inputs or the old state, and the
laws about those functions and predicates are separate lemmas. The two concurrent programs, aan and fcp, are state
machines whose steps are the atomic actions of their processes; results about them hold in every state of every run.

## How each command is modelled

**dc.** A block is a sequence of base 100 digits, least significant first, with the cursor `rd`; a number is a digit
string, or the hundred's complement of one with a top digit of -1. `Val` gives its value. `DcNumber` to `DcRoot` are the
kernel; `DcScaled`, `DcCommand` and `DcPower` put a scale byte on top of a number and prove the commands; `DcText` reads
and prints. `div` is proved in full generality. The trial digit is shown to be at most one off, so that temporary digits
stay within 117, which is what a `signed char` has room for; only the last step can leave a borrow or an unsubtracted
divisor, and the repairs and the carry pass make the result exact.

**aan.** Two symmetric endpoints. A connection is a FIFO of frames in each direction that can be cut at any frame, and
the two ends may hold different connections at the same time. Message numbers are unbounded in the machine; `AanWords`
then shows when the 32-bit comparisons of the code agree with them. Assumed: `synchronize` is atomic with respect to the
ack loop of `fromnet`; once a write fails on a connection, all later writes on it fail; the buffers start zeroed; a
connection does not break within a header. `AanHeader` says what fromnet makes of part of a header, and `AanTorn` adds
the step to the machine. A stale ack in a buffer that was queued while there was no connection (the refresh at
`sys/src/cmd/aan.c:216` is skipped) is part of the model, and so is that acks of timer messages are ignored.
`AanProgress` is about what every run can still come to.

**ed.** The temporary file is addressed in runes of four bytes. `EdStore` proves that the ibuff/obuff pair with the disk
behaves as one flat store; `EdTable` rearranges handles in place; `EdEdit` joins the two for append, t, m, d and the end of
g/re/d.

**fplot.** Tokens to postfix code by operator precedence, the static stack check, and the stack machine, with the
operator functions left uninterpreted. The operator table is the source's. `FpGrammar` says how text groups without the
parser's own test.

**ar.** Members and symbols go into three temp files whose members spill to disk at any point; the archive is a byte
sequence. `ArLoops` gives the loops of m, d and r, and `ArParts.Write` with `ArArchive` what the archive then is, symbol
table and all: for every command, pivot, list of names and pattern of spills. `ArPlaces` says by names and positions
where members stand.

**derp.** Directory trees with sorted listings; `samefile` and the comparison of file contents are an oracle.
`DerpLines` says of every path which lines there are for it.

**fcp.** One step for each system call or lock of a worker, with arbitrary short reads and writes, failures, and workers
that get no memory.

**col.** The ring of 256 half-lines is proved against a page of unbounded length.

**factor, crc32.** Integers for the doubles that hold them exactly; natural numbers with the bit operations spelt out
for 32-bit words. The words are also the polynomials of `Crc32Poly`.

## What the proofs brought to light

- dc, `removc`: dropping places of a complement rounds down. `KeptIsTruncation` gives the exact condition; `*` truncates
  nonnegative products, and `.05 * -.05` at scale 2 is `-.01`.
- dc, `removr`: when a dividend has fewer digits than are to be removed, the -1 that `sgetc` yields past the end is taken
  for a digit, as in `.0001 1 %` at scale 0.
- dc, `%`: the scale of the result is stored in a char without a test. With a scale register of 99 and a divisor of 40
  places it is -117, and from 100 to 127 the result would be printed as a string. `%` leaves the remainder that belongs to
  `/` if and only if its scale is at most 99 when no places are removed, and otherwise the dividend has at least half as
  many digits of base 100 as places are removed.
- dc, `k`: the command takes -1, and `/` then leaves a scale of -1, which is no number; `*`, `%` and `v` do not mind.
- dc, `^`: the scale is taken from the low four decimal digits of the exponent, so that `.5 10000 ^` leaves the integer 5 to
  the power of 10000. `PowerIsRight` says exactly when the result is the power truncated.
- dc, `dcexp`: a base spelled as the single digit -1 with a negative exponent would be its own result, whatever the parity;
  but that branch is dead, as `^` makes the exponent positive before and `scale` passes one that is not negative.
- dc, `dcprint`: every zero is printed as `0`, so that `0.00` loses its places, and the sign it prints is the command that
  subtracts. `RoundTrip` gives the exact condition for a printed number to come back when it is read.
- dc, `tenot`: the last branch on `sc == 1` is never reached.
- aan, `fromnet`: a header that breaks off after 1 to 11 bytes is completed with the bytes of the one before. The stream
  ends early when, for instance, a timer header is cut after four bytes that follow a message of five. `TornStops` says
  exactly when; `TornDelivery` shows that what was delivered is a prefix all the same.
- aan: the test that tells an end of stream from a timer message fails exactly when the number of messages is a multiple
  of 2^32, and the ack test when an ack is more than 2^31 messages old.
- ed, `getblock`: the mask on the offset clears less than a rune, so a handle with its mark bit set loses the first rune
  of its line. The copies made by `t` are the lines exactly when no addressed line is marked.
- ed, `putline`: when a line does not fit into the temporary file, the block it began in has left obuff. A later, shorter
  line is then put into what obuff holds, and the lines of that block are lost, unless a line of it has been read last, so
  that it is in ibuff, or no line reaches into it. `PutLine` states this for any sequence of lines put and read,
  and `LineLost` loses a line so.
- ed, `global`: `v/x/d` on an empty file marks the slot before the first line, which never matches, and deletes it; dol and
  dot then lie before the beginning of the table.
- ar: d with the name of the symbol table itself leaves the archive without one, but only when it is given as `__.SYMDEF`;
  any other path with that last element deletes nothing but a table that install writes anew.
- fplot: operators may stand before or behind both of their operands: `x x +` and `+ x x` mean `x + x`.
- fplot: the table's row for `min` holds the function of `max`.
- fcp: a worker without memory exits like one that is done, so when no worker gets a buffer the copy succeeds with nothing
  copied. Otherwise success means the file was copied, each byte once.
- factor: the root of a negative argument is not a number, so the loop over the wheel never ends. Only the arguments of the
  command can be negative; lines of the input end the program when they are not positive.
- col: a line is stored only when the paper moves off it, so text after the last line feed is not printed.

## Model

| member | source | states |
|---|---|---|
| DcNumber.SignOfNumber | sys/src/cmd/dc.c:1396-1428 | a stored number is negative exactly when its top digit is the complement mark |
| DcNumber.ZeroIsEmpty | sys/src/cmd/dc.c:832-836 | a number in normal form is zero exactly when it has no digits, which is how the code tests for zero |
| DcBlock.Blk.AlterC | sys/src/cmd/dc.c:38-40 | overwrites under the cursor, or appends when the cursor is at the write end, and moves on |
| DcBlock.Blk.SeekC | sys/src/cmd/dc.c:2148-2175 | the cursor goes to n; digits below are kept, whatever lies between is taken in |
| DcBlock.Blk.More | sys/src/cmd/dc.c:2191-2218 | a full block is doubled with its contents and cursor kept |
| DcArith.ChSign | sys/src/cmd/dc.c:1396-1428 | in place negation of every stored number, result again a stored number, in normal form when the operand was, or was one shifted by add0 |
| DcArith.Add | sys/src/cmd/dc.c:1764-1811 | the exact sum of two stored numbers of any length and sign, in normal form |
| DcArith.StripNines | sys/src/cmd/dc.c:1800-1809 | shortening a complement [.., 99, 99, -1] keeps its value |
| DcArith.AddMultiple | sys/src/cmd/dc.c:1366-1384 | a pass of mult adds one digit times the multiplicand, shifted, and keeps all digits in 0..99 |
| DcArith.Mult | sys/src/cmd/dc.c:1338-1393 | the exact signed product, normal when the operands are |
| DcArith.ProductTop | sys/src/cmd/dc.c:1338-1393 | a product of normal magnitudes has no superfluous top digit |
| DcArith.Add0 | sys/src/cmd/dc.c:1315-1335 | exact multiplication by 10^ct for every ct |
| DcTrial.LeadApproximates | sys/src/cmd/dc.c:857-866 | the leading digits bound a digit string from below to within one unit |
| DcTrial.GuessIsGood | sys/src/cmd/dc.c:857-887 | the trial digit is within one of the true digit, never above it before the last step, for plain and for small leading divisor digits, and fits a signed char |
| DcDivide.DivisionUnique | sys/src/cmd/dc.c:820-977 | quotient and remainder are determined by dividend = q * divisor + rem, size and sign of rem |
| DcDivide.DivisorKey | sys/src/cmd/dc.c:857-866 | the estimate of the divisor is that of its two or three leading digits |
| DcDivide.TrialDigit | sys/src/cmd/dc.c:868-887 | the digit guessed is the one GuessIsGood is about, and `under` tells whether it was lowered |
| DcDivide.MultiplyDivisor | sys/src/cmd/dc.c:888-896 | divxyz becomes digit times divisor, digits 0..99 below a top digit within the limit |
| DcDivide.SubtractProduct | sys/src/cmd/dc.c:897-910 | the shifted product is subtracted in place, wrapping with a carry exactly when the top digit goes negative |
| DcDivide.InnerStep | sys/src/cmd/dc.c:867-922 | before the last step no borrow is left, what remains is below the limit times the next shifted divisor, and dividend = remainder + divisor * quotient so far |
| DcDivide.LastStep | sys/src/cmd/dc.c:867-922 | after the last step the remainder is off by at most one divisor, upwards only when the digit was lowered, downwards only with a borrow |
| DcDivide.DivideDigit | sys/src/cmd/dc.c:867-922 | one pass of the loop keeps the division invariant and stores the digit |
| DcDivide.Repair | sys/src/cmd/dc.c:923-942 | the two repairs of the last digit leave an exact quotient with a remainder in 0..divisor-1 |
| DcDivide.CarryPass | sys/src/cmd/dc.c:944-955 | over-large quotient digits are carried so that all are in 0..99 and the value is kept |
| DcDivide.Div | sys/src/cmd/dc.c:820-977 | for every dividend and nonzero divisor of any length and sign, dividend = q * divisor + rem, abs(rem) below abs(divisor), rem zero or signed like the dividend; a zero divisor gives no remainder |
| DcRoot.Seed | sys/src/cmd/dc.c:1070-1090 | the starting value squares to more than the operand |
| DcRoot.NewtonStep | sys/src/cmd/dc.c:1091-1110 | from above the root a step either descends and stays above the floor root, or the root has been found |
| DcRoot.DcSqrt | sys/src/cmd/dc.c:1065-1115 | terminates with the floor of the square root of every positive number |
| DcRoot.Halve | sys/src/cmd/dc.c:1137-1141 | division of the exponent by two, with its parity |
| DcRoot.PowerLoop | sys/src/cmd/dc.c:1123-1152 | base to the power of every nonnegative exponent, exactly |
| DcRoot.DcExp | sys/src/cmd/dc.c:1118-1172 | the power, and for negative exponents zero or the base itself when it is one digit 1 or -1 |
| DcScaled.RemovC | sys/src/cmd/dc.c:1844-1864 | what is left when n places are dropped: the truncated quotient by 10^n, or one less exactly when DropsWrongly says so |
| DcScaled.KeptIsTruncation | sys/src/cmd/dc.c:1844-1864 | dropping places truncates if and only if no nonzero digits of a complement are dropped, or a division by ten absorbs them; otherwise the result is one lower |
| DcScaled.DropsByValue | sys/src/cmd/dc.c:1844-1864 | whether that happens depends on nothing but the value and the number of places |
| DcScaled.RemovR | sys/src/cmd/dc.c:1018-1062 | the quotient by 10^n is truncated; the places removed are right if and only if the operand has at least n / 2 digits |
| DcCommand.EqK | sys/src/cmd/dc.c:1814-1841 | both operands are brought to the larger scale without changing their values |
| DcCommand.Plus | sys/src/cmd/dc.c:240-244 | the sum of two decimals is exact, at the larger scale |
| DcCommand.Minus | sys/src/cmd/dc.c:1895-1907 | the difference of two decimals is exact, at the larger scale |
| DcCommand.Times | sys/src/cmd/dc.c:245-267 | the scale of a product, and its mantissa for operands of any sign and every scale register: the exact product, truncated to that scale or one lower in the cases of RoundsDown |
| DcCommand.NegativeProductRoundsDown | sys/src/cmd/dc.c:245-267 | .05 times -.05 keeps two places as -.01 |
| DcCommand.DScale | sys/src/cmd/dc.c:980-1015 | the dividend is shifted so that the quotient has k places; places dropped go to irem |
| DcCommand.ScaledQuotient | sys/src/cmd/dc.c:268-276 | the quotient of the shifted mantissas is that of the decimals, truncated to k places |
| DcCommand.Slash | sys/src/cmd/dc.c:268-276 | the quotient of two decimals rounded towards zero to k places, which is a number if and only if k is not -1; nothing for a zero divisor |
| DcCommand.Percent | sys/src/cmd/dc.c:277-294 | the result is a number, the dividend minus the quotient of / times the divisor, if and only if its scale is at most 99 and the dividend has enough digits for the places removed |
| DcCommand.PercentIsLeftOver | sys/src/cmd/dc.c:268-294 | the law of division between % and / in decimal values, whatever scale the result has |
| DcCommand.ScaleOverflows | sys/src/cmd/dc.c:284-288 | 5 % 1 at scale 99 with a divisor of 40 places leaves the scale byte -117, so no number |
| DcCommand.SmallDividendLosesRemainder | sys/src/cmd/dc.c:1018-1062 | .0001 % 1 at scale 0 collects the digits 1 and -1 |
| DcCommand.SquareRoot | sys/src/cmd/dc.c:295-317 | the square root of a decimal rounded down to the larger of k and the operand's scale; nothing for a negative operand |
| DcText.Scale | sys/src/cmd/dc.c:1877-1892 | an integer read with n digits after the point in any base becomes the decimal of n places, truncated |
| DcText.TakeChar | sys/src/cmd/dc.c:1268-1298 | a character either ends the number or moves the reader as its automaton says |
| DcText.ReadIn | sys/src/cmd/dc.c:1260-1309 | stops at the first character that cannot continue the number, with its value and scale |
| DcText.DigitsAreRead | sys/src/cmd/dc.c:1268-1298 | digits are read as the value of their places, in any base |
| DcText.PlacesAreRead | sys/src/cmd/dc.c:1268-1298 | with a point among them they are the same number, and the digits behind it are counted |
| DcText.StopsOnce | sys/src/cmd/dc.c:1260-1309 | there is one place only where reading can stop |
| DcText.TenOut | sys/src/cmd/dc.c:1621-1668 | the text of a magnitude, folded lines included, is one that the reader takes in as that number |
| DcText.DcPrint | sys/src/cmd/dc.c:1493-1526 | every zero is written as a plain one; any other number as a line of its magnitude, behind a sign when it is negative |
| DcText.RoundTrip | sys/src/cmd/dc.c:1260-1309 | what dcprint has written of a number, followed by anything, is read back with its value and its places if and only if the number is positive, or a zero without places |
| DcText.ZeroLosesPlaces | sys/src/cmd/dc.c:1509-1513 | the number 0.00 is printed as 0 and does not come back |
| DcText.Underscore | sys/src/cmd/dc.c:230-236 | the number that stands behind the command, with its sign turned |
| DcText.NegativeRoundTrip | sys/src/cmd/dc.c:230-236 | a printed negative number comes back with its places when the command _ is given what follows its sign |
| DcPower.TakeExponent | sys/src/cmd/dc.c:320-333 | exponents are taken if and only if they have no decimal places and at most four digits of base 100, and lose their sign |
| DcPower.PowerScale | sys/src/cmd/dc.c:337-344 | the scale is that of the base times the exponent modulo 10000 |
| DcPower.ScalePower | sys/src/cmd/dc.c:347-358 | places beyond the larger of k and the base's are dropped, so that the scale always is one |
| DcPower.Caret | sys/src/cmd/dc.c:319-371 | scale and mantissa of the power for operands of any sign and every scale register; one divided by it for a negative exponent; when there is only a message |
| DcPower.PowerIsRight | sys/src/cmd/dc.c:337-358 | the result is the power of the decimals, truncated, if and only if dropping places does not round a negative power down, and the exponent is below 10000, or the base has no places, or nothing is left after those dropped |
| DcPower.LongPowerLosesScale | sys/src/cmd/dc.c:337-344 | with a multiple of 10000 as the exponent the power is left as an integer |
| AanSafety.AckIsSafe | sys/src/cmd/aan.c:323-337 | an ack that the peer could have sent never runs past what has been sent |
| AanSafety.ReceiveIsSafe | sys/src/cmd/aan.c:323-337 | the ack loop neither waits for ever nor meets a buffer out of place, so the exit "bug" is unreachable |
| AanSafety.StepKeeps | sys/src/cmd/aan.c:172-232 | every step of either endpoint keeps the invariant of the pair |
| AanSafety.ReliableDelivery | sys/src/cmd/aan.c:239-343 | given that headers arrive whole or not at all, in every state of every run what a client was given is a prefix of what the other supplied; a side stopped by an empty message has delivered everything |
| AanProgress.EverythingArrives | sys/src/cmd/aan.c:172-343 | every run in which neither endpoint has finished can go on so that the peer's client is given all that this client has supplied |
| AanProgress.BuffersComeBack | sys/src/cmd/aan.c:323-337 | and, if the peer can still send a message, so that no buffer of this endpoint waits for an ack |
| AanProgress.NothingOnTheWayIsLost | sys/src/cmd/aan.c:172-343 | in a run in which no connection fails, the messages delivered, held and still on the connection are, in order, all that have been written |
| AanProgress.LogIsInput | sys/src/cmd/aan.c:239-256 | in every run the messages of an endpoint are what its client has supplied |
| AanHeader.WholeHeader | sys/src/cmd/aan.c:294-305 | on a whole header fromnet stops exactly for the end of the stream |
| AanHeader.TornStops | sys/src/cmd/aan.c:279-305 | fromnet stops on a header that broke off after k bytes, although the stream does not end, over any header already in the buffer, exactly in the cases of StopsFalsely: never from eight bytes on, from four on only for a timer message, and before that when the length pieced together from two headers is too large, or zero under a number |
| AanHeader.TornTimerStops | sys/src/cmd/aan.c:279-305 | a timer header that breaks off after four bytes ends the stream |
| AanTorn.StepKeepsTorn | sys/src/cmd/aan.c:272-316 | every step of the machine in which connections break within headers keeps its invariant |
| AanTorn.TornNeverStuck | sys/src/cmd/aan.c:323-337 | there, too, fromnet can do any step it is offered without a hitch |
| AanTorn.TornDelivery | sys/src/cmd/aan.c:272-343 | in every state of every run in which connections may break within headers, what was delivered is a prefix of the stream; an endpoint that has stopped has delivered all of it unless a torn header misled it |
| AanTorn.MisledExactly | sys/src/cmd/aan.c:279-305 | an endpoint is misled at a step if and only if it reads a header torn off a message that is not empty, in one of the cases of StopsFalsely |
| AanTorn.StoppedAtOnce | sys/src/cmd/aan.c:279-305 | a run in which an endpoint stops before the stream has begun |
| AanSafety.NeverStuck | sys/src/cmd/aan.c:155-156 | in every state of every run the ten buffers are partitioned, unacked is consecutive from lastacked, and the peer's inmsg lies within it |
| AanWords.NumberTestAgrees | sys/src/cmd/aan.c:317-320 | in every run, for either endpoint, the 32-bit test of the message number agrees with the unbounded one |
| AanWords.AckTestAgrees | sys/src/cmd/aan.c:323-326 | the signed 32-bit ack test agrees if and only if the ack is ahead or at most 2^31 old modulo 2^32 |
| AanWords.AckTestInRuns | sys/src/cmd/aan.c:323-326 | in every run, for either endpoint, the ack test agrees while at most 2^31 messages are acknowledged |
| AanWords.EndTestInRuns | sys/src/cmd/aan.c:296-315 | in every run, for either endpoint, an end of stream is told from a timer message unless the stream's length is a multiple of 2^32 |
| AanEndpoint.Endpoint.FromClient | sys/src/cmd/aan.c:239-256 | a round of fromclient is the machine's steps of taking and queueing a buffer |
| AanEndpoint.Endpoint.AckLoop | sys/src/cmd/aan.c:323-337 | the loop ends well exactly when the machine calls the ack safe, and then does its step |
| AanEndpoint.Endpoint.Synchronize | sys/src/cmd/aan.c:392-411 | every unacked buffer is written again in order and ends up queued as before |
| EdStore.TempFile.GetBlock | sys/src/cmd/ed.c:1044-1076 | which buffer a block is found in, what goes to disk, and when there is no block |
| EdStore.TempFile.PutLine | sys/src/cmd/ed.c:1005-1032 | a line up to its newline joins the store under a fresh even handle exactly when it fits; all earlier lines stay, also after lines that did not fit, when the block of tline is beyond the file, in a buffer, or reached by no line, and else exactly those that end before that block; ibuff keeps its block |
| EdStore.TempFile.FirstBlock | sys/src/cmd/ed.c:1012-1013 | which of the lines stored are left by the first getblock of a put |
| EdStore.BlockReplaced | sys/src/cmd/ed.c:1072-1075 | obuff, full of a line that broke off, taken for the block of tline: exactly the lines that end before that block are left |
| EdStore.LineLost | sys/src/cmd/ed.c:1005-1032 | a line that is stored no longer stands after two puts: of a line that runs over the end of the file, from a block before the last into which the stored line reaches, and of one that fits |
| EdStore.BeforeTheLoss | sys/src/cmd/ed.c:1005-1032 | a new file comes to such a state by puts, with the two lines that it takes |
| EdStore.TempFile.GetLine | sys/src/cmd/ed.c:985-1002 | reading a handle yields the line stored under it, across any block boundaries, changes nothing stored, and leaves a block of the line in ibuff, or the one that was there |
| EdStore.TempFile.GetMarkedLine | sys/src/cmd/ed.c:1052-1052 | reading a marked handle yields the line without its first rune |
| EdStore.LinesKept | sys/src/cmd/ed.c:1044-1076 | lines below the write position survive everything written beyond it |
| EdStore.LineAdded | sys/src/cmd/ed.c:1030-1030 | the next handle is even, and lies in the block of the line's end or the next |
| EdTable.ThreeTurns | sys/src/cmd/ed.c:1356-1372 | three reversals exchange two neighbouring ranges |
| EdTable.MovedBlock | sys/src/cmd/ed.c:1334-1374 | after a move the block stands directly after its target, dot is its last line, all other lines keep their order |
| EdTable.LineTable.Reverse | sys/src/cmd/ed.c:1377-1388 | the entries of a range are turned round in place, the others kept |
| EdTable.LineTable.Move | sys/src/cmd/ed.c:1334-1374 | the addressed lines lose their marks and move after the target, or stay when the target is one of them; dot |
| EdTable.LineTable.Place | sys/src/cmd/ed.c:1356-1372 | the part common to m and t, for targets above, below and inside the block |
| EdTable.LineTable.RDelete | sys/src/cmd/ed.c:944-960 | exactly the addressed lines go, and dot |
| EdTable.LineTable.Compact | sys/src/cmd/ed.c:963-977 | stable in place compaction |
| EdTable.LineTable.GDelete | sys/src/cmd/ed.c:963-982 | exactly the unmarked entries remain, in order, and dot; the table is one if and only if any entry remains |
| EdTable.LineTable.MarkLines | sys/src/cmd/ed.c:1130-1134 | global marks exactly the entries selected; the slot before the first line never matches |
| EdTable.LineTable.GlobalDelete | sys/src/cmd/ed.c:1130-1142 | after g/re/d or v/re/d the table is one of exactly the lines not selected if and only if the file is not empty or the command is not v |
| EdTable.EmptyFileLosesSlot | sys/src/cmd/ed.c:1130-1142 | v/x/d on an empty file keeps nothing, not even the slot before the first line |
| EdTable.LineTable.Insert | sys/src/cmd/ed.c:836-841 | a handle goes in after dot, the others keep their order |
| EdTable.LineTable.Grow | sys/src/cmd/ed.c:819-833 | growth moves the table with its contents |
| EdEdit.CopiesAreLines | sys/src/cmd/ed.c:1391-1397 | the copies that t makes are the lines if and only if no addressed entry is marked |
| EdEdit.AppendedText | sys/src/cmd/ed.c:812-843 | what the lines of the file are after appending behind any line |
| EdEdit.Editor.Append | sys/src/cmd/ed.c:812-843 | from every state in which a put is harmless, lines read in stand after the addressed line in order, all others kept, dot at the last, also when the table moves; when one does not fit, those before it stand there |
| EdEdit.Editor.Transfer | sys/src/cmd/ed.c:1342-1374 | copies of the addressed lines stand directly after the target, the lines of the file are otherwise unchanged, dot at the last copy; when one does not fit, those before it stand at the end |
| EdEdit.TextMoved | sys/src/cmd/ed.c:1334-1374 | what the lines of the file are after entries have moved, marked or not |
| EdEdit.Editor.Move | sys/src/cmd/ed.c:1334-1374 | after m the lines stand directly behind the target, all others in order, dot at the last; a target among them changes no line |
| EdEdit.Editor.Delete | sys/src/cmd/ed.c:944-960 | exactly the addressed lines of the file go |
| EdEdit.TextKept | sys/src/cmd/ed.c:963-982 | the lines of the entries that are kept are the unmarked lines |
| EdEdit.Editor.DeleteMarked | sys/src/cmd/ed.c:963-982 | exactly the lines with marked entries go, the others keep their order, if and only if the slot before them is not marked |
| EdEdit.Editor.GlobalDelete | sys/src/cmd/ed.c:1130-1142 | exactly the selected lines of the file go, the others keep their order, if and only if the file is not empty or the command is not v |
| FpParse.Parser.Parse | sys/src/cmd/fplot.c:252-303 | the parser computes Compile and leaves the operator stack empty for the next function |
| FpParse.Parser.TakeOperator | sys/src/cmd/fplot.c:274-281 | the popping loop of a binary operator |
| FpMeaning.PopsBefore | sys/src/cmd/fplot.c:274-281 | all that waits at the end of an operand is applied before an operator that closes it |
| FpMeaning.CompilesToPostfix | sys/src/cmd/fplot.c:252-303 | every expression with the parentheses that precedence and associativity call for compiles to its postfix form |
| FpMeaning.CompilesMinimalText | sys/src/cmd/fplot.c:252-303 | every expression tree written with as few parentheses as that compiles to its postfix form |
| FpMeaning.BareTextMeansGrouped | sys/src/cmd/fplot.c:252-303 | a tree written without parentheses compiles to its postfix form if and only if precedence and associativity call for none |
| FpGrammar.GroupedIsGrammar | sys/src/cmd/fplot.c:71-100 | over the operators of the table the parser groups as a grammar of tiers does: max and min loosest, then + and -, then *, / and %, then ^ from the right, unary operators tightest |
| FpGrammar.GrammarCompiles | sys/src/cmd/fplot.c:252-303 | every expression of that grammar compiles to its postfix form |
| FpGrammar.BareTextIsGrammar | sys/src/cmd/fplot.c:252-303 | a tree without parentheses compiles to its postfix form if and only if it is one of that grammar |
| FpGrammar.FirstGroups | sys/src/cmd/fplot.c:274-281 | of two operators the first takes the operand between them when it is of a higher tier, or of the same one but ^ |
| FpGrammar.SecondGroups | sys/src/cmd/fplot.c:274-281 | otherwise the second does |
| FpGrammar.MinusGroupsLeft | sys/src/cmd/fplot.c:274-281 | l - m - r compiles as (l - m) - r |
| FpGrammar.PowerGroupsRight | sys/src/cmd/fplot.c:274-281 | l ^ m ^ r compiles as l ^ (m ^ r) |
| FpGrammar.MinusSubtracts | sys/src/cmd/fplot.c:252-355 | text, code and machine together take the values of m and r from that of l |
| FpMeaning.AcceptsBalanced | sys/src/cmd/fplot.c:284-303 | parse accepts a token list if and only if its parentheses balance |
| FpAccept.AcceptsInTime | sys/src/cmd/fplot.c:252-333 | parse and calcstack accept a token list if and only if its parentheses balance, it has one operand more than binary operators, and at no point have operators been applied that lack operands among the tokens so far |
| FpAccept.SumsInAnyOrder | sys/src/cmd/fplot.c:252-333 | x x + and + x x compile to the code of x + x |
| FpCalc.CalcStack | sys/src/cmd/fplot.c:306-333 | the loop computes the check of the code as a whole |
| FpCalc.AcceptsExpressions | sys/src/cmd/fplot.c:306-333 | calcstack returns d if and only if the code is the postfix form of an expression of depth d |
| FpCalc.TreeValue | sys/src/cmd/fplot.c:336-355 | the code of an expression adds its value to the stack and nothing else |
| FpCalc.HeightsAreValues | sys/src/cmd/fplot.c:306-355 | the stack is as high as calcstack counts, and never higher than it returns |
| FpCalc.MaxIsReached | sys/src/cmd/fplot.c:306-355 | the stack does become as high as calcstack returns, so no smaller one would do |
| FpCalc.Calc | sys/src/cmd/fplot.c:336-355 | on accepted code the machine stays within the depth calcstack returned and yields the value of the expression |
| FpCalc.ParseFns | sys/src/cmd/fplot.c:651-665 | one stack suffices for all functions and is as large as one of them needs; failure exactly when one is refused |
| FpCalc.TextMeansTree | sys/src/cmd/fplot.c:252-355 | text, code, check and machine together compute the value of every expression |
| FpCalc.MinIsMax | sys/src/cmd/fplot.c:78-79 | min means max |
| ArFile.ImageAtStart | sys/src/cmd/ar.c:1086-1129 | at a member's start its header and contents are found |
| ArFile.Arfile.Enter | sys/src/cmd/ar.c:560-586 | a symbol recorded points at the start of the member inserted next |
| ArFile.Arfile.Insert | sys/src/cmd/ar.c:755-767 | a member joins the chain, the size counts its padded bytes, all symbols still point home |
| ArFile.Arfile.Page | sys/src/cmd/ar.c:1135-1157 | spilling the first member changes nothing about the file as a whole |
| ArFile.Arfile.Stream | sys/src/cmd/ar.c:1086-1111 | what is streamed is all members in order, spilled or not |
| Le32.ReadsBack | sys/src/cmd/ar.c:872-876 | a number is read back from its four bytes modulo 2^32, so it is itself if and only if it is below |
| ArInstall.WrSym | sys/src/cmd/ar.c:866-881 | the bytes of a chain of symbols |
| ArInstall.EntryWritten | sys/src/cmd/ar.c:866-881 | each symbol has its entry in those bytes |
| ArInstall.SymSizeIsLength | sys/src/cmd/ar.c:582-582 | what objsym counts is what wrsym writes |
| ArInstall.HeaderSize | sys/src/cmd/ar.c:826-841 | the size of the table is read back from its header |
| ArCommand.Archiver.ObjSym | sys/src/cmd/ar.c:560-586 | text and data symbols are recorded but for repeated text symbols, and the size kept up |
| ArCommand.Archiver.ScanObj | sys/src/cmd/ar.c:519-554 | the symbols of the file scanned are recorded unless something else than an object was seen |
| ArCommand.Archiver.GetSpace | sys/src/cmd/ar.c:1165-1174 | spilling keeps everything |
| ArCommand.Archiver.Add | sys/src/cmd/ar.c:720-767 | a member with its symbols goes to the end of any file, with any spills before and in between |
| ArCommand.Archiver.Install | sys/src/cmd/ar.c:784-860 | the bytes of the archive; none when a text symbol of an object archive came twice |
| ArCommand.Archiver.TableFills | sys/src/cmd/ar.c:826-860 | the size in the table's header equals the bytes up to the first member, padding included |
| ArCommand.Archiver.EntriesPointHome | sys/src/cmd/ar.c:818-881 | every entry carries the offset in the archive of the member defining its symbol |
| ArCommand.Archiver.NoneIsMissing | sys/src/cmd/ar.c:560-586 | unless a text symbol came twice every text and data symbol has its entry |
| ArArchive.TableOfSum | sys/src/cmd/ar.c:845-856 | the tables of two runs of members, the second moved on by the size of the first, are the table of both |
| ArArchive.OffsetsFindMembers | sys/src/cmd/ar.c:866-881 | in a finished archive at the offset of every entry a member stands that defines the symbol, and the four bytes in the archive give that offset if and only if it is below 2^32 |
| ArArchive.Finish | sys/src/cmd/ar.c:784-860 | install writes the archive of the members in the three files, with a table that lists all their text and data symbols and nothing else |
| ArParts.Match | sys/src/cmd/ar.c:887-903 | a name on the command line is used up by the first member that answers to it |
| ArParts.BaMatch | sys/src/cmd/ar.c:909-933 | the split is at the pivot, or after it, or nowhere |
| ArParts.Send | sys/src/cmd/ar.c:720-767 | a member goes to the end of one file with its symbols, whatever is spilled meanwhile |
| ArParts.Write | sys/src/cmd/ar.c:784-860 | after any of the loops the archive is that of the members they sent; there is none if and only if all are objects and a text symbol came twice |
| ArLoops.MCmd | sys/src/cmd/ar.c:408-449 | what m sends where: named members to the middle, the others before or behind the split; nothing without names |
| ArLoops.NoneLost | sys/src/cmd/ar.c:423-444 | m loses no member and doubles none, but for a symbol table at the head |
| ArLoops.DCmd | sys/src/cmd/ar.c:314-340 | what d sends: the members that no argument answers to; no table when it was deleted by its name; nothing without names |
| ArLoops.OthersRemain | sys/src/cmd/ar.c:324-337 | after d the others remain in order, and every argument used up has taken exactly one member |
| ArLoops.RCmd | sys/src/cmd/ar.c:223-311 | what r sends: every member old or replaced, on its side of the split, and then the new files |
| ArLoops.NewAtSplit | sys/src/cmd/ar.c:239-306 | after r the members stand where they stood, and the new ones together at the split, or at the end |
| ArPlaces.AddedAtPivot | sys/src/cmd/ar.c:223-306 | r puts new members directly behind the pivot under a, directly in front of it under b, and at the end otherwise |
| ArPlaces.AddedAtEnd | sys/src/cmd/ar.c:223-306 | and at the end when there is no such member |
| ArPlaces.MovedToPivot | sys/src/cmd/ar.c:423-444 | the same for the members that m moves, the others in order around them |
| ArPlaces.MovedToEnd | sys/src/cmd/ar.c:423-444 | and at the end when there is no such member |
| ArPlaces.FilesAreIn | sys/src/cmd/ar.c:239-306 | after r every file named that can be opened is in the archive, under u if it is newer than the members of its name |
| ArPlaces.OthersAreKept | sys/src/cmd/ar.c:250-270 | a member is kept as it is when no argument names it, the file cannot be opened, or under u it is no newer |
| ArPlaces.DeletedByName | sys/src/cmd/ar.c:324-337 | d leaves exactly the members that are not named, in order |
| DerpModel.NamesAreAll | sys/src/cmd/derp.c:272-329 | the names of the merge are those of either listing |
| DerpModel.NamesIncrease | sys/src/cmd/derp.c:272-329 | they come in increasing order, each once |
| DerpDiff.Seek | sys/src/cmd/derp.c:286-294 | the cursor that never goes back finds the ancestor's entry exactly when there is one |
| DerpDiff.FindAncestor | sys/src/cmd/derp.c:281-318 | the ancestor's entry under the next name, also where one of the sides stands in for the ancestor |
| DerpDiff.DiffDir | sys/src/cmd/derp.c:240-337 | every name on either side is compared once, with the right entries of mine, yours and the ancestor |
| DerpDiff.DiffGen | sys/src/cmd/derp.c:340-447 | the lines printed for a whole tree |
| DerpLaws.GenTurned | sys/src/cmd/derp.c:340-447 | with dcmp an equivalence, swapping mine and yours turns every verdict round over whole trees |
| DerpLaws.SteadySide | sys/src/cmd/derp.c:340-447 | when mine is as the ancestor was, every line of a whole tree is na, nm or nd |
| DerpLaws.SteadyYours | sys/src/cmd/derp.c:340-447 | when yours is, every line is an, mn or dn |
| DerpLines.LinesAreDue | sys/src/cmd/derp.c:240-447 | the lines for a path are exactly those due for the entries found along it in the three trees: by what was added, modified or deleted on either side, and a conflict for both; for every path along which no file has become a directory or the other way round |
| DerpLines.ThreeFiles | sys/src/cmd/derp.c:396-432 | three plain files give nothing, mn, nm or a conflict, by which of them are alike |
| DerpLines.NoDifferenceIsSilent | sys/src/cmd/derp.c:340-447 | entries that differ, and are not both directories, always have a line, whatever the types are |
| DerpLines.TypeChangeIsTwoLines | sys/src/cmd/derp.c:399-414 | an entry to which one side has given another type is deleted and added there |
| DerpLines.ConflictExactly | sys/src/cmd/derp.c:340-447 | a conflict is reported at a path if and only if all three entries differ, and either a side is gone and the others are plain, or both are there and not both directories |
| Fcp.StepKeeps | sys/src/cmd/fcp.c:198-247 | every step of every worker keeps the invariant: parts apart, each byte owed, untouched or copied |
| Fcp.NeverTwice | sys/src/cmd/fcp.c:198-247 | in every state of every run a byte has been written at most once, with the source's value |
| Fcp.SuccessMeansCopied | sys/src/cmd/fcp.c:158-234 | when copy1 succeeds the destination is the source, each byte written once, if and only if the file is empty or some worker had memory |
| Fcp.CopyCanSucceed | sys/src/cmd/fcp.c:158-247 | every run in which no worker has failed can go on so that copy1 succeeds with the file copied, if a worker has memory or has not asked for it |
| Col.Ring.Incr | sys/src/cmd/col.c:271-286 | the ring does what the unbounded page does, printing the line whose slot it needs |
| Col.Ring.Decr | sys/src/cmd/col.c:289-295 | the same backwards, within the ring |
| Col.Ring.Emit | sys/src/cmd/col.c:227-243 | the paper is moved to the half-line of the text |
| Col.Ring.Flush | sys/src/cmd/col.c:145-150 | what the ring still holds is printed in order |
| Col.Col | sys/src/cmd/col.c:64-151 | with a ring of 256 half-lines the output is that of a page of any length |
| Col.LinesIncrease | sys/src/cmd/col.c:145-150 | half-lines come out in increasing order with their last stored contents |
| Col.LinesComplete | sys/src/cmd/col.c:145-150 | no half-line with text is left out |
| Col.PageIsTyped | sys/src/cmd/col.c:271-295 | every half-line holds what was last made of it while the paper stood there |
| Col.LastTextIsLost | sys/src/cmd/col.c:145-150 | col prints every half-line with its final text if and only if at the end the current one holds what was last stored of it |
| Col.LoneTextIsLost | sys/src/cmd/col.c:145-150 | a text without a newline comes out empty |
| Factor.WheelVisits | sys/src/cmd/factor.c:7-14 | a step of the wheel goes to the next number coprime to 210, in every turn |
| Factor.Skipped | sys/src/cmd/factor.c:7-14 | the numbers passed over divide nothing that 2, 3, 5 and 7 do not |
| Factor.RestIsPrime | sys/src/cmd/factor.c:87-94 | what is left when d is past the root by one is 1 or a prime |
| Factor.WheelLoop | sys/src/cmd/factor.c:77-92 | the loop ends, and all numbers up to d have been tried |
| Factor.FactorEnds | sys/src/cmd/factor.c:49-92 | the loop over the wheel is left after some number of steps, or not begun, if and only if the argument is not negative |
| Factor.Factor | sys/src/cmd/factor.c:49-96 | the factors printed are primes in order and multiply to n |
| Crc32.FeedAtOnce | sys/src/cmd/crc32.c:15-21 | feeding bits one at a time is feeding them at once before as many shifts |
| Crc32.TableStep | sys/src/cmd/crc32.c:33-33 | a step through the table is a byte fed bit by bit, for every polynomial |
| Crc32.DoTable | sys/src/cmd/crc32.c:10-24 | the table holds eight shifts of every byte |
| Crc32.Calc | sys/src/cmd/crc32.c:27-35 | the table driven register is the bit serial one for every message |
| Crc32.Sum | sys/src/cmd/crc32.c:38-57 | the check of a file does not depend on how reads cut it up |
| Crc32.StaysWord | sys/src/cmd/crc32.c:27-35 | the register never outgrows 32 bits |
| Crc32Poly.RegisterIsRemainder | sys/src/cmd/crc32.c:15-35 | mirrored, the register is the one remainder of the message times x^32, with the start value added at its beginning, by the polynomial, over the field of two elements |
| Crc32Poly.OneByteIsFound | sys/src/cmd/crc32.c:27-35 | messages that differ in the bits of one byte have different checks when poly has its top bit |

## Left out

- dc: registers, arrays, the stack and its commands, shell escapes, printing of strings and in other bases than ten; the
  operands of a command are taken to be distinct blocks, and the input base not zero.
- dc: allocation failures; growth of a block is modelled, its memory is not.
- DcText.ReadIn: at the end of the input there is no result, as readc then ends the program.
- aan: dialing, alarms, system logging, and fairness: `AanProgress` says what a run can still come to, not that it will.
  One-way traffic stops after ten messages because acks of timer messages are ignored.
- aan: the main loop, fromclient and fromnet are steps of a state machine; three of the loops inside them are also given as code.
- ed: regular expressions (which lines match is an oracle), substitution, addresses, terminal input, interrupts, and failures of the disk itself.
- EdStore.TempFile.GetMarkedLine: a marked entry of an empty line is excluded, as getline would read past the end of that
  line, into whatever a buffer held there before.
- EdEdit.Editor.Append: begins where a line can be put without harm to others, as one can until a line has not fitted; what
  a put does to stored lines elsewhere is stated by EdStore.TempFile.PutLine.
- EdEdit.CopiesAreLines: the same as for GetMarkedLine.
- EdEdit.Editor.Transfer: the same as for CopiesAreLines; and it begins where every line has fitted so far, as reading a line
  may take the block out of ibuff that makes a put harmless.
- fplot: the scanner, drawing, and what the operators compute.
- fplot: memory for code is a sequence; its growth in steps of 32 is not modelled.
- ar: object file formats, dates and modes, the contents of the pad byte after a member of odd length, the q, t, p and x
  commands, and a file whose stat fails after it has been opened.
- ArParts.Write: the size of the symbol table is taken to fit the ten digits of its field, as it does for any `long`.
- ArCommand.Archiver.Duplicate: the hash table of names is a set.
- ArCommand.Archiver.Install: the second and third temp file exist always; one that is nil in the source holds no members.
- derp: reading directories and files, path names as text, and errors while reading.
- DerpDiff.DiffGen: holds for every oracle; samefile is one that takes an entry and itself for the same.
- DerpLines.LinesAreDue: entries that samefile takes for the same are taken to be the same in all that is below them.
- DerpLines.ConflictExactly: the same.
- DerpLaws.GenTurned: dcmp is taken to be an equivalence, which with options that compare modes or owners depends on the file server.
- fcp: file modes, directories, and the creation of processes; the source does not change during the copy.
- col: the overstriking editor of outc and the compression of blanks in emit; a line is whatever string outc has made.
- Factor.Factor: says nothing of negative arguments, for which FactorEnds shows that there is no end.
- factor: rounding of doubles; numbers are those a double holds exactly, and comparing d with the root plus one is done on squares.
- crc32: reading, and the printing of the result.
