# Tinyweb and echod, verified models

Dafny models of two small C servers and proofs about them. `echod` is a threaded echo server; `tinyweb` is
a forking HTTP/1.1 file server. Both stand on the same retrying socket layer. `dafny verify dfyconfig.toml`
checks the whole project.

## What is modelled

* **The thread pool of echod** (`ThreadPool.dfy`). One counter, one mutex, one condition variable. Each
  program point at which another thread may run is a program counter, and each atomic action a step; a run
  is any sequence of enabled steps, spurious wakeups, interrupted accepts and failed thread creations
  included. The program gives up a slot for good when accept is interrupted, when accept or an allocation
  fails, and when pthread_create fails. The model counts those slots by cause, which makes the theorems
  exact: a count of what was lost takes the place of an assumption that nothing is. Class `Process` is the
  same state updated in place.
* **The socket layer and the echo loop** (`SocketIo.dfy`). The operating system is an arbitrary finite
  script of outcomes, one per system call. When it is used up, every further call fails.
* **The request parser** (`Regex.dfy`, `Tokenizer.dfy`, `RequestLine.dfy`, `RangeHeader.dfy`, `Decimal.dfy`,
  `RequestParser.dfy`). Each regular expression is given as a language, with POSIX's longest match, and
  scanners are proved equal to it. strtok is a class that writes NULs into the buffer and keeps a cursor.
* **Responses** (`BodyCopy.dfy`, `Response.dfy`, `Wire.dfy`, `ContentType.dfy`, `ClientHandler.dfy`,
  `EndToEnd.dfy`). The header is built as the program builds it, buffer sizes included, and read back by an
  independent client (`Wire.ReadMessage`), so that what is announced, what is sent and what is logged can be
  compared. `EndToEnd.dfy` goes from the text of a request to what the client reads.
* **Two process-level protocols** (`Reaper.dfy`, `LogSemaphore.dfy`). Reaping children in a SIGCHLD handler
  with coalescing signals, and the named semaphore around the log.

Integers are those of the machine where it matters: digit positions and values wrap at 32 bits, sizes are
converted to `int` as the code converts them, and a negative end becomes a `size_t`. Overflow of a signed
`int` is undefined in C; it is modelled as two's complement, together with the exact condition (more than
nine digits) under which it happens. `int` has four bytes and `long long` eight. The signal handler
installed with `signal` stays installed and its signal is blocked while it runs.

## What the code does not do

Where the code falls short of what its documentation or tests promise, the code is modelled as it is, with
a concrete input, a reachable state or an exact condition.

* README.txt:12-14 says that validation by regular expression makes strtok safe. The expressions also admit
  tabs as separators, and strtok splits only at spaces (`TokensAreThePartsIff`, `TabsAreAcceptedButNotSplit`).
* `pe/tinyweb/t/04range.t:124-139` expects Content-Length and Content-Range of every range response. The
  buffers hold four and twelve digits (`OpenRangeRequest`); beyond twelve the body itself cannot be found.
* An explicit end is taken for the position after the last byte, the header announces the rest of the file
  in any case, and the copy goes on to the end of a chunk; so the response can be relied on only when the
  end asked for is the size of the file (`ExplicitEndAlwaysAgreesIff`). With an end beyond the file the
  response never ends (`ExplicitRangeEndsIff`).
* A redirection whose path has 987 characters or more, and any 200 for a file of nine digits or more, lose
  the end of a field, and the one after it with it (`RedirectRead`, `FullFraming`).
* HEAD is answered with a body exactly when it has a satisfiable Range line with a start inside the file
  (`HeadRangeRequest`).
* A short write of the body loses the rest of its chunk, since the file position has moved past it. A full
  response or an open range then runs for ever (`DoneIffTakesAll`); a copy to an earlier end can still end,
  and with the wrong bytes, as long as the file has enough bytes behind that end (`LossPossibleIff`).
* The log records the size of a body whether it is sent or not (`LogAgreesIff`).
* Interrupted accepts use up the slots of echod until it deadlocks (`DeadlockIsReachable`, `DeadlockIff`).
* A failed `sem_wait` lets two processes write to the log at once, unless a post was lost for it
  (`ExclusionBreaksIff`, `FailedWaitBreaksExclusion`).

`EndToEnd.dfy` ends with requests, as texts, that show these failures one by one (`HeadIsSentBody`,
`ExplicitEndIsNotFramed`, `EndBeyondFileNeverEnds`, `LongOpenRangeIsNotFramed`).

## Model

| member | source | states |
|---|---|---|
| ThreadPool.StepKeepsInv | echod/echod.c:144-182 | every step of every thread, spurious wakeups included, keeps the mutex, slot, wakeup and termination invariants together |
| ThreadPool.AcceptorStepKeepsInv | echod/echod.c:149-154 | the `==` test against the limit never lets the acceptor pass it, because the count cannot already be above it |
| ThreadPool.SlaveStepKeepsSlots | echod/echod.c:228-233 | a slave's decrement gives back exactly the slot it held |
| ThreadPool.SlaveStepKeepsWakeups | echod/echod.c:228-233 | a slave that leaves without signalling leaves no waiting acceptor behind with a slot free |
| ThreadPool.SlotConservation | echod/echod.c:149-180 | in every reachable state num_active = slots of slaves that have not decremented + the acceptor's reservation + leaked slots, between 0 and the limit; leaked slots reduce how many clients can be served |
| ThreadPool.MutualExclusion | echod/echod.c:149-154 | in every reachable state at most one thread is between lock and unlock |
| ThreadPool.NoLostWakeup | echod/echod.c:228-233 | a waiting acceptor means a full pool, unless a slave is on its way from its decrement to its signal; so signalling only on the crossing of the limit is enough |
| ThreadPool.SkippedSignalHasNoWaiter | echod/echod.c:230-232 | when the count after a decrement is not the limit less one, nobody waits |
| ThreadPool.DeadlockIff | echod/echod.c:149-166 | only a spurious wakeup is left to happen if and only if every slave has exited and the acceptor has returned or waits with every slot leaked |
| ThreadPool.LeakTrap | echod/echod.c:163-166 | once every slot has leaked no continuation ever accepts or serves again |
| ThreadPool.InterruptsLeadToWait | echod/echod.c:163-166 | from any number of interrupted accepts, interrupting the remaining ones leads to an acceptor that waits |
| ThreadPool.DeadlockIsReachable | echod/echod.c:163-166 | a concrete run from the start to the deadlock, built from interrupted accepts alone |
| ThreadPool.StepDecreasesMeasure | echod/echod.c:149-152 | while the acceptor is without a slot every step brings it nearer, except a spurious wakeup, which costs two |
| ThreadPool.WaitIsBounded | echod/echod.c:149-152 | whatever the schedule, a run in which the acceptor stays without a slot is no longer than a measure of its first state plus three per spurious wakeup |
| ThreadPool.AtMostOneLeaving | echod/echod.c:228-233 | the mutex lets at most one slave at a time be between its decrement and its unlock |
| ThreadPool.AcceptorWaitIsBounded | echod/echod.c:149-152 | from every reachable state: at most eighteen steps for each slot that has not leaked, twelve more, and three for each spurious wakeup |
| ThreadPool.SlotIsObtained | echod/echod.c:149-153 | with an unleaked slot the acceptor can always still reach its increment, without a spurious wakeup and without another leak |
| ThreadPool.SlotWithinReachIff | echod/echod.c:149-153 | some continuation gives a waiting acceptor its slot if and only if not every slot has leaked |
| ThreadPool.SpuriousWakeupsCostThree | echod/echod.c:150-152 | the bound on the wait is reached: spurious wakeups of a full pool cost three steps each, as often as they come |
| ThreadPool.RunAccount | echod/echod.c:162-181 | over every run: each accepted connection leads to one pthread_create, each that succeeds to one slave; every leak is counted by its cause; the server runs until the first failing accept or allocation, which is the only one |
| ThreadPool.FailureEndsLoop | echod/echod.c:167-175 | after such a failure the acceptor returns with its next step and there are no new clients |
| ThreadPool.ReturnedIff | echod/echod.c:144-187 | the acceptor has returned if and only if there was a failure and it has noticed |
| ThreadPool.PoolReachableIff | echod/echod.c:144-182 | which clients and leaks there can be at one time: any that together the limit allows, and no others |
| ThreadPool.PoolIsReached | echod/echod.c:144-182 | the run that leads there, turn by turn |
| ThreadPool.Process.MoveAcceptor | echod/echod.c:144-154 | the acceptor's code on the shared fields does what its step says |
| ThreadPool.Process.MoveSlave | echod/echod.c:190-236 | the slave's code on the shared fields does what its step says |
| ThreadPool.Process.Move | echod/echod.c:162-181 | every step, those of accept and pthread_create included, in place |
| ThreadPool.Process.Schedule | echod/echod.c:144-182 | any schedule is a run, and keeps the limit and the account of slots |
| SocketIo.ReadTakesPrefix | echod/libsockets/socket_io.c:43-61 | for every script of outcomes, a positive result is the number of bytes read and they are the next of the stream; any other result takes none; a successful read uses up script |
| SocketIo.WriteSucceedsIffAllDelivered | echod/libsockets/socket_io.c:64-90 | for every script the result is positive if and only if the whole buffer was delivered |
| SocketIo.PollDecides | echod/libsockets/socket_io.c:76-78 | of the outcomes of select the first that is no interruption counts |
| SocketIo.ReadRunIsFlat | echod/libsockets/socket_io.c:48-58 | the nested loops read the same as a single loop over the outcomes, in which an interruption begins again |
| SocketIo.WriteRunIsFlat | echod/libsockets/socket_io.c:73-88 | so do the three nested loops of a write |
| SocketIo.OfferIsDelivered | echod/libsockets/socket_io.c:64-90 | delivered is what the script offers, interruptions left out, up to the length; all of it if and only if the script offers as much |
| SocketIo.GrantIsRead | echod/libsockets/socket_io.c:43-61 | read is what the deciding outcome grants, up to the buffer and the input |
| SocketIo.InterruptionsAreRetried | echod/libsockets/socket_io.c:58-84 | as long as nothing times out or fails, a write ends only with all delivered or the script over, and a read only with bytes or at the end of the input |
| SocketIo.Connection.SelectRetrying | echod/libsockets/socket_io.c:76-78 | the innermost loop, as a function of the script |
| SocketIo.Connection.ReadFromSocket | echod/libsockets/socket_io.c:43-61 | the nested loops read what the specification says into the front of the buffer, and take it from the stream |
| SocketIo.Connection.WriteRetrying | echod/libsockets/socket_io.c:74-85 | one write repeated over interruptions, and what is left of the specification after it |
| SocketIo.Connection.WriteToSocket | echod/libsockets/socket_io.c:64-90 | the bytes delivered are a prefix of the buffer, in order, none repeated; the result is positive if and only if that is all of it; a non-positive length does nothing |
| SocketIo.EchoSession | echod/echod.c:210-215 | every chunk is echoed up to a prefix, whole exactly when its write succeeded; the chunks are the input up to the first non-positive read |
| SocketIo.EchoFaithfulIff | echod/echod.c:210-215 | what comes back equals what was read if and only if every write succeeded |
| SocketIo.EchoedLength | echod/echod.c:210-215 | a failed write loses bytes for good: less comes back than was read |
| SocketIo.FirstExchangeIsGranted | echod/echod.c:210-215 | the first exchange: the bytes the script grants, up to 8192, and of those what it then offers |
| SocketIo.EchoEndsAtRead | echod/echod.c:215 | the session ends with a read of just what is left, that brings nothing |
| SocketIo.WillingEcho | echod/echod.c:210-215 | if nothing times out or fails before the script ends, all input comes back and the loop stops at its end |
| SocketIo.Connection.EchoTurn | echod/echod.c:211-214 | one turn is one exchange of the session, and uses up script |
| SocketIo.TurnKeepsUnderway | echod/echod.c:210-215 | a turn keeps the loop invariant: exchanges done plus session to come are the whole session |
| SocketIo.Connection.EchoLoop | echod/echod.c:210-215 | over any run the output is the concatenation of the prefixes, the input splits into what was read and what is left, and the two agree exactly when all writes succeeded |
| Regex.StarOfSingles | pe/tinyweb/src/http_parser.c:57 | the language of a repetition of single characters, by induction on the match |
| Regex.AnyWordLanguage | pe/tinyweb/src/http_parser.c:55 | the alternatives of the method match exactly the listed words |
| Regex.WordNoCaseLanguage | pe/tinyweb/src/http_parser.c:126-134 | a word under REG_ICASE matches its spellings in either case and nothing else |
| RequestLine.PathLanguage | pe/tinyweb/src/http_parser.c:57 | the ambiguous path expression, a single-pass scanner and a direct description accept the same paths |
| RequestLine.ScanPathIff | pe/tinyweb/src/http_parser.c:57 | the scanner decides the direct description |
| RequestLine.PathHasOneMark | pe/tinyweb/src/http_parser.c:57 | an accepted path has at most one punctuation mark other than `/` and `-` |
| RequestLine.ExtensionLanguage | pe/tinyweb/src/http_parser.c:57 | the extension is one punctuation mark and one or more alphanumerics |
| RequestLine.VersionLanguage | pe/tinyweb/src/http_parser.c:59 | the version part is nine characters of a fixed form, the carriage return included |
| RequestLine.PartsMatch | pe/tinyweb/src/http_parser.c:55-59 | every text divided into the parts of a request line matches the expression up to the end of the line |
| RequestLine.MatchHasParts | pe/tinyweb/src/http_parser.c:55-59 | every match is so divided |
| RequestLine.PartsAreScanned | pe/tinyweb/src/http_parser.c:55-59 | the division is unique: the separators are the first two blanks |
| RequestLine.AcceptedIffScanned | pe/tinyweb/src/http_parser.c:66-67 | regexec succeeding at the first character is the same as the one-pass scanner succeeding |
| RequestLine.TokensAreThePartsIff | pe/tinyweb/src/http_parser.c:69-107 | strtok's three tokens are the method, path and protocol of the validated line if and only if both separators are spaces; then what is left starts right after the carriage return |
| Tokenizer.CutString | pe/tinyweb/src/http_parser.c:70 | writing a NUL into a string makes two strings of it, the rest unharmed |
| Tokenizer.TokenIs | pe/tinyweb/src/http_parser.c:70-100 | a token is a maximal run of characters that are not delimiters |
| Tokenizer.TokenEndsIff | pe/tinyweb/src/http_parser.c:70-100 | a token that starts somewhere ends at a position before which no delimiter occurs if and only if one stands there |
| Tokenizer.Strtok.Scan | pe/tinyweb/src/http_parser.c:70-100 | the scanning loops over the buffer find the longest run |
| Tokenizer.Strtok.EndToken | pe/tinyweb/src/http_parser.c:70-100 | ending a token in place leaves the token and the text after its delimiter as two strings |
| Tokenizer.Strtok.Next | pe/tinyweb/src/http_parser.c:70-100 | one call on the mutable buffer and hidden cursor returns the next token as a C string of its own and leaves the rest of the text to the next call |
| Tokenizer.TokensAreNonEmptyPieces | pe/tinyweb/src/http_parser.c:146-205 | the strtok loop visits exactly the non-empty pieces between newlines, in order |
| Tokenizer.SplitJoin | pe/tinyweb/src/http_parser.c:146-205 | those pieces, empty ones included, joined by newlines are the text again |
| Tokenizer.PiecesHoldNoSeparator | pe/tinyweb/src/http_parser.c:146-205 | no piece contains a newline |
| RequestParser.ParsedParts | pe/tinyweb/src/http_parser.c:69-205 | an accepted request with single spaces is parsed into the parts of its line and the pieces after it |
| RequestParser.PrintedRequestScans | pe/tinyweb/src/http_parser.c:55-59 | a printed method, path and version make an accepted line divided into just these |
| RequestParser.RequestRoundTrip | pe/tinyweb/src/http_parser.c:65-107 | printing a request and parsing it gives back its method, path and protocol, and its header lines |
| RequestParser.RejectedIsBadRequest | pe/tinyweb/src/http_parser.c:206-211 | a text whose first line does not match comes back as a bad request with no method, file, protocol or range |
| RequestParser.BadRequestIff | pe/tinyweb/src/http_parser.c:109-111 | a header comes back as a bad request if and only if the text is rejected or its protocol is not HTTP/1.1 |
| RequestParser.CgiPathIff | pe/tinyweb/src/http_parser.c:90-98 | a path is taken for a program if and only if the expression for programs matches at its start, in either case |
| RequestParser.ParsedStatus | pe/tinyweb/src/http_parser.c:109-118 | which status the protocol and the method call for, both directions; `/` stands for the default page |
| RequestParser.StatusAfterLines | pe/tinyweb/src/http_parser.c:146-205 | header lines only choose between 200, 206 and 416, and leave the request line's fields alone |
| RequestParser.UnaffectedFields | pe/tinyweb/src/http_parser.c:146-205 | lines that are no Range lines change neither range nor status; lines without a date do not change the date |
| RequestParser.LastRangeLineWins | pe/tinyweb/src/http_parser.c:155-203 | range and status are those of the last Range line, whatever the other lines are |
| RequestParser.LastDateLineWins | pe/tinyweb/src/http_parser.c:149-153 | the modification date is that of the last line the date parser accepts |
| RequestParser.NullTokenIff | pe/tinyweb/src/http_parser.c:78-101 | the parser takes the length of a null pointer if and only if the header is accepted and only spaces follow its first space, or only carriage returns follow its second token and the space after it |
| RequestParser.NoSpaceNoToken | pe/tinyweb/src/http_parser.c:78-79 | so it does on every accepted text without a space |
| RequestParser.SpacesGiveTokens | pe/tinyweb/src/http_parser.c:78-101 | and never when both separators are spaces |
| RequestParser.ParsedIsWellParsed | pe/tinyweb/src/http_parser.c:38-214 | in every header returned, 206 goes with a satisfiable range, 416 with one that is not, any other status with no range; no header line counts when the request line is not served; both numbers are ints |
| RequestParser.TabsAreAcceptedButNotSplit | pe/tinyweb/src/http_parser.c:56-58 | such a text exists: tabs as separators pass the validation that is meant to make strtok safe |
| RequestParser.ParseLine | pe/tinyweb/src/http_parser.c:147-203 | the body of the loop, decoder included, is one step of the fold |
| RequestParser.ParseLines | pe/tinyweb/src/http_parser.c:146-205 | the strtok loop over the mutable buffer computes the fold over the tokens, and ends |
| RequestParser.ParseHttpHeader | pe/tinyweb/src/http_parser.c:38-214 | the whole parser on the mutable buffer returns the parse of the text the buffer held |
| RangeHeader.LayoutMatches | pe/tinyweb/src/http_parser.c:126-134 | a line laid out as name, colon, unit and digit fields is in the language of the expression |
| RangeHeader.MatchHasLayout | pe/tinyweb/src/http_parser.c:126-134 | every match is so laid out |
| RangeHeader.ScanComplete | pe/tinyweb/src/http_parser.c:126-134 | the greedy scanner finds any layout whose last digit run is maximal |
| RangeHeader.ScanIsLongestMatch | pe/tinyweb/src/http_parser.c:155-156 | the greedy scanner finds the POSIX longest match, and nothing exactly when there is no match |
| RangeHeader.AccumulateDigit | pe/tinyweb/src/http_parser.c:168-174 | one digit in 32-bit arithmetic keeps the congruence with the exact value, and overflows only from the tenth digit on |
| RangeHeader.WeightBound | pe/tinyweb/src/http_parser.c:172 | the position weight fits an int for nine digits and no more |
| RangeHeader.ScanDigitsBack | pe/tinyweb/src/http_parser.c:162-174 | the right-to-left loop stops at the character before the digits, having read the forward decimal value in 32 bits, or -1 for no digits; it overflows if and only if there are more than nine |
| RangeHeader.DecodeRange | pe/tinyweb/src/http_parser.c:156-188 | the two loops stay inside the matched text, from its end over `-` back to `=`, and return both fields' values |
| RangeHeader.FieldsAreCongruent | pe/tinyweb/src/http_parser.c:168-188 | for any number of digits: the one int congruent to the decimal value |
| RangeHeader.ShortFieldsAreExact | pe/tinyweb/src/http_parser.c:168-188 | up to nine digits the value is the decimal value itself |
| RangeHeader.TenDigitsWrap | pe/tinyweb/src/http_parser.c:168-188 | ten digits can be decoded wrongly |
| RangeHeader.FieldsRoundTrip | pe/tinyweb/src/http_parser.c:155-193 | the fields of a printed Range line are recovered, whatever text follows |
| RangeHeader.RangeRoundTrip | pe/tinyweb/src/http_parser.c:155-202 | `a-b`, `a-` and `-b` parse back to (a,b), (a,-1), (-1,b), and are satisfiable exactly when the suffix is positive, the range open, or a < b |
| Decimal.PrintRoundTrip | pe/tinyweb/src/http_parser.c:168-188 | the forward decimal value reads back what was printed |
| Decimal.ValuePrepend | pe/tinyweb/src/http_parser.c:169-172 | the weight at which a digit met from the right counts |
| Decimal.WrapMulAdd | pe/tinyweb/src/http_parser.c:170 | 32-bit accumulation is exact accumulation, wrapped |
| Decimal.PrintLengthIff | pe/tinyweb/src/tinyweb.c:376-391 | a number prints to at most k digits if and only if it is below the k-th power of ten |
| Response.PartialLengthWholeIff | pe/tinyweb/src/tinyweb.c:382-385 | the length of a 206, whatever int it is, is printed whole if and only if it has at most four characters |
| Response.FullLengthWholeIff | pe/tinyweb/src/tinyweb.c:388-390 | the length of a 200 is printed whole if and only if it has at most eight digits |
| Response.PartialRangeWholeIff | pe/tinyweb/src/tinyweb.c:377-380 | the content range is printed whole if and only if its three numbers have at most twelve characters |
| Response.ResponseHeader.CreateResponseHeader | pe/tinyweb/src/tinyweb.c:355-395 | which fields are filled in, and with what text |
| Response.ResponseHeader.CreateResponseHeaderString | pe/tinyweb/src/tinyweb.c:404-445 | the concatenation, in order, of the fields that are present |
| Response.RangeValueRoundTrip | pe/tinyweb/src/tinyweb.c:380 | the three numbers of a content range are read back |
| Response.FullFraming | pe/tinyweb/src/tinyweb.c:386-391 | a client reading a full response always finds the body and the date, and reads size and type exactly when the size has at most eight digits |
| Response.CodeIsRead | pe/tinyweb/src/tinyweb.c:404-406 | the client reads the code of the status the header was made for |
| Response.BareRead | pe/tinyweb/src/tinyweb.c:404-445 | a header without fields is three lines |
| Response.RedirectRead | pe/tinyweb/src/tinyweb.c:591-598 | a redirection is a complete header if and only if the path is shorter than 987 characters; then it names the path and a slash |
| Response.SeenLinesDescribe | pe/tinyweb/src/tinyweb.c:357-373 | date, modification date and server are always read, the type exactly when the length before it was printed whole |
| Response.PartialFraming | pe/tinyweb/src/tinyweb.c:376-385 | for files of any size: when the content range fits, a client finds the body, and reads the length as converted to int, provided it is not negative and has at most four digits; it finds the range if an int holds the size |
| Response.CutRangeLosesBody | pe/tinyweb/src/tinyweb.c:377-380 | for files of any size: when the content range does not fit, its line end and the empty line are lost, and no client finds the body that was sent |
| Response.BigFileNeverFits | pe/tinyweb/src/tinyweb.c:379-383 | a size no int holds never gives both a length and a content range that fit and are right |
| Response.SeenLinesFit | pe/tinyweb/src/tinyweb.c:382-390 | a length field without its line end runs together with the field after it, and is still the first length the client sees |
| Wire.ReadSent | pe/tinyweb/src/tinyweb.c:442-443 | a client reads back the lines that were sent |
| BodyCopy.CopyAccount | pe/tinyweb/src/tinyweb.c:333-349 | for every script of reads and writes: the loop has ended if and only if the count reached the limit, which it passes by fewer than 256; bytes sent and bytes lost come out of what the file held |
| BodyCopy.NothingLostSendsSlice | pe/tinyweb/src/tinyweb.c:333-349 | if nothing was lost, at every moment the bytes sent are a contiguous slice of the file from the offset |
| BodyCopy.LostNeverDone | pe/tinyweb/src/tinyweb.c:343-348 | once bytes are lost, a limit that only those bytes could have reached is never reached, and neither is a limit beyond the file, whatever reads and writes do |
| BodyCopy.DoneIffTakesAll | pe/tinyweb/src/tinyweb.c:333-349 | a copy up to the end of the file ends if and only if the reads reach that end and no turn before it fails or writes less than it read |
| BodyCopy.LossPossibleIff | pe/tinyweb/src/tinyweb.c:343-348 | a copy up to a position inside the file can end having lost d bytes if and only if d bytes of the file lie behind that position: short writes go unnoticed just so far |
| BodyCopy.LosingTurnsEnd | pe/tinyweb/src/tinyweb.c:343-348 | the run that loses d bytes sends, in place of the bytes asked for, those d further on |
| BodyCopy.ShortWriteLosesBytes | pe/tinyweb/src/tinyweb.c:343-348 | an instance: after one short write a full response of two bytes has sent one and goes on |
| BodyCopy.WholeWritesLoseNothing | pe/tinyweb/src/tinyweb.c:333-349 | whole writes lose nothing and nothing fails |
| BodyCopy.EnoughTurnsFinish | pe/tinyweb/src/tinyweb.c:333-349 | reads that make progress, with whole writes, finish the copy |
| BodyCopy.CopyTerminatesIff | pe/tinyweb/src/tinyweb.c:320-349 | with those, the copy ends if and only if there is nothing to copy or its limit does not pass the end of the file |
| BodyCopy.FullBody | pe/tinyweb/src/tinyweb.c:317-349 | a full response that ends is the file, whatever the writes did |
| BodyCopy.OpenRangeBody | pe/tinyweb/src/tinyweb.c:320-349 | an open range that ends is the rest of the file, whatever the writes did |
| BodyCopy.ExplicitEndBody | pe/tinyweb/src/tinyweb.c:320-349 | an explicit end inside the file, when the copy ends: as many bytes as asked for and fewer than 256 more, within the file together with those lost; a slice that covers the range if none were lost |
| BodyCopy.ByteTurnsStopAtLimit | pe/tinyweb/src/tinyweb.c:333-349 | with reads of one byte the loop stops exactly at the end asked for |
| BodyCopy.OvershootPossibleIff | pe/tinyweb/src/tinyweb.c:306-349 | how many bytes beyond the end asked for a copy can go: any number below 256 that the file has, and no other |
| BodyCopy.OvershootTurnsPassLimit | pe/tinyweb/src/tinyweb.c:333-349 | the run that does |
| BodyCopy.WriteResponseBody | pe/tinyweb/src/tinyweb.c:303-352 | the function computes the copy, failing on a file that cannot be opened and on a negative offset |
| BodyCopy.CopyLoop | pe/tinyweb/src/tinyweb.c:333-349 | the loop computes the copy for every script of turns, failing reads included |
| BodyCopy.CopyTurn | pe/tinyweb/src/tinyweb.c:337-348 | a turn keeps the loop invariant; it reads at most 256 bytes from inside the file and appends a first part of them, which is the next slice of the file, to what was sent |
| BodyCopy.TurnKeepsCopying | pe/tinyweb/src/tinyweb.c:333-349 | a turn keeps the loop invariant: sent plus still to send is the whole copy |
| ClientHandler.BodySentIff | pe/tinyweb/src/tinyweb.c:562-688 | some run sends a byte of the file if and only if the file can be read and either the range is satisfiable and starts inside it, whatever the method, or the request is a GET of a regular, non-empty, modified, non-CGI file |
| ClientHandler.HeadGetsBodyIff | pe/tinyweb/src/tinyweb.c:568-580 | HEAD is sent a body if and only if it has a satisfiable range that starts inside a readable file |
| ClientHandler.BuildHeader | pe/tinyweb/src/tinyweb.c:531-693 | the header sent for each decision |
| ClientHandler.CodeIff | pe/tinyweb/src/tinyweb.c:530-693 | which code the client reads, for every request not handed to a program: 200, 206, 301, 304, 400, 403, 404, 416, 500 and 501, each if and only if a condition on request and file holds |
| ClientHandler.CgiIff | pe/tinyweb/src/tinyweb.c:610-618 | a request is handed to a program if and only if it is for an executable regular CGI file that is not unmodified |
| ClientHandler.BareResponseRead | pe/tinyweb/src/tinyweb.c:531-608 | any other answer than 200, 206 and 301 is three lines without length or body |
| ClientHandler.RedirectResponseRead | pe/tinyweb/src/tinyweb.c:591-598 | a directory is answered with its path and a slash, if that fits |
| ClientHandler.FileIsDescribed | pe/tinyweb/src/tinyweb.c:355-395 | the fields a client reads of the file, with GET and HEAD alike |
| ClientHandler.CanEndIff | pe/tinyweb/src/tinyweb.c:303-352 | a response can end if and only if it has no body or a readable file and not a suffix range nor an end beyond the file |
| ClientHandler.WriteResponseHeader | pe/tinyweb/src/tinyweb.c:276-291 | as much of the header is sent as the socket offers to take, and -1 means less than all |
| ClientHandler.HandleClient | pe/tinyweb/src/tinyweb.c:506-695 | the bytes on the socket are as much of the header as it offers to take, followed by the body: the whole message if it offers enough; the logged size is the one write_log computes wherever stat succeeded |
| ClientHandler.LogAgreesIff | pe/tinyweb/src/tinyweb.c:478-492 | when the log records the bytes on the wire, for every response: without a body, if and only if the log claims none (HEAD: an empty file); for a full response or open range, if and only if the copy ends or there is nothing to send; for an explicit end, if and only if as many bytes go out as lie behind the start; for a suffix range never |
| ClientHandler.BigLogIsWrong | pe/tinyweb/src/tinyweb.c:478-492 | a size an int does not hold is logged wrongly when all was sent |
| ClientHandler.FullResponseAgrees | pe/tinyweb/src/tinyweb.c:675-681 | a plain GET whose copy ends delivers the file, framed by its length if and only if that has at most eight digits |
| ClientHandler.PartialFramedIff | pe/tinyweb/src/tinyweb.c:568-580 | any partial response, for files of any size: header and body agree if and only if the content range fits and the length converted to int is that of the body, with at most four digits |
| ClientHandler.OpenRangeAgrees | pe/tinyweb/src/tinyweb.c:568-580 | an open range whose copy ends delivers the rest of the file framed by its length, with the content range k, size-1, size, if and only if the numbers fit their buffers |
| ClientHandler.ExplicitEndAgreesIff | pe/tinyweb/src/tinyweb.c:568-580 | with an explicit end, header and body agree if and only if the copy sent as many bytes as lie behind the start and the numbers fit; for sizes no int holds, if and only if the converted numbers do |
| ClientHandler.ExplicitEndAlwaysAgreesIff | pe/tinyweb/src/tinyweb.c:568-580 | they agree in every run that ends if and only if the end asked for is the size of the file and the numbers fit |
| EndToEnd.PlainRequestParsed | pe/tinyweb/src/http_parser.c:38-214 | a printed GET with header lines that are neither ranges nor dates parses to a plain request |
| EndToEnd.RejectedRequest | pe/tinyweb/src/tinyweb.c:537-541 | from request text to client: a text that does not match is answered with 400 and three lines |
| EndToEnd.NeutralRequestParsed | pe/tinyweb/src/http_parser.c:38-214 | any printed request line with neutral header lines, and the status it parses to |
| EndToEnd.CodeOfRequest | pe/tinyweb/t/02basic.t:39-42 | from request text to client: 400, 501, 404, 301, 403 or 200, each if and only if a condition on request line and file holds |
| EndToEnd.DirectoryRequest | pe/tinyweb/src/tinyweb.c:591-598 | from request text to client: a directory is answered with its path and a slash, if that fits |
| EndToEnd.FullRequest | pe/tinyweb/src/tinyweb.c:674-681 | from request text to client: a plain GET whose copy ends is answered by the file, framed, if and only if its size has at most eight digits |
| EndToEnd.RangeRequestParsed | pe/tinyweb/src/http_parser.c:146-202 | the last Range line of a request text decides range and status |
| EndToEnd.PrintedRangeIsLast | pe/tinyweb/t/04range.t:90 | the Range line a client prints for any range is the last Range line of its request, so the theorems about ranges speak of all of them |
| EndToEnd.OpenRangeRequest | pe/tinyweb/t/04range.t:86-139 | from request text to client, for files of any size: `bytes=k-` yields the rest of the file, its length and its content range if and only if the numbers fit |
| EndToEnd.ExplicitRangeRequest | pe/tinyweb/src/tinyweb.c:568-580 | from request text to client: `bytes=k-e` is dependable if and only if e is the size of the file and the numbers fit |
| EndToEnd.ExplicitRangeEndsIff | pe/tinyweb/src/tinyweb.c:320-349 | from request text: the answer to `bytes=k-e` can end if and only if e is not beyond the file |
| EndToEnd.HeadRangeRequest | pe/tinyweb/src/tinyweb.c:568-580 | from request text: HEAD with a Range line is sent part of the file if and only if the range has a start inside it and is open or increasing |
| EndToEnd.HeadIsSentBody | pe/tinyweb/src/tinyweb.c:568-580 | an instance: HEAD with `bytes=0-1` |
| EndToEnd.ExplicitEndIsNotFramed | pe/tinyweb/src/tinyweb.c:568-580 | an instance: `bytes=0-1` of three bytes |
| EndToEnd.EndBeyondFileNeverEnds | pe/tinyweb/src/tinyweb.c:320-349 | an instance: `bytes=0-9` of three bytes |
| EndToEnd.LongOpenRangeIsNotFramed | pe/tinyweb/src/tinyweb.c:376-385 | an instance: `bytes=0-` of ten thousand bytes |
| EndToEnd.RangeRequestTexts | pe/tinyweb/t/04range.t:84-90 | the texts of these requests |
| ContentType.GetHttpContentType | pe/tinyweb/src/content.c:26-40 | the first entry whose extension occurs, the NULL entry's index if none does |
| ContentType.NoMatchIsDefault | pe/tinyweb/src/content.c:22 | without an occurrence the type is the default |
| ContentType.OnlyMatchWins | pe/tinyweb/src/content.c:32-37 | a single matching entry decides |
| ContentType.OrderIndependent | pe/tinyweb/src/content.c:14-40 | with at most one matching entry, every permutation of the table gives the same type |
| ContentType.ServedPathHasOneDot | pe/tinyweb/src/tinyweb.c:551-552 | a root without a dot and an accepted path make a file path with at most one dot |
| ContentType.AtMostOneExtension | pe/tinyweb/src/content.c:14-23 | so at most one extension of the table occurs in it |
| ContentType.ServedTypeIsOrderIndependent | pe/tinyweb/src/content.c:14-40 | for every such path the order of the table does not matter, and the type is the default if and only if no extension occurs |
| Reaper.StepKeepsInv | pe/tinyweb/src/tinyweb.c:190-193 | every step of parent, children and handler keeps zombies covered and children accounted for |
| Reaper.NoStuckZombies | pe/tinyweb/src/tinyweb.c:190-193 | while there is a zombie the signal is pending or the handler is in its loop; a quiet parent has none |
| Reaper.ChildrenAccountedFor | pe/tinyweb/src/tinyweb.c:706-747 | every child forked is in exactly one of running, zombie, reaped |
| Reaper.RunAccount | pe/tinyweb/src/tinyweb.c:703-754 | over every run: a turn of the loop makes one child unless fork fails; children that exited are zombies or reaped, the others running |
| Reaper.OneDeliveryReapsAll | pe/tinyweb/src/tinyweb.c:190-193 | signals do coalesce: for every n there is a run in which n children exit, the signal is delivered once, and all are reaped |
| Reaper.ManyExits | pe/tinyweb/src/tinyweb.c:706-747 | the run in which n children are forked and any k of them exit under one pending signal |
| Reaper.HandlerIsBounded | pe/tinyweb/src/tinyweb.c:190-193 | in any run the handler takes at most four more steps per child that exits |
| Reaper.ZombiesAreReaped | pe/tinyweb/src/tinyweb.c:190-193 | from every reachable state, handling alone reaps every zombie, with at most one delivery, and leaves running children alone |
| Reaper.HandleAll | pe/tinyweb/src/tinyweb.c:190-193 | the run that does so, built step by step |
| Reaper.Parent.WaitpidNoHang | pe/tinyweb/src/tinyweb.c:191 | one zombie is reaped if there is one, none is lost |
| Reaper.Parent.OnSigChld | pe/tinyweb/src/tinyweb.c:190-193 | the loop with children exiting before any of its calls and after the last: earlier zombies are reaped, later ones have their own signal, and the other children keep running |
| LogSemaphore.StepKeepsBalance | pe/tinyweb/src/sem_print.c:54-66 | waiting, failing to wait, and posting keep the balance |
| LogSemaphore.SemaphoreAccounting | pe/tinyweb/src/sem_print.c:54-66 | for any number of processes: value + holders + lost posts = 1 + posts after a failed wait |
| LogSemaphore.LogExclusion | pe/tinyweb/src/sem_print.c:54-66 | in a run in which no wait fails at most one process is between wait and post |
| LogSemaphore.StepCapacity | pe/tinyweb/src/sem_print.c:54-66 | value plus processes between wait and post grows by one with a failed wait, and with nothing else |
| LogSemaphore.CrowdedLaterIff | pe/tinyweb/src/sem_print.c:54-66 | from any state, waits that succeed can still put two processes between wait and post if and only if that number is at least two |
| LogSemaphore.ExclusionBreaksIff | pe/tinyweb/src/sem_print.c:54-66 | from every reachable state: if and only if the failed waits, posted or not, outnumber the lost posts |
| LogSemaphore.FailedWaitBreaksExclusion | pe/tinyweb/src/sem_print.c:54-56 | a run with one failed wait and two processes there |
| LogSemaphore.BracketIsContiguous | pe/tinyweb/src/sem_print.c:60-66 | while exclusion is not at stake, nothing is printed between the lines of one process's bracket |
| LogSemaphore.WaiterBlockedIff | pe/tinyweb/src/sem_print.c:64-66 | with no holder, a process that waits is blocked if and only if the lost posts outnumber by one those made after a failed wait |
| LogSemaphore.Logger.Bracketed | pe/tinyweb/src/sem_print.c:54-66 | a call is a run of the step system: one wait, the texts in order, one post |
| LogSemaphore.Logger.PrintLog | pe/tinyweb/src/sem_print.c:49-69 | wait, text, post, as steps of the system |
| LogSemaphore.Logger.PrintDebug | pe/tinyweb/src/sem_print.c:74-101 | the same above verbosity one, and nothing at all below |
| LogSemaphore.Logger.PrintHttpHeader | pe/tinyweb/src/sem_print.c:105-150 | nothing when silent or without memory; else wait, the title, the response's CRLF-ended lines in order, post |
| Wire.PrintHeaderLines | pe/tinyweb/src/sem_print.c:134-143 | the splitting loop over its own buffer prints exactly the lines ended by CRLF |
| Wire.EndedLinesOfSent | pe/tinyweb/src/sem_print.c:134-143 | for a text made of such lines these are the lines |

## Left out

- ClientHandler.HandleClient: takes a parsed request; reading it from the socket into the 1000-byte buffer is not composed with it, because the buffer is not NUL-terminated by the code.
- ClientHandler.HandleClient: the size logged where stat was not reached or failed is not modelled; the code adds a file size it never obtained.
- ClientHandler.BuildHeader: the 1000-byte buffer the header is assembled in is taken to be large enough.
- ClientHandler.LogAgreesIff: is about sums an int holds; BigLogIsWrong says what happens beyond, unless a sum that wraps meets the size of a copy cut short.
- BodyCopy.WriteResponseBody: a failing read ends the copy, because the write of SIZE_MAX bytes that the code attempts then is taken to fail.
- EndToEnd.FullRequest: the header is taken to be sent whole; HandleClient and WriteToSocket say what is sent otherwise.
- EndToEnd.OpenRangeRequest: the header is taken to be sent whole, as for FullRequest.
- RequestParser.ParseHttpHeader: malloc and regcomp failures are not modelled, and the request is taken to be NUL-terminated.
- RequestParser.ParseHttpHeader: where strtok returns no token, the model stops; what a C program does after strlen of a null pointer is undefined.
- RequestParser.LastDateLineWins: strptime and mktime are one partial function of the line. The code does not clear the time structure it passes, so the date may also depend on fields strptime leaves alone.
- Response.ResponseHeader.CreateResponseHeaderString: dates are given as text without newlines; strftime and localtime are not modelled.
- ThreadPool.Process.Move: the slave's exit of the whole process when its buffer cannot be allocated, and the end of the process when the acceptor returns, are not modelled.
- SocketIo.Connection.ReadFromSocket: select's exceptional set and elapsed time are not modelled; a timeout is an outcome of the script.
- Reaper.NoStuckZombies: the end of the parent after a failing accept or SIGINT, and the children of CGI requests, are not modelled.
- LogSemaphore.Logger.PrintHttpHeader: logging before the semaphore is opened, which is not bracketed, is not modelled; the calls of one process are shown without steps of others between theirs, which the step system has.
- regcomp and regexec: given by the languages of the three expressions, in the ASCII C locale, not by an implementation.
- CGI execution: only the decision to hand the connection over is kept.
- Changes to a file while it is served: its size, date and content are taken once.
- Socket setup, name lookup, hostinfo, command-line options, log file opening and the root directory check: thin wrappers over system calls.
- libdebug and safe_printf: output without logic of its own.
- The signal handler of echod is never installed by the code; mutex and condition variable are not destroyed in the model.
