# Verified model of the gateway's cores

The gateway decides who may pass (rate limits, policy rules), where a request goes (path parsing,
rewriting), how it reaches PHP (FastCGI client, connection pool, CGI response parser) and what keeps PHP
running (supervisor, watchdog, release manager). Each of these cores is a small machine with state, a
wire format or an algorithm of its own. This project models them one module each and proves what they
promise, for every input, every run and every interleaving.

Where the source updates objects or walks loops, the model is a class or a method with the same
branches, proved against a function on plain values; the theorems are lemmas about those functions.
What such a function computes is stated once more without naming it, on bytes, tables, numbers or the
history of a run: in the files named `Laws`, and beside the theorems where a few lines do.

| file | core | main results |
|---|---|---|
| `RateLimit.dfy` | token bucket | exact min-plus characterisation of the answers; no limiter with that bound lets more through |
| `Eviction.dfy` | sweeps of idle buckets | unobservable if and only if a full bucket refills within five minutes and the keys fit the table |
| `LimitLaws.dfy` | numbers of the limiter | how many requests pass at once, the bound in numbers, which keys hold a bucket |
| `PerRoute.dfy` | global and route limits together | a request is allowed exactly when both single-limiter bounds allow it |
| `PerRouteEviction.dfy`, `PerRouteDrain.dfy` | cleanups of the pair | unobservable if and only if the clients fit the table and every route limit refills in time or is at least as fast as the global one |
| `Supervisor.dfy`, `Watchdog.dfy` | child process and restart limiting | a stopped php-fpm stays stopped; never two unreaped children; exact conditions for a restart and for a clear; restart budget over every window, and runs that reach it |
| `FastCgiWire.dfy` | records, lengths, name-value pairs | round trips, with exact conditions |
| `FastCgiRequest.dfy` | request writer | an independent application-side reader gets role, parameters and body back |
| `FastCgiResponse.dfy` | two response readers | the streaming reader and the buffered one agree for every input and all buffer sizes |
| `FastCgiLaws.dfy` | messages byte by byte | a request as it stands on the wire; what any response bytes are read as, cut or whole |
| `Pool.dfy` | connection pool | every interleaving of atomic steps accounts for every connection; one put back as failed is never handed out again |
| `PathParser.dfy` | request path | exact acceptance, canonical form, refinement of section 5.2.4 of RFC 3986, with the exact condition where segments are empty |
| `PathLaws.dfy` | request path in tables | escapes and control characters by table; acceptance and every refusal in terms of the target alone |
| `Release.dfy` | releases | refinement of a most-recently-active list over every run, and exactly when the release it names is the active one; one active release after every prefix of the writes, across crashes and reloads |
| `ReleaseLaws.dfy` | archive and activation | exactly which releases an archive removes; a release created stays until it is activated |
| `Policy.dfy` | rule engine and modes | rules are the unique stable sort; the decision in terms of the rules as they were added; relations between the modes |
| `PolicyLaws.dfy` | conditions and modes | each kind of condition on a request; the answer of each mode, with the rule it names |
| `CgiResponse.dfy` | CGI headers | printing and parsing invert each other exactly on clean fields that fit; nothing accepted can inject a header; exactly when the streaming parser reads the same lines |
| `CgiStream.dfy` | streaming CGI parser | status and headers, or the error, are those of the buffered parser, with the exact condition |
| `CgiLaws.dfy` | status and header lines | numbers, white space, header names and limits by table |
| `Rewrite.dfy` | rewrite loop | outcome as the number of rewrites; what a route does to a request; more iterations never change a success; loops fail for every bound |
| `Metrics.dfy` | histograms | conservation of counts, meaning of the exported buckets, cap on series, labels read back |

`Common.dfy` holds `Option`, `Result` and `byte`.

## How the outside is modelled

Clock readings, random draws, the outcome of a dial, of starting a process, of a symlink swap or of a
socket probe are parameters of the methods and steps. Times are integers or reals that never go back
(strictly increasing where releases are stamped); float64 quantities are reals. A lock is a whole method
or, where the source releases it, the methods of its critical sections (`Pool.Pool.Get`, then
`DialFailed` or `DialSucceeded`). Regular expressions, `$n` substitution,
case folding and address matching are function parameters over which the theorems are universally
quantified. Byte strings are `seq<byte>`, or a `string` with one byte in each character where the
source treats them as text.

## What turned out to be different from what one expects

- An evicted bucket can be told from one that was kept as soon as a full bucket takes more than five
  minutes to refill, or the keys no longer fit the table, where a sweep frees a place
  (`Eviction.SweepsUnobservableIff` is exact on both). Behind a global limit that is no faster than
  the route's, though, a client cannot drain the route's bucket far enough for it to show, whatever its
  burst (`PerRouteDrain.CleanupsUnobservableIff`).
- A FastCGI request with no parameters is malformed: its empty PARAMS record already ends the stream.
  So is one whose body reader failed. Parameters over 65535 encoded bytes are cut to their length in 16
  bits, and lost when that is zero (`FastCgiRequest.RequestArrives`, `FastCgiRequest.MessagesArrive`).
- A record whose declared length is not its real one, which is what a cast of a longer length to 16 bits
  gives, never decodes to itself (`FastCgiWire.RoundTripIff`).
- The dot-segment stack can differ from RFC 3986 on paths with empty segments
  (`PathParser.EmptySegmentsDiffer`); it is the RFC routine after slashes are merged. On an absolute
  path as it stands it is the RFC routine exactly when no ".." removes a segment in the place of an empty
  one and no empty segment is left but at the end (`PathParser.StackIsRemoveDotSegmentsExactly`).
- After a symlink swap that fails while a release is active, no release is active and `activeID` still
  names the old one, even once that release has been archived; the next rollback passes over it. The
  next swap that succeeds, or a deactivation while the release is known, puts this right
  (`Release.FailedSwapRanksExactly`, `Release.SoundExactly`, and `Release.FailedSwapReached` and
  `Release.LostReached` for runs that get there).
- A CGI response without headers comes back behind an empty header block, on its own exactly when it
  holds no blank line, and never behind a single line ending (`CgiResponse.HeaderlessParsesBack`).
- The streaming CGI parser splits off the same header lines as the buffered one exactly when the output
  does not start with an empty line (`CgiResponse.StreamReadsTheSameLines`, with an output on which
  they differ in `CgiResponse.LeadingEmptyLineDiffers`). Its answers are the same as long as it meets no
  line of more than 8190 bytes (`CgiStream.StreamParsesTheSame`), and an output without headers, which
  the buffered parser takes for a body, it refuses (`CgiStream.HeaderlessIsRefused`). The third case of `scanCRLFHeaders`
  (internal/php/cgi/response.go:244-247) can never be reached.
- A failing check after the cooldown restarts php-fpm before the circuit is cleared, so two budgets of
  restarts can fall into one window (`Watchdog.TwoBudgetsReached`).
- A rewrite to the path itself uses up every bound (`Rewrite.RepeatedPathFails`).
- The keep-connection flag is written at byte 4 of the BEGIN_REQUEST body (internal/php/fastcgi/protocol.go:287),
  where section 5.1 of the FastCGI Specification puts it at byte 2. The model writes what the code
  writes; the reader in `FastCgiRequest.Receive` looks at the role only.

## Model

| member | source | states |
|---|---|---|
| RateLimit.Bucket.Take | internal/policy/ratelimit.go:68-81 | one request at a clock reading refills, caps and spends the bucket, and is told whether there was a whole token |
| RateLimit.RateLimiter.Track | internal/policy/ratelimit.go:55-65 | a new key gets a full bucket of its own, of size burst, or rate when no burst is set |
| RateLimit.RateLimiter.Allow | internal/policy/ratelimit.go:44-82 | the answer and the whole new table for every key, including refusal of new keys at the cap; other keys' buckets are untouched |
| RateLimit.RateLimiter.Cleanup | internal/policy/ratelimit.go:85-95 | exactly the buckets idle for more than five minutes go, the rest keep their value |
| RateLimit.BucketIsLeastSlack | internal/policy/ratelimit.go:68-81 | at every instant of a run the refilled bucket equals the least of what the burst-plus-rate bound leaves over all windows since its creation |
| RateLimit.MinPlus | internal/policy/ratelimit.go:44-82 | while its bucket lives, a request is granted if and only if every window ending with it stays within burst plus rate times length |
| RateLimit.MostPermissive | internal/policy/ratelimit.go:44-82 | no decisions that keep every window within that bound, made online or in hindsight, have let more requests of the key through at any point |
| RateLimit.OwnDecisionsObey | internal/policy/ratelimit.go:44-82 | the limiter's own decisions are among those |
| LimitLaws.WindowsExactly | internal/policy/ratelimit.go:55-81 | that bound in numbers: the burst, or the rate where no burst of at least one is set, and a sixtieth of the rate for each second |
| LimitLaws.GrantedAtOnce | internal/policy/ratelimit.go:55-81 | from an empty limiter, of any number of requests at one instant each is granted if and only if fewer than that came before it |
| LimitLaws.AtOnce | internal/policy/ratelimit.go:55-81 | so as many are granted at one instant as there are requests or tokens, whichever is less |
| LimitLaws.TrackedExactly | internal/policy/ratelimit.go:49-95 | over every timed run a request gives its key a bucket unless 100000 exist, never more do, and a sweep leaves exactly the keys served within the last 300 seconds |
| Eviction.SweepKeepsIndistinct | internal/policy/ratelimit.go:85-95 | a sweep keeps the relation between the swept and the unswept table: whatever is missing would be full |
| Eviction.SweepsUnobservable | internal/policy/ratelimit.go:85-95 | sweeps inserted anywhere in any run change no answer, when a full bucket refills in time and the keys fit the table |
| Eviction.TwiceFailsUnswept | internal/policy/ratelimit.go:68-81 | without the sweep the second of two volleys of a whole burst is cut short when it comes before a full refill |
| Eviction.OverfullReveals | internal/policy/ratelimit.go:49-54 | with one key more than the table holds, a sweep lets in a key that would have been turned away |
| Eviction.SweepsUnobservableIff | internal/policy/ratelimit.go:44-95 | runs with at most n keys never reveal their sweeps if and only if a full bucket refills in time and n keys fit the table |
| PerRoute.PerRouteLimiter.Allow | internal/policy/ratelimit.go:140-156 | the answer and both tables afterwards; a request the route refuses has still been charged globally, one the global limiter refuses is not charged to the route |
| PerRoute.PerRouteLimiter.Cleanup | internal/policy/ratelimit.go:159-173 | every limiter is swept, whatever the order |
| PerRoute.GlobalRuns | internal/policy/ratelimit.go:140-156 | over any run, new limits included, the global table is that of a single limiter that sees every request and sweep |
| PerRoute.RouteRuns | internal/policy/ratelimit.go:140-156 | over any run a route's table is that of a single limiter that sees just the globally granted requests of the route since its limit was set |
| PerRoute.AllowedExactly | internal/policy/ratelimit.go:140-156 | allowed if and only if granted in the run of the global limiter and, with a route limit, in the run of the route's |
| PerRoute.AllowedWithinBoth | internal/policy/ratelimit.go:140-156 | while both buckets live, allowed if and only if both burst-plus-rate bounds hold over every window ending with the request |
| PerRouteEviction.CleanupsUnobservable | internal/policy/ratelimit.go:132-173 | cleanups anywhere among requests and new limits change no answer when the clients fit a table and every limit refills in time or outpaces the global one |
| PerRouteEviction.TracksCharged | internal/policy/ratelimit.go:140-156 | where the route refills no slower, a request the global limit grants leaves the route's bucket lacking at most one token more than the client's global one |
| PerRouteDrain.DrainBoth | internal/policy/ratelimit.go:140-156 | behind a faster global limit, asking whenever a global token is back drains the route's bucket, from any two levels at once |
| PerRouteDrain.DrainReveals | internal/policy/ratelimit.go:68-95 | after such a drain and a pause, a cleanup changes the answer to some request |
| PerRouteDrain.CleanupsUnobservableIff | internal/policy/ratelimit.go:44-173 | runs of at most n clients with these route limits never reveal their cleanups if and only if n fits the table and each limit refills a full bucket in time or has a rate no lower than the global one |
| Supervisor.Supervisor.Start | internal/supervisor/supervisor.go:125-219 | the state, current child and set of unreaped children after every way a start can end; success exactly when every step of the launch succeeded |
| Supervisor.Supervisor.Stop | internal/supervisor/supervisor.go:222-267 | afterwards the current child is reaped, wherever the stop began |
| Supervisor.Supervisor.ChildExits | internal/supervisor/supervisor.go:190-205 | an exit is seen by the child's own reaper only |
| Supervisor.Supervisor.HealthCheck | internal/supervisor/supervisor.go:275-322 | the first failing test in the order state, process, socket file, connection |
| Watchdog.Watchdog.RecordHealthy | internal/supervisor/watchdog.go:136-144 | a healthy check clears the circuit and forgets the restarts exactly when the circuit had tripped and its cooldown is over |
| Watchdog.Watchdog.Admit | internal/supervisor/watchdog.go:148-176 | restarts outside the window are dropped; either the attempt is counted and numbered or the circuit opens for a cooldown |
| Watchdog.Watchdog.Restart | internal/supervisor/watchdog.go:148-197 | supervisor and watchdog state after a restart that is refused, cancelled during the delay, or carried out |
| Watchdog.Watchdog.Tick | internal/supervisor/watchdog.go:111-133 | the state of the pair after one check, for every supervisor state, probe and clock |
| Watchdog.StoppedStaysStopped | internal/supervisor/watchdog.go:111-133 | a check of a supervisor that is neither ready nor failed changes nothing, whatever a probe would find |
| Watchdog.HealthExactly | internal/supervisor/supervisor.go:275-322 | in every run each answer of the health check in terms of the state, the children whose exit has not been observed, the socket file and the connection |
| Watchdog.StartEnds | internal/supervisor/supervisor.go:125-219 | in every run a start ends ready with the new child alone if and only if every step of the launch succeeds, else failed with none; a ready supervisor is not started again |
| Watchdog.StopEnds | internal/supervisor/supervisor.go:222-267 | in every run a stop reaps every child and ends in a state the watchdog leaves alone |
| Watchdog.ExitIsSeen | internal/supervisor/supervisor.go:190-205 | after a child's exit the supervisor still says ready and the next health check finds the child gone |
| Watchdog.RestartEnds | internal/supervisor/watchdog.go:148-197 | in every run an attempt not cancelled ends ready with the new child alone, or failed with none; every other check leaves the supervisor as it is |
| Watchdog.TotalIsAttempts | internal/supervisor/watchdog.go:148-176 | in every run the restarts counted are the attempts made |
| Watchdog.Backoff | internal/supervisor/watchdog.go:203-222 | half of the doubled and capped delay plus a draw below that half, or all of it when there is nothing to halve or the random source fails; never below half nor above all of it |
| Watchdog.DelayDoubles | internal/supervisor/watchdog.go:203-222 | the delay starts at the minimum, doubles with each attempt and stops at the maximum |
| Watchdog.EveryDraw | internal/supervisor/watchdog.go:203-222 | no jitter below the bound is impossible |
| Watchdog.StepKeepsOneChild | internal/supervisor/supervisor.go:125-267 | every start, stop, check and spontaneous exit keeps: unreaped children are at most the current one, and only while ready |
| Watchdog.AtMostOneChild | internal/supervisor/watchdog.go:111-197 | over every run at most one child is unreaped |
| Watchdog.RunRemembers | internal/supervisor/watchdog.go:111-175 | over every timed run the trimmed restart list and the flag agree with the full history of attempts, openings and clears |
| Watchdog.RestartsExactlyWhen | internal/supervisor/watchdog.go:111-175 | a check attempts a restart if and only if a start has failed or a ready child is gone, without its socket or not accepting, and the history shows no cooldown in force and room in the window since the last clear |
| Watchdog.ClearsExactlyWhen | internal/supervisor/watchdog.go:136-144 | a check clears if and only if the circuit has tripped, the child is ready, running and accepting on its socket, and every cooldown is over |
| Watchdog.BudgetPerClear | internal/supervisor/watchdog.go:148-175 | each clear in a window buys at most one more budget of restarts |
| Watchdog.ClearsAreRare | internal/supervisor/watchdog.go:136-144 | when the cooldown is at least the window, no window holds two clears |
| Watchdog.ClearsApart | internal/supervisor/watchdog.go:136-144 | in every run two clears are more than a cooldown apart |
| Watchdog.RestartsAreLimited | internal/supervisor/watchdog.go:111-175 | over every run and every window: at most MaxRestarts attempts without a clear inside, at most twice that when the cooldown is at least the window |
| Watchdog.TwoBudgetsReached | internal/supervisor/watchdog.go:111-175 | for every configuration with the cooldown at least the window, a run that makes two budgets of attempts in one window if the window has any length (no run has an attempt in an empty one): the bound is exact |
| Watchdog.QuietWhileOpen | internal/supervisor/watchdog.go:111-133 | no attempt falls within the cooldown after an opening |
| FastCgiWire.EncodeRecord | internal/php/fastcgi/protocol.go:544-562 | the buffer built is the header, the content and zero padding to a multiple of eight |
| FastCgiWire.Reader.ReadFull | internal/php/fastcgi/protocol.go:565-592 | a read of n bytes consumes exactly n, and otherwise tells an empty end from a cut one and consumes all |
| FastCgiWire.Reader.ReadRecord | internal/php/fastcgi/protocol.go:451-484 | one record with its padding is consumed and returned, or the kind of truncation |
| FastCgiWire.AnyPadding | internal/php/fastcgi/protocol.go:565-592 | any padding of up to 255 bytes of any value is accepted and dropped |
| FastCgiWire.RoundTripIff | internal/php/fastcgi/protocol.go:544-592 | a record survives encoding and decoding, with what follows untouched, if and only if its declared length is its real one |
| FastCgiWire.Aligned | internal/php/fastcgi/protocol.go:544-562 | every encoding is a multiple of eight bytes with fewer than eight of padding |
| FastCgiWire.AlignedAll | internal/php/fastcgi/protocol.go:425-449 | so is the length of any stream of them |
| FastCgiWire.TruncatedNeverDecodes | internal/php/fastcgi/protocol.go:565-592 | no proper prefix of an encoding yields a record |
| FastCgiWire.RoundTripAll | internal/php/fastcgi/protocol.go:425-484 | decoding any list of encodings gives that list and consumes everything |
| FastCgiWire.LengthRoundTrip | internal/php/fastcgi/protocol.go:509-541 | a length is read back, with the number of bytes it took, if and only if it is below 2^31 |
| FastCgiWire.PairRoundTrip | internal/php/fastcgi/protocol.go:487-506 | a name-value pair is read back from the front of any bytes |
| FastCgiWire.PairsRoundTrip | internal/php/fastcgi/protocol.go:487-506 | any list of pairs is read back, in order |
| FastCgiRequest.Client.WriteRecord | internal/php/fastcgi/protocol.go:425-449 | exactly the encoding is appended to the connection |
| FastCgiRequest.Client.SendBeginRequest | internal/php/fastcgi/protocol.go:284-296 | one BEGIN_REQUEST record with the responder role |
| FastCgiRequest.Client.SendParams | internal/php/fastcgi/protocol.go:298-326 | the map's pairs, each once in some order, in one PARAMS record, then an empty one |
| FastCgiRequest.Client.SendStdin | internal/php/fastcgi/protocol.go:328-368 | one record for each non-empty read, then an empty one; a failing reader leaves the stream unterminated |
| FastCgiRequest.Client.SendRequest | internal/php/fastcgi/protocol.go:128-165 | the three parts in order, and whether the body was sent whole |
| FastCgiRequest.StreamArrives | internal/php/fastcgi/protocol.go:328-368 | a reader of the stream rules of section 3.3 of the FastCGI Specification gets non-empty records back up to the empty one |
| FastCgiRequest.PartsAreBody | internal/php/fastcgi/protocol.go:328-368 | however the body is read, empty reads included, the records carry exactly its bytes, none empty and none over 65535 |
| FastCgiRequest.StdinArrives | internal/php/fastcgi/protocol.go:328-368 | the body stream is read back as its non-empty reads, or is never ended when its reader failed |
| FastCgiRequest.MessagesArrive | internal/php/fastcgi/protocol.go:284-368 | the bytes written decode to exactly the records of the request if and only if the parameters fit one record |
| FastCgiRequest.RequestArrives | internal/php/fastcgi/protocol.go:284-368 | when the parameters fit one record, an application that reads the bytes receives a request if and only if there is a parameter and the body's reader did not fail, and then the responder role, exactly the parameters and exactly the body; otherwise it reads no more of them than their length modulo 65536, and none if that is zero |
| FastCgiResponse.ReadResponse | internal/php/fastcgi/protocol.go:370-423 | the outcome of collecting the response, for every byte stream, with its limits and its error cases |
| FastCgiResponse.ResponseStream.Accept | internal/php/fastcgi/protocol.go:196-217 | what one record changes, by type and request id |
| FastCgiResponse.ResponseStream.Read | internal/php/fastcgi/protocol.go:180-229 | bytes handed over, status and the whole new state of the stream, for every buffer size |
| FastCgiResponse.CollectIsPlain | internal/php/fastcgi/protocol.go:370-423 | the buffered reader succeeds if and only if the demultiplexed response ends in a full END_REQUEST within the limits, and then returns just that |
| FastCgiResponse.FillKeepsRemaining | internal/php/fastcgi/protocol.go:180-220 | refilling the buffer loses and invents nothing of what is still to be delivered |
| FastCgiResponse.ReadDelivers | internal/php/fastcgi/protocol.go:180-229 | each read hands over a front of what remains, not empty if the buffer has room, or ends the stream when nothing remains |
| FastCgiResponse.DrainDelivers | internal/php/fastcgi/protocol.go:180-229 | any sequence of reads delivers a prefix of the stdout, all of it at the end of the stream; with positive sizes in at most one read more than there are bytes |
| FastCgiResponse.ReadersAgree | internal/php/fastcgi/protocol.go:180-229 | for every input and all buffer sizes the streaming reader's stdout, stderr and end status are those of the buffered one, which succeeds exactly when the end is complete and the limits hold |
| FastCgiResponse.ForeignRecordsIgnored | internal/php/fastcgi/protocol.go:388-422 | records of other request ids, padded with whatever bytes, change nothing for the buffered reader or the plain meaning, wherever the input is cut |
| FastCgiResponse.ForeignReadsIgnored | internal/php/fastcgi/protocol.go:180-229 | nor for the streaming reader: the same reads deliver the same bytes and statuses, wherever the input is cut |
| FastCgiLaws.EncodesPacket | internal/php/fastcgi/protocol.go:425-449 | each byte of a record on the wire, with the fewest zeros that make it a multiple of eight |
| FastCgiLaws.DecodesExactly | internal/php/fastcgi/protocol.go:451-484 | what any bytes are read as: the numbers of the header and so much content, or which kind of truncation |
| FastCgiLaws.LengthReads | internal/php/fastcgi/protocol.go:525-541 | one byte below 128, or four with the highest bit set, are read as the number they stand for |
| FastCgiLaws.LengthRefused | internal/php/fastcgi/protocol.go:525-541 | a length is refused if and only if there is no byte, or one to three that begin a long one |
| FastCgiLaws.PairWritten | internal/php/fastcgi/protocol.go:487-523 | a pair is written as the two lengths, the name and the value, in that order |
| FastCgiLaws.ListsEach | internal/php/fastcgi/protocol.go:298-306 | the list sent has each name of the map at exactly one place, with its value, and no other |
| FastCgiLaws.RequestWritten | internal/php/fastcgi/protocol.go:284-368 | the bytes of a request: the eight of BEGIN_REQUEST, the parameters and an empty record, the parts of the body and, if it ended, an empty record, each of its type and with the request's id |
| FastCgiLaws.NumberReads | internal/php/fastcgi/protocol.go:413-418 | four bytes in two's complement, the highest first, are read as their number |
| FastCgiLaws.ResponseReads | internal/php/fastcgi/protocol.go:370-423 | from records of any request, type and padding up to one of type 3, the buffered reader returns what those of types 6 and 7 carry and the two numbers of the last, or tells that an output exceeds 67108864 bytes or that there are no numbers |
| FastCgiLaws.StreamReads | internal/php/fastcgi/protocol.go:180-229 | the streaming reader delivers the same, with any buffer sizes |
| FastCgiLaws.ResponseLost | internal/php/fastcgi/protocol.go:370-423 | input that breaks off before is an error of that kind for the one, and never the end of the stream for the other |
| Pool.Pool.constructor | internal/php/fastcgi/pool.go:45-63 | limits that are not positive become the defaults; the pool starts empty and open |
| Pool.Pool.Get | internal/php/fastcgi/pool.go:66-95 | the first critical section: which connection is reused, which are closed, whether to dial |
| Pool.Pool.DialFailed | internal/php/fastcgi/pool.go:97-103 | a failed dial gives its place back |
| Pool.Pool.DialSucceeded | internal/php/fastcgi/pool.go:97-105 | a new connection goes to the caller and nowhere else |
| Pool.Pool.Put | internal/php/fastcgi/pool.go:109-132 | the connection becomes the newest idle one, or is closed and gives its place back |
| Pool.Pool.Close | internal/php/fastcgi/pool.go:135-150 | every idle connection is closed and no more are kept |
| Pool.StepSound | internal/php/fastcgi/pool.go:66-150 | every atomic step keeps the invariant |
| Pool.EveryInterleavingSound | internal/php/fastcgi/pool.go:66-150 | in every interleaving each dialled connection is exactly one of idle, held and closed, is closed once, and while the pool is open the count is idle plus held plus dialling within the limit |
| Pool.GoesOn | internal/php/fastcgi/pool.go:66-150 | those interleavings leave out nothing: any caller may get at any later time, any dial that is out may end either way, any holder may put and anyone may close |
| Pool.GetDecides | internal/php/fastcgi/pool.go:66-95 | Get hands out the newest idle connection if it is fresh and closes nothing, otherwise closes all idle ones; it dials only when none is left and there is room |
| Pool.TrimmedShut | internal/php/fastcgi/pool.go:73-87 | expiry closes each connection it drops once and forgets none |
| Pool.ClosedDrains | internal/php/fastcgi/pool.go:109-150 | after Close, once every holder has put, exactly the dialled connections are closed |
| Pool.FailedPutShuts | internal/php/fastcgi/pool.go:117-121 | a connection put back as failed is closed and gives its place back; no other is affected |
| Pool.PutThenGet | internal/php/fastcgi/pool.go:66-132 | one put back without a failure is reused by the next Get if and only if the pool is open with room for it and it has not been idle too long; otherwise it is closed |
| Pool.FailedNeverReused | internal/php/fastcgi/pool.go:66-132 | in every interleaving a connection once put back as failed is never handed out again |
| Pool.ClosedRefuses | internal/php/fastcgi/pool.go:66-150 | in every interleaving, after Close every Get is refused and every connection put back is closed |
| PathParser.PercentDecode | internal/filesystem/path.go:124-152 | one decoding pass, with escaped percent signs kept and forbidden bytes refused |
| PathParser.ContainsPercentEncoding | internal/filesystem/path.go:197-204 | true if and only if an escape is left somewhere |
| PathParser.SplitAndCollapse | internal/filesystem/path.go:169-193 | the stack of segments left by dropping empty and "." segments and popping at ".." |
| PathParser.ParsePath | internal/filesystem/path.go:39-120 | the result or the first error, in the order the source tests them |
| PathParser.PercentStays | internal/filesystem/path.go:124-152 | after the pass an escape is left if and only if a percent sign had been escaped; otherwise the result is plain RFC 3986 decoding |
| PathParser.Spelled | internal/filesystem/path.go:39-120 | searching for the two spellings of an escape finds every escape of that byte |
| PathParser.AcceptedExactly | internal/filesystem/path.go:39-120 | accepted if and only if the path decodes, escapes no delimiter and holds no control character, and then split after plain decoding |
| PathParser.JoinedIsCanonical | internal/filesystem/path.go:39-120 | a path joined from clean segments is canonical and parses to itself |
| PathParser.NormalForm | internal/filesystem/path.go:39-120 | every accepted target's normalised path has no percent sign, query, backslash, empty or dot segment, is accepted again and parses to itself |
| PathParser.StackIsRemoveDotSegments | internal/filesystem/path.go:169-193 | for every path the stack is remove_dot_segments of section 5.2.4 of RFC 3986 after merging slashes |
| PathParser.StackIsRemoveDotSegmentsDirectly | internal/filesystem/path.go:169-193 | without empty inner segments it is that routine itself |
| PathParser.StackIsRemoveDotSegmentsExactly | internal/filesystem/path.go:169-193 | on every absolute path the two agree if and only if no segment is removed in the place of an empty one and no empty segment is left but at the end, or a root with one slash more |
| PathParser.LostExactly | internal/filesystem/path.go:169-193 | the stack holds the non-empty segments of the RFC routine's result, or is shorter, as a segment is removed in the place of an empty one or not |
| PathParser.WithoutParentsExactly | internal/filesystem/path.go:169-193 | without a ".." and "."s aside, that is: only the last segment is empty, or the path is the root with one slash more |
| PathParser.EmptySegmentsDiffer | internal/filesystem/path.go:169-193 | a path with an empty inner segment on which the stack and remove_dot_segments differ |
| PathLaws.EscapeTable | internal/filesystem/path.go:136-166 | which three characters are an escape and of which byte, by the table of digits, small and capital |
| PathLaws.EscapedDecodes | internal/filesystem/path.go:124-166 | any bytes but percent signs, each escaped in digits of either table, decode to themselves |
| PathLaws.ParsedLiterally | internal/filesystem/path.go:39-193 | a target is accepted if and only if its path up to the question mark is some visible text with bytes escaped, but no delimiter; the segments are those of that text, whichever it is |
| PathLaws.RefusedFor | internal/filesystem/path.go:39-120 | each error names a defect that the path has |
| Release.Manager.FromDisk | internal/deploy/release.go:312-340 | reloading takes every stored release and the active one among them |
| Release.Manager.Load | internal/deploy/release.go:331-338 | one stored record replaces what is known of its id, and becomes active if it says so |
| Release.Manager.SaveRelease | internal/deploy/release.go:303-310 | one record is written under its id |
| Release.Manager.Create | internal/deploy/release.go:80-111 | a new release is stored and known, not active |
| Release.Manager.HaltActive | internal/deploy/release.go:127-135 | the active release, if known, is stopped, stamped and stored |
| Release.Manager.Switch | internal/deploy/release.go:137-165 | the target becomes active with its record stored, or failed with nothing stored |
| Release.Manager.Activate | internal/deploy/release.go:114-165 | the whole new state, the writes in order and the error, for every target and outcome of the swap |
| Release.Manager.Deactivate | internal/deploy/release.go:168-191 | the active release is stopped and none is active |
| Release.Manager.FindPrevious | internal/deploy/release.go:207-232 | some inactive release deactivated no earlier than any other, or the reason there is none |
| Release.Manager.Rollback | internal/deploy/release.go:194-205 | activates a previous release exactly as Activate would, or changes nothing |
| Release.Manager.Archive | internal/deploy/release.go:276-301 | all but `keep` of the stopped and failed releases go, the oldest first, each once |
| Release.EveryPrefixHasOneActive | internal/deploy/release.go:114-191 | after every prefix of the writes of every operation the directory holds at most one active release |
| Release.ReloadIsUnique | internal/deploy/release.go:312-340 | such a directory reloads to one state, whatever the order of its files |
| Release.EveryRunConsistent | internal/deploy/release.go:114-340 | in every run, with failed swaps and with crashes between writes followed by a reload, an active release is the one activeID names |
| Release.OpRanks | internal/deploy/release.go:114-301 | each operation, failed swaps included, acts on the most-recently-active list as its name says |
| Release.PreviousIsFirst | internal/deploy/release.go:207-232 | a rollback's target is the first entry of the list but for the release named by activeID, and exists exactly when there is one |
| Release.PreviousIsSecond | internal/deploy/release.go:207-232 | while the release named is known, that is the second entry |
| Release.PreviousIsStopped | internal/deploy/release.go:194-232 | a rollback's target is never refused by Activate |
| Release.RunRefinesList | internal/deploy/release.go:114-301 | along every run without crashes whose times increase, failed swaps included, the manager refines the list |
| Release.RunIsDurable | internal/deploy/release.go:114-310 | where every swap succeeds the directory always equals the manager's memory |
| Release.EveryRunDurable | internal/deploy/release.go:114-340 | in every run, with failed swaps and crashes, the directory agrees with memory exactly on the releases that are not failed, and stores none as failed |
| Release.TwoRollbacks | internal/deploy/release.go:194-232 | two rollbacks in a row restore the list and the release named by activeID, as the active one |
| Release.FailedSwapLosesActive | internal/deploy/release.go:127-160 | after a failed swap no release is active, while activeID still names the old one |
| Release.FailedSwapRanksExactly | internal/deploy/release.go:127-160 | the list after a failed swap; the release named is the active one, or none is either, if and only if none was named before |
| Release.SoundExactly | internal/deploy/release.go:114-301 | an operation ends with the release named active, or none either, if and only if its swap succeeded, it halted a known release, or it was so before and no swap failed with a release named |
| Release.RecoversFromFailedSwap | internal/deploy/release.go:114-165 | a swap that succeeds right after a failed one brings the list back, without the release that failed |
| Release.RollbackAfterFailedSwap | internal/deploy/release.go:207-232 | after a swap that failed with a release active, a rollback goes to the one active before it, never back to the one just stopped |
| Release.FailedSwapReached | internal/deploy/release.go:114-165 | a run after which the release named is not active |
| Release.LostReached | internal/deploy/release.go:276-301 | a run after which the release named has been archived |
| ReleaseLaws.ArchiveExactly | internal/deploy/release.go:276-301 | where creation times differ, an archive removes exactly the stopped and failed releases that at least `keep` of these are younger than; every other one stays as it is, in memory and in the directory |
| ReleaseLaws.CreatedStays | internal/deploy/release.go:80-340 | in every run a release created with a new id stays just as created until it is activated itself, through archives, rollbacks, failed swaps, crashes and reloads |
| ReleaseLaws.GoesOn | internal/deploy/release.go:80-340 | those runs leave out nothing: what may be created, activated, deactivated and rolled back to, and a crash after any of the writes |
| ReleaseLaws.ClockedGoesOn | internal/deploy/release.go:80-301 | nor do the runs without crashes, as long as each clock reading is later than all before it |
| ReleaseLaws.ErrorsExactly | internal/deploy/release.go:114-165 | an activation is refused exactly for an unknown release and for the one at the front of the list while it runs; else the swap decides |
| Policy.Engine.AddRule | internal/policy/engine.go:111-121 | the bubbling pass puts the rule after every rule of the same or a higher priority and moves nothing else |
| Policy.Engine.MatchesCondition | internal/policy/engine.go:189-322 | true if and only if some value matches in the manner of the condition's kind, reversed by negation |
| Policy.Engine.MatchesConditions | internal/policy/engine.go:180-187 | true if and only if every condition does |
| Policy.Engine.MatchesExclusions | internal/policy/engine.go:324-336 | true if and only if some exclusion does |
| Policy.Engine.EvaluateRule | internal/policy/engine.go:141-178 | the decision and the rule named, as the left-to-right evaluation of the rules |
| Policy.AddedIsStableSort | internal/policy/engine.go:111-121 | after any insertions the rules are sorted by priority, and those of one priority are the inserted ones in order |
| Policy.StableSortIsUnique | internal/policy/engine.go:111-121 | no other list is sorted and keeps that order |
| Policy.DeniedExactly | internal/policy/engine.go:141-178 | denied if and only if some inserted rule that denies applies, and the rule named is the least in priority and insertion order |
| Policy.NothingObserved | internal/policy/engine.go:141-178 | with no deny and no observe that applies, allowed without a rule |
| Policy.LastObserveStands | internal/policy/engine.go:141-178 | with no deny, the last observe that applies decides unless an allow follows |
| Policy.FirstAllowAfterOverrides | internal/policy/engine.go:141-178 | with no deny, the first allow after the last observe overrides it and is named |
| Policy.ObservedExactly | internal/policy/engine.go:141-178 | for the rules as inserted, with none that denies: the last observe in priority and insertion order decides unless an allow comes after it, the first such allow then does, and no rule is named if and only if none observes |
| Policy.NewEngineForMode | internal/policy/mode.go:131-137 | the engine holds the mode's rules in evaluation order |
| Policy.ModeMiddleware | internal/policy/mode.go:145-199 | served, flagged or forbidden, with the rule's name, for every mode and engine |
| Policy.ForbiddenExactly | internal/policy/mode.go:145-199 | for any rules: forbidden if and only if the mode enforces and some inserted rule that denies applies; off and observe never forbid |
| Policy.FlagsWhatWasDenied | internal/policy/mode.go:58-63 | for any rules that all deny, turning them into observe flags exactly what they denied |
| Policy.ObserveFlagsWhatBalancedDenies | internal/policy/mode.go:53-127 | observe mode flags exactly what balanced mode denies, and never denies |
| Policy.BalancedDeniesExactly | internal/policy/mode.go:65-97 | balanced mode denies exactly the requests for repository data or a dotenv file and the tracing methods |
| Policy.StrictDeniesMore | internal/policy/mode.go:53-127 | strict mode denies what balanced does and exactly what its two further rules match |
| Policy.OffAllowsAll | internal/policy/mode.go:53-56 | with rules off every request is allowed and no rule named |
| PolicyLaws.PlainKinds | internal/policy/engine.go:193-319 | when a condition on path, prefix, pattern, method, host, address, range or scheme denies, on the request itself |
| PolicyLaws.HeaderKind | internal/policy/engine.go:237-249 | a header condition denies if and only if the first value under the canonical name is the one asked for, or there is none and none is asked for |
| PolicyLaws.QueryKind | internal/policy/engine.go:251-274 | a parameter condition denies if and only if the query has the parameter, with the value if one is asked for, or holds it in its text |
| PolicyLaws.BodyKind | internal/policy/engine.go:276-286 | a body condition denies if and only if the body is larger than the number, whatever zeros and sign stand before it, which must fit 64 bits |
| PolicyLaws.BodyNumber | internal/policy/engine.go:276-286 | one that is not a sign or none and digits never does |
| PolicyLaws.DeniedByLive | internal/policy/engine.go:141-187 | denied if and only if some inserted rule denies, is of the phase, has every condition met by some value, or by none if negated, and no exclusion met |
| PolicyLaws.DeadDecidesNothing | internal/policy/engine.go:111-187 | any other rule is as good as never inserted, wherever it was among the insertions |
| PolicyLaws.ExcludedDecidesNothing | internal/policy/engine.go:141-187 | so one of another phase, or with an exclusion that some value meets, decides nothing |
| PolicyLaws.StrictDeniesExactly | internal/policy/mode.go:53-127 | strict mode denies exactly, in the request phase, repository data, dotenv files, tracing methods, CONNECT and the names of backup files |
| PolicyLaws.AnswersExactly | internal/policy/mode.go:53-199 | whether each mode serves, flags or forbids a request, told by the mode and the request alone |
| PolicyLaws.ForbiddenByName | internal/policy/mode.go:65-199 | a forbidden request is told the name of the first of the mode's rules that catches it |
| CgiResponse.ParseHeaderLine | internal/php/cgi/response.go:191-217 | the trimmed field, or whether the line has no name or holds a control character |
| CgiResponse.ParseHeaders | internal/php/cgi/response.go:155-188 | the fields of all lines grouped by canonical name, or the first error with its limits |
| CgiResponse.ParseResponse | internal/php/cgi/response.go:39-84 | status, headers and body, or the error, for every output |
| CgiResponse.CanonicalTwice | internal/php/cgi/response.go:184 | making a header name canonical twice is making it canonical once |
| CgiResponse.GroupedByName | internal/php/cgi/response.go:155-188 | under each canonical name stand exactly the values of its fields, in order |
| CgiResponse.PrintedParsesBack | internal/php/cgi/response.go:39-84 | any list of clean fields, none included, printed with CRLF, a blank line and any body, parses back to them, or exceeds a limit and fails for that reason |
| CgiResponse.ReadsBackExactly | internal/php/cgi/response.go:39-84 | any printed list of fields is read back, with its body, if and only if the fields are clean and within the limits |
| CgiResponse.HeaderlessParsesBack | internal/php/cgi/response.go:39-61 | a body comes back behind an empty block and its blank line always, on its own if and only if it holds no blank line, and behind one line ending never |
| CgiResponse.RespondedMeans | internal/php/cgi/response.go:68-83 | the first Status, unless empty, is removed and becomes the code from 100 to 599 or an error; every other name keeps its values |
| CgiResponse.StatusReads | internal/php/cgi/response.go:220-228 | three digits and any reason read as that code, or as an error out of range |
| CgiLaws.NumberReads | internal/php/cgi/response.go:220-228 | a decimal number is read whatever zeros and sign stand before it |
| CgiLaws.NumberRefused | internal/php/cgi/response.go:220-228 | nothing is read as a number but a sign or none and digits |
| CgiLaws.StatusIsNumber | internal/php/cgi/response.go:220-228 | three digits and any reason are read as the number they stand for, an error below 100 or above 599 |
| CgiLaws.StatusIsAnswered | internal/php/cgi/response.go:39-84 | a printed response with such a status first is answered with that code |
| CgiLaws.SpaceTable | internal/php/cgi/response.go:191-217 | a code point in front is trimmed if and only if it is white space of Unicode |
| CgiLaws.SpaceEndTable | internal/php/cgi/response.go:191-217 | and so is one at the end |
| CgiLaws.PaddingIsTrimmed | internal/php/cgi/response.go:191-217 | any white space of Unicode around a text is trimmed and nothing of the text is |
| CgiLaws.TokenTable | internal/php/cgi/response.go:184 | the characters of a name that is made canonical |
| CgiLaws.CanonicalLetters | internal/php/cgi/response.go:184 | each letter of such a name becomes a capital at the start and behind a hyphen and small elsewhere |
| CgiLaws.CanonicalOthers | internal/php/cgi/response.go:184 | its other characters stay |
| CgiLaws.StrangeNamesStay | internal/php/cgi/response.go:184 | any other name stays as it is |
| CgiLaws.LineLiterally | internal/php/cgi/response.go:191-217 | a line is split at its first colon; it is refused if and only if there is none, no name is left before it, or name or value hold a control character, a tab in the value excepted |
| CgiLaws.LimitsExactly | internal/php/cgi/response.go:155-188 | lines that are headers one by one are accepted together if and only if they are at most 100, none over 8192 bytes and 65536 bytes in all |
| CgiResponse.AcceptedIsSafe | internal/php/cgi/response.go:191-217 | whatever the program wrote, an accepted response has no control character but a tab in any header, a valid code, and a body that ends the output |
| CgiResponse.AcceptedParsesAgain | internal/php/cgi/response.go:39-84 | printing accepted fields and body and parsing them again gives the same result if and only if the printed form fits the limits |
| CgiResponse.ScanCRLFHeaders | internal/php/cgi/response.go:231-256 | the advance and the line for every chunk, and its third case is dead |
| CgiResponse.ScanIsStable | internal/php/cgi/response.go:231-256 | a line once found is the same however the output is cut into reads |
| CgiResponse.StreamReadsTheSameLines | internal/php/cgi/response.go:87-119 | the streaming parser ends the headers where the buffered one does and splits off the same lines if and only if the output does not start with an empty line |
| CgiResponse.LeadingEmptyLineDiffers | internal/php/cgi/response.go:87-119 | an output that starts with an empty line, on which only the buffered parser finds a header |
| CgiStream.ParseResponseStream | internal/php/cgi/response.go:87-134 | status and headers, or the error, for every output and its line and size limits |
| CgiStream.LimitedExactly | internal/php/cgi/response.go:96-119 | on lines that are not empty the streaming parser's loop and the buffered one's give the same fields or error, unless it meets a line its buffer cannot hold |
| CgiStream.StreamParsesTheSame | internal/php/cgi/response.go:39-153 | on an output with a header block both parsers give the same status and headers, or the same error, if and only if the streaming one meets no line over 8190 bytes; behind an empty first line it finds no headers |
| CgiStream.HeaderlessIsRefused | internal/php/cgi/response.go:39-153 | an output of one line without a colon is a body for one parser and for the other an invalid header, or too long a line from 8192 bytes on |
| Rewrite.Matches | internal/router/rewrite.go:44-64 | whether a route matches, by pattern, prefix or path in that order, or always |
| Rewrite.RewriteLoop | internal/router/rewrite.go:23-116 | path, query, redirect, iteration count and success of the nested loops, with the default bound |
| Rewrite.OutcomeExactly | internal/router/rewrite.go:35-115 | the bound is used up if and only if there are that many rewrites; otherwise the loop ends where the rewrites do, by staying or redirecting |
| Rewrite.SuccessIsFinal | internal/router/rewrite.go:110-112 | success without a redirect leaves a path that no route with a target matches |
| Rewrite.FuelMonotone | internal/router/rewrite.go:23-116 | with more iterations a success is the identical success |
| Rewrite.QueryKept | internal/router/rewrite.go:83-90 | whatever the outcome the initial query is a suffix of the final one |
| Rewrite.RepeatedPathFails | internal/router/rewrite.go:35-115 | a path that comes back to itself fails for every bound |
| Rewrite.BoundDecides | internal/router/rewrite.go:35-115 | when rewrites stay among n paths, failing with bound n means failing with every bound |
| Rewrite.LiteralTargetsNeedFewRewrites | internal/router/rewrite.go:23-116 | with literal targets, more iterations than routes are never of use |
| Rewrite.RouteDecides | internal/router/rewrite.go:35-107 | the first route with a target that fits the path decides: a status from 300 to 399 ends the loop with that code, any other goes on from the target's path, and the target's query goes in front |
| Rewrite.SomeRouteLeads | internal/router/rewrite.go:35-66 | when a route fits there is a first one, with a path and a query it leads to |
| Rewrite.NoRouteStays | internal/router/rewrite.go:110-112 | where none fits the loop ends with path and query as they are |
| Metrics.Histogram.Record | internal/observability/metrics.go:119-129 | one sample is counted in the first bucket it fits, or the last |
| Metrics.Collector.Series | internal/observability/metrics.go:75-88 | the key a request is counted under, its own or the overflow one at the cap |
| Metrics.Collector.Observe | internal/observability/metrics.go:80-98 | exactly one series gains the sample, made if need be; no other changes |
| Metrics.Collector.RecordRequest | internal/observability/metrics.go:66-99 | all counters and all series after one request |
| Metrics.Collector.ExportSeries | internal/observability/metrics.go:227-239 | each exported cumulative bucket is the number of the series' samples up to its bound, 5 to 5000 milliseconds, and +Inf is its count |
| Metrics.SeriesDescribesItsRequests | internal/observability/metrics.go:66-129 | over every run a series exists if and only if it counts a request, and holds their number, sum and distribution |
| Metrics.CountsSumToRequests | internal/observability/metrics.go:66-129 | over every run the counts of all series sum to the number of requests |
| Metrics.CountedExactly | internal/observability/metrics.go:75-96 | a request is counted under its own method and route if earlier ones were or fewer than 512 series are in use, else under its method's overflow series |
| Metrics.AtMostCounts | internal/observability/metrics.go:119-129 | the number of samples up to a bound is the number of their positions |
| Metrics.TruncatedDrops | internal/observability/metrics.go:72 | the whole microseconds added for a request: its duration with the fraction dropped, whatever its sign |
| Metrics.SeriesCapped | internal/observability/metrics.go:81-96 | at most 512 series and one more for each distinct method |
| Metrics.EscapeLabelValue | internal/observability/metrics.go:134-153 | both the shortcut and the loop compute the escaping |
| Metrics.LabelReadsBack | internal/observability/metrics.go:134-153 | a reader of the text format gets any label value back and stops at its closing quote |
| Metrics.KeySplitsExactly | internal/observability/metrics.go:197 | cutting a key at its first space gives back method and route if and only if the method has no space |
| Metrics.LabelsReadBack | internal/observability/metrics.go:223-231 | no method without a space and no route can corrupt a line: both labels and the rest of the line read back |

## Left out

- Sockets, processes, signals, symlinks, JSON, YAML, TLS, the dashboard, the CLI and the HTTP middleware around the cores (but for the decision in `ModeMiddleware`): steps that succeed or fail stand for them.
- float64 rounding, int64 overflow of counters and the monotonic clock of Go: reals, unbounded integers and readings that never go back stand for them.
- RateLimit.MinPlus: asks for a rate that is not negative, as a limiter that drains over time has no such bound; it speaks of a bucket that lives, and what happens at the table's cap is in the contract of Allow.
- Eviction.SweepsUnobservableIff: asks for a rate of at least one, as the configuration does (internal/config/validate.go:163), and at least one key.
- PerRoute.PerRouteLimiter.Allow: the limiters are values, not nested objects, so aliasing between limiters is not captured; the interleaving of two calls between the two locks is not either.
- PerRouteDrain.CleanupsUnobservableIff: asks for rates of at least one and for the equal global rate and burst the constructor gives; the clock readings of a call follow one another, so two calls that overlap are left out.
- Supervisor.Supervisor.Start: a start, stop or check is one step; a Start running against a Stop on the same supervisor is not modelled, nor is the generation of the configuration file or the log output.
- Watchdog.Backoff: durations are unbounded, so the overflow of doubling an int64 is not captured, nor is the uniformity of the draw.
- Watchdog.Watchdog.Admit: the source filters the restart list in place over its own storage; here the list is a sequence that is reassigned.
- FastCgiRequest.Client.SendRequest: writes succeed; write errors, deadlines and context cancellation are left out.
- FastCgiRequest.RequestArrives: of parameters over 65535 encoded bytes it says what the application reads of their record, not what it makes of the bytes behind it. The keep-connection flag is not read by the application side.
- FastCgiWire.PairRoundTrip: names and values below 2^31 bytes, the exact range of the length encoding by `FastCgiWire.LengthRoundTrip`.
- FastCgiResponse.ReadersAgree: the context and the connection's deadlines are left out.
- Pool.EveryInterleavingSound: each holder puts a connection once, and activeCount after Close is not claimed, since the source resets it to zero while later Puts still decrement it. Stats and health probing are left out.
- PathParser.AcceptedExactly: characters are bytes and a control character is a byte below 32, 127, or one of the two-byte forms from 128 to 159; invalid UTF-8 is not told apart.
- Release.Manager.Create: the id is new, as its clock stamp makes it; copying the directory and its failure are left out.
- Release.Manager.Archive: a negative keep, for which the source would index past its list, is left out; the source sorts and walks the list, the model picks the next oldest each time.
- Release.RunRefinesList: times strictly increase, and a crash is left out, as a reload takes the stamps of failed releases from the directory. Metadata writes are assumed to succeed everywhere.
- Policy.Engine.MatchesCondition: case folding, regular expressions, addresses and ranges, and what a query parses to, are parameters.
- Policy.NewEngineForMode: the modes are the four named ones.
- CgiStream.ParseResponseStream: the body, since its reader may have lost what the scanner read ahead, and readers that fail or that report their end together with their last bytes, are left out.
- CgiResponse.StatusReads: codes of three digits; signs and leading zeros are in `CgiLaws.NumberReads`.
- ReleaseLaws.CreatedStays: asks that the new id is not the one an archived release left in `activeID`, as ids carry the time.
- CgiLaws.SpaceTable: code points of the Basic Multilingual Plane; there is no white space beyond it.
- Rewrite.LiteralTargetsNeedFewRewrites: targets that a substitution leaves alone; for others `Rewrite.BoundDecides` asks for the finite set of paths.
- Metrics.Collector.ExportSeries: the numbers of one series; the order of the series, number formatting and the other lines of the export are left out.
- Metrics.LabelReadsBack: characters are whole code points; the source replaces invalid UTF-8 when it escapes.
- Key-value stores, configuration defaults, canary weights, version listing, log ring buffers, route matching and the router's own table: they would add easy members only.
