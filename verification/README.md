# Verified models of the transport and the curl reference sources

A Dafny 4.11 project that models the parts of this repository where most can go
wrong, and proves what they are for:

- `BufferQueue`: the chunked byte queue of `old/lib/bufq.c`. Any sequence of calls is
  a run of a plain first-in-first-out sequence of bytes.
- `ChunkLinks`: the same steps on the linked chunks of that queue: its head, tail and
  spare pointers, the spare list of a pool, and who owns which chunk.
- `ConnectionPool`: the pool of `old/lib/conncache.c` and the shutdown list of
  `old/lib/cshutdn.c`. The limit check is exact, and nothing in use is evicted.
- `Redirect`: the redirect loop of `native/transport.c`, from the reading of a
  `Location` to the rewritten request, and what holds over a whole run.
- `References`: reference resolution as RFC 3986 has it, and exactly when that of
  `native/transport.c` agrees with it.
- `Response`: the response reader of `native/transport.c`. What a delivery yields does
  not depend on how the stream is cut into pieces; whether a head is refused for its
  size can, and the module says exactly when.
- `Unicode`: the UTF-8 validator of `native/transport.c` and the UTF-16 conversion of
  `android/jni_transport.c`, against the encodings of RFC 3629 and RFC 2781.
- `HappyEyeballs`: the race of connection attempts of `old/lib/cf-ip-happy.c`.
- `CookieMatch`, `CookieJar`, `CookieFile`: the cookies of `old/lib/cookie.c`: which
  go where, the jar over all its operations, and the file format.
- `Glob`: the backtracking matcher of `old/lib/curl_fnmatch.c`, against declarative
  matching.

`Bytes`, `Lists`, `Options` and `Text` hold what these share. The classes keep the
fields that the C structures keep, and the loops are the loops of the C functions;
each such method is proved against a function of its inputs or of the old state.
What callbacks, reads, writes and polls answer, which allocations fail and what the
resolver knows is nondeterministic or a parameter, so the contracts hold for every
environment.

`dafny verify dfyconfig.toml` checks the whole project.

## Where the code differs from its documentation

For each difference there is a theorem that says when the code does meet the standard or
its own documentation, exactly unless another word is said, and a concrete input on which
it does not.

- `resolve_location` merges as section 5.2.3 of RFC 3986 says and never removes dot
  segments (section 5.2.4), takes a reference with another scheme for a relative path,
  and refuses a fragment alone. `References.ResolveIsRfc` is the condition;
  `References.DotsAreKept`, `References.SchemeIsMerged` and
  `References.FragmentIsRefused` are inputs.
- `cookie_sort` prefers longer domains and names to older cookies, and puts the newer of
  two otherwise equal cookies first; section 5.4 of RFC 6265 puts the earlier one first.
  `CookieMatch.OrderIsRfc` is the condition, `CookieMatch.NewerGoesFirst` an input.
- `Curl_fnmatch` consults only the first keyword of the class chain, and takes `space`
  for a blank. `Glob.ContainsMeans`, `Glob.ClassesMeanUnion` and `Glob.PatternMeans`
  are the conditions for a character, a bracket and a pattern,
  `Glob.NewlineIsOverlooked` and `Glob.BlankIsOverlooked` inputs. It also refuses matches
  that need a third star group (`Glob.Fnmatch`, `Glob.ThirdGroupIsRefused`).
- `read_response_head` checks its limit of 64 KiB before it looks for the end of the
  head. A head that ends beyond 49153 bytes of a longer stream may be accepted or
  refused, as the pieces fall (`Response.PiecesMatter`).
- `pathmatch` and section 5.1.4 of RFC 6265 differ for a cookie path that ends in a
  slash. `CookieMatch.PathMatchIsRfc` says exactly when, and
  `CookieMatch.DeviationIsReachable` gives an input: `sanitize_cookie_path` drops one
  trailing slash only, so `/a//` becomes `/a/`.
- A cookie for all sub-domains of a domain without a dot can be in another bucket than
  the hosts that it matches (`CookieMatch.SingleLabelIsMissed`). A dot in every such
  domain is enough for one bucket to suffice (`CookieMatch.OneBucketSuffices`).
- When an allocation fails after the cookie to be replaced has been removed, the count of
  the jar stays one too high. `CookieJar.Jar.Add` and `CookieJar.GoneMeans` give the drift
  exactly; `CookieJar.CountsTheLost` reaches a running jar that is empty and counts one
  cookie.
- `Curl_bufq_write_pass` does not report the bytes that entered the queue before a failed
  chunk allocation. `BufferQueue.Queue.WritePass` counts them as `stray`, and
  `BufferQueue.StrayByte` reaches a state with one. On a hard limit, with spares of its
  own or a pool that holds them all, and on a soft limit when the queue is not full, the
  state before the call decides: an allocation fails exactly if the queue is not full and
  memory is the least of what limits the first write. In the other cases (no spares, a
  small pool, a full queue with a soft limit) the writer decides how many chunks are freed
  and wanted again; there it is enough that the chunks to be had can hold the buffer.
- `Curl_timeleft_ms` answers 0 for no limit, which `cf_ip_ballers_run` takes for an
  expired timer: it polls again at once, without a pause, until an attempt answers or
  the delay has passed. A limit is always in place while the transfer is connecting, but
  not for a later connection, such as the data connection of FTP
  (`old/lib/connect.c:80-90`). `HappyEyeballs.Ballers.Proceed` says exactly when a round
  repeats with nothing changed, and `HappyEyeballs.TwoAddressesSpin` reaches such a
  state.
- The option for the delay between attempts accepts 0 (`old/lib/setopt.c:67-79`). Then
  `cf_ip_ballers_run` restarts an inconclusive attempt again and again in one call, with
  no look at the time left, as long as it comes to no conclusion.
  `HappyEyeballs.Ballers.Proceed` says exactly when a round restarts,
  `HappyEyeballs.Ballers.KeepsRestarting` that it may do so any number of times, and
  `HappyEyeballs.OneAddressRestarts` reaches such a state.

## Model

| member | source | states |
|---|---|---|
| BufferQueue.Run | old/lib/bufq.c:243-619 | Every sequence of write, read, skip, peek, peek_at, sipn, slurp and reset, with or without a shared pool, a hard or soft limit and failing allocations, is a run of a plain byte sequence; each call is answered as that sequence would answer it, and what sipn and slurp put in is, in order, exactly what the reader delivered. |
| BufferQueue.Step | old/lib/bufq.c:243-619 | One call does to the content what it does to a plain byte sequence, its answer is about that call, and it puts in exactly the new bytes of the reader, if any. |
| BufferQueue.Queue.Write | old/lib/bufq.c:367-392 | Appends exactly the first `n` bytes, where `n` is the least of the whole buffer, on a hard limit the room (what the last chunk can take and a chunk for every spare and every chunk below the limit), and what the allocations that succeed can hold. Out of memory exactly when that last one is least, blocked exactly when nothing of a nonempty buffer fits. |
| BufferQueue.Written | old/lib/bufq.c:367-392 | A list that grew by a write and stopped only for the limit or for want of memory took in the least of the three amounts, and stopped for want of memory exactly if that amount is the least. |
| BufferQueue.Queue.WriteLoop | old/lib/bufq.c:376-390 | Stops early only with the last chunk written to its end: out of memory with every chunk in use that could be had, else on a hard limit with all chunks in use. |
| BufferQueue.Queue.Read | old/lib/bufq.c:401-415 | Returns exactly the front of the content and leaves the rest. |
| BufferQueue.Queue.Skip | old/lib/bufq.c:461-470 | Drops exactly the front of the content. |
| BufferQueue.Queue.Peek | old/lib/bufq.c:423-436 | Shows a front of the content without changing it, and nothing only if it is empty. |
| BufferQueue.Queue.PeekAt | old/lib/bufq.c:438-459 | Shows true bytes from the offset on exactly if the offset is inside the content. |
| BufferQueue.Queue.Pass | old/lib/bufq.c:472-502 | For any writer: old content follows what the writer had as its new bytes and the new content, and the count is what it accepted. It stops only with the queue empty or a writer that takes nothing, whose failure it reports. |
| BufferQueue.Queue.WritePass | old/lib/bufq.c:504-551 | Delivered bytes and new content are the old ones and the accepted prefix of the buffer. Bytes go unreported only if an allocation failed; otherwise it stops early only after a writer that took nothing, with the code of that writer or as blocked. On a hard limit with place for all chunks as spares of the queue or its pool, and on a soft limit when not full, an allocation fails exactly if the queue is not full and the first write runs out of memory; then what it took in goes unreported. In all cases none fails if the chunks to be had can hold the buffer. |
| BufferQueue.Queue.BackedSuffices | old/lib/bufq.c:318-344 | If the chunks below a hard limit can be had without an allocation, no write runs out of memory. |
| BufferQueue.StrayByte | old/lib/bufq.c:504-551 | A queue whose second chunk cannot be allocated takes in a byte and reports none. |
| BufferQueue.Queue.Sip | old/lib/bufq.c:553-569 | Appends exactly what one call of any reader delivers, never more than asked for, and answers as it did; calls none exactly when the limit or the memory leaves no room. |
| BufferQueue.Queue.Slurp | old/lib/bufq.c:579-613 | Appends exactly what the reader delivers and ends for every reader, on every limit; calls it unless no chunk can take a byte, and is blocked only with nothing read. |
| BufferQueue.Queue.Reset | old/lib/bufq.c:243-253 | Empties the queue and keeps all its chunks. |
| BufferQueue.Queue.Len | old/lib/bufq.c:255-264 | The length of the content. |
| BufferQueue.Queue.IsEmpty | old/lib/bufq.c:266-269 | True exactly if the content is empty. |
| BufferQueue.Queue.IsFull | old/lib/bufq.c:271-281 | True exactly if there is no spare chunk and the limit is exceeded, or reached with the last chunk written to its end. |
| BufferQueue.Queue.FullIsNoRoom | old/lib/bufq.c:271-281 | On a hard limit, that is exactly when the queue has no room for a byte, so a nonempty write accepts nothing. |
| BufferQueue.Queue.GetSpare | old/lib/bufq.c:283-316 | A reset chunk of the right size, counted once, unless limit or memory forbid it; spares go first. |
| BufferQueue.Queue.GetNonFullTail | old/lib/bufq.c:346-365 | The last chunk gets room for a byte, the content stays; failure leaves no spare and a full or missing last chunk. |
| BufferQueue.Queue.PruneHead | old/lib/bufq.c:318-344 | Disposes of empty first chunks without changing the content; chunk counts stay true. |
| BufferQueue.ChunkPool.Take | old/lib/bufq.c:156-184 | Takes a spare if there is one, else allocates; the chunk is reset. |
| BufferQueue.ChunkPool.Put | old/lib/bufq.c:186-198 | Keeps the chunk exactly while the pool is below its maximum. |
| BufferQueue.Chunk.Append | old/lib/bufq.c:49-61 | Appends as much as fits to the unread bytes. |
| BufferQueue.Chunk.Take | old/lib/bufq.c:63-82 | Takes as much as asked for or all there is off the front of the unread bytes. |
| BufferQueue.HeldLength | old/lib/bufq.c:255-365 | In a packed list every chunk but the last is full, so the content is all the space less what was read from the first and what the last can take. |
| BufferQueue.TakenIn | old/lib/bufq.c:283-392 | What can be added to a list is bounded by the room of its last chunk and the chunks below the limit, with equality once all are used up. |
| BufferQueue.EmptyList | old/lib/bufq.c:266-269 | The content is empty exactly if there is no chunk or the first is empty. |
| ChunkLinks.LinkedQueue.GetNonFullTail | old/lib/bufq.c:346-365 | The last chunk if it is not full, else a reset one from the spare list, the pool or the allocator is linked after it, exactly if the limit and the memory allow it; all lists stay linked, with the tail at the end. |
| ChunkLinks.LinkedQueue.GetSpare | old/lib/bufq.c:283-316 | The first node of the spare list, else of the pool, else a new one leaves its list, linked to nothing. |
| ChunkLinks.LinkedQueue.PruneHead | old/lib/bufq.c:318-344 | The empty first nodes leave the list, with head and tail adjusted; what remains is the rest of the list, and starts with a nonempty chunk. |
| ChunkLinks.LinkedQueue.Dispose | old/lib/bufq.c:328-342 | An emptied chunk becomes the first of the pool, the first spare one, or is freed, as the limit and the options say. |
| ChunkLinks.LinkedQueue.WriteTurn | old/lib/bufq.c:376-390 | One turn of a write appends bytes to the content of the linked list. |
| ChunkLinks.LinkedQueue.ReadTurn | old/lib/bufq.c:407-412 | One turn of a read takes bytes off its front and drops what it empties. |
| ChunkLinks.LinkedQueue.ResetTurn | old/lib/bufq.c:243-253 | The first chunk becomes the first spare one. |
| ChunkLinks.LinkedPool.Take | old/lib/bufq.c:156-184 | The first spare node leaves the list of the pool, else a new one is made. |
| ChunkLinks.LinkedPool.Put | old/lib/bufq.c:186-198 | The node becomes the first of the list exactly while the pool is below its maximum. |
| ChunkLinks.NoneShared | old/lib/bufq.c:156-198 | Two queues with one pool share no chunk. |
| ChunkLinks.Beside | old/lib/bufq.c:156-365 | No turn of one queue changes the lists or the content of another with the same pool, and the two go on sharing no chunk. |
| ChunkLinks.SegSnoc | old/lib/bufq.c:346-365 | A list that ends in a node is the list before it and that node, linked to the end. |
| ConnectionPool.Pool.CheckLimits | old/lib/conncache.c:453-551 | The verdict is exact: the destination limit is hit exactly if the connections to it that cannot be evicted reach it, which are those in use if the clock is not behind any use; then the total limit, exactly if the connections that cannot be evicted from what the first phase leaves reach it. What that phase leaves is fixed: only idle connections to the destination are gone, none used more recently than an idle one that stays, and how many stay is given. On success both sums are strictly below their limits; the connections in use stay as they are. |
| ConnectionPool.Pool.DestPhase | old/lib/conncache.c:479-518 | Succeeds exactly if fewer than the limit are stuck; then live and shutting-down connections to the destination are the smaller of the old sum and the limit less one. Only idle ones go, none used more recently than an idle one that stays, and exactly as many as the limit and the stuck ones demand. |
| ConnectionPool.Pool.TotalPhase | old/lib/conncache.c:520-546 | The same for all connections; what is evicted was never used more recently than an evictable one that stays. |
| ConnectionPool.Pool.Add | old/lib/conncache.c:553-585 | The connection is appended to the bundle of its own destination with a fresh id; the count stays the sum of the bundles. |
| ConnectionPool.Pool.Remove | old/lib/conncache.c:158-178 | One connection leaves its bundle, and an empty bundle the index. |
| ConnectionPool.Pool.Close | old/lib/conncache.c:375-427 | One in use stays unless aborted; otherwise it leaves the pool, and enters the shutdown list only if it may be shut down gracefully. |
| ConnectionPool.Pool.Evict | old/lib/conncache.c:441-451 | The connection leaves the pool, and live plus shutting-down connections to no destination grow. |
| ConnectionPool.Pool.OldestIdle | old/lib/conncache.c:313-339 | The first of those idle longest in a bundle, and none exactly if all are in use or used after the given time. |
| ConnectionPool.Pool.OldestIdleAll | old/lib/conncache.c:341-373 | The evictable connection idle longest over all bundles, and none only if all are pinned. |
| ConnectionPool.Pool.EvictOldest | old/lib/conncache.c:528-540 | What is evicted is not in use, and no evictable connection left was used earlier; all that are in use stay. |
| ConnectionPool.Pool.NetworkChanged | old/lib/conncache.c:895-904 | Exactly the connections in use remain, in order, all marked as not reusable. |
| ConnectionPool.Pool.MarkStale | old/lib/conncache.c:872-881 | Every connection is marked and none moves. |
| ConnectionPool.Pool.ReapOne | old/lib/conncache.c:883-893 | One connection that is idle and not reusable goes, and none is left when none is found. |
| ConnectionPool.ShutdownList.DestroyOldest | old/lib/cshutdn.c:168-193 | Terminates the first connection that matches, and none only if none does. |
| ConnectionPool.ShutdownList.DestCount | old/lib/cshutdn.c:358-373 | The number of connections to the destination. |
| ConnectionPool.ShutdownList.Add | old/lib/cshutdn.c:390-419 | Makes room under the total limit by terminating the oldest, then appends unless the event callback refuses. |
| ConnectionPool.StuckIsUsed | old/lib/conncache.c:313-339 | With a clock not behind any use, the connections that cannot be evicted are exactly those in use. |
| ConnectionPool.SumPut | old/lib/conncache.c:158-178 | Replacing one bundle changes the sum of all by the difference of its sizes. |
| Redirect.SendRequest | native/transport.c:1085-1218 | At most nine requests are sent, each the rewriting of the one before for the endpoint its reply resolves to. The exit code is that of a failure, 8 exactly if the last reply is a redirect, which then is the ninth reply or cannot be followed, and else the verdict on the last response, unless a read or a file operation fails. Without capture it is from 0 to 8. |
| Redirect.RunTargets | native/transport.c:1128-1218 | In every run from a well-formed request, each request names the target of the current endpoint, which starts with a slash. |
| Redirect.RunHosts | native/transport.c:1128-1218 | Every redirected request has a Host line, and all its Host lines name the current endpoint. |
| Redirect.RunKeepsHeaders | native/transport.c:1203-1217 | While all hops stay on one origin, the lines other than Host survive in order. |
| Redirect.RunDropsCredentials | native/transport.c:1203-1217 | After the first hop to another origin, no later request holds a line named Authorization, Cookie or a declared name, except Host. |
| Redirect.RunRelays | native/transport.c:1128-1218 | Every hop of a run hands on the header lines as the policy for its origin says. |
| Redirect.Next | native/transport.c:1196-1217 | A redirect is followed exactly if its Location resolves, all header lines are terminated and the result fits the buffer. |
| Redirect.Rewrite | native/transport.c:971-1053 | Succeeds exactly if all lines are terminated and the result with its NUL fits the precomputed capacity; the output is the new request line, the kept lines in order with Host replaced in place or appended, and an empty line. |
| Redirect.RewriteFits | native/transport.c:971-1053 | With at most one Host line and a valid endpoint, the capacity is never exhausted. |
| Redirect.RewrittenReadsBack | native/transport.c:857-873 | The output splits into the lines it was made of, and request_target of it is the target of the endpoint. |
| Redirect.CopyLines | native/transport.c:999-1037 | The loop over the header lines fails exactly on a line that is not terminated or an output that does not fit. |
| Redirect.CopyLine | native/transport.c:1011-1035 | One line is replaced, dropped or copied as the policy says, if there is room. |
| Redirect.NamedInList | native/transport.c:947-969 | True exactly if one of the nonempty names of the list names the line. |
| Redirect.NewLinesPolicy | native/transport.c:1011-1035 | After the rewriting all Host lines name the endpoint; without keeping, no other line is sensitive; with keeping, all other lines stay in order. |
| Redirect.JoinReadsBack | native/transport.c:971-1053 | Lines joined with CRLF and closed by an empty line are read back as they were. |
| Redirect.ResolveIsValid | native/transport.c:875-925 | Whatever a server sends, a resolved endpoint has a nonempty visible host, a port from 1 to 65535 and a visible target that starts with a slash. |
| Redirect.ResolveReadsBack | native/transport.c:815-855 | An endpoint written as an absolute reference is resolved to itself, with or without a default port. |
| Redirect.MergeMeans | native/transport.c:898-924 | A query replaces the query of the current target; any other relative reference replaces what follows the last slash of its path. |
| References.ResolveIsRfc | native/transport.c:875-925 | The endpoint is the one of section 5.2 of RFC 3986 exactly if the reference is accepted, has no scheme other than http and https and leaves no dot segment to remove, or is refused and means no endpoint. Here an authority that `parse_authority` cannot read, such as one with user information or a bracketed host, means no endpoint. |
| References.AcceptedMeans | native/transport.c:875-925 | The references that are accepted: visible and not too long, with more than a fragment, an authority that can be read and a target that fits. |
| References.RemoveDotsMeans | native/transport.c:898-924 | The removal of dot segments leaves a path as it is exactly if it has none, and shortens any other; never to remove them is right for the former only. |
| References.HasDotsMeans | native/transport.c:898-924 | A path has a dot segment exactly if one stands between slashes or at an end. |
| References.DotsAreKept | native/transport.c:890-897 | `/a/..` becomes the target as it is, where the RFC has `/`. |
| References.SchemeIsMerged | native/transport.c:898-924 | `ftp://h` is merged with the path of the base, where the RFC has another resource. |
| References.FragmentIsRefused | native/transport.c:875-889 | `#x` is refused, where the RFC has the base itself. |
| Redirect.ParsePortText | native/transport.c:758-777 | A port is read exactly from a text of digits whose number is from 1 to 65535. |
| Redirect.PortReadsBack | native/transport.c:758-777 | The decimal digits of every port are read as that port. |
| Response.ReadResponseHead | native/transport.c:528-599 | Unless a read fails, the answer is the one that the stream and its pieces determine: refused for its size, ended too early, or the fields of what stands before the first empty line, or a status that is none. On success exactly the bytes after the empty line are kept; the prefix is shorter than the last read, so the exit for a prefix that is too large is never taken. |
| Response.PiecesDoNotMatter | native/transport.c:528-632 | Two successful deliveries of one stream have the same head and the same body. |
| Response.PrefixFits | native/transport.c:584-592 | A head that is completed by a piece leaves fewer bytes of body than the piece has. |
| Response.RefusedBySome | native/transport.c:541-552 | Some pieces have a head refused for its size exactly if the stream is longer than 64 KiB and the head does not end within 49153 bytes, or if it is 64 KiB without an end. |
| Response.RefusedByAll | native/transport.c:541-552 | All pieces do exactly if the head ends beyond 64 KiB, or never and there are 64 KiB. |
| Response.PiecesMatter | native/transport.c:541-552 | Two ways to cut the stream differ in that exactly if the head ends after 49153 and within 65536 bytes of a longer stream. |
| Response.SplitIsUnique | native/transport.c:421-429 | There is one way to split a stream after its first empty line. |
| Response.SplitIsStable | native/transport.c:421-429 | Where a head ends does not depend on what follows. |
| Response.FindHeaderEnd | native/transport.c:421-429 | Finds the first empty line exactly if there is one. |
| Response.CopyHeaderValue | native/transport.c:453-500 | The trimmed value of the first line named so before an empty line, if it is not empty and fits. |
| Response.FirstNamedMeans | native/transport.c:453-500 | A value is found exactly if some line is named so with only other nonempty lines before it. |
| Response.HeaderCount | native/transport.c:513-526 | The number of terminated lines with the name. |
| Response.FramingIsExact | native/transport.c:568-575 | Framing is valid exactly if there is no Transfer-Encoding and one Content-Length line if a length is declared, else none. |
| Response.FoundIsCounted | native/transport.c:453-526 | The search and the count agree: a header whose value is found is counted. |
| Response.ParseContentLength | native/transport.c:502-511 | The number of a text of digits up to the largest 64-bit value, and -1 for every other text. |
| Response.LengthReadsBack | native/transport.c:502-511 | The decimal digits of every such number declare it. |
| Response.StatusReadsBack | native/transport.c:435-451 | A status line with a three-digit status gives that status. |
| Response.ReadFields | native/transport.c:560-582 | The fields of a head with a status from 100 to 599, and none otherwise. |
| Response.CopyRemainingBody | native/transport.c:601-632 | Completion delivers exactly the prefix and the rest of the stream; a captured body over 8 MiB is never complete; on every outcome what was written is a front of it. |
| Response.Deliver | native/transport.c:1145-1187 | Unless a read or a file operation fails, the code is exactly the verdict on the response: in capture mode 13 for its framing, 12 for its size, 9 for its length, 10 for its status, else 0. After such a failure it is none of 0, 9 and 10. |
| Response.ZeroMeans | native/transport.c:1145-1187 | For a captured body, 0 means valid framing, a success status, at most 8 MiB and the declared length. |
| Response.Receive | native/transport.c:1145-1187 | Code 0 means that the output holds exactly what follows the first empty line of the stream and that the verdict on it is 0. Without a failure the code is the verdict exactly if the pieces let the head be read whole and its status is from 100 to 599, and else 13, or 7 without capture. |
| Unicode.ValidUtf8 | native/transport.c:638-679 | Accepts exactly the byte strings that encode some sequence of Unicode scalar values. |
| Unicode.Utf8Unique | native/transport.c:638-679 | That sequence is unique. |
| Unicode.ScanUtf8 | native/transport.c:638-679 | The loop accepts exactly the grammar of section 4 of RFC 3629. |
| Unicode.WellFormedIsEncoded | native/transport.c:638-679 | What the grammar accepts is the encoding of the scalars that it yields. |
| Unicode.EncodedIsWellFormed | native/transport.c:638-679 | Every encoding of scalars is accepted. |
| Unicode.ToUtf8 | android/jni_transport.c:57-95 | Succeeds exactly on well-formed UTF-16, never runs out of its 4n+1 bytes, and outputs the UTF-8 of the decoded scalars with a NUL. |
| Unicode.OutputIsFaithful | android/jni_transport.c:57-95 | The output is accepted by the UTF-8 validator and determines the units. |
| Unicode.AppendCodePoint | android/jni_transport.c:21-45 | Appends the UTF-8 of the scalar exactly if it fits before the last byte. |
| Unicode.ReadCodePoint | android/jni_transport.c:66-83 | Decodes the character at the index, and fails exactly on a surrogate without its pair. |
| Unicode.Utf16RoundTrip | android/jni_transport.c:66-83 | Scalars written as UTF-16 are decoded to themselves. |
| Unicode.WellFormed16IsEncoded | android/jni_transport.c:66-83 | The units that are accepted are exactly the UTF-16 encodings of scalars. |
| HappyEyeballs.Ballers.Run | old/lib/cf-ip-happy.c:391-596 | Ends for every finite resolver and every answer of the attempts, or comes to the state in which it polls on at once, or, with a delay of 0 only, restarts twice with no time between; keeps the race consistent (a winner is alone, every attempt is running, the winner or freed, the limit holds), gives up only with both families tried, the resolver done and nothing ongoing or inconclusive, and times out only without time left. With an address left it waits for the earlier of the next attempt and the end of the time left; without one, for the ongoing attempts with no timer, else for the resolver or for a restart. |
| HappyEyeballs.Ballers.Round | old/lib/cf-ip-happy.c:405-596 | One round wins, starts, restarts, waits or gives up as above, and makes progress if it goes again. With all attempts pending it repeats with nothing changed exactly if there is no limit on the time, an address is left, an attempt is ongoing and the delay has not passed. |
| HappyEyeballs.Ballers.Proceed | old/lib/cf-ip-happy.c:441-596 | After the scan, that is exactly the condition on the state in which it is to poll again at once, and the state is left as it is. It restarts an attempt exactly if no address is left, all attempts have failed, one of them to no conclusion, the delay has passed and the set-up works. |
| HappyEyeballs.Ballers.StaysSpinning | old/lib/cf-ip-happy.c:565-592 | From such a state, any number of rounds without an answer leave everything as it is. |
| HappyEyeballs.TwoAddressesSpin | old/lib/cf-ip-happy.c:565-592 | Two addresses and no limit on the time lead to such a state after the first attempt. |
| HappyEyeballs.Ballers.KeepsRestarting | old/lib/cf-ip-happy.c:519-541 | Without a delay, any number of rounds restart an attempt that comes to no conclusion, and start nothing else. |
| HappyEyeballs.OneAddressRestarts | old/lib/cf-ip-happy.c:519-541 | One address and no delay lead to such a state. |
| HappyEyeballs.InResolverOrder | old/lib/cf-ip-happy.c:137-150 | In every reachable state, each address of each family was started at most once and in resolver order. |
| HappyEyeballs.Alternates | old/lib/cf-ip-happy.c:461-481 | A family is started twice in a row only if the other had run out at that moment. |
| HappyEyeballs.KeepsDelay | old/lib/cf-ip-happy.c:442-461 | In every reachable state, an attempt joined an ongoing one only after the delay since the last start. |
| HappyEyeballs.Ballers.Poll | old/lib/cf-ip-happy.c:407-439 | Every attempt takes its answer; the first that connects wins, with all others freed, and none wins exactly if none connects, when ongoing and inconclusive attempts are counted exactly. |
| HappyEyeballs.Ballers.Win | old/lib/cf-ip-happy.c:417-429 | The winner leaves the list and every other attempt is freed once. |
| HappyEyeballs.Ballers.NextAddress | old/lib/cf-ip-happy.c:462-481 | Takes the next address of a family exactly if one is left, of the other family if it has any. |
| HappyEyeballs.Ballers.TryStart | old/lib/cf-ip-happy.c:461-518 | Takes one address, exactly if one is left, and logs the attempt for it. |
| HappyEyeballs.Ballers.Prune | old/lib/cf-ip-happy.c:362-389 | Frees the oldest ongoing attempts, and only as many as needed to meet the limit. |
| HappyEyeballs.Ballers.PruneList | old/lib/cf-ip-happy.c:362-389 | The list without its first surplus ongoing attempts. |
| HappyEyeballs.PruneCounts | old/lib/cf-ip-happy.c:362-389 | Pruning leaves the limit of ongoing attempts and touches no other. |
| HappyEyeballs.Ballers.Restart | old/lib/cf-ip-happy.c:289-317 | Only an inconclusive attempt is restarted, and only with nothing ongoing. |
| HappyEyeballs.Ballers.NothingLeft | old/lib/cf-ip-happy.c:519-560 | Without an address left, an inconclusive attempt is restarted when it is due, awaited, or else the race is given up. |
| CookieMatch.OneBucketSuffices | old/lib/cookie.c:1327-1356 | If every cookie has a domain, and those for sub-domains one with a dot that is no address, the bucket of the host holds all that match in the 63 buckets, in their order. |
| CookieMatch.MatchIsInBucket | old/lib/cookie.c:161-221 | A matching cookie has the bucket of the host. |
| CookieMatch.SingleLabelIsMissed | old/lib/cookie.c:161-221 | Without the dot this fails: a cookie for `a` matches `b.a` from another bucket. |
| CookieMatch.BucketBlind | old/lib/cookie.c:190-221 | Names that differ in case share a bucket. |
| CookieMatch.HashBlind | old/lib/cookie.c:190-202 | The hash of a name does not depend on the case of its letters. |
| CookieMatch.TopOfTail | old/lib/cookie.c:161-180 | A sub-domain of a domain with a dot has the same last two labels. |
| CookieMatch.TailMatchMeans | old/lib/cookie.c:73-100 | The domain match of section 5.1.3 of RFC 6265 for names. |
| CookieMatch.PathMatchIsRfc | old/lib/cookie.c:106-156 | Exactly when the path match is that of section 5.1.4 of RFC 6265. |
| CookieMatch.SanitizeFixes | old/lib/cookie.c:226-248 | The paths that sanitizing leaves as they are. |
| CookieMatch.DeviationIsReachable | old/lib/cookie.c:226-248 | A sanitized path on which the path match deviates. |
| CookieMatch.Sort | old/lib/cookie.c:1248-1277 | The cookies in the order of cookie_sort, none lost or added. |
| CookieMatch.OrderIsUnique | old/lib/cookie.c:1248-1277 | There is one such order only. |
| CookieMatch.OrderIsRfc | old/lib/cookie.c:1248-1277 | The sorted list is in the order of section 5.4 of RFC 6265 exactly if, among its cookies with equally long paths, an older one has a longer domain, or an equally long one and a longer name. |
| CookieMatch.PairIsRfc | old/lib/cookie.c:1248-1277 | Two cookies stand the same way in both orders exactly then. |
| CookieMatch.NewerGoesFirst | old/lib/cookie.c:1248-1277 | Two cookies that differ in name and time only are sorted against the RFC. |
| CookieJar.Jar.Add | old/lib/cookie.c:1018-1092 | The whole outcome: dropped for its prefix or session, refused exactly as replace_existing says, or stored in place of the one cookie with its name, domain, tail match and path, whose creation time it takes over; all other cookies stay. Keys and creation times stay unique, and the count is off exactly by the replacements that ran out of memory. |
| CookieJar.ReplaceExisting | old/lib/cookie.c:870-974 | Refuses exactly if a secure cookie would be overlaid or a live one replaced by one from a file; else takes out the first with the same key. |
| CookieJar.SecureStays | old/lib/cookie.c:896-922 | An insecure cookie removes no unexpired secure cookie that has a path. |
| CookieJar.GoneMeans | old/lib/cookie.c:870-974 | A cookie makes way for the new one exactly if one with its key is in the jar, so the count drifts exactly if memory fails then. |
| CookieJar.CountsTheLost | old/lib/cookie.c:1018-1092 | A cookie that is set, and set again without memory, leaves an empty running jar that counts one. |
| CookieJar.KeyIsInBucket | old/lib/cookie.c:879-880 | A key that is not in its own bucket is nowhere in the jar. |
| CookieJar.Supersede | old/lib/cookie.c:870-974 | The same for the whole jar: the cookie that goes is the only one with the key. |
| CookieJar.Jar.RemoveExpired | old/lib/cookie.c:273-315 | Removes exactly the expired cookies, also when it leaves early, and records the next expiry exactly when it does not. |
| CookieJar.NothingExpired | old/lib/cookie.c:287-291 | Before the recorded time nothing has expired, so the early exit is a full scan. |
| CookieJar.SweepAll | old/lib/cookie.c:293-314 | The scan keeps what has not expired, its earliest time and its count. |
| CookieJar.Jar.GetList | old/lib/cookie.c:1310-1410 | The first 150 unexpired matches of the bucket, in order; nothing if the bucket is empty or memory fails. |
| CookieJar.AnswerIsThatOfTheStore | old/lib/cookie.c:1310-1410 | With findable cookies, the list is the one ordered list of what the whole jar may send. |
| CookieJar.Pick | old/lib/cookie.c:1333-1368 | The loop collects the first 150 matches. |
| CookieJar.Jar.ClearAll | old/lib/cookie.c:1417-1433 | The jar is empty and its count 0. |
| CookieJar.Jar.ClearSession | old/lib/cookie.c:1440-1461 | Exactly the session cookies go. |
| CookieJar.Jar.EndLoad | old/lib/cookie.c:1197-1207 | After loading, expired cookies are gone and the jar is running. |
| CookieFile.RoundTrip | old/lib/cookie.c:1483-1507 | A cookie free of control bytes comes back from its printed line with name, value, path, domain, expiry, tail match, secure and http-only exactly if its expiry is not negative, its path is fixed by sanitizing, and its domain starts with no dot, and with no comment sign unless it is printed with a dot. |
| CookieFile.ParseNetscape | old/lib/cookie.c:667-798 | The loop over the fields computes what the line means: the http-only mark, a path that was left out, six or seven fields, and each reason to drop the line. |
| CookieFile.FieldsOfJoin | old/lib/cookie.c:701-706 | Fields joined with tabs are split again as they were. |
| CookieFile.NumberReadsBack | old/lib/curlx/strparse.c:170-211 | The decimal digits of every offset are read as that offset. |
| Glob.Fnmatch | old/lib/curl_fnmatch.c:349-358 | Matches exactly if the string matches declaratively and the pattern has at most two star groups; fails exactly on a missing argument. |
| Glob.Loop | old/lib/curl_fnmatch.c:251-344 | The same from any position with any budget; the backtracking ends and never reads beyond a terminator. |
| Glob.ThirdGroupIsRefused | old/lib/curl_fnmatch.c:263-264 | A pattern with three groups that matches declaratively and is refused. |
| Glob.SkipGroup | old/lib/curl_fnmatch.c:265-276 | The regrouping of stars and question marks keeps the verdict. |
| Glob.TryFrom | old/lib/curl_fnmatch.c:277-282 | Trying the rest from every position decides the group. |
| Glob.OneToken | old/lib/curl_fnmatch.c:283-342 | A token other than a star accepts one character, and the pattern goes on after it. |
| Glob.SetCharset | old/lib/curl_fnmatch.c:159-249 | The automaton fills the array with the bracket expression that the pattern spells, stops at its closing bracket, and fails exactly on a syntax error. |
| Glob.WrittenIsRead | old/lib/curl_fnmatch.c:137-249 | A bracket written from characters, ranges and keywords, negated or not, is read back as the characters and keywords that it was written from. |
| Glob.ReadableMeans | old/lib/curl_fnmatch.c:137-249 | A bracket is read from some pattern exactly if it lists or names something, and no NUL. |
| Glob.ContainsMeans | old/lib/curl_fnmatch.c:300-327 | The chain of tests decides the union of the listed characters and classes, or its complement, exactly for the characters that it does not overlook: those not listed, in some class, and rejected by the one test that is made. |
| Glob.ClassesMeanUnion | old/lib/curl_fnmatch.c:300-327 | With classes only, it is right about every character exactly if the first class of the chain, as it is tested, covers all that are named. |
| Glob.MatchesMeans | old/lib/curl_fnmatch.c:300-327 | On a string without overlooked characters, a pattern matches as its brackets are meant. |
| Glob.PatternMeans | old/lib/curl_fnmatch.c:300-327 | A pattern means on all strings what its brackets mean exactly if none of them overlooks a character, or if it can match nothing either way. |
| Glob.NewlineIsOverlooked | old/lib/curl_fnmatch.c:300-327 | `[[:space:]]` does not match a newline. |
| Glob.BlankIsOverlooked | old/lib/curl_fnmatch.c:300-327 | `[[:digit:][:space:]]` does not match a blank. |
| Glob.SetCharOrRange | old/lib/curl_fnmatch.c:137-156 | Adds the character, or the range of one class if there is one, and moves past it. |
| Glob.ParseKeyword | old/lib/curl_fnmatch.c:69-122 | Recognises exactly the keywords that are followed by their closing signs. |
| Glob.GroupAny | old/lib/curl_fnmatch.c:270-273 | A question mark within a group skips one character. |
| Glob.GroupRest | old/lib/curl_fnmatch.c:277-282 | After a group, the rest matches at some position before the end. |

## Left out

- BufferQueue.Queue.Write: chunks are values in two lists of the queue, and an overflowing size check reads as a failed allocation. The links, the tail and the identity of chunks are those of `ChunkLinks`, for every step of the loops; the loops themselves are proved on the values.
- BufferQueue.Queue.WritePass: for a queue without spares or with a small pool, and for a full one with a soft limit, the condition for no failed allocation is a sufficient one.
- The char versions of write and read, and the freeing of queues and pools, which add nothing.
- ConnectionPool.Pool.Add: connections are records and their addition does not run out of memory.
- ConnectionPool.Pool.CheckLimits: one pool and one shutdown list; locks and the multi's dummy transfer are not modelled.
- ConnectionPool.Pool.Close: whether a graceful shutdown is done at once is a nondeterministic choice.
- The pool's find, now-idle, prune-dead, upkeep and max-age functions, which visit the same bundles with callbacks that rest on sockets.
- HappyEyeballs.Ballers.Run: the clock stands still during a call, where the code reads it again each time (`old/lib/progress.c:171-175`); the resolver is a count of addresses per family. It returns where the code would poll on at once, and after the second restart with no time between.
- Shutdown, pollset and query functions of the race, which loop over the running list once.
- Redirect.SendRequest: connecting, TLS, the writing of requests and the CONNECT tunnel are one nondeterministic code, each reply is any stream in any pieces, and copying a request does not run out of memory.
- References.ResolveIsRfc: both sides read an authority as `parse_authority` does and keep no fragment; user information, bracketed hosts and percent-encodings are not modelled beyond that.
- Response.Deliver: files are a string that grows; opening, closing and the metadata file are nondeterministic choices.
- Response.ReadFields: bytes are characters, and digits and case are those of the C locale.
- Unicode.ToUtf8: memory suffices and the units are given; the calls into the Java environment are left out.
- CookieMatch.HashBlind: a byte above 127 is hashed without the sign extension that some platforms apply.
- CookieMatch.OneBucketSuffices: one direction only, since by chance of the hash a cookie without a dot in its domain can be in the right bucket.
- CookieJar.Jar.Add: starts from a parsed cookie; the limit of 50 per response is checked before that, the public-suffix answer is a parameter, and the counters do not wrap.
- CookieFile.ParseNetscape: memory suffices; the limit on the length of a line lies with its caller.
- The tokenising of Set-Cookie headers, the dates in them and the public-suffix list, which rest on other code.
- Reading and writing whole cookie files, which are sequences of the lines modelled here.
- Glob.Fnmatch: the branch that hands over to the C library is not modelled.
- Proxy filters, HTTP/2, content encodings, cryptographic helpers, the connection filters and the Amiga code.
