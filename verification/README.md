# Photogram, verified

Photogram is two C++ servers. The auth server (`auth_server_src`) reads raw HTTP from a socket, one thread a
connection, and answers for profiles, friends and tokens. The content server (`content_server_src`) is one event loop
over many connections: for each request it asks the auth server whose token the client sent, and then runs one
transaction over the posts, likes and photos in the database. This project models both in Dafny and proves what their
parsers, their protocol and their transactions keep over every input and every run.

## How the model is laid out

- `Text.dfy`: byte strings, `find`, `substr` (with its out-of-range exception and its clamped length) and 64-bit `size_t`
  arithmetic; the properties of first occurrences that all the parsers rest on.
- `FormRequest.dfy`: the one-pass query scanner, with a split-based reference and a printer.
- `FormDataParser.dfy`, `Multipart.dfy`: the multipart scanner with its wrapping positions; the multipart/form-data format
  written from section 5.1.1 of RFC 2046 and section 4.2 of RFC 7578, and the round trip.
- `HttpParser.dfy`, `HttpFraming.dfy`: header values, `stoi`, completeness and routing of raw requests, and what their
  prefixes and extensions parse to.
- `WorkWithClient.dfy`, `Reassembly.dfy`: the receive loop, and whole runs of it.
- `ForwardedRequest.dfy`: the question the content server puts to the auth server, from its bytes to its answer.
- `DBclient.dfy`, `Store.dfy`, `Feed.dfy`: the transactions, statement by statement, with a fault at any of them; the
  invariants and the history of all runs; the feed and its pages.
- `TcpConnection.dfy`, `Server.dfy`: the handlers of one connection and of its exchange with the auth server; the system of
  all connections, under every interleaving.
- `Answers.dfy`: what the auth server does with a whole request of each message: which token is checked, and for whom the
  request is carried out.
- `EndToEnd.dfy`, `Runs.dfy`: from the bytes of a form or a target to the committed tables; whole runs of both servers, route
  by route, in which nothing fails.

Code that updates state in the source is a class or a method here, proved against a specification function; the theorems
are about those functions. A transaction works on its own copy of the tables (`work`), which the commit installs; a fault,
given by the number of the statement at which the database fails, drops it; and a connection lost during the commit leaves
it installed, though its client is told of an error. A connection carries the trace of what was done
for it on either server: the check of its token, the call of its callback, its transaction, its response; and the system
keeps the list of all transactions in their order, which is tied to the database and to the traces. A run of the system is
any list of enabled steps, and each step also chooses what the environment does: errors, the bytes of a request, the pieces
in which the auth server receives its question, the database's faults.

## What turned out not to hold, and when it does

- The type of a form part is cut with the length of its Content-Disposition line. The scanner reads it exactly when it is
  no longer than that line (`Multipart.TypeIsExactIff`); every type of up to 39 bytes is, and that of a spreadsheet in a
  field `f` is not (`Multipart.LongTypeIsCut`). The form has one type for all its parts, that of the last typed part: a
  photo's own type is stored exactly when its part is that one, or that one's type is cut to the same text
  (`EndToEnd.PhotoTypeIsStoredIff`); ahead of a typed description a PNG is stored as `text/plain` (`EndToEnd.LaterTypeWins`).
- The routing arithmetic subtracts the position of the slash once too often. It recovers the route's name exactly when the
  slash is at index 1 (`HttpFraming.RouteIsExactIff`), as it is for a target that starts with `/`, and is not for one in
  absolute form (`HttpFraming.AbsoluteFormIsMisread`).
- A first chunk too short to show the method is thrown away. A request cut into pieces is served exactly when its first
  piece reaches the method's blank, and 7 bytes (`Reassembly.ServedIffFirstPieceLongEnough`). The content server's question,
  cut after its method's blank, is lost whole (`ForwardedRequest.CutAfterMethod`).
- So a question cut badly may be read from its middle on. The token that is checked is the forwarded one exactly when the
  first `Bearer ` is not thrown away (`ForwardedRequest.CheckedTokenIffBearerKept`), as it never is when the first piece
  has 7 bytes. A value that holds a question of its own, cut inside it, is answered for another token
  (`ForwardedRequest.CutInsideValue`), whose user's transaction is then run (`Runs.StrayTokenRuns`).
- A refused token leaves its request in the buffer, and bytes sent ahead of an answer are lost. A sequence of whole
  requests that parse is served as such exactly when every token that a route checks verifies, no chunk holds bytes of two
  requests, and each first piece shows its method (`Reassembly.StreamServedIff`). After a refused GET, every later chunk of
  the connection only brings the same refusal again (`Reassembly.RefusedGetSticks`); after a refused POST, the next chunk is
  thrown away with it (`Reassembly.RefusedPostSwallowsNext`). Bytes behind a GET or OPTIONS in one chunk vanish, and behind
  a POST they take it with them (`Reassembly.TrailingBytesAreLost`).
- The like counts agree with the `likes` rows in all runs exactly when `likes.post_id` is a foreign key
  (`Store.CountsAgreeIffForeignKey`): the schema is not in the repository, and the code does not check that the post exists.
- Pages are determined by the tables exactly when no two visible posts share a date (`Feed.PagesAgreeIffDistinctDates`).
- A query without `?` before its first `&` is refused even if its pairs are well formed (`FormRequest.BadHttpExample`).

## Model

| member | source | states |
|---|---|---|
| `Properties.AssignIsLastWins` | content_server_src/FormRequest/FormRequest.cpp:29-30 | assigning keys one after the other keeps, for each key, the last value assigned, and leaves the other keys alone |
| `FormRequest.URLParser` | content_server_src/FormRequest/FormRequest.cpp:17-36 | throws `bad http` exactly when the first `&` before the first space has no `?` before it or no `=` before it past position 0, always before its first write; otherwise assigns the entries of the scan in order; no substring starts out of range |
| `FormRequest.EntryMeaning` | content_server_src/FormRequest/FormRequest.cpp:29-30 | what the underflowing subtractions mean: a key whose last `=` stands before its start runs to the very end of the target |
| `FormRequest.SplitIsInverseOfJoin` | content_server_src/FormRequest/FormRequest.cpp:21-32 | the reference split on `&` loses nothing: joining its segments gives the text back |
| `FormRequest.SegmentsHoldNoSeparator` | content_server_src/FormRequest/FormRequest.cpp:26-32 | no segment of the reference split holds an `&` |
| `FormRequest.ScannerRefinesSplit` | content_server_src/FormRequest/FormRequest.cpp:17-36 | on every target with a `?` in its first segment and an `=` after the last `?` of every segment, the single pass yields the entries of the split, in order, and does not throw |
| `FormRequest.QueryRoundTrip` | content_server_src/FormRequest/FormRequest.cpp:17-36 | scanning a printed path and list of pairs, with anything after a space behind it, gives exactly the pairs back |
| `FormRequest.BadHttpIff` | content_server_src/FormRequest/FormRequest.cpp:26-28 | the scan throws if and only if the part of the target before the first space has several segments and the first of them has no `?`, or no `=` past its first byte |
| `FormRequest.BadHttpExample` | content_server_src/FormRequest/FormRequest.cpp:26-28 | a well-assigned target without `?` in its first segment is refused |
| `FormRequest.QueryRoundTripFrom` | auth_server_src/HttpParser.cpp:94-118 | scanning from an offset, with anything before it, gives the printed pairs back too |
| `FormDataParser.AddProperty` | content_server_src/FormDataParser/FormDataParser.cpp:17-32 | assigns what its window says, and throws at the out-of-range substring, keeping what was assigned before |
| `FormDataParser.GetContent` | content_server_src/FormDataParser/FormDataParser.cpp:3-15 | for every body and boundary, also without delimiters, where positions wrap: the loop ends, its decrement does not underflow, and it does the windows of the scan in order, leaving early only when one throws |
| `FormDataParser.ScanIsLinear` | content_server_src/FormDataParser/FormDataParser.cpp:7-14 | the scan does at least one window, and the others are no more than the body's size divided by the delimiter's size plus two |
| `FormDataParser.WindowsTile` | content_server_src/FormDataParser/FormDataParser.cpp:7-14 | with two delimiters or more, the windows lie in bounds, each between a delimiter with two bytes after it and the very next delimiter, and delimiters, pairs of bytes and windows spell the body from the first delimiter to the last |
| `FormDataParser.FewDelimiters` | content_server_src/FormDataParser/FormDataParser.cpp:7-14 | without a delimiter one window begins where the positions wrap to and runs to the end; with one, the scan begins again at the wrapped position after what is behind it |
| `FormDataParser.TruncatedThrows` | content_server_src/FormDataParser/FormDataParser.cpp:7-17 | a body that ends with its only delimiter throws, with nothing assigned |
| `Multipart.PartIsAssigned` | content_server_src/FormDataParser/FormDataParser.cpp:17-32 | the window of an encoded part assigns exactly its type, cut to the length of its first line, and its name with its data, whatever bytes the data holds |
| `Multipart.UnnamedAssignsNothing` | content_server_src/FormDataParser/FormDataParser.cpp:17-32 | a part whose headers hold neither a name nor a type assigns nothing |
| `Multipart.FormRoundTrip` | content_server_src/FormDataParser/FormDataParser.cpp:3-36 | scanning an encoded form, with any preamble and epilogue free of the delimiter, assigns exactly the pairs of its parts, in order |
| `Multipart.BoundaryWithOwnByte` | content_server_src/FormDataParser/FormDataParser.cpp:34-36 | any boundary with a byte that occurs in no part makes a form the round trip speaks of |
| `Multipart.TypeIsExactIff` | content_server_src/FormDataParser/FormDataParser.cpp:19-22 | the scan of a part's window yields its type exactly if and only if it is no longer than the Content-Disposition line |
| `Multipart.LongTypeIsCut` | content_server_src/FormDataParser/FormDataParser.cpp:19-22 | a type of 46 bytes behind a line of 40 loses its last six |
| `Request.HeaderValueIs` | auth_server_src/HttpParser.cpp:77-121 | what `getValueSomeHeader` and `getValueWithSpace` (Request.cpp, lines 27 to 45) give their callers: a header value on a terminated line is the rest of the line, with the last byte of the header string in front in the one function and without it in the other |
| `Request.HeaderValueStable` | auth_server_src/HttpParser.cpp:211 | such a value, as the length is read by the completeness check on every chunk (Request.cpp, lines 27 to 45), reads the same when more bytes arrive |
| `Decimal.StoiOfPrint` | auth_server_src/HttpParser.cpp:211 | `stoi` gives back every printed number of 32 bits, with a sign or without, behind the blank that the header value keeps and ahead of anything but a digit, and refuses the others |
| `HttpParser.FillGetT` | auth_server_src/HttpParser.cpp:73-127 | fills the block with the origin, message, token and properties of a GET, or stops at the first that is missing, with the status of that failure |
| `HttpParser.FillPostT` | auth_server_src/HttpParser.cpp:129-184 | likewise for a POST |
| `HttpParser.FillOptionsT` | auth_server_src/HttpParser.cpp:186-197 | likewise for OPTIONS |
| `HttpParser.ParseInto` | auth_server_src/HttpParser.cpp:224-257 | the verdict on a buffer and, on success, the block, are those of the parsing function the framing lemmas speak of |
| `HttpFraming.MethodOfPrefix` | auth_server_src/HttpParser.cpp:9-32 | a request is recognised from exactly its first max(7, method + blank) bytes on, and always as the same method |
| `HttpFraming.PrefixVerdict` | auth_server_src/HttpParser.cpp:199-235 | every proper prefix of a whole request parses to "not full" as soon as the method can be recognised, and to "bad http" before |
| `HttpFraming.ParseOfComplete` | auth_server_src/HttpParser.cpp:224-257 | a whole request passes the completeness check and is handed to the parser of its method |
| `HttpFraming.RenderedPostIsComplete` | auth_server_src/HttpParser.cpp:199-220 | a POST rendered with its body's size in a Content-Length line is whole, for every body below 2^31 bytes |
| `HttpFraming.PostWithoutLength` | auth_server_src/HttpParser.cpp:199-222 | a POST whose headers have ended dereferences an empty optional without a length header, throws on a length that is no 32-bit number, and waits for the rest on a negative one |
| `HttpFraming.RouteIsExactIff` | auth_server_src/HttpParser.cpp:43-71 | the index arithmetic recovers the name after the first slash if and only if that slash is at index 1 |
| `HttpFraming.AbsoluteFormIsMisread` | auth_server_src/HttpParser.cpp:43-71 | of ` http://h/login HTTP/1.1` it recovers `/h/`, which no route table holds |
| `HttpFraming.GetNamesAre` | auth_server_src/HttpDef.hpp:64-75 | the table of GET routes holds each message under its own name, and no other |
| `HttpFraming.PostNamesAre` | auth_server_src/HttpDef.hpp:42-49 | likewise for POST |
| `HttpFraming.GetIsRouted` | auth_server_src/HttpParser.cpp:58-127 | a whole GET for `/name` with an Origin header is `bad_http` for a name of no message, and the message of that name otherwise, unless reading its token or query throws |
| `HttpFraming.PostIsRouted` | auth_server_src/HttpParser.cpp:43-184 | likewise for a POST, unless its token is missing or its body does not decode |
| `WorkWithClient.Client.Run` | auth_server_src/WorkWithClient.cpp:30-343 | the loop over received chunks does what folding its turns over them does: append, parse all, wait, clear, or answer |
| `WorkWithClient.Client.Answer` | auth_server_src/WorkWithClient.cpp:49-334 | carries a request out for the user its token names, or refuses it and keeps the buffer |
| `Reassembly.PiecesAddUp` | auth_server_src/WorkWithClient.cpp:34-41 | once the method shows, the pieces of a whole request have the effect of one turn on all of it |
| `Reassembly.StreamIsReassembled` | auth_server_src/WorkWithClient.cpp:30-338 | for any sequence of accepted requests, cut any way that keeps them apart and shows each method in its first piece, the loop serves exactly that sequence, each once, in order, and ends with an empty buffer |
| `Reassembly.AnyPieces` | auth_server_src/WorkWithClient.cpp:34-47 | a text with its only blank line at its end, in any pieces: what comes before the first piece that shows a method is lost, and the rest has the effect of one turn |
| `Reassembly.StreamServedIff` | auth_server_src/WorkWithClient.cpp:30-338 | whole requests that parse, in any chunks, are served each once, in order, with nothing left over, if and only if every checked token verifies, no chunk holds bytes of two of them, and each first piece shows its method |
| `Reassembly.ServedIffFirstPieceLongEnough` | auth_server_src/WorkWithClient.cpp:34-47 | an accepted request in pieces is served as a whole if and only if its first piece shows the method |
| `Reassembly.RefusedGetSticks` | auth_server_src/WorkWithClient.cpp:173-185 | after a GET with a refused token, however many chunks follow, each brings one refusal of the same token, and nothing is served |
| `Reassembly.RefusedPostSwallowsNext` | auth_server_src/WorkWithClient.cpp:100-107 | a POST with a refused token, in any pieces, stays in the buffer with one refusal, and the next chunk, whatever it holds, is thrown away with it |
| `Reassembly.TrailingBytesAreLost` | auth_server_src/WorkWithClient.cpp:337 | bytes in one chunk with the end of a request: behind a GET or OPTIONS they vanish with the clearing of the buffer, or stay behind a refused token; behind a POST both are thrown away unserved |
| `Answers.RunsAreGated` | auth_server_src/WorkWithClient.cpp:49-334 | in every run, whatever the chunks: a profile update, or a GET for anything but a new token, is carried out for the user whom the check of the token in that very request returned, and refused only if it returned none; no other message is checked |
| `Answers.TurnIsGated` | auth_server_src/WorkWithClient.cpp:100-185 | a refused request of these messages stays in the buffer; any other turn that parses clears it |
| `Answers.PostIsAnswered` | auth_server_src/WorkWithClient.cpp:72-165 | a whole POST to a profile route, in pieces whose first shows the method, is carried out for the user of the token that stands between the first `Bearer ` behind the method and the end of its line, or refused; the logins are carried out unchecked |
| `Answers.GetIsAnswered` | auth_server_src/WorkWithClient.cpp:173-332 | likewise for a GET, and one for a new token is handed its refresh token unchecked |
| `Answers.QueryIsRead` | auth_server_src/HttpParser.cpp:94-118 | the arguments of a GET are the pairs of its printed query, though the scan starts in the middle of the route |
| `Answers.OptionsIsAnswered` | auth_server_src/WorkWithClient.cpp:49-53 | a whole OPTIONS request with an Origin is answered for that Origin |
| `Answers.RefusedIsDropped` | auth_server_src/WorkWithClient.cpp:43-47 | a whole request of another method, without an Origin, or for an unknown name is thrown away, and what follows is received as if it had not been |
| `ForwardedRequest.FormRequestGetIdByAccess` | content_server_src/FormRequest/FormRequest.cpp:4-15 | forms, field by field, the bytes that the theorems about the question speak of |
| `ForwardedRequest.QuestionIsRead` | content_server_src/FormRequest/FormRequest.cpp:4-15 | the forwarded request parses, on the auth server, as the question for exactly the token after the first `Bearer ` of the client's header, whatever else that header holds and whatever one-line name without `Bearer ` the HTTP library gives itself |
| `ForwardedRequest.QuestionInPieces` | auth_server_src/WorkWithClient.cpp:30-47 | however it is cut, it has the effect of one turn on what is left from the first piece that shows a method, or none; all of it is left exactly if the first piece has 7 bytes |
| `ForwardedRequest.QuestionIsAnswered` | auth_server_src/WorkWithClient.cpp:173-332 | cut any way with a first piece of 7 bytes or more, it is answered once, for that token: with the user the check names, or a refusal; without a token the thread throws |
| `ForwardedRequest.CheckedTokenIffBearerKept` | auth_server_src/WorkWithClient.cpp:34-47 | cut any way, the token checked is the forwarded one if and only if the first `Bearer ` is not thrown away with the pieces before the one that shows a method |
| `ForwardedRequest.CheckOfQuestion` | auth_server_src/WorkWithClient.cpp:173-185 | cut any way, at most one thing is done, served exactly for the user that the check of the token read returns, or refused when it returns none |
| `ForwardedRequest.CutAfterMethod` | auth_server_src/WorkWithClient.cpp:43-47 | cut after its first four bytes, every question is lost without an answer |
| `ForwardedRequest.CutInsideValue` | auth_server_src/WorkWithClient.cpp:43-47 | for one header value and one cut, the question is answered for a token that is not the forwarded one |
| `ForwardedRequest.QuestionIsAcceptedOrRefused` | auth_server_src/WorkWithClient.cpp:178-185 | the question is an accepted request if its token verifies, and a refused GET if not |
| `DBclient.Client.LikeClicked` | content_server_src/DBclient/DBclient.cpp:263-314 | commits the toggled row and the followed count, or, at any failing statement, leaves the database as it was and answers 500 |
| `DBclient.Client.DelPostById` | content_server_src/DBclient/DBclient.cpp:38-85 | removes the author's post with its likes, answers 400 to anyone else, and changes nothing at any failing statement |
| `DBclient.Client.AddNewPost` | content_server_src/DBclient/DBclient.cpp:87-126 | commits photo and post together under new ids, or neither; ids once drawn are not given back |
| `DBclient.Client.GetPostPhotoById` | content_server_src/DBclient/DBclient.cpp:238-261 | returns the one photo with the id, with its type, or an error |
| `Store.ToggleKeepsSound` | content_server_src/DBclient/DBclient.cpp:263-309 | the conditional, relative updates keep one row a like, counts equal to rows, and references that resolve |
| `Store.ExecKeepsSound` | content_server_src/DBclient/DBclient.cpp:38-126 | so does every transaction, failing at any statement, where likes must refer to posts |
| `Store.RunsAreSound` | content_server_src/DBclient/DBclient.cpp:263-309 | in every run: at most one row for a post and user, every count equal to its rows, every photo and liked post present |
| `Store.CountsAgreeIffForeignKey` | content_server_src/DBclient/DBclient.cpp:264-274 | the counts agree in all runs if and only if likes must refer to posts |
| `Store.ClickCommitsIff` | content_server_src/DBclient/DBclient.cpp:263-313 | a click commits if and only if both ids are numbers, the post is there where likes must refer to posts, and no statement up to the commit fails |
| `Store.DeleteCommitsIff` | content_server_src/DBclient/DBclient.cpp:38-85 | a deletion commits if and only if its user is the author of the post and no statement fails; anyone else is answered 400 |
| `Store.AddCommitsIff` | content_server_src/DBclient/DBclient.cpp:87-126 | a post is added if and only if the user's id is a number and no statement fails |
| `Store.AddDrawsIds` | content_server_src/DBclient/DBclient.cpp:87-126 | an id is drawn by the insert that needs it, and not given back when the transaction fails later |
| `Store.CommitsIff` | content_server_src/DBclient/DBclient.cpp:38-126 | in every run, the same in terms of the history: a click commits on a post created and not removed since, a deletion for its author |
| `Store.ClickToggles` | content_server_src/DBclient/DBclient.cpp:299-309 | an undisturbed click adds the row that is not there or takes away the one that is, the count follows, and nothing else changes |
| `Store.TwoClicksRestore` | content_server_src/DBclient/DBclient.cpp:299-309 | in every run, two clicks of one user in a row restore the likes and the counts |
| `Store.DeleteRemoves` | content_server_src/DBclient/DBclient.cpp:65-76 | an undisturbed deletion by the author takes away the post with its likes and nothing else; by anyone else it changes nothing |
| `Store.OkIsCommitted` | content_server_src/DBclient/DBclient.cpp:76-85 | a transaction is answered Ok if and only if it has committed and its commit was not in doubt; one that has not committed leaves the tables as they were |
| `Store.RunsMeanTheirHistory` | content_server_src/DBclient/DBclient.cpp:137-144 | in every run, a like is there if and only if its user has committed an odd number of clicks since the post's creation, and a post, saying what it said then, if and only if it was created and not removed since; a commit in doubt counts, though it was answered 500 |
| `Store.CountIsNumberOfFans` | content_server_src/DBclient/DBclient.cpp:269-282 | in every run, the stored count of a post is the number of users with an odd number of clicks |
| `Store.OnlyAuthorsDelete` | content_server_src/DBclient/DBclient.cpp:65-76 | a post disappears only in a step of its author, with all its likes, and no other post loses a row |
| `Store.PostsStayInRuns` | content_server_src/DBclient/DBclient.cpp:38-126 | no post that is still there ever says anything else than at its creation, and no id is used again |
| `Store.PhotosStayInRuns` | content_server_src/DBclient/DBclient.cpp:38-126 | a committed photo keeps its type and bytes in every continuation of the run, even when its post is deleted |
| `Feed.GetPostsList` | content_server_src/DBclient/DBclient.cpp:128-234 | either list: pushes one row of all columns for each post of the page, in order, each of a post that the query selects; an empty page is no error even if the commit would fail |
| `Feed.SelectedByHistory` | content_server_src/DBclient/DBclient.cpp:145-150 | in every run the feed selects just the posts, created and not removed since, of known authors who are the viewer or whom the viewer has as friends; the other list just those of its author |
| `Feed.RowsShowHistory` | content_server_src/DBclient/DBclient.cpp:133-153 | in every reachable state the rows are the page asked for of just those posts, the latest first; each says what its post said at its creation, under its author's name and picture, with the flag and count of the committed history |
| `Feed.FeedPagination` | content_server_src/DBclient/DBclient.cpp:148-153 | with distinct dates, the pages of either list at 0, L, 2L, ... put together show every selected post exactly once, latest first, and no other |
| `Feed.FeedOfHistory` | content_server_src/DBclient/DBclient.cpp:145-153 | so the pages of any run put together show each of those posts once, the latest first, and no other |
| `Feed.PagesAgreeIffDistinctDates` | content_server_src/DBclient/DBclient.cpp:152-153 | a page of either list is determined by the tables if and only if no two selected posts share a date |
| `TcpConnection.AnotherServerConnection.CheckAccesstoken` | content_server_src/AnotherServerConnection/AnotherServerConnection.cpp:5-15 | forms the question for the header value as the client sent it, and starts resolving |
| `TcpConnection.AnotherServerConnection.OnRead` | content_server_src/AnotherServerConnection/AnotherServerConnection.cpp:55-104 | what each reply calls the callback with, by name, and the exception of a reply without an id |
| `TcpConnection.Connection.HandleRead` | content_server_src/TcpConnection/TcpConnection.cpp:23-257 | answers OPTIONS at once, starts the exchange for GET and POST, and nothing for other methods or an error |
| `TcpConnection.Connection.GetCallback` | content_server_src/TcpConnection/TcpConnection.cpp:43-144 | starts one response, with the status and body of its route, without changing the database; or lets the exception of a database out of reach escape |
| `TcpConnection.Connection.LookUp` | content_server_src/TcpConnection/TcpConnection.cpp:76-127 | each GET route: the greeting with the id; the page of rows that the arguments ask for, for this id; the photo; 500 when the arguments or the query throw; 400 for no route |
| `TcpConnection.SomeOrderFits` | content_server_src/DBclient/DBclient.cpp:152-153 | every list has an order that its query allows, so that no step of the runs is ruled out for want of one |
| `TcpConnection.Connection.ReadArguments` | content_server_src/TcpConnection/TcpConnection.cpp:194-195 | the arguments of the target, or the scanner's exception |
| `TcpConnection.Connection.RunRoute` | content_server_src/TcpConnection/TcpConnection.cpp:186-202 | runs the one transaction the target names, with the parsed form or arguments, or none |
| `TcpConnection.Connection.PostCallback` | content_server_src/TcpConnection/TcpConnection.cpp:153-230 | starts one response: 200 after Ok, 500 after any exception, also one that meant 400 |
| `TcpConnection.Connection.OnRead` | content_server_src/TcpConnection/TcpConnection.cpp:42-231 | ends the exchange and runs at most one callback, with what the reply says |
| `TcpConnection.Connection.Complete` | content_server_src/TcpConnection/TcpConnection.cpp:10-257 | every completion of the client's socket and of the exchange leads, through its handler, to the state, database and exception of the step function that the runs are made of |
| `Server.StepKeepsInv` | content_server_src/TcpConnection/TcpConnection.cpp:10-257 | every step of every handler, and of the auth server's threads, keeps each connection to its protocol, the database equal to the transactions run so far, and each trace equal, in transactions and answers, to those run for its connection |
| `Server.RunsKeepInv` | content_server_src/ClientAndServer.cpp:23-30 | so it is in every run, under every interleaving and any cutting of the questions |
| `Server.SingleResponse` | content_server_src/TcpConnection/TcpConnection.cpp:23-257 | a connection starts at most one response, calls its callback at most once and has at most one transaction in the system's list, and that only for a POST; when the callback is told `unauthorized`, `bad_request` or `internal_server_error` it has none, and responds 401, 400 or 500 if at all |
| `Server.ChecksAreVouched` | content_server_src/AnotherServerConnection/AnotherServerConnection.cpp:55-104 | every check in a trace was made in a step of the run in which an auth-server thread received the question for that request: the user is the one its token check returned, and the token the request's own exactly if its `Bearer ` was not thrown away, as with a first piece of 7 bytes |
| `Server.Provenance` | content_server_src/TcpConnection/TcpConnection.cpp:147-201 | every transaction in the system's list is the one that its connection's request names, and changes rows as the user that such a check returned to that connection; or, if the question was cut so that it was taken for another message, as the user that the reply to that message named |
| `Server.ProvenanceOfUnbroken` | content_server_src/TcpConnection/TcpConnection.cpp:147-201 | if the connection's question reached the auth server with 7 bytes in its first piece, that is the user the token check returned for the very token in the request |
| `Server.Acknowledgement` | content_server_src/TcpConnection/TcpConnection.cpp:182-213 | a POST to a mutating route is answered 200 if and only if the system's list holds a transaction of its connection that committed on the database as the ones before it left it, with no doubt about the commit; any other answer means that its transaction, if any, left the committed tables as they were, unless its commit was in doubt; and the database is what the list leaves |
| `Server.TablesChangeOnlyByCommits` | content_server_src/TcpConnection/TcpConnection.cpp:182-213 | the committed tables change only in a step that commits a transaction and starts its 200 answer, or a 500 answer if the commit was in doubt, and by just that transaction |
| `Server.PostsGoByTheirAuthors` | content_server_src/DBclient/DBclient.cpp:65-76 | a post disappears only when a connection whose request names its deletion reads the auth server's reply, for the user that a check returned to it, who is the post's author; with a first piece of 7 bytes, the check of the request's own token |
| `Server.ListsShowHistory` | content_server_src/TcpConnection/TcpConnection.cpp:86-113 | a list that a client is sent is the page its route asks for, of just the posts that the history of all transactions committed so far in the run of both servers shows to the user that a check returned to its connection, the latest first; and every row shows that history |
| `Server.ServerTables` | content_server_src/DBclient/DBclient.cpp:263-309 | in every run of both servers the tables are sound, mean the committed history, and count its fans |
| `EndToEnd.FieldIsLastPart` | content_server_src/FormDataParser/FormDataParser.cpp:31 | the value read for a field is the data of the form's last part of that name |
| `EndToEnd.PublishedAsWritten` | content_server_src/TcpConnection/TcpConnection.cpp:187-192 | a form sent to `/addNewPost` is committed byte for byte as a new post of the verified user, with its photo under the cut type of the form's last typed part, and nothing else changes |
| `EndToEnd.PhotoTypeIsStoredIff` | content_server_src/DBclient/DBclient.cpp:87-126 | the photo's own type is stored if and only if its part is the last typed one and the type no longer than its first line, or the last typed part's type is cut to the same text |
| `EndToEnd.LaterTypeWins` | content_server_src/FormDataParser/FormDataParser.cpp:19-22 | a form with a PNG and, behind it, a description typed `text/plain` stores the PNG as `text/plain` |
| `EndToEnd.PhotoIsLookedUp` | content_server_src/TcpConnection/TcpConnection.cpp:114-121 | a printed `/getPostPhoto` target looks up the photo it names |
| `EndToEnd.PublishedPhotoIsServed` | content_server_src/DBclient/DBclient.cpp:238-261 | a published photo is served byte for byte, under the type stored with it, at any later time, whatever transactions have run or failed in between |
| `EndToEnd.PublishedPostIsShown` | content_server_src/DBclient/DBclient.cpp:133-176 | as long as it is not deleted, a published post is listed with its own text and date and its author's name, and the id under which its photo is served |
| `EndToEnd.ListIsLookedUp` | content_server_src/TcpConnection/TcpConnection.cpp:86-108 | a printed target for either list asks for the page that its last LIMIT and OFFSET say, of the feed or of the author its last `id` says, for the verified user |
| `EndToEnd.ClickIsRouted` | content_server_src/TcpConnection/TcpConnection.cpp:198-202 | a printed `/likeClicked` target runs a click on the post it names, for the verified user |
| `EndToEnd.DeleteIsRouted` | content_server_src/TcpConnection/TcpConnection.cpp:193-197 | a printed `/deletePost` target runs the deletion of the post it names, for the verified user |
| `EndToEnd.RefusedQueryThrows` | content_server_src/TcpConnection/TcpConnection.cpp:193-202 | a target whose query the scanner refuses runs nothing on these routes |
| `Runs.StepsExtendRuns` | content_server_src/ClientAndServer.cpp:23-30 | the step sequences of the other rows of this module, from any state that a run reaches, continue that run |
| `Runs.SmoothRunIsAnswered` | content_server_src/TcpConnection/TcpConnection.cpp:147-231 | when nothing fails before the transaction, a POST to a mutating route whose token verifies is answered after its transaction has run, 200 if that answered Ok and 500 if not, however its question is cut behind the first 7 bytes |
| `Runs.DeletesThePostNamed` | content_server_src/TcpConnection/TcpConnection.cpp:193-197 | a whole run: the post that the bytes of the target name, with its likes and nothing else, is gone if the verified user is its author, and the answer is 200; otherwise nothing changes, and it is 500 |
| `Runs.ClicksThePostNamed` | content_server_src/TcpConnection/TcpConnection.cpp:198-202 | a whole run: the like of the post that the bytes of the target name is toggled for the verified user, with its count, and nothing else |
| `Runs.OtherPostsAreAnswered` | content_server_src/TcpConnection/TcpConnection.cpp:181-213 | a POST to no route is answered 200; one whose form or query is refused, or whose database is out of reach, 500; neither runs anything |
| `Runs.GetIsAnswered` | content_server_src/TcpConnection/TcpConnection.cpp:33-144 | when nothing fails before it, a GET whose token verifies is answered with what its route looks up for the verified user, and the database is as it was |
| `Runs.PrintedListIsSent` | content_server_src/TcpConnection/TcpConnection.cpp:86-113 | a whole run: the rows from the printed OFFSET on, up to the printed LIMIT, of just the posts that the history shows to the verified user, the latest first |
| `Runs.OtherGetsAreAnswered` | content_server_src/TcpConnection/TcpConnection.cpp:76-127 | the greeting with the id; the photo with its type, 500 if it is not there or an argument says nothing; 400 for no route |
| `Runs.OptionsIsAnswered` | content_server_src/TcpConnection/TcpConnection.cpp:27-32 | OPTIONS is answered 204 at once, without a question |
| `Runs.GetWithoutDatabase` | content_server_src/TcpConnection/TcpConnection.cpp:34-36 | a GET whose database is out of reach ends the event loop, unanswered |
| `Runs.ReplyWithoutId` | content_server_src/AnotherServerConnection/AnotherServerConnection.cpp:60-66 | so does a reply that is JSON without an id |
| `Runs.ErrorsGiveUp` | content_server_src/AnotherServerConnection/AnotherServerConnection.cpp:16-104 | an error in the exchange ends it, with the client unanswered and the database as it was |
| `Runs.StrayTokenRuns` | auth_server_src/WorkWithClient.cpp:43-47 | with one header value and one cut of its question, the transaction is run for the user of a token that is not the request's own |

## Left out

- Reassembly.StreamIsReassembled: assumes that no chunk holds bytes of two requests, that each first piece shows its method and
  that all tokens verify, because the code loses requests otherwise; `Reassembly.StreamServedIff` says exactly when.
- ForwardedRequest.QuestionIsAnswered: assumes that the first piece has 7 bytes or more, because the code drops a shorter one;
  `ForwardedRequest.QuestionInPieces` and `ForwardedRequest.CheckedTokenIffBearerKept` speak of any pieces.
- Server.ProvenanceOfUnbroken: assumes the same of the connection's question, and `Runs.StrayTokenRuns` shows why.
- Server.Provenance: when the question was taken for another message, what the auth server replies to that is arbitrary.
- HttpParser.FillPostT: whether a body decodes is one arbitrary function, and the decoded fields are not in the block.
- WorkWithClient.Client.Answer: carrying a request out is one event; the auth server's queries and responses are not modelled.
- TcpConnection.AnotherServerConnection.CheckAccesstoken: the callback is not stored; the verb of the request says which it is.
- Multipart.FormRoundTrip: parts have a Content-Disposition line first and at most a Content-Type line after it, an unquoted
  boundary parameter, and no `Content-Type` in a name or file name; the code cuts other headers differently.
- Feed.FeedPagination: LIMIT and OFFSET are numbers here; how the database converts their text is not modelled.
- Sockets, Boost.Asio, Boost.Beast, WinSock and logging: events and byte chunks stand for them; exceptions of `shutdown` and
  `close`, and a `recv` error stored in a `size_t`, are not modelled.
- An exception that leaves the auth server's loop ends that thread here; in the program it ends the whole process.
- JWT checking, password hashing and JSON: the token check and the decoding of bodies are arbitrary functions.
- `FormData.cpp`, the auth server's own form parser: it is part of the decoding of bodies, and a body without a file, on a
  route that reads one, counts as a body that does not decode.
- `WorkWithPostgreSQL.cpp`: friends, profiles and registration; the friends and users tables are parameters of the feed.
- The database schema: whether likes must refer to posts is a parameter; a new post's count is taken to be NULL, and counts
  to be unbounded.
- `delPostPhotoById`, the compensation of `addNewPost`, always ends in an error, after the transaction has ended anyway.
- Two transactions interleaved statement by statement: the content server runs one callback at a time.
- Liveness: errors of the exchange and unsupported methods never answer the client.
- The headers of responses, and the text of JSON: a list is its rows. How the database converts the text of ids and numbers
  is a parameter.
- `std::unordered_map` is a mathematical map, and bytes are characters.
