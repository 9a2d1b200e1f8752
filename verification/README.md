# An HTTP and account server, modelled in Dafny

The model follows a small C++ server from the bytes of a request to the session it is served under.

| file | what it models |
|---|---|
| `Strings.dfy` | bytes as signed chars, `find`, `substr`, trimming, `iequals`, `stoi`/`stoll`, printed integers |
| `RequestParser.dfy` | the twenty-state byte machine, as a step function and as the classes that fill a request in place |
| `RequestGrammar.dfy` | an independent grammar of request heads, every spelling of which the machine accepts |
| `RequestTrace.dfy` | the other direction: whatever the machine accepts, the grammar spells |
| `RequestLaws.dfy` | what follows: exactness, round trips, splitting, version arithmetic |
| `Router.dfy` | the router's heap tree of nodes, built by one cursor loop and walked by another |
| `RouterLaws.dfy` | dispatch as a statement about the list of routes |
| `Cookies.dfy` | the cookie-string cursor loop, and the cookies the server renders |
| `HeaderScan.dfy` | the loop over the headers, and what its exit after three matches loses |
| `Connection.dfy` | the framing of the first request over read completions |
| `UrlDecode.dfy` | percent decoding |
| `Store.dfy` | integers, existence and deletion in the store |
| `Pool.dfy` | the semaphore and the deque, as interleaved steps of any number of threads |
| `Postgres.dfy` | one query through the pool, with preparation on failure and the result objects it must clear |
| `UserTable.dfy` | the two statements of the user table, and which of them the connection a call gets will answer |
| `Sessions.dfy` | register, login, logout and get-user as steps over the user table and a store of sessions |
| `SessionRuns.dfy` | what holds over whole runs of them |
| `Lanes.dfy` | which connection each call of a run gets, and so which of register and login can succeed |
| `Answers.dfy` | what each use case answers, exactly, and whose session an id is |
| `AuthServer.dfy` | the use cases, the user entity, its queries and the session helpers as classes that take those steps |
| `EndToEnd.dfy` | from the cookie a login sets to the session the next request is served with |

Code that changes state in place is a class whose methods are proved equal to a specification function or to a
statement about the old state; the theorems are about those functions. `dafny verify dfyconfig.toml` checks everything.

## How to read the model

- A C++ `char` is a `Byte`, a character code below 256; `Promoted` is its value as an `int`, negative from 128 on, which
  is why such bytes are accepted in a URI and in a header value and refused in a method or a header name.
- The version fields are 32-bit `int`s. `fits` records whether every intermediate of `v * 10 + input - '0'` stayed in
  range. C++ leaves a run undefined once one did not; the model carries on with the mathematical value, and every claim
  about a version says whether it fits. The subtraction comes last, so the largest version is `INT_MAX - 48`.
- Reads, the two answers of `socket.available()`, random draws, password hashing and the id the database gives a new
  row are parameters. Of the hash only one thing is assumed: a password verifies against its own hash.
- The user table is not an oracle. A register or login runs its statement through the pool of `Postgres.dfy`, on the
  connection at the front of the deque, and the table's two query texts, its two keys, its two column widths and the
  number of values decide the answer. Only an outage is a parameter: a request marked `down` has every query refused.
  Of `Postgres.dfy` alone, what a query text does is a parameter. Texts are UTF-8, whose characters the columns count.
- Each request says which of its commands the store answers with an error: the `EXISTS` of `is_auth`, the `EXISTS` that
  checks each drawn id, `SET`, `GET` and `DEL` (`Faults`). An error changes nothing in the store.
- One request of the use cases is one step. The pool is the only component whose threads are interleaved.

## What the code does that its own texts do not say

- The router skips one byte after the base path without looking at it: `/apiXuser` is served as `/api/user`.
  `IntendedExactlyWithGoodSeparator` gives the exact condition on the request path. Nor is the first byte of a route's
  path looked at: `DispatchExactly`.
- The deque has no lock. With `front()` and `pop_front()` as separate steps, two threads can leave with the same
  client as soon as there are two clients and two threads: `SafeExactlyWithOne`. Both steps as one are safe for any
  number, and the deque is never popped empty in either case: `CountsHold`.
- `get_name` never moves its counter, so all statements share one name, and a connection runs only the first query
  text prepared on it: `FirstStatementWins`, with the exact condition over runs in `RunsItsOwnTextExactly`.
- So a connection that answered a registration never answers a login, and the other way round:
  `NeverBothOnOneConnection`. With one connection, which is what `src/main.cpp:20-22` and `example.env:15` give, no
  run answers both; with two it can: `BothAreServedExactlyWithTwoConnections`. When a given login succeeds is
  `LoginSucceedsExactly`, and when one of a round of retries does is `RetriesSucceedExactly`.
- An error of `EXISTS` reads as an absent key. A live session then gets 401 or is let through to a second login, and a
  drawn id may be that of another session, which is overwritten: `AnswerTellsTheEffect`, `StepIsLocal`.
- The reply to `SET` is not looked at: a login is answered 204 whether or not it has a session, and
  `RegisteredUserCanLogIn` says exactly when it has.
- A name may have 60 bytes, the column takes 50 characters: `LongNamesAreRefused`.
- Leaving the header loop at the third match loses headers when a match was of a header that fills nothing, such as
  `Content-Length: -1`: `ExitIsHarmlessExactly` gives the exact condition.
- A cookie string throws if and only if it ends in an odd number of `;`: `ThrowsExactlyAtOddTrailing`.
- When more bytes wait after the read that ends a head, no further read is issued. The connection stalls for good and
  the body buffer is never handled: `BodyBufferIsNeverReached`, `StalledExactly`.
- A verdict of the parser is not remembered, and the byte that got it leaves no trace: `VerdictIsNotSticky`.
- A body shorter than the stated length is given to the handler; only a longer one is refused: `FramingIsExact`.

## Model

| member | source | states |
|---|---|---|
| RequestParser.Parser.Consume | src/wrappers/http/request_parser.cpp:12-189 | one byte changes parser and request in place exactly as the step function does; `headers.back()` is never called on an empty list |
| RequestParser.Parser.Parse | src/wrappers/http/request_parser.hpp:18-28 | the loop is the iterated step, stops at the first verdict, and reports how far the iterator moved |
| RequestParser.TokenBytes | src/wrappers/http/request_parser.cpp:191-224 | the bytes of a method and a header name are exactly the letters, the digits and fifteen marks |
| RequestParser.ControlBytes | src/wrappers/http/request_parser.cpp:195-197 | the bytes refused in a URI and a value are exactly those below 32 and 127, none from 128 on |
| RequestGrammar.GrammarIsAccepted | src/wrappers/http/request_parser.cpp:12-189 | every spelling of a well-formed head, folds included and whatever follows it, is accepted by a fresh parser exactly at its end, and every field holds its meaning |
| RequestTrace.OnlyGrammarIsAccepted | src/wrappers/http/request_parser.cpp:12-189 | whatever a fresh parser accepts was spelled by a well-formed head, which also explains every field of the request |
| RequestLaws.AcceptedExactlyWhenInGrammar | src/wrappers/http/request_parser.cpp:12-189 | on every byte string, the verdict is good if and only if a well-formed head is spelled at its start |
| RequestLaws.RefusedExactlyWhenHopeless | src/wrappers/http/request_parser.cpp:12-189 | on every byte string, the verdict is bad if and only if no continuation of it is accepted |
| RequestLaws.GrammarIsUnambiguous | src/wrappers/http/request_parser.cpp:12-189 | two heads spelled at the start of the same bytes are equally long and mean the same |
| RequestLaws.PrintThenParse | src/wrappers/http/request_parser.hpp:18-28 | a printed head followed by any bytes is parsed back field for field and the parser stops at the end of the print |
| RequestLaws.CanonicalFormIsAFixedPoint | src/wrappers/http/request_parser.cpp:12-189 | for every accepted byte string, printing the parsed request and parsing it again is accepted to the last byte and gives the same request |
| RequestLaws.SplittingDoesNotMatter | src/wrappers/http/request_parser.hpp:18-28 | however bytes are cut into successive calls, verdict, request and bytes consumed are those of one call on all of them |
| RequestLaws.VerdictIsNotSticky | src/wrappers/http/request_parser.cpp:184-187 | after a verdict without a reset, a later call has the verdict, the request and, counted on, the consumed bytes of a call in which the byte that got it had not been sent |
| RequestGrammar.LeadsMajor | src/wrappers/http/request_parser.cpp:79-96 | any run of digits gives the major field its decimal value, and every intermediate fits in 32 bits if and only if that value is at most 2147483599 |
| RequestGrammar.LeadsMinor | src/wrappers/http/request_parser.cpp:97-114 | the same for the minor field |
| RequestGrammar.VersionBound | src/wrappers/http/request_parser.cpp:79-114 | a version fits exactly up to 2147483599 |
| RequestLaws.NineDigitsFit | src/wrappers/http/request_parser.cpp:79-114 | nine digits behind any number of leading zeros never overflow |
| Router.RequestHandler.constructor | src/wrappers/http/request_handler.cpp:21-63 | the tree of nodes holds, at every address, the callback of the last route registered there; nodes are owned by exactly one address |
| Router.RequestHandler.Register | src/wrappers/http/request_handler.cpp:30-62 | one route added by the moving pointer changes the callback at its own address and no other |
| Router.RequestHandler.HandleRequest | src/wrappers/http/request_handler.cpp:65-124 | the walk answers with the last route at the request's address or 404; no cursor passes the end of the path |
| Router.JoinOfSplit | src/wrappers/http/request_handler.cpp:43-61 | cutting a path at its slashes loses nothing, so different paths have different addresses |
| Router.SegmentsHaveNoSlash | src/wrappers/http/request_handler.cpp:43-61 | no segment holds a slash |
| RouterLaws.QueryDoesNotMatter | src/wrappers/http/request_handler.cpp:74 | for every list and base, a request with a query is dispatched as the same path without one |
| RouterLaws.DispatchExactly | src/wrappers/http/request_handler.cpp:30-123 | for every list the constructor takes and every request: the base is the last route "/", a longer path the last other route that agrees with it behind the first byte and the byte after the base, neither of which is looked at; anything else is 404 |
| RouterLaws.DispatchIsLastRoute | src/wrappers/http/request_handler.cpp:74-123 | for every list of rooted routes and every request: the base is the route "/", a longer path is the last route made of "/" and what follows the byte after the base, and anything else is 404 |
| RouterLaws.DispatchIsIntended | src/wrappers/http/request_handler.cpp:74-123 | when a slash follows the base, or nothing does, dispatch goes to the last route of the method whose mounted path is the request's |
| RouterLaws.WrongSeparatorIsServed | src/wrappers/http/request_handler.cpp:97-108 | any other byte there lets some list of routes serve a path it does not name |
| RouterLaws.IntendedExactlyWithGoodSeparator | src/wrappers/http/request_handler.cpp:74-123 | the requests dispatched as every list says are exactly those with a good separator |
| RouterLaws.ApiWrongSeparator | src/wrappers/http/request_handler.cpp:97-108 | with base "/api", "/apiXuser" reaches the route "/user" |
| RouterLaws.OrderDoesNotMatter | src/wrappers/http/request_handler.cpp:30-62 | permuting routes of distinct method and path changes no dispatch |
| RouterLaws.AddingARouteIsLocal | src/wrappers/http/request_handler.cpp:30-62 | for every request, a route added anywhere in the list changes the dispatch only if it has the request's method and is the route the walk looks for, `/` or `/` and what follows the byte after the base; then it answers, unless a later route of the same method and path does |
| RouterLaws.KeyIsMounted | src/wrappers/http/request_handler.cpp:74-123 | behind a good separator the route the walk looks for is exactly the one whose mounted path is the request's |
| Cookies.CursorIsSuffix | src/wrappers/http/connection.cpp:51-83 | the cursor loop with its skip of two depends only on the rest of the string |
| Cookies.ParseJoined | src/wrappers/http/connection.cpp:51-83 | pieces joined by ';' and any one byte are added one by one, whatever the skipped bytes are |
| Cookies.NamelessPieceIsSkipped | src/wrappers/http/connection.cpp:51-83 | a piece without '=' changes nothing |
| Cookies.ThrowsExactlyAtOddTrailing | src/wrappers/http/connection.cpp:70-73 | for every string, the last substr throws if and only if the number of ';' at its end is odd |
| Cookies.CookieStringParses | src/wrappers/http/connection.cpp:51-83 | a cookie string of name and value pairs never throws and gives the last value of every name, and of SESSION the session id |
| Cookies.Cookie.ToString | src/wrappers/http/cookie.hpp:18-55 | the first call renders the fields, later calls repeat that text even after a field changed, a nameless cookie gives nothing |
| Cookies.Cookie.RenderedIsJoined | src/wrappers/http/cookie.hpp:28-54 | the text is the pair and the attributes that are set, by name and in order, with "; " between them |
| Cookies.BrowserKeepsThePair | src/wrappers/http/cookie.hpp:28-54 | of a rendered cookie the bytes before the first ';' are exactly the pair |
| Cookies.SessionSurvivesTheBrowser | src/wrappers/http/connection.cpp:51-83 | what a browser keeps of a SESSION cookie, sent back anywhere among other cookies, is parsed to the same id |
| HeaderScan.ExitIsHarmlessExactly | src/wrappers/http/connection.cpp:94-111 | for every header list that ends at the third match: the exit gives what reading on would, whatever headers follow, if and only if none of the three matches was of a length of -1, an empty type or a cookie with no name but SESSION |
| HeaderScan.MatchesFillOrWaste | src/wrappers/http/connection.cpp:94-111 | over every header list, the matches counted are the fields filled and the matches wasted |
| HeaderScan.FullScanLooksUp | src/wrappers/http/connection.cpp:94-109 | without the exit each field is decided by the headers of its own name alone, errors included |
| HeaderScan.NameCaseDoesNotMatter | src/utils/string.cpp:49-54 | two header lists that differ only in the case of letters in their names are scanned alike |
| HeaderScan.UsualSpellingIsRead | src/wrappers/http/connection.cpp:94-111 | Content-Length, Content-Type and Cookie in their usual spelling give the length, the type and the session id, for every one of them |
| HeaderScan.EarlyExitLosesNothing | src/wrappers/http/connection.cpp:94-111 | when of each name there is at most one header, or the first fills its field, leaving the loop after three matches gives what looking the three up by name gives, errors included |
| HeaderScan.HeaderOrderDoesNotMatter | src/wrappers/http/connection.cpp:94-111 | the same headers in another order give the same facts, when none of the three names is repeated |
| HeaderScan.RepeatsHideTheRest | src/wrappers/http/connection.cpp:94-111 | three stated lengths of -1 end the scan before any header behind them is read |
| Connection.BodySizeIsTheRest | src/wrappers/http/connection.cpp:116 | the unsigned sum, cut to 32 bits, is the number of bytes received and not consumed |
| Connection.LengthChecks | src/wrappers/http/connection.cpp:118-142 | both mixed-sign comparisons refuse a body exactly when it is longer than a stated length, and none of ordinary size when the length is negative |
| Connection.FramingIsExact | src/wrappers/http/connection.cpp:85-153 | over every sequence of read completions, what becomes of a request follows from all the bytes received, from whether the head ended in the last read and from whether more wait; a dispatched request has the head, the facts and the body of the bytes, in order and none missing |
| Connection.DispatchedBodyFits | src/wrappers/http/connection.cpp:118-149 | a dispatched body is never longer than a length the request states |
| Connection.BodyBufferIsNeverReached | src/wrappers/http/connection.cpp:126-129 | when reads complete only if one was issued, the body buffer is used by stalled connections alone, so it is never handled |
| Connection.StalledExactly | src/wrappers/http/connection.cpp:126-129 | a live run ends stalled if and only if some completion ended an accepted head whose scan does not throw, while more bytes waited |
| Connection.DecidedForEver | src/wrappers/http/connection.cpp:85-137 | what the completion that brings the parser's verdict makes of a live connection, it stays |
| Connection.Connection.ParseCookie | src/wrappers/http/connection.cpp:51-83 | the loop fills session id and cookies in place as specified, and throws exactly where the specification is None |
| Connection.Connection.ScanHeaders | src/wrappers/http/connection.cpp:94-111 | the loop over the headers, with its guards and its early exit, is the specified scan |
| Connection.Connection.HandleHeaderBuffer | src/wrappers/http/connection.cpp:85-137 | a completion in the header state changes the connection exactly as specified |
| Connection.Connection.HandleBodyBuffer | src/wrappers/http/connection.cpp:139-153 | a completion in the body state changes the connection exactly as specified |
| UrlDecode.Decode | src/wrappers/http/request_handler.cpp:126-150 | the loop decodes, or refuses, as the recursive definition does |
| UrlDecode.DecodedExactly | src/wrappers/http/request_handler.cpp:126-150 | for every reader, a string decodes to another if and only if it spells it unit by unit: plain bytes, '+', or '%' and two characters the reader accepts |
| UrlDecode.DecodeInvertsEncode | src/wrappers/http/request_handler.cpp:126-150 | decoding inverts every encoder, whichever bytes it escapes and in whichever case of the digits |
| Pool.CountsHold | src/db/core/pg.cpp:121-134 | over every schedule, `front` and `pop_front` apart or together, for any clients and threads: deque size is the semaphore plus the threads between acquire and pop plus those between push and release, the semaphore plus the active threads is the number of clients, and the deque is never popped empty |
| Pool.ClientsAreConserved | src/db/core/pg.cpp:121-134 | with both as one step, each client is in the deque or with a thread as often as at the start |
| Pool.AtomicPoolIsSafe | src/db/core/pg.cpp:121-134 | with front and pop in one step, for any number of threads and clients: the deque is never empty under a thread that acquired, no client has two holders or is held while in the deque, none is lost |
| Pool.SomeThreadCanMove | src/interfaces/store/redis.cpp:64-76 | no deadlock, over every schedule: a thread past acquire can always move, and acquire blocks only while another thread can |
| Pool.IdlePoolIsWhole | src/interfaces/store/redis.cpp:64-76 | when all threads are done after any schedule, semaphore and deque size are at their start, and with both steps as one the deque is a permutation of the original clients |
| Pool.TwoClientsAreShared | src/db/core/pg.cpp:121-128 | with two clients and separate steps there is a schedule after which two threads hold the same client |
| Pool.SafeExactlyWithOne | src/db/core/pg.cpp:121-134 | with front, pop_front and push_back as separate steps, every schedule is safe and loses no client if and only if there is at most one client or at most one thread |
| Postgres.Pool.QueryWithFallback | src/db/core/pg.cpp:144-190 | at most one query text takes effect, once, and its rows or its violated constraint are the answer; the client returns to the end of the deque; all results but the one handed on are cleared, each once |
| Postgres.Pool.Query | src/db/core/pg.cpp:192-211 | on an error the result is cleared, otherwise it is handed on, never both and never neither |
| Postgres.ClientOfCall | src/db/core/pg.cpp:121-134 | with N clients, call number k, counted from zero, gets the client with number k mod N |
| Postgres.TurnIsOneThread | src/db/core/pg.cpp:121-134 | a call's turn of the deque is what one thread's way through get_client and release_client makes of the pool of threads, in one step or two at the front |
| Postgres.NameStandsForFirstText | src/db/core/pg.cpp:160-183 | over every sequence of calls on fresh connections, a name on a connection stands for the first text the database could prepare among the calls that used it there |
| Postgres.RunsItsOwnTextExactly | src/db/core/pg.cpp:160-183 | after any calls on fresh connections, a call runs its own text if and only if no other text was first to be prepared under its name on the connection it got |
| Postgres.FirstStatementWins | src/db/core/pg.cpp:136-142 | since all statements share a name, a connection runs the first text prepared on it for every later statement |
| AuthServer.Server.GetNewSessionId | src/adapters/http/wrapper.hpp:127-144 | the loop ends on every random stream with a draw ahead whose key is free or whose `EXISTS` gets an error, and leaves the first such id in the request |
| UserTable.FindRow | src/db/user/pg.cpp:35-64 | a lookup gives the row of that name if and only if the database is up, the connection has the SELECT or nothing under the shared name, and the row is there; it changes no row |
| UserTable.AddRow | src/db/user/pg.cpp:66-79 | a row is added if and only if the database is up, the connection has the INSERT or nothing under the name, the values fit the columns, and both keys are free; the constraint on the name is reported exactly when only that was violated |
| UserTable.FitsExactly | src/db/user/sql.sql:4-5 | names up to 50 code points and hashes up to 150 fit, and no longer ones |
| Sessions.LongNamesAreRefused | src/db/user/sql.sql:4 | a registration whose trimmed name is ASCII and longer than 50 bytes is never answered 201, though 60 are allowed |
| AuthServer.UserPostgres.GetUserByUsername | src/db/user/pg.cpp:35-64 | the query through the pool gives the user of the specified row, and clears the result it was handed |
| AuthServer.UserPostgres.AddUser | src/db/user/pg.cpp:66-79 | the query through the pool has the specified effect and answer, and clears the result it was handed |
| AuthServer.Server.RegisterUser | src/use-cases/auth/register.hpp:54-111 | the early returns of the use case, with their statuses and messages and under any store error, are the specified step |
| Answers.ObjectionsExactly | src/use-cases/auth/register.hpp:60-92 | which message a registration gets before it asks the table, for every body, in numbers |
| Answers.AskedRegisterAnswers | src/use-cases/auth/register.hpp:94-110 | one that asks the table is answered 201 with the new id if and only if nothing is in its way, and that the name is taken if and only if the name is all that is |
| Answers.UnaskedRegisterAnswers | src/use-cases/auth/register.hpp:54-92 | any other is answered 403 from a live session, 400 with its first objection, or never for want of a connection |
| AuthServer.Server.LoginUser | src/use-cases/auth/login.hpp:82-121 | the early returns of the use case, through the query on the connection it gets and under any store errors, an unnoticed failed `SET` included, are the specified step |
| SessionRuns.AdmittedExactly | src/use-cases/auth/login.hpp:94-115 | a login is let in if and only if its name is an account's, its password verifies, the database is up and its connection answers the SELECT, and then as that account |
| Answers.LoginAnswersExactly | src/use-cases/auth/login.hpp:82-121 | every status of a login, by whether its id is in the store, `EXISTS` is answered, both fields are sent, there is a connection, it is let in, and an id can be drawn |
| Answers.DrawsExactly | src/adapters/http/wrapper.hpp:107-144 | no random number is used twice: one for a request without an id, and for a login those up to the first accepted one, which is the id in its cookie |
| Sessions.EveryLetterIsDrawnOnce | src/adapters/http/wrapper.hpp:117-121 | the letter drawn depends on a number modulo 62, each letter and digit for exactly one remainder |
| AuthServer.Server.LogoutUser | src/use-cases/auth/logout.hpp:24-46 | the early returns of the use case, under an error of `EXISTS` or `DEL` or none, are the specified step |
| Answers.LogoutAnswersExactly | src/use-cases/auth/logout.hpp:24-46 | status, emptied cookie and removed key of a logout, by its own id and the errors of `EXISTS` and `DEL` |
| AuthServer.Server.GetUserOf | src/use-cases/auth/user.hpp:23-44 | the early returns of the use case, 401 under an error of `EXISTS` and 500 under one of `GET` included, are the specified step |
| Answers.GetUserAnswersExactly | src/use-cases/auth/user.hpp:23-44 | status and profile of get-user, by its own id and the errors of `EXISTS` and `GET` |
| Answers.ServedOnlyAfterLogin | src/adapters/http/wrapper.hpp:152-202 | in every run from nothing, get-user answers 200 only under an id that a login of the run set as its cookie, with the user that login was for |
| Answers.OthersLeaveItAlone | src/adapters/http/wrapper.hpp:152-155 | a request that neither logs out of an id nor draws it leaves its session as it is |
| Answers.KeepsById | src/adapters/http/wrapper.hpp:127-221 | what ends a session, on ids: a logout of it, or a login that draws it while its check gets an error |
| AuthServer.MakeUser | src/entities/user/factory.cpp:11-44 | a user is made, with the trimmed name, if and only if that has 8 to 60 bytes, and otherwise the error says which bound |
| Sessions.StepIsLocal | src/adapters/http/wrapper.hpp:157-221 | a login writes one key, absent unless the `EXISTS` that checked it got an error, a logout removes the request's own key, and no other session, no account and no text prepared on a connection changes or goes away |
| SessionRuns.SessionsComeFromLogins | src/adapters/http/wrapper.hpp:127-183 | in every run from nothing, each session has an alphanumeric id of 16 bytes, was written by a login whose password verified, under a free key unless its check got an error, and names a registered account with its id and its trimmed name |
| SessionRuns.AccountsComeFromRegistrations | src/use-cases/auth/register.hpp:73-110 | in every run from nothing, each account was made by a registration answered 201 with its id, under a free trimmed name, and holds the hash of the password sent then |
| SessionRuns.RegisteredUserCanLogIn | src/use-cases/auth/login.hpp:82-121 | at any later time a login with the trimmed name and the password answers 204 if and only if the database is up and its connection has the SELECT or nothing under the shared name, and otherwise 401; after 204 the session, with the id from registration, is there if and only if the `SET` was accepted or was there before |
| Lanes.RunCalls | src/db/core/pg.cpp:121-190 | in every run from nothing the table, the prepared statements and the deque are what the run's calls to the pool make of them, and call number i has client number i mod N |
| Lanes.ReachesExactly | src/db/user/pg.cpp:8-33 | in every run, a register or login would reach its own text if and only if no other text was first to be prepared on the client whose turn it is |
| Lanes.LoginSucceedsExactly | src/use-cases/auth/login.hpp:82-121 | in every run from nothing, a login to an account registered in it answers 204 if and only if the database is up and the first text prepared on the client whose turn it is, if any, was the SELECT |
| Lanes.RetriesSucceedExactly | src/db/core/pg.cpp:121-142 | from any valid state, a user with an account who repeats the login with nothing in between is answered 204 within one round of the deque if and only if some client in it has the SELECT or nothing under the shared name |
| Lanes.RegisteredUserGetsInWithinARound | src/use-cases/auth/login.hpp:82-121 | the same for every registration answered 201, after any requests in between |
| Lanes.NeverBothOnOneConnection | src/db/core/pg.cpp:136-142 | in every run, a registration answered 201 and a login answered 204, in either order, had different connections |
| Lanes.NeverBothOnOneClient | src/db/core/pg.cpp:144-190 | over every sequence of queries on any clients, as interleaved threads get them, an INSERT and a SELECT that both get rows were on different clients |
| Lanes.BothAreServedExactlyWithTwoConnections | src/main.cpp:20-22 | provided some credentials can be registered at all, some run answers both a registration with 201 and a login with 204 if and only if the pool has two different connections |
| SessionRuns.SessionLasts | src/use-cases/auth/user.hpp:23-44 | until it is logged out, and no login with an unanswered check draws its id, a session answers every get-user with the same user, with 401 if `EXISTS` gets an error and with 500 if `GET` does |
| SessionRuns.LogoutRemoves | src/adapters/http/wrapper.hpp:205-221 | a logout with a live session's id answers 204 if and only if `EXISTS` and `DEL` are answered, and exactly then the session is gone |
| SessionRuns.LoggedOutStaysOut | src/adapters/http/wrapper.hpp:146-149 | a removed session is refused, whatever the store answers, until a login draws its id again |
| SessionRuns.SessionLife | src/use-cases/auth/register.hpp:54-111 | the whole life of a session from registration to after logout, with any other requests in between, when its login gets a connection that answers it and the store answers its own commands |
| EndToEnd.PrintedRequestIsDispatched | src/wrappers/http/connection.cpp:85-153 | a printed request cut into reads that end its head in the last one is dispatched with its head, its body and its facts looked up by name, when repeated headers have nothing to add |
| EndToEnd.SessionTravels | src/adapters/http/wrapper.hpp:157-221 | after a login answered 204 whose `SET` was accepted, its cookie, kept by a browser and sent back among other cookies in any cutting of the bytes, is the id of the dispatched request, and get-user under that id answers 200 with the user that login was for, whatever happened in between that keeps the session |
| Sessions.AnswerTellsTheEffect | src/use-cases/auth/login.hpp:82-121 | at every step the table changes exactly on 201; a logout's 204 is exactly one session gone; a login's 204 leaves its session if and only if the `SET` was accepted or was there before, and adds one if its key was free; 403, 401, 500 and 200 say exactly which of a live session and the commands' errors was met; a name said to be taken is taken |
| Store.SetThenGet | src/interfaces/store/redis.cpp:79-157 | an integer set and got under a key comes back with either getter, or is an error where it does not fit the width; other keys read as before |
| Store.RepliesAreToldApart | src/interfaces/store/redis.cpp:80-157 | no value means a nil reply, a value a text whose leading integer is in range, anything else is an error |
| Store.RedisStore.GetInt32 | src/interfaces/store/redis.cpp:80-117 | a text reply is parsed, a nil reply is no value, any other reply is an error |
| Store.RedisStore.Del | src/interfaces/store/redis.cpp:470-486 | true exactly when the key was there, and then only that key is gone |
| Strings.EraseBoth | src/utils/string.cpp:56-74 | the two erasing loops give the specified trim |
| Strings.TrimDropsSpaces | src/utils/string.cpp:56-74 | trimming takes spaces off both ends, all of them, and nothing else |
| Strings.TrimIsIdempotent | src/utils/string.cpp:71-74 | a trimmed string stays as it is |
| Strings.PrintedIntParses | src/utils/string.cpp:15-30 | an integer written with "%d" or "%lld" is read back, and only if it fits the width it is read with |
| Strings.ParsesExactly | src/utils/string.cpp:15-30 | for every string, which has such parts by HasIntText: spaces, a sign and digits are read as their number, whatever follows, and without digits or out of range it throws |
| Strings.WidthsAreExact | src/utils/string.cpp:15-30 | stoi reads exactly the integers from -2147483648 to 2147483647, stoll those of 64 bits |
| Strings.IEqualsExactly | src/utils/string.cpp:49-54 | iequals holds if and only if the strings differ in the case of letters alone, when the second has no capitals |

## Left out

- Sockets, accepting, signals, threads starting, the connection manager, logging, environment and the MIME table: only
  the completion of a read is an event.
- libpq, hiredis, argon2, JSON and flatbuffers: parameters or maps. A session is stored as the user it names; decoding
  the stored bytes is taken to give that user back.
- A second request on a connection: neither the request nor the parser is cleared after the first.
- Destructors and a pool whose construction fails.
- The JSON text of response bodies and the framing of responses; of a response the model has the status, the message,
  the id or the user it carries, and the session id it sets as a cookie, whose other fields are literals. How a body is parsed is a parameter: it is
  empty, does not parse, or gives two fields.
- Losing and reopening a connection to the database or the store, a reply that is missing altogether, keys that expire,
  and statements or keys written by other programs.
- Embedded zero bytes cut by `c_str()`, and a hash that ends in spaces, which the column would cut instead of refuse.
- The arrays of lengths and pointers that libpq is given.
- Floats, booleans, strings and byte arrays of the store.
- Races between requests on the store: each request of the use cases is one step. Of the database's connections, any
  order of calls is covered by `NeverBothOnOneClient`.
- A data race on the deque beyond the order of whole `front`, `pop_front` and `push_back` calls, which C++ leaves
  undefined.
- A random source or a store with too few answers: a login for which no free id is ever drawn does not return, and is
  modelled as never answered.
- Router.RequestHandler.constructor: demands routes with non-empty paths, because `substr(1)` of an empty path throws out of the constructor.
- UrlDecode.DecodeInvertsEncode: what the stream makes of two characters that are not both hexadecimal digits is left to a parameter.
- HeaderScan.HeaderOrderDoesNotMatter: demands that none of the three names is repeated, because the first of several values wins.
- EndToEnd.SessionTravels: demands that the head end in the last read, because a connection whose head ends earlier stalls.
