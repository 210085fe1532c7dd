# Chat server, chat client, password generator and BMI calculator in Dafny

This project models the sequential logic of four small Python programs and proves
properties of that logic:

- the TCP chat server (`server.py`);
- its client (`client.py`);
- the command-line password generator (`password_generator.py`);
- the Tkinter BMI calculator (`advanced_bmi_app.py`).

Sockets, threads, the console and the GUI around the logic are replaced by parameters.

**Chat server** (modules `ServerBroadcast` and `ChatServer`).

- The state is the pair of module-level lists `clients` and `nicknames`. Connections are abstract ids.
- Every thread contributes events:
  - a handshake completing (`Join`);
  - a read returning data, or returning nothing (`Received`);
  - a read raising (`Crashed`).
- Any interleaving of the threads in which each event runs to completion before the next one starts is a sequence of events, and `Run` folds the events over the empty registry.
- Each event carries the set of connections whose `send` raises during the broadcast the event triggers.
- `broadcast` is modelled twice:
  - `Fanout` is a recursive reference definition;
  - `Broadcast` is the loop as written: an index into a list that the loop body shrinks. It is proved to compute exactly `Fanout`.
- The model keeps the behaviour of the code as written:
  - a connection whose `send` fails is removed from the list while the list is being iterated, so the next connection is skipped (`FanoutSkipsSuccessorOfEvicted`, `EvictionSkipsAndKeepsNickname`);
  - the evicted connection's nickname stays in `nicknames`, so later departures are announced under the wrong name (`StaleNicknameMisannounces`);
  - nicknames are removed by value, so duplicate nicknames misalign the two lists (`DuplicateNicknamesMisalign`, `DuplicateNicknamesMisannounce`);
  - a connection that was already evicted is ignored when its handler ends (`TeardownOfEvictedIsSilent`).
- The alignment of the two lists is proved for runs in which no `send` fails at all, every join brings a fresh connection under a nickname nobody has, and only registered connections read (`AdmissibleRunAligned`, `AdmissibleRunPairs`). These conditions are sufficient, not necessary. The example lemmas show it breaking after an eviction or with a duplicate nickname.
- That `clients` never holds a connection twice is proved for every run in which joins bring fresh connections, whatever fails (`RunKeepsClientsDistinct`).
- The teardown's `nicknames[index]` lookup would raise `IndexError` if `index` were out of range. That branch is modelled, and `TeardownNeverRaises` proves it is never taken in a run of whole events.

**Chat client** (module `ChatClient`).

- The reaction to one payload: reply with the nickname to the `NICK` prompt, otherwise print the payload.
- The formatting of outbound lines.
- The two loops, run over the sequence of outcomes of their `recv` / `input` / `send` calls.
- The early return of `start_client` when the connection is refused.
- Module `Handshake` joins the client and the server:
  - the nickname the client chooses is the one the server registers;
  - a typed line reaches the other clients and is printed unchanged.

**Password generator** (module `PasswordGenerator`, with `PyStr` for `str.strip` and `str.lower`).

- Randomness is a parameter `rng: nat -> nat`. Draw `k` is `rng(k)`, and the draws are numbered in the order the program makes them:
  - one guaranteed character per selected class;
  - then the remaining characters;
  - then the swaps of `random.shuffle`.
- `random.choice(s)` takes character `rng(k) % |s|`.
- `random.shuffle` is CPython's Fisher–Yates from the back, with its swap partner drawn in `0..i`.

**BMI calculator** (module `BmiApp`).

- `real` stands for Python's float.
- The data file is either missing or a sequence of rows of cells. A cell holds text, a number or a timestamp, as the application writes it.
- "Show User History" returns what it would plot, or which message or exception stops it.

## Model

| member | source | states |
|---|---|---|
| ServerBroadcast.Fanout | server.py:12-23 | the connections sent the message and those evicted are together no more than the connections registered when the broadcast started (at most once each on a duplicate-free list is `FanoutDeliversOnce`) |
| ServerBroadcast.Broadcast | server.py:12-23 | the loop over a list from which failing connections are removed while it runs sends to and evicts exactly the connections of the reference fan-out, and the list it leaves is the original with each evicted connection removed by value |
| ServerBroadcast.FanoutMembers | server.py:14-23 | every connection sent the message was registered, is not the sender and did not fail; every evicted one was registered, is not the sender and failed |
| ServerBroadcast.FanoutWithoutFailures | server.py:14-18 | when no connection other than the sender fails, every other connection is sent the message, in list order, and none is evicted |
| ServerBroadcast.FanoutDeliversOnce | server.py:14-18 | on a duplicate-free list no connection is sent the message twice or evicted twice |
| ServerBroadcast.FanoutSplits | server.py:14-23 | when the iteration over a prefix ends exactly at its end, the broadcast over prefix and rest is the broadcast over the prefix followed by the broadcast over the rest |
| ServerBroadcast.FanoutSkipsSuccessorOfEvicted | server.py:14-23 | when the iteration reaches a connection, at any position, and its `send` fails, that connection is evicted and the one right after it is neither sent the message nor evicted in that broadcast |
| ServerBroadcast.SkipExample | server.py:14-23 | over connections 1, 2, 3 with 1 failing, only 3 hears the message and only 1 is evicted |
| ServerBroadcast.LaterSkipExample | server.py:14-23 | over connections 1, 2, 3, 4 with 2 failing, 1 and 4 hear the message, 2 is evicted and 3 is skipped |
| ChatServer.Send | server.py:12-23 | no contract of its own: the broadcast on the registry, with failed connections removed from `clients` only; its properties are `SendNeverEchoes`, `SendWithoutFailures` and `SendEvicts` |
| ChatServer.SendNeverEchoes | server.py:12-23 | every packet carries the message unchanged, goes to a registered connection that is not the sender and did not fail; every closed connection failed; `nicknames` is untouched |
| ChatServer.SendWithoutFailures | server.py:12-18 | without failures the broadcast leaves the registry as it was and addresses the message to every connection but the sender, in order |
| ChatServer.SendEvicts | server.py:19-23 | on a duplicate-free `clients`, a connection stays registered exactly when it was registered and was not closed; `nicknames` keeps every entry |
| ChatServer.Admit | server.py:74-83 | no contract of its own: prompt, append both lists, welcome, join notice; its properties are `AdmitAppends`, `AdmitAligns` and `AdmitAnnounces` |
| ChatServer.AdmitAppends | server.py:74-79 | a join appends the handshake reply, unvalidated, to `nicknames` and the connection to `clients`; the newcomer stays last even when the join notice evicts others |
| ChatServer.AdmitAligns | server.py:78-79 | when both lists had the same length and nothing fails, the newcomer's nickname sits at the same index as its connection |
| ChatServer.AdmitAnnounces | server.py:74-83 | the newcomer gets the `NICK` prompt and then the welcome line, and nothing else; every other packet is the join notice, for a connection registered before it; without failures every earlier connection gets it, in order |
| ChatServer.RelayForwardsVerbatim | server.py:30-36 | a non-empty read is forwarded unchanged and never back to its sender; without failures it reaches every other connection and the registry is unchanged |
| ChatServer.Teardown | server.py:43-52 | no contract of its own: lookup, removal, close, leave notice, removal of the nickname by value; its properties are `TeardownOfEvictedIsSilent`, `TeardownNeverRaises`, `TeardownAnnouncesLeave` and `TeardownAligned` |
| ChatServer.Step | server.py:27-52 | no contract of its own: a join is `Admit`, a non-empty read a relay, an empty read or an exception a teardown; its properties are `StepKeepsNicknamesCovering`, `StepKeepsClientsDistinct` and `StepKeepsAligned` |
| ChatServer.Run | server.py:27-83 | no contract of its own: the events folded over the empty lists; its properties are `RunKeepsNicknamesCovering`, `RunKeepsClientsDistinct`, `AdmissibleRunAligned` and `AdmissibleRunPairs` |
| ChatServer.TeardownOfEvictedIsSilent | server.py:43-44 | a connection no longer in `clients` is ignored when its handler ends: no notice, no socket closed, `nicknames` unchanged |
| Sequences.IndexOf | server.py:45 | `clients.index(c)` is the position of the first occurrence of `c` |
| Sequences.RemoveFirst | server.py:22-23 | `remove` of a present value takes out exactly its first occurrence: the list before that position is kept, and everything after it moves down by one; a list without the value is left unchanged |
| ChatServer.RemovalByValueHitsIndex | server.py:45-51 | removing a nickname by value removes the entry at the connection's index exactly when no earlier entry has the same nickname |
| ChatServer.StepKeepsNicknamesCovering | server.py:43-51 | no event makes `clients` longer than `nicknames` |
| ChatServer.RunKeepsNicknamesCovering | server.py:43-83 | in every run `clients` is no longer than `nicknames` |
| ChatServer.TeardownNeverRaises | server.py:45-49 | in every run, the index of a registered connection is a valid index of `nicknames`, so `nicknames[index]` never raises |
| ChatServer.TeardownAnnouncesLeave | server.py:44-50 | a leaving connection is removed before the leave notice goes out, so it never receives it; it is closed first; the notice names the nickname at its index and, without failures, reaches every remaining connection in order |
| ChatServer.StepKeepsClientsDistinct | server.py:19-23 | whatever fails, an event keeps `clients` free of duplicates when a join brings a connection not yet registered |
| ChatServer.TeardownKeepsClientsDistinct | server.py:44-50 | a teardown keeps `clients` free of duplicates, whatever fails |
| ChatServer.RunKeepsClientsDistinct | server.py:71-79 | in every run in which joins bring new connections, `clients` never holds a connection twice |
| ChatServer.StepKeepsAligned | server.py:43-83 | with aligned lists, an admissible join appends to both lists, a relay changes nothing, and a departure deletes the same position from both, so the lists stay aligned |
| ChatServer.TeardownAligned | server.py:44-51 | with aligned lists and no failures, a departure deletes the connection's position from both lists |
| ChatServer.AdmissibleRunAligned | server.py:43-83 | in runs without send failures, with fresh connections and distinct nicknames, the lists have equal length, joins minus departures, and hold no duplicates |
| ChatServer.AdmissibleRunPairs | server.py:43-83 | in such runs the nickname at every position is the one the connection at that position joined with |
| ChatServer.JoinKeepsPairs | server.py:78-79 | appending a new connection with its nickname keeps every existing pairing and adds the new one |
| ChatServer.TeardownShifts | server.py:45-51 | deleting the same position from both lists keeps every remaining pairing |
| ChatServer.JoinRunStep | server.py:74-83 | a failure-free join of a new connection at the end of any run appends it and its nickname to the lists of that run |
| ChatServer.TwoJoins | server.py:74-83 | two failure-free joins of distinct connections register them in order with their nicknames |
| ChatServer.ThreeJoins | server.py:74-83 | three failure-free joins of distinct connections register them in order with their nicknames |
| ChatServer.EvictionSkipsAndKeepsNickname | server.py:14-23 | with 1, 2, 3 registered as a, b, c, when 3 talks and 1 fails, 1 is evicted, 2 is skipped, nobody hears the message, and `nicknames` still holds a |
| ChatServer.StaleNicknameMisannounces | server.py:44-51 | after that eviction, 3 leaving is announced as b leaving, and b's nickname is the one removed |
| ChatServer.DuplicateNicknamesMisalign | server.py:49-51 | with nicknames x, y, x, the second x leaving removes the first x entry, so connection 1 ends up next to y |
| ChatServer.DuplicateNicknamesMisannounce | server.py:49-50 | then connection 1 leaving is announced as y leaving |
| ChatServer.BobJoinsAlice | server.py:74-83 | bob joining alice gets the prompt and the welcome, and alice alone gets the join notice |
| ChatServer.AliceTalksToBob | server.py:30-36 | alice's line reaches bob only, unchanged |
| ChatServer.AliceLeavesBob | server.py:43-51 | alice's empty read removes her from both lists, closes her socket, and the leave notice reaches bob |
| ChatServer.AliceTeardown | server.py:43-51 | the clean-up after alice's empty read removes her from both lists, closes her socket and sends the leave notice to bob alone |
| ChatServer.AliceLeaveNoticeReachesBob | server.py:12-19 | once alice is out of `clients`, the leave notice reaches bob and nobody else, and the lists are unchanged |
| ChatClient.OnPayload | client.py:12-19 | the client replies exactly when the payload is `NICK`, and the reply is its nickname; any other payload is printed unchanged |
| ChatClient.FormatLine | client.py:35 | the outbound line is `<`, the nickname, `>: `, then the typed text, and nothing else |
| ChatClient.FormattedLineIsNotPrompt | client.py:35 | no formatted line equals `NICK`, so a relayed chat line is always printed and never answered |
| ChatClient.FormatLineInjective | client.py:35 | for a fixed nickname, different typed texts give different lines |
| ChatClient.ReceiveLoop | client.py:8-25 | the receive loop closes the socket exactly when a turn raises inside its `try`: the `recv`, or the reply `send` after a prompt; every reply is the nickname; `NICK` is never printed |
| ChatClient.ReceiveStopsAtError | client.py:20-25 | nothing after a turn that raises is looked at |
| ChatClient.ReceiveWithoutError | client.py:10-19 | on an inbox without any error, every prompt is answered and every other payload is printed, verbatim and in order, and the socket stays open |
| ChatClient.ReceiveUntilError | client.py:8-25 | up to the first turn that raises, every prompt is answered and every other payload is printed, verbatim and in order; that turn closes the socket whatever follows it |
| ChatClient.SendLoop | client.py:27-42 | the send loop stops exactly when an input is end-of-input or a failed send; it closes the socket only when it stops and some send failed, and stops without closing only at an end of input; every line it sends is a formatted line, never `NICK` |
| ChatClient.SendStops | client.py:37-42 | end of input stops without closing the socket; a failed send stops and closes it; every line typed before is sent, formatted, in order |
| ChatClient.StartClient | client.py:44-67 | a refused connection transmits nothing; otherwise everything transmitted is the nickname or a formatted line, so `NICK` goes out only from a client named `NICK`; the socket is closed only after a turn that raises or a failed send, and always after a receive turn that raises |
| Handshake.HandshakeRegistersChosenNickname | server.py:74-79 | the first packet a newcomer gets is the prompt, the client answers with its nickname, and the server appends exactly that nickname, with the connection last in `clients`; with aligned lists and no failures both land at the same index |
| Handshake.ChatLineShownVerbatim | server.py:30-36 | a typed line relayed by the server reaches only the other clients, and each prints it unchanged |
| PyStr.SkipSpaces | password_generator.py:23-25 | the scan from the left stops at the first character that is not whitespace, or at the end when there is none; everything it passed is whitespace |
| PyStr.TrimEnd | password_generator.py:23-25 | the scan from the right never passes the left cut; everything it passed is whitespace, and it stops at the left cut or just after a character that is not whitespace |
| PyStr.Strip | password_generator.py:23-25 | the stripped answer is the slice of the answer left once the whitespace at both ends is cut off: empty exactly when the answer is all whitespace, and otherwise neither starting nor ending with whitespace |
| PyStr.LowerAscii | password_generator.py:23-25 | the lower-cased answer has the same length, with each ASCII capital replaced by its small letter and every other character kept |
| PasswordGenerator.Toggle | password_generator.py:23-25 | no contract of its own: `answer.strip().lower() == 'y'`; its meaning is `ToggleAcceptsOnlyY` |
| PasswordGenerator.ToggleAcceptsOnlyY | password_generator.py:23-25 | a class is included exactly when the answer, stripped, is `y` or `Y` |
| PasswordGenerator.SelectedNonEmpty | password_generator.py:33-41 | every alphabet offered for selection is non-empty, so a choice from it is defined |
| PasswordGenerator.Guaranteed | password_generator.py:31-41 | one guaranteed character per selected class, the i-th drawn from the i-th selected alphabet |
| PasswordGenerator.Fill | password_generator.py:56-59 | exactly the remaining number of characters, each drawn from the pool |
| PasswordGenerator.Swap | password_generator.py:65 | one exchange of two positions keeps the length and the multiset of characters |
| PasswordGenerator.ShuffleDown | password_generator.py:65 | the Fisher–Yates passes only permute: length and multiset of characters are kept |
| PasswordGenerator.Shuffle | password_generator.py:65 | `random.shuffle` returns a permutation of its list |
| PasswordGenerator.Unshuffled | password_generator.py:56-62 | guaranteed plus remaining characters make up exactly the requested length |
| PasswordGenerator.Generate | password_generator.py:12-69 | a non-integer length, a non-positive length, no selected class, or fewer characters than selected classes is each rejected, in that order; a password comes out exactly when the length is at least the number of selected classes, and it is the one built for the classes the answers select |
| PasswordGenerator.GenerateFor | password_generator.py:27-69 | for chosen classes: the same rejections in the same order; otherwise the password is the guaranteed and remaining characters, shuffled |
| PasswordGenerator.Pool | password_generator.py:29-40 | no contract of its own: the selected alphabets concatenated; its properties are `PoolEmptyIffNothingSelected` and `PoolMembers` |
| PasswordGenerator.PoolEmptyIffNothingSelected | password_generator.py:29-47 | the pool is empty exactly when no class was selected |
| PasswordGenerator.PoolMembers | password_generator.py:29-41 | the pool holds exactly the characters of the selected alphabets |
| PasswordGenerator.ConcatMembers | password_generator.py:33-40 | a concatenation of alphabets holds exactly the characters of its parts |
| PasswordGenerator.UnshuffledFromPool | password_generator.py:29-62 | every character before the shuffle is from the pool, and the i-th is from the i-th selected alphabet |
| PasswordGenerator.PermutationKeepsClasses | password_generator.py:62-65 | a permutation keeps characters inside the pool and keeps one character of every selected alphabet |
| PasswordGenerator.GeneratedPasswordShape | password_generator.py:56-69 | when the length is positive and at least the number of selected classes, a password is generated; it has the requested length, consists only of pool characters, and is a permutation of the guaranteed plus remaining characters |
| PasswordGenerator.GeneratedPasswordMeetsEverySelection | password_generator.py:33-65 | when the length covers the selected classes, a password is generated and it holds a character of every selected alphabet |
| PasswordGenerator.SelectedPositions | password_generator.py:33-41 | letters come first, then digits, then punctuation, among the selected alphabets |
| PasswordGenerator.GeneratedPasswordHasEachClass | password_generator.py:33-65 | when the length covers the selected classes, a password is generated and it holds a letter if letters were selected, a digit if digits were, and a punctuation character if symbols were |
| PasswordGenerator.LettersAreLetters | password_generator.py:34-35 | `string.ascii_letters` holds only ASCII letters |
| PasswordGenerator.DigitsAreDigits | password_generator.py:37-38 | `string.digits` holds only digits |
| PasswordGenerator.PunctuationIsNeither | password_generator.py:40-41 | `string.punctuation` holds neither letters nor digits, so the three classes do not overlap |
| PasswordGenerator.GeneratedPasswordMixesKinds | password_generator.py:33-65 | when the length covers the selected classes, the password holds an ASCII letter if letters were selected, a digit if digits were, and a character that is neither if symbols were, so the guaranteed characters are of different kinds |
| BmiApp.Category | advanced_bmi_app.py:118-127 | below 18.5 is Underweight, [18.5, 25) Normal Weight, [25, 30) Overweight, 30 and above Obesity, each in both directions |
| BmiApp.CategoryMonotone | advanced_bmi_app.py:118-127 | a larger BMI never gets a lower category |
| BmiApp.Color | advanced_bmi_app.py:98-104 | a category in the color table gets its color, anything else gets black |
| BmiApp.CategoryColors | advanced_bmi_app.py:98-104 | a computed category is never shown in black, and different categories get different colors |
| BmiApp.BodyMassIndex | advanced_bmi_app.py:88 | for a positive weight and height, the BMI is positive and times the squared height gives back the weight |
| BmiApp.CalculateAndSave | advanced_bmi_app.py:65-111 | an empty stripped username is rejected before anything else; then an unparsable weight or height; then a non-positive one; otherwise the BMI, its category and color are shown, and the file gets the row exactly when saving succeeds |
| BmiApp.DataRow | advanced_bmi_app.py:135 | a data row has the header's six columns, holding in the header's order the timestamp, the username, the weight, the height, the BMI and the category of the entry |
| BmiApp.SaveToCsv | advanced_bmi_app.py:129-143 | a save appends exactly one data row, keeping every earlier row, after the header only when the file did not exist |
| BmiApp.History | advanced_bmi_app.py:146-156 | an empty stripped username is reported before the file is looked at; otherwise the view is that of the file for the stripped name |
| BmiApp.Scan | advanced_bmi_app.py:162-168 | the rows after the header give one date per BMI and no more pairs than rows, or an exception; what it finds is stated by `ScanDataRows` and `ScanSnoc` |
| BmiApp.ShowFile | advanced_bmi_app.py:153-172 | a missing file, and only that, gives "no data file"; an empty file or a row that raises, and only that, gives an exception; readable rows none of which match, and only that, give "no historical data"; a plot is shown exactly when readable rows match, and it holds those rows' dates and values |
| BmiApp.SaveAllAppends | advanced_bmi_app.py:137-143 | saves into an existing file append one data row per entry, in order |
| BmiApp.MissingSavesLikeHeaderOnly | advanced_bmi_app.py:132-141 | saving into a missing file gives the same file as saving into one holding only the header |
| BmiApp.SaveAllRows | advanced_bmi_app.py:137-143 | saves into a missing file give the header followed by one data row per entry |
| BmiApp.ScanDataRows | advanced_bmi_app.py:162-168 | scanning saved rows returns, in file order, the dates and BMIs of exactly the rows whose username column is the name |
| BmiApp.DatesLengthMatches | advanced_bmi_app.py:167-168 | each matching row adds one date and one BMI |
| BmiApp.HistoryAfterSaves | advanced_bmi_app.py:129-172 | after a series of saves from no file, the history of a user plots exactly that user's dates and BMIs in save order, or says there is none |
| BmiApp.ScanSnoc | advanced_bmi_app.py:162-168 | one more matching row adds its date and BMI at the end |
| BmiApp.HistoryAfterSave | advanced_bmi_app.py:129-172 | after a save into a readable file, the history of that user ends with the saved date and BMI |
| BmiApp.SaveThenShow | advanced_bmi_app.py:65-172 | a successful "Calculate & Save" followed by "Show User History" under the same name plots the BMI just computed, last |
| BmiApp.EmptyFileHidesFirstSave | advanced_bmi_app.py:132-164 | a data file that exists but is empty gets no header, so the first row saved into it is read as the header and never shown |

## Left out

- Sockets, `bind`/`listen`/`accept`, and `recv(1024)` truncation of long messages: connections are abstract ids and a read returns a whole string.
- UTF-8 encoding and decoding: messages are strings. A decode error in the client raises like any other receive error (`RecvError`).
- Threads, locking and races: only sequential interleavings of whole events are modelled. A broadcast or teardown running concurrently with another is not modelled. The source has no lock, so overlapping teardowns can raise the `IndexError` that whole events never reach. For example, take `clients` `[X, A]` and `nicknames` `["x", "a"]`. A's handler finds index 1 and removes A. X's handler then runs its whole teardown, which leaves `nicknames` as `["a"]`. A's handler then reads `nicknames[1]`.
- The sends of the `NICK` prompt and the welcome line in `start_server`, and the handshake read, are assumed not to raise. If they raised, the source's accept loop would die.
- `print`, `input`, Tkinter widgets, `messagebox`, matplotlib and `datetime.now`. Inputs are parameters and outputs are returned values.
- `random.choice` and `random.shuffle` as generators: the draws are the parameter `rng`, and `_randbelow(n)` is `rng(k) % n`.
- `int(...)` parsing of the length and `float(...)` parsing of weight and height: each is a parameter, `None` when the parse raises.
- IEEE floating point: `real` has no NaN or infinity. `float("nan")` would pass the positivity check in the source and be classified as Obesity; the model does not cover this.
- BmiApp.CalculateAndSave: always produces a result for a positive weight and height. In the source, squaring a huge height raises an uncaught `OverflowError`, and a tiny height squares to `0.0`, so the division raises an uncaught `ZeroDivisionError`. Neither exception is modelled, because `real` arithmetic neither overflows nor underflows.
- BmiApp.DataRow: stores the exact BMI, not `round(bmi, 2)`. Rounding and the `:.2f` display are not modelled.
- BmiApp.Scan: the `csv` module's quoting and the text round trip of numbers are not modelled. A cell is read back as the value that was written, and a text cell never parses as a number or a timestamp.
- PyStr.LowerAscii: lower-cases only ASCII letters. For the comparison with `"y"` this is enough, since no other character lower-cases to `y`.
- ChatClient.StartClient: only `ConnectionRefusedError` is modelled (`refused`). Any other exception from `connect` propagates out of `start_client` in the source; the model has no such outcome.
- ChatClient.ReceiveLoop: an empty payload, which `recv` returns after the server closes, is printed and the loop continues, as the source does. The endless repetition this causes is not modelled beyond the given inbox.
