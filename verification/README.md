# Lab projects: chat rooms, book recommender, space-photo tiling — a Dafny model

This project models the sequential core of four Python programs and proves properties of
the model:

- **Chat server** (`Laboratory_3/server.py`). The global `clients` dictionary maps a room to
  the ordered `(username, writer)` list of its members. `ChatServer.Server` holds:
  - that dictionary;
  - an outbox per connection, which stands in for every `writer.write`;
  - the set of closed connections.

  Its methods are admission with the `private_` two-member cap, the two broadcast helpers,
  the relay loop, and the `finally` cleanup. The invariant `Registry` says two things: no
  room lists a connection twice, and no `private_` room holds more than two entries. Every
  operation preserves it.
- **Chat client** (`Laboratory_3/client.py`). This part covers:
  - the chat-line framing and the registration lines;
  - the validation in `on_confirm`, and how it derives the private room name;
  - the dispatch of received text to the roster widget or the chat log, and the widgets
    modelled as text (`ChatClient.Session`).

  Cross-file lemmas show that the client's markers match the server's wire texts. These
  are Russian, exactly as in the code.
- **Book recommender** (`Laboratory_4/book_recommender.py`). This part covers:
  - `filter_books`, `calculate_match` and `recommend_books`;
  - `process_preferences`, which is the `Preferences` constructor;
  - the non-widget steps of `get_recommendations`, on a `Shelf` whose list the in-place
    sort may reorder;
  - author suggestions, and the `select_author` toggle on an `AuthorPicker`.

  Python's stable `sorted` and `list.sort` are the generic insertion sort `StableSort.SortBy`.
  It is proved to permute its input, to order the result, and to be stable.
- **Space-photo analyser** (`Laboratory_2/parallel_processing_space.py`). This part covers:
  - `classification`;
  - the row-major tiling loop of `splitImage`, with the image given by height and width;
  - the coordinate arithmetic of `analyzePhotoPart`;
  - the colour choice and file name of `saveImagePart`.

Shared Python semantics live in `text.dfy` (`strip`, `lower`, `startswith`, `in`, `join`,
`split`, `isdigit`, `int`, decimal rendering) and `seqs.dfy` (filtering comprehensions,
slices, subsequences).

Some behaviour of the code worth knowing when reading the model:
- The wire texts are Russian strings, kept exactly as the code writes them.
- A newcomer refused by a full private room still runs the `finally` block. The existing
  members therefore receive a fresh roster and a "left" line for the refused user
  (`ChatServer.Server.Refuse`).
- Relayed lines are stripped by the server, not forwarded verbatim; a line of whitespace
  only is relayed as an empty message.
- An empty username or room line (EOF during registration) is not rejected. The connection
  is admitted under the empty name.

## Model

| member | source | states |
|---|---|---|
| `Text.Strip` | Laboratory_3/server.py:10-11 | `strip()` leaves no whitespace at either end and never lengthens the text |
| `Text.StripInfix` | Laboratory_3/server.py:35 | the stripped text is an infix of the input, and only whitespace was cut on either side |
| `Text.StripLine` | Laboratory_3/server.py:10-11 | a line read with its newline strips back to the text written, when that text has no whitespace at its ends |
| `Text.JoinSplit` | Laboratory_4/book_recommender.py:115 | joining the pieces of `split(", ")` with the same separator gives back the keyword text |
| `Text.SplitPiecesFree` | Laboratory_4/book_recommender.py:115 | no keyword piece contains the separator, so the cuts are exactly its occurrences |
| `Text.ParseShowNat` | Laboratory_2/parallel_processing_space.py:149 | the decimal rendering of a number parses back to that number |
| `StableSort.SortByPermutation` | Laboratory_4/book_recommender.py:44 | sorting only reorders: same multiset, same length |
| `StableSort.SortBySorted` | Laboratory_4/book_recommender.py:130-132 | the result has no element strictly before an earlier one, in the requested direction |
| `StableSort.SortByStable` | Laboratory_4/book_recommender.py:44 | for every key, the elements carrying it keep their input order, also with `reverse=True` |
| `StableSort.KeyLessOrder` | Laboratory_4/book_recommender.py:130 | `<` on numbers and on strings (code-point lexicographic) is irreflexive, transitive and total |
| `ChatServer.Usernames` | Laboratory_3/server.py:54 | the roster names are the members' usernames, one per entry, in join order |
| `ChatServer.RemoveConnSpec` | Laboratory_3/server.py:42 | removal drops exactly the leaving connection's entries and keeps the others in order; an absent connection changes nothing |
| `ChatServer.DeliverInbox` | Laboratory_3/server.py:61-65 | a broadcast adds the line to a connection once per entry it has in the room, and nothing elsewhere |
| `ChatServer.BroadcastPair` | Laboratory_3/server.py:27-29 | each member receives the roster line and then the join line; non-members receive neither |
| `ChatServer.DeliverAllInbox` | Laboratory_3/server.py:31-37 | every member, the sender included, receives every relayed message in read order; connections outside the room receive nothing |
| `ChatServer.RelayedSpec` | Laboratory_3/server.py:35-37 | the i-th relayed message is the i-th line read, stripped, plus a newline |
| `ChatServer.BlankLineRelayed` | Laboratory_3/server.py:32-37 | a line of whitespace only (a bare newline included) is not EOF and is relayed as an empty message |
| `ChatServer.RegistryAppend` | Laboratory_3/server.py:14-24 | appending a fresh connection to a room that is not a full private room keeps every private room at two or fewer entries |
| `ChatServer.RegistryRemove` | Laboratory_3/server.py:41-42 | removing a connection keeps the registry invariant |
| `ChatServer.UnregisteredAfterRemove` | Laboratory_3/server.py:39-42 | after the cleanup the connection is in no room |
| `ChatServer.Server.constructor` | Laboratory_3/server.py:3 | the server starts with no rooms and nothing written |
| `ChatServer.Server.Write` | Laboratory_3/server.py:57 | one write appends one line to one connection's outbox |
| `ChatServer.Server.Broadcast` | Laboratory_3/server.py:63-65 | the loop writes the line to each entry in list order |
| `ChatServer.Server.SendMessageToRoom` | Laboratory_3/server.py:61-65 | message plus newline to every member in list order; nothing for an unknown room |
| `ChatServer.Server.SendActiveUsersToRoom` | Laboratory_3/server.py:52-58 | the roster line, built from the list at call time, to every member; nothing for an unknown room |
| `ChatServer.Server.Admit` | Laboratory_3/server.py:14-29 | admitted exactly when the room is not a full private room; the entry is appended last and roster then join line are broadcast; otherwise the busy line, close, and the `finally` broadcasts |
| `ChatServer.Server.Refuse` | Laboratory_3/server.py:15-20 | a full private room refuses the newcomer: the busy line to it alone, the room list unchanged, its members get the roster and the leave line of the `finally` block, and the connection is closed |
| `ChatServer.Server.Join` | Laboratory_3/server.py:22-29 | the room is created if new, the entry appended last, then every member (the newcomer included) receives the roster line and then the join line; nothing is closed |
| `ChatServer.Server.Leave` | Laboratory_3/server.py:39-49 | entries of the connection are removed if the room is known (the key stays); then roster, leave line and close |
| `ChatServer.Server.Relay` | Laboratory_3/server.py:35-37 | one received line, stripped, broadcast to the room |
| `ChatServer.Server.RelayUntilEof` | Laboratory_3/server.py:31-37 | lines are relayed in order until the first empty read; a newline-only line is not EOF |
| `ChatServer.Server.Serve` | Laboratory_3/server.py:31-49 | relay loop then cleanup: the room list loses the connection, the outbox is the relays followed by roster and leave line, and exactly this connection is closed |
| `ChatServer.Server.HandleClient` | Laboratory_3/server.py:5-49 | admission follows the private-room test on the stripped room line; admitted: the room key exists and its list is as before, and the outbox is join broadcasts, relays, then roster and leave line; refused: the list is unchanged and the outbox is the busy line plus the `finally` broadcasts; on both paths the registry invariant holds and exactly this connection is closed |
| `ChatClient.ChatLineRelayedVerbatim` | Laboratory_3/client.py:33-36 | the server relays a framed chat line unchanged when the username does not start, and the message does not end, with whitespace |
| `ChatClient.EmptyChatLineRelayed` | Laboratory_3/client.py:35-36 | an empty message reaches the peers as `username(HH:MM):` without the trailing space |
| `ChatClient.RegistrationRoundTrip` | Laboratory_3/client.py:48-51 | the server reads the username and then the room back from the two registration lines |
| `ChatClient.OnConfirm` | Laboratory_3/client.py:97-107 | proceeds iff ip, username and room are non-empty; the private room is `private_` followed by the username |
| `ChatClient.PrivateRoomSurvivesStrip` | Laboratory_3/client.py:104-105 | the derived private room still passes the server's `startswith("private_")` after stripping |
| `ChatClient.DispatchByRosterPrefix` | Laboratory_3/client.py:20-30 | only the roster prefix decides the route; the announcement branch behaves like the final branch |
| `ChatClient.RosterLineRecognised` | Laboratory_3/client.py:20 | every roster line the server builds is routed to the roster widget |
| `ChatClient.NoticesCarryMarkers` | Laboratory_3/client.py:25 | the join and leave markers occur in the server's announcements |
| `ChatClient.RoomBusyLogged` | Laboratory_3/client.py:28-30 | the busy line of a full private room goes to the chat log |
| `ChatClient.ShowAllLog` | Laboratory_3/client.py:25-30 | the log grows by exactly the non-roster pieces, in arrival order |
| `ChatClient.ShowAllRoster` | Laboratory_3/client.py:20-24 | the roster widget shows the most recent roster received |
| `ChatClient.Session.constructor` | Laboratory_3/client.py:7-10 | no writer, nothing sent, empty widgets |
| `ChatClient.Session.Register` | Laboratory_3/client.py:44-51 | the new writer receives the username line and then the room line, nothing else |
| `ChatClient.Session.Send` | Laboratory_3/client.py:33-37 | one framed line `username(HH:MM): message` and a newline, only if a writer exists |
| `ChatClient.Session.Disconnect` | Laboratory_3/client.py:113-117 | the writer is closed only if one exists |
| `ChatClient.Session.GetMessages` | Laboratory_3/client.py:13-30 | pieces are routed in order until the first empty read, and the widgets equal the fold of `Show` |
| `BookRecommender.FilterBooksSpec` | Laboratory_4/book_recommender.py:23-28 | the result keeps exactly the books meeting both enabled criteria, in order and with multiplicity; `KeyError` exactly when a genre-passing book has no year while a year is given |
| `BookRecommender.FilterBooksNoCriteria` | Laboratory_4/book_recommender.py:23-28 | with both criteria `None` the output is the input |
| `BookRecommender.CalculateMatch` | Laboratory_4/book_recommender.py:31-39 | score in {0,2,5,7,10,12,15,17}; `>= 10` iff genre hit, `% 10 >= 5` iff author hit, `% 5 == 2` iff keyword hit |
| `BookRecommender.BlankKeywordsIgnored` | Laboratory_4/book_recommender.py:37 | keywords blank after `strip()` never change a score |
| `BookRecommender.KeywordNotStripped` | Laboratory_4/book_recommender.py:37 | containment uses the unstripped keyword: a leading space is non-blank yet misses the bare word |
| `BookRecommender.EmptyKeywordBox` | Laboratory_4/book_recommender.py:115 | an empty keyword box gives one empty keyword, which never matches |
| `BookRecommender.RecommendBooksSpec` | Laboratory_4/book_recommender.py:42-44 | one `(book, score)` pair per book with its own score, non-increasing scores, equal scores in input order |
| `BookRecommender.SelectedGenres` | Laboratory_4/book_recommender.py:113 | a genre is selected iff its box is ticked |
| `BookRecommender.CandidatesSpec` | Laboratory_4/book_recommender.py:118-126 | candidates are the books in exact selected genres (when that filter is on) and in the inclusive year range (only when both boxes hold digits; missing year is 0), each as often as in the catalogue, in catalogue order |
| `BookRecommender.ArrangeSpec` | Laboratory_4/book_recommender.py:128-132 | the pre-sort permutes and orders by lower-cased title or by year (missing is 0), descending for `"desc"`, books with equal keys keeping their order; other options keep the order |
| `BookRecommender.Shelf.constructor` | Laboratory_4/book_recommender.py:182 | the shelf holds the loaded catalogue |
| `BookRecommender.Shelf.GetRecommendations` | Laboratory_4/book_recommender.py:112-135 | the shown list is the ranking of the arranged candidates; the shared catalogue is re-sorted in place exactly when no filter built a new list |
| `BookRecommender.BlankQuery` | Laboratory_4/book_recommender.py:56-58 | a query empty after `strip()` gives no suggestions |
| `BookRecommender.AuthorSuggestionsSpec` | Laboratory_4/book_recommender.py:56-61 | exactly the first 20 matches (all of them when fewer), in list order, of authors whose lower-cased name contains the query |
| `BookRecommender.Toggle` | Laboratory_4/book_recommender.py:75-82 | an absent author is added; a present one is removed only on confirmation; others untouched |
| `BookRecommender.ToggleTwice` | Laboratory_4/book_recommender.py:75-82 | adding a new author and confirming its removal restores the selection |
| `BookRecommender.AuthorPicker.constructor` | Laboratory_4/book_recommender.py:244 | the selection starts empty |
| `BookRecommender.AuthorPicker.SelectAuthor` | Laboratory_4/book_recommender.py:74-85 | the selection is toggled, the search box cleared, and the refreshed suggestions are empty |
| `SpaceAnalysis.Classification` | Laboratory_2/parallel_processing_space.py:44-52 | always one of the three kinds, never `"-"`; bright star iff area > 300 and brightness > 1000; planet iff area > 300 and brightness < 200; area exactly 300 is a star |
| `SpaceAnalysis.RangeLenSpec` | Laboratory_2/parallel_processing_space.py:127-128 | `k * step` is produced by `range(0, n, step)` iff `k < ceil(n / step)` |
| `SpaceAnalysis.SplitImage` | Laboratory_2/parallel_processing_space.py:122-134 | the nested loops emit exactly the grid of `ceil(H/ps) * ceil(W/ps)` tiles with running index |
| `SpaceAnalysis.TileShape` | Laboratory_2/parallel_processing_space.py:126-132 | a tile's index is `(oy/ps)*ceil(W/ps) + ox/ps`; offsets are multiples of `ps` inside the photo; size is `min(ps, W-ox)` by `min(ps, H-oy)`, never empty |
| `SpaceAnalysis.TilesRowMajor` | Laboratory_2/parallel_processing_space.py:127-128 | tiles come out row by row, left to right |
| `SpaceAnalysis.TilesPartition` | Laboratory_2/parallel_processing_space.py:127-129 | every pixel lies in exactly one tile, the one at its grid row and column |
| `SpaceAnalysis.AnalyzePhotoPart` | Laboratory_2/parallel_processing_space.py:21-42 | every blob is kept; reported centre is the local box centre plus the offset, part index is 1-based, stored marker is in tile coordinates |
| `SpaceAnalysis.ClassifiedKindsHaveColors` | Laboratory_2/parallel_processing_space.py:140-145 | every kind the classifier produces has a circle colour |
| `SpaceAnalysis.PartFileNames` | Laboratory_2/parallel_processing_space.py:149 | a tile file is named by its 1-based index and `.png`; distinct tiles get distinct names |

## Left out

- Sockets, `asyncio` scheduling, `drain`, `wait_closed`, the client's event-loop thread and
  `run_coroutine_threadsafe`. Connections are ids, writes are outbox lines, and each
  handler step runs atomically, as under the cooperative loop.
- Interleavings of several handlers. `HandleClient` runs one connection's life on its own;
  `Admit`, `Relay` and `Leave` are the atomic steps another handler may interleave with.
- The client's `read(100)` chunking. The model routes whole pieces as read.
- The client's `main` coroutine (Laboratory_3/client.py:59-62), which is defined but never called.
- The `NameError` raised in the server's `finally` when `readline` fails before `room` or
  `username` is bound, and `UnicodeDecodeError` on bad bytes.
- `datetime.now()`. The timestamp is a parameter of `Session.Send`.
- All tkinter widgets, dialogs and window geometry, including `show_recommendations` and
  `update_selected_authors`. The latter displays a set in Python's set iteration order,
  which is not modelled.
- `list(selected_authors)`. Its order is unspecified in Python, so it is a parameter of
  `GetRecommendations`. Scores do not depend on that order.
- JSON loading, the openpyxl export (`save_to_read_list`, `save`), directory walking,
  `multiprocessing.Pool`, and all OpenCV and numpy work. A blob's area, bounding box and
  summed brightness are given numbers, and a tile is given by its size.
- The pixel data of tiles, the drawn circles, and the radius scaling `int(radius * 1.5)`.
- `Text.Lower`: does not model full Unicode `str.lower()`. It covers ASCII, Latin-1 and
  basic Cyrillic capitals.
- `Text.IsDigits`: does not model the non-ASCII digits `str.isdigit()` accepts, because
  `int()` rejects some of them; only ASCII digits are modelled.
- `SpaceAnalysis.SplitImage`: requires a positive part size, because `range` rejects a zero
  step. The program always passes 1000.
- Book records always carry `genre`, `author` and `description`. Only `title` and
  `first_publish_year` may be absent.
