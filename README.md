# Characteristic matching chat service — a Dafny model of its core

The service lets users chat with a language model. It extracts `key: value`
characteristics from the model's replies and stores them in a Neo4j graph.
User nodes in the graph are linked by HAS relationships to Characteristic
nodes, each keyed by its exact (name, value) pair. Users are searched by
characteristics and ranked by how many characteristics they share. Profiles
join the graph with a relational `users` table. Users also send each other
direct messages, which are stored in a relational `messages` table.

The model covers four pieces:

- `wrappers.dfy`: `Option`, `Result` and `NoDuplicates`.
- `database.dfy`: the `User` and `Message` rows, the first-row lookups the
  services run on `users`, and Python's `str(int)`. That function gives the
  key a user's node is stored under in the graph.
- `graph_db.dfy`: the graph as three sets. It holds User keys, Characteristic
  nodes and HAS edges. The three MERGEs, the conjunctive match, the
  characteristics read and the similarity ranking are modelled by what each
  query means. They are not modelled as Cypher text. `GraphService` is a class
  whose `store` is the graph the driver is connected to.
- `extraction.dfy`: the line parser `_extract_characteristics`. It also covers
  the fallback in `process_message` and `find_matching_users` that turns a
  failed model call into an empty mapping. A failed call is `None`; a
  successful one is its reply text.
- `profiles.dfy`: `ProfileService`. Its graph is keyed by `str(user.id)`.
  Search and suggestions join the graph's keys with the table by username, as
  the code does. The join by `str(id)` is modelled beside it as the corrected
  definition (see Findings).
- `messages.dfy`: `MessageService`. It works over the `messages` and `users`
  tables as sequences of rows, with integer timestamps.

## Model

| member | source | states |
|---|---|---|
| Database.FindById | app/services/profile_service.py:23 | The result is absent exactly when no row has the id. Otherwise it is the first row with that id. |
| Database.FindByUsername | app/services/profile_service.py:46 | The result is absent exactly when no row has the username. Otherwise it is the first row with that username. |
| Database.DigitsRoundTrip | app/services/profile_service.py:27 | Reading back the decimal numeral that `str` writes for a natural number gives that number. |
| Database.UserKey | app/services/profile_service.py:27 | `str(id)` starts with `-` exactly for a negative id, and every other character is a decimal digit. There is no leading zero except in "0" itself. The digits read back as the id's absolute value. |
| Database.UserKeyInjective | app/services/profile_service.py:39 | Two ids have the same `str(id)` graph key exactly when they are equal, so no two users share a graph node. |
| GraphDb.Merged | app/services/graph_db.py:21-27 | After the three MERGEs, the user, the (name, value) node and the edge between them all exist. Nothing is removed and nothing else is added. Validity of the graph is kept. |
| GraphDb.MergedIdempotent | app/services/graph_db.py:22-25 | Merging the same triple twice gives the same graph as merging it once: no duplicate node or edge appears. |
| GraphDb.MergedCommute | app/services/graph_db.py:22-25 | Two writes give the same graph in either order, so the iteration order of the dict of characteristics does not matter. |
| GraphDb.NoNormalisation | app/services/graph_db.py:24 | Two pairs that differ in any way, even only in case or blanks, become two distinct new nodes and two new edges. |
| GraphDb.FindUsers | app/services/graph_db.py:33-48 | Empty criteria give a malformed-query error, and only they do. Otherwise the result holds exactly the users that have an edge to every (name, value) pair of the criteria, with no duplicates. |
| GraphDb.GetCharacteristics | app/services/graph_db.py:54-61 | The keys of the map are exactly the names of the user's characteristics. Each key maps to a value the user has under that name. |
| GraphDb.UnknownUserHasNone | app/services/graph_db.py:57-61 | A user that is not in the graph reads back the empty map. |
| GraphDb.WrittenNameIsRead | app/services/graph_db.py:57-61 | After writing (name, value) for a user, reading that user's characteristics gives a map containing `name`. |
| GraphDb.Shared | app/services/graph_db.py:70 | The shared characteristics of two users are exactly the nodes both have an edge to. |
| GraphDb.SimilarCandidates | app/services/graph_db.py:70-71 | The candidates are exactly the other users that share at least one characteristic with the user. |
| GraphDb.MostShared | app/services/graph_db.py:72-74 | Returns a member of the pool whose shared count is at least that of every member of the pool. |
| GraphDb.SelectionStep | app/services/graph_db.py:72-75 | Taking a pool member with the largest shared count keeps the list ranked and free of duplicates. Every user still in the pool shares no more than each user taken. |
| GraphDb.FindSimilarUsers | app/services/graph_db.py:67-78 | The result never holds the user and has no duplicates. Every entry shares at least one characteristic. Its length is min(limit, number of candidates). Shared counts do not increase along the list. No candidate left out shares more than any entry. |
| GraphDb.GraphService.AddUserCharacteristic | app/services/graph_db.py:15-18 | The graph becomes the old graph with the three MERGEs applied, and it stays valid. |
| GraphDb.GraphService.FindUsersByCharacteristics | app/services/graph_db.py:29-31 | Same promise as `FindUsers`, for the connected graph. |
| GraphDb.GraphService.GetUserCharacteristics | app/services/graph_db.py:50-52 | Same promise as `GetCharacteristics`, for the connected graph. |
| GraphDb.GraphService.FindSimilar | app/services/graph_db.py:63-65 | Same promise as `FindSimilarUsers`, for the connected graph, with at most `limit` entries. |
| Extraction.LeadingSpaces | app/services/claude_service.py:66-67 | Counts the leading whitespace: every character before the count is whitespace, and the character at the count is not. |
| Extraction.Trim | app/services/claude_service.py:66-67 | The result has no leading or trailing whitespace, and a text already trimmed is unchanged. The result is the slice that starts after the leading whitespace, and only whitespace follows it, so only whitespace is removed. |
| Extraction.Lower | app/services/claude_service.py:66 | Keeps the length and leaves no upper-case letter. Each upper-case letter becomes its lower-case letter (code plus 32). Every other character is kept as is, whitespace included. |
| Extraction.IndexOf | app/services/claude_service.py:65 | Finds the first occurrence of the separator, or reports that there is none. |
| Extraction.Split | app/services/claude_service.py:62 | Gives at least one piece. No piece contains the separator. Every piece is made of characters of the text. |
| Extraction.SplitJoin | app/services/claude_service.py:62 | Joining the pieces of `split('\n')` with the separator gives back the text, so no character is lost. |
| Extraction.LineEntry | app/services/claude_service.py:64-68 | A line without a colon contributes nothing. Any entry has a non-empty, trimmed, lower-case key and a non-empty, trimmed value. |
| Extraction.SplitsOnFirstColon | app/services/claude_service.py:65-68 | A line is split at its first colon. The value keeps any later colons, and the entry is the stripped, lower-cased key with the stripped value, or nothing when one of them is empty. |
| Extraction.ParseLines | app/services/claude_service.py:63-69 | Every key of the result is non-empty, trimmed and lower-case, and every value is non-empty and trimmed. |
| Extraction.ExtractCharacteristics | app/services/claude_service.py:58-73 | The dict the loop builds equals the parse of the reply's lines, stored in order. |
| Extraction.ParsedKeys | app/services/claude_service.py:63-69 | A key is in the result exactly when some line yields an entry with that key. |
| Extraction.LaterLineWins | app/services/claude_service.py:69 | When several lines yield the same key, the result maps the key to the value of the last such line. |
| Extraction.NoColonNoCharacteristics | app/services/claude_service.py:62-64 | A reply without any colon yields the empty map. |
| Extraction.PlainLine | app/services/claude_service.py:64-69 | A line `key: value` whose key is already trimmed and lower-case yields exactly (key, value). |
| Extraction.TwoLineReply | app/services/claude_service.py:62-69 | A reply such as `skills: rust\nhobbies: climbing` parses to exactly the map of those two pairs. When the keys coincide, the second value is kept. |
| Extraction.ProcessMessage | app/services/claude_service.py:20-38 | On a failed model call the result is the apology and the empty map. Otherwise it is the reply and the reply's parse. The map is well formed either way. |
| Extraction.FindMatchingUsers | app/services/claude_service.py:40-56 | On a failed model call the criteria are the empty map rather than an error. Otherwise they are the reply's parse. |
| Profiles.Admitted | app/services/profile_service.py:47 | `None` and 0 admit every user. Any other id admits exactly the users with a different id. |
| Profiles.FindByKey | app/services/profile_service.py:48 | Resolves a graph key to a user whose `str(id)` is that key, or to nothing exactly when no user has that key. |
| Profiles.FindByKeyOfId | app/services/profile_service.py:27 | Resolving the key `str(id)` finds the same user as looking the id up. |
| Profiles.Kept | app/services/profile_service.py:44-47 | The join keeps at most one hit per graph key, and only keys from the graph's list. Every hit's user is a row of the table and is admitted: it is not the excluded user when the exclusion id is truthy. This holds for the code's username lookup and for the `str(id)` lookup. |
| Profiles.KeptFound | app/services/profile_service.py:45-47 | Every hit's user is the row its key resolves to. For the code's lookup that is the first row with that username. For the `str(id)` lookup it is the user whose key it is. |
| Profiles.KeptComplete | app/services/profile_service.py:45-47 | No admitted user is lost: every listed key that resolves to an admitted row yields a hit for that row. |
| Profiles.KeptInOrder | app/services/profile_service.py:44-53 | The keys of the hits are a subsequence of the graph's list, in the graph's order. |
| Profiles.KeptRanked | app/services/profile_service.py:62-67 | When the graph's keys come ranked by shared characteristics, so do the keys of the hits. |
| Profiles.MatchesNext | app/services/profile_service.py:48-53 | Appending a hit's entry keeps the list built from the hits. The entry has the hit user's id and username and the characteristics read under that user's `str(id)`. |
| Profiles.WithAll | app/services/profile_service.py:37-39 | After writing a map for a user, the user has an edge for every pair of the map. The graph only grows, and every new edge is one of those pairs. |
| Profiles.WithAllStep | app/services/profile_service.py:38-39 | Writing one more pair is merging it, so writing the items one by one in any order gives the same graph. |
| Profiles.FreshUserReadsBack | app/services/profile_service.py:27-39 | For a user without characteristics, writing a map and reading the user's characteristics back gives that map. |
| Profiles.ProfileService.GetUserProfile | app/services/profile_service.py:22-35 | Returns nothing exactly when no user has the id. Otherwise it returns that user's id, username, email and creation time, with the characteristics read under `str(user_id)`. |
| Profiles.ProfileService.UpdateUserCharacteristics | app/services/profile_service.py:37-39 | The graph becomes the old graph with every item of the map written under `str(user_id)`. |
| Profiles.ProfileService.Resolve | app/services/profile_service.py:44-53 | Each graph key is looked up as a username, as the code does. The list holds one entry per hit of that join, in order. Each entry has the user's id and username and the characteristics stored under the user's `str(id)`. |
| Profiles.ProfileService.SearchUsers | app/services/profile_service.py:41-55 | Empty criteria make the graph query fail, and only they do. Otherwise the entries are the username join of exactly the graph's matches, in the graph's order. No entry is the excluded user when the exclusion id is truthy; `None` and 0 exclude nobody. |
| Profiles.ProfileService.GetUserSuggestions | app/services/profile_service.py:57-75 | An unknown id gives `[]`. Otherwise the entries are the username join of the graph's similarity ranking for `str(user_id)`. There are at most `limit` of them, 5 by default. Each entry's username is a key of the ranking, and entries come by non-increasing shared count of that key. |
| Profiles.UsernameJoinDropsUser | app/services/profile_service.py:46 | With user 1 "alice" written to the graph under "1", the username join keeps nothing, while the `str(id)` join finds alice. |
| Profiles.UsernameJoinSuggestsRequester | app/services/profile_service.py:66 | With user 1 called "2" and user 2 called "bob", a ranking for "1" that lists "2" makes the username join return user 1 itself, while the `str(id)` join returns bob. |
| Profiles.GraphKeyJoinComplete | app/services/profile_service.py:45-47 | With the `str(id)` lookup, every admitted user of the table whose key the graph returned is kept. |
| Profiles.GraphKeyJoinExcludesRequester | app/services/profile_service.py:62-67 | With the `str(id)` lookup, the join of the similarity ranking for `str(user_id)` never contains that user. |
| Messages.Exchanged | app/services/message_service.py:24-26 | Holds exactly the messages sent from either user to the other. |
| Messages.Involving | app/services/message_service.py:31-32 | Holds exactly the messages the user sent or received. |
| Messages.SortNewestFirst | app/services/message_service.py:27 | The result is a permutation of the rows with non-increasing timestamps. |
| Messages.NewestPrefix | app/services/message_service.py:23-27 | The first `n` sorted messages between two users are messages between them, newest first, and none left out is newer than one kept. |
| Messages.UnreadCountPermutation | app/services/message_service.py:48-50 | The unread count does not depend on the order of the rows. |
| Messages.UnreadCountOfInvolving | app/services/message_service.py:31-33 | Restricting the table to the user's messages keeps every unread count. |
| Messages.Partner | app/services/message_service.py:38 | For a message the user sent or received, the partner is the other party of that message. |
| Messages.Counted | app/services/message_service.py:40-50 | A partner seen before keeps its user row and last message. A new partner gets its row from `users` and this message as the last one. The unread count grows by one exactly when the message is unread and from the partner to the user. |
| Messages.UnreadFromPartner | app/services/message_service.py:38-49 | The code's test (addressed to the user and not read) counts exactly the unread messages from the partner. |
| Messages.MarkedRead | app/services/message_service.py:54-59 | Keeps every row except its `read` flag. A row is read afterwards exactly when it was read before or goes from the sender to the recipient. |
| Messages.MarkedReadClearsUnread | app/services/message_service.py:54-59 | Afterwards the recipient has no unread message from the sender. |
| Messages.MarkedReadKeepsOthers | app/services/message_service.py:54-59 | Every other (recipient, sender) unread count is unchanged. |
| Messages.MarkedReadIdempotent | app/services/message_service.py:54-59 | Marking twice is marking once. |
| Messages.NextId | app/services/message_service.py:18-20 | The id given to a new row is positive and larger than every existing id. |
| Messages.Deletable | app/services/message_service.py:63-66 | Finds a row with the id that the user sent or received, or reports that there is none. |
| Messages.RemovedRow | app/services/message_service.py:68-69 | Removing one row of a table with unique ids removes exactly that message. The remaining ids stay unique and none of them equals the removed id. |
| Messages.GroupedStep | app/services/message_service.py:37-50 | One turn of the grouping loop keeps its state. Each partner seen has one entry, keyed once in first-seen order. The entry holds the partner's first (newest) message and user row, and the unread count so far. |
| Messages.GroupedList | app/services/message_service.py:36-52 | When the loop has seen every message, the dict's values in insertion order form the conversation list. |
| Messages.ListOverTable | app/services/message_service.py:31-33 | A conversation list over the user's messages sorted newest first is one over the whole table. |
| Messages.MessageService.CreateMessage | app/services/message_service.py:11-21 | Appends exactly one unread message with the given sender, recipient, content and time, under a fresh id. The other rows are unchanged and ids stay unique. |
| Messages.MessageService.GetConversation | app/services/message_service.py:23-27 | Returns messages between the two users, newest first, min(limit, their number) of them, 50 by default. As a multiset the result is contained in their conversation, and it is the whole conversation when `limit` covers it. No message between them that is left out is newer than one returned. |
| Messages.MessageService.AddToConversation | app/services/message_service.py:38-50 | A new partner opens an entry with this message, the partner's row and a count of zero, and takes the next place in the dict's order. The count goes up when the message is unread and addressed to the user. |
| Messages.MessageService.GroupByPartner | app/services/message_service.py:36-50 | After the loop, the dict and its insertion order are the grouping of all the sorted messages. |
| Messages.MessageService.GetUserConversations | app/services/message_service.py:29-52 | Each partner of the user gets exactly one entry. Each entry holds a newest message with that partner, the partner's user row, and the number of unread messages from the partner to the user. Entries are ordered by the recency of their latest message. |
| Messages.MessageService.MarkMessagesAsRead | app/services/message_service.py:54-60 | Every message from the sender to the recipient is read afterwards. Every other field and row is unchanged. |
| Messages.MessageService.DeleteMessage | app/services/message_service.py:62-72 | Returns true exactly when some message with that id was sent or received by the user. Then exactly that row is removed, and no row with that id remains. Otherwise it returns false and the table is unchanged. |

## Left out

- Neo4j driver mechanics: sessions, transactions, `close()`, and the Cypher text and its parameter names. Only what each query means over the graph is modelled.
- The order of rows Neo4j returns is not defined. `FindUsers`, `GetCharacteristics`, `MostShared` and `FindSimilarUsers` therefore choose nondeterministically. Their contracts hold for every order, including the last-row-wins choice among several values under one name and the order among users with equal shared counts.
- The store does not normalise names or values; only the reply parser trims and lower-cases (`GraphDb.NoNormalisation`).
- With empty criteria `_find_users` builds `WHERE  RETURN`, which the driver rejects; the model returns `MalformedQuery`, which `search_users` propagates.
- The language model call, its prompts and model choice are left out. The reply is an input string, and `None` stands for a call that raised.
- The SDK's `response.content` is a list of content blocks, not a `str`. As written, `.split('\n')` at app/services/claude_service.py:62 raises `AttributeError` on that list, and the `except` at :70-71 swallows it, so every reply yields no characteristics and `find_matching_users` always returns `{}`. The model instead parses a string and returns it as the response.
- Extraction.ExtractCharacteristics: the `try`/`except` around the parse is not modelled, because nothing in the parse raises on a string.
- `print` calls in the error handlers are left out.
- Python's Unicode `strip()` and `lower()` are modelled on ASCII only. Whitespace is the ASCII whitespace and separator set, and lower-casing maps only `A`–`Z`.
- `datetime.utcnow()` is replaced by an integer timestamp parameter. Creation times are integers.
- SQLite's order among messages with equal timestamps is not defined. The model sorts them by one fixed order, and the contracts state only newest-first order and the permutation.
- Messages.MessageService.GetConversation: `limit` is a natural number. SQLite treats a negative `LIMIT` as no limit, and that case is not modelled.
- GraphDb.FindSimilarUsers: `limit` is a natural number. Neo4j rejects a negative `LIMIT`.
- Profiles.ProfileService.GetUserSuggestions: `limit` is a natural number, because it is passed on to the same `LIMIT`, which Neo4j rejects when negative.
- `create_user`, password hashing, tokens, FastAPI routing, templates, database setup, the Neo4j constraint setup and the startup scripts are plain I/O and plumbing. The two uniqueness constraints appear only as the set-based `Store`.
- Concurrency and transaction atomicity belong to the databases and are not modelled. So is `async`.

## Findings

| source | as written | input that shows it | evidently intended | confidence | as-written member | corrected member |
|---|---|---|---|---|---|---|
| app/services/profile_service.py:46 | The graph's User nodes are written under `str(user_id)` (lines 27, 39, 62), but `search_users` looks each graph key up as a `username`. | User 1 "alice" whose characteristics were written under "1". The graph returns "1", no user is called "1", and alice is dropped. | Resolve each graph key to the user whose `str(id)` it is, so every user the graph found and admitted is returned. | not executed | Profiles.UsernameJoinDropsUser | Profiles.GraphKeyJoinComplete |
| app/services/profile_service.py:66 | `get_user_suggestions` also looks each key of the ranking for `str(user_id)` up as a `username`. | Users 1 "2" and 2 "bob". The ranking for "1" lists "2", which is the username of user 1, so user 1 is suggested to itself. | Resolve each key as `str(id)`; the ranking never lists the requester's own key, so the requester is never suggested. | not executed | Profiles.UsernameJoinSuggestsRequester | Profiles.GraphKeyJoinExcludesRequester |
