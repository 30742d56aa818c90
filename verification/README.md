# AGPL cricket bot: router and retrieval post-processing

This project models the two pieces of logic in the AGPL WhatsApp cricket bot
that do not depend on outside services.

- **The keyword router** is `process_message` in `data/app/api.py`. A message
  is lower-cased and stripped. The first rule that applies then decides the
  reply:
  1. the exact greetings "hi", "hello" and "hey";
  2. the substrings "about", "purpose", "rule"/"format" and "point";
  3. a `day\s*(\d)` search whose schedule entry is truthy;
  4. a player name, searched team by team, player by player;
  5. a team name;
  6. otherwise a fixed apology.
- **The retrieval loop** is in `data/app/main.py`. It works as follows:
  1. The knowledge text is cut into chunks at blank lines.
  2. The nearest chunk is picked by an index. Here the index's answer is an
     input.
  3. The nearest distance is compared with `THRESHOLD`.
  4. A chunk is turned into a reply (`format_team_answer`). Its first line is
     the team and the other lines are players.
  5. Each exchange is appended to a history capped at five entries, which
     `build_context` renders as text.

The modules follow the program:

- `Results`: the `Option` and `Result` types, and the Python faults that can
  surface.
- `Text`: the string built-ins the code relies on:
  - `str.isspace`, `strip`, `lower`;
  - `in`, `split`, `join` and `count`.
- `Chunker`: the chunk list of main.py line 25.
- `Formatter`: `format_team_answer`.
- `History`: the capped log and `build_context`.
- `Retriever`: one pass of the question loop.
- `Router`: `process_message`, with the bot's data file as a `Knowledge`
  value.

The operations are tied to partner properties:

- an independent reference definition:
  - the `day\s*(\d)` scanner against a predicate that describes the regular
    expression;
  - `Find` against `Occurs`;
  - the history against "the last five of all entries", and one turn of the
    loop against one `Record` step;
  - the chunker and the per-day fixture filter through how they distribute
    over concatenation;
- a round trip:
  - `split` and `join`;
  - the newline-joined day reply, the purpose reply and the team listing
    split back into their lines;
- or an if-and-only-if that places each routing rule in the precedence order.

The fixed texts of the keyword replies (format and points) and the player
and team cards are stated as their text, not through a separate property.

## Model

| member | source | states |
|---|---|---|
| Text.Lower | data/app/api.py:43 | `lower()` keeps the length, turns each upper-case letter into its lower-case letter (32 code points on), and leaves every other character alone |
| Text.LowerIdempotent | data/app/api.py:43 | lower-casing twice is lower-casing once |
| Text.StripLeftSpec | data/app/main.py:25 | left stripping keeps a suffix, drops only whitespace, and leaves a result that is empty or starts with a non-space |
| Text.StripRightSpec | data/app/main.py:25 | right stripping keeps a prefix, drops only whitespace, and leaves a result that is empty or ends with a non-space |
| Text.StripSpec | data/app/main.py:25 | `strip()` returns the unique slice with only whitespace around it and no whitespace at either end |
| Text.Strip | data/app/main.py:25 | `strip()` is no longer than its input and leaves no whitespace at either end; `Text.StripSpec` places it in the input |
| Text.StripOfTrimmed | data/app/main.py:25 | stripping a string with no outer whitespace changes nothing |
| Text.StripIdempotent | data/app/main.py:25 | stripping twice is stripping once |
| Text.StripEmptyIffBlank | data/app/main.py:25 | `strip()` is empty exactly when the string is all whitespace, so `if c.strip()` drops exactly the blank pieces |
| Text.Find | data/app/api.py:56 | the first offset where the pattern occurs, and none earlier; None only when it occurs nowhere |
| Text.ContainsIffOccurs | data/app/api.py:56 | Python's `pat in text` holds exactly when the pattern occurs at some offset |
| Text.FirstHitUnique | data/app/main.py:53-54 | at most one name is the first one mentioned |
| Text.FirstMentioned | data/app/main.py:53-54 | the search returns the first name whose lower-case form the text contains; None when no name is contained |
| Text.Split | data/app/main.py:25 | `split` always yields at least one piece |
| Text.SplitPiecesFree | data/app/main.py:25 | no piece of `split(sep)` contains the separator |
| Text.SplitHead | data/app/main.py:47 | the first piece is a prefix of the text, and is non-empty when the text's first character differs from the separator's first character |
| Text.JoinSplit | data/app/main.py:25 | joining the pieces of `split(sep)` with `sep` gives back the text |
| Text.SplitCount | data/app/main.py:25 | `split(sep)` has one more piece than `count(sep)` has occurrences |
| Text.Join | data/app/api.py:60 | `sep.join(parts)` starts with the first part; `Text.JoinSplit` and `Text.SplitJoin` tie it to `split` |
| Text.CountFits | data/app/main.py:25 | the non-overlapping occurrences that `count` finds fit in the text: count times pattern length is at most the text length |
| Text.JoinCons | data/app/api.py:60 | joining one more part in front adds that part and one separator before the rest |
| Text.SplitJoin | data/app/api.py:75 | splitting a join on a one-character separator that no part contains gives back the parts |
| Chunker.NonBlankStripped | data/app/main.py:25 | stripping and dropping blank pieces never yields more strings than there were pieces |
| Chunker.NonBlankStrippedClean | data/app/main.py:25 | every kept piece is non-empty and trimmed |
| Chunker.NonBlankStrippedAppend | data/app/main.py:25 | filtering a concatenation gives the concatenation of the filtered lists, so order is kept |
| Chunker.NonBlankStrippedSingle | data/app/main.py:25 | a blank piece is dropped and any other piece is kept as its strip |
| Chunker.NonBlankStrippedMembers | data/app/main.py:25 | a string is kept exactly when it is the non-empty strip of some piece |
| Chunker.Chunks | data/app/main.py:25 | chunks are non-empty and trimmed, and there are at most one more than the blank-line separators |
| Chunker.ChunksAreStripped | data/app/main.py:25 | every chunk equals its own strip |
| Formatter.Lines | data/app/main.py:47 | every line of a chunk is non-empty and trimmed, and there are at most one more than the chunk's newlines |
| Formatter.RemoveColons | data/app/main.py:49 | no colon remains in the team name |
| Formatter.RemoveColonsKeepsOthers | data/app/main.py:49 | only colons go: every other character keeps its number of occurrences, and the length drops by the number of colons |
| Formatter.RemoveColonsAppend | data/app/main.py:49 | colons are removed piecewise, so the other characters keep their order |
| Formatter.ParseRecord | data/app/main.py:49-50 | no lines raises IndexError; otherwise the team is the first line with its colons removed and the players are the other lines in order |
| Formatter.Bullets | data/app/main.py:63-64 | a non-empty bullet list ends with a newline |
| Formatter.BulletLines | data/app/api.py:60 | one line per item, in order, each the bullet and a space before the item |
| Formatter.BulletsAsJoin | data/app/main.py:63-64 | the bullet text is the bulleted lines joined by newlines plus a final newline |
| Formatter.BulletsAppend | data/app/main.py:63-64 | the bullet list of a concatenation is the concatenation of the bullet lists |
| Formatter.BulletsLength | data/app/main.py:63-64 | each player adds its name and three characters |
| Formatter.TeamListing | data/app/main.py:62-66 | the generic answer starts with the team name and ends with a newline; with no players it is the header line alone |
| Formatter.TeamListingLines | data/app/main.py:62-66 | when no name holds a newline, the listing's lines are the header, one bullet line per player in order, and the empty piece after the last newline |
| Formatter.TeamListingAsJoin | data/app/main.py:62-66 | the listing is the header, the bullet lines and a final empty piece joined by newlines |
| Formatter.ListingPartsFree | data/app/main.py:62-66 | no header or bullet line holds a newline when the names do not |
| Formatter.BelongsTo | data/app/main.py:55 | the player announcement starts with the player's name and ends with a blank line |
| Formatter.Answer | data/app/main.py:53-66 | if a player is mentioned, the first such player's "belongs to" line comes before the listing; otherwise the listing alone |
| Formatter.FormatTeamAnswer | data/app/main.py:46-66 | IndexError exactly when the chunk has no non-blank line; otherwise the first mentioned player wins, or the generic listing when none is mentioned |
| Formatter.ChunksHaveLabels | data/app/main.py:25-49 | formatting a chunk that the chunker produced never raises |
| History.Record | data/app/main.py:102-109 | the new entry is last, the log grows by one until the cap, never passes the cap, and loses only its oldest entry |
| History.RecordAllKeepsLast | data/app/main.py:101-109 | from a log within the cap, any run of answers leaves exactly the last five entries overall, in order |
| History.RecordThenRest | data/app/main.py:102-109 | recording one entry and then keeping the last five of the rest is keeping the last five of everything |
| History.RecordIsLastN | data/app/main.py:102-109 | one step keeps the last five entries |
| History.FromEmpty | data/app/main.py:8-9 | after n answers from an empty log, the log holds the last min(n, 5) of them |
| History.Context | data/app/main.py:68-73 | the context is empty exactly for an empty log, and each entry adds at least its two labels and two newlines (12 characters) |
| History.ContextAppend | data/app/main.py:68-73 | the context of two logs is the two contexts concatenated |
| History.ContextFront | data/app/main.py:68-73 | the context starts with the oldest entry's "User:"/"AI:" lines |
| History.BuildContext | data/app/main.py:68-73 | the loop computes the entry texts, oldest first |
| Retriever.ChunkAt | data/app/main.py:92 | Python indexing: negative positions count from the end; IndexError outside `-len..len-1` |
| Retriever.Answer | data/app/main.py:91-97 | a bad position raises whatever the distance; the apology comes exactly when the distance is strictly above 1.2; otherwise the reply is the formatted chunk |
| Retriever.Turn | data/app/main.py:86-109 | a turn fails exactly when the answer fails; the chunks are unchanged; the new history is the old one with the exchange recorded (appended, oldest evicted past the cap), so the exchange is the newest entry and the cap holds |
| Retriever.LoadedTurnSucceeds | data/app/main.py:92-97 | for chunks made by the chunker and a position inside them, a turn never raises |
| Router.Normalize | data/app/api.py:43 | the normalized message is no longer than the input, has no whitespace at either end and no upper-case letter |
| Router.DayAt | data/app/api.py:70 | the digit is returned exactly when `day\s*(\d)` matches at that offset, and it is the captured digit |
| Router.ScanDayFrom | data/app/api.py:70 | the search returns the digit of the leftmost offset where the expression matches; None when it matches nowhere |
| Router.ScanDay | data/app/api.py:70 | `re.search` finds no digit exactly when `day\s*(\d)` matches nowhere; otherwise the digit belongs to a match that no match starts before |
| Router.DayScanAgrees | data/app/api.py:70 | the leftmost-offset scan agrees with the matches of the expression itself |
| Router.ScanDayLeftmost | data/app/api.py:70-72 | the leftmost match decides which day is looked up |
| Router.DayTwoExample | data/app/api.py:70-72 | "day 2 matches" looks up `day2` |
| Router.SingleDigitDay | data/app/api.py:70-72 | the group is one digit, so "day12" looks up `day1` |
| Router.DigitBetweenSpaces | data/app/api.py:70 | with `\s*` followed by `\d`, the digit sits exactly at the end of the whitespace run |
| Router.Get | data/app/api.py:73 | `.get` returns the value of the first pair with that key; None only when no pair has the key |
| Router.FixtureLine | data/app/api.py:75 | a fixture's printed line holds a newline exactly when its day, match or time does |
| Router.GamesOf | data/app/api.py:83-87 | a fixture is kept exactly when its match text contains the team name (case-sensitive) |
| Router.GamesOfAppend | data/app/api.py:83-87 | one day's list contributes its kept fixtures in list order, each as often as it appears |
| Router.GamesOfSingle | data/app/api.py:84 | a single fixture is kept exactly when its match text contains the team name |
| Router.TeamFixtures | data/app/api.py:80-87 | every listed fixture's match text contains the team name |
| Router.TeamFixturesMembers | data/app/api.py:81-87 | a fixture is listed exactly when it sits in a list-valued schedule entry and its match text contains the team name |
| Router.TeamFixturesAppend | data/app/api.py:81-87 | schedule entries contribute in schedule order |
| Router.ScalarEntrySkipped | data/app/api.py:82 | a schedule value that is not a list adds no matches |
| Router.FirstPlayerHit | data/app/api.py:77-79 | the nested loops pick the first (team, player) pair whose lower-cased player the message contains; None when no player is mentioned |
| Router.FirstPlayerPairUnique | data/app/api.py:77-79 | at most one pair is first |
| Router.DayRule | data/app/api.py:70-75 | the schedule rule answers only when the expression matches and the named day's value is truthy; a fixture list gives the day reply, any other truthy value the TypeError case |
| Router.NameLookup | data/app/api.py:77-109 | a player match wins over any team match, and the first pair in iteration order is taken; then the first team mentioned; otherwise the apology |
| Router.Decide | data/app/api.py:42-77 | the greeting fires exactly for "hi"/"hello"/"hey"; "about" always wins after it; each later keyword rule fires exactly when no earlier rule did |
| Router.TooLongToContain | data/app/api.py:45-56 | a pattern at least as long as the text occurs in it only when the two are equal |
| Router.GreetingsAreNotAbout | data/app/api.py:45-56 | no greeting word contains "about", so the two rules never compete |
| Router.ProcessMessage | data/app/api.py:42-57 | a greeting gets the fixed menu, and any message containing "about" gets the description |
| Router.LateRules | data/app/api.py:70-77 | once no keyword applies, the schedule rule answers if it can and the name searches answer otherwise |
| Router.DayFallsThrough | data/app/api.py:70-77 | a day whose entry is missing, an empty list or false falls through to the player and team search |
| Router.DayReply | data/app/api.py:70-75 | a day with a non-empty fixture list is answered with one "Day d – match at time" line per fixture, newline-joined |
| Router.DayReplyLines | data/app/api.py:75 | if no field holds a newline, splitting the day reply on newlines gives back exactly the fixture lines |
| Router.DayScalarFails | data/app/api.py:73-75 | a truthy day value that is not a list raises TypeError |
| Router.Render | data/app/api.py:45-109 | only the non-list day value fails, with TypeError; the purpose reply opens with its heading; the day reply is the newline-joined fixture lines |
| Router.PurposeLines | data/app/api.py:59-60 | when no purpose holds a newline, the purpose reply's lines are the heading and one bullet line per purpose; with no purposes it is the heading and an empty piece |
| Router.RenderFails | data/app/api.py:42-109 | only the non-list day value renders as an error, and that error is TypeError |
| Router.DecideFails | data/app/api.py:42-75 | a failure is decided only through the schedule rule |
| Router.DayRuleFails | data/app/api.py:70-75 | the schedule rule fails exactly on a truthy value that is not a list |
| Router.OnlyDayScalarFails | data/app/api.py:42-109 | `process_message` raises exactly when no keyword applies and the first `day<d>` names a truthy value that is not a list |
| Router.PlayerWins | data/app/api.py:77-91 | the first mentioned (team, player) pair gets the player card, listing that team's matches |
| Router.TeamReply | data/app/api.py:93-107 | with no player mentioned, the first team mentioned gets its roster and matches |
| Router.NothingMatches | data/app/api.py:109 | a message no rule answers gets the fixed apology |

## Left out

- Webhooks and HTTP are left out: the FastAPI routes, `send_message` and the
  Meta Cloud API call. They are I/O around `process_message`.
- Loading is left out: the environment variables, the JSON data file and the
  knowledge text file. The data record and the text are parameters.
- The embedding model and the FAISS index are left out. Their nearest
  neighbour (a position and a distance) is an input to `Retriever.Answer` and
  `Retriever.Turn`.
- The `input()`/`print` loop and the "exit" sentinel are left out, as console
  I/O. One pass of the loop is `Retriever.Turn`.
- Text.Lower: only ASCII letters are lower-cased. Python's Unicode
  `lower()`, including mappings that change length, is not modelled.
- Router.DayAt: `\d` is modelled as the ASCII digits only. Python's regex
  also accepts other Unicode decimal digits.
- Retriever.Answer: the distance is a real number. The float32 value the
  index returns, and its comparison with the double 1.2, are not modelled.
- Malformed fixture records are not modelled: a missing "day", "match" or
  "time" key raises KeyError. Fixtures are well-formed records.
- A truthy non-list value for a day is not modelled in detail. Every such
  value (string, number, dict, `True`) raises TypeError when the reply loop
  iterates or indexes it, so it is one `Scalar(true)` case.
- Knowledge: duplicate keys cannot occur in a Python dict, so the pair lists
  are assumed to have distinct keys. Lookups take the first pair.
- History.BuildContext: the loop's context string is computed and then not
  used for the answer. The model proves what it is but does not feed it
  anywhere.
