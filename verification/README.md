# Geography Game — a Dafny model of the player and the referee

The Geography Game is a word game between two programs. Each player names a city, and
the city must start with the last letter of the opponent's previous city. No city may be
used twice, and a player who cannot answer loses. The cities come from a CSV file of the
world's cities. Each row has a name, a country, a subcountry and a geonameid.

This project models the two core classes of the game as pure functions over immutable
data and proves what they promise.

**The player (`GeographyGame`).**
- It keeps every city name in a trie partitioned by the name's *last* letter. Each
  partition (a `NodeHead`) maps the *first* letter to a trie of the rest of the name.
- Each partition carries a count. Both the partition list and a list of counts per first
  letter are kept sorted ascending (`Collections.sort`).
- To answer, `nextMove` first takes the opponent's city out. It then walks the
  first-letter list from the letter that starts the fewest names. It picks a city that
  starts with the opponent's last letter and ends with that list letter, as long as
  `hasValidResponseNotEqualCity` says the opponent still has a reply.

**The referee (`GeoGameController`).**
- It keeps a map from each name to its records (`cityMap`) and a count per first letter
  (`cityMapByFirstLetter`).
- It checks every answer with `checkAndRemoveValidCity` and `checkIfCityHasValidResponse`.

**Modules.** There is one module per concern:

| module | file | what it models |
|---|---|---|
| `Wrappers` | `wrappers.dfy` | `Option` |
| `Cities` | `cities.dfy` | `CityNode` and its geonameid equality |
| `Ordering` | `ordering.dfy` | the count-sorted lists, their stable sort and their HashMap views |
| `Tries` | `trie.dfy` | `TrieNode`: `insertNode`, `findCityInTrie`, `removeCityFromTrie`, `getCityNameFromTrie`, `getCityNameFromTrieNotEqualCity` |
| `Index` | `index.dfy` | the partitioned index: the loop body of `loadData`, `lookupCity`, `removeCity` |
| `Moves` | `moves.dfy` | `hasValidResponseNotEqualCity` and `nextMove` |
| `Csv` | `csv.dfy` | `parseLine` and the reading loop of `loadData` |
| `Referee` | `referee.dfy` | the controller's `loadData`, its two checks and its `play` loop |

**State invariant.** `Index.Inv` holds for every state the player reaches:
- the partition list and the first-letter list each have unique keys;
- each list is ascending by count;
- every partition's count equals the number of records it holds;
- every first letter's count equals the number of held records that start with it;
- every record sits at the trie path its own name spells, inside the partition of its last
  letter;
- every trie node's `isCity` flag is in step with its record list;
- no dead node lies below the first-letter level; a first-letter node may be left empty, as
  in Java, which never removes a partition's first-letter entry.

`nextMove` is modelled with a parameter, `Rule`. `Rule.AsWritten` uses the reply check
exactly as the source writes it. `Rule.AsIntended` uses the check the game rules ask for
(see Findings). All the nextMove properties are proved for both rules.

## Model

Paths are relative to the repository root. `GeographyGame.java` and
`GeoGameController.java` both live in `src/main/java/com/css/geographygame/`.

| member | source | states |
|---|---|---|
| Cities.First | src/main/java/com/css/geographygame/GeographyGame.java:258-279 | substring(0, 1) of a name, as one character; Cities.SplitAtLetters states that it and the rest give back the name |
| Cities.Last | src/main/java/com/css/geographygame/GeographyGame.java:251 | substring(length() - 1) of a name, as one character; Cities.SplitAtLetters states that the rest and it give back the name |
| Cities.SplitAtLetters | src/main/java/com/css/geographygame/GeographyGame.java:251-269 | a name is its first letter followed by substring(1), and also the name without its last letter followed by that letter |
| Ordering.SortByCount | src/main/java/com/css/geographygame/GeographyGame.java:288-290 | Collections.sort by nbrOfCities returns a permutation of the list, ascending by count |
| Ordering.SortStable | src/main/java/com/css/geographygame/GeographyGame.java:288-290 | the sort is stable: for every count, entries with that count keep their original relative order |
| Ordering.SortLookup | src/main/java/com/css/geographygame/GeographyGame.java:409-411 | re-sorting the list leaves the keyed map view (headNodeMap, firstLetterMap) answering every get the same |
| Ordering.Lookup | src/main/java/com/css/geographygame/GeographyGame.java:351 | map.get(k) returns an entry with key k, and returns null exactly when no entry has key k |
| Ordering.RemoveAt | src/main/java/com/css/geographygame/GeographyGame.java:405 | list.remove(index) shortens the list by one and shifts the later entries down by one |
| Ordering.Settle | src/main/java/com/css/geographygame/GeographyGame.java:402-411 | after a count changes, the entry is deleted at zero and otherwise replaced, as a multiset change of the list |
| Ordering.SettleLookup | src/main/java/com/css/geographygame/GeographyGame.java:402-421 | the delete-or-resort step keeps keys unique and the list ascending, and changes the lookup of that one key only |
| Ordering.PutLookup | src/main/java/com/css/geographygame/GeographyGame.java:252-257 | get-or-create-then-put keeps keys unique; afterwards the key finds the new entry and every other key is unchanged |
| Tries.StoreCitiesAt | src/main/java/com/css/geographygame/GeographyGame.java:293-314 | insertNode appends the record to the list at exactly the path of the rest of the name; every other path keeps its list |
| Tries.StoreRecords | src/main/java/com/css/geographygame/GeographyGame.java:293-314 | insertNode adds exactly one copy of the record to the trie's contents |
| Tries.StoreWellFormed | src/main/java/com/css/geographygame/GeographyGame.java:293-314 | insertNode keeps isCity in step with the record lists, leaves no dead node, and leaves the node it is called on non-empty |
| Tries.StoreStored | src/main/java/com/css/geographygame/GeographyGame.java:293-314 | inserting a record at its own name's path keeps every record at the path of its own name |
| Tries.FindCityPath | src/main/java/com/css/geographygame/GeographyGame.java:449-461 | findCityInTrie says yes exactly when the whole path exists and ends at a node flagged isCity |
| Tries.FindCityStored | src/main/java/com/css/geographygame/GeographyGame.java:449-461 | in a well-formed trie, findCityInTrie says yes exactly when a record is stored at that path |
| Tries.FindCityInTrie | src/main/java/com/css/geographygame/GeographyGame.java:449-461 | findCityInTrie says yes only where the whole path exists; the exact condition is in Tries.FindCityPath |
| Tries.RemoveCitiesAt | src/main/java/com/css/geographygame/GeographyGame.java:463-481 | removeCityFromTrie drops the first record at the path; every other path keeps its records, even where nodes are pruned |
| Tries.RemoveRecords | src/main/java/com/css/geographygame/GeographyGame.java:463-481 | the trie's contents lose exactly the first record stored at the path |
| Tries.RemoveValid | src/main/java/com/css/geographygame/GeographyGame.java:468-473 | removal keeps isCity in step with the record list: the flag clears when the list empties |
| Tries.RemoveLive | src/main/java/com/css/geographygame/GeographyGame.java:474-480 | pruning leaves no dead node, meaning one with neither a record nor a child, strictly below the node it is called on |
| Tries.RemoveStored | src/main/java/com/css/geographygame/GeographyGame.java:463-481 | after removal, every remaining record still sits at the path of its own name |
| Tries.FirstKey | src/main/java/com/css/geographygame/GeographyGame.java:494-498 | the child the search descends into exists; HashMap order is fixed as the least key |
| Tries.AnyRecordFound | src/main/java/com/css/geographygame/GeographyGame.java:483-500 | getCityNameFromTrie returns a stored record, found at the path its name spells, ending with the partition key, and first in its list |
| Tries.AnyRecordFindsIff | src/main/java/com/css/geographygame/GeographyGame.java:483-500 | with no dead node below the node it is called on, getCityNameFromTrie returns null exactly when the trie holds no record, whichever child it picks |
| Tries.AnyRecordExcludingFound | src/main/java/com/css/geographygame/GeographyGame.java:502-531 | getCityNameFromTrieNotEqualCity returns a stored record with the right prefix; it differs from the excluded city unless it lies below the entry node |
| Tries.AnyRecordExcludingComplete | src/main/java/com/css/geographygame/GeographyGame.java:502-531 | with distinct ids, it returns something whenever the trie holds a record other than the excluded one |
| Tries.ExclusionStopsAtEntry | src/main/java/com/css/geographygame/GeographyGame.java:524-529 | a trie whose only record sits one level down returns the very city it was told to exclude |
| Tries.AnyRecordOtherThanIff | src/main/java/com/css/geographygame/GeographyGame.java:502-531 | the corrected search, which excludes at every depth, returns a record with another id exactly when one is stored |
| Tries.StoredRecords | src/main/java/com/css/geographygame/GeographyGame.java:249-269 | every record of a partition's trie has a name that starts with the trie's prefix and ends with the partition key |
| Tries.InsertNode | src/main/java/com/css/geographygame/GeographyGame.java:293-314 | insertNode keeps the flag and the record list of the node it is called on, does nothing for an empty rest of name, and otherwise appends the record to the list at that path |
| Tries.Store | src/main/java/com/css/geographygame/GeographyGame.java:258-269 | storing a record under a first letter appends it to the list at exactly the path of the rest of its name, a name of one letter included |
| Tries.RemoveCityFromTrie | src/main/java/com/css/geographygame/GeographyGame.java:463-481 | removal changes the record list of the path's own node only, takes one record from it when the path is empty, and never adds a child |
| Tries.AnyRecord | src/main/java/com/css/geographygame/GeographyGame.java:483-500 | whatever getCityNameFromTrie returns is the first record of its list at some path of the trie |
| Tries.AnyRecordExcluding | src/main/java/com/css/geographygame/GeographyGame.java:502-531 | with no record at the entry node it is the plain search; when the plain search finds a record other than the excluded one, it finds something too |
| Index.LookupFrom | src/main/java/com/css/geographygame/GeographyGame.java:432-446 | the scan returns the first partition index that holds the name, or -1 when none from there on does |
| Index.LookupCity | src/main/java/com/css/geographygame/GeographyGame.java:424-447 | lookupCity returns -1 for an empty name; otherwise it returns the first index whose partition holds the name, or -1 when no partition does |
| Index.LookupIff | src/main/java/com/css/geographygame/GeographyGame.java:424-447 | in a consistent state, lookupCity finds a name exactly when a record of that name is stored, and then it finds the last letter's partition |
| Index.FoundIsRemovable | src/main/java/com/css/geographygame/GeographyGame.java:393-422 | every name lookupCity finds can go through removeCity without a null dereference |
| Index.Drained | src/main/java/com/css/geographygame/GeographyGame.java:399-401 | the partition keeps its key and its count drops by one |
| Index.DrainedFacts | src/main/java/com/css/geographygame/GeographyGame.java:396-406 | the partition loses exactly the first record stored under the name; other first letters keep theirs; at count zero it is empty |
| Index.RemoveCityRecords | src/main/java/com/css/geographygame/GeographyGame.java:393-422 | removeCity takes exactly one record out of the index, the first one stored under the name |
| Index.RemoveCityStock | src/main/java/com/css/geographygame/GeographyGame.java:393-422 | removeCity leaves the name with its records less the first one, and every other name unchanged |
| Index.RemoveCityInv | src/main/java/com/css/geographygame/GeographyGame.java:393-422 | removeCity keeps the whole invariant: unique keys, ascending lists, counts equal to the records |
| Index.RemoveCityCounts | src/main/java/com/css/geographygame/GeographyGame.java:401-421 | the last letter's partition count and the first letter's count each drop by one, and each entry is deleted exactly when it reaches zero |
| Index.RemoveCityStarting | src/main/java/com/css/geographygame/GeographyGame.java:393-422 | the records starting with a letter lose the removed record only for the name's own first letter |
| Index.RemoveCityNoReuse | src/main/java/com/css/geographygame/GeographyGame.java:393-447 | after removeCity, lookupCity finds the name again exactly when a second record of that name was stored |
| Index.DropHead | src/main/java/com/css/geographygame/GeographyGame.java:396-411 | the partition list after removal holds only old partitions and, when the count does not reach zero, the drained partition |
| Index.DropLetter | src/main/java/com/css/geographygame/GeographyGame.java:413-421 | the first-letter list loses the letter's entry and, unless its count was one, gains it back with the count one lower |
| Index.RemoveCity | src/main/java/com/css/geographygame/GeographyGame.java:393-422 | removeCity never lengthens either list |
| Index.Filled | src/main/java/com/css/geographygame/GeographyGame.java:258-270 | storing a record in a partition keeps its key and raises its count by one |
| Index.FilledFacts | src/main/java/com/css/geographygame/GeographyGame.java:258-270 | the partition gains exactly the record, below its first letter, and stays well shaped |
| Index.FilledStock | src/main/java/com/css/geographygame/GeographyGame.java:258-270 | the record is appended to the list under its own name; no other name changes |
| Index.InsertCityConsistent | src/main/java/com/css/geographygame/GeographyGame.java:249-280 | the loop body of loadData keeps the state consistent and adds exactly the record; a record with an empty name is skipped |
| Index.InsertCityStock | src/main/java/com/css/geographygame/GeographyGame.java:249-280 | the record is appended under its own name, and lookupCity finds the name afterwards |
| Index.InsertCityCounts | src/main/java/com/css/geographygame/GeographyGame.java:249-280 | the partition count of the last letter and the count of the first letter each rise by exactly one |
| Index.RecordHome | src/main/java/com/css/geographygame/GeographyGame.java:250-269 | every held record sits in the partition of its last letter, below its first letter |
| Index.AddHead | src/main/java/com/css/geographygame/GeographyGame.java:252-257 | a new partition is appended exactly when none has the last letter |
| Index.AddLetter | src/main/java/com/css/geographygame/GeographyGame.java:273-277 | a new first-letter entry is appended exactly when none has the letter |
| Index.InsertCity | src/main/java/com/css/geographygame/GeographyGame.java:249-280 | a record with an empty name changes nothing; otherwise each list grows by one exactly when its key was missing |
| Index.LoadInv | src/main/java/com/css/geographygame/GeographyGame.java:233-291 | loadData ends in a state that satisfies the invariant and holds exactly the records with a non-empty name |
| Index.LoadStock | src/main/java/com/css/geographygame/GeographyGame.java:233-291 | after loadData, each name holds the records of that name in file order |
| Index.LoadCounts | src/main/java/com/css/geographygame/GeographyGame.java:233-291 | after loadData, each partition count is the number of names ending in its letter, and each first-letter count is the number starting with its letter |
| Index.LoadFinds | src/main/java/com/css/geographygame/GeographyGame.java:233-291 | after loadData, lookupCity finds exactly the non-empty names of the file |
| Index.Load | src/main/java/com/css/geographygame/GeographyGame.java:233-291 | after loadData both lists are ascending by count |
| Index.LoadRecords | src/main/java/com/css/geographygame/GeographyGame.java:240-282 | the reading loop never shortens either list: the player never drops an entry while loading; its invariant and contents are in Index.LoadRecordsFacts |
| Index.FinishLoad | src/main/java/com/css/geographygame/GeographyGame.java:288-290 | the final sort keeps the entries of both lists and leaves each ascending by count |
| Index.StockRemovable | src/main/java/com/css/geographygame/GeographyGame.java:393-422 | when no name is asked for more often than it has records, the whole sequence of names can go through removeCity one after the other |
| Index.KeptNames | src/main/java/com/css/geographygame/GeographyGame.java:249 | the multiset of non-empty names of the file counts each name as often as the file lists it, and is as large as the number of records loaded |
| Index.RemoveAllEmpties | src/main/java/com/css/geographygame/GeographyGame.java:393-422 | when every name in turn can go through removeCity, removing as many names as there are records empties both lists |
| Index.LoadThenRemoveAll | src/main/java/com/css/geographygame/GeographyGame.java:233-291 | when the names to remove are, as a multiset, the non-empty names of the file, every removeCity in turn is possible and the state ends with both lists empty |
| Moves.MessageEndsGame | src/main/java/com/css/geographygame/GeographyGame.java:549-555 | the play loop stops after a Winner or Loser message, and goes on after any non-empty city name that does not start with an upper-case L or W (loaded names are lower-case) |
| Moves.Message | src/main/java/com/css/geographygame/GeographyGame.java:320-375 | an empty or unknown opponent city gives a text starting with Winner, no valid response gives one starting with Loser, and a move gives the city name itself |
| Moves.AnyAnswer | src/main/java/com/css/geographygame/GeographyGame.java:381-390 | the loop over partitions succeeds exactly when some partition with a positive count has a first-letter node on which the excluding search finds a record |
| Moves.HasValidSound | src/main/java/com/css/geographygame/GeographyGame.java:378-391 | when hasValidResponseNotEqualCity succeeds, a held record starts with the last letter; it is another city, or else its name is longer than one letter |
| Moves.HasValidComplete | src/main/java/com/css/geographygame/GeographyGame.java:378-391 | with distinct ids, the check succeeds whenever another held record starts with the last letter |
| Moves.SelfAnswer | src/main/java/com/css/geographygame/GeographyGame.java:502-531 | as written, any held city of two or more letters that starts with its own last letter passes the check, even when it is the only such city |
| Moves.AnyOtherIff | src/main/java/com/css/geographygame/GeographyGame.java:378-391 | the corrected loop succeeds exactly when some partition with a positive count has a first-letter node holding another city |
| Moves.HasValidOtherIff | src/main/java/com/css/geographygame/GeographyGame.java:378-391 | the corrected check succeeds exactly when a held record with another geonameid starts with the last letter |
| Moves.HasValidResponseNotEqualCity | src/main/java/com/css/geographygame/GeographyGame.java:378-391 | the check succeeds exactly when some partition with a positive count has a node for the city's last letter on which the excluding search finds a record |
| Moves.ResponseCounted | src/main/java/com/css/geographygame/GeographyGame.java:273-279 | a held record starting with a letter means that letter's first-letter count is positive |
| Moves.Check | src/main/java/com/css/geographygame/GeographyGame.java:367 | a candidate that passes the reply check, under either rule, ends with a letter whose first-letter count is positive |
| Moves.Candidate | src/main/java/com/css/geographygame/GeographyGame.java:349-361 | a candidate found at a list entry starts with the opponent's last letter and ends with the entry's letter |
| Moves.CandidateFacts | src/main/java/com/css/geographygame/GeographyGame.java:349-361 | the candidate starts with the opponent's last letter, ends with the list entry's letter, and is the first record of its name, so removeCity takes out that very record |
| Moves.CandidateIff | src/main/java/com/css/geographygame/GeographyGame.java:349-361 | a list entry offers a candidate whenever a held record starts with the last letter and ends with the entry's letter |
| Moves.AfterOpponent | src/main/java/com/css/geographygame/GeographyGame.java:327-336 | taking out a city that lookupCity found keeps the invariant |
| Moves.OpponentLeaves | src/main/java/com/css/geographygame/GeographyGame.java:334-336 | taking out the opponent's city removes exactly the first record stored under that name |
| Moves.NextMove | src/main/java/com/css/geographygame/GeographyGame.java:316-376 | an empty name means the opponent ran out of cities; an unheld name is invalid and changes nothing; the invariant always holds afterwards |
| Moves.Scan | src/main/java/com/css/geographygame/GeographyGame.java:346-375 | the answer loop ends with a move or with the Loser answer, never with a Winner answer |
| Moves.ScanInv | src/main/java/com/css/geographygame/GeographyGame.java:346-375 | the answer loop keeps the invariant |
| Moves.ScanConsumes | src/main/java/com/css/geographygame/GeographyGame.java:346-375 | the loop removes only cities starting with the opponent's last letter, and the move it returns is one of them |
| Moves.ScanTakesOnly | src/main/java/com/css/geographygame/GeographyGame.java:346-375 | every record the loop takes out starts with the opponent's last letter |
| Moves.ScanMoveTaken | src/main/java/com/css/geographygame/GeographyGame.java:363-370 | the move the loop returns is one of the records it took out |
| Moves.ScanSkips | src/main/java/com/css/geographygame/GeographyGame.java:352-361 | entries without a candidate change nothing; the loop behaves as if it started at the first entry with one |
| Moves.ScanNoCandidates | src/main/java/com/css/geographygame/GeographyGame.java:346-375 | with no city starting with the letter, the loop answers Loser and leaves the state as it was |
| Moves.ScanAccepts | src/main/java/com/css/geographygame/GeographyGame.java:367-370 | a candidate that passes the check is the move |
| Moves.RejectFacts | src/main/java/com/css/geographygame/GeographyGame.java:367-372 | with distinct ids, a candidate fails the check only when it is the sole city starting with the letter and nothing else starts with its own last letter |
| Moves.ScanRejects | src/main/java/com/css/geographygame/GeographyGame.java:371-375 | with distinct ids, one rejected candidate ends the loop: the candidate is taken out of the index all the same, and the answer is Loser |
| Moves.ScanFirst | src/main/java/com/css/geographygame/GeographyGame.java:346-375 | with distinct ids, the loop decides at the first entry offering a candidate: it plays that candidate if it passes, otherwise it answers Loser |
| Moves.FirstCandidateLeast | src/main/java/com/css/geographygame/GeographyGame.java:352-361 | the first entry offering a candidate comes no later than any entry that offers one |
| Moves.ScanState | src/main/java/com/css/geographygame/GeographyGame.java:346-375 | with distinct ids, with no candidate the state is unchanged and the answer is Loser; otherwise the first candidate is taken out of the index whether or not it passes, and it is the move exactly when it passes |
| Moves.CheckComplete | src/main/java/com/css/geographygame/GeographyGame.java:378-391 | under either rule, the check passes whenever another record starts with the candidate's last letter |
| Moves.ReplyLeft | src/main/java/com/css/geographygame/GeographyGame.java:363-370 | after a passed check and the removal, a reply is left for the opponent; as written, the one exception is a move that starts with its own last letter |
| Moves.ScanReply | src/main/java/com/css/geographygame/GeographyGame.java:363-370 | every move the loop returns leaves the opponent a reply, with the same exception as written |
| Moves.NextMoveConsumes | src/main/java/com/css/geographygame/GeographyGame.java:316-376 | past the opponent's city, nextMove removes only cities starting with its last letter, and the move starts with that letter and is one of them |
| Moves.NextMoveState | src/main/java/com/css/geographygame/GeographyGame.java:316-376 | with distinct ids, nextMove takes the opponent's city out, then takes out the first candidate whether or not it passes; the move is that candidate exactly when it passes |
| Moves.NextMoveReply | src/main/java/com/css/geographygame/GeographyGame.java:363-370 | the city nextMove plays leaves the opponent a reply; as written, the exception is a city that starts and ends with the same letter |
| Moves.ScanGreedy | src/main/java/com/css/geographygame/GeographyGame.java:338-349 | the move ends with the letter that starts the fewest held names among all possible replies |
| Moves.NextMoveGreedy | src/main/java/com/css/geographygame/GeographyGame.java:338-376 | the same for nextMove, counted once the opponent's city is out |
| Moves.ScanLoserHonest | src/main/java/com/css/geographygame/GeographyGame.java:346-375 | with distinct ids, the loop answers Loser only when no city starting with the letter has a reply other than itself |
| Moves.NextMoveLoserHonest | src/main/java/com/css/geographygame/GeographyGame.java:316-376 | with distinct ids, nextMove gives up only when no city starting with the opponent's last letter has a reply other than itself |
| Moves.SelfAnswerExample | src/main/java/com/css/geographygame/GeographyGame.java:502-531 | as written, with only "toronto" and "orlando" loaded, the answer to "toronto" is "orlando", and it leaves no city at all |
| Moves.SelfAnswerRefused | src/main/java/com/css/geographygame/GeographyGame.java:378-391 | under the corrected check, the same game answers Loser |
| Csv.SplitPieces | src/main/java/com/css/geographygame/GeographyGame.java:230 | split(",") returns the pieces between commas without the trailing empty ones; a line with no comma comes back whole |
| Csv.SplitJoin | src/main/java/com/css/geographygame/GeographyGame.java:230 | split(",") undoes joining comma-free fields whose last field is non-empty |
| Csv.Split | src/main/java/com/css/geographygame/GeographyGame.java:230 | no piece of split(",") contains a comma |
| Csv.QuotedPiecesJoin | src/main/java/com/css/geographygame/GeographyGame.java:209-221 | the fields outside quotes rejoin to the line without its quote characters, one more field than open commas |
| Csv.Step | src/main/java/com/css/geographygame/GeographyGame.java:210-220 | one scanner step throws exactly on a comma outside quotes when all four slots are written |
| Csv.RunFields | src/main/java/com/css/geographygame/GeographyGame.java:209-221 | the scan stores the quote-aware fields in slot order and throws exactly when there are more fields than free slots |
| Csv.ParseQuoted | src/main/java/com/css/geographygame/GeographyGame.java:203-223 | the try block yields four slots when the scan does not throw; which fields land where is in Csv.ParseQuotedFields |
| Csv.Run | src/main/java/com/css/geographygame/GeographyGame.java:209-221 | a scan that does not throw keeps four slots and never moves the write position back or past the array end |
| Csv.ParseQuotedFields | src/main/java/com/css/geographygame/GeographyGame.java:203-223 | the quoted branch succeeds exactly when at most four commas stand outside quotes; slots 0 to 2 hold the leading fields or null; slot 3 holds the last field |
| Csv.ParseLineRow | src/main/java/com/css/geographygame/GeographyGame.java:199-231 | a quoted row with three open commas parses to its four unquoted fields; one with more than four open commas falls back to split |
| Csv.ParseLinePlain | src/main/java/com/css/geographygame/GeographyGame.java:199-231 | a quote-free row of four comma-free fields, the last non-empty, parses to exactly those fields |
| Csv.ParseLine | src/main/java/com/css/geographygame/GeographyGame.java:199-231 | a quote-free line gives only present, comma-free fields, and more than four fields always come from the split fallback |
| Csv.Lower | src/main/java/com/css/geographygame/GeographyGame.java:244 | lower-casing keeps the length, shifts each of A to Z to its lower-case letter, keeps every other character, and leaves no upper-case ASCII letter |
| Csv.ToCity | src/main/java/com/css/geographygame/GeographyGame.java:246 | a record is built exactly when a fourth field exists and parses as an id; it carries that id and the first field as its name |
| Csv.ReadRecords | src/main/java/com/css/geographygame/GeographyGame.java:240-282 | each record comes from the line at its position; reading stops at the end, at an empty line, or at the first line that throws |
| Csv.ReadStopsAtBlank | src/main/java/com/css/geographygame/GeographyGame.java:241 | nothing after the first empty line is read |
| Csv.ReadFile | src/main/java/com/css/geographygame/GeographyGame.java:236-239 | the header line never yields a record: record j comes from line j + 1, and a file of at most one line gives none |
| Referee.Enter | src/main/java/com/css/geographygame/GeoGameController.java:126-146 | the record is appended to the list of its name and counted under its first letter; a record with an empty name changes nothing |
| Referee.LoadFrom | src/main/java/com/css/geographygame/GeoGameController.java:120-148 | the loop never adds the empty name, and when every first-letter count starts positive, every count stays positive; its contents are in Referee.LoadFromFacts |
| Referee.Load | src/main/java/com/css/geographygame/GeoGameController.java:114-153 | after loadData the city map has no empty name, and every first-letter count in the table is positive |
| Referee.LoadFromFacts | src/main/java/com/css/geographygame/GeoGameController.java:120-148 | the loop adds to each name the records of that name, and to each letter the number of names starting with it |
| Referee.LoadFacts | src/main/java/com/css/geographygame/GeoGameController.java:114-153 | after loadData, each name holds its records in file order, each letter counts the names starting with it, and the tables are sound |
| Referee.LoadAgrees | src/main/java/com/css/geographygame/GeoGameController.java:114-153 | the referee's tables agree with the player's index loaded from the same file, name by name and letter by letter |
| Referee.FirstNamed | src/main/java/com/css/geographygame/GeoGameController.java:260-268 | the position of the first record carrying the name, or -1 when none does |
| Referee.CheckAndRemoveValidCity | src/main/java/com/css/geographygame/GeoGameController.java:254-271 | the answer is accepted exactly when its list holds a record of that name; the first such record goes; nothing else changes, and a rejection changes nothing |
| Referee.CheckAndRemoveSound | src/main/java/com/css/geographygame/GeoGameController.java:254-271 | on sound tables, the answer is accepted exactly when its name has a record left, and the list loses its head |
| Referee.CheckAndRemoveKeepsSound | src/main/java/com/css/geographygame/GeoGameController.java:254-271 | taking a record out keeps the tables sound |
| Referee.CheckIfCityHasValidResponse | src/main/java/com/css/geographygame/GeoGameController.java:273-291 | passes exactly when the last letter has a non-zero count; spends one unit of it; drops a zero entry; leaves every other letter and the city map unchanged |
| Referee.CheckResponseSound | src/main/java/com/css/geographygame/GeoGameController.java:273-291 | on sound tables, passes exactly when the last letter has count left, lowers only that count by one, and keeps the tables sound |
| Referee.TurnAccepted | src/main/java/com/css/geographygame/GeoGameController.java:213-227 | an accepted answer uses one record of its name and one unit of its last letter's count |
| Referee.TurnRejected | src/main/java/com/css/geographygame/GeoGameController.java:213-226 | a rejected answer uses at most one record and no count |
| Referee.Turn | src/main/java/com/css/geographygame/GeoGameController.java:213-226 | an answer is accepted exactly when a record of that name is held and its last letter still has a non-zero count; the set of names in the city map never changes |
| Referee.Play | src/main/java/com/css/geographygame/GeoGameController.java:204-253 | the game never accepts more answers than were given |
| Referee.PlayBounds | src/main/java/com/css/geographygame/GeoGameController.java:204-253 | over a whole game, no name is accepted more often than it had records, and each letter's count falls by exactly the accepted answers ending in it |
| Referee.PlayFromLoad | src/main/java/com/css/geographygame/GeoGameController.java:204-253 | from a fresh load, each name is accepted at most as often as the file lists it, and answers ending in a letter are at most the names starting with it |

## Left out

- File and socket input and output are not modelled. This covers `readNext`, `writeNext`,
  the trigger files, `Thread.sleep` and the read timeout. The data file is the sequence of
  its lines, and each answer is a plain string parameter.
- `main`, `init` and the properties file are not modelled: they only read configuration.
  The player's `play` loop is modelled only through its stop test (`Moves.MessageEndsGame`).
- Debug printing and `printStackTrace` are left out. `printNumberOfCitiesInMap` is left
  out because it only prints.
- Csv.Lower: lower-cases only the ASCII letters A to Z. Java's `toLowerCase` also maps
  other letters and depends on the locale.
- Csv.ToCity: `Integer.parseInt` is the parameter `parseId`, so its exact syntax and its
  32-bit range are not modelled.
- Csv.ToCity: a `null` country, subcountry or name from a short quoted row becomes the
  empty string. For the name this changes nothing, because the loader skips a `null` name
  and an empty name alike.
- Csv.ReadRecords: an exception in the loop body ends the whole read and the rows read
  so far are kept, just as the catch around the loop does. The exception's kind is not
  modelled.
- Tries.FirstKey: HashMap iteration order is fixed as the least key. Every property that
  does not name the child is proved for the trie's contents, whatever child is chosen.
- Moves.NextMove: takes the opponent's city already lower-cased, and so does
  `Index.LookupCity`. The null check on the partition at line 331 is left out: it cannot
  fire after `lookupCity` returned an index.
- Index.RemoveCity: requires `Index.Removable`, meaning the name is found and its
  first-letter entry exists. Java throws on any other input. `nextMove` calls it only
  after a successful `lookupCity`. The player's `play` also calls it on the start city
  without a lookup, and that call is not modelled.
- DistinctIds: geonameids are taken as distinct. The dataset promises this, but the loader
  never checks it, so it is a hypothesis of the lemmas that need it.
- Cities.First, Cities.Last: a character is a whole Unicode scalar value, while Java's
  `substring(0, 1)` and `substring(length() - 1)` take one UTF-16 code unit. For a name with
  a character outside the Basic Multilingual Plane, Java keys the partition, the first-letter
  entry and each trie level by a surrogate half, so its counts and its sort order can differ
  from the model's. Names within the Basic Multilingual Plane behave alike.
- Integer counts are unbounded. A count that would pass 2^31 - 1 and wrap in Java is not modelled.
- Referee.Turn: the controller's `play` lower-cases Player 1's answer but not Player 2's.
  The model takes each answer as given, so the caller chooses the case.
- Referee.Play: the game ends at the first rejected answer. Which player wins, and the
  messages printed, are not modelled.
- `GeoGameController.parseLine` (lines 79-111) is the same text as `GeographyGame.parseLine`.
  `Csv.ParseLine` models both.

## Findings

| source | as written | input that shows it | evidently intended | confidence | as-written member | corrected member |
|---|---|---|---|---|---|---|
| src/main/java/com/css/geographygame/GeographyGame.java:502-531 | `getCityNameFromTrieNotEqualCity` excludes the given city only among the records of the node it is called on. Below that node it calls the plain `getCityNameFromTrie`, which can return the excluded city itself. So `hasValidResponseNotEqualCity(cn)` accepts a city of two or more letters that starts with its own last letter, even when that city is the only reply. | The file holds only "toronto" and "orlando", and the opponent plays "toronto". The program answers "orlando", whose only "reply" is "orlando" itself, and no city is left. | The check should succeed only when a city other than `cn` starts with the last letter of `cn`; the game above should end with the Loser answer. | not executed | Moves.SelfAnswer, Moves.SelfAnswerExample | Moves.HasValidOtherIff, Moves.SelfAnswerRefused |
