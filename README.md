# Transport catalogue, modelled in Dafny

This project models the core of a C++ transport catalogue: a database of
bus stops, bus routes and road distances that answers statistics requests
about them. It covers:

- **Catalogue.** Stops, buses and road distances, with first-wins insertion,
  lookup by name, the distance lookup with its reverse-direction fallback,
  route distance, unique stop and bus sets, and sorted bus names
  (`catalogue.dfy`).
- **Journey-planning graph.** Two vertices per stop, a wait edge per stop,
  and a ride edge for every pair of stops along every bus, each edge id
  mapped back to its wait or ride metadata (`router.dfy`).
- **JSON.** The value type, its typed accessors and its pretty-printer
  (`json.dfy`), the recursive-descent reader (`json_load.dfy`) and the
  stack-machine builder with its typestate of contexts (`json_builder.dfy`).
- **Request ingestion.** The JSON document reader (`json_reader.dfy`) and
  the line-oriented text reader (`input_reader.dfy`). Both expand
  out-and-back routes and load all stops, then all distances, then all
  buses.
- **Request handling.** Stop, bus and map answers, and which buses and stops
  the map draws with which palette colour (`request_handler.dfy`).
- **Storage encoding.** Stops, buses and distances become ids for storage;
  colours and routing settings are encoded too (`serialization.dfy`).
- **SVG text.** Escaping and trimming of SVG text, and the document's
  object order (`svg.dfy`).

`common.dfy` holds the shared vocabulary: an optional value, the string
order of `std::string`, and `std::sort` on strings.

Model conventions:

- A `Stop*` or `Bus*` is an index into the catalogue's stop or bus
  sequence. A pointer that may be null is an `Option<nat>`.
- The iteration order of every hash container is a parameter. Contracts
  state what holds whatever that order is.
- A thrown exception is a failed result. Undefined behaviour is a distinct
  outcome, after which the model stops.
- `size_t` arithmetic wraps modulo 2^64 where the source relies on it.

## Model

| member | source | states |
|---|---|---|
| Common.OutAndBack | transport-catalogue/json_reader.cpp:266-272 | a line that is not a roundtrip rides out and back: 2n - 1 stops, the listed stops first and then the same stops in reverse, so the result reads the same backwards |
| Common.ExpandOutAndBack | transport-catalogue/json_reader.cpp:266-272 | the loop that pushes stops[i - 1] for i from n - 1 down to 1 produces OutAndBack of the listed stops |
| Common.LessTotal | transport-catalogue/transport_catalogue.cpp:145 | std::string's operator< is a strict total order: for any a and b, a == b or a < b or b < a |
| Common.LessTransitive | transport-catalogue/transport_catalogue.cpp:145 | std::string's operator< is transitive |
| Common.LessAsymmetric | transport-catalogue/transport_catalogue.cpp:145 | std::string's operator< is asymmetric |
| Common.Sort | transport-catalogue/transport_catalogue.cpp:145 | std::sort returns a permutation of its input in ascending order |
| Common.SortedPermutationUnique | transport-catalogue/transport_catalogue.cpp:145 | two sorted permutations of the same strings are equal, so the sorted result does not depend on the input order |
| Common.SortedDistinctIsStrict | transport-catalogue/transport_catalogue.cpp:145 | sorted names without duplicates are strictly ascending |
| Common.FilterKeeps | transport-catalogue/request_handler.cpp:185-187 | skipping the elements that fail a test keeps exactly the elements that pass it, and never more than the input had |
| Common.FilterAt | transport-catalogue/request_handler.cpp:185-187 | an element that passes the test keeps its place among the elements that pass |
| Catalogue.DistanceBetween | transport-catalogue/transport_catalogue.cpp:200-214 | GetDistanceBetweenStops returns a size_t, so the result is below 2^64 |
| Catalogue.DistanceLookup | transport-catalogue/transport_catalogue.cpp:200-214 | the (from, to) entry if recorded; otherwise the (to, from) entry; otherwise 0, also on an empty table; the stored int is read as a size_t |
| Catalogue.DistanceFallbackSymmetric | transport-catalogue/transport_catalogue.cpp:205-211 | when the two directions do not disagree, the distance from a to b equals the distance from b to a |
| Catalogue.DistanceFirstRecorded | transport-catalogue/transport_catalogue.cpp:29-31 | after one AddDistance, the lookup gives the value that was already stored for the pair, or else the new value (insert does not overwrite) |
| Catalogue.Recorded | transport-catalogue/transport_catalogue.cpp:29-31 | recording a list of distances keeps every entry already present unchanged, and adds only keys that come from the list |
| Catalogue.RecordedConcat | transport-catalogue/transport_catalogue.cpp:29-31 | recording list a and then list b is the same as recording a + b |
| Catalogue.RecordedFirstWins | transport-catalogue/transport_catalogue.cpp:29-31 | a pair that was not in the table gets the value of its first occurrence in the list; later duplicates are ignored |
| Catalogue.SegmentDistanceAdditive | transport-catalogue/transport_catalogue.cpp:93-102 | the road distance from i to k equals the distance from i to j plus the distance from j to k |
| Catalogue.SegmentDistanceMonotone | transport-catalogue/transport_catalogue.cpp:93-102 | riding further along a route never makes the distance shorter |
| Catalogue.EmptyRouteOverruns | transport-catalogue/transport_catalogue.cpp:94-98 | on a route with no stops, `STOPS_SIZE - 1u` wraps to 2^64 - 1 and the loop as written reads out of range |
| Catalogue.RouteDistanceAsWrittenAgrees | transport-catalogue/transport_catalogue.cpp:93-102 | on any route with at least one stop, the loop as written computes RouteDistance |
| Catalogue.RouteDistanceAsWritten | transport-catalogue/transport_catalogue.cpp:93-102 | the loop as written: the size_t bound, and no value when the bound reads past the route; EmptyRouteOverruns and RouteDistanceAsWrittenAgrees state its meaning |
| Catalogue.SizeTAdd | transport-catalogue/transport_catalogue.cpp:95-98 | adding to a size_t accumulator step by step wraps the same way as wrapping the exact sum once |
| Catalogue.ToInt32 | transport-catalogue/transport_catalogue.cpp:160-162 | storing a size_t into an int field gives a 32-bit value congruent to it modulo 2^32, and leaves values below 2^31 unchanged |
| Catalogue.BusNamesPermutation | transport-catalogue/transport_catalogue.cpp:185-187 | two iteration orders of the same bus set produce the same multiset of names |
| Catalogue.WithVisits | transport-catalogue/transport_catalogue.cpp:15-17 | every stop's bus list gets bus b appended once for each visit of the route to that stop; nothing else changes |
| Catalogue.WithVisitsPlaces | transport-catalogue/transport_catalogue.cpp:15-17 | recording a bus's visits leaves the name and coordinates of every stop unchanged |
| Catalogue.WithVisitsStep | transport-catalogue/transport_catalogue.cpp:15-17 | one more visit appends b to the visited stop's list and changes no other stop |
| Catalogue.TransportCatalogue.constructor | transport-catalogue/transport_catalogue.h:1-75 | a new catalogue has no stops, buses or distances, and its invariant holds |
| Catalogue.TransportCatalogue.GetStop | transport-catalogue/transport_catalogue.cpp:46-57 | returns some stop exactly when a stop of that name exists, and then the first one added under that name (unordered_map::insert keeps the first) |
| Catalogue.TransportCatalogue.FindStop | transport-catalogue/transport_catalogue.cpp:46-57 | GetStop called as a statement returns the first index whose name matches, as GetStopFirst shows, or nothing |
| Catalogue.TransportCatalogue.GetStopFirst | transport-catalogue/transport_catalogue.cpp:46-57 | the dictionary lookup and a first-match search of the stop names agree |
| Catalogue.TransportCatalogue.GetBus | transport-catalogue/transport_catalogue.cpp:33-44 | returns some bus exactly when a bus of that name exists, and then the first one added under that name |
| Catalogue.TransportCatalogue.AddStop | transport-catalogue/transport_catalogue.cpp:22-27 | the stop is appended; its name is indexed only if it is new; buses and distances are unchanged; the invariant is kept |
| Catalogue.TransportCatalogue.AddDistance | transport-catalogue/transport_catalogue.cpp:29-31 | the first value inserted for a pair is kept; everything else is unchanged |
| Catalogue.TransportCatalogue.AddBus | transport-catalogue/transport_catalogue.cpp:9-20 | the bus is appended with route_length set to its road distance; its name is indexed if new; each visited stop gets the bus once per visit; the invariant is kept |
| Catalogue.TransportCatalogue.RecordVisits | transport-catalogue/transport_catalogue.cpp:15-17 | the loop leaves the stops equal to WithVisits of the old stops and changes nothing else |
| Catalogue.TransportCatalogue.GetRouteDistance | transport-catalogue/transport_catalogue.cpp:93-102 | the size_t sum of the distance lookups over consecutive stops; the corrected version returns 0 on an empty route (see Findings) |
| Catalogue.TransportCatalogue.GetUniqueStops | transport-catalogue/transport_catalogue.cpp:85-91 | exactly the stops the bus visits; no more of them than its route length, and at least one when the route is non-empty |
| Catalogue.TransportCatalogue.GetUniqueBuses | transport-catalogue/transport_catalogue.cpp:77-83 | exactly the buses recorded at the stop, and no more of them than the stop's visits |
| Catalogue.TransportCatalogue.GetSortedBusesNames | transport-catalogue/transport_catalogue.cpp:136-151 | every bus name exactly once, in ascending order, whatever order the dictionary hands them out in |
| Catalogue.TransportCatalogue.GetBusQuery | transport-catalogue/transport_catalogue.cpp:153-170 | found iff a bus of that name exists; then route_stops, unique_stops and route_length as 32-bit ints, with unique stops at most route stops and at least 1 on a non-empty route |
| Catalogue.TransportCatalogue.GetStopQuery | transport-catalogue/transport_catalogue.cpp:172-198 | found iff a stop of that name exists; then the names of its unique buses, sorted and as a multiset equal to the iterated names; no buses when not found |
| Catalogue.RecordDistances | transport-catalogue/json_reader.cpp:96-100 | passing a list of distances to AddDistance in order leaves the table equal to Recorded of the list; nothing else changes |
| Catalogue.StopQueryOrderIndependent | transport-catalogue/transport_catalogue.cpp:184-190 | the stop answer does not depend on the order in which the hash set is iterated |
| Catalogue.PassNext | transport-catalogue/json_reader.cpp:92-104 | while a loading pass is still running, one more request appends its items, or ends the pass with its outcome |
| Catalogue.PassSettled | transport-catalogue/json_reader.cpp:29-33 | once a pass has ended (a throw or undefined behaviour), later requests change nothing |
| Catalogue.PassEnds | transport-catalogue/json_reader.cpp:29-33 | a request that throws makes the whole pass end, either there or earlier |
| Catalogue.PassOnes | transport-catalogue/json_reader.cpp:92-94 | when every request adds exactly one item, the pass finishes with the k-th request's item at position k |
| Catalogue.PassFinishes | transport-catalogue/json_reader.cpp:92-104 | when no request ends it, the pass finishes normally |
| Catalogue.AddedBusShape | transport-catalogue/transport_catalogue.cpp:9-20 | the bus that gets added keeps the route's name and flag, finds every stop by name in order, and records its road distance |
| Catalogue.OutAndBackLookedUp | transport-catalogue/json_reader.cpp:266-272 | looking stops up by name and expanding the out-and-back line give the same result in either order |
| Json.AccessorsMatchKinds | transport-catalogue/json.cpp:244-303 | each As* accessor succeeds exactly when the node holds that kind; AsDouble also accepts an int |
| Json.AccessorsInvertConstructors | transport-catalogue/json.cpp:244-287 | each accessor returns the value its node was built from; AsDouble of an int is that int as a double |
| Json.EscapedConcat | transport-catalogue/json.cpp:338-356 | escaping a concatenation is the concatenation of the escaped parts |
| Json.EscapedShape | transport-catalogue/json.cpp:338-356 | the escaped text contains no raw CR or LF, and is never shorter than the original |
| Json.PrintString | transport-catalogue/json.cpp:335-359 | the output is the string between quotes, with CR, LF, quote and backslash escaped and every other character copied |
| Json.NatText | transport-catalogue/json.cpp:361-364 | the decimal text of a number is non-empty and made of digits |
| Json.Ascending | transport-catalogue/json.cpp:407 | std::map iterates its keys each exactly once, in ascending order |
| Json.PrintIndent | transport-catalogue/json.cpp:322-326 | the indent is exactly `indent` spaces |
| Json.PrintNode | transport-catalogue/json.cpp:426-428 | a node is printed as Printed describes for its kind |
| Json.PrintArray | transport-catalogue/json.cpp:378-399 | "[", a newline, the items at the inner indent separated by ",\n", a newline, the indent, "]" |
| Json.PrintDict | transport-catalogue/json.cpp:401-424 | "{", then each entry in ascending key order as the quoted key, ": " and its value, separated by ",\n", then a newline, the indent and "}" |
| Json.Print | transport-catalogue/json.cpp:430-432 | the document's root printed with indent step 4 and indent 0 |
| JsonLoad.SkipSpace | transport-catalogue/json.cpp:28 | `input >> c` skips whitespace: the position returned is the first non-space character at or after pos, or the end of the input |
| JsonLoad.LoadLine | transport-catalogue/json.cpp:15-23 | reads the run of letters that starts at pos, and stops at the first non-letter |
| JsonLoad.LiteralExact | transport-catalogue/json.cpp:42-62 | LoadNull and LoadBool succeed exactly when the letters there spell "null", "true" or "false" and no further letter follows |
| JsonLoad.LoadNull | transport-catalogue/json.cpp:42-49 | the loader method computes ParseNull |
| JsonLoad.LoadBool | transport-catalogue/json.cpp:51-62 | the loader method computes ParseBool |
| JsonLoad.WholeShape | transport-catalogue/json.cpp:83-91 | the integer part is a lone "0", or a run of digits that does not start with 0 |
| JsonLoad.FractionShape | transport-catalogue/json.cpp:95-99 | the fraction is absent, or "." followed by digits (a "." with no digit after it fails) |
| JsonLoad.ExponentShape | transport-catalogue/json.cpp:101-105 | the exponent mark is absent, or e/E followed by an optional sign |
| JsonLoad.ScanNumberShape | transport-catalogue/json.cpp:64-108 | the text consumed is a well-formed numeral: optional '-', integer part, optional fraction, optional exponent, and the scan moves past it |
| JsonLoad.NumberIntOnlyWithoutFraction | transport-catalogue/json.cpp:93-119 | the result is an int exactly when there is no fraction and no exponent and stoi's value fits in 32 bits; otherwise it is a double |
| JsonLoad.NumberOfScan | transport-catalogue/json.cpp:110-123 | a scanned numeral loads as its value: an int when it fits, otherwise a double |
| JsonLoad.NumberMissingDigits | transport-catalogue/json.cpp:74-81 | a missing integer part, a "." without digits, or an exponent without digits throws ParsingError |
| JsonLoad.ParseNumber | transport-catalogue/json.cpp:64-124 | a number that loads always consumes at least one character and stays within the input |
| JsonLoad.ReadDigits | transport-catalogue/json.cpp:78-80 | the read_digits loop stops at the first non-digit |
| JsonLoad.ReadWhole | transport-catalogue/json.cpp:86-91 | reads the integer part: a lone 0, or a run of digits |
| JsonLoad.ReadFraction | transport-catalogue/json.cpp:95-99 | reads the fraction when a '.' comes next |
| JsonLoad.ReadExponent | transport-catalogue/json.cpp:101-108 | reads the exponent mark, its optional sign and its digits |
| JsonLoad.LoadNumber | transport-catalogue/json.cpp:64-124 | the loader method computes ParseNumber |
| JsonLoad.StepString | transport-catalogue/json.cpp:130-171 | one step of LoadString: a closing quote ends the string; a character or escape is decoded and the position advances; anything else fails |
| JsonLoad.ParseString | transport-catalogue/json.cpp:126-175 | a string that loads ends within the input, after the starting position |
| JsonLoad.LoadString | transport-catalogue/json.cpp:126-175 | the loader loop computes ParseString from an empty accumulator |
| JsonLoad.EscapeCharReadsBack | transport-catalogue/json.cpp:140-163 | the escape that PrintString writes for a character is decoded back to that character |
| JsonLoad.EscapedReadsBack | transport-catalogue/json.cpp:126-175 | escaped text followed by a closing quote loads back as the original characters |
| JsonLoad.QuotedLoads | transport-catalogue/json.cpp:126-175 | LoadNode reads PrintString's output back as the original string, for every string and whatever follows it |
| JsonLoad.QuotedLoadsAt | transport-catalogue/json.cpp:209-236 | wherever PrintString's output appears in the input, LoadNode reads it back as the original string |
| JsonLoad.ParseNode | transport-catalogue/json.cpp:209-236 | a node that loads consumes at least one character and stays within the input |
| JsonLoad.StepArray | transport-catalogue/json.cpp:28-32 | one pass of LoadArray's loop: ']' closes the array; otherwise one optional ',' is skipped and an item is loaded; the end of the input fails |
| JsonLoad.ParseArray | transport-catalogue/json.cpp:25-40 | an array that loads ends within the input, after the starting position |
| JsonLoad.StepDict | transport-catalogue/json.cpp:180-200 | one pass of LoadDict's loop: an entry it adds has a key not read before; it never goes backwards |
| JsonLoad.ParseDict | transport-catalogue/json.cpp:177-207 | a dictionary that loads ends within the input, after the starting position |
| JsonLoad.LoadNode | transport-catalogue/json.cpp:209-236 | the loader method computes ParseNode |
| JsonLoad.LoadArray | transport-catalogue/json.cpp:25-40 | the loader loop computes ParseArray from no items; its properties are ArrayItemsInOrder and ArrayUnclosedFails |
| JsonLoad.LoadItem | transport-catalogue/json.cpp:32 | the LoadNode call inside the array loop gives the item loaded at that position, or the parse failure, as ItemAt states |
| JsonLoad.ReadArrayStep | transport-catalogue/json.cpp:28-32 | one pass of the loop computes StepArray |
| JsonLoad.LoadDict | transport-catalogue/json.cpp:177-207 | the loader loop computes ParseDict from no entries; its properties are the Dict*Fails lemmas |
| JsonLoad.ReadDictStep | transport-catalogue/json.cpp:180-200 | one pass of the loop computes StepDict |
| JsonLoad.ReadEntry | transport-catalogue/json.cpp:181-194 | a key, the ':' after it and the value, computed as StepDict does |
| JsonLoad.LoadEntryValue | transport-catalogue/json.cpp:189 | the LoadNode call after the colon gives the entry's value, or the parse failure, as EntryValue states |
| JsonLoad.ArrayItemsInOrder | transport-catalogue/json.cpp:25-40 | the text of an array of strings, comma-separated between brackets, loads back as exactly those strings, in the order written |
| JsonLoad.CommaItemsReadBack | transport-catalogue/json.cpp:28-33 | the loop appends each comma-separated string after the items already read, in order, and ends at ']' |
| JsonLoad.ArrayUnclosedFails | transport-catalogue/json.cpp:35-37 | input with no ']' after the opening bracket makes LoadArray throw: it never returns an array that was not closed |
| JsonLoad.DictUnclosedFails | transport-catalogue/json.cpp:203-207 | input with no '}' after the opening brace makes LoadDict throw |
| JsonLoad.DictDuplicateKeyFails | transport-catalogue/json.cpp:184-187 | a key already read, followed by ':', throws ParsingError |
| JsonLoad.DictMissingColonFails | transport-catalogue/json.cpp:184-193 | a key followed by anything but ':', or by the end of the input, throws ParsingError |
| JsonLoad.DictBadSeparatorFails | transport-catalogue/json.cpp:197-199 | where a key may start, a character other than '"', ',' or '}' throws ParsingError |
| JsonLoad.Load | transport-catalogue/json.cpp:313-315 | the document loads exactly when its first node does, and its root is that node; text after the node is not read |
| JsonBuilder.Built | transport-catalogue/json_builder.cpp:188-198 | Build succeeds exactly when a root was added and no container is still open, and then returns the root; otherwise it throws logic_error |
| JsonBuilder.StepKeepsShape | transport-catalogue/json_builder.cpp:92-186 | every builder call keeps the stack well formed: containers, and a pending key only directly above a dict |
| JsonBuilder.Added | transport-catalogue/json_builder.cpp:92-125 | AddNode's outcome: the root when none is set, an item at the end of an open array, or a dict entry under the pending key; RootOnce, SecondRootThrows, ValueAppends and ValueInDictThrows state it |
| JsonBuilder.Keyed | transport-catalogue/json_builder.cpp:127-137 | Key's outcome: a throw on an empty stack, the key pushed above an open dict, no change otherwise; KeyNeedsDict and KeyThenValue state it |
| JsonBuilder.Ended | transport-catalogue/json_builder.cpp:154-186 | EndDict and EndArray's outcome: a throw unless the top is the matching container, else the container popped and added; EndPopsMatching and StartThenEnd state it |
| JsonBuilder.Step | transport-catalogue/json_builder.cpp:92-186 | one builder call's outcome; StepKeepsShape and ContextsTrackStack are stated over it |
| JsonBuilder.RootOnce | transport-catalogue/json_builder.cpp:93-100 | with no open container, a node becomes the root exactly when no root has been set yet |
| JsonBuilder.SecondRootThrows | transport-catalogue/json_builder.cpp:94-96 | a second top-level value throws and leaves the first root in place |
| JsonBuilder.ValueAppends | transport-catalogue/json_builder.cpp:106-113 | a value added inside an open array is appended as its last item |
| JsonBuilder.ValueInDictThrows | transport-catalogue/json_builder.cpp:102-104 | a value added straight into a dict, without a key, throws and changes nothing |
| JsonBuilder.KeyThenValue | transport-catalogue/json_builder.cpp:116-124 | Key and then Value inside a dict store the entry, unless the key is already present (emplace keeps the old value) |
| JsonBuilder.KeyNeedsDict | transport-catalogue/json_builder.cpp:127-137 | Key on an empty stack throws; Key when the top is not a dict does nothing and does not throw |
| JsonBuilder.EndPopsMatching | transport-catalogue/json_builder.cpp:154-186 | EndDict or EndArray throws on an empty stack or a top of the other kind; otherwise it pops the container and adds it as a node |
| JsonBuilder.StartThenEnd | transport-catalogue/json_builder.cpp:144-186 | starting a container and ending it at once adds an empty container |
| JsonBuilder.ContextsTrackStack | transport-catalogue/json_builder.h:56-90 | every call that a context class allows is one the builder accepts (apart from the End calls), and the next context matches the new stack |
| JsonBuilder.AfterKey | transport-catalogue/json_builder.h:56-66 | after Key, only Value, StartDict or StartArray can be called |
| JsonBuilder.AfterKeyValue | transport-catalogue/json_builder.h:62-78 | after Key and then Value, only Key or EndDict can be called |
| JsonBuilder.InArray | transport-catalogue/json_builder.h:80-90 | inside an array, every call except Key and EndDict is allowed, and Value stays in the array |
| JsonBuilder.Builder.constructor | transport-catalogue/json_builder.h:15-33 | a new builder has a null root and an empty stack |
| JsonBuilder.Builder.AddNode | transport-catalogue/json_builder.cpp:92-125 | the new state and the throw are those of Added (root, array item, or dict entry under the pending key) |
| JsonBuilder.Builder.Key | transport-catalogue/json_builder.cpp:127-137 | the new state and the throw are those of Keyed |
| JsonBuilder.Builder.Value | transport-catalogue/json_builder.cpp:139-142 | Value is AddNode of the node it makes |
| JsonBuilder.Builder.StartDict | transport-catalogue/json_builder.cpp:144-147 | pushes an empty dict |
| JsonBuilder.Builder.StartArray | transport-catalogue/json_builder.cpp:149-152 | pushes an empty array |
| JsonBuilder.Builder.EndDict | transport-catalogue/json_builder.cpp:154-169 | pops an open dict and adds it as a node; throws on an empty stack or a top that is not a dict |
| JsonBuilder.Builder.EndArray | transport-catalogue/json_builder.cpp:171-186 | pops an open array and adds it as a node; throws on an empty stack or a top that is not an array |
| JsonBuilder.Builder.Build | transport-catalogue/json_builder.cpp:188-198 | returns the root exactly when one was added and the stack is empty, and otherwise throws logic_error |
| JsonBuilder.Builder.Forward | transport-catalogue/json_builder.cpp:13-66 | a context forwards an allowed call to the builder and returns the context of its result type |
| JsonReader.RouteRequests | transport-catalogue/json_reader.cpp:67-90 | the routing loop puts the "Stop" requests, in input order, into one list and the "Bus" requests into the other |
| JsonReader.RequestRouting | transport-catalogue/json_reader.cpp:67-90 | a request is routed as a stop exactly when it is a dict whose "type" is the string "Stop", and as a bus exactly when "type" is "Bus"; each keeps its relative input order; other requests are skipped |
| JsonReader.StopOf | transport-catalogue/json_reader.cpp:235-247 | a stop request is read exactly when it has a string "name" and numeric "latitude" and "longitude"; the stop then has that name and those coordinates and no buses |
| JsonReader.CollectedShape | transport-catalogue/json_reader.cpp:298-302 | the distance loop produces one Distance per entry, from this stop to the stop named by the key, in key order, and stops at the first value that is not an int (AsInt throws) |
| JsonReader.RoadDistancesInKeyOrder | transport-catalogue/json_reader.cpp:283-311 | with all values ints, ParseNodeDistances returns one Distance per road_distances entry, all from this stop, in ascending order of the destination name |
| JsonReader.CollectedAt | transport-catalogue/json_reader.cpp:298-302 | one step of the distance loop: an int value adds its Distance and the loop goes on; any other value ends it |
| JsonReader.ParseNodeDistances | transport-catalogue/json_reader.cpp:283-311 | the method returns RoadDistancesOf: the distances read, a null destination for an unknown name, and a missing "name" as a throw |
| JsonReader.CollectDistances | transport-catalogue/json_reader.cpp:298-302 | the loop computes Collected over the keys in the order given |
| JsonReader.LeadingStringsShape | transport-catalogue/json_reader.cpp:262-264 | the stop loop keeps the strings up to the first item that is not a string (AsString throws there) |
| JsonReader.Refs | transport-catalogue/json_reader.cpp:263 | each stop name becomes GetStop of that name: the first stop of that name, or null |
| JsonReader.RefsOutAndBack | transport-catalogue/json_reader.cpp:262-272 | looking the names up and then expanding the line out and back gives the same result as expanding first and then looking up |
| JsonReader.BusRequestOf | transport-catalogue/json_reader.cpp:249-281 | a bus request is read exactly when it has a string "name" and a bool "is_roundtrip"; its stop list is complete exactly when "stops" is an array of strings, and otherwise it holds the strings before the throw |
| JsonReader.RouteOf | transport-catalogue/json_reader.cpp:266-272 | a complete line that is not a roundtrip becomes an out-and-back route of 2n - 1 stops that reads the same backwards; any other line keeps the listed stops |
| JsonReader.EmptyStopsOverrun | transport-catalogue/json_reader.cpp:266-271 | a non-roundtrip bus with an empty "stops" array makes `size() - 1u` wrap, and the loop as written reads out of range |
| JsonReader.RouteAsWrittenAgrees | transport-catalogue/json_reader.cpp:266-272 | on every other request the loop as written gives RouteOf |
| JsonReader.RouteAsWritten | transport-catalogue/json_reader.cpp:266-272 | the out-and-back expansion as written, with the size_t size, and no value when it reads past the list; EmptyStopsOverrun and RouteAsWrittenAgrees state its meaning |
| JsonReader.ParseNodeBus | transport-catalogue/json_reader.cpp:249-281 | the method returns BusRead: name, the looked-up route (possibly with null stops) and the flag, or a throw when "name" or "is_roundtrip" is missing or has the wrong type |
| JsonReader.LookUpStops | transport-catalogue/json_reader.cpp:262-264 | the loop looks up the leading strings in order, and reports whether every item was a string |
| JsonReader.Present | transport-catalogue/transport_catalogue.cpp:15-17 | a route with no null stop, as the stop indices it points to, in order |
| JsonReader.BusStepResolves | transport-catalogue/json_reader.cpp:102-104 | loading a bus is undefined exactly when it lists no stop (a read past the end of the empty route) or a stop name is unknown (a null stop dereferenced); an as-written route that overruns is among these; otherwise it adds the bus with its route looked up and its road distance |
| JsonReader.EmptyBusUndefined | transport-catalogue/json_reader.cpp:266-271 | a bus request with an empty "stops" array ends the bus pass as undefined, roundtrip or not, since both the way back and the route measures read past the end |
| JsonReader.RouteOverrunsOnlyEmpty | transport-catalogue/json_reader.cpp:266-271 | the way back as written reads past the end only when no stop was listed |
| JsonReader.RefsLoadable | transport-catalogue/json_reader.cpp:249-281 | the looked-up route is empty or holds a null stop exactly when the request is not Loadable, and otherwise resolves each stop by name |
| JsonReader.StopsLoaded | transport-catalogue/json_reader.cpp:92-94 | the stop pass finishes exactly when every stop request is well formed, and then adds one stop per request, in input order |
| JsonReader.DistancesAfterStops | transport-catalogue/json_reader.cpp:96-100 | once the stop pass has finished, the distance pass cannot throw |
| JsonReader.BusesLoaded | transport-catalogue/json_reader.cpp:102-104 | the bus pass finishes exactly when every bus request is well formed, lists at least one stop and names only known stops, and then adds one bus per request, in input order |
| JsonReader.LoadStops | transport-catalogue/json_reader.cpp:92-94 | the loop appends the stops of the stop pass and ends as that pass ends; buses and distances are unchanged |
| JsonReader.LoadDistances | transport-catalogue/json_reader.cpp:96-100 | the loop records the distances of every stop request, in order, with the first value for a pair kept; stops and buses are unchanged |
| JsonReader.LoadBus | transport-catalogue/json_reader.cpp:103 | one bus request either adds its bus or ends the pass (a throw, an unknown stop, or no stop at all); the stops' names and coordinates and the distances are unchanged |
| JsonReader.LoadBuses | transport-catalogue/json_reader.cpp:102-104 | the loop appends the buses of the bus pass and ends as that pass ends; the stops' places and the distances are unchanged |
| JsonReader.ParseNodeBase | transport-catalogue/json_reader.cpp:56-110 | a root that is not an array changes nothing; otherwise all stops are loaded, then the distances of every stop, then all buses, and a throw or undefined behaviour stops the loading where it happens |
| JsonReader.StatOf | transport-catalogue/json_reader.cpp:122-134 | a stat request is read exactly when "id" is an int, "type" a string, and "name" a string unless the type is "Map"; a "Map" request gets an empty name |
| JsonReader.ParseNodeStat | transport-catalogue/json_reader.cpp:112-143 | a node that is not an array adds nothing; otherwise the stat pass runs over its items and its stats are appended |
| JsonReader.StatsInOrder | transport-catalogue/json_reader.cpp:120-136 | when the pass finishes, each dict item contributes its stat, in input order, and items that are not dicts are skipped |
| JsonReader.Byte | transport-catalogue/json_reader.cpp:185-187 | storing an int into a uint8_t keeps it modulo 256, and leaves 0..255 unchanged |
| JsonReader.ColorArity | transport-catalogue/json_reader.cpp:207-219 | a colour array of 3 ints is Rgb; of 4 with a number last is Rgba; of 4 with a non-number last throws; with more than 4 items adds no colour |
| JsonReader.ShortColorOverruns | transport-catalogue/json_reader.cpp:208-211 | a colour array with fewer than 3 items throws at its first non-int item, and otherwise reads past its end |
| JsonReader.ParsePalette | transport-catalogue/json_reader.cpp:203-221 | the palette loop appends the colours of the palette pass and ends as that pass ends |
| JsonReader.PaletteInOrder | transport-catalogue/json_reader.cpp:203-221 | when the pass finishes, each entry that gives a colour contributes it, in order, and the others add nothing |
| JsonReader.FirstEnd | transport-catalogue/json_reader.cpp:160-227 | the settings block finishes exactly when every read finishes; otherwise it ends with the first read that did not |
| JsonReader.ParseNodeRender | transport-catalogue/json_reader.cpp:145-233 | a node that is not a dict changes nothing; otherwise the colours are read as RenderRead says |
| JsonReader.RenderPaletteGrows | transport-catalogue/json_reader.cpp:200-222 | reading the settings never removes a palette colour; when the reading finishes, the palette grows by exactly one colour per colour entry |
| JsonReader.ParseNode | transport-catalogue/json_reader.cpp:23-54 | a root that is not a dict changes nothing; a missing base_requests throws and is caught; stat_requests and render_settings are read after base_requests, and a missing one is caught and skipped |
| Svg.ShieldChar | transport-catalogue/svg.cpp:123-145 | each special character (quote, backtick, apostrophe, <, >, &) becomes an entity reference; every other character is copied unchanged; the output never contains a raw quote, apostrophe, backtick, < or > |
| Svg.ShieldedAppend | transport-catalogue/svg.cpp:122-146 | shielding one more character appends that character's replacement |
| Svg.DataShielding | transport-catalogue/svg.cpp:119-149 | the loop returns the shielded text: each character's replacement, in order |
| Svg.Shielded | transport-catalogue/svg.cpp:119-149 | each character replaced by its entity, in order; ShieldedAppend, ShieldedHasNoRaw and ShieldedReadsBack state its meaning |
| Svg.ShieldedHasNoRaw | transport-catalogue/svg.cpp:119-149 | shielded text contains no raw quote, apostrophe, backtick, < or > |
| Svg.ShieldedLonger | transport-catalogue/svg.cpp:119-149 | shielding never makes a text shorter |
| Svg.ShieldedPlain | transport-catalogue/svg.cpp:142-144 | a text without special characters is left unchanged |
| Svg.EntityAtShielded | transport-catalogue/svg.cpp:123-141 | the replacement of a special character is read as exactly one entity, which stands for that character |
| Svg.UnescapedShieldChar | transport-catalogue/svg.cpp:123-145 | one replacement reads back as its character (a backtick as an apostrophe), followed by whatever comes next |
| Svg.ShieldedReadsBack | transport-catalogue/svg.cpp:119-149 | an XML reader reads shielded text back as the original, except that a backtick comes back as an apostrophe |
| Svg.FirstNonSpace | transport-catalogue/svg.cpp:156 | find_first_not_of(' '): the first non-space position, or none exactly when the text is all spaces |
| Svg.LastNonSpace | transport-catalogue/svg.cpp:157 | find_last_not_of(' '): the last non-space position, or none exactly when the text is all spaces |
| Svg.RemoveSpaces | transport-catalogue/svg.cpp:151-159 | empty text stays empty; a non-empty all-space text throws (substr at npos); otherwise the result is the text without its leading and trailing spaces |
| Svg.RemoveSpacesIdempotent | transport-catalogue/svg.cpp:151-159 | trimming an already trimmed text changes nothing |
| Svg.ShieldedAllSpaces | transport-catalogue/svg.cpp:119-149 | shielding keeps a text all-space exactly when it was all-space, and empty exactly when it was empty |
| Svg.TextContent | transport-catalogue/svg.cpp:176 | the content of a <text> element throws exactly for non-empty all-space data, and otherwise contains no raw special character |
| Svg.BodyConcat | transport-catalogue/svg.cpp:194-196 | rendering two lists of objects one after the other is rendering their concatenation |
| Svg.ObjectLineAt | transport-catalogue/svg.cpp:194-196 | the k-th object's line sits after the lines of the objects before it and before the lines of those after it |
| Svg.Document.constructor | transport-catalogue/svg.cpp:181-183 | a new document holds no objects |
| Svg.Document.AddPtr | transport-catalogue/svg.cpp:181-183 | the object is appended after the ones already added |
| Svg.Document.Render | transport-catalogue/svg.cpp:185-199 | the XML header and the svg opening tag, then each object on its own line indented by 2, in the order added, then "</svg>" |
| Svg.AddedObjectRendersLast | transport-catalogue/svg.cpp:181-199 | an object added last renders after all the others, with the earlier output unchanged |
| RequestHandler.GetSortedBusesNames | transport-catalogue/request_handler.cpp:24-39 | the names are the catalogue's bus names, each once, in ascending order, whatever order the dictionary hands them out |
| RequestHandler.GetStopQuery | transport-catalogue/request_handler.cpp:60-86 | the query keeps the asked name and exists exactly when the stop exists; its buses are then the names of the stop's unique buses, sorted |
| RequestHandler.MakeStopNode | transport-catalogue/request_handler.cpp:88-108 | the answer carries request_id; a missing stop gets exactly error_message "not found"; a found one exactly a "buses" array of its bus names, in order |
| RequestHandler.MakeBusNode | transport-catalogue/request_handler.cpp:110-129 | the answer carries request_id; a missing bus gets exactly error_message "not found"; a found one exactly curvature, route_length, stop_count and unique_stop_count, from the query |
| RequestHandler.MakeMapNode | transport-catalogue/request_handler.cpp:131-146 | the answer has exactly request_id and the rendered map as a string |
| RequestHandler.NotFoundAlike | transport-catalogue/request_handler.cpp:92-95 | a missing stop and a missing bus get the same answer, and a found one never carries error_message |
| RequestHandler.ResponsesInOrder | transport-catalogue/request_handler.cpp:148-164 | there is one answer per Stop, Bus or Map stat, and the k-th such stat is answered at its place in order, under its own request_id |
| RequestHandler.RequestHandler.constructor | transport-catalogue/request_handler.h:20 | a new handler holds an empty (null) document |
| RequestHandler.RequestHandler.HandleRequestType | transport-catalogue/request_handler.cpp:148-164 | the loop sets the document to the array of Responses of the stats |
| RequestHandler.Responses | transport-catalogue/request_handler.cpp:148-164 | one answer per stat, in order; ResponsesInOrder states it |
| RequestHandler.Numbered | transport-catalogue/request_handler.cpp:186-191 | each listed bus gets the palette index k modulo the palette size |
| RequestHandler.Lined | transport-catalogue/request_handler.cpp:181-194 | the bus loop keeps exactly the names of known buses with at least one stop |
| RequestHandler.CycledIsMod | transport-catalogue/request_handler.cpp:187-191 | the palette index that counts up and resets to 0 at the palette size equals the count modulo that size |
| RequestHandler.BusPaletteNext | transport-catalogue/request_handler.cpp:184-192 | one more name adds one pair, with the next palette index, exactly when its bus has stops |
| RequestHandler.BusPaletteNumbered | transport-catalogue/request_handler.cpp:181-194 | the palette is the buses with stops, numbered in order modulo the palette size |
| RequestHandler.BusPaletteColors | transport-catalogue/request_handler.cpp:186-191 | the k-th pair has palette index k modulo the palette size, always below it |
| RequestHandler.BusPaletteBuses | transport-catalogue/request_handler.cpp:179-194 | the palette holds every bus with stops and no other bus, in strictly ascending name order |
| RequestHandler.LinedShape | transport-catalogue/request_handler.cpp:181-194 | the buses kept are exactly the buses with stops, each found under its own name, in strictly ascending order |
| RequestHandler.SortedServed | transport-catalogue/request_handler.cpp:204-212 | the sorted list holds exactly the names of stops with at least one bus |
| RequestHandler.SortedServedShape | transport-catalogue/request_handler.cpp:204-212 | every stop with a bus is listed, in strictly ascending order |
| RequestHandler.DrawnStopsServed | transport-catalogue/request_handler.cpp:202-226 | the stops drawn are exactly the stops with at least one bus |
| RequestHandler.DrawnStopsAscending | transport-catalogue/request_handler.cpp:212-220 | the stops are drawn in strictly ascending name order |
| RequestHandler.DrawnStopsOrderIndependent | transport-catalogue/request_handler.cpp:202-212 | the stops drawn do not depend on the order the dictionary hands out its names |
| RequestHandler.Render | transport-catalogue/request_handler.cpp:166-227 | an empty palette draws nothing; otherwise the buses get BusPalette of the sorted names and the stops DrawnStops |
| RequestHandler.PaletteLoop | transport-catalogue/request_handler.cpp:181-194 | the loop computes BusPalette |
| RequestHandler.BusPalette | transport-catalogue/request_handler.cpp:181-194 | the buses drawn and their colour indices; BusPaletteBuses, BusPaletteNumbered and BusPaletteColors state its meaning |
| RequestHandler.DrawnStops | transport-catalogue/request_handler.cpp:204-220 | the stops drawn; DrawnStopsServed, DrawnStopsAscending and DrawnStopsOrderIndependent state its meaning |
| RequestHandler.StopLoops | transport-catalogue/request_handler.cpp:204-220 | the two stop loops compute DrawnStops |
| RequestHandler.LookUpServed | transport-catalogue/request_handler.cpp:214-220 | each sorted name is looked up, in order, to its stop |
| RequestHandler.CollectServed | transport-catalogue/request_handler.cpp:206-210 | the loop keeps, in order, the names of the stops with at least one bus |
| InputReader.Find | transport-catalogue/input_reader.cpp:12-13 | find returns a position holding the character |
| InputReader.FindFirst | transport-catalogue/input_reader.cpp:12-13 | find returns the first position of the character, and npos exactly when the character is absent |
| InputReader.FindFromFirst | transport-catalogue/input_reader.cpp:31-38 | a search from a position finds the first occurrence at or after it, and finds nothing only when there is none |
| InputReader.FindAt | transport-catalogue/input_reader.cpp:12-13 | a position holding the character with none before it is what find returns |
| InputReader.FindAfter | transport-catalogue/input_reader.cpp:24-31 | searching a text whose first part lacks the character finds it in the second part, shifted by the first part's length |
| InputReader.FindBefore | transport-catalogue/input_reader.cpp:24-31 | appending text does not change where a character already present is found |
| InputReader.Pos | transport-catalogue/input_reader.cpp:12-13 | a find result as a size_t: the position, or npos |
| InputReader.Wrap | transport-catalogue/input_reader.cpp:16-17 | size_t arithmetic on positions wraps modulo 2^64 |
| InputReader.Substr | transport-catalogue/input_reader.cpp:16-18 | substr throws exactly when the position is past the end, and otherwise returns at most count characters from the position |
| InputReader.Prefix | transport-catalogue/input_reader.cpp:36 | substr(0, count) is the first min(count, size) characters |
| InputReader.SkipSpaces | transport-catalogue/input_reader.cpp:72 | stoi skips leading white space: a suffix that starts with a non-space |
| InputReader.LeadingDigits | transport-catalogue/input_reader.cpp:72 | stoi reads the longest run of leading digits |
| InputReader.Stoi | transport-catalogue/input_reader.cpp:72 | stoi succeeds only on a text with a digit, and its value fits in int (otherwise out_of_range) |
| InputReader.StoiDigits | transport-catalogue/input_reader.cpp:72 | after the sign, stoi needs a digit and gives a value in int |
| InputReader.Decimal | transport-catalogue/input_reader.cpp:72 | the decimal text of a count is a non-empty run of digits |
| InputReader.DecimalValue | transport-catalogue/input_reader.cpp:72 | the digits of the decimal text of n have value n |
| InputReader.LeadingDigitsAppend | transport-catalogue/input_reader.cpp:72 | a digit run in front adds its length to the leading digits |
| InputReader.StoiDecimal | transport-catalogue/input_reader.cpp:72 | stoi reads back the decimal text of any n within int, whatever non-digit follows |
| InputReader.StoiDigitRun | transport-catalogue/input_reader.cpp:72 | stoi of a digit run followed by a non-digit is the run's value |
| InputReader.StoiUnsigned | transport-catalogue/input_reader.cpp:72 | a text starting with a digit is read without a sign |
| InputReader.DigitRunValue | transport-catalogue/input_reader.cpp:72 | an unsigned digit run within int is read as its value |
| InputReader.StoiOfDecimal | transport-catalogue/input_reader.cpp:72 | stoi of the decimal text of a distance within int is that distance |
| InputReader.StopFieldsAt | transport-catalogue/input_reader.cpp:16-18 | the three substr calls succeed exactly when the name position and the two positions past ':' and ',' (wrapped) are within the line |
| InputReader.GetStopQuery | transport-catalogue/input_reader.cpp:11-21 | a stop line is read exactly when its three fields can be cut and both coordinates parse; the stop gets the name field and no buses |
| InputReader.StopFieldsBetween | transport-catalogue/input_reader.cpp:16-18 | with ':' and ',' in place, the fields are the name between position 5 and ':', the latitude and the longitude |
| InputReader.StopLineSeparators | transport-catalogue/input_reader.cpp:12-18 | in "Stop <name>: <lat>, <lng>" the first ':' and ',' are the separators, and the fields cut are the name, latitude and longitude |
| InputReader.StopLineRoundTrip | transport-catalogue/input_reader.cpp:11-21 | reading a written stop line gives back its name and the parsed coordinates, and succeeds exactly when both coordinates parse |
| InputReader.Pieces | transport-catalogue/input_reader.cpp:35-41 | the loop that cuts a route at every separator yields at least one name, or throws |
| InputReader.RouteStops | transport-catalogue/input_reader.cpp:31-56 | a route with no '>' is cut at '-' and expanded out and back; otherwise it is cut at '>'; at least one stop either way |
| InputReader.BusRouteAt | transport-catalogue/input_reader.cpp:23-59 | a bus line gives its name and at least one stop, or throws |
| InputReader.BusRouteBetween | transport-catalogue/input_reader.cpp:27-29 | with ':' in place, the name is the text between position 4 and ':' and the route is what follows ": " |
| InputReader.Join | transport-catalogue/input_reader.cpp:35-41 | the route text written from stop names, " - " or " > " between them |
| InputReader.JoinFreeOf | transport-catalogue/input_reader.cpp:31-33 | a route written from names without a character holds no such character |
| InputReader.JoinHasSep | transport-catalogue/input_reader.cpp:31-33 | a route of two or more stops holds its separator |
| InputReader.PiecesOfJoin | transport-catalogue/input_reader.cpp:35-41 | cutting a written route at its separator gives back the names |
| InputReader.RouteStopsOfJoin | transport-catalogue/input_reader.cpp:31-56 | a written route reads back as its stops for '>', and as the stops out and back for '-' |
| InputReader.BusLineSeparators | transport-catalogue/input_reader.cpp:24-29 | in "Bus <name>: <route>" the first ':' ends the name and the route follows ": " |
| InputReader.BusLineRoundTrip | transport-catalogue/input_reader.cpp:23-59 | reading a written bus line gives back its name and its route, out and back when written with '-' |
| InputReader.PiecesStep | transport-catalogue/input_reader.cpp:35-39 | one turn of the cutting loop pushes the text before the separator and goes on after it |
| InputReader.SplitRoute | transport-catalogue/input_reader.cpp:35-41 | the loop throws exactly when Pieces does, and otherwise looks up every cut name in order |
| InputReader.GetBusQuery | transport-catalogue/input_reader.cpp:23-59 | the method throws exactly when BusRoute does, and otherwise returns its name and its stop names looked up |
| InputReader.Entries | transport-catalogue/input_reader.cpp:71-84 | the distance fields yield at least one entry, or throw |
| InputReader.AfterComma | transport-catalogue/input_reader.cpp:68 | the text after the first ',' is no longer than the line |
| InputReader.FieldsText | transport-catalogue/input_reader.cpp:69 | the text two past the next ',' is no longer than the text |
| InputReader.DistanceList | transport-catalogue/input_reader.cpp:61-86 | the distances are from the stop the line names; when a ',' follows the longitude they are read as written |
| InputReader.DistanceFromBetween | transport-catalogue/input_reader.cpp:66 | the source stop is the text between position 5 and the first ':' |
| InputReader.AfterCommaAt | transport-catalogue/input_reader.cpp:68 | the first cut keeps what follows the first ',' |
| InputReader.LongitudeLast | transport-catalogue/input_reader.cpp:68-69 | a longitude with no ',' after it leaves no fields to cut; the wrapped cut starts at the longitude |
| InputReader.ListWithoutFields | transport-catalogue/input_reader.cpp:68-84 | a line with no ',' after the longitude has no distances, while as written the longitude is read as fields |
| InputReader.LastFieldLongitude | transport-catalogue/input_reader.cpp:68-84 | the same for a line that ends with its longitude |
| InputReader.StopLineDistances | transport-catalogue/input_reader.cpp:61-86 | a stop line without distance fields has no distances; as written its longitude is read as a field |
| InputReader.EntryTextParts | transport-catalogue/input_reader.cpp:72-74 | in "<D>m to <name>" the first 'm' ends the distance and the name starts 5 past it |
| InputReader.EntryAtFrom | transport-catalogue/input_reader.cpp:72-74 | a field is the stoi of the text before 'm' and the name up to the next ',' |
| InputReader.EntryAtText | transport-catalogue/input_reader.cpp:72-74 | a written field reads back as its distance and name |
| InputReader.EntriesLast | transport-catalogue/input_reader.cpp:81-84 | a last field with no ',' is the one entry |
| InputReader.EntriesAt | transport-catalogue/input_reader.cpp:71-79 | a field followed by ',' is read and the loop goes on two past the ',' |
| InputReader.EntriesNext | transport-catalogue/input_reader.cpp:71-79 | a field then ", " then the rest reads as that field then the rest |
| InputReader.EntriesOfOne | transport-catalogue/input_reader.cpp:81-84 | one written field reads back |
| InputReader.EntriesOfFirst | transport-catalogue/input_reader.cpp:71-79 | the first of several written fields is read, then the rest |
| InputReader.EntriesOfMore | transport-catalogue/input_reader.cpp:71-84 | if the tail of the written fields reads back, so do all of them |
| InputReader.EntriesOfText | transport-catalogue/input_reader.cpp:71-84 | any written list of fields reads back as itself |
| InputReader.ListFromFields | transport-catalogue/input_reader.cpp:68-84 | with a ',' after the longitude, the distances are the fields after it |
| InputReader.FieldsAfter | transport-catalogue/input_reader.cpp:68-69 | after the longitude and ", " the fields follow |
| InputReader.FieldsAfterLongitude | transport-catalogue/input_reader.cpp:68-84 | a line whose longitude is followed by ", " and fields has those fields as its distances |
| InputReader.StopLineFollowed | transport-catalogue/input_reader.cpp:64-68 | a written stop line with fields names its stop, and the first cut leaves the longitude and the fields |
| InputReader.DistanceLineRoundTrip | transport-catalogue/input_reader.cpp:61-86 | reading a written stop line with distance fields gives back its name and exactly those fields |
| InputReader.WithoutMParts | transport-catalogue/input_reader.cpp:72-73 | a field without 'm' is read whole by stoi, and npos + 5 wraps to 4 |
| InputReader.EntryAtWithoutM | transport-catalogue/input_reader.cpp:72-74 | a field without 'm' or ',' is its stoi and the text from position 4 on, or a throw |
| InputReader.EntriesWithoutM | transport-catalogue/input_reader.cpp:81-84 | such a text read as the last field gives that one entry, or throws |
| InputReader.StoiOfLongitude | transport-catalogue/input_reader.cpp:81 | stoi reads the longitude "37.20829" as 37 |
| InputReader.LongitudeAsDistance | transport-catalogue/input_reader.cpp:81-84 | the longitude "37.20829" read as a field is 37 metres to "0829", and "2" throws |
| InputReader.LineWithoutDistances | transport-catalogue/input_reader.cpp:68-84 | as written, "Stop A: 55.611087, 37.20829" gets a distance of 37 to "0829" and "Stop A: 1, 2" throws; corrected, both have no distances |
| InputReader.DistanceListAsWritten | transport-catalogue/input_reader.cpp:68-84 | the distance fields cut as written, with the wrapping positions; LineWithoutDistances and StopLineDistances state where it differs from DistanceList |
| InputReader.ReadFields | transport-catalogue/input_reader.cpp:71-84 | the loop throws exactly when Entries does, and otherwise pairs the source stop with every field's stop and value |
| InputReader.EntriesFail | transport-catalogue/input_reader.cpp:72-73 | a field that throws makes the whole list throw |
| InputReader.EntriesCut | transport-catalogue/input_reader.cpp:78 | a ',' with less than two characters after it throws |
| InputReader.EntriesStep | transport-catalogue/input_reader.cpp:71-79 | one turn of the field loop reads one entry and goes on after ", " |
| InputReader.ResolvesStep | transport-catalogue/input_reader.cpp:76 | pushing the looked-up distance keeps the pairing of fields and distances |
| InputReader.GetDistanceQuery | transport-catalogue/input_reader.cpp:61-86 | the method throws exactly when DistanceList does, and otherwise returns its distances with both stops looked up |
| InputReader.ReadLine | transport-catalogue/input_reader.cpp:90-99 | what getline leaves in the string fits in a std::string |
| InputReader.FirstNonSpace | transport-catalogue/input_reader.cpp:102 | find_first_not_of(' ') gives the first non-space position, and npos exactly when the line is all spaces |
| InputReader.Requests | transport-catalogue/input_reader.cpp:88-112 | the stop and bus lines gathered fit in std::string |
| InputReader.ParsedStopsFails | transport-catalogue/input_reader.cpp:114-117 | one stop line that throws makes the stop pass throw |
| InputReader.ParsedStopsAll | transport-catalogue/input_reader.cpp:114-117 | when every stop line reads, the pass gives each line's stop, in order |
| InputReader.ParsedStopsIff | transport-catalogue/input_reader.cpp:114-117 | the stop pass finishes exactly when every stop line reads |
| InputReader.LineDistancesNext | transport-catalogue/input_reader.cpp:119-123 | one more stop line appends its distances |
| InputReader.LineDistancesFails | transport-catalogue/input_reader.cpp:119-123 | one stop line whose distances throw makes the distance pass throw |
| InputReader.LineDistancesAll | transport-catalogue/input_reader.cpp:119-123 | when every line's distances read, the distance pass finishes |
| InputReader.LineDistancesIff | transport-catalogue/input_reader.cpp:119-123 | the distance pass finishes exactly when every line's distances read |
| InputReader.Routes | transport-catalogue/input_reader.cpp:125-127 | each bus line's route, in order |
| InputReader.BusesOfFails | transport-catalogue/input_reader.cpp:125-127 | a bus line that throws or names an unknown stop stops the bus pass |
| InputReader.BusesOfAll | transport-catalogue/input_reader.cpp:125-127 | when every bus line reads and names known stops, the pass adds one bus per line, in order |
| InputReader.BusesOfLoaded | transport-catalogue/input_reader.cpp:125-127 | the bus pass finishes exactly when every bus line reads and names only known stops |
| InputReader.BusesOfNext | transport-catalogue/input_reader.cpp:125-127 | one more bus line throws, is undefined, or adds its bus |
| InputReader.BusesOfSettled | transport-catalogue/input_reader.cpp:125-127 | once the bus pass has stopped, later lines do not change how it ended |
| InputReader.ResolvesNames | transport-catalogue/input_reader.cpp:76 | looking stops up in the catalogue is looking their names up among its stops' names |
| InputReader.LoadStops | transport-catalogue/input_reader.cpp:114-117 | the loop adds the stops of every stop line, in order, and reports whether all of them read; buses and distances are unchanged |
| InputReader.LoadDistances | transport-catalogue/input_reader.cpp:119-123 | the loop records the distances of every stop line, in order, the first value for a pair kept; stops and buses are unchanged |
| InputReader.LoadBus | transport-catalogue/input_reader.cpp:126 | a bus line throws, is undefined (unknown stop), or adds its bus; stops' places and distances are unchanged |
| InputReader.LoadBuses | transport-catalogue/input_reader.cpp:125-127 | the loop ends as BusesOf says and appends its buses |
| InputReader.GatheredNext | transport-catalogue/input_reader.cpp:98-112 | one more read skips an empty line, throws on a blank one, and files a trimmed line as a bus line exactly when it starts with "Bus" |
| InputReader.GatheredThrows | transport-catalogue/input_reader.cpp:98-112 | once gathering has thrown it stays thrown |
| InputReader.GatheredBlank | transport-catalogue/input_reader.cpp:101-103 | a line of spaces only makes substr(npos) throw |
| InputReader.GatheredNoBlank | transport-catalogue/input_reader.cpp:98-112 | without a blank line, gathering finishes |
| InputReader.GatheredThrowsIff | transport-catalogue/input_reader.cpp:98-112 | gathering throws exactly when one of the lines read is blank |
| InputReader.GatheredSorted | transport-catalogue/input_reader.cpp:98-112 | every non-empty line read lands in exactly one list, trimmed, stop lines and bus lines apart |
| InputReader.GatherLines | transport-catalogue/input_reader.cpp:98-112 | the reading loop computes Gathered |
| InputReader.ReadRequests | transport-catalogue/input_reader.cpp:89-112 | an empty count line gathers nothing, a count stoi cannot read throws, and otherwise the announced lines are gathered |
| InputReader.LoadRequests | transport-catalogue/input_reader.cpp:114-127 | all stops, then all distances, then all buses; a throw or undefined behaviour ends the loading where it happens |
| InputReader.InputStream | transport-catalogue/input_reader.cpp:88-129 | a throw while reading the lines changes nothing; otherwise the catalogue is loaded from them as LoadRequests says |
| Router.Graph.constructor | transport-catalogue/transport_router.cpp:19 | the graph is created with 2 vertices per stop and no edges |
| Router.Graph.AddEdge | transport-catalogue/transport_router.cpp:78 | AddEdge appends the edge and returns its index as the new edge's id |
| Router.WaitRangesNumbered | transport-catalogue/transport_router.cpp:12-17 | the k-th stop handed out gets vertices 2k (wait start) and 2k + 1 (wait end) |
| Router.NumberStops | transport-catalogue/transport_router.cpp:12-17 | the numbering loop computes WaitRanges of the stop order |
| Router.WaitRangesStep | transport-catalogue/transport_router.cpp:14-16 | one turn of the loop gives the next stop the next two vertices |
| Router.WaitRangeShape | transport-catalogue/transport_router.cpp:14-16 | every numbered stop has some position k and the vertices 2k and 2k + 1 |
| Router.WaitRangesDisjoint | transport-catalogue/transport_router.cpp:12-19 | each stop's wait start is below its wait end, both below 2 per stop, and two stops share no vertex |
| Router.WaitRangeParity | transport-catalogue/transport_router.cpp:14-15 | wait starts are even, wait ends are odd and follow their start |
| Router.RideTimeScales | transport-catalogue/transport_router.cpp:98 | a ride's weight times the velocity in metres per minute is its distance |
| Router.ReverseCovers | transport-catalogue/transport_router.cpp:87-89 | the reversed route of a bus that is not a roundtrip stays within the numbered stops |
| Router.RideRowsLength | transport-catalogue/transport_router.h:59-71 | the first i turns of the outer loop add RowStart(n, i) edges |
| Router.RowStartClosedForm | transport-catalogue/transport_router.h:59-71 | twice the edges added by the first i turns is i (2n - 1 - i) |
| Router.DirectionEdgeCount | transport-catalogue/transport_router.h:57-72 | one direction of a route of n stops adds n (n - 1) / 2 edges |
| Router.RideRowsSplit | transport-catalogue/transport_router.h:59-71 | the edges of the first count turns are those of count - 1 turns followed by the last turn's row |
| Router.DirectionEdgeAt | transport-catalogue/transport_router.h:59-71 | the ride from stop i to stop j sits at Position(n, i, j) |
| Router.DirectionEdgeOnly | transport-catalogue/transport_router.h:59-71 | every added edge is the ride for some pair i < j |
| Router.RowStartMonotone | transport-catalogue/transport_router.h:59-71 | an earlier row ends before a later row starts |
| Router.PositionOrdered | transport-catalogue/transport_router.h:59-71 | edges are added in lexicographic order of (i, j) |
| Router.RideEdgeMeasures | transport-catalogue/transport_router.h:63-69 | the ride from i to j goes from i's wait end to j's wait start, spans j - i stops, and weighs the summed road distance over the speed |
| Router.RideWeightMonotone | transport-catalogue/transport_router.h:63-67 | from a fixed start, riding further never weighs less (while the size_t sum does not wrap) |
| Router.DivideMonotone | transport-catalogue/transport_router.cpp:98 | dividing by the positive speed keeps the order of distances |
| Router.BusEdgeCount | transport-catalogue/transport_router.cpp:83-91 | a bus of n stops adds n (n - 1) / 2 edges, twice as many when it is not a roundtrip |
| Router.Parity | transport-catalogue/transport_router.cpp:14-15 | 2k is even and 2k + 1 odd |
| Router.WaitEdgeWellFormed | transport-catalogue/transport_router.cpp:77-80 | a wait edge joins two vertices of the graph |
| Router.RideEdgeWellFormed | transport-catalogue/transport_router.h:67 | a ride edge joins two vertices of the graph |
| Router.EdgesOf | transport-catalogue/transport_router.cpp:78 | the graph's edges are the labelled edges' edges, in order |
| Router.InfoOf | transport-catalogue/transport_router.cpp:79 | edge_id_to_edge_ has exactly the edge ids, each with its label |
| Router.NothingTracked | transport-catalogue/transport_router.cpp:19 | a fresh graph has no edges and no labels |
| Router.Track | transport-catalogue/transport_router.cpp:78-79 | adding an edge appends it and labels its new id |
| Router.TransportRouter.constructor | transport-catalogue/transport_router.cpp:9-25 | the router numbers the stops, adds a wait edge per stop, then the ride edges of every bus, and each id's label is its edge's |
| Router.TransportRouter.AddLabelled | transport-catalogue/transport_router.cpp:78-79 | the edge is added and its id labelled; nothing else changes |
| Router.TransportRouter.AddEdgeToStops | transport-catalogue/transport_router.cpp:76-81 | one wait edge per stop, from its wait start to its wait end, weighing the wait time, labelled with the stop's name |
| Router.TransportRouter.AddEdgeToBuses | transport-catalogue/transport_router.cpp:83-91 | each bus adds its rides forward, and backward too when it is not a roundtrip |
| Router.TransportRouter.AddBus | transport-catalogue/transport_router.cpp:84-89 | one bus adds BusEdges |
| Router.TransportRouter.CreateRouteFromStops | transport-catalogue/transport_router.cpp:93-101 | the edge goes from the start's wait end (odd) to the end's wait start (even), within the graph, and weighs the distance over the speed in metres per minute |
| Router.TransportRouter.MakeEdgesFromBuses | transport-catalogue/transport_router.h:57-72 | the loops add one ride edge for every pair i < j of the route, in order |
| Router.TransportRouter.MakeRow | transport-catalogue/transport_router.h:63-70 | the inner loop adds the rides from stop i to every later stop |
| Router.TransportRouter.AddRide | transport-catalogue/transport_router.h:64-69 | one inner turn adds the distance of the next hop (mod 2^64) and the ride with its span |
| Router.TransportRouter.GetRouteAtStop | transport-catalogue/transport_router.cpp:31-37 | a stop has a wait range exactly when it was numbered, and then it is 2k and 2k + 1 for its position k |
| Router.TransportRouter.GetEdgeAt | transport-catalogue/transport_router.cpp:27-29 | an id has a label exactly when it is an edge; the label's time is the edge's weight, and it is a stop edge exactly when the edge leaves an even vertex |
| Router.TransportRouter.GetRouteGraphInfo | transport-catalogue/transport_router.cpp:39-54 | there is an answer exactly when a route was built; its time is the route's weight and its items are the labels of the route's edges, alternating wait and ride |
| Router.TransportRouter.Itinerary | transport-catalogue/transport_router.cpp:46-48 | each edge of the route is replaced by its label, in order |
| Router.TransportRouter.ItineraryTime | transport-catalogue/transport_router.cpp:44-48 | the labels' times add up to the route's weight |
| Router.TransportRouter.ItineraryAlternates | transport-catalogue/transport_router.cpp:40-48 | a route from a wait start alternates wait and ride items, starting with a wait |
| Router.TransportRouter.PathParity | transport-catalogue/transport_router.cpp:40 | the k-th edge of a route from a wait start leaves a vertex of the parity of k |
| Router.WaitEdgesStep | transport-catalogue/transport_router.cpp:77-80 | one turn of the wait loop appends the next wait edge |
| Router.AllBusEdgesStep | transport-catalogue/transport_router.cpp:84-90 | one turn of the bus loop appends that bus's edges |
| Router.AccumulateStep | transport-catalogue/transport_router.h:64 | adding the next hop to the running size_t sum gives the segment distance mod 2^64 |
| Router.RideRowsStep | transport-catalogue/transport_router.h:59-71 | one outer turn appends one row |
| Router.RideRowStep | transport-catalogue/transport_router.h:63-70 | one inner turn appends one ride |
| Router.OrdersCovered | transport-catalogue/transport_router.cpp:11-21 | the stop and bus orders handed out cover every stop of every bus, as the loops need |
| Router.StopOrderWithin | transport-catalogue/transport_router.cpp:77 | every stop the wait loop visits is numbered and in the catalogue |
| Router.BusOrderCovered | transport-catalogue/transport_router.cpp:84 | every bus's stops are numbered |
| Router.WaitEdgesFirst | transport-catalogue/transport_router.cpp:20-21 | the wait edges come first: an id is a stop edge exactly when it is below the number of stops |
| Router.WaitEdgesAreStopEdges | transport-catalogue/transport_router.cpp:77-80 | the wait loop adds one stop edge per stop |
| Router.RideRowsBusKind | transport-catalogue/transport_router.h:69 | the ride loops add only bus edges |
| Router.AllBusEdgesAreBusEdges | transport-catalogue/transport_router.cpp:83-91 | the bus loop adds only bus edges |
| Catalogue.StopNames | transport-catalogue/serialization.cpp:7-9 | the names the search compares against, in catalogue order |
| Serialization.FirstNamed | transport-catalogue/serialization.cpp:6-12 | find_if gives the first position holding the name, or the end |
| Serialization.CalculateDistance | transport-catalogue/serialization.cpp:6-12 | the id is the first stop with that name (or the stop count), truncated to uint32 |
| Serialization.GetStopIsFirstNamed | transport-catalogue/serialization.cpp:95-96 | GetStop of a name is the first stop under that name |
| Serialization.EncodeRoute | transport-catalogue/serialization.cpp:41-44 | each route stop becomes an id, one per stop, each naming a stop |
| Serialization.EncodeDistance | transport-catalogue/serialization.cpp:56-62 | a distance's ends become ids no later than the stops they came from |
| Serialization.EncodeDistances | transport-catalogue/serialization.cpp:52-65 | one message per distance, in iteration order, both ends naming stops |
| Serialization.SerializeBus | transport-catalogue/serialization.cpp:37-49 | the loop computes EncodeBus |
| Serialization.EncodeBus | transport-catalogue/serialization.cpp:37-49 | a bus message: name, the ids of its stops in riding order, flag and stored length; CatalogueRoundTrip states that DecodeBus reads it back |
| Serialization.SerializeStops | transport-catalogue/serialization.cpp:21-33 | the loop computes EncodeStops |
| Serialization.SerializeBuses | transport-catalogue/serialization.cpp:35-50 | one message per bus, in catalogue order |
| Serialization.SerializeDistances | transport-catalogue/serialization.cpp:52-65 | the loop computes EncodeDistances |
| Serialization.SerializeTransportCatalogue | transport-catalogue/serialization.cpp:14-68 | the message holds the encoded stops, buses and distances |
| Serialization.MessageNames | transport-catalogue/serialization.cpp:81 | the stop names of a message, in order |
| Serialization.DecodeStop | transport-catalogue/serialization.cpp:114-115 | an id is resolved to the first stop under its name |
| Serialization.DecodeRoute | transport-catalogue/serialization.cpp:113-116 | each id becomes a stop with the same name |
| Serialization.DecodeRoutes | transport-catalogue/serialization.cpp:107-122 | every bus message's route decoded, in order |
| Serialization.FirstNamedOfCanonical | transport-catalogue/serialization.cpp:6-12 | a stop that is the first under its name gets its own position as id |
| Serialization.RouteRoundTrip | transport-catalogue/serialization.cpp:41-44 | a route of first-named stops decodes back to itself |
| Serialization.DistancesRoundTripPrefix | transport-catalogue/serialization.cpp:52-65 | decoding the messages of some distinct keys gives the table restricted to those keys |
| Serialization.DistancesRoundTrip | transport-catalogue/serialization.cpp:52-65 | the distance table round-trips |
| Serialization.LoadStops | transport-catalogue/serialization.cpp:77-86 | the loop adds one stop per message, in order, with its name and coordinates |
| Serialization.ResolveDistances | transport-catalogue/serialization.cpp:91-101 | each message becomes the distance between the stops its ids name |
| Serialization.ResolveDistance | transport-catalogue/serialization.cpp:93-98 | one message becomes its decoded distance |
| Serialization.LoadDistances | transport-catalogue/serialization.cpp:91-105 | the distances are recorded in message order; stops and buses are unchanged |
| Serialization.ResolveRoute | transport-catalogue/serialization.cpp:113-116 | the loop computes DecodeRoute |
| Serialization.DecodeBuses | transport-catalogue/serialization.cpp:107-122 | every bus message decoded, in order |
| Serialization.LoadBus | transport-catalogue/serialization.cpp:109-121 | one bus message appends its decoded bus; the distances are unchanged |
| Serialization.DecodeBus | transport-catalogue/serialization.cpp:109-121 | a decoded bus: name, the stops resolved by GetStop, flag, and the length recomputed from the table; CatalogueRoundTrip states that it inverts EncodeBus |
| Serialization.UnknownRoadEndUnresolved | transport-catalogue/json_reader.cpp:295-302 | a JSON road_distances entry naming an unknown stop records a key with a null end, which is not Resolved and which serialization.cpp:56-60 would dereference |
| Serialization.VisitsStep | transport-catalogue/serialization.cpp:121 | after one more bus, each stop's bus list is that of one more route |
| Serialization.DecodedBusesStep | transport-catalogue/serialization.cpp:107-122 | one more turn appends the next decoded bus |
| Serialization.LoadBuses | transport-catalogue/serialization.cpp:107-122 | the loop appends every decoded bus and records each bus at the stops it visits |
| Serialization.DeserializeTransportCatalogue | transport-catalogue/serialization.cpp:70-125 | the new catalogue holds the message's stops, its distances, then its buses with their lengths recomputed from the complete table |
| Serialization.CatalogueRoundTrip | transport-catalogue/serialization.cpp:14-125 | storing and loading keeps the stops' names, the distance table and every bus, whose length becomes its route distance |
| Serialization.DeserializeColor | transport-catalogue/serialization.cpp:158-189 | the rgb part wins, then the rgba part, otherwise the colour name |
| Serialization.SerializeColor | transport-catalogue/serialization.cpp:127-156 | the none flag is set exactly for "no colour", and loading gives the colour back, except "no colour" comes back as the empty name |
| Serialization.SerializePalette | transport-catalogue/serialization.cpp:217-220 | every palette colour reads back as ReadBackColor |
| Serialization.DeserializeRoutingSettings | transport-catalogue/serialization.cpp:262-269 | both fields are copied |
| Serialization.SerializeRoutingSettings | transport-catalogue/serialization.cpp:253-260 | the routing settings round-trip |

## Left out

- InputReader.GetStopQuery: `std::stod` for the two coordinates (input_reader.cpp:17-18) is the parameter `parseDouble`. The model does not fix which texts it accepts or what values it gives.
- InputReader.InputStream: the `is_roundtrip` flag of a bus read from text is never assigned (input_reader.cpp:26; `Bus` in domain.h:26-30 has no initializer). Reading it is undefined, so the model takes it as the parameter `unsetFlag`. The route length and the router's reverse edges of such a bus depend on that value.
- InputReader.LoadBuses: because of the unset flag above, the model does not say whether a text-read bus counts as a roundtrip.
- InputReader.GetBusQuery: `STOP_NAME_POS` and `BUS_NAME_POS` are not defined in any file of this model. They are taken as 5 and 4, the lengths of "Stop " and "Bus ", and 5 is also the length of "m to ".
- JsonLoad.LoadNumber: an out-of-range `stod` (json.cpp:119, e.g. "1e400") throws ParsingError in the source. The model reads every well-formed numeral as its exact real value and does not model that error.
- JsonLoad.LoadNumber: doubles are exact reals, not IEEE doubles, so rounding is not modelled.
- Json.PrintString: characters are Unicode code points, whereas the source iterates over the bytes of a UTF-8 string. The escaped characters are all ASCII, so only non-ASCII text differs in representation.
- Svg.DataShielding: characters are code points rather than bytes, as for Json.PrintString.
- Json.Print: a double is written through the parameter `formatDouble`, which stands for the stream's floating-point formatting.
- Router.TransportRouter.GetRouteGraphInfo: the shortest-path search (`BuildRoute` in router.h, which is not part of this model) is the argument `built`. Its contract `IsRoute` says it is none or a path of edge ids between the two wait-start vertices whose weights sum to its weight. Optimality is not modelled.
- Router.TransportRouter.GetRouteGraphInfo: requires both stops to be registered, because transport_router.cpp:40 dereferences `GetRouteAtStop(...)` unchecked.
- Router.Graph.AddEdge: the graph container (graph.h, not part of this model) is an append-only edge list whose AddEdge returns the previous edge count.
- Router.TransportRouter.constructor: requires a positive bus velocity. The source divides by `bus_velocity * 1000 / 60` (transport_router.cpp:98) without checking it. Edge weights are exact reals, not IEEE doubles.
- Router.TransportRouter.constructor: the iteration orders of `stops_associative_`, `stop_to_route_` and `buses_associative_` are the parameters `stopOrder`, `routeOrder` and `busOrder`, each required to enumerate its container.
- RequestHandler.Render: the iteration orders of the bus and stop dictionaries are the parameters `busOrder` and `stopOrder`.
- RequestHandler.GetStopQuery: the iteration order of a stop's unique-bus set is the parameter `order`.
- Catalogue.TransportCatalogue.GetStopQuery: the iteration order of a stop's unique-bus set is the parameter `order`, as above.
- Serialization.SerializeTransportCatalogue: the iteration order of the distance hash map is the parameter `order`.
- Serialization.SerializeTransportCatalogue: requires Resolved for every distance key, so both ends are non-null stops. That case is reachable: a JSON stop request whose "road_distances" names a stop the catalogue lacks stores a key with a null end (json_reader.cpp:298-302, transport_catalogue.cpp:29-31), as Serialization.UnknownRoadEndUnresolved shows. serialization.cpp:56-60 then dereferences that null end, which is undefined, and the model does not say what the message holds.
- Serialization.DeserializeTransportCatalogue: requires `WellIndexed`, i.e. every stop id in a bus or distance message names a stored stop. serialization.cpp:95-96 and 114 index `stops_tmp[...]` unchecked, which is undefined for a bad id.
- Catalogue.TransportCatalogue.GetBusQuery: the curvature is left out. It needs `GetRouteLength` (transport_catalogue.cpp:104-117) and `geo::ComputeDistance` (geo.cpp), which use floating-point trigonometry.
- RequestHandler.MakeBusNode: the curvature is a parameter for the same reason.
- RequestHandler.MakeMapNode: the SVG text of a "Map" answer is a parameter. Projecting stops (`SphereProjector`) and drawing them (map_renderer.cpp) are floating-point rendering. Render states which buses and stops are handed to the drawing calls, with which palette index.
- RequestHandler.RequestHandler.HandleRequestType: `GetStopsCoordinates` (request_handler.cpp:7-22) only feeds that projection and is left out.
- JsonReader.ParseNodeRender: the scalar settings (width, height, padding, radii, font sizes, offsets, underlayer width; json_reader.cpp:160-198) are doubles copied from the document. The model tracks only whether reading them throws or reads past an array, and the colours.
- JsonReader.ParseNode: the `std::cout` diagnostics of json_reader.cpp are side output and are not modelled.
- JsonReader.ParseNodeBase: after undefined behaviour (a null stop dereferenced, a read past the end of a vector) the model stops loading and reports `Undefined`. What the program would do next is not modelled.
- InputReader.LoadRequests: undefined behaviour ends loading in the same way.
- InputReader.LoadDistances: stop lines are cut with the corrected DistanceList (Findings row 3), not with the code at input_reader.cpp:68-84. On "Stop A: 55.611087, 37.20829" the source records a distance of 37 from A to GetStop("0829"), a null stop, where the model records nothing. On "Stop A: 1, 2" the source's substr throws out_of_range, where the model records nothing and goes on.
- InputReader.LoadRequests: for the same reason the out_of_range thrown by "Stop A: 1, 2" in the distance loop (input_reader.cpp:119-123) does not end the model's loading.
- InputReader.InputStream: loads through LoadRequests, so it shares the corrected distance cut of the two lines above; nothing in InputStream catches the source's out_of_range.
- Catalogue.TransportCatalogue.AddBus: stores a route without stops with length 0, where the source reads past its end (transport_catalogue.cpp:68-75, 93-117). JSON loading stops as undefined before such a call (JsonReader.EmptyBusUndefined) and a text bus line always has a stop; only a deserialised bus message with no stop ids reaches it.
- Svg.Document.Render: objects render through their own text. Stroke and fill attributes and the formatting of coordinates (doubles) are not modelled.
- Json.PrintString: writing to an `ostream` is the string a method returns.
- Serialization.CatalogueRoundTrip: the protobuf stream calls (serialization.cpp:271-293) and the render-settings scalars are left out. Messages are plain datatypes.
- Catalogue.TransportCatalogue.AddBus: `transport_catalogue.cpp:19` sets `route_length`, which `domain.h:26-30` lacks, and `transport_router.h:42` declares `MakeEdgeToBus` where the body defines `CreateRouteFromStops`. The model follows the function bodies throughout.
- JsonBuilder.Builder.AddNode: `json_builder.cpp` uses `IsDict`/`AsDict` where `json.h` declares `IsMap`/`AsMap`. These are taken as the same accessors.
- main.cpp, stat_reader.cpp and map_renderer.cpp are not part of this model: console I/O, formatting and drawing.

## Findings

| source | as written | input that shows it | evidently intended | confidence | as-written member | corrected member |
|---|---|---|---|---|---|---|
| transport-catalogue/transport_catalogue.cpp:93-102 | the loop bound `STOPS_SIZE - 1u` is a size_t, so for a bus with no stops it wraps to 2^64 - 1 and the loop reads `stops[0]` and `stops[1]` of an empty vector | a JSON bus `{"type": "Bus", "name": "X", "stops": [], "is_roundtrip": true}`, whose AddBus computes its route distance | a route without stops has distance 0; the fix also needs GetRouteLength (transport_catalogue.cpp:104-117), which AddBus calls first through GetRouteInfo (transport_catalogue.cpp:68-75) and whose `next(bus->stops.begin())` already passes the end of an empty route (that length is not modelled) | not executed | Catalogue.EmptyRouteOverruns | Catalogue.TransportCatalogue.GetRouteDistance |
| transport-catalogue/json_reader.cpp:266-272 | for a bus that is not a roundtrip, `size = bus.stops.size() - 1u` wraps to 2^64 - 1 when "stops" is empty, and the loop reads `stops[size - 1]` far past the end | `{"type": "Bus", "name": "X", "stops": [], "is_roundtrip": false}` | an empty route stays empty | not executed | JsonReader.EmptyStopsOverrun | JsonReader.RouteOf |
| transport-catalogue/input_reader.cpp:68-84 | the second cut skips two past the next ',' even when the longitude is the last field: npos + 2 wraps to 1, the longitude is parsed as a "<D>m to <name>" field, and npos + 5 wraps to 4 | "Stop A: 55.611087, 37.20829" gives a distance of 37 to a stop named "0829"; "Stop A: 1, 2" throws out_of_range | a stop line without distance fields has no distances | not executed | InputReader.LineWithoutDistances | InputReader.GetDistanceQuery |
