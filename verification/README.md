# Transport catalogue, modelled in Dafny

A model of the core of a C++ transport catalogue: a directory of bus stops and bus
lines that answers line and stop queries, builds a routing graph over the lines,
saves and restores itself, reads its own JSON and line-format input, and draws the
network as an SVG map. One Dafny module per source file:

- `Catalogue` (`catalogue.dfy`): the stop and line registry. Stops are interned by
  name. A road distance named before its target stop is known creates a placeholder
  stop at (0, 0), and the real definition patches it later. A line's effective
  traversal is derived from its stop names: out-and-back for a non-ring line. The
  line's road and geographic lengths are summed along that traversal. The model also
  covers the line statistics and the lines-through-a-stop query.
  The model follows the code where a distance to a stop that is still a placeholder
  (`transport_catalogue.cpp:116`) gives that stop the coordinates of the stop being
  added and clears its placeholder mark. A later definition of that stop then appends
  a new record.
- `TransportRouter` (`router.dfy`): the weighted edges each line contributes to the
  routing graph, and the conversion of a shortest-path answer into wait and ride
  items.
- `Serialization` (`serialization.dfy`): the mapping between the catalogue, settings,
  graph and router table and their serialized records, with round-trip theorems.
- `Json` (`json.dfy`): the recursive-descent JSON reader, the node accessors and the
  string printer.
- `JsonBuilder` (`json_builder.dfy`): the fluent JSON builder as a stack machine.
- `InputReader` (`input_reader.dfy`): splitting `Stop` and `Bus` text lines. The
  `std::string` position arithmetic is modelled modulo 2^64.
- `Svg` (`svg.dfy`): SVG objects, attribute rendering, XML escaping and document
  rendering.
- `MapRenderer` (`map_renderer.dfy`): which polylines, labels, circles and stop names
  the map contains, in which order and in which palette colour.
- `Wrappers` and `Text` hold the shared `Option`/`Result` types and small
  sequence-concatenation lemmas.

Doubles are modelled as reals. The following are function parameters of the
operations that use them, not modelled code:

- the geographic distance and the sphere projection;
- text-to-number conversion (`stod`, `stoi`) in the input parser, while the JSON reader models their range errors;
- number-to-text formatting;
- the shortest-path router.

## Model

| member | source | states |
|---|---|---|
| Catalogue.PlaceStringName | transport-catalogue/transport_catalogue.cpp:15-19 | the returned name equals the argument and is now in the pool; the pool only grows, by exactly one element for a new name |
| Catalogue.InternTwice | transport-catalogue/transport_catalogue.cpp:15-19 | interning a name a second time changes nothing |
| Catalogue.DistanceByRoad | transport-catalogue/transport_catalogue.cpp:66-76 | the directed entry (a, b) when recorded, else the reverse entry (b, a), else 0 |
| Catalogue.DistanceOneSidedIsSymmetric | transport-catalogue/transport_catalogue.cpp:66-76 | a distance recorded in one direction only is read the same both ways |
| Catalogue.DistanceBothSidedIsDirected | transport-catalogue/transport_catalogue.cpp:66-76 | when both directions are recorded, each direction reads its own entry |
| Catalogue.FindStop | transport-catalogue/transport_catalogue.cpp:111-113 | a stop is found exactly for a registered name, and it is a record of the catalogue carrying that name |
| Catalogue.PatchPlaceholder | transport-catalogue/transport_catalogue.cpp:80-94 | the placeholder record of the name gets the new coordinates in place and leaves the placeholder set; nothing else changes |
| Catalogue.PlaceStop | transport-catalogue/transport_catalogue.cpp:98-105 | the name then resolves to a record with the given coordinates. A placeholder is patched in place; otherwise a record is appended and indexed. Every other stop keeps its record and index |
| Catalogue.AddKnownDistance | transport-catalogue/transport_catalogue.cpp:113-119 | the directed distance is recorded or overwritten. A neighbour still marked as a placeholder receives the coordinates of the stop being added and leaves the placeholder set |
| Catalogue.AddUnknownDistance | transport-catalogue/transport_catalogue.cpp:120-129 | a placeholder record at (0, 0) is appended, indexed and marked, and the directed distance to it is recorded |
| Catalogue.AddDistance | transport-catalogue/transport_catalogue.cpp:109-130 | one distance entry in either case. Existing indices are kept, existing real stops keep their records, and the neighbour is registered afterwards |
| Catalogue.AddDistances | transport-catalogue/transport_catalogue.cpp:107-131 | after all entries every neighbour is registered. Real stops stay real and unchanged, and only neighbours can become placeholders |
| Catalogue.AddDistancesRecords | transport-catalogue/transport_catalogue.cpp:109-130 | each distance to a neighbour named once is recorded and read back by `DistanceByRoad` in that direction |
| Catalogue.AddDistancesKeepsOtherEntries | transport-catalogue/transport_catalogue.cpp:109-130 | distances from the stop to neighbours not mentioned keep their value |
| Catalogue.AddStop | transport-catalogue/transport_catalogue.cpp:96-133 | the stop is then found with the given coordinates and is not a placeholder. It reuses a placeholder's index or takes the next one, all neighbours become registered, and every other real stop is unchanged |
| Catalogue.PlaceholderThenDefinition | transport-catalogue/transport_catalogue.cpp:96-133 | a stop first named as a neighbour is a (0, 0) placeholder. Its definition later fills in the same record and clears the mark |
| Catalogue.PlaceholderHasNoBuses | transport-catalogue/transport_catalogue.cpp:166-177 | a placeholder created by a distance is found but lies on no line |
| Catalogue.Expand | transport-catalogue/transport_catalogue.cpp:24-54 | a ring keeps the n given stops; otherwise 2n-1 stops, the given ones followed by positions n-2 down to 0 |
| Catalogue.ExpandSameElements | transport-catalogue/transport_catalogue.cpp:29-54 | the traversal begins with the given stops and holds no other stop |
| Catalogue.ForwardPass | transport-catalogue/transport_catalogue.cpp:29-47 | road sum = self-distance of the first stop + consecutive forward pairs; geographic sum over the forward pairs; every stop gets the line's name |
| Catalogue.BackwardPass | transport-catalogue/transport_catalogue.cpp:49-60 | the traversal becomes the out-and-back expansion, and the added road length is that of the backward pairs |
| Catalogue.AddStopToBus | transport-catalogue/transport_catalogue.cpp:21-64 | the line's traversal, its road length (including the first stop's self-distance, and the terminal self-distance for a non-ring line) and its geographic length (doubled for a non-ring line); each named stop gains the line |
| Catalogue.AddBus | transport-catalogue/transport_catalogue.cpp:135-144 | the line is registered under its name, and every named stop then lists it. Its statistics count 2n-1 or n stops, the distinct names given, and the road length |
| Catalogue.UniqueNames | transport-catalogue/transport_catalogue.cpp:150-158 | the distinct stop names on the traversal are exactly the distinct names given |
| Catalogue.BusInfo | transport-catalogue/transport_catalogue.cpp:146-164 | an unknown line gives the zero result. A known line gives its name, traversal length, distinct-name count and road length, with curvature = road / geographic length |
| Catalogue.BusesInStop | transport-catalogue/transport_catalogue.cpp:166-177 | not found exactly for an unknown name; no lines exactly when the stop is on no line; otherwise the stop's non-empty set of line names |
| TransportRouter.TakeWeightEdge | transport-catalogue/transport_router.cpp:64-68 | a hop's minutes are non-negative for a non-negative distance and a positive speed, and 0 for a zero distance |
| TransportRouter.PathWeightAtLeastWait | transport-catalogue/transport_router.cpp:91-97 | when road distances are non-negative and the speed positive, every edge between two stops of a line weighs at least the wait time, in both directions |
| TransportRouter.PathWeightSplit | transport-catalogue/transport_router.cpp:95-97 | edge weights are prefix sums: a span split at an intermediate stop weighs the sum of the parts minus one wait |
| TransportRouter.RowsMembers | transport-catalogue/transport_router.cpp:90-102 | the edges of the first k rows are exactly the pair edges with start below k |
| TransportRouter.LineEdgesMembers | transport-catalogue/transport_router.cpp:85-127 | an edge is emitted for a line exactly when it is a forward pair edge, or a backward one on a non-ring line, or the terminal transfer edge |
| TransportRouter.LineEdgesCount | transport-catalogue/transport_router.cpp:85-127 | a line of n stops emits n(n-1)+1 edges, or n(n-1)/2+1 for a ring |
| TransportRouter.LineEdgesShape | transport-catalogue/transport_router.cpp:100-126 | every emitted edge joins stops of the catalogue and names the line, and every zero-span edge weighs exactly the wait |
| TransportRouter.DrawEdgeForSimpleRoute | transport-catalogue/transport_router.cpp:85-106 | the double loop emits exactly the non-ring edge sequence of the line |
| TransportRouter.DrawEdgeForRoundRoute | transport-catalogue/transport_router.cpp:109-127 | the double loop emits exactly the ring edge sequence of the line |
| TransportRouter.AllEdgesMembers | transport-catalogue/transport_router.cpp:71-82 | an edge is in the graph exactly when some line emits it |
| TransportRouter.BuildGraph | transport-catalogue/transport_router.cpp:71-82 | visiting every indexed line once, in the given order, the graph is their edges concatenated. Every edge of every indexed line is in the graph, and every graph edge belongs to an indexed line. All edges fit the catalogue, and zero-span edges weigh the wait |
| TransportRouter.EdgeItemsCounts | transport-catalogue/transport_router.cpp:49-55 | one wait per edge, then a ride exactly when the edge spans stops; the items' time is the edge weight (the wait for a transfer edge) |
| TransportRouter.ItemsOfShape | transport-catalogue/transport_router.cpp:46-56 | one wait per edge, one ride per spanning edge, and every ride directly after a wait. When every zero-span edge weighs the wait, the items' total time is the sum of the edge weights |
| TransportRouter.LegsStep | transport-catalogue/transport_router.cpp:46-56 | the items of one more edge read back as exactly one more leg: that edge's wait, and its ride when it spans stops |
| TransportRouter.ItemsOfLegs | transport-catalogue/transport_router.cpp:46-56 | the items of an answer read back as one leg per edge, in the answer's order. Leg k waits the bus wait time at the stop edge k leaves from, then, if edge k spans stops, rides its line for the edge weight less the wait over its span |
| TransportRouter.MarkedItemsCounts | transport-catalogue/transport_router.cpp:46-60 | the items of an answer, with the no-way marker appended or not, have one wait per edge and one ride per spanning edge; the marker is present exactly when appended, and then only last |
| TransportRouter.MarkedItemsLegs | transport-catalogue/transport_router.cpp:46-60 | appending the no-way marker leaves the legs read back unchanged: one per edge, in order |
| TransportRouter.GetItemsFromRouteInfo | transport-catalogue/transport_router.cpp:37-62 | no answer gives no route. Otherwise the total time is the answer's weight, with one wait per edge and one ride per spanning edge. Read back, the items are one leg per edge, in order, each with that edge's stop, line, time and span. A no-way marker is present exactly when the total time is 0, and only as the last item |
| TransportRouter.BuildRoute | transport-catalogue/transport_router.cpp:151-160 | no route when either stop name is unknown; otherwise a route exactly when the router answers, carrying its weight |
| Serialization.FindById | transport-catalogue/serialization.cpp:311-314 | a found record is listed and carries the requested id; nothing is found exactly when no listed record has it. Stops and lines (serialization.cpp:397) are looked up alike |
| Serialization.FindByIdFinds | transport-catalogue/serialization.cpp:311-314 | with unique ids, the id of any listed record finds that very record |
| Serialization.EncodeStrings | transport-catalogue/serialization.cpp:83-92 | one record per pooled name, pairing the name with its id |
| Serialization.DecodeStringIds | transport-catalogue/serialization.cpp:279-285 | the id table gains exactly the ids of the records |
| Serialization.InsertStrings | transport-catalogue/serialization.cpp:279-285 | the pool gains exactly the names of the records |
| Serialization.StringsRoundTrip | transport-catalogue/serialization.cpp:83-285 | reading back the saved strings rebuilds the pool, and with distinct ids every id maps back to its name |
| Serialization.EncodeStop | transport-catalogue/serialization.cpp:94-110 | name id, coordinates, raw and terminus flags and the explicit stop id are copied |
| Serialization.DecodeStop | transport-catalogue/serialization.cpp:287-301 | succeeds exactly for a known name id, restoring every field and the stored id |
| Serialization.StopRoundTrip | transport-catalogue/serialization.cpp:101-297 | a stop record decodes to itself |
| Serialization.EncodeBus | transport-catalogue/serialization.cpp:112-134 | the ordered stop ids, and the second terminus only when present. Name id, ring flag, lengths and line id are copied |
| Serialization.DecodeBus | transport-catalogue/serialization.cpp:303-325 | succeeds exactly when the name id and every stop id resolve. The stops come back in order by id, and an absent terminus stays absent |
| Serialization.BusRoundTrip | transport-catalogue/serialization.cpp:119-318 | a line record whose stops are all known decodes to itself |
| Serialization.DecodeEdge | transport-catalogue/serialization.cpp:389-401 | succeeds exactly when the owning line id resolves, copying endpoints, weight and span count; an unresolved id is a failure (see Left out) |
| Serialization.EncodeGraph | transport-catalogue/serialization.cpp:190-212 | one record per edge, in order, and the incidence lists as they are |
| Serialization.EdgesRoundTrip | transport-catalogue/serialization.cpp:193-411 | every edge of the graph decodes back to itself |
| Serialization.EncodeCell | transport-catalogue/serialization.cpp:220-237 | an absent cell is written as null; a present one as its weight with its previous edge or a null marker |
| Serialization.DecodeCell | transport-catalogue/serialization.cpp:425-442 | a cell is present exactly when data was written, with that weight and the previous edge exactly when one was written |
| Serialization.CellRoundTrip | transport-catalogue/serialization.cpp:218-443 | each of the three cell states survives a round trip |
| Serialization.EncodeRouter | transport-catalogue/serialization.cpp:214-243 | the table's shape is kept: as many rows, each with as many cells |
| Serialization.DecodeRouter | transport-catalogue/serialization.cpp:415-446 | as many rows as written. A row with cells is decoded cell by cell; a row without cells keeps the previous content |
| Serialization.RouterRoundTrip | transport-catalogue/serialization.cpp:419-443 | the router table decodes back to itself |
| Serialization.Save | transport-catalogue/serialization.cpp:52-72 | strings, stops, lines and distances are always written; each optional part exactly when it is set |
| Serialization.LoadCatalogue | transport-catalogue/serialization.cpp:268-271 | the string tables gain the records, and stops, lines and distances are appended after the existing ones |
| Serialization.LoadParts | transport-catalogue/serialization.cpp:272-275 | each optional part is loaded exactly when written; absent parts leave the loader as it was |
| Serialization.Load | transport-catalogue/serialization.cpp:260-277 | an unreadable file leaves everything untouched; otherwise the catalogue is loaded, then the optional parts |
| Serialization.StopsRoundTrip | transport-catalogue/serialization.cpp:287-301 | with the saved string table, every saved stop record decodes back to the catalogue's stop, in order |
| Serialization.BusesRoundTrip | transport-catalogue/serialization.cpp:303-325 | with the saved string table and stops, every saved line record decodes back to the catalogue's line, in order |
| Serialization.DistancesRoundTrip | transport-catalogue/serialization.cpp:327-337 | the saved distance records read back as the catalogue's distance list |
| Serialization.CatalogueRoundTrip | transport-catalogue/serialization.cpp:279-337 | loading the saved catalogue into a fresh loader succeeds and restores the catalogue |
| Serialization.PartsRoundTrip | transport-catalogue/serialization.cpp:339-446 | loading the saved optional parts restores both settings, the graph's edges and incidence lists and the router table, and leaves absent parts empty |
| Serialization.SaveLoadRoundTrip | transport-catalogue/serialization.cpp:52-277 | loading what was saved into a fresh loader restores the catalogue, both settings, the graph and the router table |
| Json.Unescape | transport-catalogue/json.cpp:165-184 | exactly the escapes n, t, r, quote and backslash are recognised |
| Json.LoadString | transport-catalogue/json.cpp:141-198 | on success the closing quote is consumed and no raw line break was crossed |
| Json.EscapeChar | transport-catalogue/json.cpp:504-528 | a character is copied when plain, otherwise written as a backslash and a character that unescapes back to it |
| Json.StringRoundTrip | transport-catalogue/json.cpp:141-198 | a printed string is read back as the same string, consuming exactly the printed text |
| Json.BadEscapeFails | transport-catalogue/json.cpp:156-184 | a backslash at the end of input or before an unknown escape makes the string fail |
| Json.LoadBool | transport-catalogue/json.cpp:200-219 | succeeds exactly when `true` or `false` is written at the cursor, with that value and length |
| Json.LoadNull | transport-catalogue/json.cpp:221-233 | succeeds exactly when `null` is written and followed by the end, a space or a comma |
| Json.ReadDigits | transport-catalogue/json.cpp:78-85 | fails unless a digit is at the cursor; otherwise reads the whole run of digits |
| Json.LexWhole | transport-catalogue/json.cpp:91-97 | a single `0` or a run of digits, and a digit is required |
| Json.LexFraction | transport-catalogue/json.cpp:101-107 | an optional fraction, which must hold at least one digit after the dot |
| Json.LexExponent | transport-catalogue/json.cpp:109-119 | an optional exponent of `e` or `E`, an optional sign and at least one digit |
| Json.LexNumber | transport-catalogue/json.cpp:63-120 | the consumed text is exactly the text of a well-formed number |
| Json.NumberRoundTrip | transport-catalogue/json.cpp:63-120 | the text of a well-formed number is lexed back to the same parts |
| Json.ToNumberNode | transport-catalogue/json.cpp:121-136 | an int exactly for a number without fraction or exponent that fits in `int`, otherwise a double of the same value |
| Json.ConvertNumber | transport-catalogue/json.cpp:121-136 | succeeds exactly when the number fits in `int` or its value is in the range of a double, giving the node above. Otherwise it fails with the message naming the text |
| Json.LoadNumber | transport-catalogue/json.cpp:63-137 | succeeds exactly when lexing succeeds and the lexed text converts, giving the converted int or double node |
| Json.LoadArray | transport-catalogue/json.cpp:39-61 | on success the closing bracket is consumed, and the array holds no null and extends what was read before |
| Json.KeepElement | transport-catalogue/json.cpp:46-49 | a null element is dropped and any other is appended |
| Json.StringsLoad | transport-catalogue/json.cpp:39-61 | from `[` or `,`, printed strings separated by commas and closed by `]` are appended in order, and the bracket is consumed |
| Json.EmptyArrayAt | transport-catalogue/json.cpp:39-61 | `[]` reads as the empty array and consumes both brackets |
| Json.ArrayRoundTrip | transport-catalogue/json.cpp:39-61 | a printed array of strings reads back as the array of those strings in order, consuming exactly its text |
| Json.NullElementDropped | transport-catalogue/json.cpp:39-61 | `[null,` followed by printed strings and `]` reads as the array of the strings alone: the null element is dropped |
| Json.LoneNullRejected | transport-catalogue/json.cpp:221-233 | `[null]` is a null parsing error, since the null reader stops only at a space, a comma or the end |
| Json.LoadDict | transport-catalogue/json.cpp:11-37 | on success the closing brace is consumed; an entry read earlier is never replaced, so the first value of a key wins |
| Json.DictValue | transport-catalogue/json.cpp:24-26 | the entries read before are kept with their values, and the cursor never moves back |
| Json.DictEntry | transport-catalogue/json.cpp:16-26 | the entries read before are kept with their values, and the cursor never moves back |
| Json.EntryThenNext | transport-catalogue/json.cpp:16-33 | for any text, a quoted key, a colon, a string value and a comma add the entry when the key is new and keep the old value otherwise, then reading goes on after the comma |
| Json.EntryThenClose | transport-catalogue/json.cpp:16-30 | for any text, a quoted key, a colon, a string value and `}` add the entry when the key is new and keep the old value otherwise, and end the dictionary after the brace |
| Json.EmptyDictAt | transport-catalogue/json.cpp:11-30 | `{}` reads as the empty dictionary and consumes both braces |
| Json.OneEntryRoundTrip | transport-catalogue/json.cpp:11-37 | the printed one-entry dictionary reads back as the map from its key to its string value, consuming exactly its text |
| Json.TwoEntriesRoundTrip | transport-catalogue/json.cpp:11-37 | the printed two-entry dictionary reads back as both entries, or only the first when the keys are equal, consuming exactly its text |
| Json.DuplicateKeyKeepsFirst | transport-catalogue/json.cpp:24-26 | a key written twice keeps its first value |
| Json.Load | transport-catalogue/json.cpp:628-631 | the document loads exactly when the root value does |
| Json.ClosingBracketAt | transport-catalogue/json.cpp:246-255 | after whitespace, a closing bracket or brace is an error at the top level and otherwise reads as null without being consumed |
| Json.SkipsWhitespace | transport-catalogue/json.cpp:239-244 | tab, carriage return, line feed and space before a value change nothing but where reading starts |
| Json.StringNodeRoundTrip | transport-catalogue/json.cpp:262-263 | a printed string, wherever a value is expected, reads back as that string node |
| Json.NumberNodeRoundTrip | transport-catalogue/json.cpp:271-273 | the text of a well-formed number, wherever a value is expected, reads back as its node when it converts. Otherwise it is the conversion error |
| Json.OutOfRangeFails | transport-catalogue/json.cpp:121-136 | a well-formed number that is neither an `int` nor in the range of a double is a parsing error wherever it is read |
| Json.HugeNumberFails | transport-catalogue/json.cpp:121-136 | the text `1e1024`, followed by a delimiter, is a conversion error |
| Json.AsInt | transport-catalogue/json.cpp:343-348 | succeeds exactly for an int node, with its value |
| Json.AsBool | transport-catalogue/json.cpp:350-356 | succeeds exactly for a bool node, with its value |
| Json.AsDouble | transport-catalogue/json.cpp:358-367 | succeeds for a double node with its value and for an int node with the value converted |
| Json.AsString | transport-catalogue/json.cpp:369-375 | succeeds exactly for a string node, with its text |
| Json.AsArray | transport-catalogue/json.cpp:385-391 | succeeds exactly for an array node, with its elements |
| Json.AsMap | transport-catalogue/json.cpp:393-399 | succeeds exactly for a dictionary node, with its entries |
| Json.NumberAsDouble | transport-catalogue/json.cpp:358-367 | any converted number, int or double, reads as a double of the value its text denotes |
| JsonBuilder.FreshIsWf | transport-catalogue/json_builder.cpp:4-8 | a new builder is a single root frame expecting an array, a dictionary or a value |
| JsonBuilder.CheckExpectedElement | transport-catalogue/json_builder.cpp:166-180 | a call is accepted exactly when its kind is expected by the top frame |
| JsonBuilder.StartDict | transport-catalogue/json_builder.cpp:10-25 | accepted exactly when a dictionary is expected. It pushes an empty dictionary frame expecting a key. Outside an array it empties the enclosing frame's node; inside an array the enclosing frame is unchanged. The frames below are unchanged |
| JsonBuilder.EndDict | transport-catalogue/json_builder.cpp:27-55 | accepted exactly when the top frame is a dictionary. The finished dictionary goes to the parent frame: under its key, appended to its array, or as the root. The frames below the parent are unchanged |
| JsonBuilder.StartArray | transport-catalogue/json_builder.cpp:57-81 | accepted exactly when an array is expected. It pushes an empty array frame. Inside an array it also appends an empty array to the parent; otherwise the enclosing frame is unchanged. The frames below are unchanged |
| JsonBuilder.EndArray | transport-catalogue/json_builder.cpp:83-111 | accepted exactly when the top frame is an array. The finished array goes to the parent frame: under its key, appended to its array, or as the root. The frames below the parent are unchanged |
| JsonBuilder.Close | transport-catalogue/json_builder.cpp:29-52 | popping an open container always succeeds, keeps the builder well formed and the count, hands the container to the frame below as its kind demands, and leaves the lower frames unchanged |
| JsonBuilder.Key | transport-catalogue/json_builder.cpp:113-123 | accepted exactly when a key is expected; the key becomes pending and a value, array or dictionary is then expected |
| JsonBuilder.Value | transport-catalogue/json_builder.cpp:125-150 | accepted exactly when a value is expected. It is appended in an array, stored under the pending key in a dictionary, and at the root it seals the root |
| JsonBuilder.Build | transport-catalogue/json_builder.cpp:152-163 | succeeds exactly when no container is open and something was added, giving the root |
| JsonBuilder.Step | transport-catalogue/json_builder.cpp:10-150 | every accepted call of the fluent interface keeps the builder well formed |
| JsonBuilder.BuildFromStep | transport-catalogue/json_builder.cpp:10-163 | a chain of calls continues from the builder an accepted first call leaves |
| JsonBuilder.KeyThenValue | transport-catalogue/json_builder.cpp:113-139 | a key followed by a value stores the value under the key and returns the frame to expecting a key |
| JsonBuilder.SealedRootRejects | transport-catalogue/json_builder.cpp:140-144 | after a root value every further add is rejected |
| JsonBuilder.ValueAtRoot | transport-catalogue/json_builder.cpp:140-163 | a lone value builds to itself and seals the builder |
| JsonBuilder.DictUnderKeyDropsEntries | transport-catalogue/json_builder.cpp:10-37 | the calls StartDict, Key("a"), Value(1), Key("b"), StartDict, EndDict, EndDict build `{"b": {}}`: the entry "a" is lost |
| JsonBuilder.NestedArrayDuplicated | transport-catalogue/json_builder.cpp:57-98 | the calls StartArray, StartArray, EndArray, EndArray build `[[], []]`: the inner array appears twice |
| JsonBuilder.EmptyDictUnderKeyAsWritten | transport-catalogue/json_builder.cpp:10-37 | for any builder with a pending key, an empty nested dictionary leaves only that key in the enclosing dictionary |
| JsonBuilder.EmptyArrayInArrayAsWritten | transport-catalogue/json_builder.cpp:57-98 | for any open array, an empty nested array adds two empty arrays to it |
| JsonBuilder.DictUnderKeyKeepsEntries | transport-catalogue/json_builder.cpp:10-37 | with the corrected start, the nested dictionary is added under the key and the earlier entries stay |
| JsonBuilder.ArrayInArrayAddedOnce | transport-catalogue/json_builder.cpp:57-98 | with the corrected start, the nested array is added exactly once |
| InputReader.FindFirstOf | transport-catalogue/input_reader.cpp:72-79 | `npos`, or a position at or after the start whose character is in the set |
| InputReader.FindFirstOfAt | transport-catalogue/input_reader.cpp:72-79 | a position holding a character of the set, with none of them between the start and it, is the one found |
| InputReader.Substr | transport-catalogue/input_reader.cpp:43-58 | fails exactly when the start is past the end; otherwise the text from the start, clipped to the count and to the end |
| InputReader.ParseBus | transport-catalogue/input_reader.cpp:65-84 | the name is the text up to the first colon, and the line is a ring exactly when the first separator is `>` |
| InputReader.BusRoundTrip | transport-catalogue/input_reader.cpp:65-84 | a `Bus` line written with two or more stops and either separator parses back to its name, stops and ring flag |
| InputReader.ParseStop | transport-catalogue/input_reader.cpp:39-63 | the name is the text up to the colon |
| InputReader.StopDistances | transport-catalogue/input_reader.cpp:52-60 | no comma after the longitude means no distance entries |
| InputReader.DistanceTurn | transport-catalogue/input_reader.cpp:53-57 | the `m` that ends a distance lies after the comma, and the next comma after the `m` |
| InputReader.StopRoundTrip | transport-catalogue/input_reader.cpp:39-63 | a `Stop` line with a name, two coordinates and distance entries parses back to them, the entries in order, with numbers as the converters give them |
| InputReader.StopParsed | transport-catalogue/input_reader.cpp:39-63 | any line laid out as such a `Stop` line parses to its name, coordinates and entries |
| Svg.CapName | transport-catalogue/svg.h:25-30 | the line cap is written as its entry in the fixed name table, which reads back as the same cap |
| Svg.JoinName | transport-catalogue/svg.h:32-39 | the line join is written as its entry in the fixed name table, which reads back as the same join |
| Svg.AttrList | transport-catalogue/svg.h:139-158 | only the set attributes appear, in the order fill, stroke, width, cap, join, each with its value |
| Svg.AttrsRoundTrip | transport-catalogue/svg.h:139-158 | the rendered attribute text reads back as exactly those name-value pairs |
| Svg.SetFillColor | transport-catalogue/svg.h:107-110 | the fill becomes the colour and nothing else changes |
| Svg.SetStrokeColor | transport-catalogue/svg.h:113-116 | the stroke becomes the colour and nothing else changes |
| Svg.SetStrokeWidth | transport-catalogue/svg.h:119-122 | the width becomes the value and nothing else changes |
| Svg.SetStrokeLineCap | transport-catalogue/svg.h:125-128 | the cap becomes the value and nothing else changes |
| Svg.SetStrokeLineJoin | transport-catalogue/svg.h:131-134 | the join becomes the value and nothing else changes |
| Svg.SettersCommute | transport-catalogue/svg.h:107-134 | the last write of an attribute wins, and setters of different attributes commute |
| Svg.SetFillRendered | transport-catalogue/svg.h:107-146 | after setting the fill, the rendered fill is that colour and the stroke is untouched |
| Svg.AddPoint | transport-catalogue/svg.cpp:49-52 | the point is appended after the existing points, which are kept |
| Svg.AddPoints | transport-catalogue/svg.cpp:49-56 | adding points one by one gives the old points followed by the new ones, in order |
| Svg.SafeData | transport-catalogue/svg.cpp:129-153 | the escaped text holds no raw markup character and unescapes to the original. Text without markup characters is unchanged |
| Svg.Indented | transport-catalogue/svg.h:59-61 | the step is kept and the indent grows by one step |
| Svg.IndentedTimesIndent | transport-catalogue/svg.h:59-61 | k indentations add k steps |
| Svg.RenderIndent | transport-catalogue/svg.h:63-67 | exactly `indent` spaces, none for a non-positive indent |
| Svg.RenderPoints | transport-catalogue/svg.cpp:58-70 | the loop writes the points' texts joined by single spaces |
| Svg.PointsRoundTrip | transport-catalogue/svg.cpp:61-67 | splitting the points attribute at spaces gives back each point's text, in order |
| Svg.PointsTrimmed | transport-catalogue/svg.cpp:61-67 | the points attribute has no leading or trailing space |
| Svg.TextEnds | transport-catalogue/svg.cpp:110-127 | a text element ends with its escaped data and the closing tag, and that data unescapes to the text |
| Svg.AddPtr | transport-catalogue/svg.cpp:157-160 | an object is appended after the existing ones |
| Svg.RenderAtTop | transport-catalogue/svg.cpp:18-25 | an object rendered in the document's default context is its tag followed by a line break, with no indentation |
| Svg.DocumentJoined | transport-catalogue/svg.cpp:162-172 | the document is the XML declaration, the svg opening tag, each object's tag and the closing tag, joined by line breaks, with no break after the closing tag |
| Svg.DocumentLines | transport-catalogue/svg.cpp:162-172 | the document's lines are the XML header, the svg opening, one line per object in insertion order, and the closing tag |
| Svg.BodyAppend | transport-catalogue/svg.cpp:157-172 | adding an object appends exactly its rendering to the document body |
| Svg.DrawTriangle | transport-catalogue/svg.cpp:177-180 | one polyline is added with points p1, p2, p3, p1 |
| MapRenderer.ToU32 | transport-catalogue/map_renderer.cpp:104-104 | a font size passed as `uint32_t` is itself when in range and wraps modulo 2^32 when negative |
| MapRenderer.NextPaletteIndex | transport-catalogue/map_renderer.cpp:27-40 | 0 on the first request and for an empty palette; otherwise the next index, wrapping to 0 after the last. The index stays within a non-empty palette |
| MapRenderer.PaletteCycles | transport-catalogue/map_renderer.cpp:27-40 | the k-th request after a fresh start or reset yields k mod size |
| MapRenderer.RequestsCycle | transport-catalogue/map_renderer.cpp:27-40 | successive requests from request k yield k, k+1, ... mod size |
| MapRenderer.ShownStopsMembers | transport-catalogue/map_renderer.cpp:69-75 | a stop is kept exactly when it is a non-null, non-raw entry of the traversal |
| MapRenderer.ShownAppend | transport-catalogue/map_renderer.cpp:69-75 | filtering a concatenation gives the concatenation of the filtered parts, so the kept stops keep the traversal order |
| MapRenderer.LineProps | transport-catalogue/map_renderer.cpp:79-83 | a route line is unfilled, stroked in the colour with the line width, and has round caps and joins |
| MapRenderer.LineOfAdded | transport-catalogue/map_renderer.cpp:66-83 | the route line is the polyline of the projected shown stops, added one by one |
| MapRenderer.RouteLine | transport-catalogue/map_renderer.cpp:65-86 | a polyline exactly when the line has at least two shown stops, in the next colour; only then does the palette advance |
| MapRenderer.AllRouted | transport-catalogue/map_renderer.cpp:77-77 | every line gets a polyline exactly when every line has at least two shown stops |
| MapRenderer.RouteLines | transport-catalogue/map_renderer.cpp:62-88 | one polyline per line that has a route, and nothing else |
| MapRenderer.RouteColours | transport-catalogue/map_renderer.cpp:65-86 | when every line has a route, the line at position i is drawn in the colour of the i-th palette request |
| MapRenderer.BusLabel | transport-catalogue/map_renderer.cpp:97-107 | a text with the line's name at the stop's projection, filled in the colour |
| MapRenderer.LabelsOf | transport-catalogue/map_renderer.cpp:96-140 | an underlayer then a label at the first stop. A second pair at the terminus appears exactly for a non-ring line whose terminus name differs. Every underlayer is its label in underlayer attributes |
| MapRenderer.BusLabels | transport-catalogue/map_renderer.cpp:95-141 | nothing for a line without stops; otherwise its labels in the next palette colour |
| MapRenderer.AllBusLabels | transport-catalogue/map_renderer.cpp:90-143 | as many texts as the lines' label pairs require, and only texts |
| MapRenderer.LabelColours | transport-catalogue/map_renderer.cpp:92-143 | with every line non-empty, the labels of the line at position i use the colour of the i-th request after the reset |
| MapRenderer.Assign | transport-catalogue/map_renderer.cpp:52-52 | the name now maps to the coordinates, other names keep theirs, and the keys stay in ascending order |
| MapRenderer.RecordStops | transport-catalogue/map_renderer.cpp:49-53 | every stop is recorded, and a name recorded twice keeps its last coordinates |
| MapRenderer.LastCoordAppend | transport-catalogue/map_renderer.cpp:48-55 | over two runs of stops, a name's last occurrence in the second run wins over the first run |
| MapRenderer.CollectStops | transport-catalogue/map_renderer.cpp:48-55 | the map gains exactly the names of the lines' shown stops and stays ordered. A name holds the coordinates of its last shown occurrence across the lines, or what it held before |
| MapRenderer.FindEntry | transport-catalogue/map_renderer.cpp:48-55 | in the ordered map, each name finds the coordinates stored with it |
| MapRenderer.StopCircles | transport-catalogue/map_renderer.cpp:145-154 | one white circle of the stop radius per recorded stop, at its projection, in name order |
| MapRenderer.StopText | transport-catalogue/map_renderer.cpp:159-166 | a text with the stop's name at its projection |
| MapRenderer.StopLabelsAt | transport-catalogue/map_renderer.cpp:156-178 | the stop at position i of the map owns positions 2i and 2i+1: its name in underlayer attributes, then filled black |
| MapRenderer.NewRenderer | transport-catalogue/map_renderer.cpp:6-12 | a new renderer keeps its settings, records no stops, and its first colour request yields palette entry 0 |
| MapRenderer.DrawMap | transport-catalogue/map_renderer.cpp:14-24 | the map is the route polylines coloured from the renderer's palette, then the line labels coloured from a fresh palette, whose final state the renderer keeps, then the stop circles, then the stop names in name order. The recorded names grow by exactly the shown stops, and each recorded stop, whose circle is drawn at its projection, has the coordinates of its last shown occurrence, or those it had |
| MapRenderer.LineAndLabelsShareColour | transport-catalogue/map_renderer.cpp:80-129 | on a fresh renderer, with every line routed, the line at position i and its labels share palette entry i mod size |

## Left out

- Console and file I/O are not modelled: `getline` in `input_reader.cpp` `Load` and its dispatch on the command word, the serialized file's opening and parsing, and stream output. `Load`'s unreadable-file case is the `None` file of `Serialization.Load`.
- Floating point: doubles are reals, so rounding and the infinities of a division by zero are not modelled.
- Catalogue.BusInfo: the curvature is constrained only when the geographic length is non-zero; the source's division by a zero length gives infinity or NaN, which reals cannot express.
- The geographic distance (`geo.cpp`) is the parameter `geo`, and the fitted `SphereProjector` (`map_renderer.h`) is the parameter `proj`: both are trigonometric floating-point numerics.
- `stod`/`stoi` are parameters of the input parser. In the JSON reader, `stoi`'s overflow is the int range check in `Json.ToNumberNode`. `stod`'s range error is `Json.DoubleInRange`, and rounding to a double is not modelled. Number-to-text formatting is the `Numerals` parameter of `Svg`.
- Json.ConvertNumber: underflow is taken as any non-zero magnitude below the least normal double. glibc's `strtod` raises no range error for a value that is exactly a subnormal double or that rounds up to the least normal one, and the model rejects those.
- `graph.h` and `router.h` are not part of this model. The shortest-path search is the `router` parameter of `TransportRouter.BuildRoute`, and the graph's incidence lists are not computed.
- The iteration order of the `unordered_map` of lines in `BuildGraph` is unspecified, so it is the `order` parameter.
- Serialization.DecodeStop, Serialization.DecodeBus and Serialization.DecodeEdge: the source uses the lookup of an unknown name id, stop id or line id unchecked (an edge keeps whatever `MutableBusById` returns, serialization.cpp:391-398, and loading goes on). The model reports such a record as a failure instead, so `LoadParts` and `Load` fail where the source would keep the unchecked lookup result.
- Protobuf encoding and the protobuf library: only the mapping between records and the catalogue is modelled.
- `json_reader.cpp`, `stat_reader.cpp`, `request_handler.cpp` and `main.cpp` are not modelled: they only connect JSON and text input to the catalogue.
- `Star` and `Snowman` in `svg.cpp` are not modelled: they are trigonometric and floating-point demo shapes.
- The setters of `Circle` and `Text` are not modelled one by one: the objects are built with their fields set directly.
- Printing of numbers, booleans, null, arrays and dictionaries in `json.cpp` is not modelled, since it is stream formatting. Only string printing is modelled.
- The `string_view` node alternative (`IsString_view`/`AsString_view`) is not modelled: the reader never produces it.
- Svg.RenderIndent: `indent` is an unbounded integer, so `int` overflow of repeated indentation is not modelled.
- Catalogue.AddStopToBus: it requires every stop name to be known. A non-ring line also needs at least one stop, because the source dereferences the `find` result and otherwise resizes by a wrapped-around count.
- TransportRouter.LineEdges: it requires at least one stop, because with none the source's `stopsCount - 1` wraps around.
- InputReader.ParseBus: it requires a separator after the colon, because the source otherwise reads `line[npos]`.
- InputReader.StopDistances: when no `m` follows a comma, the source's search restarts at position 0 and loops for ever. The model stops at the second restart and returns an error.
- Json.LoadDict: a key is carried from the previous entry, and a moved-from key is modelled as the empty string, which is the behaviour of the common standard libraries.
- MapRenderer.DrawMap: it requires that a non-empty line has a first stop and, unless it is a ring, a second terminus, and that the palette is non-empty when a colour is requested. The source dereferences these unchecked.
- MapRenderer.Less: `std::map` with `string_view` keys compares through `char_traits<char>`, which orders bytes as `unsigned char`. The model's strings are sequences of Unicode scalar values compared by code. For UTF-8 text, byte order and code-point order agree, so the two orders are the same; bytes that are not valid UTF-8 are not modelled.
- Json.TwoEntriesRoundTrip: printed dictionaries are proved to read back only with one or two entries and string values. Longer dictionaries and other kinds of value rest on `Json.EntryThenNext` and `Json.EntryThenClose`, which hold for any text.
- Catalogue.BusesInStop: the returned set is kept as a Dafny set. Its sorted iteration order is not modelled.

## Findings

| source | as written | input that shows it | evidently intended | confidence | as-written member | corrected member |
|---|---|---|---|---|---|---|
| transport-catalogue/json_builder.cpp:20 | `StartDict` under a pending key overwrites the enclosing dictionary's node with an empty dictionary before pushing the new frame | `StartDict Key("a") Value(1) Key("b") StartDict EndDict EndDict` builds `{"b": {}}` | `{"a": 1, "b": {}}`: the enclosing dictionary keeps its entries | high, not executed | JsonBuilder.DictUnderKeyDropsEntries | JsonBuilder.DictUnderKeyKeepsEntries |
| transport-catalogue/json_builder.cpp:69-70 | `StartArray` inside an array appends an empty array to the parent, and `EndArray` appends the finished array again | `StartArray StartArray EndArray EndArray` builds `[[], []]` | `[[]]`: the nested array is added once, when it is closed | high, not executed | JsonBuilder.NestedArrayDuplicated | JsonBuilder.ArrayInArrayAddedOnce |

The corrected operations are `JsonBuilder.StartDictKeepingEntries` and
`JsonBuilder.StartArrayOnce`. The builder's `Step` keeps the operations as written,
so the model's builder behaves like the source. No other part of the model builds
JSON.
