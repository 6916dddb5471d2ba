# Verified models of the ROS stacks tooling

Five parts of the repository, modelled in Dafny, and what is proved about them.

**Message compiler** (`genpy_electric.py`). A `.msg` specification is compiled to the body of a
`serialize` and of a `deserialize` method. `Registry` unfolds registered type strings to a specification
tree, `Messages` gives the tree its meaning (a naive recursive little-endian encoding), `WireFormat`
spells that encoding out in plain numbers, `PyCode` is the language of the emitted code with an
interpreter over a byte buffer, `Genpy` says what is emitted, and `GenpyGenerator` computes that with
the mutable context stack, counter and pattern record of the source. Main results: the emitted code
writes exactly the naive encoding if and only if no fixed-length array has a declared length with two
adjacent nines (`reduce_pattern` compares digits against `range(0, 9)`, which has no 9); the emitted
code reads an encoding back if and only if no such array is one of numbers other than bytes, since byte
arrays are sliced without a format (`DamagedReading` has the runs that raise); on any input at all it
returns nothing whose encoding is longer than the input; what it returns without having run past the
input is well-typed and, without bools, encodes to exactly the bytes it consumed, so that it accepts
exactly the encodings (`AnyInput`); a message comes back from a round trip if and only if it can be
written. `ModuleGenerator` puts the methods and the struct objects of one module together: the module is
closed, its numbered variables all differ, and it does that round trip with nothing else defined.

**Dependency engines** (`rospack.cpp` and its rewrite `rp.cpp`). `Graph`, `Preorder` and `Chains` hold
the orders, reachability and chains; `Rp` and `Rospack` are the engines over mutable stackages and
packages; `Engines` shows that they agree. Main results: completeness and absence of repetitions on
every graph, cyclic or not; the depth exceptions; topological post-order; linker order of the old
pre-order, by last occurrences, and the exact condition for it to have no repetitions; inverse queries,
which never list a package that does not depend on the one asked for, and list all that do when there
is no cycle and no chain of more than 1000 edges; chain enumeration. `DepthFirst` says what depth-first
pre-order is on any graph, and `SiblingOrder` how the order of direct dependencies shows in every list.

**Crawl** (`rospack.cpp`). `Crawl`: the explicit double-ended queue with timing markers refines a
recursive crawl, what that crawl finds is characterised by routes through the directory tree, and so
is which of several packages of one name is kept.

**TinyXML**. `Xml` is the parser and the stream printer as functions, `XmlParser` and `XmlPrinter` are
the loops over a buffer and the visitor, `XmlRoundTrip` proves that parsing undoes printing and when
single values survive, `XmlRests`, `XmlItems`, `XmlReading` and `XmlDocuments` that a document comes
back if and only if it is a legal one; `XmlSyntax` spells out references, entities, white space and
printed text character by character; `ChildList` and `AttributeSet` are the linked structures,
`XmlInput` is line ends and UTF-8.

**Connection header** (`network.py`). `Handshake`: framing, decoding, and the incremental reader.

Where the code and its documentation disagree the models follow the code: a length of 99 is compressed
to 29; the reader waits for more than four bytes, so an empty header with nothing behind it is never
accepted; the old engine's pre-order list holds a package twice exactly when a direct dependency
of the package asked for is, or is reachable from, an earlier one; a hexadecimal reference in an XML value is
passed through by the printer and comes back as the character that the low byte of its number names, so
that a value comes back exactly when it holds no `&#x`.

## Model

| member | source | states |
|---|---|---|
| StructFormat.ReducePattern | core/roslib/src/roslib/genpy_electric.py:380-408 | the loop computes the run-length form of the specification function |
| StructFormat.ReduceIsLossless | core/roslib/src/roslib/genpy_electric.py:380-408 | for every pattern of type codes the compressed format string denotes the same items in the same order |
| StructFormat.RunsAreCounted | core/roslib/src/roslib/genpy_electric.py:380-408 | a run of one type code becomes its length in decimal and the code, a code on its own stays, and the rest is compressed in the same way |
| StructFormat.CountKeptIffNoAdjacentNines | core/roslib/src/roslib/genpy_electric.py:393-404 | a repeat count survives compression if and only if its decimal form has no two adjacent nines, and otherwise gets smaller |
| StructFormat.NinetyNineIsMangled | core/roslib/src/roslib/genpy_electric.py:393-404 | the concrete case: `99d` becomes `29d` |
| StructFormat.LittleEndianRoundTrip | core/roslib/src/roslib/genpy_electric.py:434-445 | fixed-width little-endian packing is undone by unpacking |
| StructFormat.LittleEndianByte | core/roslib/src/roslib/genpy_electric.py:434-445 | byte `i` of a packed number is the number divided by 256 to the power of `i`, modulo 256: the lowest byte comes first |
| StructFormat.UnpackedByte | core/roslib/src/roslib/genpy_electric.py:434-445 | byte `i` of any string of bytes counts 256 to the power of `i` in the number it unpacks to |
| StructFormat.DecimalPlace | core/roslib/src/roslib/genpy_electric.py:380-408 | a digit of a repeat count counts ten to the power of the digits behind it |
| WireFormat.BuiltinTypes | core/roslib/src/roslib/genpy_electric.py:94-111 | every builtin type by its name: how many bytes it takes and which numbers it holds |
| WireFormat.BuiltinBytes | core/roslib/src/roslib/genpy_electric.py:94-111 | the bytes of a builtin number are its two's complement, lowest byte first |
| WireFormat.NumberWritten | core/roslib/src/roslib/genpy_electric.py:798-830 | the emitted code for a message with one builtin field writes those bytes and nothing else |
| WireFormat.Uint32Written | core/roslib/src/roslib/genpy_electric.py:798-830 | a message with one `uint32` holding `n` is written as the four bytes `n % 256`, `n / 256 % 256`, `n / 65536 % 256` and `n / 16777216` |
| WireFormat.StringWritten | core/roslib/src/roslib/genpy_electric.py:597-646 | a message with one string is written as the four bytes of its length, lowest first, and the text |
| WireFormat.ArrayWritten | core/roslib/src/roslib/genpy_electric.py:679-735 | a message with one array of numbers is written as the four bytes of the number of elements, lowest first, and the elements |
| WireFormat.ElementsInOrder | core/roslib/src/roslib/genpy_electric.py:679-735 | element `i` of such an array stands at its width times `i` |
| WireFormat.FieldsInOrder | core/roslib/src/roslib/genpy_electric.py:832-864 | fields follow each other in the order of the specification with nothing between them |
| WireFormat.Uint32Read | core/roslib/src/roslib/genpy_electric.py:891-923 | the emitted code reads four bytes as the number in which each byte counts 256 times the one before it, and stops behind them |
| WireFormat.StringRead | core/roslib/src/roslib/genpy_electric.py:597-646 | it takes as many bytes for a string as the four bytes before it say, lowest first |
| Flattening.FlattenSpec | core/roslib/src/roslib/genpy_electric.py:215-239 | the accumulating loops compute the flattened field list |
| Flattening.FlattenEncodes | core/roslib/src/roslib/genpy_electric.py:215-239 | flattening changes nothing on the wire: the encoding of the flat list is that of the nested specification |
| Flattening.FlattenApart | core/roslib/src/roslib/genpy_electric.py:215-239 | flattened attribute paths stay unique and none runs through another |
| Registry.UnfoldIsValid | core/roslib/src/roslib/msgs.py:286-312 | what a registered type of an acyclic registry unfolds to has distinct names at every level |
| Registry.ArrayTypes | core/roslib/src/roslib/msgs.py:123-150 | `T` is one value, `T[]` an array of any length, `T[n]` an array of `n` elements, and brackets around anything else are refused |
| WireFormat.RegisteredField | core/roslib/src/roslib/msgs.py:123-150 | a registered field of a builtin type, alone or in one of the array forms, unfolds to a field of that type and form with its name |
| Registry.FlattenAgrees | core/roslib/src/roslib/genpy_electric.py:215-239 | flattening type strings with dotted names gives exactly the flattened specification tree |
| Registry.FlattenedNamesDiffer | core/roslib/src/roslib/msgs.py:299-300 | the dotted names of a flattened specification are all different |
| Registry.FlattenRegistered | core/roslib/src/roslib/genpy_electric.py:215-239 | the recursion over the registry returns that list, and the duplicate check never refuses it |
| Registry.RegisteredTypesRoundTrip | core/roslib/src/roslib/genpy_electric.py:832-923 | for every type of an acyclic registry and every well-typed message: the bytes written are the naive encoding, and reading the buffer rebuilds the message and ends at the last byte, each if and only if no fixed-length array has two adjacent nines in its declared length |
| GenpyGenerator.Generator.PopContext | core/roslib/src/roslib/genpy_electric.py:540-548 | undoes the matching push |
| GenpyGenerator.Generator.SimpleSerializer | core/roslib/src/roslib/genpy_electric.py:798-830 | emits the batched chunk and records its pattern |
| GenpyGenerator.Generator.StringSerializer | core/roslib/src/roslib/genpy_electric.py:597-646 | emits the string and byte array code of every branch |
| GenpyGenerator.Generator.ArraySerializer | core/roslib/src/roslib/genpy_electric.py:652-744 | emits the array code and restores context, stack and depth |
| GenpyGenerator.Generator.ComplexSerializer | core/roslib/src/roslib/genpy_electric.py:753-796 | the same for complex fields, binding a fresh variable for an embedded message |
| GenpyGenerator.Generator.SerializerGenerator | core/roslib/src/roslib/genpy_electric.py:832-864 | the chunking loop emits the specified code; context and stack are as before, the counter and patterns advance as specified |
| GenpyGenerator.Generator.SerializeMethod | core/roslib/src/roslib/genpy_electric.py:873-889 | emits the whole serialize body; the context stack returns to its starting contents |
| GenpyGenerator.Generator.DeserializeMethod | core/roslib/src/roslib/genpy_electric.py:891-923 | emits the whole deserialize body; the context stack returns to its starting contents |
| GenpyGenerator.Generator.DefineStructs | core/roslib/src/roslib/genpy_electric.py:1086-1097 | defines exactly the recorded patterns and clears the record |
| Hygiene.GeneratedMethodsAreHygienic | core/roslib/src/roslib/genpy_electric.py:524-570 | in each method every numbered variable is bound once, no loop reuses the variable of a loop around it, and every struct object mentioned has a recorded pattern |
| ModuleGenerator.GenerateModule | core/roslib/src/roslib/genpy_electric.py:956-1097 | one generator emits both methods and the struct definitions in turn: every struct object mentioned is defined, the numbers of all variables of both methods differ and are new, and context, stack and record are as before or cleared |
| ModuleGenerator.GeneratedModuleRoundTrips | core/roslib/src/roslib/genpy_electric.py:1040-1097 | with only its own struct objects defined, a module rebuilds what it sent if and only if no fixed-length array has two adjacent nines in its declared length |
| MessageCompiler.SerializeWritesTheEncoding | core/roslib/src/roslib/genpy_electric.py:832-889 | running the emitted code writes exactly the naive encoding of the unflattened specification if and only if no array is damaged by its declared length |
| MessageCompiler.DamagedMessagesLoseBytes | core/roslib/src/roslib/genpy_electric.py:380-408 | otherwise the code raises or writes too few bytes |
| MessageCompiler.DeserializeRebuildsTheMessage | core/roslib/src/roslib/genpy_electric.py:891-923 | on an encoding with any bytes behind it the emitted code rebuilds the message and stops exactly behind it if and only if the message holds no fixed-length array, of numbers other than bytes, whose declared length has two adjacent nines; otherwise it raises |
| MessageCompiler.DeserializeTakesWhatItReturns | core/roslib/src/roslib/genpy_electric.py:891-923 | on any input: where the emitted code returns, the encoding of the message it built is no longer than the input; unless it has run past the input, the message is well-typed and undamaged, and without bools it encodes to exactly the bytes consumed |
| MessageCompiler.DeserializeAcceptsEncodings | core/roslib/src/roslib/genpy_electric.py:891-923 | without bools the emitted code returns within the input if and only if the input begins with the encoding of a well-typed message that has no damaged array |
| MessageCompiler.RoundTrip | core/roslib/src/roslib/genpy_electric.py:832-923 | deserializing what was serialized gives an equal message if and only if no fixed-length array has two adjacent nines in its declared length, and then every byte is consumed |
| MessageCompiler.NinetyNineBytesAreCutShort | core/roslib/src/roslib/genpy_electric.py:615-630 | a well-typed message with one field `uint8[99]` is not written correctly |
| Graph.PostOrderIsTopological | tools/rospack/rospack.cpp:157-207 | the post-order list has no repetitions, holds exactly what is reachable, and puts every package after its dependencies |
| SiblingOrder.PostOrderSiblings | tools/rospack/rospack.cpp:157-207 | for every `k`, the post-order list begins with exactly what the first `k` direct dependencies are or reach |
| Preorder.LinkerOrder | tools/rospack/rospack.cpp:168-204 | the old pre-order list holds exactly what is reachable, and the last occurrence of every package comes before the last occurrence of each of its direct dependencies |
| Preorder.PreOrderOnce | tools/rospack/rospack.cpp:168-204 | where no cycle is reachable, the old pre-order list has no repetitions if and only if no direct dependency of the package is, or is reachable from, an earlier one |
| Preorder.RepetitionsHappen | tools/rospack/rospack.cpp:172-173 | a three-package graph on which that list holds a package twice |
| SiblingOrder.PreOrderSiblings | tools/rospack/rospack.cpp:168-204 | in the old pre-order list, by last occurrences, what only earlier direct dependencies are or reach comes before what a later one is or reaches |
| Preorder.LastsOfBump | tools/rospack/rospack.cpp:185-190 | for last occurrences, erasing an earlier occurrence and pushing back is the same as pushing |
| Chains.DescendantsAreInverse | tools/rospack/rospack.cpp:338-381 | descendants of a package are exactly the packages that reach it, once each |
| SiblingOrder.DescendantsSiblings | tools/rospack/rospack.cpp:338-381 | for every `k`, the list of descendants begins with what the first `k` packages in crawl order contribute |
| SiblingOrder.DescendantsDependOnEarlier | tools/rospack/rospack.cpp:338-381 | every descendant names the package asked for or a descendant listed before it |
| Chains.ReverseIsShallow | tools/rospack/rospack.cpp:338-343 | the recursion of the inverse query ends, and goes no deeper than the longest chain of dependencies, when the dependency graph has no cycle |
| Chains.PathsAreTheChains | tools/rospack/rospack.cpp:666-693 | enumeration yields a path if and only if it is a chain of direct dependencies from one package to the other |
| Chains.PathsAreListedOnce | tools/rospack/rospack.cpp:666-693 | every chain is listed once when no package names a dependency twice |
| SiblingOrder.PathsInOrder | tools/rospack/rospack.cpp:666-693 | chains are listed in lexicographic order: by the position of the dependency taken where they part |
| Rospack.Rospack.DirectDeps | tools/rospack/rospack.cpp:393-447 | succeeds exactly on manifests without errors, missing packages being errors unless they are to be warnings; memoises the listed packages in order |
| Rospack.Rospack.Merge | tools/rospack/rospack.cpp:172-202 | the linear searches, erasures and pushes compute the merged list of the traversal order |
| Rospack.Rospack.Deps | tools/rospack/rospack.cpp:157-207 | a run that returns normally proves that no cycle is reachable, returns the list of its order, keeps every memo right and touches nothing out of reach; it returns normally on good manifests without cycles whose chains fit the depth |
| Rospack.Rospack.Depends | tools/rospack/rospack.cpp:914-923 | on fresh packages: success implies good manifests all the way down and no cycle, and conversely when chains fit the depth limit |
| Rospack.ComputedIsGood | tools/rospack/rospack.cpp:393-447 | when nothing was memoised before, a normal return means that every manifest reached is good |
| Rospack.Rospack.HasParent | tools/rospack/rospack.cpp:384-391 | true exactly for a readable manifest that names the package |
| Rospack.Rospack.Descendants | tools/rospack/rospack.cpp:338-381 | on every graph the list holds nothing twice and only packages that reach the one asked for; with no cycle above and chains that fit, it is the specified list of all of them; the call itself fails only by its own depth |
| Rospack.Rospack.DependsOn | tools/rospack/rospack.cpp:831-876 | on fresh packages, without cycles and chains of more than 1000 edges: a package is listed, once, if and only if its dependencies hold the one asked for, which is added when nobody crawled it |
| Rospack.DescendantsInvertDeps | tools/rospack/rospack.cpp:338-391 | on acyclic graphs the list holds a package exactly when that package's dependencies include the queried one |
| Rospack.Rospack.AccumulateDeps | tools/rospack/rospack.cpp:666-693 | returns the chains in depth-first order, which SiblingOrder.PathsInOrder spells out, or fails on a bad manifest |
| Rp.Rosstackage.ComputeDeps | tools/rospack/rp.cpp:861-923 | on every graph: without errors every stackage visited is linked to exactly the dependencies its manifest names; errors ignored it never fails; good manifests never fail |
| Rp.Rosstackage.LinksAreTheNames | tools/rospack/rp.cpp:861-923 | over the manifest alone: what a visited stackage is linked to are the names in its manifest but its own, a placeholder exactly where nobody crawled the name; in a manifest without errors, link `i` is element `i` |
| Rp.Rosstackage.GatherDepsFull | tools/rospack/rp.cpp:937-979 | on every graph the search adds each newly reached node once and nothing else, in pre-order depth first: every entry is the first unvisited link of the latest node that has one; depth never exceeds the number of visited nodes, nor the longest chain when there is no cycle; on acyclic graphs it extends the list to the merged post-order; a direct search keeps the order of the links |
| Rp.Rosstackage.GatherDeps | tools/rospack/rp.cpp:925-935 | lists everything reachable by one or more edges exactly once and nothing else; cannot exceed the depth with at most 1000 reachable nodes; on every graph its pre-order is the depth-first one: a node comes behind one that names it, and behind each node come at once exactly those that it reaches by chains around what is listed up to it |
| DepthFirst.DepthFirstParents | tools/rospack/rp.cpp:937-979 | in a list in depth-first order every node is named by the start or by a node before it |
| DepthFirst.DepthFirstBlocks | tools/rospack/rp.cpp:937-979 | behind each entry of a finished list stands, in one piece, exactly what chains lead to from it that avoid everything listed up to it |
| DepthFirst.DepthFirstIsUnique | tools/rospack/rp.cpp:937-979 | a graph and a start leave only one finished list in depth-first order |
| Rp.Rosstackage.Deps | tools/rospack/rp.cpp:625-651 | fails on unknown names; succeeds on good manifests within the depth bound; on fresh stackages success means that all manifests reached are good; the list is complete, without repetitions, in post-order when there is no cycle, and in the order of the manifest when direct |
| Rp.Rosstackage.DependsOn | tools/rospack/rp.cpp:653-686 | over the manifests alone: a stackage is reported, once, if and only if its manifest names the one asked for, or, indirectly, a sequence of crawled stackages leads from it, each naming the next, to one that names it, whether that name was crawled or not; a direct query never fails |
| Rp.ReachedIffNamed | tools/rospack/rp.cpp:861-923 | something called by a name is reachable exactly when such a sequence of names leads to it |
| Rp.VisitedIsGood | tools/rospack/rp.cpp:861-923 | what a run from a fresh start has visited without an error is good all the way down |
| Engines.EnginesAgree | tools/rospack/rospack.cpp:157-207 | on acyclic graphs both engines list the same sequence, and both stay within the same chain bound |
| Engines.GoodnessAgrees | tools/rospack/rp.cpp:861-923 | the engines find the same manifests good all the way down |
| Crawl.Crawler.CrawlForPackages | tools/rospack/rospack.cpp:1734-1934 | the queue loop ends on every tree, comes to what the recursive crawl comes to, fails exactly when it would enter a directory that is too deep, and leaves unique names; over the roots and routes alone: a name is listed exactly when a root that is taken up has a package of that name, and the package kept is that of the ROS root if it has one, otherwise that of the first entry of the search path that has one, and there the one at the end of the first route |
| Crawl.FirstFound | tools/rospack/rospack.cpp:1907-1934 | below one root the package of a name that is met first is at the end of the route that comes before all others of that name: packages of a directory in reading order, then its subdirectories, the last one first |
| Crawl.PrecedenceOfRoots | tools/rospack/rospack.cpp:1777-1798 | the ROS root goes before the search path, and the search path goes from front to back, leaving out marked directories that are not packages |
| Crawl.RouteBySteps | tools/rospack/rospack.cpp:1907-1934 | a route goes through subdirectories whose names do not begin with a dot, that are neither packages nor marked, to a package |
| Crawl.Crawler.AddPackage | tools/rospack/rospack.cpp:1703-1732 | the first package of a name takes precedence |
| Crawl.Crawler.ReadDirectory | tools/rospack/rospack.cpp:1907-1934 | packages are listed and counted, enterable subdirectories go to the front of the queue |
| Crawl.CrawlFinds | tools/rospack/rospack.cpp:1794-1846 | the recursive crawl adds what is found below a directory, and a directory is profiled with a manifest exactly when something is found below it, whatever the counters were |
| Crawl.ManifestIffPackageBelow | tools/rospack/rospack.cpp:1822-1846 | something is found exactly when a route through enterable directories leads to a package |
| Crawl.NamesListed | tools/rospack/rospack.cpp:1734-1934 | the names listed are exactly those of packages among the starting points and at the ends of routes |
| Crawl.AddAllKeepsFirst | tools/rospack/rospack.cpp:1703-1732 | names stay unique, earlier packages stay, and no name met is lost |
| Crawl.FirstOfNameIsKept | tools/rospack/rospack.cpp:1706-1730 | the first package met of a name is the one kept |
| Handshake.Decode | core/roslib/src/roslib/network.py:308-348 | the loop computes the specified result, every error included; with fewer than four bytes, or fewer than the first four say, lowest byte first, it fails |
| Handshake.SizeIs | core/roslib/src/roslib/network.py:321-330 | a size field is four bytes, the lowest one first |
| Handshake.OneItemOnTheWire | core/roslib/src/roslib/network.py:405-413 | the header of one item byte by byte: two size fields, key, equals sign and value |
| Handshake.ItemsOnTheWire | core/roslib/src/roslib/network.py:405-413 | more items are more frames in their order behind one size field that counts them all |
| Handshake.StripTakesSpaces | core/roslib/src/roslib/network.py:347 | stripping a key takes spaces, tabs and line ends off both of its ends and nothing else |
| Handshake.DecodesIffFramed | core/roslib/src/roslib/network.py:308-348 | a string decodes if and only if it begins with a size-prefixed sequence of size-prefixed lines that each have an equals sign, and then to what those lines store |
| Handshake.HeaderRoundTrip | core/roslib/src/roslib/network.py:389-413 | for every dictionary, in every item order and before any data, decoding the encoding gives the dictionary if and only if all keys are stripped and without equals signs; the size field ends where the data begins; enough for the reader exactly when the header is not empty or data follows |
| Handshake.ReadHeader | core/roslib/src/roslib/network.py:350-387 | for every split into chunks the reader decodes the first header of its buffer and the stream and leaves exactly what follows to buffer and stream; it gives up, keeping all bytes, exactly when no chunk is left or the stream ends first |
| XmlParser.SkipWhiteSpace | tools/rospack/tinyxml-2.5.3/tinyxmlparser.cpp:316-363 | stops at the first character that is not white space |
| XmlParser.ReadNameAt | tools/rospack/tinyxml-2.5.3/tinyxmlparser.cpp:403-438 | reads the longest name |
| XmlSyntax.NameCharacters | tools/rospack/tinyxml-2.5.3/tinyxmlparser.cpp:403-438 | the characters of names, by their numbers |
| XmlParser.GetEntityAt | tools/rospack/tinyxml-2.5.3/tinyxmlparser.cpp:440-533 | decodes named, decimal and hexadecimal references with the widths of the source, and drops other ampersands |
| XmlSyntax.DecimalReference | tools/rospack/tinyxml-2.5.3/tinyxmlparser.cpp:479-503 | a decimal reference up to its semicolon is the character of the low byte of the decimal number behind its last `#`, and fails when anything but a digit stands there |
| XmlSyntax.DecimalDigits | tools/rospack/tinyxml-2.5.3/tinyxmlparser.cpp:479-503 | the same for any string without a second `#`: digits give the character, any other character makes the read fail |
| XmlSyntax.HexadecimalReference | tools/rospack/tinyxml-2.5.3/tinyxmlparser.cpp:449-477 | the same for a hexadecimal reference, behind its last `x` |
| XmlSyntax.OpenReferenceFails | tools/rospack/tinyxml-2.5.3/tinyxmlparser.cpp:459-489 | a reference without a semicolon makes the read fail |
| XmlSyntax.DecimalInAttribute | tools/rospack/tinyxml-2.5.3/tinyxmlparser.cpp:1391-1465 | an attribute whose quoted value is a decimal reference is parsed to that one character, or not at all |
| XmlSyntax.DigitValues | tools/rospack/tinyxml-2.5.3/tinyxmlparser.cpp:465-471 | the value of every hexadecimal digit, in both cases of the letters |
| XmlSyntax.NamedEntities | tools/rospack/tinyxml-2.5.3/tinyxmlparser.cpp:517-533 | the five named entities, and the ampersand that is dropped |
| XmlParser.ReadKeptAt | tools/rospack/tinyxml-2.5.3/tinyxmlparser.cpp:584-597 | text up to the end marker with entities decoded |
| XmlParser.ReadCondensedAt | tools/rospack/tinyxml-2.5.3/tinyxmlparser.cpp:600-635 | text with runs of white space condensed |
| XmlSyntax.WordsRead | tools/rospack/tinyxml-2.5.3/tinyxmlparser.cpp:600-635 | any white space behind a word of text becomes one blank before the next one and nothing at the end |
| XmlParser.ParseAttributeAt | tools/rospack/tinyxml-2.5.3/tinyxmlparser.cpp:1391-1465 | the quoted, single-quoted and unquoted forms and every error |
| XmlSyntax.BareValueRead | tools/rospack/tinyxml-2.5.3/tinyxmlparser.cpp:1441-1465 | a value without quotes ends at white space, `/` or `>`, and a quote inside it is an error |
| XmlSyntax.SpacesInAttribute | tools/rospack/tinyxml-2.5.3/tinyxmlparser.cpp:1408-1429 | white space before the name and on both sides of the equals sign changes nothing |
| XmlParser.ParseNodeAt | tools/rospack/tinyxml-2.5.3/tinyxmlparser.cpp:820-905 | the node kinds in the order of the source's tests |
| XmlSyntax.UnknownRead | tools/rospack/tinyxml-2.5.3/tinyxmlparser.cpp:1276-1306 | other markup ends at its first `>` or with the document |
| XmlParser.ParseElementAt | tools/rospack/tinyxml-2.5.3/tinyxmlparser.cpp:1051-1176 | the attribute loop, empty and full elements, the end tag, and repeated attributes |
| XmlParser.ReadValueAt | tools/rospack/tinyxml-2.5.3/tinyxmlparser.cpp:1179-1248 | children up to the end tag, blank text dropped |
| XmlParser.Parse | tools/rospack/tinyxml-2.5.3/tinyxmlparser.cpp:706-798 | the document loop |
| XmlSyntax.SpacesBeforeNode | tools/rospack/tinyxml-2.5.3/tinyxmlparser.cpp:316-363 | blanks, tabs and line ends before a node change nothing, at the top of a document or inside an element |
| XmlSyntax.SpacedDocumentIsRead | tools/rospack/tinyxml-2.5.3/tinyxmlparser.cpp:316-363 | a legal document written with the same white space between its nodes at every level is read as the same document |
| XmlParser.EncodeString | tools/rospack/tinyxml-2.5.3/tinyxml.cpp:52-133 | entities, control characters, and hexadecimal references passed through |
| XmlSyntax.EncodedCharacters | tools/rospack/tinyxml-2.5.3/tinyxml.cpp:52-133 | the five entities, `&#x` with two capital digits for a control character, and every other character as it stands |
| XmlPrinter.Printer.VisitEnter | tools/rospack/tinyxml-2.5.3/tinyxml.cpp:1769-1803 | the start tag in stream mode, the depth, and the flag for a single plain text |
| XmlPrinter.Printer.VisitExit | tools/rospack/tinyxml-2.5.3/tinyxml.cpp:1806-1829 | the end tag, and depth and flag restored |
| XmlPrinter.Printer.Accept | tools/rospack/tinyxml-2.5.3/tinyxml.cpp:847-858 | a visit appends exactly the printed node in stream mode and leaves depth and flag as they were |
| XmlSyntax.PrintedElement | tools/rospack/tinyxml-2.5.3/tinyxml.cpp:1769-1829 | the text of an element with one attribute, empty and around a text, character by character |
| XmlSyntax.PrintedQuotes | tools/rospack/tinyxml-2.5.3/tinyxml.cpp:1215-1238 | a value goes between double quotes, or between single quotes when it holds a double one |
| XmlPrinter.Printer.AcceptDocument | tools/rospack/tinyxml-2.5.3/tinyxml.cpp:1161-1172 | the same for a document |
| XmlDocuments.DocumentRoundTrip | tools/rospack/tinyxml-2.5.3/tinyxmlparser.cpp:706-798 | a document without unknown nodes comes back from parsing what the stream printer wrote if and only if it is legal: not empty, no plain text at the top, legal names, distinct attribute names, values without `&#x`, tidy text that is not blank and not next to text, no NUL or end marker in comments and CDATA sections |
| XmlItems.AllGood | tools/rospack/tinyxml-2.5.3/tinyxmlparser.cpp:1051-1248 | text printed from items and read as those items, from its start or from behind it, is read from its start to its end, with no reference and no untidy text among the items |
| XmlRests.AttributeAhead | tools/rospack/tinyxml-2.5.3/tinyxmlparser.cpp:1391-1465 | no position inside the text of a printed attribute yields the same attribute again without reading past it |
| XmlRoundTrip.CharRead | tools/rospack/tinyxml-2.5.3/tinyxml.cpp:52-133 | decoding undoes encoding for every character, control characters included |
| XmlRoundTrip.TextSurvives | tools/rospack/tinyxml-2.5.3/tinyxmlparser.cpp:600-635 | plain text alone in an element comes back, whatever follows the element, if and only if it holds no `&#x`, its spaces are single and inside, and it is not blank |
| XmlRoundTrip.ValueSurvives | tools/rospack/tinyxml-2.5.3/tinyxmlparser.cpp:584-597 | what is printed between quotes is read back, whatever follows, if and only if it holds no `&#x` |
| XmlRoundTrip.AttributeSurvives | tools/rospack/tinyxml-2.5.3/tinyxmlparser.cpp:1391-1465 | a printed attribute comes back, whatever follows, if and only if its name is a legal name and its value holds no `&#x` |
| XmlRoundTrip.RawSurvives | tools/rospack/tinyxml-2.5.3/tinyxmlparser.cpp:1500-1542 | comment and CDATA text comes back if and only if it does not contain its end marker |
| XmlRoundTrip.ReferenceIsDecoded | tools/rospack/tinyxml-2.5.3/tinyxml.cpp:60-84 | every well-formed hexadecimal reference, of any number of digits, is printed as it stands and read as the character of the low byte of its number |
| XmlRoundTrip.ReferenceInAttribute | tools/rospack/tinyxml-2.5.3/tinyxmlparser.cpp:455-502 | an attribute whose value is such a reference comes back with that character for its value |
| ChildList.XmlNode.LinkEndChild | tools/rospack/tinyxml-2.5.3/tinyxml.cpp:185-209 | appends to the list, a document being refused, and keeps both chains well formed |
| ChildList.XmlNode.InsertBeforeChild | tools/rospack/tinyxml-2.5.3/tinyxml.cpp:227-256 | inserts before a child, or refuses and changes nothing |
| ChildList.XmlNode.InsertAfterChild | tools/rospack/tinyxml-2.5.3/tinyxml.cpp:259-288 | inserts after a child, or refuses and changes nothing |
| ChildList.XmlNode.ReplaceChild | tools/rospack/tinyxml-2.5.3/tinyxml.cpp:291-316 | replaces a child in place |
| ChildList.XmlNode.RemoveChild | tools/rospack/tinyxml-2.5.3/tinyxml.cpp:319-339 | removes a child and closes the gap |
| ChildList.XmlNode.Forward | tools/rospack/tinyxml-2.5.3/tinyxml.cpp:341-352 | walking `next` from the first child gives the children in order |
| ChildList.XmlNode.Backward | tools/rospack/tinyxml-2.5.3/tinyxml.cpp:355-365 | walking `prev` from the last child gives the reverse |
| AttributeSet.XmlAttributeSet.constructor | tools/rospack/tinyxml-2.5.3/tinyxml.cpp:1503-1507 | an empty ring |
| AttributeSet.XmlAttributeSet.Add | tools/rospack/tinyxml-2.5.3/tinyxml.cpp:1517-1530 | a new attribute goes to the end and the ring stays closed in both directions |
| AttributeSet.XmlAttributeSet.Find | tools/rospack/tinyxml-2.5.3/tinyxml.cpp:1552-1560 | finds an attribute exactly when there is one of the name |
| AttributeSet.XmlAttributeSet.Remove | tools/rospack/tinyxml-2.5.3/tinyxml.cpp:1532-1548 | unlinks exactly the given attribute |
| AttributeSet.XmlAttributeSet.SetAttribute | tools/rospack/tinyxml-2.5.3/tinyxml.cpp:718-745 | behaves as the update of an insertion-ordered map |
| AttributeSet.UpdateLookup | tools/rospack/tinyxml-2.5.3/tinyxml.cpp:718-745 | after an update the name has the new value and every other pair is as before |
| XmlInput.LoadLines | tools/rospack/tinyxml-2.5.3/tinyxml.cpp:1034-1076 | the block-copying loop equals the character-by-character rule of section 2.11 of XML 1.0 up to the first NUL |
| XmlInput.NormalizedOnce | tools/rospack/tinyxml-2.5.3/tinyxml.cpp:1034-1076 | no carriage return is left, and normalising again changes nothing |
| XmlInput.LineEndsBecomeOne | tools/rospack/tinyxml-2.5.3/tinyxml.cpp:1034-1076 | a carriage return with its line feed, or one on its own, becomes one line feed, and nothing else changes |
| XmlInput.ConvertUTF32ToUTF8 | tools/rospack/tinyxml-2.5.3/tinyxmlparser.cpp:90-128 | writes the layout of the table in section 3 of RFC 3629, whose payload is the code point, with the length that the byte table gives for the first byte |

## Left out

- MessageCompiler.DeserializeRebuildsTheMessage: byte arrays that were given as lists come back as byte strings, so the property is stated for byte strings; fixed arrays must have their declared length and lengths fit 32 bits.
- MessageCompiler.RoundTrip: floats are raw bit patterns, and the `canon()` calls on times and durations are not modelled, so times must be canonical already.
- GenpyGenerator.Generator.StringSerializer: Unicode strings and the numpy variant are not modelled.
- GenpyGenerator.Generator.DefineStructs: imports, class definitions, defaults and dynamic generation around the two methods are not modelled.
- ModuleGenerator.GenerateModule: the two methods for numpy arrays, which the source emits behind these two, are not modelled.
- PyCode: code that raises has no result; the conversion of such errors by `_check_types` is not modelled. Message objects are values, and the alias variables of generated code are paths into them, so sharing between two fields is not modelled.
- Registry.FlattenRegistered: array lengths are decimal digits, as the name checks of the loader leave them; the message text loader and the text for checksums are not modelled.
- Rospack.Rospack.Deps: one traversal order per run, since the memo does not depend on it; state after an exception is not described.
- Rospack.Rospack.Descendants: that the list is complete is not stated when a cycle leads to the package or chains are too long; the exception at the depth limit is caught on the way up.
- Rospack.Rospack.DependsOn: a package added because nobody crawled it has no manifest; that its name could be a path to one is not modelled.
- Rospack.Rospack.AccumulateDeps: requires that no cycle is reachable, since the recursion has no depth check and does not end otherwise.
- Rospack.Rospack.DirectDeps: packages are identified by their unique names; a lookup that triggers another crawl is not modelled.
- Rp.Rosstackage.GatherDepsFull: indented output is not modelled; on graphs with cycles the order of a post-order list is not described.
- Rp.Rosstackage.DependsOn: the order in which a hash table is iterated is arbitrary.
- Crawl.Crawler.CrawlForPackages: times, the ordering and length limit of the profile, the report of duplicates, the cache, and subdirectories that cannot be examined are not modelled; paths are their components.
- Handshake.ReadHeader: chunks are taken as they come, without the buffer size; the decoded dictionary is that of the first header also when decoding fails, only the kind of failure may depend on what follows.
- Handshake.HeaderRoundTrip: byte strings as in Python 2; values that are not strings are not modelled.
- XmlParser.Parse: the tree is a value and a failed parse has none, so partial trees behind an error are not modelled. One case is not an error in the source: an element at the top that repeats an attribute ends the parse without setting one, and the document keeps that element with the attributes before it, the repeated one with its last value, and no children; the model gives no document. Not modelled are declarations, documents with a byte-order mark or a declared encoding, and rows and columns. Where the source steps over the terminating NUL (a comment, CDATA section or quoted value without its end) the model fails.
- XmlDocuments.DocumentRoundTrip: documents with unknown nodes (`<...>` of no other kind) are not covered.
- XmlPrinter.Printer.Accept: the text of indented output is not described.
- ChildList.XmlNode.RemoveChild: deletion and cloning of subtrees are not modelled; a clone is a fresh node.
- AttributeSet.XmlAttributeSet.Find: iteration by `Next`, which recognises the sentinel by its empty name and value, is not modelled.
- Filesystem, environment, sockets beyond a byte stream, clocks and subprocesses are inputs or left out.
