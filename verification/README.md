# Hertz: a verified model of its hard parts

Hertz is an HTTP framework written in Go. This project models, in Dafny, the components whose
correctness is not evident from reading them: the route tree, the precedence pass of the tag-expression
parser, URI normalisation and its percent codecs, the static-file cache protocol, byte ranges, the
in-place key-value lists, the handler chain and the buffered network writer.
`dafny verify dfyconfig.toml` checks all of it.

| file | what it holds |
|---|---|
| `Shapes.dfy`, `Trie.dfy`, `Search.dfy` | patterns, matching and preference; the tree as a value; what each move of a lookup keeps |
| `Params.dfy` | the parameters a request is served with, against the text of the pattern |
| `RouteTree.dfy` | linked nodes with in-place splits and the backtracking loop |
| `ParamCount.dfy`, `Slots.dfy` | the 16-bit parameter counter; which tables let a request run out of parameter slots |
| `Engine.dfy`, `Dispatch.dfy` | the capacity all methods share; registration and lookup against the list of patterns |
| `Precedence.dfy`, `Grammar.dfy`, `ExprTree.dfy` | rotation to a fixpoint on values; the grammar of expressions, one level of operators above the other; the linked expression nodes and their parser |
| `ByteCodec.dfy`, `PathNormal.dfy`, `Uri.dfy` | percent codecs (sections 2.1 and 2.3 of RFC 3986), in-place path normalisation, parsing and printing of URIs |
| `UriLaws.dfy` | what the parser makes of each kind of request, on its text |
| `RfcPath.dfy` | the algorithm of section 5.2.4 of RFC 3986, and exactly where the code agrees with it |
| `FileCache.dfy`, `FileOrigins.dfy`, `FileHandler.dfy` | the cache as lock-atomic steps and their runs; which file a session gets; the critical sections as code |
| `Numbers.dfy`, `ByteRange.dfy` | integers on the wire; byte ranges (section 14.35 of RFC 2616) and the readers of small and big files |
| `Args.dfy`, `CookieText.dfy` | query strings and cookies; what the cookie parser reads, and which cookies survive printing |
| `ArgList.dfy`, `Cookies.dfy` | the slots behind a key-value list; late and early parsing of Cookie headers |
| `HandlerChain.dfy` | re-entrant `Next` and `Abort` on an 8-bit index |
| `NetWriter.dfy` | regions handed out of shared buffers and flushed in call order |
| `Options.dfy` | a value that may be missing |

## How the models are built

- Code that updates fields becomes a class or an array method, proved against a function on values; the
  main results are lemmas about those functions and about whole runs. Pointers of the source are object
  references where links are the point (route nodes, expression nodes, writer buffers). In the file cache
  the mutable fields of a file are maps from the file, because its steps interleave.
- A panic of the source is an outcome (`Outcome`, `Registration`, `Appended`, `Combined`), a result (`panics`)
  or a flag of the state (`panicked`).
- The tokens of a tag expression are given; an operand is an opaque atom or a group. Times, descriptors,
  open failures, seek failures and map iteration orders of the file cache are parameters of its steps, so
  the results hold for all of them. A handler is the list of its calls of `Next` and `Abort` in one run.
- Integers are unbounded except where width matters: the 16-bit parameter counter, the 8-bit handler index
  and the signed 64-bit arithmetic of the number parser wrap explicitly.

## Where the code falls short of a plain reading

Each of these has a witness and an exact condition.

- `countParams` is a `uint16`: a valid path with a multiple of 65536 parameters counts as having none
  (`ParamCount.CounterWraps`), and a lookup reslices the parameters past their capacity, which panics
  (`Dispatch.WrappedPanics`). A request panics exactly when some pattern of its method has a wildcard without a
  slot, fits the path up to and including it, and no matching pattern is preferred to that part
  (`Dispatch.RegisterAndServe`). No request of a method panics exactly when every shape registered for it has at
  most as many wildcards as there are slots (`Dispatch.NeverExceeds`); that holds when no path of the method has
  65536 wildcard characters or more (`Dispatch.CountableEnough`).
- A file whose type has to be read from its header is opened and, when the header cannot be read, neither kept
  nor closed. When all sessions are over and everything is stale, a pass of the cleaner has closed every descriptor
  exactly once if and only if no header was unreadable (`FileCache.NothingLeaks`); every unreadable one costs a
  descriptor for good (`FileCache.RunLeaks`, with any number of requests in `FileCache.HeadersLeak`).
- `IsAborted` also holds at the end of long chains that nobody aborted, since each call of `Next` and each
  return moves the index on. It tells the truth for a chain exactly when somebody aborts, or the number of
  handlers and of those among them that call `Next` add up to less than 63 (`HandlerChain.TruthfulExactly`),
  and for every chain of `n` handlers exactly when `2n < 63` (`HandlerChain.HonestExactly`). Thirty-two handlers
  that all pass on are the witness (`HandlerChain.LongChainLies`).
- A Cookie header that arrives raw after somebody has looked at the cookies is not found. Late parsing agrees
  with eager parsing exactly when there is none (`Cookies.LazyIsEager`, `Cookies.LateCookieMissed`).
- A printed request cookie is read back exactly when its name holds no `=` and no space at its ends, its value has no
  space at its ends and no quotes around it, no semicolon occurs, and a cookie without a name has no `=` in its value
  (`CookieText.CookiesExactly`; a value that carries quotes loses them, `CookieText.QuotesLost`).
- In a query string a plus sign means a space, except right behind a percent sign at the very end
  (`ByteCodec.PlusMeansSpace`, with `%+` in `ByteCodec.CutOffPlusStays`).
- `normalizePath` deviates from section 5.2.4 of RFC 3986 in duplicate slashes and in a final `.` segment. It
  agrees with the RFC exactly when the path does not end in a dot segment and leads equally deep whether or
  not empty segments count (`RfcPath.NormalizesLikeRfc`); with duplicate slashes collapsed first, exactly when
  it does not end in a dot segment (`RfcPath.CollapsedExactly`). `RfcPath.DuplicateDiffers` and
  `RfcPath.FinalDotDiffers` are the witnesses.
- A parsed URI is reproduced from its printed form exactly when no `@` is left in its host (`Uri.RoundTrip`,
  with `http://a@b@c/` in `Uri.AtLeftInHost`).
- `ParseUintBuf` accepts some numbers that overflow; digits are read as the number they stand for exactly
  below 2^63 (`Numbers.ParsesExactly`, `Numbers.OverflowMissed`).
- `SetByteRange` has no header for the smallest 64-bit integer (`ByteRange.RangeRoundTrip`).

## Model

| member | source | states |
|---|---|---|
| Shapes.SegmentLength | pkg/route/tree.go:405-408 | where a parameter stops: at the first slash, or at the end |
| Shapes.SubstituteCaptures | pkg/route/tree.go:401-469 | whenever a valid pattern matches, putting the captured values in place of its wildcards gives the request path back, one value a name |
| Shapes.CapturesCount | pkg/route/tree.go:409-417 | a matching shape captures exactly one value for each of its wildcards |
| Shapes.NamesCount | pkg/route/tree.go:151-192 | a pattern has one name for each wildcard of its shape |
| Shapes.ShapeAndNames | pkg/route/tree.go:151-192 | putting the names back behind the wildcards of the shape gives the registered path |
| Shapes.MatchesExactly | pkg/route/tree.go:353-462 | a pattern matches exactly the paths it reads as when its parameters take slash-free values, not empty at the end of the pattern, and its catch-all any value; those values are unique and are the captured ones |
| Shapes.BeforeMeans | pkg/route/tree.go:382-448 | one shape is preferred exactly when it is a proper prefix of the other, or at the first difference has text against a wildcard or a parameter against a catch-all |
| Params.FilledIsPath | pkg/route/tree.go:464-469 | replacing every `:name` and `*name` of the pattern by the value stored under the name gives the request path, for patterns with distinct names |
| Shapes.BeforeTotal | pkg/route/tree.go:353-462 | of two different shapes that match one path exactly one is preferred |
| Trie.SplitOk | pkg/route/tree.go:225-262 | splitting a cell keeps parents, distinct sibling labels and wildcard-free static prefixes |
| Trie.SplitTable | pkg/route/tree.go:225-262 | splitting changes no route |
| Trie.GrowOk | pkg/route/tree.go:272-294 | a new child keeps the tree well formed when no sibling starts with its label |
| Trie.GrowTable | pkg/route/tree.go:272-294 | a new child adds exactly its own route |
| Trie.AssignTable | pkg/route/tree.go:296-307 | giving a cell a route adds or replaces exactly that route |
| Search.BestUnique | pkg/route/tree.go:353-462 | at most one route is the best match of a path |
| Search.Enter | pkg/route/tree.go:389-392 | going down passes over no matching route and leaves strictly fewer nodes ahead |
| Search.Mismatch | pkg/route/tree.go:360-376 | leaving a static node whose prefix does not match loses no match |
| Search.Leave | pkg/route/tree.go:450-461 | backtracking to the next kind at the parent loses no match |
| Search.NothingLeft | pkg/route/tree.go:451-453 | when the search leaves the root no registered route matches |
| Search.Arrived | pkg/route/tree.go:378-381 | a route reached with nothing left to match is the best one |
| Search.ArrivedAny | pkg/route/tree.go:427-448 | a catch-all that is reached is the best match |
| Search.PosMatch | pkg/route/tree.go:355-359 | consuming a static prefix keeps the consumed text equal to the chain from the root |
| Search.PosParam | pkg/route/tree.go:401-425 | entering a parameter keeps search index, consumed text and number of captured values in step |
| Search.PosLeave | pkg/route/tree.go:322-351 | backtracking by the length of the prefix or of the last value restores the search text, its index and the captured values exactly |
| Search.WalkOn | pkg/route/tree.go:353-462 | a lookup that has gone from the root along links of the tree, with consumed text, remaining path and captured values in step at each point, goes on like that |
| Search.EnteredOnce | pkg/route/tree.go:322-462 | in every such lookup no node is entered twice |
| Search.EnteredOrAhead | pkg/route/tree.go:353-462 | at every point of a lookup each node whose text fits the path has been entered or is still ahead |
| Search.PanicsExactly | pkg/route/tree.go:401-448 | a lookup runs out of slots exactly when a route has one wildcard too many in a part that fits the path and no matching route is preferred to that part |
| RouteTree.Node.FindChild | pkg/route/tree.go:474-481 | the child with the label, or none has it |
| RouteTree.Node.FindChildWithLabel | pkg/route/tree.go:483-496 | a child with the label, the parameter or the catch-all child, or there is none |
| RouteTree.CheckPathValid | pkg/route/tree.go:115-149 | accepts exactly the rooted paths whose wildcards are named, one a segment, with a catch-all only at the end |
| RouteTree.SplitGood | pkg/route/tree.go:225-262 | the linked nodes after a split are a well-formed tree with the same routes |
| RouteTree.GrowGood | pkg/route/tree.go:285-294 | the linked nodes after adding a child are a well-formed tree with one more route |
| RouteTree.Router.SplitNode | pkg/route/tree.go:225-262 | the in-place split keeps every parent link and every route |
| RouteTree.Router.AddChild | pkg/route/tree.go:285-294 | a new node below another adds exactly its route |
| RouteTree.Router.SetRoute | pkg/route/tree.go:296-307 | an existing node gets a route and nothing else changes |
| RouteTree.Router.Plant | pkg/route/tree.go:214-224 | the first text turns the empty root into the whole tree |
| RouteTree.Router.Insert | pkg/route/tree.go:195-310 | inserting a shape adds exactly that route, and fails exactly when both the node and the new route have handlers |
| RouteTree.Router.AddRoute | pkg/route/tree.go:151-192 | for a valid path with handlers it fails exactly when a route of the same shape exists; otherwise the table becomes the old one plus exactly the new route |
| RouteTree.Router.EnterNode | pkg/route/tree.go:354-399 | one step down or to the parameter keeps the position of the search |
| RouteTree.Router.TryParam | pkg/route/tree.go:401-426 | entering the parameter child stores the value in the next slot, and panics only when all slots are taken, some path is left and there is a parameter child |
| RouteTree.Router.TryAny | pkg/route/tree.go:427-448 | the catch-all child takes the rest of the path |
| RouteTree.Router.Backtrack | pkg/route/tree.go:322-351 | backtracking restores index, search text and parameters |
| RouteTree.ParamList.Get | pkg/route/param/param.go:56-63 | the value of the first parameter with the name, or nothing exactly when there is none |
| RouteTree.Router.BindNames | pkg/route/tree.go:464-469 | the name of each slot is the name of the pattern at that place, the values stay |
| RouteTree.Router.Find | pkg/route/tree.go:313-472 | returns the handlers, full path and bound parameters of the best matching route, or nothing exactly when no route matches; the way it goes starts at the root, moves along links without coming back, has consumed text, remaining path and values in step at each point, and ends at the accepting node or back at the root; on a panic it stands, with all slots taken, before a parameter or catch-all child it would enter |
| ParamCount.CountParams | pkg/route/tree.go:73-79 | the number of wildcard characters modulo 65536 |
| ParamCount.WildcardsBound | pkg/route/tree.go:73-79 | a valid path has at least one wildcard character for each wildcard, and at most one more |
| ParamCount.CounterCovers | pkg/route/engine.go:724-727 | the counter covers the wildcards of a valid path exactly when it does not wrap |
| ParamCount.CounterWraps | pkg/route/tree.go:73-79 | a valid path with a multiple of 65536 parameters counts as none |
| Slots.OwnRequest | pkg/route/tree.go:353-462 | a shape up to a wildcard, read as a request, fits, and no matching route is preferred to it unless that goes on with a parameter where it has its catch-all |
| Slots.CoversExactly | pkg/route/engine.go:785-789 | no rooted request runs out of slots if and only if every route of the table has at most as many wildcards as there are slots |
| Engine.Engine.CoveredExactly | pkg/route/engine.go:724-727 | the capacity suffices for every text of the tree exactly when it does for every route |
| Engine.Engine.AddRoute | pkg/route/engine.go:704-728 | for every method registers exactly the valid new routes; the shared capacity becomes the larger of the old one and the path's count, and stays sufficient while the counter does not wrap |
| Engine.Engine.AddElsewhere | pkg/route/engine.go:717-722 | a registration for another method is refused for an invalid path or a known shape, and otherwise adds exactly its shape |
| Engine.Engine.RaiseTo | pkg/route/engine.go:724-727 | the capacity becomes the larger of the old one and the count of the path |
| Engine.Engine.Serve | pkg/route/engine.go:785-789 | the parameters get exactly the capacity, or keep their larger buffer; then a lookup panics exactly when it meets a wildcard beyond the slots, and otherwise answers with the best route |
| Dispatch.TableHas | pkg/route/tree.go:151-192 | every accepted registration of a list is in the table of its method with its handlers and names |
| Dispatch.TableFrom | pkg/route/tree.go:151-192 | the table holds nothing else |
| Dispatch.OneWinner | pkg/route/tree.go:313-472 | at most one pattern of a list wins for a method and a path |
| Dispatch.Register | pkg/route/engine.go:704-728 | registering a list over several methods in order gives each method exactly its accepted patterns; the capacity is the largest 16-bit count of an accepted path of any method, and suffices exactly when every shape of the method has at most as many wildcards |
| Dispatch.CapacityIsLargest | pkg/route/engine.go:724-727 | the capacity is at least the count of every accepted path, and is one of them or zero |
| Dispatch.NeverExceeds | pkg/route/engine.go:785-789 | no rooted request of a method runs out of slots if and only if every pattern registered for it has at most as many wildcards as there are slots |
| Dispatch.CountableEnough | pkg/route/engine.go:724-727 | the capacity is enough for a method none of whose paths makes the counter wrap |
| Dispatch.LonePattern | pkg/route/tree.go:401-426 | a lone pattern with more wildcards than slots runs out of them on every path it matches |
| Dispatch.WrappedPanics | pkg/route/engine.go:785-789 | registering one path with a multiple of 65536 parameters and serving a path it matches panics |
| Dispatch.RegisterAndServe | pkg/route/tree.go:313-472 | for every list of registrations over several methods and every path, the result is that of the one pattern registered for the method that matches and is preferred to all others, with each name of the pattern next to its value and values that reproduce the path, also when they are looked up by their names; nothing is returned exactly when no pattern matches; it panics exactly when a pattern of the method has a wildcard without a slot, fits the path that far, and no matching pattern is preferred to that part |
| Precedence.Weakest | internal/tagexpr/expr.go:193-251 | the last operator of lowest priority, where the reference tree splits |
| Precedence.RotateKeeps | internal/tagexpr/expr.go:211-229 | a rotation keeps the sequence of operands and operators |
| Precedence.RotateProgress | internal/tagexpr/expr.go:211-229 | a rotation strictly lowers the sum of left-subtree sizes and keeps right operators tighter than their root |
| Precedence.SubSortKeeps | internal/tagexpr/expr.go:198-209 | a pass keeps the token sequence and the invariant, lowers the measure when it reports a change, and reports none exactly when no node binds tighter than its left child |
| Precedence.StableIsReference | internal/tagexpr/expr.go:193-209 | a tree with the invariant that no pass changes is the tree of the reference parser |
| Precedence.SortIsReference | internal/tagexpr/expr.go:193-196 | the passes terminate at the reference tree |
| Grammar.Levels | internal/tagexpr/expr.go:231-254 | the operators of each level of the grammar are exactly those of its priority |
| Grammar.ReferenceIsGrammar | internal/tagexpr/expr.go:182-191 | for every token sequence the reference parser builds a tree exactly when it is a tree of the grammar: or, and, equality, comparison, sum, product, operand, each level leaning left; so there is at most one |
| Grammar.LevelIsBuilt | internal/tagexpr/expr.go:193-209 | every tree of the grammar is the one the reference builds from its operands and operators |
| ExprTree.ReadAgrees | internal/tagexpr/expr.go:46-91 | the parser and the reference parser accept the same tokens and read the same operands and operators |
| ExprTree.LeanAllKeeps | internal/tagexpr/expr.go:46-91 | the left-leaning tree holds the tokens in order and starts with the invariant |
| ExprTree.ParseThenSort | internal/tagexpr/expr.go:32-91 | for every token sequence with nested groups, parse and sort fail exactly when the grammar has no tree for the tokens and otherwise give the only one |
| ExprTree.LeftOperandToParent | internal/tagexpr/expr.go:211-229 | the link updates are the rotation, with agreeing parent and child links |
| ExprTree.SubSortPriority | internal/tagexpr/expr.go:198-209 | the pass over linked nodes is the pass over values |
| ExprTree.SortPriority | internal/tagexpr/expr.go:193-196 | the loop ends with the sorted tree under the same group |
| ExprTree.FirstOperator | internal/tagexpr/expr.go:77-81 | the first operator goes between the group and its operand |
| ExprTree.NextOperator | internal/tagexpr/expr.go:82-88 | a later operator goes above the last one, which gets its right operand |
| ExprTree.ParseExprNode | internal/tagexpr/expr.go:46-91 | the parser accepts what the chain reader accepts and links the left-leaning tree |
| ExprTree.ParseExpr | internal/tagexpr/expr.go:32-44 | nothing is returned exactly when the grammar has no tree for the tokens; otherwise the linked nodes under the returned group are that tree |
| ByteCodec.HexDigits | internal/bytesconv/bytesconv_table_gen.go:59-73 | the bytes with a value are exactly the digits that printing yields, in either case, and printing that value gives the digit back |
| ByteCodec.AppendQuotedArg | internal/bytesconv/bytesconv.go:221-233 | appends the quoted argument |
| ByteCodec.AppendQuotedPath | internal/bytesconv/bytesconv.go:204-218 | appends the quoted path, a lone star as it is |
| ByteCodec.DecodePlain | pkg/protocol/args.go:134-138 | on text without encoded characters the fast path of both decoders is the slow path |
| ByteCodec.DecodeAppend | pkg/protocol/args.go:134-162 | both decoders append the decoded text, malformed and cut-off escapes included |
| ByteCodec.DecodesExactly | pkg/protocol/args.go:134-162 | for every text: escapes with digits of either case stand for their byte, every other byte for itself, the percent sign of a malformed or cut-off escape included |
| ByteCodec.PlusMeansSpace | pkg/protocol/args.go:134-162 | decoding with plus signs is decoding with spaces in their place, exactly when the text does not end in `%+` |
| ByteCodec.CutOffPlusStays | pkg/protocol/args.go:134-162 | `%+` is left as it is |
| ByteCodec.QuoteArgFixed | internal/bytesconv/bytesconv.go:221-233 | an argument is left alone exactly when all its bytes are unreserved |
| ByteCodec.QuotePathExactly | internal/bytesconv/bytesconv.go:204-218 | a path is left alone exactly when it is a lone star or all its bytes may stand in a path |
| ByteCodec.DecodeQuotedArg | internal/bytesconv/bytesconv.go:221-233 | decoding undoes quoting on every byte string |
| ByteCodec.DecodeQuotedPath | internal/bytesconv/bytesconv.go:204-218 | decoding without plus signs undoes path quoting on every byte string |
| PathNormal.NormalizeIsNormal | pkg/protocol/uri.go:503-573 | the result starts with a slash, contains no `//`, `/./` or `/../` and does not end in `/..` |
| PathNormal.NormalFixed | pkg/protocol/uri.go:503-573 | a normal path is left alone |
| PathNormal.SkipKeeps | pkg/protocol/uri.go:520-545 | taking an empty or dot segment out does not change what the segment machine computes |
| PathNormal.UpKeeps | pkg/protocol/uri.go:547-560 | taking the first step up out with the segment before it does not either |
| PathNormal.OccursIsSegment | pkg/protocol/uri.go:503-573 | a pattern between two slashes found in the buffer is a segment of the path |
| PathNormal.DropDuplicates | pkg/protocol/uri.go:520-533 | the in-place loop removes every duplicate slash |
| PathNormal.DropDots | pkg/protocol/uri.go:535-545 | the in-place loop removes every dot segment but a final one |
| PathNormal.DropSteps | pkg/protocol/uri.go:547-560 | the in-place loop removes each step up with the segment before it |
| PathNormal.DropTrailing | pkg/protocol/uri.go:562-572 | a final step up is removed |
| PathNormal.RootedMeans | pkg/protocol/uri.go:504-506 | a path without its leading slash is read as if it had one |
| PathNormal.NormalizePath | pkg/protocol/uri.go:503-573 | for every input the edited buffer is the decoded path as the left-to-right segment machine leaves it |
| RfcPath.TextIsSegments | pkg/protocol/uri.go:503-573 | the loop of section 5.2.4 of RFC 3986 on its two buffers is a machine on segments that counts empty ones |
| RfcPath.AgreesExactly | pkg/protocol/uri.go:503-573 | on segments: the code does what the RFC prescribes exactly when the last is no dot and the path leads equally deep whether or not empty segments count |
| RfcPath.NormalizesLikeRfc | pkg/protocol/uri.go:503-573 | the same on text, for every rooted path |
| RfcPath.AgreesFilled | pkg/protocol/uri.go:503-573 | without empty segments before the last they agree exactly when the last is no dot |
| RfcPath.FilledExactly | pkg/protocol/uri.go:520-533 | for all segments: the code agrees with the RFC on the segments without the empty ones exactly when the last is no dot |
| RfcPath.CollapsedExactly | pkg/protocol/uri.go:520-533 | on text: the code agrees with the RFC on the path with its slashes collapsed exactly when it does not end in a dot segment |
| RfcPath.DuplicateDiffers | pkg/protocol/uri.go:520-533 | `/a//b` becomes `/a/b`, and the RFC leaves it alone |
| RfcPath.FinalDotDiffers | pkg/protocol/uri.go:535-545 | `/a/.` is left alone, and the RFC makes it `/a/` |
| Uri.GetScheme | pkg/protocol/uri.go:379-398 | finds a scheme exactly where one stands before a colon |
| Uri.SplitHost | pkg/protocol/uri.go:481-501 | scheme, authority and target as the specification splits them |
| Uri.URI.SplitAuthority | pkg/protocol/uri.go:419-433 | user, password and lower-case host of an authority |
| Uri.URI.SplitTarget | pkg/protocol/uri.go:435-467 | path, query and fragment of a target |
| Uri.URI.CutTarget | pkg/protocol/uri.go:435-467 | where path, query and fragment end; a question mark behind the fragment sign belongs to the fragment |
| Uri.URI.Parse | pkg/protocol/uri.go:400-468 | the fields after parsing are the parts of the URI |
| UriLaws.HostAndTarget | pkg/protocol/uri.go:407-468 | for a host and a target without `://`: the host is the authority, the scheme is `https` with TLS and open otherwise, and path, query and fragment with their separators are the target |
| UriLaws.AbsoluteUri | pkg/protocol/uri.go:407-468 | for an absolute URI its own scheme and authority count, whatever the host; the authority ends at the first slash, else at the first question mark, else at the end |
| UriLaws.TargetAlone | pkg/protocol/uri.go:481-488 | without a host and without a scheme everything is target |
| UriLaws.AuthorityMeans | pkg/protocol/uri.go:419-433 | without an `@` the authority is the host, byte by byte in lower case; otherwise the first `@` ends the credentials and their first colon the name |
| UriLaws.Credentials | pkg/protocol/uri.go:419-433 | name, colon, password, `@` and host are read back as exactly these |
| UriLaws.TargetMeans | pkg/protocol/uri.go:435-467 | the target is cut at its first `#` and before that at its first `?`, and nothing is lost |
| UriLaws.ControlRefused | pkg/protocol/uri.go:403-405 | a control byte anywhere leaves everything empty |
| Uri.URI.FullURI | pkg/protocol/uri.go:661-700 | prints scheme, host, quoted path, query and fragment |
| Uri.ParsedWellFormed | pkg/protocol/uri.go:400-468 | every parsed URI has a lower-case scheme and host, a normal path, and no control character in its host, query and fragment |
| Uri.QuotedAgain | pkg/protocol/uri.go:672-688 | normalising the quoted form of a normal path gives the path back |
| Uri.PrintedSplits | pkg/protocol/uri.go:481-501 | a printed URI splits into the scheme, host and target it was printed from |
| Uri.TargetAgain | pkg/protocol/uri.go:435-467 | a printed target gives path, query and fragment back |
| Uri.RoundTrip | pkg/protocol/uri.go:661-700 | parsing a printed URI gives the same parts exactly when no `@` is left in its host |
| Uri.ReparsedHost | pkg/protocol/uri.go:419-433 | parsing what a well-formed URI prints as takes everything up to the first `@` off its host |
| Uri.AtLeft | pkg/protocol/uri.go:419-433 | `http://u@v@w/` has the host `v@w`, and `w` once printed and parsed again |
| Uri.AtLeftInHost | pkg/protocol/uri.go:419-433 | `http://a@b@c/` does not survive printing and parsing |
| FileCache.StepKeeps | pkg/app/fs.go:796-889 | every step of a session or the cleaner keeps the invariant of places, owners, counts and readers |
| FileCache.CleanMoves | pkg/app/fs.go:427-454 | a pass moves exactly the old pending files and the stale cached ones, the counted ones to pending, the others to release, each once |
| FileCache.ReadersRelease | pkg/app/fs.go:969-981 | releasing a file closes its pooled readers exactly as often as the file |
| FileCache.CountsAreHolders | pkg/app/fs.go:732-739 | in every interleaving the count of a file is the number of sessions holding it, no decrement goes below zero, and a held file is neither released nor about to be |
| FileCache.OnePlaceEach | pkg/app/fs.go:829-889 | every opened file is in exactly one place: with its opener, in one slot of one cache, once pending, once to be released, released, once, or leaked |
| FileCache.ReaderInUse | pkg/app/fs.go:741-769 | a session that reads a big file has an open reader of that file to itself, not pooled |
| FileCache.ReadersClosed | pkg/app/fs.go:408-425 | no reader is closed twice, and all readers of a released file are closed |
| FileCache.ReleasedForGood | pkg/app/fs.go:969-981 | a released file stays released, once, and is never handed out again |
| FileCache.RunLeaks | pkg/app/fs.go:609-612 | over every run the leaked descriptors are exactly those of unreadable headers, one for each |
| FileCache.LeakedForGood | pkg/app/fs.go:609-612 | no later step closes a leaked file |
| FileCache.NothingLeaks | pkg/app/fs.go:427-454 | when all sessions are over, one pass that finds every cached file stale and its releases close every reader, and every opened file but those with an unreadable header, exactly once; so every file is closed exactly once if and only if the run has no unreadable header |
| FileCache.HeadersLeak | pkg/app/fs.go:1063-1070 | any number of requests for a file with an unreadable header end with as many descriptors open |
| FileCache.DueReleased | pkg/app/fs.go:427-454 | in every run a file that a pass finds unheld, and pending or stale, is released once with all its readers by the time the pass has worked off its list, whatever other sessions do |
| FileCache.YoungStays | pkg/app/fs.go:987-1003 | in every run a pass leaves in a cache exactly the files opened at most the keeping time ago |
| FileOrigins.RightFile | pkg/app/fs.go:821-889 | in every run each entry of a cache was opened for its path and its encoding, and whatever file a session holds or reads was opened for the path and encoding it asked for, and is still what was opened |
| FileOrigins.StepRight | pkg/app/fs.go:866-882 | every step keeps that |
| FileCache.HeldGoesPending | pkg/app/fs.go:987-1003 | a run in which a file goes stale while it is held and becomes pending |
| FileHandler.SortPending | pkg/app/fs.go:432-443 | splits the pending list by the counts, in order |
| FileHandler.CleanCacheNolock | pkg/app/fs.go:987-1003 | for any iteration order, deletes exactly the stale entries and lists their files by count |
| FileHandler.Handler.LookUp | pkg/app/fs.go:829-834 | one lookup step; a hit is exactly a path in the cache of its encoding, and is counted under the lock |
| FileHandler.ReadFileHeader | pkg/app/fs.go:1063-1088 | fails exactly when a compressed file has no gzip header, the bytes cannot be read or the file cannot be rewound |
| FileHandler.Handler.NewFile | pkg/app/fs.go:598-630 | an opened file is kept when its size fits and its type is known or its header can be read; a size that does not fit closes it, an unreadable header leaves it open for good |
| FileHandler.Handler.KeepFile | pkg/app/fs.go:617-629 | one opening step; the file's descriptor is open, a directory index has none |
| FileHandler.Handler.OpenBig | pkg/app/fs.go:760-769 | one step that opens a second descriptor on a big file |
| FileHandler.Handler.ReleaseLoser | pkg/app/fs.go:876-882 | one step; the slower session closes its own file and holds the other |
| FileHandler.Handler.PublishFile | pkg/app/fs.go:866-882 | one publication step: into a free slot of the cache of its encoding, and nowhere else; the loser uses the file that is there |
| FileHandler.Handler.TakeReader | pkg/app/fs.go:741-780 | one reader step; a big file hands out the last pooled reader |
| FileHandler.Handler.GiveBack | pkg/app/fs.go:408-425 | the reader is pooled, or its descriptor closed when it cannot be rewound, before the count drops |
| FileHandler.Handler.DecReadersCount | pkg/app/fs.go:732-739 | one decrement step, which never panics |
| FileHandler.Handler.CleanCache | pkg/app/fs.go:427-454 | a pass and its releases are one cleaning step followed by releases until none is left, each closing the file and its pooled readers |
| FileHandler.Handler.CloseDescriptors | pkg/app/fs.go:969-981 | closes the file and, for a big one, exactly its pooled readers |
| FileHandler.ReleaseCloses | pkg/app/fs.go:969-981 | the descriptors open after a release are those open before without the file and its pooled readers |
| Numbers.ParseUintBuf | internal/bytesconv/bytesconv.go:150-173 | the loop is the digit reader with 64-bit wrap-around and its overflow test |
| Numbers.ParsedUint | internal/bytesconv/bytesconv.go:241-247 | only strings of digits are accepted, and no accepted value is negative |
| Numbers.ParsesExactly | internal/bytesconv/bytesconv.go:150-173 | digits are read as the number they stand for exactly when it is below 2^63 |
| Numbers.OverflowMissed | internal/bytesconv/bytesconv.go:165-169 | 25000000000000000000 is accepted with a different value |
| Numbers.NumberPlaces | internal/bytesconv/bytesconv.go:150-173 | the first of several digits counts for as many tens as digits follow |
| Numbers.NoLeadingZero | internal/bytesconv/bytesconv.go:176-196 | only zero is printed with a zero in front |
| Numbers.UintRoundTrip | internal/bytesconv/bytesconv.go:241-247 | every non-negative 64-bit integer is read back from its digits |
| Numbers.AppendUint | internal/bytesconv/bytesconv.go:176-196 | appends the decimal digits within a 20-byte scratch buffer; negative numbers panic |
| Numbers.EncodedIntHexLen | internal/bytesconv/bytesconv.go:89-99 | the printed length |
| Numbers.AppendIntHex | internal/bytesconv/bytesconv.go:101-113 | appends the hexadecimal digits within a 16-byte scratch buffer |
| Numbers.Reader.ReadHexInt | internal/bytesconv/bytesconv.go:115-148 | reads up to fifteen digits and stops right behind them; none or more are errors; never overflows |
| Numbers.HexPlaces | internal/bytesconv/bytesconv.go:115-148 | the first of several digits counts for as many sixteens as digits follow |
| Numbers.HexInLowerCase | internal/bytesconv/bytesconv.go:101-113 | numbers are printed with lower-case digits |
| Numbers.HexRoundTrip | internal/bytesconv/bytesconv_64.go:46-48 | printed digits in front of anything else are read back, for all numbers below 2^60 |
| ByteRange.RangeWithin | pkg/app/fs.go:1097-1148 | an accepted range satisfies 0 <= start <= end + 1 <= length |
| ByteRange.AcceptedExactly | pkg/app/fs.go:1097-1148 | a header is accepted with a start and an end exactly when it asks for them as a suffix, as a start with an open end or as a start and an end; everything else is refused |
| ByteRange.SetByteRange | pkg/protocol/header.go:1052-1068 | builds the header value for a range, a suffix or an open end |
| ByteRange.RangeRoundTrip | pkg/protocol/header.go:1052-1068 | parsing undoes setting up to clipping, exactly when the start is not the smallest integer |
| ByteRange.SmallFileReader.Read | pkg/app/fs.go:204-223 | delivers the next bytes of the range, and the end exactly when it is exhausted |
| ByteRange.SmallFileReader.ReadAll | pkg/app/fs.go:198-223 | any buffer sizes deliver a prefix of the range, and all of it at the end |
| ByteRange.BigFileReader.UpdateByteRange | pkg/app/fs.go:384-392 | what is left to deliver is exactly the range |
| ByteRange.BigFileReader.Read | pkg/app/fs.go:394-396 | delivers some of what is left, however short the read, and the end exactly when nothing is and anything was asked for or a limit is set |
| ByteRange.BigFileReader.ReadAll | pkg/app/fs.go:394-396 | any buffer sizes and read lengths deliver a prefix of what was left, and all of it once the end is reported, at the latest after one buffer more than there are bytes |
| ByteRange.BigFileReader.Rewind | pkg/app/fs.go:408-415 | a reader given back is ready to deliver the whole file again |
| ByteRange.ServeRange | pkg/app/fs.go:905-927 | a range request delivers a prefix of the parsed range, and exactly the range at its end, from a small file or a big one and with any buffers |
| Args.ScanQuery | pkg/protocol/args.go:94-132 | one step of the scanner decodes the segment up to the next ampersand |
| Args.AppendQuery | pkg/protocol/args.go:407-423 | appends the printed argument list |
| Args.FirstEquals | pkg/protocol/args.go:105-110 | the first equals sign separates key and value; later ones belong to the value |
| Args.NoEquals | pkg/protocol/args.go:124-127 | a segment without one is a key without a value |
| Args.JoinedQuery | pkg/protocol/args.go:352-370 | segments with ampersands between them are read one by one, the empty ones left out |
| Args.SegmentRoundTrip | pkg/protocol/args.go:94-132 | a printed argument is read back, no-value flag included |
| Args.QueryRoundTrip | pkg/protocol/args.go:352-370 | parsing a printed list gives the list back minus the arguments that are empty altogether |
| Args.QueryStable | pkg/protocol/args.go:352-370 | printing what was parsed and parsing again changes nothing |
| ArgList.DelAll | pkg/protocol/args.go:255-268 | in place: the entries without the key in order, then the freed slots, then the spare ones untouched |
| ArgList.DeletedPermutes | pkg/protocol/args.go:255-268 | deletion permutes the slots |
| ArgList.SelectIsWithout | pkg/protocol/args.go:255-268 | what stays live is the stable filter of the entries |
| ArgList.PermutedApart | pkg/protocol/args.go:255-268 | a permutation of slots keeps their buffers apart |
| ArgList.KeyValues.Alloc | pkg/protocol/args.go:164-178 | one more live slot: the next spare one with its buffers when there is one, a larger array otherwise; no two slots share a buffer |
| ArgList.KeyValues.Append | pkg/protocol/header.go:1583-1594 | one more entry at the end, buffers kept apart |
| ArgList.KeyValues.Set | pkg/protocol/args.go:197-212 | replaces the first entry with the key or appends one |
| ArgList.KeyValues.PeekValue | pkg/protocol/args.go:323-341 | the value of the first entry with the key, or nothing exactly when there is none |
| ArgList.SetThenPeek | pkg/protocol/args.go:197-212 | after setting a key it has the new entry, and every other key has what it had |
| ArgList.DelThenPeek | pkg/protocol/args.go:255-268 | after deleting a key it has none, and every other key has what it had |
| ArgList.KeyValues.Del | pkg/protocol/args.go:85-87 | removes every entry with the key and only permutes the slots |
| ArgList.KeyValues.ParseBytes | pkg/protocol/args.go:352-370 | reading a query into reused slots gives the parsed list, buffers kept apart |
| ArgList.KeyValues.AppendCookies | pkg/protocol/cookie.go:286-297 | reading a Cookie header into reused slots appends its cookies, buffers kept apart |
| Args.DecodeCookieArg | pkg/protocol/cookie.go:564-577 | trims spaces, then one pair of quotes when asked to |
| Args.ScanCookie | pkg/protocol/cookie.go:299-331 | one step of the cookie scanner reads the segment up to the next semicolon |
| CookieText.DecodeMeans | pkg/protocol/cookie.go:564-577 | decoding takes off all spaces at the ends and nothing else, then at most one pair of quotes, when asked to |
| CookieText.JoinedReads | pkg/protocol/cookie.go:286-331 | segments with a semicolon and a space between them are read one by one |
| CookieText.ParsedApart | pkg/protocol/cookie.go:286-331 | a semicolon separates what is before it from what is behind it, in any text |
| CookieText.AppendRequestCookies | pkg/protocol/cookie.go:254-267 | appends the printed cookies |
| CookieText.CookiesExactly | pkg/protocol/cookie.go:254-331 | parsing a printed list of cookies gives the list back if and only if every cookie has a plain name and value |
| CookieText.QuotedRoundTrip | pkg/protocol/cookie.go:564-577 | with quotes around the values they are read back whatever they are, semicolons aside |
| CookieText.QuotesLost | pkg/protocol/cookie.go:571-575 | a value that carries quotes of its own loses them |
| Cookies.CookieKeyMeans | pkg/common/utils/utils.go:73-83 | the Cookie header is recognised in exactly the spellings of its name in upper and lower case |
| Cookies.EagerIsOneHeader | pkg/protocol/cookie.go:286-297 | eager parsing finds the cookies of all Cookie headers as if they were one header |
| Cookies.TakeCookies | pkg/protocol/header.go:1371-1382 | in place: takes the Cookie headers out of the slots and parses them in order into the cookie list |
| Cookies.RequestHeader.CollectCookies | pkg/protocol/header.go:1366-1384 | the first time: the remaining headers are the stable filter, the cookies those of every Cookie header in order, the slots only permuted; later: nothing |
| Cookies.RequestHeader.AddArgBytes | pkg/protocol/header.go:1292-1294 | one more header at the end, with or without a value, a Cookie header included |
| Cookies.RequestHeader.Set | pkg/protocol/header.go:1812-1815 | a Cookie header is parsed behind those that waited; another header replaces the first of its key |
| Cookies.TracksAlways | pkg/protocol/header.go:1366-1384 | what the list and the cookies are after every sequence of operations, before and after the first look |
| Cookies.LazyIsEager | pkg/protocol/header.go:1366-1384 | for every sequence of raw additions, set headers and looks, a final look finds the cookies and leaves the headers of eager parsing exactly when no raw Cookie header followed an earlier look |
| Cookies.LateCookies | pkg/protocol/header.go:1366-1369 | the cookies of a header that arrives after a look are not found, and would be without the look |
| Cookies.LateCookieMissed | pkg/protocol/header.go:1292-1294 | `Cookie: a=1`, a look, `Cookie: b=2`, and a look again: `b` is missing |
| Cookies.RequestHeader.Replay | pkg/protocol/header.go:1366-1384 | replaying operations on a header and looking agrees with eager parsing under exactly that condition |
| HandlerChain.StartsExactly | pkg/app/context.go:824-830 | whatever the handlers do and however often: they start in order and at most once each, exactly those up to the first that aborts before anything else, or all of them |
| HandlerChain.RunStopped | pkg/app/context.go:1085-1087 | after an abort nobody starts, `IsAborted` stays true and a handler moves the index on only by its own calls |
| HandlerChain.RunOnce | pkg/app/context.go:824-830 | a handler at its own index stops the chain exactly when it or a later one it runs aborts; otherwise the index ends at the number of handlers plus the calls of `Next` from there on |
| HandlerChain.ChainRuns | pkg/app/context.go:824-830 | handlers start in order and at most once: all if nobody aborts, otherwise those before the abort; without an abort the index ends at the number of handlers plus that of their calls; no index exceeds twice the abort index |
| HandlerChain.BoundReached | pkg/route/routergroup.go:223-232 | a longest chain reaches that bound |
| HandlerChain.TruthfulExactly | pkg/app/context.go:1190-1192 | `IsAborted` tells the truth at the end of a chain exactly when somebody aborts, or handlers and calls of `Next` add up to less than the abort index |
| HandlerChain.HonestExactly | pkg/app/context.go:1190-1192 | `IsAborted` tells the truth at the end of every chain of a length exactly when twice the length is below the abort index |
| HandlerChain.LongChainLies | pkg/app/context.go:1190-1192 | after 32 handlers that all pass on nobody has aborted and `IsAborted` holds |
| HandlerChain.RepeatedNext | pkg/app/context.go:824-830 | repeated calls in an aborted context fail exactly when they carry the index past 127 |
| HandlerChain.CombineHandlers | pkg/route/routergroup.go:223-232 | the group's handlers followed by the route's, refused from the abort index on |
| HandlerChain.RequestContext.Next | pkg/app/context.go:824-830 | the re-entrant loop has the effect of the chain semantics, panics included |
| HandlerChain.RequestContext.Abort | pkg/app/context.go:1085-1087 | `IsAborted` holds, and the first abort is remembered |
| HandlerChain.RequestContext.Serve | pkg/app/context.go:824-830 | a fresh context starts exactly the handlers up to the first that aborts before anything else; without repeated calls of `Next` there is no panic, and `IsAborted` holds when somebody aborted |
| NetWriter.Disjoint | pkg/network/writer.go:58-74 | regions handed out of one buffer do not overlap and lie in call order |
| NetWriter.Writer.Malloc | pkg/network/writer.go:58-74 | one more region of the asked size, in the last buffer or a new one |
| NetWriter.Writer.WriteBinary | pkg/network/writer.go:76-88 | a short slice is copied into its own region without touching others, a long one is borrowed |
| NetWriter.DataAll | pkg/network/writer.go:90-99 | the nodes together hold what the regions and borrowed slices hold, in call order |
| NetWriter.Writer.Flush | pkg/network/writer.go:90-99 | when the writes succeed the output is the concatenation of what each region and borrowed slice then holds, in call order; when one fails, after part of a node, it is a prefix; every buffer is freed |
| NetWriter.Writer.Release | pkg/network/writer.go:46-56 | every buffer of the writer is freed once and no borrowed slice is |

## Left out

- The `tsr` hint and `findCaseInsensitivePath` of the route tree, whose redirect target is not promised to match.
- RouteTree.Router.Find: models lookups without unescaping of values, because backtracking restores by the length of the stored value.
- The `isLeaf` field of route nodes, which no modelled operation reads.
- Engine.Engine.AddElsewhere: the trees of the methods other than the one looked at are sets of shapes, not linked nodes.
- Tokenising, evaluation and the sign and negation marks of tag expressions; operands are opaque atoms.
- URI query arguments once parsed, `DisablePathNormalizing`, `UpdateBytes` and the Windows build.
- Opening, compressing and stating real files, MIME detection and response headers of the file handler; a file is its bytes, and how the calls of the operating system end is given.
- The pool of small-file readers and `WriteTo` of both readers.
- Numbers.ParseUintBuf: no claim on which overflowing numbers are refused, since the source's own test misses some.
- Cookies.RequestHeader.Set: of the special headers only the Cookie header is special here.
- Appending to a region beyond its length, which the shared capacity of Go slices would allow.
- Header-key normalisation, trailers, response cookies and `Set-Cookie` attributes.
- Network transports, TLS, rendering, binding, multipart bodies, tracing and the code generator.
- 32-bit platforms.
