# CitySDK tourism client — a Dafny model of its core

The CitySDK tourism client is a Java library. It queries a CitySDK tourism
server for points of interest (POIs), events and routes, and reads the
records the server sends back. This project models the library's core in
Dafny and proves what each part promises:

- **URI templates** (`uri_template.dfy`, `template_syntax.dfy`,
  `encoding.dfy`, `operator.dfy`, `uri_template_properties.dfy`). The
  server publishes its query URLs as RFC 6570-style templates such as
  `{?category*,tag:2,show}`. `UriTemplate` binds names to values (first
  write wins) and `build` expands every `{...}` span. Each span is expanded
  under the operator its first character selects: the prefix, then each
  `\w+` name rendered as a scalar, a list or a map (exploded with `*`,
  truncated with `:N`), with one trailing separator dropped. The two
  regular expressions are modelled by their `find()` loops, and
  `URLEncoder.encode` by a character-wise UTF-8 percent-encoder. Its
  round trip through a decoder is proved.
- **Terms and requests** (`parameter_terms.dfy`, `resource_terms.dfy`,
  `parameter.dfy`, `parameter_list.dfy`). These are the enum registries of
  search parameters and resources, with their parent/child lists built in
  declaration order. A `Parameter` validates its term and then its value.
  `ParameterList` keeps one parameter per term.
- **Server resources** (`resources.dfy`, `hypermedia_link.dfy`,
  `maps.dfy`). These hold the versions a server offers, each with a
  `HypermediaLink` of templated links, and answer whether a resource's
  template accepts a given search parameter.
- **Reading POI data** (`data_reader.dfy`, `collect.dfy`). `DataReader`
  picks labels and descriptions by language, with a fallback to the
  default locale. It also reads thumbnails, images, points, polygons,
  calendars, links, relationships and tags out of a POI record.
- **Containers** (`geometry_hash_map.dfy`, `pois.dfy`, `category.dfy`,
  `tag.dfy`). These are the static geometry table keyed by
  `String.hashCode`, the generic POI list, and the category and tag trees.

How the model is built:

- Java exceptions are results: `Result<T>` is `Ok(value)` or
  `Fail(error)`, and the error names the exception class.
- A `null` is `None` of an `Option`. An `equals` argument is
  `Ref.Null`, `Foreign` (an object of another class) or `Is(x)`.
- Objects whose fields the library updates are classes whose methods
  state the new state.
- The library's loops are methods proved equal to recursive
  specification functions, and the lemmas are about those functions.
- Java `int` arithmetic is written out where it matters (`WrapInt32`).

## Model

| member | source | states |
|---|---|---|
| Operators.LookUp | src/main/java/citysdk/tourism/client/requests/uri/Operator.java:73-80 | the lookup loop returns exactly the constant the first-match specification names |
| Operators.FirstCodeFromIsFirst | src/main/java/citysdk/tourism/client/requests/uri/Operator.java:73-80 | a scan from any index returns the first constant at or after it whose code matches, or NULL_OP when none does |
| Operators.FromOpCodeSpec | src/main/java/citysdk/tourism/client/requests/uri/Operator.java:73-80 | fromOpCode answers with the first constant in declaration order carrying the code, and NULL_OP for a code no constant has |
| Operators.FromOpCodeTable | src/main/java/citysdk/tourism/client/requests/uri/Operator.java:30-38 | each of the seven one-character codes selects its constant; every other string, letters and "" included, selects NULL_OP |
| Operators.DefaultOpUnreachable | src/main/java/citysdk/tourism/client/requests/uri/Operator.java:30-31 | DEFAULT_OP is never returned, because NULL_OP has the same code and comes first |
| Operators.HasSeparatorExceptNull | src/main/java/citysdk/tourism/client/requests/uri/Operator.java:60-62 | an operator has a separator if and only if it is not NULL_OP |
| Operators.NamedCodes | src/main/java/citysdk/tourism/client/requests/uri/Operator.java:64-66 | an operator is named if and only if its code is ";", "?" or "&" |
| Operators.OneCharacterTexts | src/main/java/citysdk/tourism/client/requests/uri/Operator.java:68-71 | every prefix and separator is at most one character long, and toString is the prefix |
| TemplateSyntax.FindSpan | src/citysdk/tourism/client/requests/uri/UriTemplate.java:42-43 | the search loop for `\{[^{}]+\}` returns the leftmost match at or after the start position |
| TemplateSyntax.FindWord | src/citysdk/tourism/client/requests/uri/UriTemplate.java:44 | the search loop for `\w+` returns the leftmost maximal run of word characters |
| TemplateSyntax.SpanStartIsMatch | src/citysdk/tourism/client/requests/uri/UriTemplate.java:42-43 | where a span starts, the text up to the next brace is a whole match, and no other match starts there |
| TemplateSyntax.MatchIsSpanStart | src/citysdk/tourism/client/requests/uri/UriTemplate.java:42-43 | every match of the pattern starts a span that ends at the first brace after its '{' |
| TemplateSyntax.NextSpanLeftmost | src/citysdk/tourism/client/requests/uri/UriTemplate.java:42-43 | the span found is a match, and no match starts between the search position and it; None means there is no match at all |
| TemplateSyntax.SpansDoNotOverlap | src/citysdk/tourism/client/requests/uri/UriTemplate.java:42-43 | no match starts strictly inside another match |
| TemplateSyntax.SpansAreSpanTexts | src/citysdk/tourism/client/requests/uri/UriTemplate.java:130-132 | every text that repeated `find()` calls yield is a whole match of the span pattern |
| TemplateSyntax.SpansFromSound | src/citysdk/tourism/client/requests/uri/UriTemplate.java:130-132 | each yielded span is the match at some span start after the search position |
| TemplateSyntax.SpansFromComplete | src/citysdk/tourism/client/requests/uri/UriTemplate.java:130-132 | repeated `find()` calls miss no match after the search position |
| TemplateSyntax.HasSpanIff | src/citysdk/tourism/client/requests/uri/UriTemplate.java:125-128 | a template yields some span if and only if the pattern matches somewhere in it |
| TemplateSyntax.NextWordLeftmost | src/citysdk/tourism/client/requests/uri/UriTemplate.java:44 | the word found starts at the first word character after the position and extends to the end of its run; None means no word character is left |
| TemplateSyntax.WordsFromMaximal | src/citysdk/tourism/client/requests/uri/UriTemplate.java:106-113 | scanning from a run boundary yields exactly the maximal runs of word characters after it |
| TemplateSyntax.WordsFromSound | src/citysdk/tourism/client/requests/uri/UriTemplate.java:106-113 | every word yielded is a maximal run of word characters |
| TemplateSyntax.WordsFromComplete | src/citysdk/tourism/client/requests/uri/UriTemplate.java:106-113 | every maximal run of word characters after a run boundary is yielded |
| TemplateSyntax.WordsStopBeforeClose | src/citysdk/tourism/client/requests/uri/UriTemplate.java:137-141 | a word never reaches a span's closing brace, so the character after a word is always inside the span |
| Encoding.EncodeIsUrlEncoderThenReplace | src/citysdk/tourism/client/requests/uri/UriTemplate.java:320-328 | the character-wise encoder equals URL form encoding in UTF-8 followed by replacing every "+" with "%20" |
| Encoding.EncodeCharReplace | src/citysdk/tourism/client/requests/uri/UriTemplate.java:320-328 | for one character, the "+" replacement changes exactly the form-encoded space |
| Encoding.EncodeAlphabet | src/citysdk/tourism/client/requests/uri/UriTemplate.java:320-328 | encoded text never contains '+'; it holds only unreserved characters, '%' and upper-case hex digits |
| Encoding.EncodeSpace | src/citysdk/tourism/client/requests/uri/UriTemplate.java:322 | a space encodes as "%20" |
| Encoding.EncodeUnreserved | src/citysdk/tourism/client/requests/uri/UriTemplate.java:320-328 | text made only of characters the encoder keeps is returned unchanged |
| Encoding.EncodeAppend | src/citysdk/tourism/client/requests/uri/UriTemplate.java:320-328 | encoding distributes over concatenation |
| Encoding.DecodeEncode | src/citysdk/tourism/client/requests/uri/UriTemplate.java:320-328 | percent-decoding and then UTF-8 decoding the encoding of any text gives the text back |
| Encoding.EncodeInjective | src/citysdk/tourism/client/requests/uri/UriTemplate.java:320-328 | two different texts never encode to the same string |
| Encoding.Utf8 | src/citysdk/tourism/client/requests/uri/UriTemplate.java:322 | a character's UTF-8 form is one to four bytes, each in 0..255 |
| UriTemplates.UriTemplate.constructor | src/citysdk/tourism/client/requests/uri/UriTemplate.java:55-58 | a new template holds the given text and no bindings |
| UriTemplates.TemplateRegistry.FromTemplate | src/citysdk/tourism/client/requests/uri/UriTemplate.java:67-74 | the first call creates the shared object; later calls return the same object with its template replaced and its old bindings kept |
| UriTemplates.UriTemplate.Set | src/citysdk/tourism/client/requests/uri/UriTemplate.java:86-91 | binding a name that is already bound leaves its value as it was (first write wins); the template is unchanged and the object itself is returned |
| UriTemplates.UriTemplate.HasParameter | src/citysdk/tourism/client/requests/uri/UriTemplate.java:102-116 | the nested matcher loops answer true exactly when some word of some span equals the name |
| UriTemplates.UriTemplate.Build | src/citysdk/tourism/client/requests/uri/UriTemplate.java:123-157 | the result replaces every span, in order, by its expansion, or is the first expansion's exception; bindings are cleared only after a successful build of a template with spans |
| UriTemplates.BuildStopsAtFailure | src/citysdk/tourism/client/requests/uri/UriTemplate.java:133-150 | once a span's expansion throws, the whole build throws that exception whatever spans follow |
| UriTemplates.ReplaceSpansFailed | src/citysdk/tourism/client/requests/uri/UriTemplate.java:133-150 | later spans cannot undo a failure: the outcome is the first failure |
| UriTemplates.UriTemplate.ExpandSpan | src/citysdk/tourism/client/requests/uri/UriTemplate.java:133-150 | the body of build's outer loop computes exactly the span's specified expansion |
| UriTemplates.SpanExpansion | src/citysdk/tourism/client/requests/uri/UriTemplate.java:133-150 | only a text of at least two characters (a brace pair) can expand successfully |
| UriTemplates.UriTemplate.Expand | src/citysdk/tourism/client/requests/uri/UriTemplate.java:162-176 | expand computes the specified rendering: nothing for an unbound name, otherwise by the class of the bound value |
| UriTemplates.UriTemplate.Explode | src/citysdk/tourism/client/requests/uri/UriTemplate.java:200-214 | explode computes the specified rendering, by the class of the bound value |
| UriTemplates.UriTemplate.ExpandCollection | src/citysdk/tourism/client/requests/uri/UriTemplate.java:303-318 | the loop over the elements computes the specified comma-joined rendering or its exception |
| UriTemplates.UriTemplate.ExplodeCollection | src/citysdk/tourism/client/requests/uri/UriTemplate.java:281-298 | the loop over the elements computes the specified separator-joined rendering or its exception |
| UriTemplates.UriTemplate.ExpandMap | src/citysdk/tourism/client/requests/uri/UriTemplate.java:259-276 | the loop over the entries, in iteration order, computes the specified rendering or its exception |
| UriTemplates.UriTemplate.ExplodeMap | src/citysdk/tourism/client/requests/uri/UriTemplate.java:234-254 | the loop over the entries, in iteration order, computes the specified rendering or its exception |
| UriTemplates.DropLastThenSeparator | src/citysdk/tourism/client/requests/uri/UriTemplate.java:295-296 | the renderers' closing step fails (substring(0, -1)) exactly when the body is empty |
| UriTemplateProperties.BuildWithoutSpan | src/citysdk/tourism/client/requests/uri/UriTemplate.java:123-128 | a template where the span pattern matches nowhere builds to itself |
| UriTemplateProperties.UnboundSpan | src/citysdk/tourism/client/requests/uri/UriTemplate.java:133-150 | a span whose names are all unbound, each `:` modifier followed by its size word, expands to the operator's prefix alone, or to nothing when the prefix equals the separator |
| UriTemplateProperties.ModifierWithoutSize | src/citysdk/tourism/client/requests/uri/UriTemplate.java:141-143 | a `:` with no size word after it throws IllegalStateException, whether the name is bound or not |
| UriTemplateProperties.UnboundPrefixVariable | src/citysdk/tourism/client/requests/uri/UriTemplate.java:181-194 | `{op x:N}` with x unbound gives the bare prefix whatever N is, so `{?x:3}` gives "?" |
| UriTemplateProperties.UnboundVariable | src/citysdk/tourism/client/requests/uri/UriTemplate.java:162-175 | `{?x}` with x unbound gives "?", `{#x}` gives "#" and `{/x}` gives "" |
| UriTemplateProperties.SingleVariableSpan | src/citysdk/tourism/client/requests/uri/UriTemplate.java:133-150 | a one-variable span expands to the prefix and the variable's rendering with one trailing separator dropped, or to the rendering's exception |
| UriTemplateProperties.ScalarSpan | src/citysdk/tourism/client/requests/uri/UriTemplate.java:219-229 | a bound scalar gives the prefix then `name=enc(v)` under a named operator, or `enc(v)` otherwise |
| UriTemplateProperties.NullSpan | src/citysdk/tourism/client/requests/uri/UriTemplate.java:219-229 | a variable bound to null makes the span throw NullPointerException |
| UriTemplateProperties.ModifyCases | src/citysdk/tourism/client/requests/uri/UriTemplate.java:181-195 | `:N` keeps the first N characters (Unicode scalar values) before encoding; it throws ClassCast for a non-String, NumberFormat for a non-numeric N, NullPointer for null and IndexOutOfBounds for an N beyond the value, in that order |
| UriTemplateProperties.PrefixSpan | src/citysdk/tourism/client/requests/uri/UriTemplate.java:181-195 | `{op name:N}` expands to the prefix and the first N characters (Unicode scalar values) encoded, or throws modify's exception |
| UriTemplateProperties.PrefixSpanWalk | src/citysdk/tourism/client/requests/uri/UriTemplate.java:141-143 | the size token after ':' is consumed by modify and not read as a name |
| UriTemplateProperties.ExpandedCollectionJoin | src/citysdk/tourism/client/requests/uri/UriTemplate.java:303-318 | a non-empty list renders as its encoded elements comma-joined once, after `name=` when named, then the separator; an empty list throws unless the operator is named |
| UriTemplateProperties.ExplodedCollectionJoin | src/citysdk/tourism/client/requests/uri/UriTemplate.java:281-298 | an exploded list renders each element joined and ended by the separator; an empty list throws; under NULL_OP the rendering loses its last character |
| UriTemplateProperties.ExpandedMapJoin | src/citysdk/tourism/client/requests/uri/UriTemplate.java:259-276 | a non-empty map renders as `key,enc(value)` entries comma-joined, after `name=` when named; keys are not encoded; an empty map throws unless named |
| UriTemplateProperties.ExplodedMapJoin | src/citysdk/tourism/client/requests/uri/UriTemplate.java:234-254 | an exploded map renders `key=enc(value)` when named and `key SEP enc(value)` otherwise, joined and ended by the separator; an empty map throws; NULL_OP loses the last character |
| UriTemplateProperties.ExpandedListSpan | src/citysdk/tourism/client/requests/uri/UriTemplate.java:303-318 | a span holding one non-empty list expands to the prefix, `name=` when named, and the comma-joined encoded elements |
| UriTemplateProperties.ExplodedListSpan | src/citysdk/tourism/client/requests/uri/UriTemplate.java:281-298 | a span holding one exploded non-empty list expands to the prefix and the elements joined by the separator |
| UriTemplateProperties.HasParameterIff | src/citysdk/tourism/client/requests/uri/UriTemplate.java:102-116 | hasParameter holds if and only if the name is a maximal run of word characters inside some span, the digits of a `:N` included |
| UriTemplateProperties.HasParameterSound | src/citysdk/tourism/client/requests/uri/UriTemplate.java:102-116 | a positive answer points at a span and a maximal word run in it equal to the name |
| UriTemplateProperties.HasParameterComplete | src/citysdk/tourism/client/requests/uri/UriTemplate.java:102-116 | any such word run inside a span makes the answer positive |
| UriTemplateProperties.WorkedExample | src/citysdk/tourism/client/requests/uri/UriTemplate.java:123-157 | `{?category*,tag:2,show}` with category = [Museum, Garden], tag = "culture" and show unbound builds to `?category=Museum&category=Garden&tag=cu` |
| UriTemplateProperties.ExampleExpansion | src/citysdk/tourism/client/requests/uri/UriTemplate.java:133-150 | the example span expands to the exploded list and the two-character tag, with the last '&' dropped |
| ParameterTerms.ChildrenMembership | src/main/java/citysdk/tourism/client/terms/ParameterTerms.java:116-130 | a term is among a constant's children if and only if some constant with that parent carries it |
| ParameterTerms.RegisteredMembership | src/main/java/citysdk/tourism/client/terms/ParameterTerms.java:116-126 | the children registered from a point of the enum are exactly the terms of the later constants naming that parent |
| ParameterTerms.SearchParametersChildren | src/main/java/citysdk/tourism/client/terms/ParameterTerms.java:53-109 | SEARCH_PARAMETERS' children are the fourteen search terms in declaration order |
| ParameterTerms.OnlySearchParametersHasChildren | src/main/java/citysdk/tourism/client/terms/ParameterTerms.java:132-134 | hasChildren holds only for SEARCH_PARAMETERS |
| ParameterTerms.TermsDistinct | src/main/java/citysdk/tourism/client/terms/ParameterTerms.java:38-109 | no two constants share a term string |
| ParameterTerms.EqualsTermIdentifies | src/main/java/citysdk/tourism/client/terms/ParameterTerms.java:136-138 | equalsTerm is false for null and, on a term string, holds for exactly one constant |
| ParameterTerms.ParentlessIsNotSearchTerm | src/main/java/citysdk/tourism/client/terms/ParameterTerms.java:38-53 | a constant without a parent is not a search term |
| ParameterTerms.ListTermsAreNotSearchTerms | src/main/java/citysdk/tourism/client/terms/ParameterTerms.java:38-53 | "poi", "event", "route" and "" are not search terms |
| ResourceTerms.PoisChildren | src/citysdk/tourism/client/terms/ResourceTerms.java:36-79 | RESOURCE_POIS groups find-poi and find-poi-relation |
| ResourceTerms.EventsChildren | src/citysdk/tourism/client/terms/ResourceTerms.java:36-79 | RESOURCE_EVENTS groups find-event and find-event-relation |
| ResourceTerms.RoutesChildren | src/citysdk/tourism/client/terms/ResourceTerms.java:36-79 | RESOURCE_ROUTES groups find-route |
| ResourceTerms.HasChildrenExactlyGroups | src/citysdk/tourism/client/terms/ResourceTerms.java:101-103 | hasChildren holds exactly for the three RESOURCE_* groups |
| ResourceTerms.ChildrenMembership | src/citysdk/tourism/client/terms/ResourceTerms.java:85-99 | a term is among a constant's children if and only if some constant with that parent carries it |
| ResourceTerms.TermsDistinct | src/citysdk/tourism/client/terms/ResourceTerms.java:36-79 | no two constants share a term string |
| ResourceTerms.Lookup | src/citysdk/tourism/client/terms/ResourceTerms.java:113-123 | fromString's loop returns what the specification says: the first constant with the term, IllegalArgument otherwise |
| ResourceTerms.FromStringSpec | src/citysdk/tourism/client/terms/ResourceTerms.java:113-123 | fromString succeeds exactly for a term some constant carries and returns that constant; null or any other string throws IllegalArgumentException |
| ResourceTerms.FromStringRoundTrip | src/citysdk/tourism/client/terms/ResourceTerms.java:109-123 | every constant is found again from its own term |
| ResourceTerms.EqualsTermIdentifies | src/citysdk/tourism/client/terms/ResourceTerms.java:105-107 | equalsTerm is false for null and, on a term string, holds for exactly one constant |
| Parameters.Scan | src/main/java/citysdk/tourism/client/requests/Parameter.java:76-82 | the for-each loop finds the name exactly when it is in the list |
| Parameters.ValidateName | src/main/java/citysdk/tourism/client/requests/Parameter.java:74-85 | a term passes exactly when it is one of SEARCH_PARAMETERS' children, and fails with InvalidParameterException otherwise |
| Parameters.New | src/main/java/citysdk/tourism/client/requests/Parameter.java:63-69 | the name is checked before the value: a non-search term throws InvalidParameter, a rejected value InvalidValue, otherwise the parameter holds both |
| Parameters.ValidTerms | src/main/java/citysdk/tourism/client/requests/Parameter.java:74-85 | the accepted terms are exactly the constants whose parent is SEARCH_PARAMETERS |
| Parameters.RejectedValues | src/main/java/citysdk/tourism/client/requests/Parameter.java:90-105 | a value is rejected exactly when it is null or of a class other than Collection, Map, Number, CharSequence and Boolean |
| Parameters.EqualsIsSameTerm | src/main/java/citysdk/tourism/client/requests/Parameter.java:108-116 | equals is false for null and foreign objects; on parameters it is term equality, hence symmetric and reflexive |
| ParameterLists.ParameterList.constructor | src/citysdk/tourism/client/requests/ParameterList.java:40-42 | a new list is empty |
| ParameterLists.ParameterList.Add | src/citysdk/tourism/client/requests/ParameterList.java:48-51 | add appends only when no stored parameter has the same term, and keeps terms pairwise distinct |
| ParameterLists.AddedKeepsDistinct | src/citysdk/tourism/client/requests/ParameterList.java:48-51 | after add the terms stay distinct; the first parameter added for a term wins and a new term goes at the end |
| ParameterLists.ParameterList.Get | src/citysdk/tourism/client/requests/ParameterList.java:58-63 | get(i) gives the i-th parameter below the size, null at or above it, and throws for a negative index |
| ParameterLists.ParameterList.GetWithTerm | src/citysdk/tourism/client/requests/ParameterList.java:70-77 | the result is the first parameter with the term, or null exactly when none has it |
| ParameterLists.IndexOfTerm | src/citysdk/tourism/client/requests/ParameterList.java:85 | indexOf under Parameter.equals gives the first index holding the term, or -1 exactly when none does |
| ParameterLists.ParameterList.Replace | src/citysdk/tourism/client/requests/ParameterList.java:83-90 | replace overwrites at a positive index and falls back to add otherwise, keeping terms distinct |
| ParameterLists.ReplacedKeepsDistinct | src/citysdk/tourism/client/requests/ParameterList.java:83-90 | replace keeps the terms pairwise distinct |
| ParameterLists.ReplacedIsFound | src/citysdk/tourism/client/requests/ParameterList.java:83-90 | after replace the term's parameter is the new one, except when the match was at index 0, where the old one stays; a new term grows the list by one |
| ParameterLists.ParameterList.RemoveAll | src/citysdk/tourism/client/requests/ParameterList.java:95-98 | nothing is left and the size is 0 |
| ParameterLists.ParameterList.ToArray | src/citysdk/tourism/client/requests/ParameterList.java:104-114 | a new array of length size() holding the parameters in order |
| Maps.PutIfAbsentSpec | src/main/java/citysdk/tourism/client/poi/single/HypermediaLink.java:69-72 | a put guarded by containsKey keeps an existing value, adds the key otherwise, and leaves every other key alone |
| Maps.PutIfAbsentTwice | src/main/java/citysdk/tourism/client/poi/lists/Resources.java:58-62 | a second put of the same key changes nothing, whatever its value |
| HypermediaLinks.HypermediaLink.constructor | src/main/java/citysdk/tourism/client/poi/single/HypermediaLink.java:46-48 | a new link has no version and no media |
| HypermediaLinks.HypermediaLink.SetVersion | src/main/java/citysdk/tourism/client/poi/single/HypermediaLink.java:54-56 | the version is replaced and the links stay |
| HypermediaLinks.HypermediaLink.AddHypermedia | src/main/java/citysdk/tourism/client/poi/single/HypermediaLink.java:69-72 | a media term keeps its first link; the version is untouched |
| HypermediaLinks.EqualsComparesVersions | src/main/java/citysdk/tourism/client/poi/single/HypermediaLink.java:75-84 | equals is false for null and other classes, compares versions only, and throws when the other link has no version |
| ServerResources.Resources.constructor | src/main/java/citysdk/tourism/client/poi/lists/Resources.java:46-49 | a new table holds no versions |
| ServerResources.Resources.AddResource | src/main/java/citysdk/tourism/client/poi/lists/Resources.java:58-62 | a link is stored under its version only when that version is not present yet |
| ServerResources.Resources.HasResourceParameter | src/main/java/citysdk/tourism/client/poi/lists/Resources.java:110-126 | the answer is whether the version's link for the resource is templated and its template names the parameter's term; when such a link is reached the shared template object holds its href afterwards, keeping its bindings or created with none, and otherwise the shared object is untouched |
| ServerResources.AllowedParameterIsNamed | src/main/java/citysdk/tourism/client/poi/lists/Resources.java:110-126 | a positive answer means a known version and resource, and the parameter's term is a word inside a span of the link's template |
| ServerResources.QueriesOnNull | src/main/java/citysdk/tourism/client/poi/lists/Resources.java:74-96 | the queries answer false or null for null arguments, and hasResource is membership in getResources |
| ServerResources.Resources.GetHypermediaWithVersion | src/main/java/citysdk/tourism/client/poi/lists/Resources.java:139-144 | the version's link, or null exactly when the version is null or unknown |
| ServerResources.Resources.GetResources | src/main/java/citysdk/tourism/client/poi/lists/Resources.java:153-160 | the version's media terms, and the empty set for an unknown version |
| GeometryTables.WrapInt32 | src/citysdk/tourism/client/poi/base/GeometryHashMap.java:43-48 | narrowing to int gives a value in the int range congruent to its input modulo 2^32 |
| GeometryTables.StringHash | src/citysdk/tourism/client/poi/base/GeometryHashMap.java:43-48 | String.hashCode is always a 32-bit int |
| GeometryTables.GetHash | src/citysdk/tourism/client/poi/base/GeometryHashMap.java:43-48 | getHash is 0 for null and an int otherwise |
| GeometryTables.HashOfTwo | src/citysdk/tourism/client/poi/base/GeometryHashMap.java:43-48 | a two-character string hashes to 31 * c0 + c1 |
| GeometryTables.AaBbCollide | src/citysdk/tourism/client/poi/base/GeometryHashMap.java:43-48 | "Aa" and "BB" have the same hash, 2112 |
| GeometryTables.GeometryHashMap.constructor | src/citysdk/tourism/client/poi/base/GeometryHashMap.java:6 | the table starts empty |
| GeometryTables.GeometryHashMap.AddGeometry | src/citysdk/tourism/client/poi/base/GeometryHashMap.java:12-18 | returns the hash and stores the list under it only if the key is absent; the key is present afterwards, and the list is a stored value afterwards exactly when it was one before or its key was absent |
| GeometryTables.GeometryHashMap.DelGeometry | src/citysdk/tourism/client/poi/base/GeometryHashMap.java:20-22 | removing by the String never matches an Integer key, so the table is unchanged |
| GeometryTables.GeometryHashMap.ClearList | src/citysdk/tourism/client/poi/base/GeometryHashMap.java:39-41 | the table is empty and its size is 0 |
| GeometryTables.AddSizes | src/citysdk/tourism/client/poi/base/GeometryHashMap.java:12-18 | adding grows the table by at most one entry, and adding the same list again changes nothing |
| GeometryTables.CollisionKeepsFirst | src/citysdk/tourism/client/poi/base/GeometryHashMap.java:12-18 | after adding "Aa" then "BB" the table holds only "Aa" and `containsValue("BB")` is false: the colliding list is dropped |
| PoiLists.POIS.constructor | src/main/java/citysdk/tourism/client/poi/lists/POIS.java:42-44 | a new list is empty |
| PoiLists.POIS.Add | src/main/java/citysdk/tourism/client/poi/lists/POIS.java:50-52 | the element is appended at the end and the size grows by one |
| PoiLists.POIS.Get | src/main/java/citysdk/tourism/client/poi/lists/POIS.java:75-80 | the i-th element below the size, null at or above it, and a throw for a negative index |
| Categories.Category.constructor | src/main/java/citysdk/tourism/client/poi/single/Category.java:38-41 | a new category has no list, no count and no sub-categories |
| Categories.Category.AddCategory | src/main/java/citysdk/tourism/client/poi/single/Category.java:55-60 | the list is created if needed and the category appended; the count grows by one |
| Categories.Category.GetNumCategories | src/main/java/citysdk/tourism/client/poi/single/Category.java:78-83 | the count is the number of sub-categories added, 0 without a list |
| Categories.Category.GetCategory | src/main/java/citysdk/tourism/client/poi/single/Category.java:67-72 | null while there is no list, the i-th sub-category within it, and a throw outside it |
| Categories.HasSubCategoriesIffCount | src/main/java/citysdk/tourism/client/poi/single/Category.java:89-91 | a category has sub-categories exactly when it has added at least one |
| Tags.Tag.constructor | src/main/java/citysdk/tourism/client/poi/single/Tag.java:40-43 | a new tag has no list and count 0 |
| Tags.Tag.AddTag | src/main/java/citysdk/tourism/client/poi/single/Tag.java:57-62 | the list is created if needed and the tag appended; the count grows by one |
| Tags.Tag.GetTag | src/main/java/citysdk/tourism/client/poi/single/Tag.java:69-74 | the i-th tag below the count, null at or above it; a negative index throws NullPointer without a list and IndexOutOfBounds with one |
| DataReading.DataReader.constructor | src/citysdk/tourism/client/parser/DataReader.java:66 | the default locale starts as en_GB |
| DataReading.DataReader.SetDefaultLocale | src/citysdk/tourism/client/parser/DataReader.java:74-79 | a non-null locale becomes the default; null leaves the default as it was |
| DataReading.ParseLocale | src/citysdk/tourism/client/parser/DataReader.java:154-166 | a locale string that does not parse throws IllegalArgumentException |
| DataReading.ParsedLocaleIsPlain | src/citysdk/tourism/client/parser/DataReader.java:154-166 | parsing succeeds exactly for one to three components, and none of them holds a separator |
| DataReading.LocaleOfLanguage | src/citysdk/tourism/client/parser/DataReader.java:154-166 | a string without separators is a language alone |
| DataReading.LocaleOfLanguageCountry | src/citysdk/tourism/client/parser/DataReader.java:154-166 | "ll-CC" and "ll_CC" parse to a language and a country |
| DataReading.LocaleOfThreeParts | src/citysdk/tourism/client/parser/DataReader.java:154-166 | "ll_CC_VV" parses to a language, a country and a variant |
| DataReading.LocaleOfFourParts | src/citysdk/tourism/client/parser/DataReader.java:154-166 | four components are refused |
| DataReading.LocaleOfSeparator | src/citysdk/tourism/client/parser/DataReader.java:154-166 | a lone separator splits into no components and is refused |
| DataReading.ItemLanguage | src/citysdk/tourism/client/parser/DataReader.java:193-196 | an item without a language takes the POI's; otherwise its own must parse, or the read throws IllegalArgument |
| DataReading.Select | src/citysdk/tourism/client/parser/DataReader.java:183-209 | the shared reading loop computes exactly the specified choice |
| DataReading.ChooseFirstStop | src/citysdk/tourism/client/parser/DataReader.java:202-205 | the first item in the requested language ends the loop and is the answer |
| DataReading.ChooseLastKept | src/citysdk/tourism/client/parser/DataReader.java:198-201 | without such an item, the last item in the default language is the answer |
| DataReading.ChooseNoneKept | src/citysdk/tourism/client/parser/DataReader.java:183-209 | with neither, the value kept before the loop is the answer |
| DataReading.ChooseFails | src/citysdk/tourism/client/parser/DataReader.java:192-197 | an item whose language does not parse throws, unless an earlier item ended the loop |
| DataReading.DataReader.GetLabel | src/citysdk/tourism/client/parser/DataReader.java:183-209 | getLabel reads the labels with the term under the requested language and the current default |
| DataReading.LabelPrefersRequested | src/citysdk/tourism/client/parser/DataReader.java:183-209 | getLabel answers the first label of the term in the requested language when that is not the default |
| DataReading.LabelFallsBack | src/citysdk/tourism/client/parser/DataReader.java:183-209 | otherwise it answers the last label of the term in the default language |
| DataReading.LabelAbsent | src/citysdk/tourism/client/parser/DataReader.java:183-209 | with no label of the term in either language it answers null content |
| DataReading.DataReader.GetDescription | src/citysdk/tourism/client/parser/DataReader.java:223-246 | getDescription reads the descriptions under the requested language and the current default |
| DataReading.DescriptionPrefersRequested | src/citysdk/tourism/client/parser/DataReader.java:223-246 | getDescription answers the first description in the requested, non-default language |
| DataReading.DescriptionFallsBack | src/citysdk/tourism/client/parser/DataReader.java:223-246 | otherwise it answers the last description in the default language |
| DataReading.DataReader.GetValueWithTag | src/citysdk/tourism/client/parser/DataReader.java:288-322 | getValueWithTag reads the descriptions of the type, any language when none is requested |
| DataReading.ValueWithTagIsLast | src/citysdk/tourism/client/parser/DataReader.java:288-322 | the answer is the last description of the type, in the default language when a language is requested and in any language when none is |
| DataReading.ValueWithTagAbsent | src/citysdk/tourism/client/parser/DataReader.java:288-322 | without such a description the answer is null content, even when one in the requested language exists |
| DataReading.SelectionFails | src/citysdk/tourism/client/parser/DataReader.java:183-209 | an unparsable POI language throws at once, an unparsable item language when the loop reaches it |
| DataReading.DataReader.GetPrice | src/citysdk/tourism/client/parser/DataReader.java:260-262 | the price description, read by getValueWithTag's rule |
| DataReading.DataReader.GetWaitingTime | src/citysdk/tourism/client/parser/DataReader.java:272-274 | the waiting-time description in any language |
| DataReading.DataReader.GetOccupation | src/citysdk/tourism/client/parser/DataReader.java:284-286 | the occupation description in any language |
| DataReading.GetThumbnails | src/citysdk/tourism/client/parser/DataReader.java:333-355 | the loop gives the icons in link order, and an empty list for a null POI |
| DataReading.Thumbnail | src/citysdk/tourism/client/parser/DataReader.java:341-351 | only icon links give a thumbnail, and its content is never empty |
| DataReading.ThumbnailsOfLinks | src/citysdk/tourism/client/parser/DataReader.java:333-355 | thumbnails never throw; each is an icon's href as a URI or its value as byte code, and every icon with either gives one |
| DataReading.ThumbnailsInOrder | src/citysdk/tourism/client/parser/DataReader.java:333-355 | the thumbnails of two runs of links are those of the first run followed by those of the second |
| DataReading.GetImagesUri | src/citysdk/tourism/client/parser/DataReader.java:545-561 | the loop gives the related images in link order, and null exactly for a null POI |
| DataReading.RelatedImage | src/citysdk/tourism/client/parser/DataReader.java:552-557 | a related image is always a URI |
| DataReading.ImagesOfLinks | src/citysdk/tourism/client/parser/DataReader.java:545-561 | the images are exactly the hrefs of the related links whose type contains "image/" |
| DataReading.Coordinates | src/citysdk/tourism/client/parser/DataReader.java:404-406 | reading a position list fails only with IndexOutOfBounds |
| DataReading.CoordinatesOfPair | src/citysdk/tourism/client/parser/DataReader.java:404-406 | "lat lon", with anything after a further space, reads as that latitude and longitude |
| DataReading.CoordinatesOfOneToken | src/citysdk/tourism/client/parser/DataReader.java:404-406 | a single token has no longitude and the read throws |
| DataReading.CoordinatesAfterSpace | src/citysdk/tourism/client/parser/DataReader.java:478-484 | a segment starting with a space, as after ", ", gives an empty latitude and its first number as longitude |
| DataReading.GetLocationPoint | src/citysdk/tourism/client/parser/DataReader.java:392-413 | the loop gives the points of the term in order, the first throw, or an empty list for a null POI |
| DataReading.PointsOfTerm | src/citysdk/tourism/client/parser/DataReader.java:392-413 | the points read are exactly the coordinates of the points with the term |
| DataReading.ReadPolygon | src/citysdk/tourism/client/parser/DataReader.java:477-486 | the inner loop reads one polygon as specified |
| DataReading.GetLocationPolygon | src/citysdk/tourism/client/parser/DataReader.java:465-492 | the loop gives the polygons of the term in order, the first throw, or an empty list for a null POI |
| DataReading.PolygonVertices | src/citysdk/tourism/client/parser/DataReader.java:465-492 | a polygon read has one vertex per comma-separated segment, the k-th read from the k-th segment |
| DataReading.GetCalendar | src/citysdk/tourism/client/parser/DataReader.java:521-534 | the value of the first calendar of the term, and null exactly when there is none |
| DataReading.GetLink | src/citysdk/tourism/client/parser/DataReader.java:629-640 | the href of the first link of the term, and null content exactly when there is none |
| DataReading.GetRelationshipBase | src/citysdk/tourism/client/parser/DataReader.java:574-587 | null for a null POI; otherwise the first relation's base, or null content exactly when none has the term |
| DataReading.GetRelationshipId | src/citysdk/tourism/client/parser/DataReader.java:600-617 | the target of the first relation with the term, or null content when there is none |
| DataReading.GetTags | src/citysdk/tourism/client/parser/DataReader.java:652-668 | the tags of every group in the language, in order, and empty for a null list |
| DataReading.TagsAreInLanguage | src/citysdk/tourism/client/parser/DataReader.java:652-668 | every value answered is the value of a tag in the requested language |
| DataReading.TagsInLanguageAreRead | src/citysdk/tourism/client/parser/DataReader.java:652-668 | every tag in the requested language is answered, and a read without a throw means every group had a list |
| DataReading.TagGroupsRead | src/citysdk/tourism/client/parser/DataReader.java:657-665 | each group's tags are read, and each chunk read comes from a group |
| Collecting.CollectEach | src/citysdk/tourism/client/parser/DataReader.java:545-561 | the list-building loop computes the walk's specified list, or the first step's exception |
| Collecting.CollectMembers | src/citysdk/tourism/client/parser/DataReader.java:545-561 | a walk without a throw holds exactly the values its steps produce |
| Collecting.FirstWhere | src/citysdk/tourism/client/parser/DataReader.java:629-640 | the first-match loop gives the first index where the test holds, or -1 exactly when it holds nowhere |

## Left out

- `getAvailableLangs` and `invokeMethod` (DataReader.java lines 91-137) choose a getter by Java reflection. They are not modelled.
- `getLocationLine` is not modelled. It indexes the third and fourth elements of a two-element split, so it throws on well-formed input. `getLocationGeometry` is not modelled either, because it combines `getLocationLine` with the point and polygon readers.
- `getVersions`, `hasVersion` and `hasResource` are modelled as predicates over the stored map (`HasVersion`, `HasResource`, `GetVersions`). Their properties are stated in `QueriesOnNull`.
- `containsValue`, `getGeometrySize`, `containsKey` and `getGeometry` of GeometryHashMap are read-only queries over the map. They are modelled as `ContainsValue`, `GetGeometrySize`, `ContainsKey` and `GetGeometry` without rows; `AddGeometry` and `CollisionKeepsFirst` state what they answer.
- `getContacts`, `getNumTags` and the choice of a relationship's target (`DataReading.GetContacts`, `Tags.Tag.GetNumTags`, `DataReading.Target`) are read-only queries modelled without rows, as are the helpers that build the per-element texts of a collection or map expansion (`ExplodedItems`, `ExplodedEntries`, `EncodedItems`, `ExpandedEntries`), the span-by-span build `BuiltWithSpans` and the single steps of the span walk (`WalkExplodeStep`, `WalkPrefixStep`, `WalkPlainStep`). The rows for the expansions, the build loop and the walk state what they mean.
- `getSubCategories` is the `subCategories` field itself, which may be null. `Children()` reads an absent list as empty where Java returns null.
- `getSubCategories`, `getTags` and `getList` return the live list. Aliasing of that list is not modelled: the model returns the list's value.
- Locale handling: a `Locale`'s components are compared as given. Java's lower-casing and old ISO-code mapping are left out. A null `Locale` or `Term` argument of the readers is not modelled.
- POI records (POI, POIBaseType, Location, Relationship, Hypermedia) are plain data holders. They are read as values, and a null string inside them is read as the empty string. `getTags` takes each `Tag` group as a list of tag values.
- Null elements inside lists and null map keys are not modelled. A map binding is a sequence of string entries in iteration order. HashMap's own order is the caller's order.
- Maps with keys that are not Strings, and maps with null values, are not modelled. `explodeMap` and `expandMap` look each value up by `key.toString()`, so such a key finds null. A null value then throws NullPointerException at its `toString()`. A map binding here is String-keyed with non-null values.
- A null entry in a `HypermediaLink`'s links is not modelled: a link present in the map is never null. `hasResourceParameter` therefore treats a present key as a link.
- `fromTemplate` keeps a static instance with no synchronisation. The model makes that instance a field of `TemplateRegistry` and leaves concurrency out.
- Modify: a `:N` prefix counts Unicode scalar values, where Java's `substring(0, N)` counts UTF-16 code units. The two differ on text outside the Basic Multilingual Plane. Take "😀" under `{?x:2}`: Java renders "?x=%F0%9F%98%80", and the model throws IndexOutOfBounds. Under `{?x:1}`, Java cuts the surrogate pair and encodes the lone half as "%3F", while the model renders the whole character.
- ModifyCases: states `Modify`'s cases with N counted in scalar values, not UTF-16 code units, as the line above describes.
- PrefixSpan: the prefix it states is cut at scalar values, not UTF-16 code units, as the `Modify` line above describes.
- `StringHash` works on Dafny characters, which are Unicode scalar values. Java hashes UTF-16 code units, so characters outside the Basic Multilingual Plane hash differently.
- The HTTP client, the JSON deserialiser, the request builders and the test suite are not part of this model.
- The unreachable second branch of `getValueWithTag` (DataReader.java line 311) tests the same condition as the first, so it can never be taken. The model leaves it out of `Select`; `ValueWithTagIsLast` and `ValueWithTagAbsent` state the resulting behaviour.
- The following follow the code where its documentation says otherwise:
  - `{a,b}` selects NULL_OP, whose separator is empty, and not the default operator with ",".
  - The operator prefix is always emitted, even when every variable is unbound.
  - Map keys are not encoded.
  - The encoder keeps '*' and encodes '~'.
  - Exploded empty collections, and empty collections under an unnamed operator, throw. Too-long `:N` prefixes throw, and so does a `:` with no size after it.
  - `setDefaultLocale(null)` keeps the current default rather than resetting it to en_GB.
