# RAGFlow: verified models of its filter push-down, agent canvas, DSL migration and session queue

This project models the parts of RAGFlow whose correctness is not visible from one
function body, and proves what they promise.

**Metadata filters.** `meta_filter` evaluates user filters in memory over an inverted
index (`MetaFilter`). Three translators compile the same filters: to an Elasticsearch
bool query (`EsFilter`), to GaussDB JSONB SQL with positional parameters and
three-valued logic (`GaussFilter`), and to Infinity SQL text (`InfinityFilter`). Each
target language has a denotation here; SQL text is read back by a small reader with NOT
over AND over OR and `IS NOT TRUE` (`SqlSyntax`), string literals by `SqlText`, and LIKE
and wildcard patterns by one matcher (`Patterns`). `EsPushdown` proves when the
Elasticsearch query selects exactly what memory selects, operator by operator, and end to
end from flattening the store. `MetaCompare` says what the in-memory comparisons compare, and
`EsValues`, `InfinityValues` and `GaussValues` what each back end makes of a value: a date,
a literal or a text; `MemberTexts` what a comma-separated text becomes for all three.
`InfinityText` renders a whole Infinity request to
characters and reads them back. `GaussProofs` proves that parameters line up with
placeholders and that negation is a true complement; `JsonPath` that the literal of a key
reads back as its path; `GaussText` and `GaussStatement` what the driver makes of the
characters of the statement, keys included; `GaussRead` reads the predicate back from them,
and `ServerPath` a key's literal as the database does; `GaussSpelling` lists the characters
of every test and `GaussPatterns` interprets the patterns in them (`CharClass` their
classes). `GaussDates` shows when client and server expand dates alike, and that comparing
them compares moments, in the days of `Calendar`.

The same question, operator by operator, for the other two back ends: when do they select
what `meta_filter` selects? `TextDocs` is what memory says of a key that stores nothing,
null, a text or a list of texts. `GaussMemory` answers it for texts, missing keys, null and
whole requests, `GaussLists` for lists, whose JSON text the statement searches (`ListText`
decides by an automaton which texts are found in it), and `GaussRanges` for dates.
`InfinityMemory` and `InfinityLists` answer it for Infinity.

**The agent canvas.** `Canvas` and `CanvasRun` model the run loop as a class whose path
is pruned, extended, suspended and truncated in place, `CanvasRouting` what one position adds
to the path, `CanvasEvents` what passes and runs tell the client; `TtsPipeline` the two-worker
speech pipeline as interleaved steps; `SentenceStream` the sentence splitter;
`Variables` nested variables in a heap of dictionaries.

**DSL migration.** `DslRefs` models the references embedded in text, `DslMigration` the
renaming over the whole JSON description, `DslGraph` what it keeps, `DslNodes` what becomes
of nodes, edges and the other parts, `DslRun` its loops.

**Companions.** `Canonical` is the canonical form used for hashing nested values;
`McpSession` the request/reply queue of an MCP session on one event loop, and `McpOutcomes`
what its replies say.

What the language runtime provides is a parameter (`Python.Host`): lower-casing as an
idempotent map on characters that keeps blanks blank, the blank and digit classes,
`ast.literal_eval` as an arbitrary partial function, `str` of values that are not
strings, value ordering, and containers the sources do not look into. The Elasticsearch
engine is a parameter too: how it folds case and how it compares numbers. So are the
JSON functions of the two databases, as far as the comparison with memory needs them:
GaussDB folds case as the runtime does and writes lists of texts as JSON (`SomeAlike` shows
that this can be met), JSON_CONTAINS of Infinity compares whole values and members, case
included, and what its JSON_EXTRACT_STRING answers is left open.

Properties that turned out false of the code are kept with their exact conditions:

- Elasticsearch `=` agrees with memory if and only if the value has no blanks around it,
  `contains` if and only if the value is a string, list `in` if and only if trimming the
  members changes nothing, text `in` never.
- `not contains` passes `is_pushdown_supported` although on multi-valued documents it
  answers differently from memory; the comment at common/metadata_es_filter.py:83-85
  says the opposite, and the model follows the code.
- Infinity writes text inside JSON quotes without JSON escaping: it reads back if and only
  if it holds no quote, backslash or control character. Its `contains` reads numbers, its
  `not contains` does not.
- On texts GaussDB agrees with memory on `=`, `≠`, affixes and emptiness; `contains` needs
  a string, list `in` needs for each member one that stays a text and equals it up to case.
- GaussDB searches the JSON text of a list: `contains` agrees on lists if and only if the
  value does not spill over its punctuation; `start with` and `end with` agree only where
  neither side ever selects anything; `empty` and every negative operator do not agree.
- A missing key is `empty` for GaussDB, and null passes its negative operators; in memory
  neither is a value. Its keys with dots are paths, memory takes keys whole.
- A GaussDB range agrees on dates; other timestamp shapes are compared there and skipped in
  memory.
- Infinity compares case: its `=` agrees if and only if the text has no case and JSON writes
  it as it is, list `in` and `not in` if and only if every member is such a text, without
  blanks around it and no number; its `contains` asks for a whole member and agrees with no text value;
  no extraction serves both `empty` and `start with`.
- Client and server expand a date to the same text if and only if its digits are ASCII and
  its year is at least 1000: the client's pattern takes every Unicode digit, the server's
  none but ASCII ones, and the client writes smaller years without padding.
- The driver takes percent signs for conversions, and GaussDB keys are written into the
  statement: it is read as meant if and only if no key holds one. Key `a%%b` silently looks
  up `a%b`; key `a%sb` asks for parameters that are not there.
- A path segment `null`, in any case, is written without quotes, which an array literal
  reads as SQL NULL: the key is found nowhere, and its filter selects everything if it is
  `empty` and nothing otherwise.
- A rewritten text can be a legacy id again: never if and only if every legacy id, with any
  of its references put back to legacy components, is again an id, so never when ids hold
  no opening brace.
- Two ids can meet after renaming, which drops a component; and a listed name that no
  component has can become the new id of one that was not listed, which adds an edge.
- A pending entry is started in the same batch as an entry it refers to, if that one is
  ready and stands before it.
- Writing a dictionary keeps the variables a tree if and only if it already stands there, or
  hangs nowhere and does not hold the place it is written to.
- An MCP request held at the close may be answered after the drained ones, out of order.

## Model

| member | source | states |
|---|---|---|
| MetaFilter.Prepare | common/metadata_utils.py:40-92 | the rebinding of one bucket and its value before an operator: dates, literals and lower-casing, or that the bucket is skipped |
| MetaFilter.Ladder | common/metadata_utils.py:94-125 | the chain of branches, with its searches as loops over `find` and over the members and with what raises, decides the operator's meaning |
| MetaCompare.DatesCompared | common/metadata_utils.py:49-67 | a comparison with a date takes dates only, and compares them with the blanks around them dropped |
| MetaCompare.LiteralsCompared | common/metadata_utils.py:68-88 | if the stored text and the value are both literals, what they stand for is compared, stored side first: the case of texts does not count, numbers are compared as numbers |
| MetaCompare.TextsCompared | common/metadata_utils.py:68-88 | if one of them is no literal, or the value no text, the stored text is compared as a text, without its case |
| MetaCompare.NumbersCompared | common/metadata_utils.py:68-123 | so `age > "18"` takes every stored number greater than 18, however written, `=` those equal to it and `≠` those that are not |
| MetaCompare.ComparisonSelects | common/metadata_utils.py:30-150 | and a request for one comparison returns exactly the documents in scope that have a value under the key which so compares |
| MetaCompare.MembersFound | common/metadata_utils.py:90-103 | `in` a list finds the buckets equal to an item that is a text, up to case; `in` a tuple keeps the case of its items |
| MetaCompare.ContainersAsked | common/metadata_utils.py:90-103 | `in` a text finds its parts, an opaque container answers for itself, and any other value takes no bucket, negated or not |
| MetaCompare.DatesAre | common/metadata_utils.py:51-57 | the date test takes four, two and two digits with hyphens between, and nothing else |
| MetaFilter.Opposites | common/metadata_utils.py:94-125 | an operator and its negation never take the same bucket, and one of them does exactly when: for `=` the bucket is a date if the value is one, for `in` the value is a text, list, tuple or answers the membership test, for `contains` it is text, for `empty` always |
| MetaFilter.CaseDoesNotMatter | common/metadata_utils.py:33-38 | apart from comparisons, no operator sees the case of a bucket or of a text value |
| MetaFilter.FilterOut | common/metadata_utils.py:40-129 | the returned ids are those in some satisfied bucket, whatever the order of the dictionary |
| MetaFilter.Run | common/metadata_utils.py:30-150 | the early-exit fold returns exactly the documents hit by all, or some, filters, and none for no filters |
| MetaFilter.SelectionShrinks | common/metadata_utils.py:131-150 | the early return on an empty conjunction loses nothing |
| MetaFilter.Flatten | api/db/services/doc_metadata_service.py:812-829 | the loops build exactly the inverted index of the documents in scope |
| Patterns.EscapeIsSimultaneous | common/metadata_es_filter.py:576-578 | the three sequential replacements quote each special character exactly once, as one pass would |
| Patterns.ContainsExact | common/metadata_es_filter.py:295-297 | many-escape-many matches exactly the texts containing the value, up to the engine's folding |
| Patterns.PrefixExact | common/metadata_gaussdb_filter.py:207-212 | escape-many matches exactly the texts starting with the value |
| Patterns.SuffixExact | common/metadata_es_filter.py:310-312 | many-escape matches exactly the texts ending with the value |
| Coercion.NormalizeLoop | common/metadata_es_filter.py:472-504 | the member loop lower-cases and trims every text member and keeps the others, in order |
| MemberTexts.SplitJoined | common/metadata_es_filter.py:491-491 | cutting a comma-joined text gives exactly the joined texts, trimmed, without the blank ones, in order |
| MemberTexts.EveryTextJoined | common/metadata_es_filter.py:491-491 | every text is the comma-join of texts without commas |
| MemberTexts.EsPieces | common/metadata_es_filter.py:472-504 | `in` with such a text accepts a document if and only if some value equals one of the pieces up to case, `not in` if and only if it has values and none does; without pieces both are refused |
| MemberTexts.EsItems | common/metadata_es_filter.py:483-489 | a text that is the literal of a list or tuple stands for exactly its items, for Elasticsearch and for Infinity |
| MemberTexts.OtherMembers | common/metadata_es_filter.py:481-493 | a tuple stands for its items, any other single value for itself, for all three back ends |
| MemberTexts.InfinityPieces | common/metadata_infinity_filter.py:281-305 | Infinity asks for each piece in lower case |
| MemberTexts.PlainPiece | common/metadata_infinity_filter.py:140-157 | a piece without case that JSON writes as it is and that is no number is found exactly where it is stored |
| MemberTexts.GaussPieces | common/metadata_gaussdb_filter.py:433-452 | GaussDB tests the text for equality with each piece that stays a text |
| MemberTexts.GaussItems | common/metadata_gaussdb_filter.py:433-452 | a literal list or tuple stands for its items there too |
| EsFilter.PlanPushdown | common/metadata_es_filter.py:329-346 | a plan exists exactly when the logic is known and every filter translates, and lists the translations in order |
| EsFilter.ClausesAtomic | common/metadata_es_filter.py:116-134 | every filter contributes one clause, accepted exactly when the whole filter holds |
| EsFilter.QueryMeaning | common/metadata_es_filter.py:147-177 | the query body accepts a document exactly when it is in scope and the and/or of the filters holds |
| EsPushdown.HoldsMeaning | common/metadata_es_filter.py:264-312 | a positive operator needs some value of the key to pass, a negative one a present key with no value passing |
| EsValues.EqualText | common/metadata_es_filter.py:412-435 | `=` compares a date as it is, any other text up to case, a quoted literal as the text in it, blanks around the value dropped |
| EsValues.EqualNumber | common/metadata_es_filter.py:412-435 | the literal of a number or boolean is compared as such |
| EsValues.RangeBound | common/metadata_es_filter.py:438-457 | a range is bounded by the date, number or text its value is |
| EsValues.MixedList | common/metadata_es_filter.py:540-555 | a list of texts and other values accepts a value equal to one of the texts up to case, or to one of the others as a number |
| EsValues.SupportedIff | common/metadata_es_filter.py:349-368 | the routing check passes if and only if the operator is safe on several values and can be expressed for some value |
| EsPushdown.EqualAgreesIff | common/metadata_es_filter.py:264-266 | `=` on plain text agrees with memory on all documents if and only if the text is trimmed |
| EsPushdown.ContainsAgreesIff | common/metadata_es_filter.py:295-297 | `contains` agrees if and only if the value is a string |
| EsPushdown.AffixAgrees | common/metadata_es_filter.py:306-312 | `start with` and `end with` agree on every value they accept |
| EsPushdown.InListAgreesIff | common/metadata_es_filter.py:284-286 | list `in` agrees if and only if trimming leaves the lower-cased member set as it is |
| EsPushdown.InTextNeverAgrees | common/metadata_es_filter.py:472-504 | `in` with a plain text never agrees: a substring test in memory, a list test in the query |
| EsPushdown.NegativeExact | common/metadata_es_filter.py:77-86 | a complementing negative operator selects a subset of memory, and the same documents exactly where values are not mixed (so on all single-valued ones) |
| EsPushdown.NotEqualComplements | common/metadata_es_filter.py:268-273 | on trimmed plain text `≠` is value by value the opposite of the clause it negates |
| EsPushdown.NotInComplements | common/metadata_es_filter.py:288-293 | the same for list `not in` with trimmed text members |
| EsPushdown.NotContainsComplements | common/metadata_es_filter.py:299-304 | the same for `not contains` |
| EsPushdown.NotEqualLosesDocuments | common/metadata_es_filter.py:349-368 | a refused `≠` would miss a document with one equal and one different value |
| EsPushdown.NotContainsDiffers | common/metadata_es_filter.py:349-368 | `not contains` is routed to the engine, yet differs from memory on a two-valued document, for every text |
| EsPushdown.EmptyExact | common/metadata_es_filter.py:238-262 | `empty` agrees exactly on documents that have the key, `not empty` exactly where blank and non-blank values are not mixed |
| EsPushdown.PushdownRefines | common/metadata_es_filter.py:116-177 | for every store, scope, non-empty list of exact filters and either logic, the query selects what `meta_filter` selects |
| EsPushdown.FilterBothWays | api/db/services/doc_metadata_service.py:846-889 | building the index and filtering in memory, or translating and asking the engine, gives the same set |
| EsPushdown.FoldIsNecessary | common/metadata_es_filter.py:306-308 | one-character prefixes agree for all characters if and only if the engine folds exactly as lower-casing does |
| SqlSyntax.JoinAnd | common/metadata_infinity_filter.py:159-176 | fragments joined with AND read back as their conjunction, in any surrounding conjunction |
| SqlSyntax.JoinOr | common/metadata_infinity_filter.py:140-157 | fragments joined with OR read back as their disjunction |
| SqlSyntax.OrEvaluates | common/metadata_infinity_filter.py:212-218 | a composed text is read to its end with the composed value |
| SqlText.LiteralReadsBack | common/metadata_infinity_filter.py:308-309 | a literal with doubled quotes is read back whole and ends at its closing quote |
| InfinityFilter.LayeredLike | common/metadata_infinity_filter.py:194-202 | the two escapes compose: the pattern read back matches exactly the prefix, respectively suffix |
| InfinityFilter.JsonQuotingExactIff | common/metadata_infinity_filter.py:118-123 | a text between JSON quotes is read back if and only if it holds no quote, backslash or control character |
| InfinityFilter.MembershipLoop | common/metadata_infinity_filter.py:140-176 | one pass files every member under text or numbers and builds the grouped condition |
| InfinityFilter.PartitionOr | common/metadata_infinity_filter.py:140-157 | regrouping the members does not change the disjunction |
| InfinityFilter.MembershipMeans | common/metadata_infinity_filter.py:140-176 | `in` is the disjunction over the members and `not in`, an unparenthesised conjunction, its exact negation wherever it is spliced in |
| InfinityValues.EqualNumber | common/metadata_infinity_filter.py:244-255 | a value that reads as a number is asked for as a number by `=` and `≠` |
| InfinityValues.EqualText | common/metadata_infinity_filter.py:244-255 | any other one as the text it is, in JSON quotes |
| InfinityValues.RangeBound | common/metadata_infinity_filter.py:258-267 | ranges compare numbers where the bound reads as one, extracted texts otherwise |
| InfinityValues.ContainsNumber | common/metadata_infinity_filter.py:178-192 | `contains` asks for a number where its value reads as one, `not contains` never |
| InfinityValues.Refused | common/metadata_infinity_filter.py:244-278 | which values are refused |
| InfinityValues.KeysAccepted | common/metadata_infinity_filter.py:24-29 | keys are identifiers |
| InfinityFilter.FilterMeans | common/metadata_infinity_filter.py:112-202 | every translated filter has its intended three-valued meaning wherever it is spliced in |
| InfinityFilter.BuildMeans | common/metadata_infinity_filter.py:205-218 | the predicate of the whole request has the value of the and/or of the filter meanings |
| InfinityText.RenderedReadsBackIff | common/metadata_infinity_filter.py:112-202 | the characters of a predicate are read back as that predicate if and only if the numbers it writes are read back: no quote, parenthesis or keyword inside a text or key moves a token boundary |
| InfinityText.TextMeans | common/metadata_infinity_filter.py:205-218 | the characters sent, for every accepted request whose own few numbers are read back, are read back as a predicate that means the and/or of the filters |
| InfinityText.ComparisonSpelled | common/metadata_infinity_filter.py:132-138 | the characters of a comparison, operator by operator |
| InfinityText.ContainsSpelled | common/metadata_infinity_filter.py:118-123 | those of JSON_CONTAINS |
| InfinityText.RequestWithNumber | common/metadata_infinity_filter.py:132-138 | a runtime and a database for which the request `age > 18` meets that condition |
| InfinityFilter.NotContainsComplementIff | common/metadata_infinity_filter.py:178-192 | `not contains` is the negation of `contains` on all documents if and only if the value does not read as a number |
| InfinityMemory.EqualOnTextsIff | common/metadata_infinity_filter.py:118-130 | `=` and `≠` with a plain text agree with memory on every text if and only if the text has no case and JSON writes it as it is |
| InfinityMemory.EqualOnListsIff | common/metadata_infinity_filter.py:118-123 | the same condition for `=` on all lists |
| InfinityMemory.NotEqualNeverOnLists | common/metadata_infinity_filter.py:125-130 | `≠` never agrees on all lists |
| InfinityMemory.ContainsOnTextsIff | common/metadata_infinity_filter.py:178-186 | `contains` with a text never agrees: it asks for the whole value; with any other value it agrees if and only if it selects no text |
| InfinityMemory.NotContainsOnTextsIff | common/metadata_infinity_filter.py:188-192 | `not contains` agrees if and only if its value is no text and what is written of it is not decoded |
| InfinityMemory.NoExtraction | common/metadata_infinity_filter.py:112-116 | whatever JSON_EXTRACT_STRING answers, `empty` and `start with` a quote do not both agree on every text |
| InfinityMemory.PlainlyIff | common/metadata_infinity_filter.py:194-202 | if it answers the text itself, the affix operators agree if and only if the value has no case, `empty` and `not empty` never |
| InfinityMemory.QuotedAgrees | common/metadata_infinity_filter.py:112-116 | if it answers the text in quotes, `empty` and `not empty` agree, but `start with` does not |
| InfinityMemory.InOnTextsIff | common/metadata_infinity_filter.py:140-157 | list `in` agrees on every text if and only if every member has no case, no blanks around it, reads as no number, and is written by JSON as it is |
| InfinityMemory.CasedMemberDiffers | common/metadata_infinity_filter.py:140-157 | so it does not when some member has an upper-case letter |
| InfinityMemory.RequestComposes | common/metadata_infinity_filter.py:205-218 | where every filter agrees on what a document stores, the predicate of the request selects the document exactly when memory does |
| InfinityLists.InOnListsIff | common/metadata_infinity_filter.py:140-157 | list `in` agrees on all lists under the same condition on its members as on texts |
| InfinityLists.InTextNever | common/metadata_infinity_filter.py:140-157 | `in` with a plain text never agrees: a substring test in memory, a list test here |
| InfinityLists.NotInTextNever | common/metadata_infinity_filter.py:159-176 | `not in` with a plain text never agrees on every text either |
| InfinityLists.NotInOnTextsIff | common/metadata_infinity_filter.py:159-176 | list `not in` agrees on every text under the same condition on its members as `in` |
| InfinityLists.NotInNeverOnLists | common/metadata_infinity_filter.py:159-176 | it never agrees on all lists |
| InfinityLists.ContainsOnListsIff | common/metadata_infinity_filter.py:178-186 | `contains` agrees on lists as on texts: with no text value |
| InfinityLists.NoListExtraction | common/metadata_infinity_filter.py:194-197 | whatever is extracted of lists, `start with` does not agree for two texts that do not begin each other |
| InfinityLists.NoEmptyExtraction | common/metadata_infinity_filter.py:112-116 | nor both `empty` and `not empty` |
| InfinityLists.NoValueAgrees | common/metadata_infinity_filter.py:112-202 | documents without the key, or with null, are selected by no filter, as in memory |
| InfinityLists.RangeOnTextIff | common/metadata_infinity_filter.py:132-138 | if texts are extracted as they are and both sides order them by their characters, a range bounded by a date agrees on every stored date; on a date with blanks around it, if and only if the blanks do not change the comparison; on other text, if and only if that text is not so ordered against the bound |
| InfinityLists.RangeNeverOnTexts | common/metadata_infinity_filter.py:132-138 | so, if texts are extracted as they are and the database orders them by their characters, no such range agrees on all texts |
| GaussFilter.MembershipLoop | common/metadata_gaussdb_filter.py:233-240 | membership fragments and parameters grow side by side |
| GaussFilter.ToPredicate | common/metadata_gaussdb_filter.py:117-125 | the composed predicate and the concatenation of all parameters, in filter order |
| GaussProofs.PlanLinesUp | common/metadata_gaussdb_filter.py:117-125 | the plan has as many placeholders as parameters, and filling them left to right gives every filter its own values |
| GaussProofs.FilterLinesUp | common/metadata_gaussdb_filter.py:159-254 | the same for every single operator |
| GaussProofs.LikeIff | common/metadata_gaussdb_filter.py:191-219 | the three LIKE patterns mean substring, prefix and suffix of the lowered text |
| GaussProofs.FilterIff | common/metadata_gaussdb_filter.py:159-254 | every filter is true exactly of the documents it is meant to select |
| GaussValues.EqualNumber | common/metadata_gaussdb_filter.py:365-378 | a number or boolean, or a text that is the literal of one, is looked for as JSON, as the value or an item |
| GaussValues.EqualNone | common/metadata_gaussdb_filter.py:221-231 | None, or its literal, finds JSON null |
| GaussValues.EqualText | common/metadata_gaussdb_filter.py:221-231 | any other text finds equal text up to case, and arrays and objects with it, in lower case, as an item or key; the empty text finds itself |
| GaussValues.RangeBound | common/metadata_gaussdb_filter.py:381-402 | a range is bounded by the timestamp its text is, else by the number it is a literal of, else by the decimal it is |
| GaussValues.NumberBound | common/metadata_gaussdb_filter.py:381-402 | a number bounds it as it is |
| GaussValues.Refused | common/metadata_gaussdb_filter.py:365-402 | which values `=` and ranges refuse |
| GaussValues.TextsRefused | common/metadata_gaussdb_filter.py:424-430 | the operators about parts of texts refuse None, containers and the empty text |
| GaussValues.KeysAccepted | common/metadata_gaussdb_filter.py:345-358 | keys are dotted paths whose segments are not empty and hold no NUL |
| GaussProofs.PlanSelects | common/metadata_gaussdb_filter.py:117-125 | the plan, parameters bound by position, selects the and/or of the filters and is never malformed |
| GaussRead.TokensReadBack | common/metadata_gaussdb_filter.py:159-284 | the characters of any sequence of predicates and connectives on valid keys, with the places in them, are read back as that sequence |
| GaussRead.PlanReadsBack | common/metadata_gaussdb_filter.py:117-125 | so are those of the predicate of every plan, its paths as the keys |
| GaussRead.SentSelects | rag/utils/gaussdb_conn.py:464-481 | from the characters sent, through the driver and the reader, to the documents selected, for keys without a percent sign: the and/or of the filters, where a filter on a key with a segment `null` selects everything if it is `empty` and nothing otherwise |
| GaussRead.FoundSelects | common/metadata_gaussdb_filter.py:256-260 | a filter on a key with a segment `null` selects everything if it is `empty` and nothing otherwise, any other filter what it is meant to |
| GaussRead.FoundIff | common/metadata_gaussdb_filter.py:256-260 | the database finds what stands under the keys of a request, in every document, if and only if none of them has a segment `null` |
| GaussMemory.EqualOnTexts | common/metadata_gaussdb_filter.py:221-231 | `=` and `≠` with a plain text select what memory selects, on every text |
| GaussMemory.ContainsOnTextsIff | common/metadata_gaussdb_filter.py:191-205 | `contains` and `not contains` agree with memory on every text if and only if the value is a string |
| GaussMemory.AffixOnTexts | common/metadata_gaussdb_filter.py:207-219 | the affix operators agree on every text for every value they accept |
| GaussMemory.EmptyOnTexts | common/metadata_gaussdb_filter.py:242-254 | so do `empty` and `not empty` |
| GaussMemory.InOnTextsIff | common/metadata_gaussdb_filter.py:182-189 | list `in` and `not in` agree if and only if every member equals, up to case, a member that does not read as a number, boolean or None |
| GaussMemory.InTextNever | common/metadata_gaussdb_filter.py:182-189 | with a plain text they never agree: substring tests in memory, list tests here |
| GaussMemory.AbsentAgreesIff | common/metadata_gaussdb_filter.py:242-254 | a missing key agrees for every operator but `empty` |
| GaussMemory.NullAgreesIff | common/metadata_gaussdb_filter.py:163-205 | a stored null agrees for every operator about texts but `empty` and the negative ones |
| GaussMemory.PlanComposes | common/metadata_gaussdb_filter.py:117-125 | where every filter agrees on what a document stores, the bound plan selects the document exactly when memory does |
| GaussMemory.PlanAgrees | common/metadata_gaussdb_filter.py:117-125 | so for every document of single texts, every request about texts and either logic |
| GaussMemory.SameKeyIff | common/metadata_gaussdb_filter.py:350-362 | the statement looks where memory looks if and only if the key has no dot and is not `null` in any case |
| GaussMemory.SomeAlike | common/metadata_gaussdb_filter.py:221-231 | runtimes and engines as assumed here exist |
| ListText.ListedIff | common/metadata_gaussdb_filter.py:259-260 | the JSON texts of lists of plain texts are exactly those an automaton reads to its end |
| ListText.BeginsIff | common/metadata_gaussdb_filter.py:207-212 | such a text begins with s if and only if s is read from the start |
| ListText.EndsIff | common/metadata_gaussdb_filter.py:214-219 | and ends with s if and only if s is read up to the end |
| ListText.FoundInside | common/metadata_gaussdb_filter.py:191-198 | a text that does not spill over the punctuation is found only inside an item |
| GaussLists.ContainsOnListsIff | common/metadata_gaussdb_filter.py:191-198 | `contains` agrees on all lists if and only if a string value does not spill over the punctuation of their JSON text, or any other value cannot be read in it |
| GaussLists.StartOnListsIff | common/metadata_gaussdb_filter.py:207-212 | `start with` agrees on all lists if and only if neither an item nor the JSON text of a list can begin with the value |
| GaussLists.EndOnListsIff | common/metadata_gaussdb_filter.py:214-219 | the same for `end with` |
| GaussLists.EqualOnListsIff | common/metadata_gaussdb_filter.py:221-231 | `=` with a plain text agrees on all lists if and only if it is not empty, has no case if it can be an item, and is not the JSON text of a list |
| GaussLists.InOnListsIff | common/metadata_gaussdb_filter.py:182-184 | list `in`: if and only if members that can be items have no case and stay texts, and none is the JSON text of a list of other things |
| GaussLists.NotInNeverOnLists | common/metadata_gaussdb_filter.py:186-189 | `not in` never agrees on all lists |
| GaussLists.NotEqualNeverOnLists | common/metadata_gaussdb_filter.py:163-165 | nor does `≠` |
| GaussLists.NotContainsNeverOnLists | common/metadata_gaussdb_filter.py:200-205 | nor `not contains` |
| GaussLists.EmptyNeverOnLists | common/metadata_gaussdb_filter.py:242-254 | nor `empty` and `not empty` |
| JsonPath.PathReadsBack | common/doc_store/gaussdb_conn_base.py:158-205 | the literal of a key is one SQL string, and parsing it gives exactly the key's segments |
| ServerPath.BodyLocated | common/doc_store/gaussdb_conn_base.py:158-174 | read by the database as an array literal, the path has the segments as elements, but NULL for every segment that is `null` in any case |
| ServerPath.LeadsIff | common/doc_store/gaussdb_conn_base.py:158-174 | the path of a key has no NULL if and only if no segment of the key is `null` in any case |
| GaussText.ReadsAsMeantIff | rag/utils/gaussdb_conn.py:1210-1219 | the driver reads a statement with the places it was written with if and only if it holds no percent sign of its own |
| GaussPatterns.PatternsFit | common/metadata_gaussdb_filter.py:262-277 | the five patterns in the characters of the statement match exactly the five layouts of timestamps |
| GaussSpelling.BranchSpelled | common/metadata_gaussdb_filter.py:262-277 | the characters of a CASE branch: pattern, replacement of `T`, completion and format |
| GaussSpelling.LowerSpelled | common/metadata_gaussdb_filter.py:191-231 | those of the tests of the lowered text |
| GaussSpelling.JsonSpelled | common/metadata_gaussdb_filter.py:191-231 | those of the tests of the JSON value |
| GaussSpelling.TestsSpelled | common/metadata_gaussdb_filter.py:242-284 | those of the tests for presence and emptiness |
| GaussStatement.StatementReadsIff | rag/utils/gaussdb_conn.py:464-481 | the driver reads the whole statement of a request as meant if and only if no key holds a percent sign |
| GaussStatement.StatementTakes | rag/utils/gaussdb_conn.py:464-481 | as meant, the statement takes as many parameters as are passed: knowledge bases, filter parameters, limit |
| GaussStatement.DoubledPercentMisreads | common/metadata_gaussdb_filter.py:256-260 | key `a%%b` is accepted and its statement is read as the one on key `a%b` |
| GaussStatement.ConversionTakesMore | common/metadata_gaussdb_filter.py:256-260 | key `a%sb` is accepted and its statement takes more parameters than it comes with |
| GaussProofs.NegationIsComplement | common/metadata_gaussdb_filter.py:163-205 | for every document exactly one holds: the path is missing, the operator selects it, its negation selects it |
| GaussProofs.EmptyPartitions | common/metadata_gaussdb_filter.py:242-254 | `empty` and `not empty` split all documents and are never unknown |
| GaussDates.ShapesAgreeIff | common/metadata_gaussdb_filter.py:86-95 | a text read by the client has one of the five CASE shapes if and only if all its digits are ASCII, and every text of these shapes is read by the client |
| GaussDates.ExpansionsAgreeIff | common/metadata_gaussdb_filter.py:405-421 | client and server expand a text the client accepts to the same timestamp text if and only if its digits are ASCII and its year is at least 1000 |
| GaussDates.FullWidthDiffers | common/metadata_gaussdb_filter.py:86-95 | a date in full-width digits is read by the client and has no CASE branch |
| GaussDates.ServerMoment | common/metadata_gaussdb_filter.py:262-277 | what the server reads of a stored text is its moment, whatever the year |
| GaussDates.OrderIsChronological | common/metadata_gaussdb_filter.py:405-421 | on the fixed-width texts lexicographic order is chronological order |
| GaussDates.TimeTestIsChronological | common/metadata_gaussdb_filter.py:262-277 | each of the four comparisons of stored text and bound compares their moments |
| Calendar.DaysCounted | common/metadata_gaussdb_filter.py:405-421 | moments count days as the Gregorian calendar does: 365 a year and one for each leap day |
| Calendar.CalendarRepeats | common/metadata_gaussdb_filter.py:405-421 | which repeats after 400 years of 146097 days |
| Calendar.SecondsTick | common/metadata_gaussdb_filter.py:405-421 | and the second after a moment, carried up to the year, is one later |
| GaussStatement.RangeSelectsMoments | common/metadata_gaussdb_filter.py:167-180 | a range filter on a timestamp selects exactly the documents whose stored moment is so related to the bound |
| GaussRanges.RangeOnDates | common/metadata_gaussdb_filter.py:167-180 | with a date as the bound, all four comparisons select what memory selects, on every stored date |
| GaussRanges.RangeOnStampsIff | common/metadata_gaussdb_filter.py:167-180 | on a stored timestamp of another shape they agree if and only if the comparison fails |
| GaussRanges.DatesCompare | common/metadata_utils.py:40-74 | on dates, the order of texts memory uses is the order of moments |
| GaussRanges.SomeDated | common/metadata_gaussdb_filter.py:262-277 | runtimes, engines and clocks as assumed here exist |
| Canvas.PrunedIsTheRule | agent/canvas.py:584-603 | the pruned path is the only one in which an entry is kept exactly when it is Begin/UserFillUp or its references lie ahead |
| Canvas.SomeMarksFollow | agent/canvas.py:584-603 | such a choice always exists |
| Canvas.PrunedKeepsPrefix | agent/canvas.py:584-603 | the part already run stays, and every kept entry satisfies the rule against what precedes it |
| CanvasEvents.KeptIff | agent/canvas.py:584-603 | an entry is kept if and only if it is Begin or UserFillUp, the path was resumed from UserFillUp, or all its references lie before it among the kept |
| CanvasEvents.ResumedKeepsAll | agent/canvas.py:584-603 | from a resumed path nothing is pruned |
| CanvasRouting.NextInPath | agent/canvas.py:799-848 | what stands behind the old path after one position, kind by kind: an error branch adds its targets and nothing else; Categorize and Switch the chosen ids; containers their start; an ended item and ExitLoop what follows the parent; a leaf child the start of its parent; any other what follows it. Ids come in order, and each is added unless it repeats the one before it |
| CanvasRouting.OpenStreams | agent/canvas.py:790-818 | a position leaves a stream open if it answers with one nobody reads; a message closes the leading ones that have settled |
| CanvasRouting.EndsAccounted | agent/canvas.py:790-818 | every end is reported or still open, once |
| CanvasRouting.BatchAccounted | agent/canvas.py:666-848 | so for whole batches |
| CanvasRouting.ErrorsKept | agent/canvas.py:799-808 | an error without a branch and a default is kept, a default is sent as a message instead, and messages are sent for nothing else but Message components |
| CanvasRun.Runner.CanRun | agent/canvas.py:584-603 | the scan over an entry's references decides the keeping rule |
| CanvasRun.Runner.RunBatch | agent/canvas.py:560-620 | pop at i and shrink t: the path becomes the pruned one and each kept entry is invoked once, in order |
| CanvasRun.Runner.PostProcess | agent/canvas.py:666-848 | the loop over the batch, with the path growing behind it, has the effect of one entry after the other |
| CanvasRun.Runner.Iterate | agent/canvas.py:645-897 | one pass of the main loop or its end, as one step of the run |
| CanvasRun.StepPath | agent/canvas.py:645-872 | every pass keeps path[:idx]; an error leaves exactly that prefix, completion drops nothing, suspension rebuilds the path from the pending entries |
| CanvasEvents.RunBegins | agent/canvas.py:530-552 | a run starts over behind the saved path with `begin`, or goes on with all of it |
| CanvasEvents.AllAnnounced | agent/canvas.py:651-663 | every pending entry is announced, in order |
| CanvasEvents.AnnouncedUpTo | agent/canvas.py:651-663 | up to the first that no component has, where the run crashes |
| CanvasEvents.PassEnds | agent/canvas.py:645-897 | what a pass tells the client last: workflow_finished if it finished or was canceled, user_inputs if it waits for the user, nothing otherwise; and when it does which |
| CanvasEvents.PassAccounted | agent/canvas.py:645-848 | over a pass exactly the ends of its batch are added to those reported or still open |
| CanvasRun.SuspensionIsStablePartition | agent/canvas.py:855-871 | the suspended path is the known pending entries, UserFillUps first, both groups in order, none lost or doubled |
| CanvasRun.ResumedIff | agent/canvas.py:530-552 | the suspended path is resumed, instead of started over, if and only if the id of its first UserFillUp says so |
| CanvasRun.RunEndsOnce | agent/canvas.py:855-897 | in every run at most one of workflow_finished and user_inputs is emitted, and nothing after it |
| CanvasRun.EveryRunCommits | agent/canvas.py:645-666 | in every run, resumed or not, what has been invoked is the committed part of the path, in order |
| CanvasRun.FreshRunsAreOrdered | agent/canvas.py:560-620 | unless resumed from UserFillUp, every invoked component's references appear strictly earlier in the path |
| CanvasRun.EarlierBatchesIff | agent/canvas.py:584-603 | they even lie in earlier batches if and only if no pending entry waits only for ready entries before it in its own batch |
| CanvasRun.BatchWaits | agent/canvas.py:584-603 | a batch that starts a component together with the one it refers to |
| TtsPipeline.CollectLoop | agent/canvas.py:706-722 | the first drain loop files every result under its number |
| TtsPipeline.ReleaseLoop | agent/canvas.py:706-722 | the second drain loop takes off consecutive numbers and emits their audio |
| TtsPipeline.DrainReady | agent/canvas.py:706-722 | the drain as one step of the pipeline |
| TtsPipeline.EveryInterleaving | agent/canvas.py:677-781 | in every interleaving each scheduled number is in exactly one place, audio comes out in strict order, once, and of its own sentence, and nothing is left when the stream closes |
| TtsPipeline.SomeWorkerCanMove | agent/canvas.py:686-704 | while a task is unfinished some worker can move: a full queue never blocks all parties |
| TtsPipeline.WorkerStepProgress | agent/canvas.py:686-698 | every worker move takes one unit of work off |
| TtsPipeline.JoinIsReached | agent/canvas.py:774-781 | from every reachable state the workers alone make join return |
| TtsPipeline.LastDrainEmpties | agent/canvas.py:774-781 | after join one drain leaves next_audio_sequence equal to tts_sequence and nothing behind |
| SentenceStream.SearchProgress | agent/canvas.py:741-751 | even a zero-width match ends behind the start of the buffer |
| SentenceStream.CutLosesNothing | agent/canvas.py:741-751 | sentences and rest are the buffer, no sentence is empty, the rest holds no sentence end |
| SentenceStream.CutGivesSentences | agent/canvas.py:683-751 | each piece cut off is the first sentence of what remains: it ends in a stop and all closers that follow, or in a full stop before a blank or the end, and nothing shorter does; in the rest no sentence ends |
| SentenceStream.OnlyOneCut | agent/canvas.py:683-751 | and there is only one such cut |
| SentenceStream.StopsRead | agent/canvas.py:683-683 | the stops are those of the pattern |
| SentenceStream.ClosersRead | agent/canvas.py:683-683 | so are the closers |
| SentenceStream.Handler.CutBuffer | agent/canvas.py:741-751 | the inner loop terminates, schedules exactly the sentences of the buffer and keeps the rest, in which none ends |
| SentenceStream.Handler.Process | agent/canvas.py:724-751 | one chunk keeps: stored content is what was shown, scheduled text and buffer are what was spoken; a think marker flushes the buffer, and nothing is scheduled while thinking |
| SentenceStream.Handler.Stream | agent/canvas.py:753-776 | for every chunk stream the scheduled texts are the non-marker chunks outside think sections, the content all shown messages |
| Text.SplitIsExact | agent/canvas.py:268-295 | paths and key lists correspond one to one |
| Variables.Store.GetParam | agent/canvas.py:268-295 | the walk reads the slot at the path, stops at a missing key, or goes on inside another value |
| Variables.GetFurther | agent/canvas.py:268-295 | reading a longer path goes on from what the shorter one reads |
| Variables.GetOne | agent/canvas.py:268-295 | a single key reads the slot of the dictionary |
| Variables.GetStopsAtLeaf | agent/canvas.py:268-295 | a path that goes on beyond another value reads on inside it, and never as if it ended there |
| Variables.Store.Descend | agent/canvas.py:325-328 | one step down, through a new dictionary exactly when there is none to go through |
| Variables.Store.SetParam | agent/canvas.py:320-330 | the in-place walk writes as the recursive definition does; the empty path writes nothing |
| Variables.GetAfterSet | agent/canvas.py:268-330 | reading the written path gives the written value |
| Variables.GetUnaffected | agent/canvas.py:268-330 | every path that parts from it at a point reached through existing dictionaries reads as before |
| Variables.SetTwice | agent/canvas.py:320-330 | a second write at the path overrides the first completely |
| Variables.SetKeepsTree | agent/canvas.py:320-330 | writing keeps the dictionaries a tree: any value that is no dictionary, and a dictionary whose part of the heap nothing else points into and the written place lies outside of |
| Variables.SetKeepsTreeIff | agent/canvas.py:320-330 | for dictionaries: if and only if it already stands there, or hangs nowhere and does not hold the place it is written to |
| Variables.PathsAreUnique | agent/canvas.py:320-330 | in a tree a dictionary is reached by one path only |
| DslRefs.ScanLosesNothing | agent/dsl_migration.py:67-71 | substitution touches nothing outside the matches |
| DslRefs.MatchShape | agent/dsl_migration.py:32-32 | what the pattern matches: braces and blanks, a name, a variable, blanks and braces, ended |
| DslRefs.ShapeMatches | agent/dsl_migration.py:32-32 | and conversely every such text is matched, whatever follows |
| DslRefs.ScanIsStable | agent/dsl_migration.py:67-71 | writing any other names into the references of a text and scanning it again finds exactly those references, in the same places |
| DslRefs.SubIsStable | agent/dsl_migration.py:67-71 | scanning the rewritten text finds the renamed references in the same places and no others |
| DslMigration.RenTwice | agent/dsl_migration.py:52-61 | a new id is never legacy |
| DslMigration.IdAndNameAgree | agent/dsl_migration.py:22-26 | a component's id and its operator name are renamed alike |
| DslMigration.RenKeepsNames | agent/dsl_migration.py:52-61 | a new id can still be referenced from text |
| DslMigration.ApplyTwice | agent/dsl_migration.py:86-158 | an edit repeated with nothing left to rename changes nothing |
| DslMigration.SortKeepsPairs | agent/dsl_migration.py:145-145 | the replacements are all there, longest first |
| DslMigration.NormalizeTwice | agent/dsl_migration.py:35-164 | normalizing twice is normalizing once for every description, collisions included |
| DslGraph.ReferencesFollow | agent/dsl_migration.py:63-71 | every embedded reference to a component becomes one to its renamed copy; variables and other references stay |
| DslGraph.RewritesIntoIff | agent/dsl_migration.py:67-71 | the texts that are rewritten into a given one are exactly those with some of its references put back to the components they stand for |
| DslGraph.RemapHarmlessIff | agent/dsl_migration.py:94-101 | mapping rewritten texts once more never changes any if and only if every legacy id, with any of its references put back, is again an id |
| DslGraph.RemapHarmless | agent/dsl_migration.py:94-101 | so never when no id holds an opening brace |
| DslGraph.RemapHarms | agent/dsl_migration.py:94-101 | a text that is changed |
| DslGraph.LastOneWins | agent/dsl_migration.py:82-102 | under a new id the last component of that id is kept, rewritten |
| DslGraph.CountKeptIff | agent/dsl_migration.py:82-102 | no component is dropped if and only if no two new ids collide |
| DslGraph.CollisionDrops | agent/dsl_migration.py:82-102 | two components of which one is dropped |
| DslGraph.LinksMapPointwise | agent/dsl_migration.py:93-96 | upstream and downstream lists are mapped entry by entry, in order |
| DslGraph.ParentFollows | agent/dsl_migration.py:98-100 | the parent link is mapped like any id |
| DslGraph.GraphPreservedIff | agent/dsl_migration.py:82-104 | without collisions, u lists v exactly when new u lists new v, if and only if u lists no dangling name that is an unlisted component's id or new id with references put back |
| DslGraph.GraphPreservedPlainIff | agent/dsl_migration.py:82-104 | when no id holds an opening brace: if and only if u lists no dangling new id while leaving its component out |
| DslGraph.GraphPreserved | agent/dsl_migration.py:82-104 | so always when links name components |
| DslGraph.DanglingJoins | agent/dsl_migration.py:82-104 | a component that lists a name no component has, and lists a component after the migration |
| DslGraph.PathMapsPointwise | agent/dsl_migration.py:106-107 | the path is mapped id by id |
| DslGraph.EdgeFollows | agent/dsl_migration.py:147-152 | drawn edges join the new ids of the nodes they joined |
| DslNodes.FormFollows | agent/dsl_migration.py:140-141 | the form of every node is rewritten, so that its references are to the new ids |
| DslNodes.NodeFollows | agent/dsl_migration.py:113-141 | id and parent of a node move with the components, its type, label and name follow the renames, its form is rewritten, everything else stays |
| DslNodes.EdgeMoves | agent/dsl_migration.py:146-158 | the same for edges |
| DslNodes.PartsFollow | agent/dsl_migration.py:109-162 | all nodes and edges are so moved, in order, history, messages and reference are rewritten, and the rest of the description stays |
| DslNodes.ComponentFollows | agent/dsl_migration.py:83-100 | the operator of a component is renamed, and all its entries but the links are rewritten |
| DslNodes.ReplacedInOrder | agent/dsl_migration.py:155-158 | the replacements in an edge id are made one after the other |
| DslNodes.ReplaceJoins | agent/dsl_migration.py:157-157 | each of them at the leftmost occurrences, that do not overlap |
| DslNodes.IdClass | agent/dsl_migration.py:32-32 | the characters of component ids are those of the pattern |
| DslNodes.VarClass | agent/dsl_migration.py:32-32 | so are those of variables |
| DslGraph.MigrateTwice | agent/dsl_migration.py:35-164 | what the migration returns it accepts again, without raising, and returns unchanged |
| DslRun.BuildIdMap | agent/dsl_migration.py:52-61 | the loop with its break maps every id to its new id |
| DslRun.EditComponent | agent/dsl_migration.py:86-100 | the in-place edits of a component, or the exception on an unhashable id or name |
| DslRun.RebuildComponents | agent/dsl_migration.py:82-102 | the rebuilt dictionary, later components overwriting earlier ones |
| DslRun.EditNode | agent/dsl_migration.py:113-141 | the in-place edits of a node |
| DslRun.EditEdge | agent/dsl_migration.py:146-158 | the in-place edits of an edge, with the replacement loop over its id |
| DslRun.NormalizeChunkerDsl | agent/dsl_migration.py:35-164 | the whole migration, with its exceptions |
| Canonical.CanonExact | common/misc_utils.py:310-328 | two nested values have equal canonical forms if and only if they are equal in Python |
| Canonical.EqualityIsEquivalence | common/misc_utils.py:310-328 | equality of nested values is an equivalence, as deduplication needs |
| Canonical.KeyExact | common/misc_utils.py:331-345 | keys are equal if and only if the values are equal and both or neither are hashable |
| Canonical.KeyExactOnSetFree | common/misc_utils.py:331-345 | on values without sets keys are equal if and only if the values are |
| Canonical.HashableIff | common/misc_utils.py:331-345 | a value has no hash if and only if, through tuples only, it holds a list, a dictionary or a set that is not frozen |
| Canonical.FrozensetKeepsItsKey | common/misc_utils.py:336-340 | a top-level frozenset never shares its key with an equal set |
| McpSession.AtMostOneReply | common/mcp_tool_call_conn.py:128-181 | in every run a result queue gets at most one reply, about its own request, a cancellation only if the request was never taken |
| McpOutcomes.TakenIsAnswered | common/mcp_tool_call_conn.py:128-164 | a request taken with a session is answered with the result or the error of its task, without one with an error |
| McpOutcomes.ResultsNeedSession | common/mcp_tool_call_conn.py:128-181 | in a run in which no connection succeeds no result is ever put |
| McpOutcomes.CancelledForGood | common/mcp_tool_call_conn.py:128-181 | nor by a worker that was cancelled |
| McpOutcomes.SessionKept | common/mcp_tool_call_conn.py:128-164 | as long as it is neither cancelled nor closed, a worker with a session keeps it |
| McpOutcomes.TimeoutsHarmless | common/mcp_tool_call_conn.py:128-148 | waiting in vain changes nothing but that a closed worker stops |
| McpSession.OnePlace | common/mcp_tool_call_conn.py:128-181 | in every run an accepted request is answered, queued, held or lost with a cancelled worker, and only one of these |
| McpSession.NothingAfterClose | common/mcp_tool_call_conn.py:166-168 | once closed, nothing more is accepted |
| McpSession.AfterClose | common/mcp_tool_call_conn.py:237-253 | after the close the only request that can be unanswered is one the worker had taken |
| McpSession.OrderIff | common/mcp_tool_call_conn.py:237-253 | replies follow acceptance if and only if the worker did not answer after the close with drained requests behind it |
| McpSession.OrderedBeforeClose | common/mcp_tool_call_conn.py:128-164 | before the close replies follow the order of acceptance |
| McpSession.LateAnswer | common/mcp_tool_call_conn.py:237-253 | a run in which the second request is answered before the first |
| McpSession.LeftAlone | common/mcp_tool_call_conn.py:128-164 | a worker left alone answers every request it has not lost |
| McpSession.Session.CallServer | common/mcp_tool_call_conn.py:166-172 | a call is refused when closed, otherwise queued with a new result queue |
| McpSession.Session.TakeTask | common/mcp_tool_call_conn.py:128-148 | the worker takes the oldest request and without a session answers it with an error |
| McpSession.Session.PutOutcome | common/mcp_tool_call_conn.py:150-164 | the outcome goes to the result queue of the request held |
| McpSession.Session.DrainQueue | common/mcp_tool_call_conn.py:243-253 | the loop empties the queue and adds one cancellation to each queued request's result queue, nothing else |
| McpSession.Session.CloseSession | common/mcp_tool_call_conn.py:237-253 | closing is one step of the run and has no effect the second time |

## Left out

- Elasticsearch ranges and numbers: their meaning depends on the index mapping and stays a parameter of the engine.
- Elasticsearch field names: fields are structured, so keys with dots are not told apart from nested fields.
- `extract_doc_ids`, result limits, fallbacks and request I/O of the three back ends.
- GaussDB operator aliases; recognising decimals in range values is a parameter, and so are the driver's conversions other than `%s` and what the server makes of timestamp texts without a four-digit year.
- RangeSelectsMoments: documents that store impossible dates, like month 13, are excluded; for them the server raises, and the whole statement fails.
- ServerPath: array literals follow the PostgreSQL documentation, section 8.15.6, with blanks outside quotes refused (no key is written with any); that a path with a NULL in it finds nothing is how `#>` treats NULL there.
- GaussDB: the SELECT, scope and order of the statement are kept as characters and not read back to SQL; GaussRead reads the predicate.
- GaussMemory, GaussLists, GaussRanges, InfinityMemory, InfinityLists: the comparison with memory is for keys that store nothing, null, a text or a list of texts, in GaussLists of texts that JSON writes as they are; stored numbers, booleans and nested values are not compared, nor are scalar values that read as numbers.
- Infinity: what JSON extraction answers is a parameter, and so is how it compares numbers.
- Digits of `str.isdigit`: the in-memory date test has its own class, not tied to the digits the GaussDB client reads.
- Canvas components: what a component answers, raises or routes to is an input of the run; retrieval, history, token counts, logs, cancellation and the extra invocation of pending UserFillUps during suspension are not modelled.
- Speech: cleaning of the spoken text and cancellation of the workers.
- Variables: reading on inside JSON strings, lists and attributes stops at the value it enters; parsing of variable expressions and output storage.
- Migration: keys of dictionaries are strings, and the position of a TypeError among others does not matter, as nothing is returned.
- Edge ids: that the text of a free-form edge id still names the ids of its ends; what the replacement computes is proved, and that it is idempotent.
- Canonical form: the `repr` fallback for other unhashable objects; scalars are taken up to Python equality, and dictionaries list each key once.
- MCP session: timeouts of callers, transport, task kinds and shutdown from other threads; a cancelled worker may return in error mode any number of times.
- Server, command line, cryptography, network and configuration code, and the language-model-driven filter modes.
