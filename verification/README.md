# SofaDb: a model and its proofs

SofaDb is a small document store with revisions, in the manner of CouchDB, on top of a SAX-style JSON library.
This project models its JSON printer, JSON reader, tree builder, document model, value order, conflict resolution,
database calls, memory pool, byte stack and buffered files in Dafny, and proves what they promise about every input
and every run.

What changes state in C++ is a class here, each method proved equal to a function of the state before the call: the
writer (`JsonWriter.Writer`), the reader (`JsonReader.Reader`), the tree builder (`JsonLoader.ReadHandler`), the
document (`Document.Document`), the conflict resolver (`Conflict.Resolver`), the database over its storage
(`Database.Database`), the allocator and the stack (`Pool.MemoryPoolAllocator`, `Stack.Stack`) and the file streams
(`FileStreams`). The laws are lemmas about those functions.

## The main results

- **Parsing undoes printing, exactly where it can.** In the sense of the program's own `==`,
  `string_to_json(json_to_string(v)) == v` holds of a map or a list whose big numbers consist of number characters if
  and only if no key is empty, no big number has a '.', 'e' or 'E' and every double is one that the C library reads back
  as it writes it (`LoadsEqual.LoadsEqualExactly`); grafts and big numbers in the int64 window do no harm. The very
  same value comes back, now of any map or list, if and only if there are no grafts and no such big numbers either
  (`FixedPoint.RoundTripExactly`), and whatever a text parses to has that shape (`FixedPoint.ParseImage`). The
  writer's level assertions are preconditions of its methods, so `JsonWriter.Print` shows that they never fail. Both
  writers' texts mean the same.
- **The reader takes exactly the grammar.** `Grammar` writes down the texts of RFC 4627 character by character, with
  every escape, any blanks around tokens, and the leniencies of the code (number lexemes of any shape, lone low
  surrogates, anything behind a '\0'). A text is accepted, with these events, if and only if it is such a text and
  these are the events of the tree it spells (`Exactness.AcceptsExactly`); `Errors` says which error is reported, and
  where, when a text leaves the grammar. The reader ends on every text, and its cursor stays inside it.
- **Loading means what the text says.** A text with proper numbers and distinct names loads as doubles exactly where
  there is a point or an exponent, as the ints and big numbers its digits spell, strings with their escapes undone,
  items in order and entries sorted by name (`Loading.TextLoads`); of scalars under a repeated name the first counts
  (`Loading.FirstMemberWins`).
- **Writing has one layout.** Outside of strings the plain form holds no blank and no line break; the pretty form holds
  one line break behind every opening bracket and comma and before every closing bracket of a container that is not
  empty, with two blanks a level, and one blank behind every colon; before a big number it has neither
  (`Layout.LaidOut`).
- **Numbers are exact.** The two-phase integer parser never wraps around, and rejects an integer exactly from 10^308 on
  (`NumberExact.NumericIsExact`), and the double with a fraction or an exponent is the number its digits spell, up to
  the sixteenth of the fraction (`NumberExact.DecimalIsExact`); decimal strings order as the integers they spell; 20
  characters always suffice for a 64-bit integer.
- **JSON `<` is a strict total order with `==` as its equivalence**, blind to grafts, on all values without in-window
  big numbers at any depth; and for every other value there are two of these with which the order breaks. Which order
  it is says `OrderLaws`: null, booleans, ints, doubles, strings, big numbers, maps and lists, in this order; numbers
  by value, strings by their first difference, lists and maps by their first uneven item or entry. Every int comes
  before every big number outside of 64 bits, one of smaller value included.
- **Merging is a join.** Any two patterns of merges over the same revisions end with the same top and the same
  conflicts, with no assertion failing on the way; merging needs a top other than the current one, and nothing else.
  The top is the revision with the highest number, among those the shortest identifier, among those the one with the
  smaller character at the first difference (`Convergence.Converge`).
- **`put` and `get`, character by character.** A successful `put` stores the document's literal text under its literal
  key, in which the number is the parent's plus one and the identifier spells that text's digest, byte by byte; the
  log's text is spelled out as well; and what `get` takes out of any storage, well formed or not, is said part by part
  (`Effects`).
- **Runs of the database.** After a call that stores a content, and after every later run of calls, `get` under the
  revision returned gives back the content's norm if and only if no key in the content is empty (and then the parent
  with it), for every content whose numbers print as numbers; and the very content if and only if it has the stable
  shape and its doubles survive, for every content whatever, when the C library writes doubles as numbers
  (`Immutability.StoredForever`). `put` accepts the others too: the map whose only key is empty is stored, and `get`
  throws under its revision for ever (`LostContent.NamelessIsLost`). After every run `get` without a revision finds
  what it finds under the log's top, of which the same holds (`History.RunsAlwaysReadable`). Without merging a history
  is a line, in which `get` names the revision before as the parent of each revision, when the contents can be read
  back, and no parent is named twice. With merging, every document's heads stay well formed if and only if no call
  merges a revision that is the top already; and such a run crashes if and only if a call that is not rejected has the
  parent number 2^32-1, after which no number is left.
- **Documents do not interfere, exactly where they cannot.** A document is what one key prefix names. A database shares
  no document with any properly named one if and only if its own name lacks the separator "!\0"
  (`Keys.ProperNameExactly`). No call on another document can change what `get` returns under a revision if and only if
  what follows the last '@' in that revision's string, if there is one, is neither empty nor a computed revision
  (`Isolation.IsolatedExactly`); without a revision, no call on another document changes it in any store that a run has
  left (`Isolation.GoodRunLeavesOthers`). Both conditions can fail: `Isolation.ImproperNameInterferes` and
  `Isolation.SeparatorInRevision` give the inputs.
- **Unicode escapes are UTF-8, exactly where they are not a lone low surrogate.** Every scalar value, written as one
  escape or as a surrogate pair, is read as its UTF-8 form; a successful escape gives bytes that RFC 3629 forbids if and
  only if its first code unit is a low surrogate.
- **Events compile to values.** Running the events of a value on any stack pushes that value, with its strings shared
  instead of copied, if and only if it holds no string and no number made from their type alone, and no number between
  2^31 and 2^32 from a 64-bit constructor; the first makes an assertion fail, the second comes back as null, the third
  without one of its flags. A parsed document never holds any of them, and no text whatever makes the stack's
  assertions fail.
- **Memory.** Blocks of the pool behave as byte strings that share nothing over any run; the stack on top of it is a
  byte sequence, its capacity is at most the initial one or twice the largest size reached, and growth has copied
  fewer bytes in all than the capacity it ended with.
- **Buffered files** deliver and receive exactly what unbuffered ones would, for every buffer size of at least one.

## Conventions

- C++ `char` is Dafny's `char`; the model covers at least all byte values. Strings are sequences of them.
- Integers have their C++ width where it can be seen: `int64`, `uint64`, `int32` and `uint32` are subset types, the
  revision number wraps around at 32 bits, `-i` of the smallest integers is two's complement, `atoi` and `atoll` saturate.
- Doubles are finite reals. What `sscanf("%lf")` and `"%.20g"` do is a parameter, `Libc`; nothing is assumed of it
  except where a lemma says so.
- MD5 is a parameter, `Env.md5`, of which nothing is assumed. Immutability needs that no later text of the run has the
  digest of the stored one, and `Immutability.NoCollision` says just that.
- Calls get values that the program can build: maps sorted by their keys, as `std::map` keeps them
  (`JsonValue.WellFormed`), and revisions made by a constructor (`Revision.Legit`).
- Storage is a map from keys to texts. What `malloc` and `fread` answer are parameters as well.
- `longjmp` and exceptions are failure results; a failed C++ `assert` is an outcome of its own.

## Where code and documentation disagree

- The comment in `libsofadb/database.h` describes a log entry as three values and a stored document as five; the code
  writes `[number, identifier, available, deleted]` and `[deleted, previous, attachments, content]`. The model follows
  the code.
- `append_int_to_string` takes 64 bits but its generator prints 32 signed ones, so a revision number of 2^31 or more
  gets a string that starts with '-'. `Revision.ParseMake` states exactly which revisions read back as themselves.
- The comment at `libsofadb/rapidjson/document.h:483` offers `Accept` with a document as the handler, to clone a value.
  The document's handler functions are private and only the reader is a friend (lines 755 and 756 there), so that call
  does not compile as it stands. `Dom.AcceptRebuilds` says what it would do if it did.
- Without `DO_PARSE_NUM` the reader calls `BigNum` (`libsofadb/rapidjson/reader.h:628`), which a document lacks, so a
  document parses only with it. `Document` models that variant.
- Section 3 of RFC 3629 forbids the encoding of surrogates, and `libsofadb/rapidjson/reader.h:418-431` writes one for an
  escaped low surrogate that follows no high one. The model does what the code does.
- The comment beside `min_int_decimal` says -(2^63)-1; the constant is -2^63.

## Model

| member | source | states |
|---|---|---|
| JsonWriter.Writer.Prefix | libsofadb/rapidjson/writer.h:213-228 | requires what the two assertions demand of the level and the kind; writes the separator due at the level's count and counts one more value on it |
| JsonWriter.Writer.PrettyPrefix | libsofadb/rapidjson/prettywriter.h:107-143 | the same for the indented form: newline, indentation and ": " by position, under the same assertions |
| JsonWriter.Writer.WriteIndent | libsofadb/rapidjson/prettywriter.h:145-148 | as many indent characters as there are open levels times the indent width |
| JsonWriter.Writer.StartObject | libsofadb/rapidjson/writer.h:58-63 | one more value on the outer level, a new empty object level, separator and brace written |
| JsonWriter.Writer.EndObject | libsofadb/rapidjson/prettywriter.h:64-77 | needs an object level on top, removes it, and breaks the line before the brace exactly when the object had values and the writer is pretty |
| JsonWriter.Writer.StartArray | libsofadb/rapidjson/writer.h:75-80 | one more value on the outer level, a new empty array level, separator and bracket written |
| JsonWriter.Writer.EndArray | libsofadb/rapidjson/prettywriter.h:86-99 | needs an array level on top, removes it, and breaks the line before the bracket exactly when the array had values and the writer is pretty |
| JsonWriter.Writer.BigInt | libsofadb/rapidjson/writer.h:44-50 | even in the pretty writer a big number gets the plain separator |
| JsonWriter.Writer.WriteInt64 | libsofadb/rapidjson/writer.h:141-147 | writes the canonical numeral of every 64-bit integer, the smallest included |
| JsonWriter.Writer.WriteUint64 | libsofadb/rapidjson/writer.h:149-161 | the backwards buffer of 20 characters is never overrun and comes out as the canonical numeral |
| JsonWriter.Writer.WriteString | libsofadb/rapidjson/writer.h:176-206 | the quoted and escaped form of the string that the reader inverts |
| JsonWriter.Print | libsofadb/native_json.cpp:307-357 | on every value, where a value may stand, every call meets the writer's assertions, the text of the value is appended and the levels are as before plus one value |
| JsonWriter.JsonToString | libsofadb/native_json.cpp:359-378 | appends the text of a map or list, plain or indented by two blanks |
| JsonReader.Reader.Take | libsofadb/native_json_helpers.h:114-141 | the cursor's character, '\0' at the end, where the cursor stays |
| JsonReader.Reader.SkipBlanks | libsofadb/rapidjson/reader.h:93-98 | moves the cursor past blanks and nothing else |
| JsonReader.Reader.ParseHex4 | libsofadb/rapidjson/reader.h:346-365 | the loop computes the specified value of four hexadecimal digits or fails where it must |
| JsonReader.Reader.ParseStringToStream | libsofadb/rapidjson/reader.h:399-452 | the loop pushes exactly the decoded string and its terminator on the stack, or fails with the specified error and offset |
| JsonReader.Reader.ParseString | libsofadb/rapidjson/reader.h:379-394 | delivers the decoded string without its terminator and leaves the string stack at its entry height |
| JsonReader.Reader.ParseLexeme | libsofadb/rapidjson/reader.h:616-629 | delivers the longest run of number characters and leaves the string stack as it was |
| JsonReader.Reader.AccumulateDigits | libsofadb/rapidjson/reader.h:475-494 | the accumulation loop at a given width never wraps around, and stops where the next digit would pass the bound |
| JsonReader.Reader.ParseInteger | libsofadb/rapidjson/reader.h:465-522 | the 32-bit and 64-bit phases and their two flags |
| JsonReader.Reader.FinishNumber | libsofadb/rapidjson/reader.h:535-613 | fraction, exponent and the event they lead to, with the error offsets |
| JsonReader.Reader.ParseNumeric | libsofadb/rapidjson/reader.h:456-613 | the whole typed number parser against its specification |
| JsonReader.Reader.ParseWord | libsofadb/rapidjson/reader.h:312-343 | the three literals with their chained takes and their different error offsets |
| JsonReader.Reader.ParseValue | libsofadb/rapidjson/reader.h:633-644 | one value of any kind, events, cursor, string stack and errors as specified |
| JsonReader.Reader.ParseArray | libsofadb/rapidjson/reader.h:287-310 | an array with its element count; on success the string stack is at its entry height |
| JsonReader.Reader.ParseObject | libsofadb/rapidjson/reader.h:248-283 | an object with its member count; on success the string stack is at its entry height |
| JsonReader.Reader.Parse | libsofadb/rapidjson/reader.h:213-239 | a whole text: the specified events in order, then the cursor and the stack, or the error with its offset and an empty stack |
| ReaderSpec.ParseText | libsofadb/rapidjson/reader.h:213-239 | what is left over, and every error offset, lies within the text |
| ReaderSound.ParseIsSound | libsofadb/rapidjson/reader.h:213-310 | for every text, success means the events of exactly one tree rooted at a container, end counts equal to the values delivered, and nothing but '\0' or the end after it |
| Completeness.DocReads | libsofadb/rapidjson/reader.h:213-310 | every text of the grammar, whatever its escapes and blanks, is taken to its end with the events of the tree it spells |
| Exactness.DocFound | libsofadb/rapidjson/reader.h:213-310 | every text that is taken is one of the grammar, and the events are those of the tree it spells |
| Exactness.AcceptsExactly | libsofadb/rapidjson/reader.h:213-452 | a text is taken with certain events if and only if the grammar has it and spells them |
| Errors.BlankText | libsofadb/rapidjson/reader.h:222-225 | nothing but blanks: the error and its offset, at their end |
| Errors.OtherRoot | libsofadb/rapidjson/reader.h:227-231 | another root than a container: the error and its offset, at its first character |
| Errors.TextAfterRoot | libsofadb/rapidjson/reader.h:232-235 | text behind the root: the error and its offset, at its first character |
| Errors.ItemEndFails | libsofadb/rapidjson/reader.h:300-307 | no comma or bracket behind an item: the error and its offset, one past the character |
| Errors.StringFails | libsofadb/rapidjson/reader.h:399-452 | a string that goes wrong behind any good characters makes the whole text fail with its error and offset |
| Errors.StringErrors | libsofadb/rapidjson/reader.h:441-444 | a missing end and a raw control character, each with the offset one before |
| Errors.EscapeErrors | libsofadb/rapidjson/reader.h:412-434 | every letter that is no escape, and its offset |
| Errors.HexErrors | libsofadb/rapidjson/reader.h:346-365 | a wrong hexadecimal digit at any place, and its offset |
| Errors.SurrogateErrors | libsofadb/rapidjson/reader.h:419-430 | a high surrogate without an escape, or with one that is no low surrogate, and the offsets |
| Errors.WordFails | libsofadb/rapidjson/reader.h:312-343 | a literal that goes wrong at any letter, with offsets that differ for "true" |
| Errors.MembersFail | libsofadb/rapidjson/reader.h:248-283 | an error among the members of a root object is the error of the whole text, at the same place |
| Errors.NameFails | libsofadb/rapidjson/reader.h:260-262 | a member that does not begin with a string: the error and its offset, at its start |
| Errors.ColonFails | libsofadb/rapidjson/reader.h:265-268 | no colon behind a name: the error and its offset |
| Errors.MemberEndFails | libsofadb/rapidjson/reader.h:272-280 | no comma or brace behind a member: the error and its offset |
| Parsing.StringInverse | libsofadb/rapidjson/reader.h:399-452 | parsing an escaped string of any length yields its characters and one terminator, and consumes exactly what was written |
| Parsing.QuotedInverse | libsofadb/rapidjson/writer.h:176-206 | the written string, quotes included, is delivered as one event with the original characters |
| Parsing.NumberInverse | libsofadb/rapidjson/reader.h:616-629 | a number lexeme followed by something else is delivered whole |
| Parsing.ValueInverse | libsofadb/rapidjson/reader.h:633-644 | the text of any printable value, in either style and at any depth, parses to the events of that value and leaves what follows |
| Parsing.TextInverse | libsofadb/rapidjson/writer.h:58-90 | a whole text of either writer is accepted to its end with the events of the value |
| NumberExact.PhasesExact | libsofadb/rapidjson/reader.h:465-522 | on numerals of any length the phases hold the number itself, or stop with the rest of its digits unread and none lost |
| NumberExact.BigDigitsExact | libsofadb/rapidjson/reader.h:526-533 | the double path holds the number itself, or rejects it exactly when its tens reach 10^307 |
| NumberExact.NumericIsExact | libsofadb/rapidjson/reader.h:456-613 | a canonical integer of any length becomes exactly its value, in 32 bits when they suffice, else in 64, else as a double below 10^308; from there on it is rejected as too big |
| NumberExact.DecimalIsExact | libsofadb/rapidjson/reader.h:535-613 | with a fraction or an exponent the event is the double that the integer and the first sixteen digits of the fraction spell, shifted by the exponent; an exponent beyond 308 or an integer from 10^308 on is rejected |
| NumberExact.DigitErrors | libsofadb/rapidjson/reader.h:496-586 | a missing digit after a sign, a point or an exponent: the error and its offset |
| Unicode.Utf8Inverse | libsofadb/rapidjson/rapidjson.h:336-356 | decoding by section 3 of RFC 3629 inverts the encoder on every scalar value, no other bytes are decoded as it, and the encoder's bytes for a surrogate are not decoded at all |
| Unicode.EscapeReads | libsofadb/rapidjson/reader.h:418-432 | every scalar value, written as one escape or as a surrogate pair with digits of either case, is read as its UTF-8 form |
| Unicode.EscapeIsUtf8Exactly | libsofadb/rapidjson/reader.h:418-432 | a successful escape gives bytes that RFC 3629 forbids if and only if its first code unit is a low surrogate |
| Unicode.LoneLowSurrogate | libsofadb/rapidjson/reader.h:418-432 | such an escape is accepted, whatever follows it |
| Loading.NumberLoads | libsofadb/native_json.cpp:193-207 | a lexeme with a point or an exponent becomes the double the C library reads; a canonical integer the int of its value, or a big number outside of 64 bits |
| Loading.MarkedNumber | libsofadb/native_json.cpp:193-207 | one of '.', 'e' and 'E' in any place of a lexeme makes it a double |
| Loading.TextLoads | libsofadb/native_json.cpp:253-299 | every text of the grammar with proper numbers and distinct names loads as the value it spells, said value by value |
| Loading.LexemeLoads | libsofadb/native_json.cpp:193-299 | a number alone in an array loads as the double, int or big number it stands for |
| Loading.FirstMemberWins | libsofadb/native_json.cpp:167-182 | an object of scalars with repeated names loads as the sorted map of its names, each with its first member's value |
| TreeBuilder.InsertSorted | libsofadb/native_json.cpp:172-175 | inserting keeps keys sorted and distinct |
| TreeBuilder.BuildTree | libsofadb/native_json.cpp:160-251 | from any state that waits for a value, the events of a clean tree deliver exactly its value, and nothing else changes |
| TreeBuilder.BuildRoot | libsofadb/native_json.cpp:221-251 | from the initial state the events of a clean container end with exactly its value as the result |
| JsonLoader.ReadHandler.Advance | libsofadb/native_json.cpp:167-182 | into the map under the pending key, keeping an earlier entry, or onto the list; a wrong container throws |
| JsonLoader.ReadHandler.BigNum | libsofadb/native_json.cpp:193-207 | a lexeme with '.', 'e' or 'E' is delivered as the double the C library reads, a 64-bit integer's numeral as that int, any other as specified, an empty one throws |
| JsonLoader.ReadHandler.String | libsofadb/native_json.cpp:209-219 | a pending key if a map waits for one, else a value |
| JsonLoader.ReadHandler.Start | libsofadb/native_json.cpp:221-246 | the first container is the root itself, a later one is stored and entered |
| JsonLoader.ReadHandler.End | libsofadb/native_json.cpp:232-250 | leaves the innermost container, whose contents are then seen through its parent |
| JsonLoader.StringToJson | libsofadb/native_json.cpp:253-299 | for every text: the value, the reader's error with its offset, or an exception of the builder |
| RoundTrip.ParsePrint | libsofadb/native_json.cpp:295-378 | printing any storable container in either style and parsing it gives its norm: grafts resolved, numbers as their texts read back |
| FixedPoint.ParseImage | libsofadb/native_json.cpp:253-299 | whatever the text, a returned value is a closed container of the stable shape |
| FixedPoint.RoundTripExactly | libsofadb/native_json.cpp:295-378 | the identical value comes back, of any map or list, if and only if it has the stable shape (no grafts, no empty keys, big numbers lexemes without a mark outside the window) and its doubles survive the C library |
| LoadsEqual.LoadsEqualExactly | libsofadb/native_json.cpp:295-378 | a value that the source's `==` calls equal comes back, of any map or list whose big numbers consist of number characters, if and only if keys are named, big numbers have no float mark and doubles survive |
| LoadsEqual.NormEquals | libsofadb/native_json.cpp:104-157 | what a value's text keeps of it is `==` to it exactly under that condition, grafts and in-window big numbers included |
| LoadsEqual.BlankBigLoadsEqual | libsofadb/native_json.cpp:95-97 | a big number with a blank after its digits is no lexeme and still loads to an equal value, so the condition is stated for number characters only |
| FixedPoint.ReparseIsStable | libsofadb/native_json.cpp:295-378 | printing what a text parsed to and parsing again gives the same value |
| FixedPoint.EmptyKeyIsLost | libsofadb/native_json.cpp:167-182 | a map with an empty key does not come back |
| FixedPoint.PrettyMeansTheSame | libsofadb/rapidjson/prettywriter.h:43-148 | both writers' texts parse to the same events and the same value, big numbers included |
| Layout.LaidOut | libsofadb/rapidjson/prettywriter.h:107-148 | in both writers' texts every blank and line break outside of strings is where the layout has it, two blanks a level, and nowhere else |
| Layout.EscapeSpelled | libsofadb/rapidjson/writer.h:176-206 | the written form of every character: short escapes, four digits for other controls, everything else plain |
| Decimal.CanonicalDec | libsofadb/native_json.cpp:42-71 | every canonical numeral is the numeral of the integer it spells, so the next two results cover all of them |
| JsonValue.BigLessIsIntegerOrder | libsofadb/native_json.cpp:42-71 | on canonical numerals of any length the comparison is that of the integers |
| JsonValue.NormalizeIsExact | libsofadb/native_json.cpp:88-102 | normalisation gives the int of the same value exactly from -2^63 to 2^63-1, and leaves the rest alone |
| JsonValue.BigTrichotomy | libsofadb/native_json.cpp:42-71 | exactly one of less, greater and equal, for all digit strings |
| JsonValue.BigTransitive | libsofadb/native_json.cpp:42-71 | transitive for all digit strings |
| OrderLaws.ScalarsInOrder | libsofadb/native_json.cpp:124-135 | booleans, ints and doubles are in their usual order, strings in that of their first difference |
| OrderLaws.BigsInOrder | libsofadb/native_json.cpp:42-71 | big numbers are ordered by sign, length and first difference |
| OrderLaws.IntegersInOrder | libsofadb/native_json.cpp:104-115 | canonical big numbers are in the order of the integers, against each other and, inside 64 bits, against ints; outside, every int comes first |
| OrderLaws.KindsInOrder | libsofadb/native_json.cpp:122-123 | null, boolean, int, double, string, big number, map, list, each below all later ones |
| OrderLaws.ListsInOrder | libsofadb/native_json.cpp:140-141 | one list is below another if and only if it is at the first uneven item, or ends there |
| OrderLaws.MapsInOrder | libsofadb/native_json.cpp:138-139 | the same of maps, by key and then by value |
| OrderLaws.ListsEqual | libsofadb/native_json.cpp:140-141 | lists are equal if and only if they have equal items, in-window big numbers included |
| OrderLaws.MapsEqual | libsofadb/native_json.cpp:138-139 | the same of maps, with the same keys |
| JsonOrder.GraftsAreTransparent | libsofadb/native_json.cpp:117-120 | neither `<` nor `==` sees grafts, at any depth |
| JsonOrder.EqualsIsIdentity | libsofadb/native_json.cpp:104-157 | `==` is identity up to grafts, in both directions |
| JsonOrder.Trichotomy | libsofadb/native_json.cpp:104-157 | exactly one of `l < r`, `r < l` and identity up to grafts |
| JsonOrder.Transitive | libsofadb/native_json.cpp:104-157 | `<` is transitive across all nine kinds |
| JsonOrder.StrictTotalOrder | libsofadb/native_json.cpp:104-157 | `<` is a strict total order, `==` its equivalence and a congruence for it |
| JsonOrder.InWindowBigsBreakTheOrder | libsofadb/native_json.cpp:107-115 | any in-window big number equals an int that is below a number it is above |
| OrderDomain.DomainIsLargest | libsofadb/native_json.cpp:104-157 | every value with an in-window big number at any depth equals one value of the domain that is below another one that is below it: the domain cannot be larger |
| Revision.ParseMake | libsofadb/database.cpp:17-60 | a revision made of a number and an identifier reads back as itself if and only if the number is below 2^31 and the identifier is not empty |
| Revision.TextInjective | libsofadb/database.cpp:17-33 | different revisions have different strings, for all 32-bit numbers and all identifiers |
| Revision.LegitReads | libsofadb/database.cpp:17-60 | however a revision object was constructed, its string is read as that revision or not at all |
| Revision.LegitTextInjective | libsofadb/database.cpp:17-60 | however they were constructed, two revision objects with the same string are the same |
| Revision.ParseRevExactly | libsofadb/database.cpp:35-60 | which strings the constructor takes, and as what: digits up to 2^63-1 cut to 32 bits, a dash and an identifier |
| Revision.WinsExactly | libsofadb/conflict.cpp:21-35 | the winner is the one with the higher number, else the shorter identifier, else the smaller character at the first difference |
| Revision.WinsByCharacter | libsofadb/conflict.cpp:21-35 | one smaller character decides between identifiers of one length, whatever follows it |
| Revision.WinsTrichotomy | libsofadb/conflict.cpp:21-35 | of two revisions one wins, or they are the same |
| Revision.WinsTransitive | libsofadb/conflict.cpp:21-35 | winning is transitive |
| RevLog.TopOf | libsofadb/database.h:267-277 | the top read out of a well-formed log is its last entry |
| RevLog.AddedQuad | libsofadb/database.h:253-265 | adding an entry to the JSON adds it to the log it stands for |
| RevLog.ConflictsOf | libsofadb/database.h:284-287 | the conflict list read out of a well-formed log |
| Conflict.Resolver.Merge | libsofadb/conflict.cpp:38-99 | the loop with its visited set computes the specified log, or the specified failure of an assertion or a cast |
| Conflict.MergedExactly | libsofadb/conflict.cpp:38-99 | which conflicts and entries a merged log has, flags included, and exactly when an assertion fails, the winner named by number, length and first difference |
| Conflict.MergeJsonIsMergeLog | libsofadb/conflict.cpp:38-99 | merging on JSON is merging on what the JSON says |
| Convergence.MergeLogIsMergeHeads | libsofadb/conflict.cpp:38-99 | merging logs is merging their heads, failures included |
| Convergence.MergeJoins | libsofadb/conflict.cpp:45-96 | with different tops both assertions hold, the invariant holds again, the heads are the union, the top is the best of them by number, length and first difference, and the list stays within the reserved room |
| Convergence.TopIsBest | libsofadb/conflict.cpp:21-96 | under the invariant the top is the known revision with the highest number, then the shortest identifier, then the smallest character at the first difference |
| Convergence.MergeNeedsOtherTop | libsofadb/conflict.cpp:69-96 | a merge of well-formed logs succeeds and keeps the invariant if and only if the tops differ |
| Convergence.MembersDetermineHeads | libsofadb/conflict.cpp:69-96 | under the invariant the set of known revisions determines top and conflicts |
| Convergence.ExchangeJoins | libsofadb/conflict.cpp:38-99 | any pattern of merges ends with exactly the revisions its replicas knew |
| Convergence.DisjointIsSound | libsofadb/conflict.cpp:38-99 | replicas that know different revisions never meet their own top |
| Convergence.Converge | libsofadb/conflict.cpp:38-99 | any two patterns of merges over the same revisions end with the same top, the best known revision by number, length and first difference, and the same conflicts, and no assertion fails |
| Convergence.OrderIsIrrelevant | libsofadb/conflict.cpp:38-99 | new revisions merged one by one, in any two orders, leave the same top and conflicts |
| Keys.ProperNameExactly | libsofadb/database.cpp:231-243 | a database name lacks the separator if and only if no log key of that database is one of a properly named database, for other names or other identifiers |
| Keys.ImproperNameIsShared | libsofadb/database.cpp:231-243 | under a name that holds the separator every document has the log key of a document of a properly named database |
| Keys.DocKeyInjective | libsofadb/database.cpp:224-225 | document keys under plain revision strings (not empty, no '@') differ when the log keys or the strings do |
| Keys.DocKeyIsNoPath | libsofadb/database.cpp:224-225 | no document key under a plain revision string is a log key, of whatever database |
| Keys.HexOfInjective | libsofadb/database.cpp:71-77 | the identifier determines the digest |
| StoredText.NormReadsExactly | libsofadb/database.cpp:208-219 | of every content whose numbers print as numbers, the stored text reads back as its norm if and only if no key in it is empty |
| StoredText.ContentReadsExactly | libsofadb/database.cpp:208-219 | of every content, the stored text reads back as that very content if and only if it has the stable shape and its doubles survive, when the C library writes doubles as numbers |
| StoredText.LogReads | libsofadb/database.cpp:187-188 | a stored log reads back as the very same log |
| Database.Database.MakeDocPath | libsofadb/database.cpp:231-243 | the key with the two terminators that `sizeof` counts in |
| Database.Database.NextRevision | libsofadb/database.cpp:62-79 | the loop spells out the digest, and the number is one more than the parent's, modulo 2^32 |
| Database.Database.StoreData | libsofadb/database.cpp:202-229 | the writer's calls produce the document's text, stored under its revision; no other key changes |
| Database.Database.GetRevlog | libsofadb/database.cpp:119-133 | the stored log, a new one if there is none, or an exception if it cannot be read |
| Database.Database.Put | libsofadb/database.cpp:135-195 | new store and outcome are the specified ones on every store, malformed logs included |
| Database.Database.Get | libsofadb/database.cpp:245-310 | found or not, and each requested part, on every store and for every choice of parts, with the log moved away before its top is looked up |
| Effects.HexOfSpells | libsofadb/database.cpp:71-77 | the identifier has two lower-case digits for each byte of the digest, the high one first |
| Effects.RevSpelled | libsofadb/database.cpp:17-33 | the literal string of a revision, a number from 2^31 on as a negative one |
| Effects.BodySpelled | libsofadb/database.cpp:208-219 | the literal text of a stored document |
| Effects.LogIsSpelled | libsofadb/database.h:242-265 | the literal text of a stored log |
| Effects.PutStores | libsofadb/database.cpp:164-229 | a successful call returns the parent's number plus one and the digest of the text that then stands under the literal key of that revision |
| Effects.FirstPutLog | libsofadb/database.cpp:164-190 | the log text after the first call: a missing parent, if any, and the new revision |
| Effects.NextPutLog | libsofadb/database.cpp:147-190 | the log text after a call on any stored log: one more entry, the merged log, or a rejection |
| Effects.PutChanges | libsofadb/database.cpp:135-195 | on any storage, a call that the test lets through stores its document, and with it exactly the log it returns, or nothing more when it stops or throws |
| Effects.PutThrows | libsofadb/database.cpp:140-152 | on every other stored log, and on a text that does not load, a call throws and changes nothing |
| Effects.GetParts | libsofadb/database.cpp:279-309 | what a query under a revision returns from any stored text, the deletion mark included |
| Effects.GetByLog | libsofadb/database.cpp:252-278 | what a query that looks at the log returns from any storage |
| Immutability.ApplyFrame | libsofadb/database.cpp:135-229 | a call changes at most its own log and the one document it stores |
| Immutability.SuccessStores | libsofadb/database.cpp:164-190 | after a successful call its document is stored under the revision returned |
| Immutability.DocReadsExactly | libsofadb/database.cpp:279-309 | exactly when `get` under a revision returns the stored content, as its norm with the parent or as it is |
| Immutability.StoredForever | libsofadb/database.cpp:135-310 | for every content: after a call that assigns a revision, and any run of later calls, merging or not, on any documents, `get` under it returns the content's norm if and only if no key is empty, then with the parent (or throws for a parent whose string cannot be read), and the very content if and only if that is a value that survives its text |
| Immutability.StoredExactly | libsofadb/database.cpp:135-310 | for every content, after every such run: the very content comes back if and only if it has the stable shape and its doubles survive |
| LostContent.NamelessThrows | libsofadb/native_json.cpp:167-219 | the stored text of a map whose only key is empty makes the builder throw |
| LostContent.NamelessIsAccepted | libsofadb/database.cpp:135-195 | a first call with that content succeeds |
| LostContent.NamelessIsLost | libsofadb/database.cpp:135-310 | after a successful call with that content, and any later run, every `get` of content or parent under the revision returned throws |
| History.PutOnLog | libsofadb/database.cpp:147-163 | on a document with a well-formed log a call is rejected exactly when it neither names the top nor merges |
| History.WriteExtends | libsofadb/database.cpp:164-194 | without merging the log grows by the new revision, after a missing parent if the log is new |
| History.WriteMerges | libsofadb/database.cpp:179-188 | with merging the stored log is the merged one |
| History.RunKeepsGood | libsofadb/database.cpp:135-195 | every run, whatever its contents, keeps in every document a log whose top is stored under the revision computed from its content and parent |
| History.GetFindsTop | libsofadb/database.cpp:252-309 | in such a store `get` returns the log, and without a revision whatever it returns under the log's top, for any parts; of the content and the parent that the top is computed from it returns what can be read, exactly |
| History.RunsAlwaysReadable | libsofadb/database.cpp:135-310 | the same of every existing document after every run from an empty store, whatever the contents |
| Isolation.UnderOtherName | libsofadb/database.cpp:231-243 | under two names with one log key, calls do the same and `get` returns the same content and log |
| Isolation.ImproperNameInterferes | libsofadb/database.cpp:231-243 | for every database name that holds the separator, and every identifier: a call on another, properly named database after which `get` finds a log here where there was none |
| Isolation.CallLeavesOthers | libsofadb/database.cpp:231-310 | a call leaves every `get` on a document with another log key as it was, when the revision asked for or found in the log has an isolated string (what follows its last '@', if it has one, is neither empty nor a computed revision) |
| Isolation.RunLeavesOthers | libsofadb/database.cpp:231-310 | so do whole runs of calls on other documents |
| Isolation.GoodRunLeavesOthers | libsofadb/database.cpp:231-310 | in a store that a run has left, this holds of every `get` without a revision, and of every one under an isolated revision string |
| Isolation.IsolatedExactly | libsofadb/database.cpp:224-310 | no call on another document, in any store and under any digest, changes what `get` returns under a revision if and only if the revision's string is isolated |
| Isolation.SeparatorInRevision | libsofadb/database.cpp:224-225 | a revision that reads back from its own string, has '@' in it, and under which `get` on document "a" returns what it returns on document "a@1-x" |
| Linear.NoMergeOnLog | libsofadb/database.cpp:147-188 | what a call that does not merge does to log and outcome: rejected, stopped because the number wrapped around, or the log extended |
| Linear.RunKeepsLinear | libsofadb/database.cpp:147-188 | in every run that never merges into a document its log has no conflicts, consecutive numbers and only a missing first revision, and each stored body holds the string of a real revision that is the one before |
| Linear.RunShowsLine | libsofadb/database.cpp:245-310 | after every such run from an empty store with contents that can be read back (numbers that print as numbers, no empty key), `get` returns that log, and under each available revision it returns the revision before as the parent, or throws where that one has no readable string |
| Linear.ParentsAreConsecutive | libsofadb/database.cpp:147-178 | the parents named by successful calls count up by one, so no two calls succeed on the same parent |
| Linear.RejectedExactlyWhen | libsofadb/database.cpp:152-161 | on a document without a log or with any well-formed one, when a call is rejected, if and only if, and that it then changes no key |
| MergingRuns.MergingCall | libsofadb/database.cpp:179-194 | a merging call on other heads succeeds and joins its revision to them |
| MergingRuns.CallOnTop | libsofadb/database.cpp:170-178 | a call on the top puts its revision in the top's place and keeps the conflicts |
| MergingRuns.RemergeBreaks | libsofadb/conflict.cpp:83-96 | merging the current top succeeds and leaves a log that no well-formed heads describe |
| MergingRuns.CallKeepsHeadsExactly | libsofadb/database.cpp:135-195 | a call keeps its document's heads well formed if and only if it does not merge the current top, and fails an assertion if and only if its number wraps around and it is not rejected |
| MergingRuns.RunKeepsHeads | libsofadb/database.cpp:135-195 | over whole runs on any documents all heads stay well formed if and only if no call merges a current top, and then the run crashes if and only if a call that is not rejected wraps around |
| MergingRuns.RunFromNothingKeepsHeads | libsofadb/database.cpp:135-195 | the same for every run from an empty store |
| Dom.TreePushes | libsofadb/rapidjson/document.h:759-786 | on any stack the events of a tree push exactly its value |
| Dom.AcceptPushes | libsofadb/rapidjson/document.h:488-523 | on any stack the calls of `Accept` push the value with its numbers made anew and its strings shared, or fail the assertion for a null string |
| Dom.ConstructorsTell | libsofadb/rapidjson/document.h:71-107 | every integer constructor keeps its integer and tells which types it fits, but the unsigned one denies from 2^31 on that it fits 64 signed bits |
| Dom.NumbersSent | libsofadb/rapidjson/document.h:516-521 | which of the four integer calls `Accept` makes for every integer, and with which value |
| Dom.EventsStandFor | libsofadb/rapidjson/document.h:759-774 | which value each event makes, integers with the types they fit |
| Dom.PartsInPlace | libsofadb/rapidjson/document.h:776-786 | the value of an object or array has the values of its parts in their places |
| Dom.PairsAt | libsofadb/rapidjson/document.h:776-779 | values at even places become names, those behind them their values |
| Dom.NumberKept | libsofadb/rapidjson/document.h:71-107 | a number made anew has the same bits and value, and the same flags exactly when it is not of the kind that loses one |
| Dom.AcceptRebuilds | libsofadb/rapidjson/document.h:488-523 | for a value from any constructors: its calls push it with strings shared, push exactly it, or fail an assertion, each if and only if a condition on what it holds |
| Dom.WideUintLosesFlag | libsofadb/rapidjson/document.h:85-96 | 3000000000 as an `int64_t` comes back as an unsigned number that denies fitting 64 signed bits |
| Dom.TypedNumberIsLost | libsofadb/rapidjson/document.h:57-65 | the zero that the constructor from a type makes comes back as null |
| Dom.TypedStringFails | libsofadb/rapidjson/document.h:112-118 | the string that the constructor from a type makes, as a value or as a name, stops at the assertion for null |
| Document.TextSafe | libsofadb/rapidjson/document.h:776-786 | on every text, accepted or not, each handler finds on the stack what it pops |
| Document.ParsedClones | libsofadb/rapidjson/document.h:701-716 | a successful parse leaves exactly one value, a container, whose own calls push the same value, strings shared, on any stack |
| Document.Document.EndObject | libsofadb/rapidjson/document.h:776-779 | the topmost values, two by two, become the members of the value below them |
| Document.Document.EndArray | libsofadb/rapidjson/document.h:783-786 | the topmost values become the elements of the value below them |
| Document.Document.ParseStream | libsofadb/rapidjson/document.h:701-716 | the root is the one value the parse left, or null with the reader's error and offset; the stack is empty again |
| PoolSpec.MallocKeeps | libsofadb/rapidjson/rapidjson.h:230-237 | the new block lies in the used part of a chunk and shares no byte with any live block |
| PoolSpec.LastIsInHead | libsofadb/rapidjson/rapidjson.h:249-255 | the address test for the last allocation is right: only a block of the head chunk can pass it |
| PoolSpec.ReallocKeeps | libsofadb/rapidjson/rapidjson.h:240-261 | shrunk, grown in place or moved, the block keeps the invariant, and a move copies between blocks that do not overlap |
| PoolSpec.MallocCosts | libsofadb/rapidjson/rapidjson.h:230-237 | an allocation costs exactly its size, and a new chunk of the configured capacity, or of the size if that is more, only when the head has not that much left |
| PoolSpec.ReallocCosts | libsofadb/rapidjson/rapidjson.h:240-261 | what resizing costs, and exactly when the block stays where it is |
| PoolSpec.StepIsolates | libsofadb/rapidjson/rapidjson.h:230-261 | seen block by block, one request changes only the requested block, and resizing keeps the common prefix |
| PoolSpec.RunIsolates | libsofadb/rapidjson/rapidjson.h:181-261 | over any run the invariant holds and a block its client leaves alone keeps every byte |
| PoolSpec.NeverOverfull | libsofadb/rapidjson/rapidjson.h:212-227 | the sizes add up to no more than the capacities |
| Pool.MemoryPoolAllocator.FromBuffer | libsofadb/rapidjson/rapidjson.h:181-190 | the user's buffer, header included, is exactly the first chunk |
| Pool.MemoryPoolAllocator.Malloc | libsofadb/rapidjson/rapidjson.h:230-237 | chunks and address as specified, invariant kept |
| Pool.MemoryPoolAllocator.Realloc | libsofadb/rapidjson/rapidjson.h:240-261 | chunks, address and memory as specified for a live block, a new block for a null pointer, invariant kept |
| Pool.MemoryPoolAllocator.Size | libsofadb/rapidjson/rapidjson.h:222-227 | the loop adds up the used sizes, which never exceed the capacities |
| Pool.MemoryPoolAllocator.Capacity | libsofadb/rapidjson/rapidjson.h:212-217 | the loop adds up the capacities |
| Pool.MemoryPoolAllocator.Clear | libsofadb/rapidjson/rapidjson.h:201-207 | frees every chunk but the user's buffer, each once, newest first |
| Stack.Stack.Push | libsofadb/rapidjson/internal/stack.h:32-48 | room at the end, the bytes below and all other blocks untouched, the capacity as specified |
| Stack.Stack.Expand | libsofadb/rapidjson/internal/stack.h:34-44 | growth keeps the contents and the bounds on capacity and on bytes copied |
| Stack.Stack.PushBytes | libsofadb/rapidjson/internal/stack.h:32-48 | the contents are the old ones followed by the pushed bytes |
| Stack.Stack.Pop | libsofadb/rapidjson/internal/stack.h:51-55 | the contents lose their last bytes, which stand at the returned address |
| Stack.Stack.Top | libsofadb/rapidjson/internal/stack.h:58-61 | the topmost bytes stand at the returned address |
| Stack.Stack.Clear | libsofadb/rapidjson/internal/stack.h:29-29 | empty, with its capacity kept |
| FileStreams.FileReadStream.Peek | libsofadb/rapidjson/filereadstream.h:22-22 | the next character of the file, '\0' after its end |
| FileStreams.FileReadStream.Take | libsofadb/rapidjson/filereadstream.h:23-38 | delivers the file's characters one by one, then '\0' forever, across any number of refills |
| FileStreams.FileReadStream.Tell | libsofadb/rapidjson/filereadstream.h:24-24 | the number of characters taken, capped at the file's length |
| FileStreams.FileReadStream.FillBuffer | libsofadb/rapidjson/filereadstream.h:40-53 | the buffer is the next window of the file, with a terminator exactly when it falls short |
| FileStreams.FileWriteStream.Put | libsofadb/rapidjson/filewritestream.h:21-26 | flushes a full buffer first, then appends |
| FileStreams.FileWriteStream.PutN | libsofadb/rapidjson/filewritestream.h:28-42 | ends, and leaves exactly the state that as many single puts leave |
| FileStreams.FileWriteStream.Flush | libsofadb/rapidjson/filewritestream.h:44-49 | everything pending reaches the file |
| FileStreams.PutManyFlushes | libsofadb/rapidjson/filewritestream.h:30-36 | filling and flushing the buffer and going on with the rest is what single puts do |
| FileStreams.FlushesWhenFull | libsofadb/rapidjson/filewritestream.h:21-42 | without explicit flushes only whole buffers reach the file, and no sooner than the next character needs the room |
| FileStreams.NothingIsLost | libsofadb/rapidjson/filewritestream.h:21-49 | after any calls, flushed and pending text are together everything put, in order, and the buffer is not overfull |

## Left out

- FixedPoint.RoundTripExactly: takes the text of a double and its reading from the C library as given; rounding, infinities and NaN are not modelled.
- JsonOrder.StrictTotalOrder: doubles are finite reals, so NaN, which no order survives, is outside.
- Errors.StringFails: the place in the text is the first item of an array at the root; the lemmas about the parts of the reader hold at any depth.
- Exactness.AcceptsExactly: is about the reader as the program compiles it; for the other variant of numbers see `ReaderSound.ParseIsSound` and `NumberExact`.
- Loading.NumberLoads: says nothing of lexemes without a point or an exponent that are no canonical integers, such as "007" or "1-2".
- NumberExact.NumericIsExact: the double path, its bound included, is exact over reals; the rounding of `d * 10` and of the power table is not modelled.
- JsonReader.Reader.Parse: the events are recorded and handed to a handler afterwards, because a handler never answers the reader.
- JsonLoader.ReadHandler.Advance: the pointers in `values_` are modelled as contents with their place in the parent, written back when the container closes.
- Conflict.Resolver.Merge: the log is worked on by value; the source uses references into the log after pushing onto it, and leaves it half merged when an assertion fails.
- Convergence.MergeNeedsOtherTop: says what merging the current top again does to the invariant; no idempotence is claimed for it.
- Linear.RunShowsLine: is about contents that can be read back; under any other `get` may throw before it sees the parent (`LostContent.NamelessIsLost`). The line itself, `Linear.RunKeepsLinear`, needs no such premise.
- Immutability.StoredForever: says nothing of the norm of a content with big numbers that are no number lexemes, which the reader never makes. It needs that no later text of the run collides with the stored one under MD5.
- Database.Database.Get: reading the last item of an empty list is undefined in C++ and is an outcome of its own; what then happens is not modelled.
- The database's calls run one after another; the source takes no lock.
- LoadsEqual.LoadsEqualExactly: the condition is exact for big numbers made of number characters, the only ones the reader makes; other digit strings can load to equal values by accident.
- History.PutOnLog: logs are values of the JSON type; updating them through `revlog_wrapper`'s reference is modelled as replacing the value.
- Database.Database.Put: on a stored log that is an empty list, which no call writes, the undefined read of its last item is taken for an exception.
- Pool.MemoryPoolAllocator.Malloc: `size_t` is unbounded and `malloc` always answers; header bytes are not part of the modelled memory.
- Stack.Stack.Push: the stack owns one block of a pool; the variant on the C allocator is not modelled.
- An empty big number, which the source builds but cannot compare, is not a value of the model.
- `json_value`'s storage: `assign`, `clear`, `as_*` and `set_*` on the union are plain values here.
- `json_from_stream` and the stream over `std::istream`, and the near-text in parse error messages.
- In-place parsing, encoding validation and the SIMD blank skipping, which the program does not turn on.
- `GenericValue`'s member lookup and removal, reserve and growth of arrays and objects, and the memory of copied strings.
- `encodings.h` and `encodedstream.h`, which reader and writer do not include.
- `sanitize_and_get_reserved_words` and the database's own metadata.
- LevelDB, OpenSSL, sockets, threads, logging, the server, the client and the tools.
