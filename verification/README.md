# Genji in Dafny

A model of the algorithms at the core of Genji, an embedded document database, with
proofs of what they promise. To check the whole project:

    dafny verify dfyconfig.toml

| module | what it models |
|---|---|
| `Like` | the LIKE matcher, a loop that remembers only the last `%` |
| `BinarySort`, `ValueEncoding` | encodings whose byte order is the order of the values |
| `Values`, `Compare`, `Transitivity`, `Float`, `IntegerArithmetic` | values, their comparison and when it is transitive, doubles as bit patterns, int64 arithmetic |
| `Varints`, `CustomCodec` | the document codec: headers, offsets, body, random access |
| `PrecedenceParser` | the operator precedence parser and its in-place insertion |
| `Expressions`, `Streams` | evaluation, constant folding, filters, AND splitting on the linked stream |
| `Indexing`, `Tables`, `IndexScan` | indexes, the tables they mirror, the index scan in place of a filter |
| `MemoryEngine`, `BatchedIterator` | undo list, tombstones, commit, the iterator that reads in batches |
| `CatalogCache`, `Sequence`, `Constraints` | catalog with rollback hooks, leased sequences, constraint inference |

Strings are byte strings, doubles are 64-bit patterns (section 3.4 of IEEE 754-2008),
int64 is a subset of the integers with its wrap-around written out, and a B-tree is its
entries in key order. Code that changes objects in place is a class here; each of its
methods is proved against a function of the old state, and the theorems are about that
function.

## What turned out not to hold

The code is modelled as it is. Where a promise fails, a lemma gives the input, and where
it could be had, the exact condition.

- Sequences: the stored lease counts values, not steps. When a value of the first lease
  can pass the value that follows the lease, a sequence goes back after a crash; no other
  sequence does that (`Sequence.SafeIff`). With room for a whole lease these are the
  sequences with a cache above 2 and a step other than 1 or -1 (`Sequence.CoversIff`).
  Going back need not repeat a value (`Sequence.BackWithoutRepeating`). One is handed out
  twice exactly when a value of the first lease, within the bounds, is a multiple of
  cache - 1 + |step| away from the start (`Sequence.RepeatsIff`).
- A cycling sequence comes around only where the step does not leave int64
  (`Sequence.CyclesIff`). With the default bound, the largest int64, it never does: the
  wrapped candidate is below the minimum and is taken for the end of a descending sequence
  (`Sequence.StuckAtTheTop`).
- The memory engine replays its undo list oldest first. That restores the state exactly
  when, for each store and each item, the first and the last entry put back the same
  thing (`MemoryEngine.OldestFirstRestoresIff`).
- Subtracting the least int64 gives an integer exactly when it should not
  (`IntegerArithmetic.SubExactIff`).
- AND splitting drops a conjunction that is the last operator, cuts the stream when it is
  the first, and stops after one split (`Streams.SplitANDConditionRule`); dropping a last
  filter goes unnoticed exactly when it would have kept everything
  (`Streams.DroppedUnnoticedIff`, `Streams.CutUnnoticedIff`). A stream that begins with a
  filter cannot be iterated in any case, since a filter reads from the operator before it.
- Folding panics on a BETWEEN with constant bounds exactly when its subject cannot be
  evaluated without a document, as a path cannot (`Expressions.BetweenPanics`), and
  answers it for good otherwise. That is right in every environment exactly when the
  evaluation of the subject comes to no function, cast or other part that folding does not
  look into (`Expressions.BetweenFoldsRightIff`): `pk()` is NULL without a document, so
  `pk() BETWEEN 1 AND 10` becomes false, also for a document with key 5
  (`Expressions.PkBetweenFoldsToFalse`). An AND or OR with an empty array as a literal
  value would panic too, but the parser turns `[]` into a list of expressions, which
  folding leaves alone.
- Documents with fields are equal when one is, in name order, a leading part of the other
  (`Transitivity.LeadingPartEqual`). So comparisons fail to chain, exactly through the
  values that hold a document with fields or, where integers and doubles are mixed, a
  number whose double stands for two integers (`Transitivity.ChainsIff`,
  `Transitivity.EqualityIff`), and inside arrays `<` runs in circles around them
  (`Transitivity.CycleIff`). Strict `<` still chains through a document whose own fields
  are free of these (`Transitivity.LessThrough`).
- `-0.0` sorts before every other double and comes back as a NaN
  (`BinarySort.NegativeZeroSortsFirst`, `BinarySort.NegativeZeroComesBackAsNaN`). So on a
  DOUBLE index `a < -1.0` finds a stored `-0.0` and `a >= 0.0` misses it
  (`IndexScan.NegativeZeroMisread`). A range is right for every stored double exactly when
  its literal is above zero, or is 0.0 with `>` or `<=`, or is below zero with `=`
  (`IndexScan.DoubleRightIff`); on doubles other than `-0.0` it is right for every literal
  but `-0.0` (`IndexScan.NeverMisread`).
- On an INTEGER index a double literal becomes one integer, while the filter makes doubles
  of the integers: `a = 9007199254740992.0` misses a stored 2^53 + 1
  (`IndexScan.LargeIntegerMissed`). A literal above int64 also turns every range but
  equality around, on machines where the conversion gives the least int64.
  `IndexScan.IntegerRightIff` has the literals that are right for every int64, by operator:
  with `=`, those that at most one integer becomes; with the others, those of them that
  are not above int64, and also -2^53 with `>` and `<=`, 2^53 and -2^63 with `<` and `>=`.
- Infer accepts several primary keys when the path of each is mentioned, as a prefix of
  another, before the keys given earlier, and only then (`Constraints.InferIff`,
  `Constraints.TwoKeysAccepted`).
- `||` is printed as nothing and IS as IN, so those trees are not parsed back
  (`PrecedenceParser.ReparseIff`).

## Model

| member | source | states |
|---|---|---|
| `Like.MatchLike` | internal/expr/glob/like.go:63-187 | for every pattern and text, and every folding relation, the loop ends and answers whether the declarative LIKE relation holds |
| `Like.SkipWildcards` | internal/expr/glob/like.go:84-110 | wildcards after a `%` are consumed without changing what matches, or the text is too short for any match |
| `Like.MatchesEmpty` | internal/expr/glob/like.go:171-187 | the rest of the pattern is accepted exactly when it matches the empty text, a lone trailing escape included |
| `Like.LastRunSuffices` | internal/expr/glob/like.go:112-168 | any match from an earlier `%` is also a match from the latest one, so no other has to be retried |
| `Like.PlainPatterns` | internal/expr/glob/like.go:63-187 | a text without special characters, as a pattern, matches itself up to folding; followed by a percent sign what begins with it, and between two what contains it |
| `Like.EscapedPattern` | internal/expr/glob/like.go:63-187 | a text with every character escaped, special ones too, matches itself up to folding |
| `Like.OnesPattern` | internal/expr/glob/like.go:63-187 | n underscores match the texts of n characters |
| `BinarySort.Int64Order` | internal/binarysort/binarysort.go:53-58 | byte order of encoded integers is their numeric order, both ways |
| `BinarySort.Int64RoundTrip` | internal/binarysort/binarysort.go:53-65 | decoding gives the integer back, whatever follows it |
| `BinarySort.Float64Order` | internal/binarysort/binarysort.go:68-76 | byte order of encoded doubles is their numeric order, NaN and -0.0 apart |
| `BinarySort.NegativeZeroSortsFirst` | internal/binarysort/binarysort.go:68-76 | -0.0 is encoded below every other number |
| `BinarySort.NegativeZeroComesBackAsNaN` | internal/binarysort/binarysort.go:68-91 | -0.0 is decoded as a NaN |
| `BinarySort.Float64RoundTripIff` | internal/binarysort/binarysort.go:68-91 | a double is decoded back exactly when it is neither -0.0 nor a positive NaN |
| `BinarySort.Float64Injective` | internal/binarysort/binarysort.go:68-76 | different doubles other than NaN have different encodings |
| `BinarySort.Base64Order` | internal/binarysort/binarysort.go:16-18 | unpadded base64 with the reordered alphabet (section 4 of RFC 4648) keeps lexicographic order both ways, prefixes included |
| `BinarySort.Base64RoundTrip` | internal/binarysort/binarysort.go:95-114 | decoding gives the bytes back |
| `ValueEncoding.EncodingOrder` | document/value_encoding.go:46-103 | on nested values of null, bool, text, blob, array and one numeric type, byte order is type-then-value order, and equal bytes mean equal values |
| `ValueEncoding.EncodingFollowed` | document/value_encoding.go:10-19 | the same behind any two separators or end markers, which is what makes it hold inside arrays |
| `ValueEncoding.OrderZero` | document/compare.go:70-106 | on those values, equal in the order means equal |
| `ValueEncoding.LongerDocumentFirst` | document/value_encoding.go:106-145 | a document with more fields sorts before the one it extends |
| `ValueEncoding.EncodingInjective` | document/value_encoding.go:46-145 | values without NaN, nested documents and all numbers included, have equal encodings only when they are equal |
| `ValueEncoding.SameBytes` | document/value_encoding.go:10-19 | the same behind any separators or end markers: the bytes tell where a value ends |
| `ValueEncoding.ValueEncoder.AppendValue` | document/value_encoding.go:46-84 | the encoder appends exactly the encoding of the value |
| `ValueEncoding.ValueEncoder.AppendArray` | document/value_encoding.go:87-103 | the loop appends the elements, separators and end marker of the array |
| `ValueEncoding.ValueEncoder.AppendDocument` | document/value_encoding.go:106-145 | the loop appends names and values of the fields with their markers |
| `Compare.CompareValues` | document/compare.go:70-106 | on NaN-free values the dispatch answers what the operator reads from one three-way order |
| `Compare.CompareArrays` | document/compare.go:212-273 | the loop over both arrays answers the reading of the array order |
| `Compare.CompareDocuments` | document/compare.go:275-390 | empty documents first, then the field loop: the reading of the document order |
| `Compare.CompareFields` | document/compare.go:315-390 | the loop over sorted field names answers the reading of the field order |
| `Compare.FiveReadings` | document/compare.go:36-68 | exactly one of <, =, > on comparable values, none on others; >= and <= are unions; swapping operands mirrors the operator |
| `Compare.OrderAntisymmetric` | document/compare.go:70-390 | the order of all nested values is antisymmetric |
| `Compare.FieldNamesSorted` | document/compare.go:275-283 | the names compared are exactly those of the document, sorted |
| `Compare.TypesInOrder` | document/value.go:35-55 | values of different types come in the order NULL, boolean, number, text, blob, array, document |
| `Transitivity.ChainsIff` | document/compare.go:70-390 | every <=, < and = comparison chains through a value, whatever it is compared with, exactly when the value has no document with fields and, where integers and doubles are mixed, no number whose double stands for two integers |
| `Transitivity.EqualityIff` | document/compare.go:70-390 | equality chains through a value exactly when it has no document with fields and, where numbers are mixed, no double that stands for two integers |
| `Transitivity.Through` | document/compare.go:70-390 | the comparisons of three nested values chain also through documents with fields, when all documents of the three have the same number of fields |
| `Transitivity.LessThrough` | document/compare.go:275-390 | < alone chains also through a document with fields, when comparisons chain through the values of its fields, whatever it is compared with |
| `Transitivity.CycleIff` | document/compare.go:212-390 | an array of a value and an empty text lies on a circle of < exactly when comparisons do not chain through the value |
| `Transitivity.LeadingPartEqual` | document/compare.go:315-390 | documents with fields are equal exactly when the fields both have, in name order, have equal names and values |
| `Transitivity.DocumentLessIff` | document/compare.go:275-390 | a document is less than another exactly when it alone is empty or, in the first fields in name order that are not equal, its name or, under one name, its value comes first |
| `Transitivity.ExtensionsDiffer` | document/compare.go:315-390 | every document with fields equals two documents of which one is less than the other |
| `Float.AmbiguousShared` | document/compare.go:187-210 | every double from 2^53 to 2^63 in absolute value, with an even significand below 2^54, equals two different integers |
| `Float.SharedIsAmbiguous` | document/compare.go:187-210 | no other double does |
| `IntegerArithmetic.AddMulExact` | document/value.go:402-430 | addition and multiplication give the exact integer whenever it fits in int64, and a double otherwise |
| `IntegerArithmetic.SubExactIff` | document/value.go:402-415 | subtraction too, unless the right operand is the least int64, and then an integer comes out exactly when the true result does not fit |
| `IntegerArithmetic.DivModTogether` | document/value.go:431-442 | over zero both are NULL; else quotient and remainder fit together modulo 2^64, the remainder is small and has the sign of the dividend, and the quotient is the true one but for the least int64 over -1 |
| `CustomCodec.EncodeDocument` | document/encoding/custom/codec.go:60-108 | the loops that collect headers, offsets and body write the encoding of the document |
| `CustomCodec.EncodeArray` | document/encoding/custom/codec.go:267-313 | the same for arrays, whose field names are their indexes |
| `CustomCodec.Encode` | document/encoding/custom/codec.go:117-138 | the switch over types writes the encoding of the value |
| `CustomCodec.WriteHeader` | document/encoding/custom/format.go:85-113 | the header is its size, the field count and the field headers |
| `CustomCodec.ReadHeaderRoundTrip` | document/encoding/custom/format.go:134-224 | a field header is read back with its length, whatever follows |
| `CustomCodec.FormatRoundTrip` | document/encoding/custom/format.go:20-113 | header and body are read back into the entries they were written from |
| `CustomCodec.DecodeEncode` | document/encoding/custom/codec.go:322-352 | every nested value is decoded back, up to the doubles that cannot be stored |
| `CustomCodec.RoundTripIff` | document/encoding/custom/codec.go:60-138 | a value is decoded back unchanged exactly when all its doubles can be stored |
| `CustomCodec.DecodeValueFromDocument` | document/encoding/custom/codec.go:234-264 | on any bytes the scan gives the field at the first readable header of that name, or an error at an unreadable one before it; on well-formed bytes that is what a search of all decoded entries finds |
| `CustomCodec.FieldAccess` | document/encoding/custom/codec.go:234-264 | random access by name over the bytes is the first field of that name in the document, or nothing |
| `CustomCodec.DecodeValueAtIndex` | document/encoding/custom/codec.go:220-227 | access by index looks for the field named by the index |
| `CustomCodec.IndexAccess` | document/encoding/custom/codec.go:220-227 | random access by index over the bytes is that element of the array, or nothing |
| `PrecedenceParser.ParseExpr` | internal/sql/parser/expr.go:34-77 | the loop that inserts along the right spine, in place, builds the tree of the parsing function and leaves the same tokens |
| `PrecedenceParser.FindPlace` | internal/sql/parser/expr.go:63-75 | the descent stops at the first operator on the spine that binds at least as tightly |
| `PrecedenceParser.InsertInPlace` | internal/sql/parser/expr.go:63-75 | relinking one node of the spine is insertion into the tree |
| `PrecedenceParser.SetRightHandExpr` | internal/expr/operator.go:33-35 | replacing a right operand cuts the spine there and extends it by the new node |
| `PrecedenceParser.ParseSound` | internal/sql/parser/expr.go:34-77 | the tree reads in order as the consumed tokens, left children bind at least and right children more tightly, and parsing stops only at what it does not accept |
| `PrecedenceParser.TreeUnique` | internal/sql/scanner/token.go:322-342 | there is only one such tree for a sequence of tokens |
| `PrecedenceParser.ParseReading` | internal/sql/parser/expr.go:34-77 | every precedence tree is parsed back from its own tokens |
| `PrecedenceParser.TwoOperators` | internal/sql/scanner/token.go:322-342 | with the operators listed from loosest to tightest, `x p y q z` is parsed as x p (y q z) exactly when q is on a later level than p, and as (x p y) q z otherwise |
| `PrecedenceParser.StopsBelow` | internal/sql/parser/expr.go:79-115 | asked for a level at least, the parser stops at an operator of an earlier level or one it does not know, and at no other |
| `PrecedenceParser.ParseFailsIff` | internal/sql/parser/expr.go:34-77 | parsing fails exactly when, after operands and accepted operators in turn, an operand is due and is not there |
| `PrecedenceParser.ReparseIff` | internal/expr/operator.go:76-78 | the printed form of a parsed tree is parsed back to it exactly when it mentions neither concatenation nor IS |
| `Expressions.FoldingPreserves` | internal/planner/optimizer.go:152-230 | folding keeps the value or error of every expression in every environment in which the functions and casts that subjects of BETWEEN come to answer as they do without one |
| `Expressions.PanicsIff` | internal/planner/optimizer.go:152-230 | folding panics exactly when some operator over constants fails on its own |
| `Expressions.ConstantFolds` | internal/planner/optimizer.go:152-230 | an expression becomes a literal exactly when it is built of constants, and that literal is its value |
| `Expressions.FoldsAll` | internal/planner/optimizer.go:152-230 | what folding leaves has no operator with two literal operands and no document of literals |
| `Expressions.FoldedStays` | internal/planner/optimizer.go:152-230 | such an expression is left as it is, so folding is idempotent |
| `Expressions.EmptyStable` | internal/planner/optimizer.go:215-226 | what evaluates without a document evaluates to the same in every environment in which the functions and casts it comes to answer as they do without one |
| `Expressions.TameNeverPanics` | internal/planner/optimizer.go:152-230 | without BETWEEN and empty array literals the panic is unreachable and evaluation is the same in every environment |
| `Expressions.BetweenPanics` | internal/planner/optimizer.go:215-226 | a BETWEEN with constant bounds panics exactly when its subject cannot be evaluated without a document, and a path cannot |
| `Expressions.BetweenIff` | internal/expr/comparison.go:100-123 | a value is between two bounds exactly when it is comparable with both, not below the first and not above the second, and neither is NULL |
| `Expressions.BetweenFoldsRightIff` | internal/expr/comparison.go:100-123 | otherwise folding is right in every environment exactly when the evaluation of the subject comes to no function, cast or other part that folding does not look into |
| `Expressions.PkBetweenFoldsToFalse` | internal/expr/function.go:107-120 | pk() BETWEEN 1 AND 10 is folded to false although it is true of a document with key 5 |
| `Expressions.ReachedFails` | internal/expr/comparison.go:100-123 | a subject that comes to such a part is not answered where such parts fail, whatever it was without a document |
| `Expressions.UnreachedSteady` | internal/planner/optimizer.go:215-226 | a subject that comes to none of them depends on no environment |
| `Expressions.AndOrTruth` | internal/expr/logical.go:22-83 | when AND and OR answer true and when false, from the truths of their operands, the right one not asked when the left one decides |
| `Expressions.TruthIff` | document/value.go:162-214 | false are NULL and what equals the zero of its type; only an empty array has no truth |
| `Expressions.ListMeans` | internal/expr/literal.go:75-86 | a list is the array of the values of its parts in order, or the first error among them |
| `Expressions.FirstErrorFirst` | internal/expr/operator.go:41-57 | arithmetic, comparisons and BETWEEN fail with the error of the leftmost operand that fails, and only then |
| `Streams.FilterPicks` | internal/stream/operator.go:124-138 | a filter hands on, in order, exactly the environments before the first error of its expression that the expression keeps, and then that error, or else the error it was given |
| `Streams.FilterAnd` | internal/stream/operator.go:124-138 | filtering by a conjunction is filtering twice, emitted documents and first error alike |
| `Streams.JudgeAnd` | internal/expr/logical.go:22-42 | a conjunction keeps, drops or fails as its operands do in turn |
| `Streams.JudgeOr` | internal/expr/logical.go:56-83 | a disjunction keeps, drops or fails as its operands do in turn |
| `Streams.SplitAll` | internal/planner/optimizer.go:103-113 | none of the conjuncts is itself a conjunction |
| `Streams.SplitRuns` | internal/planner/optimizer.go:103-113 | the filters of all conjuncts in order do what the one filter does |
| `Streams.ReplacedRuns` | internal/planner/optimizer.go:68-100 | with the conjunction replaced by its conjuncts anywhere in a pipeline, output and first error stay the same for every input |
| `Streams.SplitANDConditionRule` | internal/planner/optimizer.go:68-100 | the chain stays well formed and the last conjunction is replaced by its conjuncts when it has operators on both sides, is dropped when it is last, and cuts the stream when it is first |
| `Streams.DroppedUnnoticedIff` | internal/planner/optimizer.go:82-91 | a dropped last filter changes nothing exactly when it would have kept all that reached it |
| `Streams.CutUnnoticedIff` | internal/planner/optimizer.go:82-91 | a first filter cut off is not noticed by any pipeline behind it exactly when it would have kept its whole input |
| `Streams.AddFilters` | internal/planner/optimizer.go:82-91 | the new filters form a chain behind the previous operator, or one of their own when there is none |
| `Streams.Stream.Remove` | internal/stream/stream.go:37-56 | the chain loses that operator only, and the operator loses its links |
| `Streams.Stream.First` | internal/stream/stream.go:58-66 | the loop ends at the first operator of the chain |
| `Streams.InsertAfter` | internal/stream/stream.go:100-114 | the chain gains the operator behind the given one; without one nothing is linked |
| `Streams.InsertBefore` | internal/stream/stream.go:85-98 | the chain gains the operator before the given one, which keeps what it had before it when put first; without one nothing is linked |
| `Indexing.TupleInjective` | internal/database/index.go:398-428 | different NaN-free tuples have different encodings |
| `Indexing.Index.Exists` | internal/database/index.go:184-206 | the walk from the encoded tuple on finds an entry exactly when the tuple is in the index, and gives the key of its document; before the first write nothing is looked at |
| `Indexing.Index.FindPrefix` | internal/database/index.go:209-226 | an entry that begins with the bytes is found exactly when there is one |
| `Indexing.Index.Set` | internal/database/index.go:130-182 | refuses for the stated reasons, a unique index exactly when it has the tuple, and otherwise adds that one entry |
| `Indexing.Index.Delete` | internal/database/index.go:229-264 | removes the first entry from the encoded values on, all or some of the columns, that ends with the key, or reports that there is none |
| `Indexing.FoundIsOwn` | internal/database/index.go:229-264 | that entry is the one of the document when no other entry ends with its key |
| `Tables.Table.Insert` | internal/database/table.go:55-159 | succeeds exactly when the key is new and every index accepts the document; then each index again holds one entry per document and nothing else; refusals are told apart: read-only, duplicate key, duplicate tuple with a document that has it, empty key; a refused document of the right types leaves nothing behind, another one may leave itself and the entries of the first indexes |
| `Tables.Table.Delete` | internal/database/table.go:183-220 | succeeds exactly when the document is there, and the indexes mirror the rest |
| `Tables.Table.Replace` | internal/database/table.go:225-305 | succeeds exactly when the document is there and every index accepts the new one among the others, and the indexes mirror the result; read-only and missing documents are refused as such; refused by an index, for a document of the right types as a duplicate, it leaves the new document with entries in the indexes before that one only |
| `Tables.Table.CheckUnique` | internal/database/table.go:90-119 | the look ahead refuses only what an index would refuse, and what passes it can fail by its types only |
| `Tables.PresentIffTaken` | internal/database/index.go:209-226 | in an index that mirrors the table, a tuple is present exactly when some document has it |
| `Tables.ValueAtAppend` | document/document.go:516-560 | the value at a path is found part by part: at p followed by q it is the value at q of the value at p |
| `Tables.ValueAtField` | document/document.go:516-535 | a field name gives the value of the first field of that name, or nothing |
| `Tables.ValueAtIndex` | document/document.go:537-560 | an index gives the element of an array at that place, or nothing; a field name gives nothing outside documents |
| `Tables.NewIsNewTuple` | internal/database/index.go:163-172 | without NaN, a tuple is new to the index exactly when no document has those values |
| `Tables.ImageSize` | internal/database/table.go:135-152 | a mirroring index has as many entries as there are documents |
| `IndexScan.IndexScanInstead` | internal/stream/scan.go:322-420 | on a table with its indexes, the scan yields each document at most once, and those of the full scan with the filter exactly when no document is misread |
| `IndexScan.ScanIsFilteredScan` | internal/planner/optimizer.go:712-805 | for `path op literal` on an INTEGER, DOUBLE or BOOL column, the planned scan and the filtered full scan yield the same documents as multisets exactly when no document is misread |
| `IndexScan.FoundIffKept` | internal/stream/scan.go:362-417 | a document is found exactly when the filter keeps it, or, if it is misread, exactly when the filter does not |
| `IndexScan.AgreesIff` | internal/stream/range.go:602-638 | for every type of literal and every value of the column, the encoded range and the comparison with the literal agree exactly when the value is not misread |
| `IndexScan.NeverMisread` | internal/stream/range.go:543-638 | integers of up to 53 bits are misread by no literal within or below int64, and doubles other than -0.0 by no literal other than -0.0 |
| `IndexScan.BetweenAgrees` | internal/stream/range.go:552-585 | a bound that is not whole, rounded up with the exclusive flag set anew, selects the same of all int64, and none for equality |
| `IndexScan.WholeAgreesIff` | internal/stream/range.go:552-556 | a whole double bound becomes an integer bound that selects the same integers, but for those that round to it from the side the operator looks at |
| `IndexScan.IntegerAgreesIff` | internal/stream/range.go:552-585 | on an INTEGER column, range and filter agree on an int64 exactly when it does not round to the literal from the side the operator looks at; above int64, where conversions give the least int64, the ranges are turned around |
| `IndexScan.IntegerRightIff` | internal/stream/range.go:552-585 | where conversions out of range give the least int64, the double literals that are right for every int64, by operator: a bound on the literal and whether two integers become it |
| `IndexScan.LargeIntegerMissed` | internal/stream/range.go:552-556 | equality with the double 2^53 misses a stored 2^53 + 1 |
| `IndexScan.DoubleAgreesIff` | internal/stream/range.go:543-638 | on a DOUBLE column, range and filter agree unless one of value and literal is -0.0 and the other, by sign and operator, lies on the wrong side of it |
| `IndexScan.DoubleRightIff` | internal/stream/range.go:543-638 | the range is right for every double but NaN exactly when the literal is above zero, is 0.0 with > or <=, or is below zero with = |
| `IndexScan.NegativeZeroMisread` | internal/stream/range.go:602-638 | a < -1.0 finds a stored -0.0 and a >= 0.0 misses it |
| `IndexScan.EncodedIndexRange.Convert` | internal/stream/range.go:543-600 | the bound and the exclusive flag are those of the conversion function; it succeeds exactly on the type of the column |
| `IndexScan.EncodedIndexRange.Encode` | internal/stream/range.go:412-473 | the encoded bounds are those of the plan, or nothing can be in the range |
| `IndexScan.Walk` | internal/stream/scan.go:362-417 | seeking the lower bound and stopping early reads exactly the entries in the range, in index order |
| `IndexScan.SelectInOrder` | internal/stream/scan.go:362-417 | those are the documents of the entries in the range, each entry once, by ascending place in the index |
| `IndexScan.PastTheEnd` | internal/stream/scan.go:385-400 | past a value above the upper bound nothing is in the range |
| `IndexScan.BeforeTheStart` | internal/database/index.go:449-513 | before the seek position nothing is in the range |
| `IndexScan.Scan` | internal/stream/scan.go:322-420 | the scan yields the entries in the planned range, or nothing without a plan |
| `Float.CastBackIffWhole` | internal/stream/range.go:553-556 | `float64(int64(f)) == f` holds exactly of whole numbers |
| `Float.AnyBetweenOrder` | internal/stream/range.go:570-584 | every int64 is below a double that is not whole exactly when it is below its rounding up, and above it otherwise |
| `Float.AnyWholeOrder` | internal/stream/range.go:553-556 | every int64 compares with a whole double as with that integer, or becomes it |
| `Float.AmbiguousNext` | document/compare.go:187-210 | the integers next to a double that stands for two become it too, but for those between -2^53 and 2^53 |
| `MemoryEngine.NewestFirstRestores` | engine/memoryengine/engine.go:66-90 | undoing newest first restores the state at Begin after any operations |
| `MemoryEngine.OldestFirstRestoresIff` | engine/memoryengine/engine.go:70-90 | the oldest-first replay, as written, restores it exactly when the undo list is consistent |
| `MemoryEngine.OrdersAgree` | engine/memoryengine/engine.go:70-90 | both orders agree whenever no key or store is changed twice |
| `MemoryEngine.OverwritingTwiceLosesTheValue` | engine/memoryengine/store.go:65-82 | two overwrites of one key roll back to the value in between |
| `MemoryEngine.DeletingAndPuttingBackLosesTheItem` | engine/memoryengine/store.go:65-82 | a key deleted and put again rolls back to a tombstone |
| `MemoryEngine.RecreatingLosesTheStore` | engine/memoryengine/engine.go:135-185 | a store dropped and created again is gone after the rollback |
| `MemoryEngine.CommitIsPlain` | engine/memoryengine/engine.go:96-118 | commit leaves exactly the pairs a plain dictionary would hold after the same operations, no tombstone, and the stores created and not dropped |
| `MemoryEngine.VisibleIsPlain` | engine/memoryengine/store.go:45-166 | at every moment of a transaction what Get sees is that dictionary |
| `MemoryEngine.StoresAreNamed` | engine/memoryengine/engine.go:135-185 | at every moment of a transaction the stores are those there at Begin or created, and not dropped since |
| `MemoryEngine.NewStoreIsEmpty` | engine/memoryengine/engine.go:135-159 | after any operations through handles, a created store is there and empty, changes no other, and has a tree that no store had before, so that handles of dropped stores never reach it |
| `MemoryEngine.Transaction.Rollback` | engine/memoryengine/engine.go:70-90 | the loop restores the state at Begin exactly when the undo list is consistent, always when nothing was changed twice, and refuses a second end |
| `MemoryEngine.Transaction.Commit` | engine/memoryengine/engine.go:96-118 | the loop leaves the plain dictionary's pairs, no tombstone and the stores the run calls for; refused when read-only or ended |
| `MemoryEngine.Transaction.Put` | engine/memoryengine/store.go:45-92 | one step of the run, after which Get sees the value and all else as before, or refused unchanged: read-only, empty key, empty value |
| `MemoryEngine.Transaction.Get` | engine/memoryengine/store.go:94-115 | the visible value, tombstones hidden |
| `MemoryEngine.Transaction.Delete` | engine/memoryengine/store.go:123-166 | one step of the run with its undo and commit entries, after which Get sees all but that key; refused unchanged exactly when read-only or when Get does not see the key |
| `MemoryEngine.Transaction.CreateStore` | engine/memoryengine/engine.go:135-159 | one step of the run that adds the store and no other, or refused when read-only or the store exists |
| `MemoryEngine.Transaction.DropStore` | engine/memoryengine/engine.go:161-185 | one step of the run that removes the store and no other, or refused when read-only or there is no store |
| `BatchedIterator.Traverse` | engine/memoryengine/store.go:204-315 | driving the iterator with a body that deletes or overwrites does what walking the tree key by key does: same keys in order, same items, and it ends |
| `BatchedIterator.Iterator.Valid` | engine/memoryengine/store.go:261-311 | moves over tombstones only, across batches, to the next live key at that moment, or to the end |
| `BatchedIterator.Iterator.Reload` | engine/memoryengine/store.go:286-295 | reloading from the last key keeps the position: nothing skipped, nothing repeated |
| `BatchedIterator.Iterator.Seek` | engine/memoryengine/store.go:230-259 | the buffer becomes the first keys from the pivot on in the direction, full unless the tree ends |
| `BatchedIterator.Collect` | engine/memoryengine/store.go:235-242 | at most a buffer of keys, fewer only at the end |
| `BatchedIterator.FirstLive` | engine/memoryengine/store.go:272-282 | the first place whose key is not deleted, with only tombstones before it |
| `BatchedIterator.WalkInOrder` | engine/memoryengine/store.go:204-315 | keys are visited in strict order of the direction, so once at most |
| `BatchedIterator.WalkSelfDeleting` | engine/memoryengine/store.go:261-311 | deleting each key as it is reached visits exactly the keys live at the start |
| `BatchedIterator.FromPivot` | engine/memoryengine/store.go:230-259 | the keys of a loop are exactly those at or after the pivot in byte order, or at or before it in reverse, and all for an empty pivot |
| `BatchedIterator.WalkDeletesAll` | engine/memoryengine/store.go:261-311 | a loop that deletes what it reaches leaves every key of its range deleted and everything else as it was |
| `CatalogCache.Cache.Add` | internal/catalog/cache.go:110-132 | refused exactly when any of the three maps has the name; else the relation is found under its kind and name, and everything else is as it was; an unnamed relation gets the first unused name; no name is ever in two maps |
| `CatalogCache.Cache.Replace` | internal/catalog/cache.go:134-149 | the new relation is found under that kind and name and everything else is as it was, or there is none and nothing changes; the invariant stays |
| `CatalogCache.Cache.Delete` | internal/catalog/cache.go:151-166 | gives the relation of that kind and name, after which there is none and everything else is as it was; the invariant stays |
| `CatalogCache.Cache.Rollback` | internal/database/transaction.go:27-46 | after any run, the hooks replayed newest first leave the three maps exactly as they were at the start |
| `CatalogCache.Cache.GenerateUnusedName` | internal/catalog/cache.go:82-95 | the search ends with the first of base, base1, base2, ... that is free |
| `CatalogCache.Cache.ObjectExists` | internal/catalog/cache.go:63-80 | a name exists exactly when some map has it |
| `CatalogCache.TakenCandidates` | internal/catalog/cache.go:82-95 | taken candidates are as many different names, so the search cannot go on |
| `CatalogCache.CandidateIs` | internal/catalog/cache.go:82-95 | the i-th name tried is the base followed by the decimal numeral of i, by nothing for the first |
| `CatalogCache.ReplayAfterChange` | internal/database/transaction.go:41-43 | a change and its hook cancel in the replay |
| `Sequence.NeverTwice` | internal/database/sequence.go:89-154 | over every interleaving of Next, crash with reload and Release, the values are strictly monotone and within the bounds, when no value of the first lease passes the value after it |
| `Sequence.ShortLeaseGoesBack` | internal/database/sequence.go:116-153 | otherwise taking values up to that one, crashing and asking again goes back to or behind a value handed out |
| `Sequence.SafeIff` | internal/database/sequence.go:89-154 | a sequence is monotone over all runs exactly when no value of its first lease, within the bounds, is at or past the value that follows the lease |
| `Sequence.CoversIff` | internal/database/sequence.go:132-144 | a cache of at most 2 or a step of 1 or -1 is always safe, and given room for a whole lease nothing else is |
| `Sequence.HandedOutOnce` | internal/database/sequence.go:89-154 | over every interleaving no value is handed out twice, even where values go back, unless a value of the first lease is a whole number of leaps (cache - 1 plus a step) from the start |
| `Sequence.HandedOutTwice` | internal/database/sequence.go:116-153 | a value of the first lease that is b leaps from the start comes again after b crashes, each followed by one value |
| `Sequence.RepeatsIff` | internal/database/sequence.go:89-154 | some run hands out a value twice exactly when a value of the first lease, within the bounds, is a whole number of leaps from the start |
| `Sequence.BackWithoutRepeating` | internal/database/sequence.go:132-144 | with step 3, cache 3 and bounds 1 to 100, some run goes back and no run repeats a value |
| `Sequence.ReleaseLosesNothing` | internal/database/sequence.go:207-221 | after any run of any sequence, with Release before a crash the next value is the one that would have come without either |
| `Sequence.AlwaysInBounds` | internal/database/sequence.go:89-114 | over every run, cycling and wrapping included, all values are within the bounds, and a cycling sequence always has a next one |
| `Sequence.CyclesIff` | internal/database/sequence.go:100-114 | a cycling sequence goes on by a step or around to its first bound exactly when the step stays within int64, or its wrapped value is that bound, or there is one value only |
| `Sequence.StuckAtTheTop` | internal/database/sequence.go:100-114 | a cycling sequence up to the largest int64 that has reached it hands it out for ever |
| `Sequence.LeasedSequence.NextValue` | internal/database/sequence.go:89-154 | one step of the run: value, lease and cached count |
| `Sequence.LeasedSequence.ReleaseLease` | internal/database/sequence.go:209-221 | one step of the run: the lease goes back to the current value |
| `Constraints.Infer` | internal/database/constraint.go:159-201 | the nested loops compute the inference function, errors included |
| `Constraints.FieldConstraints.Add` | internal/database/constraint.go:207-281 | the loop with its in-place replacement computes the addition function; an error can change flags of inferred entries only |
| `Constraints.MergeInferred` | internal/database/constraint.go:96-110 | the nested loops append the paths not yet present |
| `Constraints.AddedFromByPath` | internal/database/constraint.go:207-281 | an addition changes the entry of its own path only, keeps paths distinct, and succeeds exactly for a compatible entry with no other key in the way before its place |
| `Constraints.InferMeans` | internal/database/constraint.go:159-201 | on success there is exactly one entry for each user path, as given, and for each proper prefix of one, and none else |
| `Constraints.InferKeeps` | internal/database/constraint.go:159-201 | every user constraint is kept, and every proper prefix is typed ARRAY when an array index follows it and DOCUMENT when a field name does |
| `Constraints.InferredByExact` | internal/database/constraint.go:96-110 | an inferred entry names, without repetition, exactly the user paths that extend it |
| `Constraints.InferOneKey` | internal/database/constraint.go:248-254 | the result has at most one primary key exactly when the user gave at most one |
| `Constraints.InferIff` | internal/database/constraint.go:159-281 | Infer succeeds exactly when paths are distinct, the constraints agree on every path they speak of, defaults fit, and each primary key is mentioned before the keys given earlier |
| `Constraints.AloneIff` | internal/database/constraint.go:257-277 | a single constraint is refused exactly when its default cannot be cast to its type, or is NEXT VALUE FOR on a type integers do not convert to |
| `Constraints.SecondKeyIff` | internal/database/constraint.go:248-254 | a second primary key is accepted exactly when its path is mentioned before that of the first, and then the result has two |
| `Constraints.InferOrder` | internal/database/constraint.go:159-201 | the result lists the paths in the order of their first mention, prefixes before the paths they belong to |
| `Constraints.TwoKeysAccepted` | internal/database/constraint.go:207-255 | `b.c INTEGER, a INTEGER PRIMARY KEY, b DOCUMENT PRIMARY KEY` is accepted with both keys |

## Left out

- UTF-8 decoding of patterns and texts, and the folding of letters: texts are sequences of code points and folding is an arbitrary relation.
- Lenient base64 input: newlines, which the decoder of the Go library drops, are an error here.
- Lazy decoding: documents and arrays read from the codec are shown decoded.
- Streams.SplitANDConditionRule: the expressions of the filters are values; what `precalculateExpr` writes into operands in place is a new expression here.
- Expressions.FoldingPreserves: functions, casts, NOT and concatenation are known by what they answer with and without an environment; document literals whose pairs refer to each other are outside the model, and truth of arrays is that of arrays in memory.
- Parser: NOT forms, IS NOT and BETWEEN, and the lists of allowed tokens.
- ValueEncoding.EncodingOrder: documents are not ordered by their encoding, as LongerDocumentFirst shows.
- Indexes on TEXT, BLOB or untyped columns: there a key and a value cannot be told apart in an entry.
- Composite indexes in the scan, IN and BETWEEN ranges, filters written `literal op path`, reverse scans, and the choice between candidate indexes by cost.
- IndexScan.ScanIsFilteredScan: values and literals are not NaN, and for a double literal outside int64 on an INTEGER column the conversion gives the least int64, as it does on amd64; the Go specification leaves it open.
- Tables.Table.Insert: what a conflict resolution callback does with the document it is given; validation of the document and the generation of its key happen before and are given.
- CatalogCache.Cache.Add: a relation filed under the empty name by Replace and then added again in the same transaction, which renames it under its rollback hook; no caller does that.
- MemoryEngine: Truncate, which swaps the tree of one handle only, and writes through a handle after the transaction has ended are steps outside the run.
- BatchedIterator.Traverse: bodies that add new keys while iterating.
- Sequence.SafeIff: crashes of cycling sequences, bounds so close to the ends of int64 that a wrapped value is within them, and use inside a transaction that is rolled back.
- Sequence.RepeatsIff: the same sequences as for SafeIff.
- Constraints.Infer: entries are values; input that is itself inferred is changed in place by the program.
- The Bolt and Badger engines, MessagePack and JSON, contexts and locks, the command line and the driver.
