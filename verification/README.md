# join — a verified model of the two join engines of yupsh/join

The repository implements the classic two-input `join` over whitespace-delimited
text lines in two variants:

- **the hash join** (`join.go`): both inputs are parsed into records (the fields of
  each non-blank line); each side is indexed by the normalised join key (optionally
  lower-cased, `""` for a record too short for the field); for every left key that
  the right index also holds, every pair of the two buckets is written as a joined
  row and both records are entered, by their tab-joined content, into a `joined` set;
  then, when requested, the records of each side whose content is not in that set
  are written as unpaired rows, left side first, each side in input order;
- **the lookup join** (`command.go`): the right lines are indexed, raw, by their join
  field (lines without the field are skipped); each left line that has the field
  produces one row per right line with that key, in right-input order, or itself
  verbatim when unpaired left lines are requested; finally, when requested, the
  right lines whose key no left line has are written verbatim.

Both commands default a zero `Field1`/`Field2` to 1 and refuse to run with fewer than
two operands. The files of the model:

| file | models |
|---|---|
| `Text.dfy` | `strings.Fields`, `strings.Join`, `strings.ToLower` (ASCII), and the fact that splitting undoes joining with one space |
| `Options.dfy` | the flags, the `Join` constructor with its defaults, the outcome of a run |
| `Rows.dfy` | the shape of a joined row, shared by both engines: key, left fields but the key, right fields but the key |
| `HashJoin.dfy` | `join.go`: specification functions and the imperative methods (`parseRecords`, `createIndex`, `outputJoinedRecord`, the matching loop, the unpaired passes, `performJoin`, `Execute`) |
| `HashJoinFacts.dfy` | what the hash join guarantees: parsing, bucketing, m x n rows per shared key, the joined set, independence from the map iteration order |
| `HashJoinUnpaired.dfy` | the unpaired passes against the intended "no partner on the other side" rule, and where they differ |
| `LookupJoin.dfy` | `command.go`: specification functions and the `Executor` closure split into its loops |
| `LookupJoinFacts.dfy` | what the lookup join guarantees: exact per-line output, the unpaired-right rule, the names/scores example |

Every output write is an append to a `seq<string>`; file contents are given as
sequences of lines. Each loop of the source is a method whose `ensures` equates its
result with a specification function; the lemmas then prove the source's promises
about those functions.

The Go map iteration order of the matching loop in `join.go` is left open: the
matching method returns, as a ghost value, the order in which it visited the left
keys (any enumeration of them), its output is specified for that order, and
`OrderIndependent` proves that the multiset of joined rows, the unpaired rows and
the whole output's multiset are the same for every order. Because the loop ranges
over a Go map, the order of the joined groups can change from one run to the next;
only that order varies. The unpaired passes decide "unpairable" (the flag
documentation at opt/opt.go:53-54) by record content, through one `joined` set
shared by both sides; the model follows that code, and the case where content
identity departs from "no partner on the other side" is recorded under "Findings".

A negative `Field1` or `Field2` makes `createIndex` index `record[-2]` or similar, a
Go run-time panic, before anything is written; the hash-join model returns
`Failed(FieldIndexPanic)` in exactly those runs (a side with at least one record and
a negative field). The lookup join checks `field >= 0` and simply writes nothing for
such lines.

## Model

| member | source | states |
|---|---|---|
| Options.Join | join.go:24-37 | the positional operands are kept; a zero Field1/Field2 becomes 1, any other value is kept; all other flags are unchanged (command.go:16-28 is the same constructor for the lookup join) |
| Text.Fields | join.go:213-216 | the fields of a line are non-empty and free of white space; there are none exactly when the line is all white space; what the fields are is fixed by Text.FieldsWord and Text.FieldsSplit |
| Text.FieldsWord | join.go:213 | a single white-space-free, non-empty string splits into exactly itself |
| Text.FieldsSplit | join.go:213 | a white-space character splits a line: the fields of s + [c] + t are the fields of s followed by the fields of t |
| Text.FieldsOfJoin | join.go:277 | splitting a single-space join of proper fields gives those fields back |
| Text.JoinWithInjective | join.go:280-282 | two different field lists never render to the same line |
| Text.LowerAt | join.go:242-247 | lower-casing maps each character independently and leaves no upper-case letter |
| Text.LowerIdempotent | join.go:242-247 | lower-casing twice is lower-casing once |
| Rows.WithoutSlices | join.go:264-275 | dropping the join field keeps the fields before it and after it, in order; an out-of-range position drops nothing |
| Rows.JoinedRowReparse | join.go:253-278 | a joined row re-splits into key, left fields but the key, right fields but the key |
| Rows.EmptyKeyReparse | join.go:255-261 | with the empty join field (left record too short) the leading empty key vanishes on re-splitting |
| HashJoin.NormalizeKey | join.go:242-247 | without IgnoreCase the key is unchanged; with it, the key keeps its length and each character is ASCII lower-cased on its own (so normalising twice changes nothing and two keys meet iff they agree up to ASCII case: NormalizeKeyIdempotent, CaseInsensitiveKeys) |
| HashJoin.RecordKey | join.go:249-251 | re-splitting a well-formed record's tab-joined key gives the record back, so distinct records have distinct keys (RecordKeyInjective) |
| HashJoin.IndexOf | join.go:221-240 | every bucket of the index is non-empty; which keys and which records it holds is stated by IndexBuckets, BucketMembers and IndexSizes |
| HashJoin.JoinedRow | join.go:253-278 | for well-formed records, re-splitting the row gives the left join field, the left fields but it and the right fields but theirs; for a left record too short for the field, the left record and the right fields but theirs |
| HashJoin.UnpairedLine | join.go:280-282 | re-splitting a well-formed record's single-spaced line gives the record back, so distinct records give distinct lines (UnpairedLineInjective) |
| HashJoin.ParsedRecords | join.go:204-219 | at most one record per line; every record is non-empty and made of proper fields |
| HashJoin.ParseRecords | join.go:204-219 | the parsing loop yields exactly the parsed records of the lines |
| HashJoin.CreateIndex | join.go:221-240 | the indexing loop yields exactly the index specification, and is panic-free exactly when the field is non-negative or there are no records |
| HashJoin.AppendExcept | join.go:264-268 | the field-copying loop appends every field except the one at the skipped position, in order |
| HashJoin.OutputJoinedRecord | join.go:253-278 | the row is the left join field (or "" when out of range), the left fields but it, the right fields but theirs, single-spaced; panic-free exactly when Field1 >= 1 |
| HashJoin.EmitRowsWith | join.go:142-146 | one left record against a bucket: one row per right record in bucket order; marks the left record and every right record when the bucket is non-empty |
| HashJoin.EmitPairs | join.go:141-147 | the nested loops write the left-major product of the two buckets and mark every record of both when both are non-empty |
| HashJoin.MatchKeys | join.go:127-149 | the loop visits every left key exactly once, writes the groups of the visited keys in visiting order and leaves the joined set of all left keys |
| HashJoin.OutputUnpaired | join.go:157-183 | an unpaired pass writes, in input order, the re-spaced records whose content is not in the joined set |
| HashJoin.PerformJoin | join.go:87-186 | the run fails exactly when a negative field has records on its side; otherwise the output is the matched rows for the visiting order followed by the left and then the right unpaired rows, each when requested, so it ends with the unpaired rows whatever the order |
| HashJoin.Execute | join.go:39-85 | fewer than two operands fail before any processing; otherwise the result of performJoin on the two inputs |
| HashJoinFacts.ParsedRecordsMembers | join.go:204-219 | a record is produced iff it is the non-empty field list of some line |
| HashJoinFacts.ParseAppend | join.go:206-217 | parsing keeps line order: the records of a + b are those of a followed by those of b |
| HashJoinFacts.NormalizeKeyIdempotent | join.go:140 | normalising an index key again changes nothing, so the lookup at line 140 finds the right bucket (a consequence of NormalizeKey's contract) |
| HashJoinFacts.CaseInsensitiveKeys | join.go:242-247 | with IgnoreCase two keys meet iff they agree letter by letter up to ASCII case (a consequence of NormalizeKey's contract) |
| HashJoinFacts.IndexBuckets | join.go:221-240 | a key is in the index iff its bucket is non-empty, and then the index holds that bucket |
| HashJoinFacts.BucketMembers | join.go:231-236 | a record is in bucket k iff it is one of the records and its normalised key (or "" when too short) is k |
| HashJoinFacts.IndexKeysNormalized | join.go:235-236 | every index key is already normalised |
| HashJoinFacts.RecordInOneBucket | join.go:231-236 | every record is in the bucket of its own key and in no other |
| HashJoinFacts.IndexHasKey | join.go:221-240 | a key is in the index iff some record has it |
| HashJoinFacts.IndexSizes | join.go:221-240 | over any enumeration of the index keys, the bucket sizes add up to the number of records |
| HashJoinFacts.RowsWithAt | join.go:142-146 | one left record against a bucket gives one row per right record, the j-th row pairing with the j-th record |
| HashJoinFacts.PairsCount | join.go:141-147 | two buckets give exactly m x n rows |
| HashJoinFacts.PairsMembers | join.go:141-147 | a row is in the product iff it joins some record of the left bucket with some record of the right bucket |
| HashJoinFacts.GroupCount | join.go:140-148 | a left key writes |left bucket| x |right bucket| rows, none when the right side lacks the key |
| HashJoinFacts.GroupHas | join.go:140-148 | every pair of records with the key is written under that key |
| HashJoinFacts.MatchedRowsMembers | join.go:131-149 | the matching loop writes a row iff the group of some visited key holds it |
| HashJoinFacts.MatchedRowsExact | join.go:131-149 | for any visiting order, the joined rows are exactly the rows of pairs of left and right records with equal normalised keys |
| HashJoinFacts.RecordKeysMembers | join.go:249-251 | the marks of a bucket are exactly the record keys of its records |
| HashJoinFacts.JoinedHas | join.go:144-145 | both records of every pair with equal keys are in the joined set |
| HashJoinFacts.JoinedFrom | join.go:144-145 | every entry of the joined set is the content of a left or right record of some pair with equal keys |
| HashJoinFacts.JoinedMembers | join.go:127-149 | the joined set is exactly the contents of the records that take part in some pair |
| HashJoinFacts.UnpairedRowsMembers | join.go:157-183 | an unpaired pass writes a line iff it renders a record of that side whose content is not in the joined set |
| HashJoinFacts.UnpairedLineInjective | join.go:280-282 | distinct records render to distinct unpaired lines (a consequence of UnpairedLine's contract) |
| HashJoinFacts.RecordKeyInjective | join.go:249-251 | distinct records have distinct record keys (a consequence of RecordKey's contract) |
| HashJoinFacts.PairedNeverUnpaired | join.go:157-183 | a record that takes part in a joined row is in the joined set and never written as unpaired on its side |
| HashJoinFacts.EnumerationsPermute | join.go:131 | any two iteration orders of the left keys are permutations of each other |
| HashJoinFacts.MatchedRowsPermute | join.go:131-149 | permuting the visiting order permutes the joined rows |
| HashJoinFacts.OrderIndependent | join.go:131-183 | for any two iteration orders: the same multiset of joined rows, the same number, identical unpaired output, and the same output multiset |
| HashJoinUnpaired.UnpairedByKeyMembers | join.go:157-183 | the intended pass writes exactly the records whose key the other side's index lacks |
| HashJoinUnpaired.UnpairedByKeyExact | join.go:157-183 | under the intended rule a record is written as unpaired iff no record of the other side has the same key |
| HashJoinUnpaired.UnpairedAgree | join.go:165-181 | the content-based pass equals the key-based pass whenever, record by record, being marked coincides with having a partner |
| HashJoinUnpaired.SharedContentKey | join.go:249-251 | with Field1 = Field2, a record sharing its content with a paired record has a key on both sides |
| HashJoinUnpaired.LeftMarkedIffPartnered | join.go:144-169 | with Field1 = Field2, a left record is marked iff the right index holds its key |
| HashJoinUnpaired.RightMarkedIffPartnered | join.go:144-181 | with Field1 = Field2, a right record is marked iff the left index holds its key |
| HashJoinUnpaired.SameFieldAgrees | join.go:157-183 | with Field1 = Field2 the code's unpaired output and whole output equal the intended ones |
| HashJoinUnpaired.ContentIdentityMisreports | join.go:157-183 | a left record with no partner on the right that the code does not report as unpaired, while the intended rule does |
| LookupJoin.RowsFor | command.go:90-117 | one row per match (the j-th row is stated by RowsForAt) |
| LookupJoin.LineOutput | command.go:86-122 | a left line without the field writes nothing; one whose key is indexed writes one row per indexed line; one whose key is not indexed writes itself iff unpaired left lines are requested (against the right lines themselves: LeftLineOutput) |
| LookupJoin.AppendSpaced | command.go:103-107 | appending " " + field for every field but the skipped one extends the single-spaced join by exactly those fields |
| LookupJoin.BuildRow | command.go:100-114 | the row is the key, the left fields but field1, the right fields but field2, single-spaced |
| LookupJoin.IndexFile2 | command.go:61-75 | the indexing loop yields exactly the index of the right lines that have the field |
| LookupJoin.JoinMatches | command.go:90-117 | one row per match, in match order |
| LookupJoin.JoinLine | command.go:79-122 | one left line writes its rows, itself when unmatched and requested, or nothing |
| LookupJoin.JoinLeft | command.go:77-123 | the left loop writes each left line's output in left-input order |
| LookupJoin.CollectSeen | command.go:127-138 | the seen set is exactly the keys of the left lines that have the field |
| LookupJoin.PrintUnpairedRight | command.go:140-152 | the final pass writes, in order, the right lines with the field whose key was not seen |
| LookupJoin.Executor | command.go:30-157 | fewer than two operands fail with no output; otherwise the left-driven output followed, when requested, by the unpaired right lines |
| LookupJoinFacts.RightIndexBuckets | command.go:61-75 | a key is indexed iff some right line with the field has it, and its bucket is those lines in input order |
| LookupJoinFacts.KeyedLinesMembers | command.go:71-74 | a bucket holds exactly the right lines with the field and that key |
| LookupJoinFacts.SeenKeysMembers | command.go:127-138 | a key is seen iff some left line with the field has it |
| LookupJoinFacts.RightUnpairedMembers | command.go:140-152 | the final pass writes exactly the right lines with the field whose key is not seen |
| LookupJoinFacts.RowsForAt | command.go:90-117 | a left line with n matches writes n rows, the j-th pairing it with the j-th match |
| LookupJoinFacts.ShortRightLineUnused | command.go:71-74 | a right line without the field is in no bucket and is never written as unpaired |
| LookupJoinFacts.LeftLineOutput | command.go:86-122 | a left line without the field writes nothing; with n right lines of its key it writes exactly the n rows in right-input order; with none, itself iff unpaired left lines are requested |
| LookupJoinFacts.LeftDrivenAppend | command.go:77-123 | the left-driven output of a + b is that of a followed by that of b |
| LookupJoinFacts.UnpairedRightExact | command.go:125-153 | a line is in the final pass iff unpaired right lines are requested and it is a right line with the field whose key no left line with the field has |
| LookupJoinFacts.RowReparse | command.go:100-114 | a row re-splits into the key, the left fields but field1 and the right fields but field2 |
| LookupJoinFacts.NamesScoresExample | command_test.go:11-16 | on the names/scores inputs the default join writes exactly the three rows "1 Alice 90", "2 Bob 85", "3 Carol 95" |

## Left out

- Opening files, standard input for `-`, closing, and reading lines (`readLines`, `readFileLines`, `bufio.Scanner`): the inputs are given as sequences of lines, so I/O errors are not modelled.
- Context cancellation and its checkpoints (including the `joinCount` counter, whose only use is to pace them): cooperative plumbing with no effect on the output of a run that is not cancelled.
- `OutputFormat`, `EmptyString` and `CheckOrder`: stored but never read by either engine.
- The `Configure` setters of the option types and `String()`: option binding and display only.
- The text of the messages written to standard error: the model returns the error kind.
- `strings.Fields` and `strings.ToLower` beyond ASCII: white space is the ASCII set (space, tab, line feed, vertical tab, form feed, carriage return) and lower-casing maps only A to Z.
- Go `int` width of `Field1`/`Field2`: the model uses unbounded integers, so `Field - 1` at the smallest `int` does not wrap.
- The unused `isFile1` parameter of `outputUnpairedRecord`.
- Text.Lower: its own contract states only that the length is kept; the per-character meaning is stated by Text.LowerAt.
- The Go map iteration order itself: the model admits every order and proves what does not depend on it.

## Findings

| source | as written | input that shows it | evidently intended | confidence | as-written member | corrected member |
|---|---|---|---|---|---|---|
| join.go:157-183 | the unpaired passes skip every record whose tab-joined content is in the `joined` set, a set shared by both sides | Field1 = 1, Field2 = 2, unpaired left lines requested; left lines `a b` and `b x`, right line `a b`: the right line pairs with the left `b x` (key `b`), so the content `a<TAB>b` is marked, and the left `a b` (key `a`, which no right record has) is not written | a record is unpairable (opt/opt.go:53-54) when no record of the other side has its key; the left `a b` is written | not executed | HashJoinUnpaired.ContentIdentityMisreports | HashJoinUnpaired.UnpairedByKeyExact |

The corrected rule is `UnpairedByKey` (used by `CorrectedUnpairedOutput` and
`CorrectedJoinOutput`). `SameFieldAgrees` proves that the code as written already
follows it whenever both sides join on the same field position, which includes the
default configuration. `PerformJoin` itself keeps the code as written.
