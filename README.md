# aggy: a model of the commit-activity aggregator

aggy collects one user's git commits from a set of local repositories into a
single stored history of activity records. One run does five things:

- It discovers repositories under a list of root paths (`expandRepoPaths`).
- It asks a git log collaborator for each repository's commits.
- It keeps the commits whose author email is the user's (`isUser`).
- It turns each kept commit into a record. The record gets a timestamp, a
  type tag, a provenance tag and a UUID-shaped identifier derived from the
  commit hash (`uuidFromSha1`). The commit's own properties are copied over
  these.
- It appends all histories after the previously stored aggregate and keeps
  only the first record for each (`uuid`, `timestamp`) pair (`duplicate`).

The model is pure: Dafny datatypes, functions and lemmas over sequences and
maps, in nine modules.

- `Wrappers`: `Option` and `Result`.
- `Json`: JSON values, records as maps, and a property read that throws a
  TypeError on `undefined` or `null`.
- `Seqs`: flattening (`[].concat(...)`), `filter`, and a `map` that stops at
  the first throw.
- `Identifier`: `uuidFromSha1` for every input string. JavaScript's
  `substring` clamping, `parseInt(_, 16)` (with NaN), the 32-bit bitwise
  operators and `toString(16)` are written out.
- `RepoPaths`: repository discovery over an abstract filesystem.
- `Provenance`: the `dataSource` tag, `"git@"` followed by the machine's host
  name.
- `Commits`: the user filter, record normalisation, and one repository's
  history with its errors caught.
- `Duplicates`: the `duplicate` filter. It is proved equal to a one-pass
  reference that remembers the keys it has seen.
- `Aggregate`: `getUpdatedHistory`, which combines the others.

Six behaviours of the code are easy to misread; the model follows the code in
each:

- **The third group.** It is the string `"5"` followed by
  `hash.substring(13, 16)`, because `5 + string` concatenates. Character 12 of
  the hash is never read.
- **Discovery is one level deep.** A root that is a repository stands for
  itself. Otherwise the walk keeps those immediate children of the root that
  are repositories. It looks no deeper.
- **`isDirectory` is never applied.** The filter is
  `isDirectory && isRepository`. Its left operand is a function, hence truthy,
  so only `isRepository` is applied.
- **A root that does not exist is skipped.** Any other listing error (a root
  that is a file, a permission error) is thrown synchronously and ends the
  run.
- **Paths are not deduplicated.** A repository reachable from two roots is
  read twice. Its records are then merged away by the duplicate filter.
- **Duplicates are keyed on two fields.** Two records are duplicates when
  both `uuid` and `timestamp` are equal. The first wins, so a record already
  in the stored aggregate is never replaced by a fresh copy.

## Model

| member | source | states |
|---|---|---|
| Json.ReadProperty | index.js:25 | reading a data property (`email`, `timestamp`) throws a TypeError exactly when the value read from is undefined or null; an object yields its own property (undefined when it lacks it), and a string, number, boolean or array yields undefined |
| Seqs.Filter | index.js:64 | `filter` with a predicate that never throws yields a subsequence of the input in which every satisfying element occurs exactly as often as in the input and no other element occurs |
| Seqs.FilterAppend | index.js:64 | filtering a concatenation is the concatenation of the filtered parts |
| Seqs.MapOrFail | index.js:65-75 | `map` with a callback that may throw succeeds exactly when every call succeeds, and then the i-th output is the i-th call's result |
| Seqs.FlattenAppend | index.js:109 | concatenating the concatenations of two lists of lists is the concatenation of the joined list |
| Identifier.Substring | index.js:28-33 | `substring(start, end)` equals the slice when `end` is within the string and is never longer than `end - start` (bounds are clamped) |
| Identifier.ToHex | index.js:31 | `toString(16)` writes at least one lower-case hex digit and no leading zero |
| Identifier.ToHexRoundTrip | index.js:31 | `parseInt(_, 16)` reads back exactly the number that `toString(16)` wrote |
| Identifier.HexValueOfToHex | index.js:31 | the digits `toString(16)` writes denote the number written |
| Identifier.ParsePair | index.js:31 | `parseInt` of two hex digits is 16 times the first digit's value plus the second's |
| Identifier.AndSixLowBits | index.js:31 | the mask `& 0x3F` leaves the value modulo 64 |
| Identifier.OrBitSeven | index.js:31 | a bitwise OR with 0x80 on a value below 0x80 adds 0x80 |
| Identifier.WrapKeepsLowBits | index.js:31 | the 32-bit wrap of the bitwise operators does not change the six low bits |
| Identifier.MaskVariant | index.js:31 | masking x with 0x3F and then setting bit 7 gives 0x80 plus x modulo 64, for every integer, negative ones included |
| Identifier.VariantByte | index.js:31 | the variant byte lies in 0x80..0xBF for every parse result, NaN (read as 0) included |
| Identifier.VariantHex | index.js:31 | the variant text is always two lower-case hex digits, the first one 8, 9, a or b |
| Identifier.VariantHexOfPair | index.js:31 | for two hex digits the variant text is the digit 8 + (first digit mod 4) followed by the second digit in lower case |
| Identifier.UuidFromSha1 | index.js:27-33 | for a hash of 32 or more characters the identifier has 36 characters with dashes at 8, 13, 18 and 23 |
| Identifier.UuidGroups | index.js:27-33 | the identifier's groups are hash[0..8], hash[8..12], "5" then hash[13..16], the variant text of hash[16..18] then hash[18..20], and hash[20..32] |
| Identifier.Char12Ignored | index.js:29-30 | changing character 12 of the hash never changes the identifier |
| Identifier.UuidEqualIff | index.js:27-33 | two hashes give the same identifier if and only if they agree on the characters the derivation reads, on character 17's value and on character 16's value modulo 4 |
| Identifier.UuidShape | index.js:27-33 | a lower-case hex hash gives a canonical lower-case 8-4-4-4-12 identifier whose version digit is 5 and whose variant digit is 8, 9, a or b |
| RepoPaths.Children | index.js:43 | one path per listed name, in listing order; each entry name can be read back from its path, so distinct names give distinct paths |
| RepoPaths.ChildRepositories | index.js:42-44 | the kept children are exactly the listed children that are repositories, in listing order, each as often as it is listed |
| RepoPaths.RootRepositories | index.js:37-53 | a repository root gives itself; a listable root gives `ChildRepositories` of its listing (its repository children, in listing order, each as often as listed); a missing root (ENOENT) gives nothing; any other listing error is thrown with its code |
| RepoPaths.ExpandFromSpec | index.js:35-57 | the fold succeeds if and only if every root succeeds; it then yields the accumulator followed by the roots' contributions in root order, and otherwise the first failing root's error |
| RepoPaths.ExpandRepoPathsSpec | index.js:35-57 | the discovered paths are the concatenation of the roots' contributions in root order, or the first failing root's error |
| RepoPaths.FoundPathsAreShallowRepositories | index.js:38-44 | every discovered path is a repository and is a root or an immediate listed child of a root |
| RepoPaths.ExpandFromAppend | index.js:36-57 | folding over two concatenated root lists is folding over the second from the first's result, and the first error stops everything |
| RepoPaths.MissingRootIsSkipped | index.js:45-48 | a root that does not exist changes nothing: the result is the same as without it |
| Provenance.DataSourceIdentifiesHost | index.js:70 | the tag `git@${hostname}`, which the `os` module's `Symbol.toPrimitive` hook on `hostname` turns into "git@" and the host name, is equal for two machines if and only if their host names are |
| Commits.IsUser | index.js:25 | `isUser` throws exactly when the commit has no author (or a null one), and otherwise holds if and only if the author's email is the user's |
| Commits.UserCommits | index.js:63-64 | the filter succeeds if and only if every commit has an author, and then equals the plain filter on the author's email: the user's commits, each as often as in the input, in input order |
| Commits.Normalise | index.js:65-75 | building a record succeeds if and only if the commit has an author and a string hash |
| Commits.NormalisedRecord | index.js:65-75 | the record keeps every property of the commit with the commit's value and adds only the type tag, the given provenance text, the identifier derived from the hash and the author's timestamp where the commit lacks them |
| Commits.NormaliseAll | index.js:65-75 | the map succeeds if and only if every commit can be normalised, and then the i-th record is the i-th commit's |
| Commits.RepoHistoryIsTheUsers | index.js:59-81 | every record in a repository's history has the user's email as author email and carries the type tag, provenance and identifier |
| Commits.RepoHistoryCharacterised | index.js:59-81 | when nothing throws, a repository's history is the filter of its commits on the user's email (each as often as in the log, in log order), each normalised; otherwise it is empty |
| Duplicates.FindIndexFrom | index.js:100-102 | the scan returns the first index at or after the start whose record has the key, or -1 when there is none |
| Duplicates.FindIndex | index.js:100-102 | `findIndex` returns the first index with the key, and -1 if and only if no record has it |
| Duplicates.FirstOccurrenceIff | index.js:99-102 | `duplicate` holds of element i if and only if no earlier record has its key |
| Duplicates.DedupSeenStep | index.js:109 | one step of the reference pass keeps the head exactly when its key is unseen, then goes on with the key remembered |
| Duplicates.FilterFromIsDedupSeen | index.js:109 | the index-based filter from position i equals the reference pass over the rest, with the keys before i seen |
| Duplicates.DedupIsDedupSeen | index.js:109 | `filter(duplicate)` equals the one-pass reference on every input |
| Duplicates.DedupSeenProperties | index.js:109 | the reference pass yields distinct keys, a subsequence, and exactly the input's keys that were not already seen |
| Duplicates.DedupSeenAppend | index.js:109 | the reference pass over a concatenation is the pass over the first part followed by the pass over the second with the first part's keys seen |
| Duplicates.FilterFromKeepsFirsts | index.js:99-102 | every kept record is the first record carrying its key |
| Duplicates.DedupCorrect | index.js:109 | the filtered list has distinct keys, is a subsequence of the input, has the same set of keys, and holds only first occurrences |
| Duplicates.FirstOccurrencesKept | index.js:99-102 | the first record with each key is kept |
| Duplicates.DedupOfDistinct | index.js:109 | a list whose keys are distinct passes unchanged |
| Duplicates.DedupIdempotent | index.js:109 | filtering twice is filtering once |
| Duplicates.DedupAppend | index.js:109 | filtering a concatenation keeps the filtered first part as a prefix; what follows has keys new to the first part |
| Aggregate.UpdatedHistory | index.js:104-109 | a run fails if and only if discovery throws, with the same error, and otherwise yields an aggregate with distinct keys |
| Aggregate.FlattenCons | index.js:105-109 | the stored aggregate comes first in the concatenation |
| Aggregate.MergeCorrect | index.js:109 | the merge has distinct keys, is a subsequence of the stored aggregate followed by the histories, and keeps all their keys |
| Aggregate.PreviousWins | index.js:105-109 | a stored aggregate without duplicates is a prefix of the merge, and every later record has a key new to it |
| Aggregate.MergeIdempotent | index.js:104-109 | merging the same histories into the merged aggregate again changes nothing |
| Aggregate.FailedRepositoryIsIsolated | index.js:77-80 | a repository whose history failed (and is empty) leaves the merge as if it were absent |
| Aggregate.EveryContributedKeyKept | index.js:109 | every record any repository contributes has its key in the merge |
| Aggregate.UpdatedHistoryCorrect | index.js:104-109 | a successful run has distinct keys, keeps a duplicate-free stored aggregate as its prefix, and holds the key of every user record of every discovered repository, stamped with the tag naming the machine |
| Aggregate.StoredRecordWinsExample | index.js:99-109 | a stored u1@100 record survives a fresh u1@100 copy, and a new u2@200 record is appended |

## Left out

- File I/O is not modelled. Reading and writing the stored aggregate (`getPrevious`, `writeUpdatedHistory`, `JSON.parse`, `JSON.stringify`, `mkdir`) is left out. The stored aggregate is a parameter: an array of records, or None when it is missing or unreadable, which counts as empty. A stored file that parses to something other than an array of objects is not modelled.
- The git log collaborator (`git2json`) is a parameter. It maps a repository path to its commits, or to None when it rejects.
- `Promise.all` and asynchrony are left out. Repositories are processed in order, which gives the same result because `Promise.all` keeps positions.
- `untildify` and `path.join` normalisation are left out. A join is `p + "/" + name`, and roots are taken as already expanded.
- `lstatSync` is left out, because the source never applies `isDirectory`.
- `console.error` messages are left out.
- The constants `DB`, `repos` and `user`, and the top-level call, are left out.
- JavaScript numbers are modelled as unbounded integers: no NaN, infinities or fractions in JSON values.
- `===` on object or array values is modelled as structural equality, where JavaScript compares references. In practice `uuid` and `timestamp` are strings and numbers, for which the two agree.
- The tag `git@${hostname}` relies on the `Symbol.toPrimitive` hook that Node's `os` module puts on `hostname`. A runtime without that hook would write the function's source text instead. That runtime dependence is not modelled.
- Strings are sequences of Unicode characters, not UTF-16 code units.
- JSON object key order is not modelled.
- A property whose value is `undefined` is modelled as absent. The two are indistinguishable to a property read and to `JSON.stringify`.
- Property reads model data properties only. Built-in and inherited members such as `length` on strings and arrays, or `constructor` on objects, are not modelled; the program reads only `author`, `email`, `timestamp`, `hash` and `uuid`.
- Identifier.ParseInt16 has no contract of its own. Its behaviour on the inputs the derivation sees is stated by Identifier.ParsePair and Identifier.ToHexRoundTrip.
