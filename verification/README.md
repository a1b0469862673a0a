# scoro in Dafny

scoro is a tag catalog kept over a flat storage directory. A stored file's
name stem, split on `_`, gives one token per category: the token at 0-based
position `i` belongs to the index (category) whose `order` is `i + 1`. Each
index keeps its terms (tags) in a ledger file `<location>/<title>_<order>.lst`,
one line per term, prefixed with `;` when the term is checked. `pull` lists
the stored files that carry an unchecked term at the right position.

This project models `scoro/scoro.py`: the classes `Scoro`, `Index` and
`Term`, and the string, sorting and parsing steps they rely on.

- The ledger directory is a `Disk` object holding a map from address to
  file text, shared by the catalog and every index. Touching, truncating,
  writing and removing a ledger update that map.
- A listing of the ledger directory is given as the sequence of ledger
  names (`Path(...).stem` of each `.lst` file), in listing order.
- A listing of the storage directory is a sequence of `StoredFile(path,
  stem)` values, in listing order.
- `Scoro`, `Index` and `Term` are classes whose methods update their
  fields in place. The pure parts (`quicksort`, `get_open_order`,
  `is_index`, the ledger line format, the title and address handling) are
  functions with lemmas.
- Two kinds of exception are modelled, both as results. In `renew`, a
  ledger name without `_` gives `MissingOrder` (IndexError), and one whose
  order is not an integer gives `BadOrder` (ValueError); both are an
  `Option<Error>` result, and the remaining ledger names are not looked
  at. A missing ledger in `renew_contents` (FileNotFoundError) is the
  `false` result of `Index.RenewContents`; the catalog's invariant
  guarantees that file exists, so the catalog never takes that branch.
  Every other exception the code can raise is left out (see the end of
  this file).

Modules, from the bottom up:

- `Text` (text.dfy): `split`, `lower`, `lstrip`/`rstrip`,
  `replace(c, "")`, universal-newline reading, `readlines`, `str(int)` and
  `int(str)` on `seq<char>`.
- `Selection` (selection.dfy): a stable sort by key, given as a list of
  positions, with its correctness proof.
- `Words` (words.dfy): Python's `<` on `str`, the source's quicksort, and
  `Canonical`, the `sort_contents` join.
- `Ledger` (ledger.dfy): the line format `write_contents` writes and
  `renew_contents` reads, and their round trip.
- `Registry` (registry.dfy): the index list as `Slot(title, order)` values.
  It covers the open order, lookup by title, adding and deleting by title,
  ledger addresses and the reading of ledger names in `renew`.
- `Storage` (storage.dfy): what `pull` returns and what
  `refresh_indexes_list` adds to each index.
- `Indexes` (indexes.dfy): the classes `Disk`, `Term` and `Index`.
- `Catalog` (scoro.dfy): the class `Scoro`.

`Scoro.Valid()` is the invariant every method keeps:
- every index shares the catalog's `Disk`;
- every index's ledger is `LedgerAddress(location, title, order)` and
  exists;
- titles are non-empty and unique ignoring case.

Uniqueness is needed because `add_index` checks `is_index` before it
appends. It is also what keeps two indexes off one ledger file
(`Registry.AddressInjective`).

Behaviour kept as the code has it:
- `renew_contents` turns every line into a term, blank lines included. It
  does not skip them.
- `Index.add` always appends; it is not idempotent by word.
- `renew` registers only the first ledger name of each abridged title (the
  part before `_`), and only when no index already has that ledger file.
  Names without an order, or with an order that is not an integer, raise.
- `refresh_indexes_list` hands the gathered token lists to the indexes by
  position in the list, not by order (`Storage.Additions`).
  `Storage.AdditionsOwnOrder` proves that the two agree when no two indexes
  share an order.
- `pull` has only the mode where any one position suffices. A file is
  listed once per matching position.
- `quicksort` drops repeated words. `sort_contents` keeps the first term
  carrying each word.
- `get_open_order` scans only `1 .. len - 1`, so it can return an order
  that is taken: with orders 1 and 3 taken it returns 3
  (`Registry.OpenOrderGap`). `Registry.OpenOrderClash` shows that only the
  fallback `len + 1` can collide.
- `Term.check` clears the flag and `Term.uncheck` sets it. The
  constructor's `unchecked` argument is stored in `checked`. `pull` looks
  at terms whose flag is clear. The model keeps all of this as written.

## Model

| member | source | states |
|---|---|---|
| Text.Split | scoro/scoro.py:151 | `split` gives at least one part, no part holds the separator, and gluing the parts back with the separator gives the input |
| Text.SplitJoin | scoro/scoro.py:151 | splitting parts that were glued with a separator they do not contain gives those parts back |
| Text.SplitHead | scoro/scoro.py:90 | the first part of a split is the prefix before the first separator, and it is the whole string exactly when there is one part |
| Text.Lower | scoro/scoro.py:196 | `lower` keeps the length and lowercases each character (ASCII letters only) |
| Text.LStrip | scoro/scoro.py:350 | `lstrip` leaves a suffix, every dropped character is in the set, and the result does not start with one |
| Text.RStrip | scoro/scoro.py:300 | `rstrip` leaves a prefix, every dropped character is in the set, and the result does not end with one |
| Text.RemoveSpec | scoro/scoro.py:348 | `replace("\n", "")` leaves no such character, keeps every other character as often as it occurs, and changes nothing when there is none |
| Text.RemoveAppend | scoro/scoro.py:348 | removing a character from two joined strings removes it from each, in order |
| Text.Universal | scoro/scoro.py:346 | text-mode reading leaves no `\r`, and text without `\r` is read unchanged |
| Text.UniversalHead | scoro/scoro.py:346 | text-mode reading turns a leading `\r\n` or lone `\r` into one `\n`, keeps any other first character, and goes on with the rest |
| Text.UniversalText | scoro/scoro.py:346 | text mode changes only the line breaks: with every `\r` and `\n` taken out, the text reads the same before and after |
| Text.UniversalAppend | scoro/scoro.py:346 | text cut anywhere but right after a `\r` is converted part by part |
| Text.Lines | scoro/scoro.py:347 | `readlines` gives non-empty lines whose concatenation is the text |
| Text.LinesBreaks | scoro/scoro.py:347 | `readlines` cuts after each `\n`: no line holds a `\n` except as its last character, and every line but the last ends in one |
| Text.LinesCons | scoro/scoro.py:347 | a first line ending in its only `\n` is cut off as one line |
| Text.IntToString | scoro/scoro.py:300 | `str(order)` is non-empty and made of digits and `-` |
| Text.ParseIntShape | scoro/scoro.py:283 | `int()` fails on a string of whitespace only, and succeeds only when the string holds a digit |
| Text.IntRoundTrip | scoro/scoro.py:283 | `int(str(n)) == n` for every integer, so `renew` reads back the order an index wrote into its ledger name |
| Words.LessStrictTotal | scoro/scoro.py:380-381 | Python's `<` on strings is irreflexive, transitive and total |
| Words.LessPrefix | scoro/scoro.py:380-381 | a proper prefix sorts before the longer string |
| Words.Below | scoro/scoro.py:380 | the list holds exactly the input words below the pivot |
| Words.Above | scoro/scoro.py:381 | the list holds exactly the input words above the pivot |
| Words.Quicksort | scoro/scoro.py:375-382 | `quicksort` returns strictly increasing words (repeats dropped) that are exactly the words of its input |
| Words.IncreasingUnique | scoro/scoro.py:375-382 | two strictly increasing lists with the same words are equal, so the quicksort result is fixed by the set of words alone |
| Words.QuicksortOfIncreasing | scoro/scoro.py:375-382 | `quicksort` leaves an increasing list unchanged |
| Words.Canonical | scoro/scoro.py:384-402 | `sort_contents` keeps as many terms as the quicksort has words, one per distinct word, each one of the input's terms |
| Words.CanonicalWords | scoro/scoro.py:387-388 | the words of the `sort_contents` result are the quicksort of the words |
| Words.CanonicalSpec | scoro/scoro.py:384-402 | after `sort_contents` the words strictly increase and are exactly the input's words, and each element is the first input element carrying its word |
| Words.CanonicalOfIncreasing | scoro/scoro.py:384-402 | a list whose words already increase is left as it is by `sort_contents` |
| Words.CanonicalIdempotent | scoro/scoro.py:371-402 | `sort_contents` twice equals `sort_contents` once |
| Selection.StableOrderCorrect | scoro/scoro.py:352 | `sort(key=...)` orders by key, keeps equal keys in their original order and permutes the positions |
| Selection.StableOrderOfSorted | scoro/scoro.py:352 | a list already in key order is left in place by the stable sort |
| Selection.SelectPermutation | scoro/scoro.py:352 | picking a permutation of all positions permutes the elements |
| Ledger.ParseLine | scoro/scoro.py:348-350 | a read line gives a term that is checked exactly when the line starts with `;`, whose word has no `\n` and does not start with `;` |
| Ledger.ParseLines | scoro/scoro.py:347-350 | one term per line, in file order |
| Ledger.Decode | scoro/scoro.py:341-353 | `renew_contents` makes one term per line the file reads as |
| Ledger.DecodeSpec | scoro/scoro.py:341-353 | `renew_contents` keeps one term per line (none merged, none dropped), sorts them by word and keeps equal words in file order |
| Ledger.LineOfShape | scoro/scoro.py:411 | the written line ends in its only `\n` when the word has none, and starts with `;` when the term is checked and only then, for a word not starting with `;` |
| Ledger.EncodeShape | scoro/scoro.py:409-412 | the written ledger is empty exactly when there are no terms, and otherwise ends in `\n` |
| Ledger.EncodeSnoc | scoro/scoro.py:410-412 | writing term by term appends one encoded line per term |
| Ledger.ParseLineOf | scoro/scoro.py:348-350 | reading back the line written for a term with no line break and no leading `;` gives that term, word and flag |
| Ledger.LinesOfEncode | scoro/scoro.py:410-412 | the lines of a written ledger are the lines written for its terms, one each |
| Ledger.DecodeEncode | scoro/scoro.py:404-412 | reading back written terms gives them stably sorted by word |
| Ledger.RoundTrip | scoro/scoro.py:341-353 | terms in word order are read back exactly as written, checked flags included |
| Ledger.WriteThenRenew | scoro/scoro.py:404-412 | `write_contents` then `renew_contents` leaves an index as `sort_contents` made it |
| Indexes.Term.constructor | scoro/scoro.py:448-450 | the flag takes the value of the `unchecked` argument |
| Indexes.Term.Check | scoro/scoro.py:458-459 | `check` clears the flag |
| Indexes.Term.Uncheck | scoro/scoro.py:461-462 | `uncheck` sets the flag |
| Indexes.Index.constructor | scoro/scoro.py:297-306 | the address is `<root>/<title>_<order>.lst`, the ledger is created empty when missing and otherwise left alone, and the index has no terms |
| Indexes.Index.Add | scoro/scoro.py:315-319 | `add` appends one fresh term with the word and flag and keeps the others |
| Indexes.Index.AddChecked | scoro/scoro.py:163-164 | adding the words one by one with `checked=True` appends one checked entry per word, in order |
| Indexes.Index.ClearContents | scoro/scoro.py:327-332 | `clear_contents` truncates the ledger and drops every term |
| Indexes.Index.ResetContents | scoro/scoro.py:334-339 | `reset_contents` calls `check` on every term, so no flag is left set |
| Indexes.NewTerms | scoro/scoro.py:347-350 | one fresh term per parsed line, holding that line's word and flag |
| Indexes.Index.RenewContents | scoro/scoro.py:341-353 | when the ledger exists, the terms are fresh and hold `Decode` of its text; when it is missing, nothing changes |
| Indexes.FirstUnused | scoro/scoro.py:397-401 | the inner loop finds the first unused term with the word, or passes them all |
| Indexes.SortTerms | scoro/scoro.py:384-402 | the join of the quicksorted words to the unused terms gives `Canonical` of the terms |
| Indexes.CanonicalIncreasing | scoro/scoro.py:384-402 | the words of the terms after `sort_contents` strictly increase |
| Indexes.Index.SortContents | scoro/scoro.py:371-402 | `sort_contents` leaves `Canonical` of the old terms: one term object per distinct word, in word order, each the first with that word |
| Indexes.EncodeTerms | scoro/scoro.py:410-412 | the text written line by line is `Encode` of the terms' values |
| Indexes.Index.WriteContents | scoro/scoro.py:404-412 | `write_contents` sorts the terms and overwrites only this index's ledger with their encoding |
| Indexes.Contains | scoro/scoro.py:431-441 | the scan finds the word exactly when some term carries it |
| Indexes.Index.IsInIndex | scoro/scoro.py:431-441 | `is_in_index` is true exactly when some term carries the word |
| Registry.OpenFrom | scoro/scoro.py:134-138 | the scan returns a free value of `i .. len-1` with every value before it taken, or `len + 1` |
| Registry.OpenOrder | scoro/scoro.py:123-138 | `get_open_order` is the smallest free order in `1 .. len-1`, otherwise `len + 1` |
| Registry.OpenOrderEmpty | scoro/scoro.py:129-138 | with no index the order is 1 |
| Registry.OpenOrderPermutation | scoro/scoro.py:133 | the result depends only on the multiset of taken orders, so sorting them does not change it |
| Registry.OpenOrderContiguous | scoro/scoro.py:134-138 | with orders exactly `1..n` taken the result is `n + 1`, which is free |
| Registry.OpenOrderClash | scoro/scoro.py:134-138 | only the fallback `len + 1` can be a taken order, and it is free when no order exceeds `len` |
| Registry.OpenOrderGap | scoro/scoro.py:134-138 | with order 2 taken the result is 2, and with 1 and 3 taken it is 3: a taken order |
| Registry.HasTitle | scoro/scoro.py:190-198 | `is_index` is true exactly when some title equals the argument ignoring case |
| Registry.AddTitleShape | scoro/scoro.py:49-66 | adding one title only appends, at most one slot, and appends exactly when the title is non-empty and unknown; the new slot has that title, and the given order unless it is -1 |
| Registry.AddEachShape | scoro/scoro.py:69-72 | adding a list only appends, at most one slot per title, and every new slot's title comes from the list |
| Registry.AddTitlesShape | scoro/scoro.py:49-77 | `add_index` only appends: at most one slot for a string, at most one per title for a list |
| Registry.AddTitleSpec | scoro/scoro.py:49-66 | adding one title keeps titles unique ignoring case and only appends, at most one slot; afterwards a non-empty title is known, and a known title changes nothing |
| Registry.AddEachSpec | scoro/scoro.py:69-72 | adding a list keeps titles unique, only appends, adds at most one slot per title, and makes every non-empty title known |
| Registry.AddEachKnown | scoro/scoro.py:69-72 | a list of titles that are all known changes nothing |
| Registry.Abridged | scoro/scoro.py:90 | `split("_")[0]` is the prefix before the first `_`, and the whole title exactly when it has no `_` |
| Registry.DoomedPlain | scoro/scoro.py:90-92 | for a title and an argument without `_`, a match is equality ignoring case |
| Registry.FirstDoomed | scoro/scoro.py:91-97 | the search returns the first title whose lowercased part before `_` equals the argument's, or none when no title matches |
| Registry.DeleteTitleShape | scoro/scoro.py:79-102 | deleting one title leaves the list as it is or removes exactly one matching slot, the others keeping their order; it never adds a slot |
| Registry.DeleteEachShape | scoro/scoro.py:103-105 | deleting a list removes at most one slot per title and never adds one |
| Registry.DeleteTitlesShape | scoro/scoro.py:79-105 | `delete_index` only removes slots |
| Registry.DeleteTitleSpec | scoro/scoro.py:79-102 | deleting keeps titles unique; it removes exactly one slot when the title is non-empty and matches, and otherwise changes nothing |
| Registry.DeleteEachSpec | scoro/scoro.py:103-105 | deleting a list keeps titles unique and removes at most one slot per title |
| Registry.AddThenDelete | scoro/scoro.py:49-102 | adding a new title without `_` and then deleting it gives the original list back |
| Registry.Normalise | scoro/scoro.py:19-27 | a given path loses only trailing `/` characters and then ends in exactly one `/`; an empty one gives the default |
| Registry.NormaliseIdempotent | scoro/scoro.py:19-27 | normalising twice equals normalising once |
| Registry.Addresses | scoro/scoro.py:279 | the current addresses are the ledger addresses of the indexes, in order |
| Registry.LedgerName | scoro/scoro.py:300 | the ledger address ends in `/<title>_<order>.lst` |
| Registry.AddressInjective | scoro/scoro.py:300 | different (title, order) pairs under one root get different ledger files |
| Registry.AddressUnderDirectory | scoro/scoro.py:300 | under a normalised location the address is the location, the name and `.lst` |
| Registry.FirstPerTitle | scoro/scoro.py:273-277 | the kept ledger names come from the listing, no two have the same abridged title, and every listed abridged title is represented |
| Registry.FirstPerTitleStep | scoro/scoro.py:273-277 | a listed name is kept exactly when its abridged title is new |
| Registry.RegisterOneShape | scoro/scoro.py:280-283 | one ledger name appends at most one slot, titled with the name's part before `_`; an IndexError or ValueError changes nothing, names the stem, and arises only for a name that is not already an index's ledger |
| Registry.RegisterAllShape | scoro/scoro.py:280-283 | the names only append slots, at most one each, and an error names one of the listed names |
| Registry.RenewedSpec | scoro/scoro.py:264-290 | `renew` adds at most one index per name; on an error the old indexes stay in front, and otherwise the result reorders the registered indexes without losing any |
| Registry.RegisterAllStops | scoro/scoro.py:280-283 | the first error stops `renew`: later names are not looked at |
| Registry.RegisterAllRegistered | scoro/scoro.py:280-283 | registering ledger names keeps titles unique and only appends |
| Registry.RegisterOwnLedger | scoro/scoro.py:282-283 | the ledger name an index writes for a title without `_` is read back as that title and order |
| Registry.ByOrder | scoro/scoro.py:286 | the sort by order gives a position for each index |
| Registry.ByOrderSpec | scoro/scoro.py:286 | after the sort the orders never go down, equal orders keep their relative position, and the same indexes are all there |
| Registry.ByOrderRegistered | scoro/scoro.py:286 | sorting by order keeps titles unique |
| Storage.Pending | scoro/scoro.py:219-222 | the words gathered from an index are exactly those of its terms whose flag is clear |
| Storage.Positions | scoro/scoro.py:228-233 | the matching positions of a stem are exactly those whose token is an unchecked word of an index of the next order, in increasing order |
| Storage.PendingOfHeld | scoro/scoro.py:219-222 | a word is in the list of an order exactly when some index of that order holds it unchecked |
| Storage.GatheredKeys | scoro/scoro.py:217-222 | the dict has a key for each order an index has, holding their unchecked words |
| Storage.GatheredWanted | scoro/scoro.py:229-233 | the dict lookup, with a missing key counting as no match, is the matching rule |
| Storage.Pull | scoro/scoro.py:224-234 | every path `pull` returns is the path of a listed file |
| Storage.PullHasWanted | scoro/scoro.py:211-234 | a path is pulled exactly when a file listed under it has a matching position |
| Storage.PullMember | scoro/scoro.py:211-234 | a path is pulled exactly when, for a file listed under it, some position `i` holds an unchecked word of an index of order `i + 1`; other positions never count |
| Storage.PullAppend | scoro/scoro.py:225-234 | the result follows the listing: pulling two listings in turn is pulling their concatenation |
| Storage.PullCount | scoro/scoro.py:228-231 | a file appears once for each matching position of its stem |
| Storage.Collected | scoro/scoro.py:150-159 | the tokens gathered for an order are exactly the non-empty tokens at position `order - 1` of the stems |
| Storage.Dedup | scoro/scoro.py:162 | `list(set(...))` keeps every element once and nothing else |
| Storage.DedupDistinct | scoro/scoro.py:148 | a list without repeats is its own deduplication (the dict keys are the orders when they are distinct) |
| Storage.Additions | scoro/scoro.py:148-164 | one list per index, each of distinct non-empty tokens |
| Storage.AdditionsOwnOrder | scoro/scoro.py:148-164 | with distinct orders, each index receives exactly the distinct non-empty tokens at the position of its own order, none twice |
| Storage.ReconciledSpec | scoro/scoro.py:162-167 | after the additions and the sort, words increase and are the old words plus the tokens; an existing word keeps its first term and flag, and a new word arrives checked |
| Catalog.TouchAll | scoro/scoro.py:303 | touching keeps every existing ledger as it is and makes each new one exist |
| Catalog.WiredApart | scoro/scoro.py:297-300 | in a valid catalog no two indexes share a ledger file |
| Catalog.WiredAppend | scoro/scoro.py:66 | appending an index with a new title and its touched ledger keeps the catalog valid |
| Catalog.WiredRemove | scoro/scoro.py:99-102 | removing an index and its ledger keeps the catalog valid |
| Catalog.WiredSorted | scoro/scoro.py:286 | sorting the indexes by order permutes them and keeps the catalog valid |
| Catalog.FirstLedgers | scoro/scoro.py:273-277 | the first loop of `renew` keeps `FirstPerTitle` of the listing |
| Catalog.Gather | scoro/scoro.py:148-159 | the storage loop yields a list per order, holding `Collected` for that order |
| Catalog.AppendPending | scoro/scoro.py:220-222 | the unchecked words of an index are appended to its order's list, and nothing else changes |
| Catalog.PullFile | scoro/scoro.py:226-233 | one stored file contributes its path once per matching position |
| Catalog.Scoro.constructor | scoro/scoro.py:16-27 | both directories end in exactly one `/`, empty ones take the defaults, and there are no indexes |
| Catalog.Scoro.ValidApart | scoro/scoro.py:297-303 | in a valid catalog every ledger exists, and no two indexes are one object or share a ledger file |
| Catalog.Scoro.IsIndex | scoro/scoro.py:190-198 | `is_index` is true exactly when some index has the title, ignoring case |
| Catalog.Scoro.Names | scoro/scoro.py:115-121 | one name per index: the title's prefix before its first `_`, the whole title when it has none |
| Catalog.Scoro.GetOpenOrder | scoro/scoro.py:123-138 | the loop returns `OpenOrder` of the indexes' orders |
| Catalog.Scoro.AddOne | scoro/scoro.py:49-66 | an empty title is refused and a known title changes nothing; otherwise one fresh, empty index with the given or open order is appended and its ledger touched |
| Catalog.Scoro.Append | scoro/scoro.py:66 | a new index is appended, empty and fresh, with its ledger touched |
| Catalog.Scoro.Include | scoro/scoro.py:70-72 | a list element is added with order -1 unless already known |
| Catalog.Scoro.AddMany | scoro/scoro.py:69-72 | the list's titles are added in turn; old indexes stay, new ones are fresh, and their ledgers are touched |
| Catalog.Scoro.AddIndex | scoro/scoro.py:49-77 | `add_index` refuses an empty argument; the slots become `AddTitles` of the old ones, the catalog stays valid, and only the new ledgers appear |
| Catalog.Scoro.Settle | scoro/scoro.py:41-47 | every index is left in `sort_contents` form with its ledger holding exactly its terms; no ledger is created or removed and no other file changes |
| Catalog.Scoro.Reset | scoro/scoro.py:257-262 | every index is emptied and its ledger truncated; no other file changes |
| Catalog.Scoro.FindDoomed | scoro/scoro.py:91-97 | the search loop finds `FirstDoomed` |
| Catalog.Scoro.DeleteOne | scoro/scoro.py:79-102 | an empty or unmatched title is refused and nothing changes; otherwise exactly the first matching index and its ledger go, the others keep their order |
| Catalog.Scoro.DeleteIndex | scoro/scoro.py:79-105 | `delete_index` refuses an empty argument or an unmatched title; the slots become `DeleteTitles` of the old ones, and exactly the ledgers of removed indexes are deleted |
| Catalog.Scoro.RegisterNext | scoro/scoro.py:280-283 | one ledger name is skipped when already an index's, fails without `_` or with a non-integer order, and is otherwise added with its title and order |
| Catalog.Scoro.Register | scoro/scoro.py:280-283 | the loop gives `RegisterAll` of the names, stopping at the first error, and touches only the new ledgers |
| Catalog.Scoro.SortByOrder | scoro/scoro.py:286 | the in-place sort makes the slots the stable sort by order and permutes the index objects |
| Catalog.Scoro.RenewAll | scoro/scoro.py:289-290 | every index then holds `Decode` of its ledger |
| Catalog.Scoro.Renew | scoro/scoro.py:264-290 | the slots and error are `Renewed` of the old slots and no old index is dropped; without an error every index holds what its ledger reads as, and with one no old index's terms change; only new ledgers are touched |
| Catalog.Scoro.Reconcile | scoro/scoro.py:147-167 | each index holds `Reconciled` of what its ledger reads as and its `Additions` |
| Catalog.Scoro.ReconcileFrom | scoro/scoro.py:147-167 | from the terms the indexes hold, each gets its additions as checked terms, then `sort_contents` |
| Catalog.Scoro.RefreshIndexesList | scoro/scoro.py:140-167 | `renew`, then, unless it failed, every index holds `Reconciled` of its ledger's terms and its additions; with an error no old index's terms change; no old index is dropped and only new ledgers are touched |
| Catalog.Scoro.GatherPending | scoro/scoro.py:217-222 | the first loop of `pull` builds the dict of unchecked words by order |
| Catalog.Scoro.Pull | scoro/scoro.py:211-234 | `pull` returns `Storage.Pull` of the indexes and the listing |
| Catalog.Scoro.SettleReconciled | scoro/scoro.py:41-47 | settling reconciled indexes keeps each one's terms as `Reconciled` of what its ledger held before the ledgers were touched, and leaves every other file as it was |
| Catalog.Scoro.RefreshAndSettle | scoro/scoro.py:35-37 | after `refresh_indexes_list` and `settle` the slots are `Renewed`; without an error every index holds `Reconciled` of what its ledger held before the call (nothing for a new one) and its additions, and its ledger holds exactly its terms; with an error the old indexes keep their terms and ledgers are only touched; only the indexes' ledgers may be new or rewritten |
| Catalog.Scoro.Initialise | scoro/scoro.py:32-39 | after the initial titles are added, the slots are `Renewed`; a reset catalog is settled with every index holding `Reconciled` of what its ledger held before (nothing for a new one) and its additions, otherwise every index holds what its ledger held before; only the indexes' ledgers may be new or rewritten, and only touched without a reset or after an error |

## Left out

- Filesystem effects are modelled through the `Disk` map and listings given as inputs. `mkdir` of the two directories (`scoro/scoro.py:29-30`) and the order in which `glob` lists files are not modelled: the listing order is an input.
- `Path(...).stem` is not reimplemented. The ledger names and storage stems arrive already taken from their paths.
- Printing is not modelled: `post` on `Scoro` and `Index`, and the `print` diagnostics.
- `Scoro.uncheck` is left out because it is an unfinished stub that changes nothing.
- `Index.get_contents` is left out because nothing calls it.
- `Scoro.get_contents`, `get_index_content`, `get_indexes_list`, `Index.path` and `get_order` are plain accessors and are left out.
- The `__main__` demo is left out.
- `str.lower` folds ASCII letters only. Python folds all of Unicode.
- `int()` accepts ASCII whitespace, an optional sign and ASCII digits. It does not model underscores in numbers, non-ASCII digits, or the Unicode whitespace Python also strips (such as `\xa0` and `\x85`): a ledger order padded with those is read as an error here and as a number by Python.
- `list(set(...))` has no fixed order in Python. The model takes first-occurrence order; `Storage.AdditionsOwnOrder` is about membership only, so it holds for any order.
- A title passed to `add_index` or `delete_index` that is neither a string nor a list is not modelled (the `Titles` datatype has only the two cases).
- Catalog.Scoro.AddIndex: does not promise that each new index starts empty when a list is given, only that each is fresh; `Append` and `AddOne` state that it is empty.
- Catalog.Scoro.AddMany: does not promise that the new indexes are empty, for the same reason.
- Catalog.Scoro.Include: does not promise that the new index is empty, for the same reason.
- `sort_contents` removes from the list it is iterating, in place. The model follows the same first-match join on values (`Indexes.SortTerms` over a sequence of unused terms). It does not reproduce the iterator effects of removing during a `for` loop, which do not arise because the loop breaks right after the removal.
- `refresh_indexes_list` pairs the gathered lists with the indexes by position in the list. The model keeps that pairing literally. Its agreement with the index of the same order is proved only for distinct orders.
- The model does not track file handles left open by `open(...)` without `close`.
- Catalog.Scoro.AddOne: `Path.touch` raises for a title holding `/` (a missing directory) or a NUL character, and then `add_index` appends nothing and the exception escapes; the model has no such failure and appends the index. Path validity belongs to the file system, which is not modelled.
- Words.Quicksort: Python's recursion limit (about 1000 frames) is not modelled. `sort_contents` after `renew_contents` sees words already in order, so each call peels off one word and more than about 1000 distinct words raise RecursionError; the model sorts any number.
