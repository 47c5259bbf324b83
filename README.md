# Condensing two address snapshots

The repository `logik-juicebox` keeps a small Python utility,
`meta/condensee-address-lists.py`, that compares two snapshots of wallet
addresses (one address per line). It reads each snapshot, strips every line
with Python's `str.strip()`, keeps every distinct address once in the order
it first appears and counts them. It then lists, in the order of the second
snapshot, the addresses that the first snapshot does not have, and counts
those. This project models that utility in Dafny and proves what its lists
and counters hold.

The rest of the repository (the Hardhat configuration and the deploy
script) is declarative configuration and a thin wrapper over network calls.
It is not modelled; see "Left out". The model follows the Python code,
which is the only part with decision logic.

Files:

- `strip.dfy`, module `PyStrip`: `str.strip()` with no argument, over
  Python's whitespace set (`str.isspace()`: TAB to CR, FS/GS/RS/US, SPACE,
  NEL, NO-BREAK SPACE and the Unicode space and line/paragraph separators).
  It is defined by the first and last non-whitespace positions. Lemmas say
  that it removes only whitespace at the two ends, that it is the only such
  cut, and that it is idempotent.
- `seqviews.dfy`, module `SeqViews`: the reference definitions of the two
  lists the script builds. `Distinct(s)` keeps each entry at its first
  occurrence. `Difference(b, a)` keeps the entries of `b` that are not in
  `a`, in `b`'s order. `OrderedBy(r, s)` says that `r` lists its entries in
  order of first appearance in `s`. The lemmas prove that each list is the
  unique list with its entries in that order, and relate its length to the
  set of entries.
- `condense.dfy`, module `CondenseAddressLists`: the script's loops as
  methods. `ReadSnapshot` is the strip-and-dedupe loop, used for both
  snapshots. `NewAddresses` is the comparison loop. `Condense` is the whole
  run. Each method is proved against the reference functions, and its
  contract also states the properties directly.

## Model

| member | source | states |
|---|---|---|
| `PyStrip.IsSpace` | meta/condensee-address-lists.py:12 | the whitespace set that `line.strip()` removes, the same as Python's `str.isspace()` table (0x09-0x0D, 0x1C-0x20, 0x85, 0xA0, 0x1680, 0x2000-0x200A, 0x2028, 0x2029, 0x202F, 0x205F, 0x3000): it holds SPACE, TAB, LF and CR, never holds a letter or digit (so no address character is stripped), and holds nothing above U+3000 |
| `PyStrip.SkipSpace` | meta/condensee-address-lists.py:12 | the first non-whitespace position at or after `i`: everything skipped is whitespace, and it stops at the end or at a non-whitespace character |
| `PyStrip.SkipSpaceBack` | meta/condensee-address-lists.py:12 | the position just past the last non-whitespace character before `j`: everything skipped is whitespace, and it stops at `lo` or after a non-whitespace character |
| `PyStrip.Strip` | meta/condensee-address-lists.py:12 | the stripped line has no whitespace at either end, is no longer than the line, and is empty exactly when the line is blank |
| `PyStrip.StripSpan` | meta/condensee-address-lists.py:12 | the stripped line is a contiguous slice `s[i..j]` of the line, and everything before `i` and from `j` on is whitespace |
| `PyStrip.StripUnique` | meta/condensee-address-lists.py:12 | any cut of a line into whitespace, a slice without edge whitespace, and whitespace gives exactly the stripped line |
| `PyStrip.StripIdempotent` | meta/condensee-address-lists.py:12 | stripping a stripped line changes nothing |
| `SeqViews.FirstIndex` | meta/condensee-address-lists.py:13-14 | the position where an entry first occurs: it holds the entry and no earlier position does |
| `SeqViews.Distinct` | meta/condensee-address-lists.py:11-16 | the deduplicated list has exactly the entries of its input and no entry twice |
| `SeqViews.Difference` | meta/condensee-address-lists.py:36-39 | the condensed list holds exactly the entries of the second list that are absent from the first, and is no longer than the second list |
| `SeqViews.DistinctOrdered` | meta/condensee-address-lists.py:13-14 | the deduplicated list keeps the order of first occurrence in the input |
| `SeqViews.DifferenceOrdered` | meta/condensee-address-lists.py:36-38 | when the second list has no repeats, the condensed list keeps its order |
| `SeqViews.OrderedUnique` | meta/condensee-address-lists.py:13-14 | two lists with the same entries, both in order of first appearance in the same input, are equal |
| `SeqViews.DistinctCharacterized` | meta/condensee-address-lists.py:11-16 | any list holding every input entry, in order of first appearance, is the deduplicated list |
| `SeqViews.DifferenceCharacterized` | meta/condensee-address-lists.py:36-39 | any list holding exactly the entries of a repeat-free second list absent from the first, in its order, is the condensed list |
| `SeqViews.DistinctCount` | meta/condensee-address-lists.py:9-16 | the deduplicated list has one entry per distinct input entry |
| `SeqViews.DistinctOfDistinctFree` | meta/condensee-address-lists.py:13-14 | deduplicating a list without repeats returns it unchanged |
| `SeqViews.DistinctIdempotent` | meta/condensee-address-lists.py:11-16 | deduplicating twice is the same as deduplicating once |
| `CondenseAddressLists.StripAll` | meta/condensee-address-lists.py:11-12 | the per-line `line.strip()` of both read loops (also lines 24-25): one stripped line per input line, none with whitespace at its ends, and `""` exactly for a blank line |
| `CondenseAddressLists.StrippedLines` | meta/condensee-address-lists.py:12-14 | every stripped line has no edge whitespace, and a blank line strips to the empty address |
| `CondenseAddressLists.ReadSnapshot` | meta/condensee-address-lists.py:8-16 | `addresses` is the deduplicated list of stripped lines: exactly the stripped lines, no repeats, in order of first occurrence, none with edge whitespace, and `""` present when a line is blank; `counter` equals its length and the number of distinct stripped lines |
| `CondenseAddressLists.NewAddresses` | meta/condensee-address-lists.py:33-39 | `condensed` holds exactly the addresses of the second list that are not in the first, in the second list's order and without repeats when that list has none; `new_address_counter` equals its length and is at most the second list's length |
| `CondenseAddressLists.Condense` | meta/condensee-address-lists.py:6-39 | the whole run: the new addresses are exactly the stripped lines of the second snapshot that are not stripped lines of the first, each once, in order of first appearance in the second snapshot; their count equals the list's length and is at most the number of distinct addresses in the second snapshot |

## Left out

- Reading the files, `os.getcwd()` and all `print` output
  (meta/condensee-address-lists.py:4, 8, 21, 41-44) are I/O. A snapshot is
  given as the sequence of its lines, each with its terminator. Python's
  newline translation when reading a text file is not modelled.
- Line 7 of meta/condensee-address-lists.py leaves the file name
  `dream-chasers1.txt` unquoted. Python would evaluate it as an expression
  and raise a `NameError`. The model takes the evidently intended string
  literal; file names are not part of the model.
- The recorded output in the string at meta/condensee-address-lists.py:46-54
  is historical data, not behaviour.
- The linear `not in` scans (lines 13, 26, 37) are modelled as sequence
  membership; their cost is not modelled.
- `hardhat.config.js` is a static configuration object handed to the Hardhat
  toolchain, with plugin imports and environment reads. It has no decision
  logic to verify. Its `mainnet` entry signs with the staging private key
  (hardhat.config.js:68), which looks unintended; nothing in it is modelled.
- `scripts/deploy.js` is a thin wrapper over the contract factory, the deploy
  call and process exit. It performs network I/O and has no logic. The `gas`
  object it builds is never passed to `deploy`.
