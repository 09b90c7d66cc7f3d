# BinaryBlast in Dafny

A model of `BinaryBlast`, a reader for compiled protein BLAST databases. A
database is three files: the index (`.pin`), the residue bytes (`.psq`) and
the header blobs (`.phr`). The model takes the three files as byte strings
and treats every `seek` followed by `read` as a slice. It covers:

- **Index parsing** (`IndexLayout`, `BinaryBlast.Database.constructor`). The
  title length is read at offset 8 and the title follows it at offset 12.
  The timestamp length follows the title. The sequence count is read at
  `t + s + 16`. The header table starts at `t + s + 32` and the sequence
  table `4 * (count + 1)` bytes later. Every integer is 4-byte big-endian
  unsigned (`Bytes.U32At`). Each table stores `count + 1` cumulative
  offsets. It becomes `count` ranges `(start, length)`. A sequence range is
  one byte shorter than the difference, because of the NUL byte that ends
  each stored sequence.
- **Residue translation** (`ProteinCode`). Each byte `a` becomes
  `PROTEIN_CODE[a]` in the 28-letter alphabet. The first byte of value 28 or
  more is an error.
- **Lazy lookup** (`HeaderLookup.FirstHeaderWith`, `GetPosition`). This is a
  scan in table order for the first header whose bytes contain
  `gi|<seqid>|`. Its result is that record's sequence range, or nothing.
- **Eager dictionary** (`HeaderLookup.EagerIndex`, `ReadHeaders`). Each
  header is searched for the leftmost match of `gi\|(\d{1,9})\|`
  (`GiPattern`). The matched digits map to that record's sequence range, and
  later headers overwrite earlier ones. A header without a match is an
  error.
- **`get_seq`** (`GetSeq`). It looks up the position and then translates
  the bytes of that range.

Below, the *gi token* of an identifier `d` means the bytes `gi|`, then `d`,
then `|`.

The Python class raises exceptions. The model returns `Result` and `Option`
values instead (`BinaryBlast.Error`):

- `ResidueOutOfRange` is the `IndexError` from `PROTEIN_CODE[a]`.
- `NoGiInHeader` is the `AttributeError` on `found.groups()`.
- `KeyNotFound` is the dictionary's `KeyError`.
- `PositionIsNone` is the `TypeError` raised by `pos[0]` (line 98) when
  `get_seq` passes the `None` from `__get_position` to
  `__get_seq_by_position`.

`__init__` runs `__read_headers` when `load_headers` is set. That call can
fail. A Dafny constructor cannot fail, so the model splits the work in two.
The constructor does the index parse of lines 35-56. `Database.Open` runs
the constructor and then, in eager mode, `ReadHeaders`, and returns the
failure if there is one.

Three facts about the code shape the model:

- The sequence count is read at the absolute offset `t + s + 16`, directly
  after the timestamp (line 42).
- Identifiers come only from the regular expression at line 65 and the
  substring test at line 87. The docstring at line 62 speaks of a
  "visible string" field, but no field of the header is decoded.
- `__read_headers` takes one `search` per header and, through
  `found.groups()`, records only the digits of its leftmost match (lines
  70-73). A second gi token in the same header is not a dictionary key,
  although the lazy scan finds it. `EagerIndex` models this, and
  `EagerAgreesWithLazy` assumes the leftmost match for that reason.

## Model

| member | source | states |
|---|---|---|
| `Bytes.FromBytesBig` | BinaryBlast.py:38 | `int.from_bytes(s, 'big')` of `n` bytes is below `256^n` |
| `Bytes.U32At` | BinaryBlast.py:38-48 | a 4-byte read at `off` is `b0*2^24 + b1*2^16 + b2*2^8 + b3` and is below `2^32` |
| `Bytes.Be32Decodes` | BinaryBlast.py:38 | decoding the 4-byte big-endian encoding of a 32-bit value gives the value back |
| `Bytes.U32AtEncodes` | BinaryBlast.py:38 | encoding a decoded 4-byte integer gives the same 4 bytes back |
| `Bytes.AsciiDecode` | BinaryBlast.py:39 | the decoded title has one character per byte, with that byte's code |
| `ProteinCode.Translate` | BinaryBlast.py:98-100 | succeeds iff every byte is below 28; the result has the input's length and letter `k` is `PROTEIN_CODE[byte k]`; on failure it names the first byte of value 28 or more |
| `ProteinCode.CodeOf` | BinaryBlast.py:13-14 | the byte for a letter indexes that letter in the table; a letter with no byte is not in the table |
| `ProteinCode.AlphabetDistinct` | BinaryBlast.py:13-14 | no letter occurs twice in the 28-letter table |
| `ProteinCode.TranslateEncode` | BinaryBlast.py:100 | translating the bytes of an encodable residue string gives that string back |
| `ProteinCode.EncodeTranslate` | BinaryBlast.py:100 | encoding the translation of valid residue bytes gives those bytes back |
| `GiPattern.DigitRun` | BinaryBlast.py:65 | the run from `i` is all digits and is followed by a non-digit or by the end |
| `GiPattern.MatchAtIff` | BinaryBlast.py:65 | `MatchAt` captures `d` at `p` iff the gi token of `d` occurs at `p` and `d` is 1 to 9 digits (both directions) |
| `GiPattern.MatchContainsToken` | BinaryBlast.py:65 | a regex match with digits `d` is an occurrence of the gi token of `d` |
| `GiPattern.SearchFrom` | BinaryBlast.py:70 | the result matches, and no earlier position from `p` on matches; no result means no position matches |
| `GiPattern.SearchIsLeftmost` | BinaryBlast.py:65-70 | `search` returns a match of the pattern with no match at an earlier position, and returns nothing iff the pattern matches nowhere |
| `GiPattern.DecimalDigits` | BinaryBlast.py:87 | `str(n)` of a natural number is one or more digits with no leading zero |
| `GiPattern.DecimalDigitsRoundTrip` | BinaryBlast.py:87 | reading back the decimal digits of `n` gives `n` |
| `IndexLayout.Intervals` | BinaryBlast.py:46-56 | `k + 1` cumulative offsets become exactly `k` ranges |
| `IndexLayout.IntervalsAt` | BinaryBlast.py:46-56 | range `j` is `(c[j], c[j+1] - c[j] - drop)` |
| `IndexLayout.IntervalsTile` | BinaryBlast.py:46-56 | range `j + 1` starts at start + length + `drop` of range `j` |
| `IndexLayout.IntervalsOrdered` | BinaryBlast.py:46-56 | when no range has negative length, every earlier range ends `drop` bytes or more before a later one starts |
| `IndexLayout.IntervalsExample` | BinaryBlast.py:46-56 | offsets `[0,20,45]` give `[(0,20),(20,25)]`; sequence offsets `[0,31,67]` give `[(0,30),(31,35)]` |
| `IndexLayout.HeaderTable` | BinaryBlast.py:46-50 | the header table has exactly `sequence_number` ranges |
| `IndexLayout.SequenceTable` | BinaryBlast.py:52-56 | the sequence table has exactly `sequence_number` ranges |
| `IndexLayout.HeaderEntryAt` | BinaryBlast.py:44-50 | header range `j` is `(c[j], c[j+1] - c[j])` with `c[k]` the integer at `t + s + 32 + 4k` |
| `IndexLayout.SequenceEntryAt` | BinaryBlast.py:44-56 | sequence range `j` is `(d[j], d[j+1] - d[j] - 1)` with `d[k]` read `4 * (count + 1)` bytes after the header table |
| `IndexLayout.HeaderTableTiles` | BinaryBlast.py:46-50 | header range `j + 1` starts where header range `j` ends |
| `IndexLayout.SequenceTableTiles` | BinaryBlast.py:52-56 | sequence range `j + 1` starts one separator byte after sequence range `j` ends |
| `IndexLayout.ReadOffsetTable` | BinaryBlast.py:46-56 | the read-once-then-loop accumulation yields the ranges of the `n + 1` stored offsets and leaves the cursor `4 * (n + 1)` bytes on |
| `IndexLayout.ReadIndex` | BinaryBlast.py:37-56 | the title, the count and both offset tables read with a moving cursor are exactly those the index layout defines (title at 12, count at `t + s + 16`, tables from `t + s + 32` on) |
| `HeaderLookup.FirstHeaderWith` | BinaryBlast.py:84-88 | the result is the smallest header index whose bytes contain the needle; nothing means no header contains it |
| `HeaderLookup.EagerIndex` | BinaryBlast.py:66-73 | fails exactly at the first header without a match; on success every header matched |
| `HeaderLookup.EagerFailsAt` | BinaryBlast.py:70-71 | once a header has no match, building the dictionary fails at that header whatever follows |
| `HeaderLookup.EagerEntrySource` | BinaryBlast.py:71-73 | every dictionary key is the digits of some header, and its value is that header's sequence range |
| `HeaderLookup.EagerHasKey` | BinaryBlast.py:71-73 | the digits of every header are a key of the dictionary |
| `HeaderLookup.EagerLastWins` | BinaryBlast.py:67-73 | a header's digits map to its sequence range when no later header has the same digits (later headers overwrite) |
| `HeaderLookup.EagerAgreesWithLazy` | BinaryBlast.py:81-88 | when exactly one header contains the gi token of `id` and its leftmost match is `id`, the dictionary and the scan give the same sequence range |
| `HeaderLookup.TwoGiHeader` | BinaryBlast.py:70-73 | for the header `gi` `1` then `gi` `2`, the dictionary has only the leftmost digits `1` as a key while the lazy scan also finds the gi token of `2` |
| `BinaryBlast.Database.constructor` | BinaryBlast.py:35-56 | title, count and both offset tables are those the index layout defines; the dictionary starts empty; in lazy mode the object is already valid |
| `BinaryBlast.Database.ReadHeaders` | BinaryBlast.py:60-73 | on success the dictionary is the one built from every header; otherwise it fails at the first header without a match, with the entries read before it |
| `BinaryBlast.Database.Open` | BinaryBlast.py:16-58 | opening fails iff eager mode is on and some header has no match; an opened database has its index parsed and, in eager mode, its full dictionary |
| `BinaryBlast.Database.GetPosition` | BinaryBlast.py:75-88 | eager mode gives the dictionary entry or a key error; lazy mode gives the sequence range of the first header containing the gi token of `seqid`, or nothing |
| `BinaryBlast.Database.SequenceAt` | BinaryBlast.py:92-100 | succeeds iff every byte of the range is below 28; letter `k` is `PROTEIN_CODE` of byte `start + k`; the length is the range's length |
| `BinaryBlast.Database.GetSeq` | BinaryBlast.py:102-108 | the translation of the looked-up range; a key error in eager mode; a `None` position in lazy mode is an error |

## Left out

- Opening the files, `os.path.abspath` and the extension names (lines 26-32) are I/O. The three files are parameters, given as byte strings.
- The file objects' read positions are not modelled. Each `seek` and `read` pair is a slice of the whole file.
- Short reads at the end of a file yield fewer bytes, and so wrong integers. These are excluded by preconditions: `IndexWellFormed` for the index, and `AllInBounds` for every range of both tables. The source reads only the header ranges it scans and the one sequence range it looks up, so these preconditions demand more than the reads touch.
- Those same preconditions exclude a negative read length. A sequence range with `d[j+1] == d[j]` has length -1, and `read(-1)` reads to the end of the file.
- A title that is not ASCII makes `decode` fail. `IndexWellFormed` excludes it by precondition; it is not modelled as an error.
- Only the one regular expression `gi\|(\d{1,9})\|` is modelled, as a function over bytes. The general regex engine is not.
- The dictionary built by `__read_headers` has `bytes` keys, but `get_seq` is documented to take an `int`. The model looks the dictionary up with the ASCII decimal form of the identifier, so it does not reproduce the key error that an `int` argument always meets.
- `__next__` (lines 111-112) is an empty stub, so it has no behaviour to model. Sequential iteration does not exist in the code.
- Nucleotide databases are mentioned in the docstring but not implemented.
- Python's exceptions become `Result` and `Option` values. When `__read_headers` fails, the model returns the error and no database object.
