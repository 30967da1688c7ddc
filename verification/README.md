# kanji-colorize: character resolution and batch selection, in Dafny

kanji-colorize turns the KanjiVG/HanziVG stroke-path corpus into coloured
stroke-order diagrams. This project models the part of it that decides
*which* document is read and *which* files are written:

- **Filename codec** (`hex.dfy`, `codec.dfy`). A character is stored under its
  *ascii filename*: its code point as a lower-case hex numeral, zero-padded to
  at least five digits and never truncated. A `-variant` suffix follows when a
  variant is given, then `.svg`. So 椅 (U+6905) is stored as `06905.svg`. Its
  output is written under its *character filename*, `椅.svg`. Decoding parses
  `<hex>[-<variant>].svg` back into a character and a variant. It rejects
  every other shape, and also a well-shaped name whose numeral is not a
  Unicode scalar value (a surrogate such as `0d800.svg`, or `110000.svg`).
- **Resolution** (`resolver.dfy`). `KanjiVG(character, variant)` is modelled
  as `Resolve`, a pure function returning a `Result`. The corpus directory is
  a map from filename to what reading the file yields: contents, not found, or
  an I/O fault. A wrong-length argument, an explicitly empty variant and a
  missing file all fail with `InvalidCharacter(character, variant)`. That
  error echoes the caller's inputs. Any other read fault comes back unchanged
  as `IOError`. `_create_from_filename` is `ResolveByFilename`. `get_all` is
  `GetAll` over a directory listing.
- **Batch selection** (`batch.dfy`). `write_all` is modelled as the list of
  output filenames it writes, in order. With a character list, each character
  that resolves gets `<char>.svg`. A character that is unknown, or has a
  malformed argument, is skipped. A read fault other than "not found"
  aborts the run with that fault. Without a list, every `get_all` document
  gets one.
- `scenarios.dfy` restates the test suite's concrete cases over the model.

The model follows the behaviour the program's test suite asserts. Where the
tests leave a choice open, it makes the choices below:

- Decoding accepts as numeral a non-empty run of hex digits of either
  case, of any length.
- A `-` with nothing after it is malformed.
- The variant argument is an `Option`. `None` means no variant was
  supplied, and the document's variant is then `""`. `Some("")` is an
  explicit empty variant, which is refused.

The tests at `test_colorizer.py:89-105` pass one tuple argument rather
than two arguments. As written, they exercise the length-not-one rule, not
the mismatched-variant or explicit-empty-variant rules. `Scenarios.BadArguments`
states the explicit-empty rule as designed; no test checks it on its own.

## Model

| member | source | states |
|---|---|---|
| Hex.Encode | kanjicolorizer/tests/test_colorizer.py:161-163 | the filename numeral is lower-case hex, exactly max(5, digit count) long, and ends with the full unpadded numeral (padding never truncates) |
| Hex.Decode | kanjicolorizer/tests/test_colorizer.py:149-156 | a numeral is accepted exactly when it is a non-empty string of hex digits |
| Hex.DecodeEncode | kanjicolorizer/tests/test_colorizer.py:161-163 | round trip: parsing the filename numeral of n gives back n |
| Hex.EncodeInjective | kanjicolorizer/tests/test_colorizer.py:161-163 | distinct code points get distinct numerals |
| Hex.EncodeWidth | kanjicolorizer/tests/test_colorizer.py:161-163 | the numeral is never shorter than 5 digits, and is exactly 5 digits iff the code point is below 0x100000 |
| Hex.EncodeValue | kanjicolorizer/tests/test_colorizer.py:122-125 | re-encoding a parsed canonical numeral gives the same numeral |
| Hex.DigitsOfValue | kanjicolorizer/tests/test_colorizer.py:122-125 | a numeral without a leading zero is the shortest numeral of its own value |
| Hex.DigitsFit | kanjicolorizer/tests/test_colorizer.py:161-163 | n needs at most k digits iff n < 16^k |
| Codec.DecodeAsciiFilename | kanjicolorizer/tests/test_colorizer.py:122-125 | round trip: decoding the ascii filename of (c, v) yields (c, v), for every variant including the empty one |
| Codec.DecodeWellFormed | kanjicolorizer/tests/test_colorizer.py:122-125 | every `<hex>[-<variant>].svg` name decodes to the numeral's code point and the variant, or fails when the value is not a Unicode scalar |
| Codec.DecodeSound | kanjicolorizer/tests/test_colorizer.py:149-156 | every accepted name has the shape `<hex>[-<variant>].svg` with the decoded code point as the numeral's value |
| Codec.EncodeDecoded | kanjicolorizer/tests/test_colorizer.py:122-125 | a name with a canonical numeral is the ascii filename of what it decodes to |
| Codec.DecodeRequiresExtension | kanjicolorizer/tests/test_colorizer.py:149-156 | a name without `.svg` (such as `5b57`) is rejected |
| Codec.DecodeRejectsEmptyVariant | kanjicolorizer/tests/test_colorizer.py:149-156 | a dash with no variant after it is rejected |
| Codec.AsciiFilenameShape | kanjicolorizer/tests/test_colorizer.py:161-163 | `ascii_filename` is a lower-case hex numeral of at least five digits whose value is the character's code point, then the variant suffix, then `.svg` |
| Codec.AsciiFilenameInjective | kanjicolorizer/tests/test_colorizer.py:161-163 | no two (character, variant) pairs share an ascii filename |
| Codec.CharacterFilenameStartsWithCharacter | kanjicolorizer/tests/test_colorizer.py:176-178 | the character filename starts with the character; without a variant it is the character followed by `.svg` |
| Codec.CharacterFilenameInjective | kanjicolorizer/tests/test_colorizer.py:176-178 | no two (character, variant) pairs share an output filename |
| Resolver.Resolve | kanjicolorizer/tests/test_colorizer.py:34-44 | a resolved document carries the caller's character and the requested variant (empty when none was given), and its text is that of the file under its ascii filename; every failure is InvalidCharacter with the caller's inputs, or an I/O error |
| Resolver.ResolveSucceedsIff | kanjicolorizer/tests/test_colorizer.py:34-44 | resolution succeeds iff the arguments are valid and the ascii-named file has contents, and it then yields exactly (character, variant, that file's text) |
| Resolver.ResolveReadsOwnEntry | kanjicolorizer/tests/test_colorizer.py:39-44 | the outcome depends on the corpus only through the file named by the character's ascii filename |
| Resolver.ResolveValidatesFirst | kanjicolorizer/tests/test_colorizer.py:73-105 | a wrong-length character or an explicit empty variant fails with InvalidCharacter(character, variant) whatever the corpus holds, so before any read |
| Resolver.ResolveNotFound | kanjicolorizer/tests/test_colorizer.py:64-87 | an unknown character or variant fails with InvalidCharacter carrying the caller's character and variant |
| Resolver.ResolvePropagatesFaults | kanjicolorizer/tests/test_colorizer.py:107-117 | resolution fails with IOError(f) iff the arguments are valid and reading the file faulted with f: faults pass unchanged and never become InvalidCharacter |
| Resolver.ResolveByFilename | kanjicolorizer/tests/test_colorizer.py:140-156 | a name fails as malformed iff it does not decode; a success is the document the name decodes to |
| Resolver.ResolveByAsciiFilename | kanjicolorizer/tests/test_colorizer.py:122-125 | resolving by a document's ascii filename is resolving its character and variant |
| Resolver.GetAll | kanjicolorizer/tests/test_colorizer.py:187-193 | on success, one document per listed file, in listing order, each the resolution of its file; a failure is the failure of some listed file |
| Resolver.LoadAll | kanjicolorizer/tests/test_colorizer.py:187-193 | the enumeration behind get_all, for any loader: on success one document per listed name, in order, each what the loader yields for it; a failure is the loader's failure on some listed name |
| Resolver.EnumerationSize | kanjicolorizer/tests/test_colorizer.py:187-189 | a duplicate-free listing of the corpus files is exactly as long as the corpus |
| Resolver.ResolveWellFormedEntry | kanjicolorizer/tests/test_colorizer.py:187-193 | in a well-formed corpus, resolving a file by its name loads that very file |
| Resolver.GetAllComplete | kanjicolorizer/tests/test_colorizer.py:187-193 | over a well-formed corpus, get_all succeeds with exactly as many documents as corpus files, the i-th loaded from the i-th listed file, each a successful resolution of its own character and variant |
| Batch.WritableIffContents | kanjicolorizer/tests/test_colorizer.py:297-307 | a character gets an output file iff its document file has contents, and counts as faulting iff reading it faulted (that a fault aborts the run is `WriteAll`'s contract) |
| Batch.SelectionConcat | kanjicolorizer/tests/test_colorizer.py:297-307 | the batch output of a concatenated list is the concatenation of the outputs: each character is handled independently |
| Batch.SkipsInvalid | kanjicolorizer/tests/test_colorizer.py:297-307 | inserting an invalid character anywhere, before or after valid ones, leaves the output unchanged |
| Batch.SelectionMembers | kanjicolorizer/tests/test_colorizer.py:262-286 | a file `<c>.svg` is written iff c is in the list and resolves |
| Batch.Selection | kanjicolorizer/tests/test_colorizer.py:262-307 | reference for what `write_all` writes from a list: never more files than characters (membership, independence per character and skipping are the lemmas `SelectionMembers`, `SelectionConcat`, `SkipsInvalid`) |
| Batch.Written | kanjicolorizer/tests/test_colorizer.py:262-307 | the same reference over any per-character lookup: never more files than characters |
| Batch.SelectionAllWritable | kanjicolorizer/tests/test_colorizer.py:275-286 | when every character resolves, exactly one file per character, in input order |
| Batch.SelectionOfOne | kanjicolorizer/tests/test_colorizer.py:262-273 | a single resolvable character writes exactly its own file and nothing else |
| Batch.SelectionOfTwo | kanjicolorizer/tests/test_colorizer.py:275-286 | two resolvable characters give their two files, in order |
| Batch.WriteCharacters | kanjicolorizer/tests/test_colorizer.py:262-307 | for any per-character lookup: when no lookup faults, the output is the filter-then-name reference `Written`; when some lookup faults, the run fails, with the fault of the first character whose lookup faulted |
| Batch.OutputNames | kanjicolorizer/tests/test_colorizer.py:251-260 | one output filename per document, in order |
| Batch.SelectionSkipsNeighbour | kanjicolorizer/tests/test_colorizer.py:297-307 | a valid character next to an invalid one, on either side, is written alone |
| Batch.WriteAll | kanjicolorizer/tests/test_colorizer.py:251-307 | with a list and no read faults, the output is `Selection`; when some character's read faults, the run fails, with the I/O fault of the first faulting character; without a list, succeeds iff get_all does, writing one file per get_all document, in order |
| Scenarios.FilenamesOfChair | kanjicolorizer/tests/test_colorizer.py:161-178 | 椅 has ascii filename `06905.svg` and character filename `椅.svg` |
| Scenarios.DecodeExamples | kanjicolorizer/tests/test_colorizer.py:122-156 | `06905.svg` decodes to (椅, ""); `5b57` is rejected |
| Scenarios.CreateChairFromFilename | kanjicolorizer/tests/test_colorizer.py:122-125 | resolving `06905.svg` yields 椅 with an empty variant |
| Scenarios.MissingFileFails | kanjicolorizer/tests/test_colorizer.py:140-147 | resolving `10000.svg` with no such file fails |
| Scenarios.ResolveGo | kanjicolorizer/tests/test_colorizer.py:34-44 | 去 resolves to the document stored under `053bb.svg`, with an empty variant |
| Scenarios.UnknownCharacter | kanjicolorizer/tests/test_colorizer.py:64-71 | Л, absent from the corpus, fails with InvalidCharacter("Л", "") |
| Scenarios.FilenameOfCharacterVariant | kanjicolorizer/tests/test_colorizer.py:79-87 | 字 with variant gobbledygook is looked up as `05b57-gobbledygook.svg` |
| Scenarios.UnknownVariant | kanjicolorizer/tests/test_colorizer.py:79-87 | 字 with unknown variant gobbledygook fails with InvalidCharacter("字", "gobbledygook") |
| Scenarios.BadArguments | kanjicolorizer/tests/test_colorizer.py:73-105 | `漢字`, the empty string and 字 with an explicit empty variant each fail with InvalidCharacter, whatever the corpus |
| Scenarios.PermissionDenied | kanjicolorizer/tests/test_colorizer.py:107-117 | a permission fault reading `a`'s file comes back as IOError(31, "Permission denied") |
| Scenarios.WritesTwo | kanjicolorizer/tests/test_colorizer.py:275-286 | `漢字` writes `漢.svg` then `字.svg` |
| Scenarios.InvalidBeforeOrAfter | kanjicolorizer/tests/test_colorizer.py:297-307 | `あЛ` and `Лあ` both write exactly `あ.svg` when Л is unknown |

## Left out

- Stroke-structure parsing, colour assignment and rendering of the SVG are
  not modelled. They concern the drawing, not which files are read and
  written.
- File I/O. The corpus directory becomes a map from filename to read
  outcome. The directory listing used by `get_all` becomes a parameter.
  Writing output files becomes the list of names written.
- Command-line parsing of `--characters` into the settings. It is argument
  plumbing. The character list reaches `WriteAll` as an `Option`.
- The concrete corpus: its size (345 entries) and which characters it
  holds. The corpus is a parameter of every operation. The scenario lemmas
  constrain only the entries they touch.
- The text of the exception message (`repr` of the arguments). The error
  value carries the same two arguments.
- The test that is expected to fail under mocking (`test_colorizer.py:288-295`).
- The disabled variant and five-digit cases. The codec handles a variant
  suffix and numerals longer than five digits, but no property here comes
  from those disabled tests.
- Passing `None` as the variant, and the character filename's form for a
  variant (`字-Kaisho.svg`). The first is modelled as "no variant" and the
  second as `<char>-<variant>.svg`, but both come only from disabled tests.
- Resolver.GetAll: the recommended ascending-code-point order is not
  imposed. Documents come back in the order of the directory listing given.
- Codec.Decode: a name whose numeral is a surrogate code point or lies
  above U+10FFFF is rejected as malformed. A Python `str` can hold a lone
  surrogate, but a Dafny `char` cannot, so such names have no document
  here.
- Hex.Decode: base-16 parsing in Python also accepts a `0x` prefix, `_`
  separators, surrounding whitespace and a sign. The numeral here is a
  plain run of hex digits, and names in those forms are rejected.
