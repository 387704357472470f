# nid identifier core in Dafny

A model of the core of `nid`, a Rust implementation of Nano IDs. A Nano ID is a
fixed-length string whose every byte is a symbol of a fixed ASCII alphabet.

- **Alphabets** (`alphabet.dfy`, module `Alphabet`). `AlphabetInner` holds the
  configured symbols and a 128-entry membership table derived from them.
  `New` is `AlphabetInner::new`: it runs the ASCII check of
  `assert_validity`, then marks each symbol in a fresh all-false table with a
  `while` loop. `Len`, `Get` and `Contains` are the lookups. The nine standard
  alphabets are constants built from the source's symbol strings by
  `FromSymbols`, the value that `new` computes; the source evaluates them at
  compile time.
- **Identifiers** (`nanoid.dfy`, module `Nanoid`). A `Nanoid` is its byte
  buffer `inner`. The length `N` and the alphabet `A`, which the source fixes
  as type parameters, are passed to each operation as `n` and `a`.
  `IsNanoid(id, n, a)` is the invariant of every live identifier: exactly `n`
  bytes, each ASCII and in `a`.
  - Generation: `NewWith` fills a buffer slot by slot and is proved equal to
    the specification `Generate`.
  - Parsing: `TryFromBytes` scans with an early return and is proved equal to
    `CheckBytes`. `TryFromStr` checks the length first.
  - Comparison: `Eq` and `Cmp` compare the buffers structurally. `Cmp` is
    proved to agree with a reference definition of lexicographic order.
- **Unit-test cases** (`nanoid_examples.dfy`) restate a selection of the
  source's concrete tests as lemmas.
- `bytes.dfy` holds the byte type, ASCII, and byte-string literals.
  `outcomes.dfy` holds `Option` and `Result`.

Modelling choices:
- A panic becomes an error value. `New` returns `None`, and `Generate`/`NewWith`
  return `Failure(EmptyRange)` or `Failure(NonAsciiSymbol)`.
- The random number generator becomes `draws`, the sequence of indices the
  sampler returned, each below `a.Len()` when the alphabet is non-empty.
- Text is the sequence of its UTF-8 bytes.

## Model

| member | source | states |
|---|---|---|
| Alphabet.AssertValidity | src/alphabet.rs:178-184 | returns true exactly when every symbol is ASCII; false stands for the panic |
| Alphabet.New | src/alphabet.rs:144-158 | panics exactly when some symbol is ≥ 128; otherwise keeps the symbols unchanged, `Len` is their count, and the table is true at `c < 128` exactly when `c` occurs among the symbols; the result equals `FromSymbols` |
| Alphabet.FromSymbols | src/alphabet.rs:59 | the compile-time alphabet of ASCII symbols keeps the symbols and satisfies `Valid`: `Contains(c)` iff `c` is a symbol, for every ASCII `c` |
| Alphabet.AlphabetInner.Len | src/alphabet.rs:162-164 | the count of configured symbols, duplicates included; for a valid alphabet never fewer than the bytes the table marks |
| Alphabet.AlphabetInner.Get | src/alphabet.rs:167-169 | for a valid alphabet, the symbol at any index below `Len` is ASCII and `Contains` holds of it (closure) |
| Alphabet.AlphabetInner.Contains | src/alphabet.rs:172-174 | defined only for ASCII bytes (128-entry table); for a valid alphabet, true exactly when the byte is one of the symbols |
| Alphabet.StandardSizes | src/alphabet.rs:193-203 | the nine standard alphabets have 64, 62, 58, 36, 36, 32, 32, 16 and 16 symbols |
| Alphabet.StandardEnds | src/alphabet.rs:206-224 | first and last symbol of each standard alphabet (`A`/`-`, `A`/`9`, …, `a`/`9`) |
| Alphabet.Base64UrlMembers | src/alphabet.rs:78-82 | Base64Url contains exactly `A-Z`, `a-z`, `0-9`, `_` and `-` |
| Alphabet.Base62Members | src/alphabet.rs:84-88 | Base62 contains exactly `A-Z`, `a-z`, `0-9` |
| Alphabet.Base58Members | src/alphabet.rs:90-94 | Base58 contains exactly `A-Z`, `a-z`, `0-9` minus `0`, `O`, `l`, `I` |
| Alphabet.Base36Members | src/alphabet.rs:96-100 | Base36 contains exactly `A-Z`, `0-9` |
| Alphabet.Base36LowercaseMembers | src/alphabet.rs:102-106 | Base36Lowercase contains exactly `a-z`, `0-9` |
| Alphabet.Base32Members | src/alphabet.rs:108-112 | Base32 contains exactly `A-Z`, `2-7` |
| Alphabet.Base32LowercaseMembers | src/alphabet.rs:114-118 | Base32Lowercase contains exactly `a-z`, `2-7` |
| Alphabet.Base16Members | src/alphabet.rs:120-124 | Base16 contains exactly `A-F`, `0-9` |
| Alphabet.Base16LowercaseMembers | src/alphabet.rs:126-130 | Base16Lowercase contains exactly `a-f`, `0-9` |
| Alphabet.StandardMembershipExamples | src/alphabet.rs:246-265 | the tested members and non-members, e.g. Base58 lacks `0` and Base62 lacks `-` |
| Alphabet.InnerExamples | src/alphabet.rs:286-315 | the alphabet `abc123XYZ#` has 10 symbols, `a` first, `#` last, contains `1` and not `0`; appending 0xa0 breaks the ASCII requirement |
| Nanoid.Generate | src/lib.rs:166-191 | with an empty alphabet the sampler panics, for every length; otherwise generation succeeds exactly when every drawn symbol is ASCII, and then byte `k` is `a.Get(draws[k])` for all `n` positions |
| Nanoid.NewWith | src/lib.rs:172-177 | the slot-by-slot fill loop with its ASCII assertion yields exactly `Generate` |
| Nanoid.GeneratedIsNanoid | src/lib.rs:172-177 | with a valid non-empty alphabet, generation never panics and its result satisfies the `Nanoid` invariant without being validated |
| Nanoid.Accepts | src/lib.rs:209 | the per-byte test, ASCII before membership; for a valid alphabet it holds exactly for the symbols |
| Nanoid.FirstRejected | src/lib.rs:208-212 | finds the first byte, left to right, that is non-ASCII or not in the alphabet, and finds none exactly when every byte passes |
| Nanoid.CheckBytes | src/lib.rs:207-218 | succeeds exactly when every byte passes and then wraps the bytes unchanged; otherwise the error is `InvalidCharacter` of the first failing byte |
| Nanoid.TryFromBytes | src/lib.rs:207-218 | the scanning loop with early return yields exactly `CheckBytes` |
| Nanoid.TryFromStr | src/lib.rs:194-204 | a length other than `n` gives `InvalidLength{n, length}` whatever the bytes; with length `n`, success exactly when every byte passes, else `InvalidCharacter` of the first failing byte; on success the identifier is valid and its text is the input |
| Nanoid.AsStr | src/lib.rs:232-235 | the text of a live `Nanoid<n, a>` is `n` ASCII bytes |
| Nanoid.AsStrIsAscii | src/lib.rs:232-235 | the text of a live identifier is all ASCII, which makes reading it without a UTF-8 check sound |
| Nanoid.ParseAsStr | src/lib.rs:232-235 | parsing the text of any live identifier gives back that identifier |
| Nanoid.GenerateParseRoundTrip | src/lib.rs:166-218 | a generated identifier's text parses back to an equal identifier |
| Nanoid.Eq | src/lib.rs:250-254 | two identifiers are equal exactly when their bytes are |
| Nanoid.Cmp | src/lib.rs:274-278 | `Equal` exactly for equal identifiers; `Less` exactly when the bytes are lexicographically smaller by the reference definition `LexLess` |
| Nanoid.CmpReverse | src/lib.rs:274-278 | swapping the arguments reverses the answer |
| Nanoid.CmpTransitive | src/lib.rs:274-278 | `Less` is transitive |
| Nanoid.LexCmp | src/lib.rs:276 | comparison of byte strings answers `Equal` only at equal lengths, and `Less` when the first is a proper prefix of the second |
| Nanoid.LexCmpEqual | src/lib.rs:276 | byte comparison answers `Equal` exactly for equal byte strings |
| Nanoid.LexCmpReverse | src/lib.rs:276 | byte comparison is antisymmetric |
| Nanoid.LexCmpTransitive | src/lib.rs:276 | byte comparison's `Less` is transitive |
| Nanoid.LexCmpLess | src/lib.rs:276 | byte comparison answers `Less` exactly when the first string is a proper prefix of the second or has the smaller byte at the first difference |
| NanoidExamples.InvalidLengthExamples | src/lib.rs:605-623 | the tested wrong lengths, counted in bytes (`あいうえお` is 15) |
| NanoidExamples.InvalidCharacterDollar | src/lib.rs:636 | `$` first in the text is reported |
| NanoidExamples.InvalidCharacterMultiByte | src/lib.rs:639 | `アイ` is reported by its first byte 0xe3 |
| NanoidExamples.InvalidCharacterSpace | src/lib.rs:640 | a space first in the text is reported, not the later rejected spaces and newlines |
| NanoidExamples.InvalidCharacterAfterDigits | src/lib.rs:637 | with Base62, `-` after ten digits is reported |
| NanoidExamples.InvalidCharacterCapitalI | src/lib.rs:638 | with Base58, `I` at index 13 is reported |
| NanoidExamples.InvalidCharacterLowercaseL | src/lib.rs:641 | with Base58, the trailing `l` is reported |
| NanoidExamples.ValidExample | src/lib.rs:590-603 | a valid text parses and its text is the input |
| NanoidExamples.OrderExample | src/lib.rs:491 | `abc12-` orders before `abc12_`, and after it with the arguments swapped |
| NanoidExamples.DefectiveAlphabetPanics | src/lib.rs:392-411 | an alphabet whose symbol is 0xa0 makes generation panic |
| NanoidExamples.EmptyAlphabetPanics | src/lib.rs:172 | an empty alphabet makes generation of 21 positions panic at the sampler |

## Left out

- Alphabet.AlphabetInner.Contains: requires an ASCII byte, because `contains` indexes the 128-entry table and a byte of 128 or more panics (src/alphabet.rs:173). Parsing tests `is_ascii` first, so it never reaches that panic.
- Nanoid.Generate: an empty alphabet is not rejected when it is defined. The sampler for the range `0..0` (src/lib.rs:172) panics before the loop, for every length including 0. The model returns `EmptyRange` for this panic.

- The random number generator, `thread_rng` and `Uniform` sampling are foreign and nondeterministic. They are replaced by the drawn indices `draws`, so `new` (which only passes `rand::thread_rng()` to `new_with`, src/lib.rs:149) is not modelled separately. A failing random source is not modelled.
- The uniformity test is statistical and uses floating point.
- The `MaybeUninit` buffer and the raw-pointer read are memory optimisations. The buffer is an ordinary array that every slot is written to.
- `from_utf8_unchecked` is not modelled: text is the sequence of its bytes, and UTF-8 encoding is the caller's.
- `Hash` calls an opaque hasher. It hashes only `inner`, as `Eq` compares only `inner`.
- These are formatting and framework glue, and each delegates to `as_str`, `try_from_str` or `cmp`, or only formats: `PartialOrd::partial_cmp` (which is `Some(cmp)`), `Debug`, `Display`, `From<Nanoid> for String`, `AsRef<str>`, `TryFrom<String>`, `FromStr`, serde, and the `thiserror` messages.
- `Copy` and `Clone` are not modelled: identifiers are Dafny values.
- The `Alphabet` trait is modelled by an `AlphabetInner` value. A user implementation whose `contains` is not a table lookup is captured only through its symbols, as in `DefectiveAlphabetPanics`.
- The type-level parameters `N` and `A` and the `PhantomData` marker are not modelled. Identifiers of different alphabets are kept apart only by the `a` passed to each operation.
- The doc-comment machinery of `define_and_impl_alphabet!` is not modelled.
- Lengths (`usize`) are unbounded naturals. No operation here can overflow them.
