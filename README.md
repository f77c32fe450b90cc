# pwnscripts string checks, modelled in Dafny

This project models `pwnscripts/string_checks.py`, the small helper module of pwnscripts.
pwnscripts is a set of conveniences for exploit writing built on pwntools. The module offers four groups of helpers:

- **Hex-suffix matching.** `offset_to_regex` and `offset_match` ask whether the hex text of a value ends with the hex digits of an offset. For example, they check a leaked address against a known symbol offset.
- **Little-endian word extraction.** `extract_first_bytes` and `extract_all_bytes` turn n-byte windows of a byte string into unsigned integers through pwntools' `unpack`.
- **Hex-literal scanning.** `extract_all_hex` and `extract_first_hex` find `0x…` tokens in a byte string with `re.findall` and parse them in base 16.
- **Address-class heuristics.** `is_PIE_address`, `is_stack_address`, `is_libc_address` and `is_base_address` test a prefix or suffix of `hex(v)`. The prefixes depend on the target architecture.

Every helper is a single pure expression. The model is therefore datatypes, functions and lemmas, in these modules:

| module | models |
|---|---|
| `Wrappers` | `Option`, and `Result` with the two Python exceptions the helpers can raise (`ValueError`, `ZeroDivisionError`) |
| `Arith` | powers and the division facts the proofs need |
| `HexText` | Python's `hex()` (`Hex`, `PyHex`) and `int(…, 16)` on digit strings (`HexValue`) |
| `PyOps` | Python slicing with out-of-range bounds, and floor division |
| `Packing` | pwntools `unpack`/`pack` in the default context (little-endian, unsigned) |
| `Patterns` | the fixed regular expressions, as hand-written matchers: `'<lit>.*'` searched anywhere, and `'.*<lit>$'` |
| `Findall` | `re.findall(b'0x[C]+', s)` as a leftmost, non-overlapping, greedy scanner, for C = `[0-9a-f]` and C = `[0-9a-z]` |
| `StringChecks` | the ten helpers and their properties |
| `Findings` | the corrected versions of the two helpers listed under Findings |

A raised exception is `Err(…)`. A returned value is `Ok(…)`.

## Model

| member | source | states |
|---|---|---|
| StringChecks.OffsetToRegex | pwnscripts/string_checks.py:4 | the pattern is `.*<lit>$`; lit is the hex digits of v, or for negative v an `x` followed by the digits of -v (what `hex(v)[2:]` leaves) |
| StringChecks.OffsetMatch | pwnscripts/string_checks.py:5 | `offset_match(v, None)` holds for every v; for offset >= 0 the match holds iff the digits of abs(v) end with the digits of offset |
| StringChecks.OffsetMatchCongruence | pwnscripts/string_checks.py:4-5 | for offset >= 0, the match holds iff abs(v) mod 16^k == offset, where k is the digit count of offset |
| StringChecks.OffsetMatchNegative | pwnscripts/string_checks.py:4-5 | for a negative offset, the match holds iff abs(v) == -offset (the literal `x…` only fits right after the `0x` marker) |
| StringChecks.OffsetMatchSelf | pwnscripts/string_checks.py:4-5 | every value matches itself as its own offset |
| Packing.UnpackPack | pwnscripts/string_checks.py:7 | unpacking the n-byte little-endian packing of x < 256^n, with 8n bits, gives x back |
| Packing.Unpack | pwnscripts/string_checks.py:7 | unpack succeeds iff the bit width is positive and equals 8 times the byte count; the value is below 256^len |
| StringChecks.ExtractFirstBytes | pwnscripts/string_checks.py:6-7 | succeeds iff 0 < n <= len(s); the value is the little-endian value of the first n bytes and is below 256^n |
| StringChecks.ExtractFirstBytesRoundTrip | pwnscripts/string_checks.py:6-7 | if s starts with the n-byte encoding of x < 256^n, the result is x, whatever follows |
| StringChecks.Windows | pwnscripts/string_checks.py:11 | len(s)//n values; value i is the little-endian value of s[i:i+n], and that window lies inside s |
| StringChecks.ExtractAllBytes | pwnscripts/string_checks.py:8-11 | raises, and then ZeroDivisionError, iff n == 0; yields nothing for n < 0; for n > 0 yields the windows above |
| StringChecks.ExtractAllBytesWindows | pwnscripts/string_checks.py:8-11 | for n > 0: exactly len(s)//n values, value i is the little-endian value of s[i:i+n], and every window lies inside s |
| Findall.Matches | pwnscripts/string_checks.py:13 | every span found from position p starts at or after p and is a maximal `0x[C]+` token |
| Findall.MatchesOrdered | pwnscripts/string_checks.py:13 | the spans are in increasing order and do not overlap |
| Findall.MatchesCover | pwnscripts/string_checks.py:13 | every token start (`0x` followed by a class byte) at or after p lies inside some span |
| Findall.FirstMatchIsLeftmost | pwnscripts/string_checks.py:16 | there is a span iff there is a token start; the first span starts at the leftmost token start |
| Findall.FindAll | pwnscripts/string_checks.py:13 | one token per span, equal to the span's bytes; each token is `0x` followed by one or more class bytes |
| StringChecks.ParseHexToken | pwnscripts/string_checks.py:13 | `int(token, 16)` on a `0x…` token succeeds iff every byte after `0x` is a hex digit, and otherwise raises ValueError; the value is non-negative |
| StringChecks.ParseAll | pwnscripts/string_checks.py:13 | mapping `int(·, 16)` succeeds iff every token parses, and otherwise raises ValueError; the values correspond one to one, in order |
| StringChecks.ExtractAllHex | pwnscripts/string_checks.py:12-14 | never raises; one value per `0x[0-9a-f]+` match, in order, each the base-16 value of the match's digits |
| StringChecks.ExtractAllHexEmpty | pwnscripts/string_checks.py:12-14 | the result is empty iff no `0x` is followed by a lowercase hex digit |
| StringChecks.ExtractFirstHex | pwnscripts/string_checks.py:15-17 | a successful result is at least -1 |
| StringChecks.ExtractFirstHexNotFound | pwnscripts/string_checks.py:15-17 | the result is -1 iff no `0x` is followed by a byte of `[0-9a-z]` |
| StringChecks.ExtractFirstHexRaises | pwnscripts/string_checks.py:15-17 | raises iff the first `0x[0-9a-z]+` token holds a byte that is not a hex digit, and what it raises is ValueError |
| StringChecks.ExtractFirstHexAgrees | pwnscripts/string_checks.py:12-17 | when the first `[0-9a-z]` token is all hex digits, the result is the first value of `extract_all_hex` |
| StringChecks.NoHexExample | pwnscripts/string_checks.py:12-17 | on `b"no hex here"`, `extract_all_hex` gives `[]` and `extract_first_hex` gives -1 |
| StringChecks.IsPIEAddress | pwnscripts/string_checks.py:18-21 | true iff v > 0 and the digits of v start with `55` (amd64) or `56` (other) |
| StringChecks.IsStackAddress | pwnscripts/string_checks.py:22-24 | true iff v > 0 and the digits of v start with `7ff` (amd64) or `ff` (other) |
| StringChecks.IsLibcAddress | pwnscripts/string_checks.py:25-28 | true iff v > 0, the digits start with `7f` (amd64) or `f7` (other), and they do not start with the stack prefix |
| StringChecks.LibcAndStackDisjoint | pwnscripts/string_checks.py:22-28 | no value is both a libc and a stack address |
| StringChecks.IsBaseAddress | pwnscripts/string_checks.py:29-32 | true iff v > 0 and v is a multiple of 0x1000 |
| StringChecks.HexEndsWithZeros | pwnscripts/string_checks.py:31-32 | the digits of a positive v end in `000` iff v % 0x1000 == 0 |
| StringChecks.StackAddressExample | pwnscripts/string_checks.py:22-28 | on amd64, 0x7ffeeffff000 is a stack address and not a libc address |
| StringChecks.LibcAddressExample | pwnscripts/string_checks.py:22-28 | on amd64, 0x7f1234560000 is a libc address and not a stack address |
| StringChecks.PIEAddressExample | pwnscripts/string_checks.py:18-21 | on amd64, 0x555555554000 is a PIE address |
| StringChecks.BaseAddressExample | pwnscripts/string_checks.py:29-32 | 0x555555554000 is a base address; 0x555555554001 is not |
| HexText.HexRoundTrip | pwnscripts/string_checks.py:13 | `int(hex(v)[2:], 16) == v` for v >= 0 |
| HexText.HexEndsWith | pwnscripts/string_checks.py:4-5 | the digits of v end with the digits of w iff v mod 16^k == w, where k is the digit count of w |
| Findings.ExtractAllBytesOverlaps | pwnscripts/string_checks.py:11 | on `b'\x01\x02\x03\x04'` with n = 2 the source yields 0x0201 and 0x0302; the consecutive words are 0x0201 and 0x0403 |
| Findings.Chunks | pwnscripts/string_checks.py:8-11 | the consecutive n-byte words: len(s)//n of them |
| Findings.ExtractAllChunks | pwnscripts/string_checks.py:8-11 | same errors as the source (raises ZeroDivisionError iff n == 0; nothing for n < 0); for n > 0 the consecutive words |
| Findings.ChunksRepack | pwnscripts/string_checks.py:9-10 | packing the words back gives s cut down to a multiple of n bytes |
| Findings.ExtractFirstHexRaisesOnLetter | pwnscripts/string_checks.py:16 | on `b'0x1g'` the source raises ValueError, while the first `[0-9a-f]` value is 1 |
| Findings.FirstHexValue | pwnscripts/string_checks.py:15-17 | never raises; -1 iff no `0x` is followed by a lowercase hex digit |
| Findings.FirstHexValueAgrees | pwnscripts/string_checks.py:15-17 | whenever the source does not raise, it returns the same value as the corrected version |

## Left out

- `pwnscripts/rop.py` is not part of this model. It is an architecture check followed by calls into pwntools' ROP engine, an external library this model does not cover.
- The global pwntools `context` is not modelled. The architecture is a parameter (`arch`, compared with `"amd64"`). Endianness and signedness are fixed to the defaults, little-endian and unsigned.
- Packing.Unpack: models only the default-context behaviour of pwntools `unpack`. A width of 0 falls back to `context.word_size`; the model treats it as a failure, which is what happens for the empty slice that `extract_first_bytes(s, 0)` passes.
- Python's general `re` engine is not modelled. Only the five fixed patterns are, as hand-written matchers. `.` would not match a newline, but `hex()` text never contains one.
- `int(…, 16)` is modelled only on the `0x…` tokens the scanners produce. That is the only input these helpers give it.
- The generator returned by `extract_all_bytes` is modelled as a finite sequence. Its laziness is not modelled.
  - The ZeroDivisionError for n == 0 is raised when the call is made, because `range(len(s)//n)` is evaluated eagerly.
  - A failure inside `unpack` cannot happen for n > 0, since every window is full.
- In Python, `is_PIE_address`, `is_stack_address` and `is_base_address` return a `Match` object, `None` or `False`; `is_libc_address` returns `True`, `False` or `None`. The model returns the truth value of each.
- `offset_match` is modelled for negative values and offsets too (`hex(-5)[2:]` is `x5`), not only for non-negative arguments.

## Findings

| source | as written | input that shows it | evidently intended | confidence | as-written member | corrected member |
|---|---|---|---|---|---|---|
| pwnscripts/string_checks.py:11 | windows `s[i:i+n]` for i in `range(len(s)//n)`, which overlap when n > 1 and leave the tail unread | `extract_all_bytes(b'\x01\x02\x03\x04', 2)` yields 0x0201, 0x0302 | consecutive words `s[i*n:(i+1)*n]`: 0x0201, 0x0403 (as the doc comment's "truncate the bytestring to be divisible" implies) | not executed | Findings.ExtractAllBytesOverlaps | Findings.ExtractAllChunks |
| pwnscripts/string_checks.py:16 | first token of `0x[0-9a-z]+`, parsed base 16, with only IndexError caught | `extract_first_hex(b'0x1g')` raises ValueError | the first `0x[0-9a-f]+` value, as in `extract_all_hex`: 1 | not executed | Findings.ExtractFirstHexRaisesOnLetter | Findings.FirstHexValue |
