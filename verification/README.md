# ff-xor search engine in Dafny

A verified model of the search engine in `ff-xor.c`. The tool looks through a binary file for
a known plaintext that has been XOR-obfuscated with an unknown one-byte key. It tries all 256
keys. The model covers its two parts:

- **Key expansion** (`generate_xor_search_strings`). It builds a table of 256 byte strings.
  Entry `k` is the search string with every byte XORed with `k`, so the index of an entry is
  its key. In the model this is `XorKeys.GenerateXorSearchStrings`. It allocates one array per
  key, copies the plaintext in and XORs it in place. It is proved to produce `KeyTable(p)`,
  the table of `Encode(p, k)` for `k` in 0..255.
- **Window scanner** (`search_with_set`). It fills a window of `L = strlen(search_string)`
  bytes and walks it over the file. At each compared offset it tests the window against every
  table entry in key order. Each hit is appended as `(offset, key)` to a results buffer. The
  buffer starts with room for 32 results and doubles by allocating and copying when full. The
  window then rolls one byte left and takes the next byte of the file. In the model,
  `WindowScan.SearchWithSet` drives `CompareWindow` (the key loop), `RollWindow` (the shift
  loop) and the `Results.ResultBuffer` class (the results array with its count and capacity).
  It is proved to return exactly `Scan(file, L, Rows(table))`.

`Scan` is the specification of the scanner: offset by offset, then key by key. The lemmas
about it are in `WindowScan` for any table of at most 256 entries. `XorSearch` has the ones
about the table that key expansion builds:

- soundness and completeness in one statement (`XorScanExact`);
- every hit decodes back to the plaintext (`XorScanDecodes`, `DecodedIsPlaintext`);
- results are strictly ordered by offset, then key (`XorScanOrdered`);
- at most one key is reported per offset (`XorScanOneKeyPerOffset`);
- the boundary behaviour described next (`ShortFileNoResults`, `FinalWindowDropped`).

The loop bound `i < file_len - search_string_len` compares only offsets
`0 .. file_len - L - 1`. The last full window is filled but never compared. So a match that
ends on the last byte of the file is not reported, and a file of exactly `L` bytes gives no
results: with `file_len == L` the loop at ff-xor.c:74 compares no offset at all. The model
keeps this behaviour as written.

Bytes are the newtype `Bytes.byte` (0..255). XOR is computed bit by bit on their values. The
file is a `seq<byte>` of known length. The search string is the sequence of bytes before its
terminating NUL.

## Model

| member | source | states |
|---|---|---|
| XorKeys.GenerateXorSearchStrings | ff-xor.c:127-152 | The table has exactly 256 entries. Each is as long as the search string. Byte `j` of entry `k` is `search_string[j] XOR k`. Together, the buffers hold `KeyTable(p)`. |
| XorKeys.EncodeInvolutive | ff-xor.c:137-143 | XORing an encoded string with the same key again gives back the plaintext. |
| XorKeys.EncodeInjective | ff-xor.c:137-143 | For a non-empty plaintext, two keys give the same encoded string if and only if they are the same key. |
| XorKeys.KeyTableProperties | ff-xor.c:133-149 | The table has 256 entries, each the plaintext's length. Each entry decodes to the plaintext with its own index as key. For a non-empty plaintext the entries are pairwise distinct. |
| Results.ResultBuffer.constructor | ff-xor.c:45-47 | A new results buffer is empty and has capacity `DEFAULT_RESULT_BUFF_SZ` = 32. |
| Results.ResultBuffer.Grow | ff-xor.c:83-93 | The capacity doubles and a fresh array replaces the old one. The stored results are copied unchanged, and the count stays the same. |
| Results.ResultBuffer.Append | ff-xor.c:83-97 | The new result goes after the earlier ones, which stay unchanged. The capacity doubles exactly when the buffer was full. The count never exceeds the capacity. |
| WindowScan.CompareWindow | ff-xor.c:76-99 | At one offset, the results gain exactly the hits there in table order: one `(i, key_idx)` for each entry whose first `L` bytes equal the window. |
| WindowScan.RollWindow | ff-xor.c:101-110 | The window becomes its old bytes `1..L-1` followed by the next byte. This keeps the invariant `window == file[i..i+L]` for the next offset. |
| WindowScan.SearchWithSet | ff-xor.c:44-118 | The returned results array is newly allocated, and `*no_results` is at most its length. The first `*no_results` entries are exactly `Scan(file, L, table)`. A file shorter than `L` gives no results. |
| WindowScan.HitsAtMember | ff-xor.c:76-98 | A result is recorded at offset `i` against the first `m` entries if and only if its key is below `m` and that entry matches the window. |
| WindowScan.HitsAtOrdered | ff-xor.c:76-98 | The results at one offset are in strictly increasing key order. |
| WindowScan.HitsBelowMember | ff-xor.c:74-111 | The results below offset `n` are exactly the pairs whose offset is below `n` and whose table entry matches the window there. |
| WindowScan.HitsBelowOrdered | ff-xor.c:74-111 | The results below offset `n` are strictly ordered by offset, then key. |
| WindowScan.ScanMember | ff-xor.c:64-98 | A pair is reported if and only if the window at its offset ends before the last byte of the file, its key indexes the table, and that entry matches the window. |
| WindowScan.ScanOrdered | ff-xor.c:74-98 | The scan's results are strictly ordered by offset, then key. |
| XorSearch.SearchFile | ff-xor.c:243-244 | Key expansion followed by the scan returns a newly allocated array. Its results are exactly the windows that hold the plaintext encoded with the reported key. The results are strictly ordered. |
| XorSearch.PatternMatches | ff-xor.c:80 | Table entry `k` matches the window at offset `i` if and only if those `L` bytes are the plaintext encoded with `k`. |
| XorSearch.XorScanExact | ff-xor.c:74-98 | Soundness and completeness: `(offset, key)` is reported if and only if `offset + L < file_len` and the bytes there are the plaintext encoded with `key`. |
| XorSearch.XorScanDecodes | ff-xor.c:95-96 | Every reported window, XORed with its key, is the plaintext. |
| XorSearch.DecodedIsPlaintext | ff-xor.c:173-180 | For a reported result, the printer's decode `XorSearch.Decoded` of `after` bytes hits end of file exactly when the file ends before them. Otherwise it begins with the plaintext, and for `after <= L` it is the plaintext's first `after` bytes. |
| XorSearch.XorScanOrdered | ff-xor.c:74-99 | The scan's results with the XOR table are strictly ordered by offset, then key. |
| XorSearch.XorScanOneKeyPerOffset | ff-xor.c:76-98 | For a non-empty plaintext, no two results share an offset. |
| XorSearch.ShortFileNoResults | ff-xor.c:63-74 | A file no longer than the plaintext gives no results. A shorter file fails the initial fill; an equal-length file has no compared offset. |
| XorSearch.FinalWindowDropped | ff-xor.c:74 | The encoded plaintext in the last full window matches its table entry, yet it is not reported. |
| XorSearch.EncodedPrefixReportedFirst | ff-xor.c:74-97 | A file that starts with the plaintext encoded with `k` and has at least one more byte reports `(0, k)` first, with no other key at offset 0. |
| XorSearch.RepeatedByteCollision | ff-xor.c:76-98 | The plaintext `AA` against bytes `00 00` at offset 5: key `0x41` is reported there, and no other key. |

## Left out

- Command-line handling in `main` (ff-xor.c:185-239): option parsing, the `-k` check, the abort on a bad `-A`, and opening the file. `XorSearch.SearchFile` models only the two calls at ff-xor.c:243-244.
- Stream plumbing in `search_with_set` (ff-xor.c:53-71, 106). The file is a byte sequence of known length, so `rewind`/`fseek`/`ftell`/`fread`/`fgetc` become indexing. A failing `fseek` to the end (ff-xor.c:55-58) is not modelled.
- The early exit when `fgetc` returns EOF inside the scan loop (ff-xor.c:106-107). With an accurate file length it cannot fire: the last byte read is at `file_len - 1`.
- Printing (`search_result_print`, ff-xor.c:161-183). Only its per-byte decode is modelled, as the function `XorSearch.Decoded`. The `printf` output and the `exit(1)` are not.
- Freeing memory (`search_string_destroy`, ff-xor.c:25-42, and every `free`). It has no observable effect in the model.
- Allocation failure. Allocation always succeeds, so the partial-result return when growing fails (ff-xor.c:86-88) is not modelled.
- Multi-byte keys. `bytesPerXor` is accepted and has no effect (ff-xor.c:128-131). The warning it prints is not modelled.
- Results.ResultBuffer.Grow: does not model `size_t` wrap-around of the doubled capacity (ff-xor.c:84). The capacity is an unbounded integer.
- WindowScan.SearchWithSet: requires a non-empty search string. `main` only checks that a search-string argument exists (ff-xor.c:227-231), so an empty argument reaches the calls at ff-xor.c:243-244 with `search_string_len == 0`. On a non-empty file, `memcmp` of 0 bytes then matches all 256 keys at offset 0, and the shift-loop bound `search_string_len - 1` (ff-xor.c:102) wraps to `SIZE_MAX`, so the loop writes past the window buffer. That is undefined behaviour, and the model does not give it a meaning.
- XorSearch.SearchFile: requires a non-empty search string, for the same reason. It calls `WindowScan.SearchWithSet`, and with an empty string the program's behaviour is undefined.
- The search string comes from `strlen`. It is modelled as the byte sequence before its terminator, with no NUL inside.
