# pe-server core, modelled in Dafny

pe-server is a web service that takes uploaded Windows executables (PE files) and does three things with them:

- it shows the bytes in a hex viewer and lets the user edit and download them;
- it reads the PE headers, the section table and the import names from a hex dump of the file;
- it matches the imported function names against a knowledge base of dangerous system calls and writes a text report.

This project models the computational core of that service:

- the hex-string arithmetic helpers of `pe_tools.rs`;
- the PE reader `read_exe_file` and the report writer `PeStudy::generate_report` of `pe_read.rs`;
- the hex view, the byte edit, the download and the `analysis` rule of `pe_service.rs`.

## How the model is organised

| module | file | models |
|---|---|---|
| `Options` | options.dfy | the option type used for every panic path |
| `PeTools` | pe_tools.dfy | `from_str_radix`, `read_hex`, `add_hex`/`add_hex_cycle`/`sub_hex`, `position1`/`position2`, `hex_compare1`/`hex_compare2`, `vec_to_string`, `hex::decode`, `fuzzy_search` |
| `PeRead` | pe_read.dfy | `read_exe_file`: split into cells, the 16-column matrix, the header reads, the section table, the section search and the import chain |
| `PeByname` | pe_byname.dfy | `read_exe_file`: the name-table scan, the tokeniser, `retain` and the removal of one-byte tokens |
| `PeFields` | pe_fields.dfy | what a backward `read_hex` means on the bytes of a file: a little-endian field |
| `PeLayout` | pe_layout.dfy | what the header locator and the section loop read from a real PE file |
| `PeImports` | pe_imports.dfy | what the section search and the RVA translation of the import chain compute |
| `PeStudyFields` | pe_study.dfy | what the `PeStudy` that `read_exe_file` returns holds for a real PE file, field by field |
| `PeReport` | pe_report.dfy | `generate_report` |
| `PeView` | pe_view.dfy | `get_address_group_information_from_file_buf`, `update_file_byte`, `download_current_file` and the `UPLOAD_FILE_INFO` slot |
| `PeAnalysis` | pe_analysis.dfy | `analysis`: the knowledge map, the nested match loop, the message and the report |

### Conventions

- **Panics.** Every Rust panic becomes `None`. This covers an `unwrap` on a failed parse, an index out of range, a `u32` overflow and a `usize` underflow. Overflow is treated as a panic, as in a debug build.
- **Executable code.** Each operation the source writes as a loop is a `method` with loop invariants. Its `ensures` ties the result to a specification function. The properties the source relies on are proved about that function as lemmas.
- **Numbers.** Parsing follows `from_str_radix` exactly:
  - an optional leading `+`;
  - digits of either letter case;
  - an empty string, an invalid digit or a value at or above `2^bits` gives `None`.

  `format!("{:X}")` and `format!("{:02x}")` are written out digit by digit.
- **The upload slot.** The global `UPLOAD_FILE_INFO` is the class `PeView.UploadSlot`. Its field is the `Option<UploadFileInfo>` the mutex guards. Its methods reassign that field as the handlers do.
- **HashMap order.** The iteration order of the knowledge `HashMap` is a parameter `keys`. It must list every key of the map exactly once. A lemma shows that the matches found do not depend on it.

### Where the code does something surprising

- **The last group is dropped.** The hex view builds its groups from `1..ceil(n / 16)`. It therefore never shows the last 16 bytes or fewer. A download of an unedited view returns the file without them (`PeView.GroupsCount`, `PeView.FlattenView`).
- **An RVA in the last section fails.** The section search stops at the first section whose VirtualAddress is above the RVA. An import directory in the last section runs off the table, which is a panic (`PeImports.ResolveImportsSection`).
- **The section count is decimal.** NumberOfSections is read from one hex cell and parsed as a decimal number, with 0 when it is not one. A file with ten sections is read as having none, and one with sixteen as having ten (`PeLayout.SectionCountOfByte`, `PeLayout.SectionCountExamples`).
- **The report's import labels name other values.** `PeStudy` stores `import_real: s5`, `iat_shifting: s14`, `iat_real: s17`, `byname_shifting: s19` and `byname_real: s20` (pe_read.rs lines 289-303). So the report line "导入表真实地址" prints the import directory RVA `s5`, not a file offset. "IAT表偏移" prints the file offset `s14` of the import descriptor. "IAT表真实地址" prints `s17`, the file offset of the descriptor's import lookup table. The RVA `s16` read from the descriptor is not kept. The model keeps the stored values under the source's field names (`PeStudyFields.StudyHeader`, `PeStudyFields.StudySections`).
- **`read_exe_file` never returns `Err`.** It either returns `Ok` or panics. The model's `None` stands for the panic.

## Model

| member | source | states |
|---|---|---|
| PeTools.DigitValue | api-service/src/tools/pe_tools.rs:18 | A digit's value is below the radix. |
| PeTools.FromStrRadix | api-service/src/tools/pe_tools.rs:18-19 | A parsed value is below the integer type's bound (2^32 for `u32`). |
| PeTools.FromStrRadixDigits | api-service/src/tools/pe_tools.rs:18-19 | Parsing succeeds exactly on a non-empty digit string (an optional '+' aside) whose positional value is below the bound, and gives that value. |
| PeTools.ValueOfDigits | api-service/src/tools/pe_tools.rs:18-19 | The left-to-right accumulation of the parser equals the positional value of the digits, and fails exactly on a non-digit. |
| PeTools.TwoDigits | api-service/src/tools/pe_tools.rs:18 | A two-character hex cell parses to 16 times its first digit plus its second. |
| PeTools.ShortParse | api-service/src/tools/pe_tools.rs:61-62 | An empty string does not parse, and a single character that parses denotes a value below 16. |
| PeTools.HexLiteralValues | api-service/src/tools/pe_read.rs:109-207 | The offset literals "6", "83", "15", "18", "0f", "08", "28" and "03" that the reader adds denote the intended values. |
| PeTools.PrintableBounds | api-service/src/tools/pe_read.rs:257-258 | The bounds "21" and "7e" of the printable test denote 0x21 and 0x7E. |
| PeTools.DigitsValueAppend | api-service/src/tools/pe_tools.rs:18 | The value of concatenated digits is the first part shifted by the second's length plus the second. |
| PeTools.DigitsValueBound | api-service/src/tools/pe_tools.rs:18 | k digits denote a value below radix^k. |
| PeTools.UpperHexFacts | api-service/src/tools/pe_tools.rs:21 | `format!("{:X}", n)` is a non-empty string of upper-case hex digits denoting n. |
| PeTools.UpperHexLength | api-service/src/tools/pe_tools.rs:21 | A value below 16^k takes at most k digits. |
| PeTools.Hex08Facts | api-service/src/tools/pe_tools.rs:21-26 | The zero-padded sum is upper-case hex denoting n, at least 8 long. Below 2^32 it is exactly 8 long and parses back to n. |
| PeTools.AddHex | api-service/src/tools/pe_tools.rs:17-27 | `add_hex` computes the specification `HexSum`, whose meaning `HexSumMeaning` proves. |
| PeTools.AddHexCycle | api-service/src/tools/pe_tools.rs:29-39 | `add_hex_cycle` computes the same `HexSum` as `add_hex`. |
| PeTools.SubHex | api-service/src/tools/pe_tools.rs:42-52 | `sub_hex` computes `HexDiff`, whose meaning `HexDiffMeaning` proves. |
| PeTools.HexSumMeaning | api-service/src/tools/pe_tools.rs:17-27 | The sum exists exactly when both operands parse and the sum fits in 32 bits. It is then 8 upper-case hex digits denoting the sum. |
| PeTools.HexDiffMeaning | api-service/src/tools/pe_tools.rs:42-52 | The difference exists exactly when both operands parse and the second is not larger. It is then 8 upper-case hex digits denoting the difference. |
| PeTools.SubAfterAdd | api-service/src/tools/pe_tools.rs:17-52 | Subtracting b from add_hex(a, b) gives a back, padded to 8 digits. |
| PeTools.PositionSplit | api-service/src/tools/pe_tools.rs:55-64 | On an 8-digit address, row (first 7 digits) times 16 plus column (last digit) is the address. |
| PeTools.PositionOfHex08 | api-service/src/tools/pe_tools.rs:55-64 | The address of cell n is split into row n / 16 and column n % 16. |
| PeTools.CompareBothIffEqual | api-service/src/tools/pe_tools.rs:67-77 | `hex_compare1(a, b)` is `hex_compare2(b, a)`. Both are defined exactly when both operands parse. Both hold exactly when the values are equal. |
| PeTools.ReadHex | api-service/src/tools/pe_tools.rs:2-14 | The loop of `read_hex` computes `ReadBackward`, including the underflow panic when it steps above row 0. |
| PeTools.ReadBackwardFlat | api-service/src/tools/pe_tools.rs:2-14 | On a 16-column matrix, reading a cells back from (b, c) concatenates flat cells 16b+c down to 16b+c-a+1. It fails exactly when that would go below cell 0 or b is out of range. |
| PeTools.VecToString | api-service/src/tools/pe_tools.rs:78-84 | The loop builds the lower-case two-digit hex encoding `HexEncode` of the bytes. |
| PeTools.HexEncodeLength | api-service/src/tools/pe_tools.rs:78-84 | The encoding is twice as long as the bytes. |
| PeTools.HexEncodeRoundTrip | api-service/src/tools/pe_tools.rs:78-84 | `hex::decode` of the encoding gives the bytes back. |
| PeTools.ToLower | api-service/src/tools/pe_tools.rs:89 | Helper for `FuzzySearchMeaning`, which states what the search means. Lower-casing keeps the length. |
| PeTools.ContainsIffOccurs | api-service/src/tools/pe_tools.rs:89 | `contains` holds exactly when the needle occurs at some position. |
| PeTools.FuzzySearchMeaning | api-service/src/tools/pe_tools.rs:87-90 | `fuzzy_search(q, t)` holds exactly when lower-cased t occurs in lower-cased q. An empty target always matches. |
| PeRead.Cells | api-service/src/tools/pe_read.rs:90-93 | The split yields half as many cells as characters. |
| PeRead.CellsIndex | api-service/src/tools/pe_read.rs:90-93 | Cell i is characters 2i and 2i+1. |
| PeRead.CellsJoin | api-service/src/tools/pe_read.rs:90-93 | Joining the cells gives the text back, less a trailing odd character. |
| PeRead.SplitCells | api-service/src/tools/pe_read.rs:87-93 | The split loop computes `Cells`. |
| PeRead.GridLayout | api-service/src/tools/pe_read.rs:95-104 | The matrix has ceil(n/16) rows of 16. Flat position i holds cell i, padded with "". |
| PeRead.BuildMatrix | api-service/src/tools/pe_read.rs:95-104 | The fill loop computes `Grid`. |
| PeRead.ReadField | api-service/src/tools/pe_read.rs:116-121 | A read at an address computes `ReadAt` (position1, position2, then `read_hex`). |
| PeRead.ReadHeader | api-service/src/tools/pe_read.rs:106-152 | The header reads s1 to s13 compute `LocateHeader`. |
| PeRead.ReadSectionTable | api-service/src/tools/pe_read.rs:155-178 | Building the table computes `SectionTable`. It panics on a count of 0 (index 0 of an empty table), as the code does. |
| PeRead.ReadMoreSections | api-service/src/tools/pe_read.rs:160-178 | The loop appends one entry per step, 0x28 bytes apart, as `MoreSections` states. |
| PeRead.FirstAbove | api-service/src/tools/pe_read.rs:182-185 | A found index lies inside the table, at or after the start. |
| PeRead.FindSection | api-service/src/tools/pe_read.rs:182-185 | The while loop computes `FirstAbove` from 0, panicking when it runs past the table. |
| PeRead.TranslateField | api-service/src/tools/pe_read.rs:186-189 | `add_hex(sub_hex(v, VirtualAddress), PointerToRawData)` computes `Translate`. |
| PeRead.FollowImports | api-service/src/tools/pe_read.rs:182-220 | The section search and the three translations compute `ResolveImports`. |
| PeRead.FollowChain | api-service/src/tools/pe_read.rs:186-220 | The chain from the import directory to the name table computes `ImportChain`. |
| PeRead.FollowHop | api-service/src/tools/pe_read.rs:192-204 | One hop (add 3, read 4 cells, translate) computes `Hop`. |
| PeRead.ReadExeFile | api-service/src/tools/pe_read.rs:82-304 | `read_exe_file` computes `Study`. Every phase is one of the methods above. The result stores `s5` as `import_real`, `s14` as `iat_shifting`, `s17` as `iat_real`, `s19` as `byname_shifting` and `s20` as `byname_real`; their meaning on a file is stated by the `PeStudyFields` lemmas. |
| PeRead.StudyNames | api-service/src/tools/pe_read.rs:222-287 | Every reported import name is a non-empty run of hex pairs of printable bytes, and none is a single pair. |
| PeByname.FirstTerminator | api-service/src/tools/pe_read.rs:233-238 | A found stop position satisfies the stop test (past 16 cells, four "00" cells in a row). |
| PeByname.FirstTerminatorIsFirst | api-service/src/tools/pe_read.rs:233-238 | The stop is the first position that satisfies the test. None means no position does. |
| PeByname.StopInStream | api-service/src/tools/pe_read.rs:227-251 | A stop found in a prefix is the stop of the whole stream, with the same cells before it. |
| PeByname.ScanRow | api-service/src/tools/pe_read.rs:228-247 | One row's pass appends its cells. When the stop is reached it keeps exactly the cells before the four "00" cells, and no earlier stop exists. |
| PeByname.CollectByname | api-service/src/tools/pe_read.rs:222-251 | The nested scan collects `BynameCells`: the cells from row x on, up to the first stop. |
| PeByname.PrintableIsCompare | api-service/src/tools/pe_read.rs:257-258 | The printable test is `hex_compare1(c, "21") && hex_compare2(c, "7e")`, failing where either parse fails. |
| PeByname.PrintableRejectsEmpty | api-service/src/tools/pe_read.rs:257-258 | An empty cell is not printable. |
| PeByname.RunTokens | api-service/src/tools/pe_read.rs:256-276 | A stream that ends in an accepted cell yields at least one token. |
| PeByname.Tokenise | api-service/src/tools/pe_read.rs:253-276 | The tokeniser succeeds exactly when `Tokens` does. It then keeps one slot per cell, and its non-empty slots are the tokens. |
| PeByname.RunTokensJoin | api-service/src/tools/pe_read.rs:256-276 | The tokens together hold exactly the accepted cells, in order. |
| PeByname.RunTokensShape | api-service/src/tools/pe_read.rs:256-276 | Every token is a non-empty concatenation of accepted two-character cells. |
| PeByname.TokensShape | api-service/src/tools/pe_read.rs:253-278 | On the scanned cells, every token is a non-empty run of printable hex pairs. |
| PeByname.DropSingles | api-service/src/tools/pe_read.rs:279-287 | The removal loop computes `WithoutSingles`. |
| PeByname.WithoutSinglesMembers | api-service/src/tools/pe_read.rs:279-287 | A token survives exactly when it was present and is not 2 characters long. |
| PeByname.BynameCellsShort | api-service/src/tools/pe_read.rs:222-251 | Every scanned cell of a matrix of two-character cells is at most 2 characters. |
| PeFields.LEBound | api-service/src/tools/pe_read.rs:116-121 | An n-byte little-endian field is below 256^n. |
| PeFields.BackwardValue | api-service/src/tools/pe_tools.rs:2-14 | Reading `count` cells backward from the top byte gives 2·count hex digits denoting the little-endian field that ends at that byte. |
| PeFields.FieldValue | api-service/src/tools/pe_tools.rs:2-14 | A backward read of up to 4 cells parses as a 32-bit value equal to that little-endian field. |
| PeLayout.HexEncodeIndex | api-service/src/pe/pe_service.rs:181 | Byte i of the file is characters 2i and 2i+1 of `hex::encode`. |
| PeLayout.ImageCell | api-service/src/tools/pe_read.rs:87-104 | The matrix built from a file's hex dump holds byte i as two hex digits at flat position i. |
| PeLayout.ReadAtAddress | api-service/src/tools/pe_read.rs:116-121 | A read at address `Hex08(t)` takes the cells ending at t, and fails exactly when it would run below cell 0. |
| PeLayout.FieldRead | api-service/src/tools/pe_read.rs:116-121 | A read at the address of a field's last byte parses to the field's little-endian value. |
| PeLayout.LocateHeaderFields | api-service/src/tools/pe_read.rs:106-152 | On a file whose headers fit, the locator succeeds. It reads e_lfanew, the low byte of NumberOfSections, the import directory RVA, SizeOfOptionalHeader, and the first section's VirtualAddress and PointerToRawData. |
| PeLayout.SectionTableFields | api-service/src/tools/pe_read.rs:155-178 | With count > 0 sections inside the file, the table has count entries. Entry j holds the VirtualAddress and PointerToRawData of section header j. |
| PeLayout.SectionTableEmpty | api-service/src/tools/pe_read.rs:155-158 | A count of 0 is a panic. |
| PeLayout.SectionCountOfByte | api-service/src/tools/pe_read.rs:155 | The count is the count byte's two hex digits read as a decimal number, or 0. |
| PeLayout.SectionCountExamples | api-service/src/tools/pe_read.rs:155 | 3 sections count as 3, 10 as 0 and 16 as 10. |
| PeImports.FirstAboveMeaning | api-service/src/tools/pe_read.rs:182-185 | The scan finds an entry exactly when some entry has a VirtualAddress above the RVA. It finds the first such entry. |
| PeImports.TranslateMeaning | api-service/src/tools/pe_read.rs:186-189 | The translation exists exactly when all three values parse, VirtualAddress ≤ v, and the result fits in 32 bits. It then denotes v − VirtualAddress + PointerToRawData. |
| PeImports.ResolveImportsOutside | api-service/src/tools/pe_read.rs:182-189 | An import RVA below the first section, or in the last section, makes the chain fail. |
| PeImports.ImportChainThrough | api-service/src/tools/pe_read.rs:186-220 | All three translations of a successful chain go through the one section entry. |
| PeImports.ResolveImportsSection | api-service/src/tools/pe_read.rs:182-220 | A successful chain places the import RVA in a section k that is not the last (VirtualAddress[k] ≤ RVA < VirtualAddress[k+1]), and translates all three RVAs through it. |
| PeStudyFields.StudyParts | api-service/src/tools/pe_read.rs:289-303 | The study's header fields are those the header locator reads, its table is the section table, and it keeps the matrix, file name and size. |
| PeStudyFields.StudyImports | api-service/src/tools/pe_read.rs:289-303 | The study's `iat_shifting`, `iat_real`, `byname_shifting` and `byname_real` are `s14`, `s17`, `s19` and `s20` of the resolved import chain. |
| PeStudyFields.StudyHeader | api-service/src/tools/pe_read.rs:106-131 | For a file whose headers fit: `pe_head` parses to e_lfanew, `subsection_size` is the hex of NumberOfSections' low byte, `optional_head_size` parses to SizeOfOptionalHeader, and `import_real` parses to the import directory RVA (DataDirectory[1] at e_lfanew + 0x80). The matrix, name and size are kept. |
| PeStudyFields.ImportChainOf | api-service/src/tools/pe_read.rs:186-220 | A successful chain translates the RVA to `s14`, reads `s16` three cells on and translates it to `s17`, then reads `s19` and translates it to `s20`, all through one entry. |
| PeStudyFields.ResolveImportsAt | api-service/src/tools/pe_read.rs:182-220 | A resolved chain goes through an entry k that is not the last. When the table holds numbers, the RVA lies in section k. |
| PeStudyFields.StudyChain | api-service/src/tools/pe_read.rs:182-220 | Every study's offsets follow that one chain, from `import_real` to `byname_real`. |
| PeStudyFields.EntriesParsed | api-service/src/tools/pe_read.rs:155-178 | Table entries that hold the section headers' fields parse, to each header's VirtualAddress and PointerToRawData. |
| PeStudyFields.StudySectionBounds | api-service/src/tools/pe_read.rs:182-185 | The scan's section k, over the file: VirtualAddress of sections 0 to k ≤ the RVA < VirtualAddress of section k + 1. |
| PeStudyFields.TranslateNumbers | api-service/src/tools/pe_read.rs:186-189 | Through an entry whose fields parse to y and z, the RVA x becomes x − y + z, and y ≤ x. |
| PeStudyFields.StudyDescriptor | api-service/src/tools/pe_read.rs:186-189 | `iat_shifting` parses to the import directory RVA − VirtualAddress[k] + PointerToRawData[k]. |
| PeStudyFields.ChainSection | api-service/src/tools/pe_read.rs:182-220 | A study over the file's section headers whose chain goes through entry k has its import directory in section k. |
| PeStudyFields.StudySections | api-service/src/tools/pe_read.rs:155-220 | For a file whose declared section headers lie inside it: one table entry per declared section, holding its fields; a section k holds the import directory RVA (sections 0 to k start at or below it, section k + 1 above it); `iat_shifting` is that RVA made a file offset through section k; and the whole chain goes through entry k. |
| PeReport.DecimalValue | api-service/src/tools/pe_read.rs:36 | `format!("{}", n)` is a non-empty decimal digit string denoting n, without a leading zero. |
| PeReport.AsciiText | api-service/src/tools/pe_read.rs:54 | The lossy text of the bytes has one character per byte. A byte below 0x80 becomes the character with that code, and any other byte becomes U+FFFD. |
| PeReport.NameLinesDefined | api-service/src/tools/pe_read.rs:51-56 | The names section exists exactly when every name decodes as hex. |
| PeReport.ReportDefined | api-service/src/tools/pe_read.rs:23-60 | The report is produced exactly when every name decodes (`hex::decode(..).unwrap()`). |
| PeReport.StudyReport | api-service/src/tools/pe_read.rs:23-60 | `generate_report` never panics on what `read_exe_file` returns. Every name decodes to printable bytes. |
| PeReport.StudyNameLine | api-service/src/tools/pe_read.rs:51-56 | Each name of such a study is printed as its decoded bytes, one printable character (`!` to `~`) per byte with that byte's code, followed by a line feed. |
| PeReport.ReportLines | api-service/src/tools/pe_read.rs:23-60 | With one-line fields, the report has 20 fixed line breaks, plus one per section entry and one per import name. |
| PeReport.GenerateReport | api-service/src/tools/pe_read.rs:23-60 | The appending method computes `Report`. |
| PeReport.WriteSections | api-service/src/tools/pe_read.rs:35-41 | The section loop appends one numbered line per table entry, in order. |
| PeReport.WriteNames | api-service/src/tools/pe_read.rs:51-56 | The names loop appends one line per name, or panics on a name that is not hex. |
| PeView.GroupsCount | api-service/src/pe/pe_service.rs:121-122 | The view has ceil(n/16) − 1 groups. The bytes after the last full group, between 1 and 16 of them, are not shown. |
| PeView.GroupLayout | api-service/src/pe/pe_service.rs:124-155 | Group r holds bytes 16r to 16r+15, each with its index and upper-case hex text and a glyph. Its address is `{:08X}` of 16r. |
| PeView.ValueOrder | api-service/src/pe/pe_service.rs:158 | Among equal-length upper-case hex strings, a smaller value is lexicographically smaller. |
| PeView.AddressesAscending | api-service/src/pe/pe_service.rs:152-158 | The group addresses come out strictly ascending in `String` order, so the sort leaves the list as built. |
| PeView.UpperHex2RoundTrip | api-service/src/pe/pe_service.rs:337 | A byte's `{:02X}` text parses back to the byte. |
| PeView.FlattenIndex | api-service/src/pe/pe_service.rs:335-339 | Flattening full groups puts entry j % 16 of group j / 16 at position j. |
| PeView.FlattenView | api-service/src/pe/pe_service.rs:120-160 | Downloading an unedited view gives the buffer's first 16·groups bytes. |
| PeView.DownloadView | api-service/src/pe/pe_service.rs:330-342 | Downloading a freshly stored view gives the file name and those bytes. |
| PeView.EditEntries | api-service/src/pe/pe_service.rs:286-290 | Helper for `EditView`, which states what an edit does to the download. The edit keeps the number of entries. |
| PeView.EditView | api-service/src/pe/pe_service.rs:282-291 | After an edit, the download changes exactly the byte at the edited index (to the parsed text, or 0) and no other. |
| PeView.UploadSlot.constructor | api-service/src/pe/mod.rs:11 | The slot starts empty. |
| PeView.UploadSlot.Store | api-service/src/pe/pe_service.rs:97-108 | The upload stores the file's identity and its view. |
| PeView.UploadSlot.UpdateFileByte | api-service/src/pe/pe_service.rs:274-294 | With no file: the error message, and nothing changes. With an index that is not hex and an entry to compare: a panic, and nothing changes. Otherwise every entry with that index gets the new text, and nothing else changes. |
| PeView.UploadSlot.DownloadCurrentFile | api-service/src/pe/pe_service.rs:326-342 | "unknown" and no bytes without a file. Otherwise the file name and every entry's byte in order, 0 for text that is not hex. |
| PeAnalysis.Utf8CharRoundTrip | api-service/src/pe/pe_service.rs:202 | A character's UTF-8 bytes decode back to it. |
| PeAnalysis.Utf8Length | api-service/src/pe/pe_service.rs:202 | The UTF-8 form is at least as long as the text, and exactly as long for ASCII text, whose bytes are its characters. |
| PeAnalysis.KeyDecodes | api-service/src/pe/pe_service.rs:202 | A knowledge key is the hex of the name's UTF-8 bytes and decodes back to them. |
| PeAnalysis.CollectKeys | api-service/src/pe/pe_service.rs:198-213 | The keys of the collected map are exactly the keys of the pairs. |
| PeAnalysis.CollectLast | api-service/src/pe/pe_service.rs:198-213 | Each key holds the value of the last pair with that key. |
| PeAnalysis.KnowledgeMapMeaning | api-service/src/pe/pe_service.rs:198-213 | The map's keys are the rows' keys. Each key holds "name:description" of the last row with that name. |
| PeAnalysis.CollectMatches | api-service/src/pe/pe_service.rs:214-223 | The nested loop computes `MatchList`: for each name in order, the values of its matching keys in iteration order. |
| PeAnalysis.PickedPermutation | api-service/src/pe/pe_service.rs:216 | The values picked depend only on the multiset of keys visited. |
| PeAnalysis.MatchListOrderFree | api-service/src/pe/pe_service.rs:214-223 | Any two iteration orders of the map give the same multiset of matches, so the same count. |
| PeAnalysis.MatchListCount | api-service/src/pe/pe_service.rs:214-223 | The list has one value per matching (name, key) pair. |
| PeAnalysis.MatchListMembers | api-service/src/pe/pe_service.rs:214-223 | A value is in the list exactly when some name matches some key holding that value. |
| PeAnalysis.MessageChoice | api-service/src/pe/pe_service.rs:224-245 | The "no anomaly" message is chosen exactly when nothing matched. |
| PeAnalysis.MessageCount | api-service/src/pe/pe_service.rs:225-229 | The message reports, in decimal, the number of matches. |
| PeAnalysis.EscapeRoundTrip | api-service/src/pe/pe_service.rs:226-228 | The `{:?}` escaping of each value loses nothing: it reads back to the value. |
| PeAnalysis.VerdictMessage | api-service/src/pe/pe_service.rs:214-250 | When the names decode, a verdict exists. It says "no anomaly" exactly when no name matches any key. |
| PeAnalysis.AnalysisVerdict | api-service/src/pe/pe_service.rs:162-261 | The analysis fails exactly when the reader does. It says "no anomaly" exactly when no imported name matches any knowledge key. |
| PeAnalysis.Analyse | api-service/src/pe/pe_service.rs:162-261 | The handler's steps (encode, read, match, message, report) compute `Analysis`. Its report prints the study's fields as `generate_report` does: `import_real` (`s5`) under 导入表真实地址 and `iat_shifting` (`s14`) under IAT表偏移. |

## Left out

- **HTTP and the database.** The axum handlers, the request and response types, and the sea_orm queries are not modelled. This covers loading the file and the knowledge rows, and writing the report back, whose result is only logged. The file bytes, the file name and the knowledge rows are inputs instead.
- **The `upload`, `init_upload_file` and `get_upload_file_info` handlers.** Only their effect on the slot is modelled, by `UploadSlot.Store`. Reading the multipart body, the md5, the snowflake id and the timestamps are I/O.
- **The file size text.** It comes from `byte_unit` formatting of a floating-point size and is an input string.
- **Concurrency.** The `tokio` mutex and `rayon`'s parallel map are not modelled. Each handler runs as one atomic step on the slot, and the parallel map is an ordered map.
- **The f64 ceiling.** `ceil(n as f64 / 16.0)` is exact integer ceiling division. That holds for every buffer below 2^53 bytes.
- PeView.AddressGroups: the `sort_by` is the identity. `AddressesAscending` proves this only for buffers up to 2^32 bytes. Beyond that, `{:08X}` addresses grow past 8 digits and the string order differs.
- PeTools.ToLower: lower-cases ASCII letters only. Rust's `to_lowercase` also maps non-ASCII letters and may change the length. Keys are hex and names are printable ASCII, so the model is exact on what `analysis` compares.
- **`from_utf8_lossy`.** It is modelled byte by byte: a byte below 0x80 is that character, and any other byte is U+FFFD. A valid multi-byte UTF-8 sequence would instead decode to one character. The report only decodes printable ASCII names (`StudyReport`), where this is exact.
- PeAnalysis.EscapeChar: `char::escape_debug` also escapes non-printable and grapheme-extending Unicode characters. The model escapes only the ASCII controls, backslash and the double quote. Knowledge names outside that range would be shown unescaped.
- PeByname.Tokenise: the contract states the slots' count and their non-empty contents, not the empty slots' positions. Only the non-empty slots survive `retain`.
