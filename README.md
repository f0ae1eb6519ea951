# checksec ELF mitigation classifier, in Dafny

This project models the core of `checksec`, a Rust tool that reports which
hardening mitigations an ELF executable or shared object carries. Two
source files are covered.

- `src/elf.rs`: the `Properties` impl on the parsed ELF file. These are the
  architecture label (`arch`), the fixed load address (`address`) and the
  RELRO strength (`has_relro`). Then come the stack-canary heuristic
  (`has_canary`), the NX check (`has_nx`), the PIE classification
  (`has_pie`) and the FORTIFY heuristic (`has_fortify`).
- `src/checksec.rs`: the `CheckSecResults` record, its `parse` constructor,
  and `Display::fmt`, which prints the labelled report lines.

The ELF parser's output is taken as an abstract value, `Elf.Elf`. It holds
`e_type`, the program headers as `(p_type, p_flags, p_vaddr)`, and an
optional dynamic section: its `(d_tag, d_val)` entries plus the parser's
separately derived `info.flags_1`. It also holds an optional list of
dynamic-string-table names (`None` when the table cannot be read). The
parser's names for the machine and the class come in as the strings
`machineName` and `className`. The constants are those of the System V
gABI (chapters 4 and 5) and its GNU extensions. `u16`, `u32` and `u64` are
subset types of `int` with the source's widths. `d_val` and `flags_1` are
`bv64`, because the source tests them with bitwise and.

Module layout: `Wrappers` (an `Option`), `Strings` (the Rust string and
formatting operations the source uses), `Elf` (src/elf.rs) and `Checksec`
(src/checksec.rs).

The three loop-based classifiers are methods with loop invariants. Each is
proved equal to a declarative specification function:

- `Elf.Address` is proved equal to `Elf.AddressOf`. That function is the
  minimum `PT_LOAD` address after the last `PT_LOAD` at address 0, or 0.
- `Elf.HasRelro` is proved equal to `Elf.RelroOf`, and `Elf.HasNx` to
  `Elf.NxOf`.
- `Checksec.Fmt` appends to the output string step by step, as the source
  writes to its formatter. It is proved to produce `Checksec.Lines` joined
  by newlines, with no newline after the last line.

Three behaviours of the code are worth stating on their own terms.

- A `PT_LOAD` at address 0 resets the running base address to 0, so the
  next `PT_LOAD` replaces it whatever its address
  (`Elf.AddressNotPlainMinimum`).
- `replace` removes every "ELF" in one left-to-right pass
  (`Strings.RemoveAllSinglePass`).
- `has_pie` reads `info.flags_1`, which is kept apart from the `DT_FLAGS_1`
  entries that `has_relro` inspects.

## Model

| member | source | states |
|---|---|---|
| `Strings.Join` | src/elf.rs:38 | `join`: the result begins with the first part and ends with the last, with the separator right before the last when there are two or more parts. |
| `Strings.JoinThree` | src/elf.rs:38 | Joining three parts with a separator puts the separator exactly between them. |
| `Strings.RemoveAll` | src/elf.rs:35 | `replace(pat, "")` never lengthens the string, leaves it unchanged when it removes nothing, and drops at least one whole pattern when the string starts with it. |
| `Strings.RemoveAllAbsent` | src/elf.rs:35 | `replace(pat, "")` leaves a string with no occurrence of `pat` unchanged. |
| `Strings.RemoveAllSinglePass` | src/elf.rs:35 | `replace` is one left-to-right pass: "EELFLF" becomes "ELF", not "". |
| `Strings.PadRight` | src/checksec.rs:40 | `{:<10}`: the text keeps its characters, then spaces up to the width; it is never cut. |
| `Strings.LowerHex` | src/checksec.rs:80 | `{:x}` digits are non-empty lower-case hex digits, with a leading '0' only for zero. |
| `Strings.HexRoundTrip` | src/checksec.rs:80 | Reading the printed hex digits back gives the number again. |
| `Strings.AltLowerHexRoundTrip` | src/checksec.rs:80 | `{:#x}` starts with "0x", and the number reads back from the digits after it. |
| `Elf.Arch` | src/elf.rs:31-39 | `arch` begins with the machine name and "-", and ends with "-" and the byte order. |
| `Elf.ArchLayout` | src/elf.rs:31-39 | `arch` is machine, "-", class with "ELF" removed, "-", byte order; it ends in "little" iff the file is little-endian. |
| `Elf.ClassNames` | src/elf.rs:35 | As facts about these literal strings: removing "ELF" from "ELF32", "ELF64" and "ELFCLASSNONE" leaves "32", "64" and "CLASSNONE". |
| `Elf.LoadVaddrsMembers` | src/elf.rs:44-45 | The addresses the scan looks at are exactly the `p_vaddr` of the `PT_LOAD` headers. |
| `Elf.AddressOf` | src/elf.rs:41-51 | The base address is 0 for `ET_DYN`, and otherwise 0 or the address of some `PT_LOAD` header. |
| `Elf.BaseAddressStep` | src/elf.rs:45-48 | One more `PT_LOAD` moves the reference base address exactly as one step of the loop does. |
| `Elf.Address` | src/elf.rs:41-52 | The loop returns the reference base address: the minimum `PT_LOAD` address after the last zero one, 0 if none, 0 for `ET_DYN`. |
| `Elf.AddressWithoutLoad` | src/elf.rs:42-51 | With no `PT_LOAD` header the address is 0. |
| `Elf.AddressIsMinimumLoad` | src/elf.rs:43-51 | For a file that is not `ET_DYN`, when every `PT_LOAD` address is non-zero, the result is the smallest `PT_LOAD` address. |
| `Elf.AddressNotPlainMinimum` | src/elf.rs:45-47 | Loads at 0x400000, 0, 0x600000 give 0x600000: not the minimum and not the minimum non-zero address. |
| `Elf.HasRelro` | src/elf.rs:54-88 | The nested scan with early return gives `None` iff there is no `PT_GNU_RELRO`. It gives `Full` iff such a header exists, the dynamic section is present, and some entry is `DT_BIND_NOW`, `DT_FLAGS` with `DF_BIND_NOW`, or `DT_FLAGS_1` with `DF_1_NOW`. Otherwise it gives `Partial`. |
| `Elf.RelroIgnoresDynOrder` | src/elf.rs:62-79 | Any reordering of the dynamic entries gives the same RELRO result. |
| `Elf.RelroStaticIsPartial` | src/elf.rs:58-85 | A `PT_GNU_RELRO` header without a dynamic section gives `Partial`. |
| `Elf.HasCanary` | src/elf.rs:90-97 | True iff the string table is readable and holds "__stack_chk_fail" or "__intel_security_cookie" exactly. |
| `Elf.FirstOfType` | src/elf.rs:101-102 | Finds the first header of a type: that header has the type and none before it does; `None` iff no header has it. |
| `Elf.HasNx` | src/elf.rs:99-111 | The scan with early return decides by the first `PT_GNU_STACK` header: false iff its flags equal `PF_R + PF_W + PF_X`; false when there is none. |
| `Elf.NxWithoutStack` | src/elf.rs:101-110 | With no `PT_GNU_STACK` header, NX is off. |
| `Elf.NxFirstStackDecides` | src/elf.rs:101-108 | With no stack header before it, a `PT_GNU_STACK` header decides NX (on iff its flags are not 7), whatever headers follow. |
| `Elf.NxExactFlagsOnly` | src/elf.rs:103 | Flags 7 plus an extra bit leave NX on: the test is equality, not a mask. |
| `Elf.HasPie` | src/elf.rs:113-130 | `REL` iff `ET_REL`; `PIE` iff `ET_DYN` with a dynamic section whose `flags_1` has all `DF_1_PIE` bits; `DSO` iff `ET_DYN` without that; `None` for every other type, `ET_EXEC` included. |
| `Elf.PieIgnoresProgramHeaders` | src/elf.rs:113-130 | Program headers never affect the PIE result. |
| `Elf.HasFortify` | src/elf.rs:132-138 | True iff the string table is readable and some name in it ends in "_chk"; false when it cannot be read. |
| `Elf.StackChkFailIsNotFortify` | src/elf.rs:93 | "__stack_chk_fail" counts for the canary but does not end in "_chk". |
| `Elf.SymbolChecksMonotone` | src/elf.rs:90-138 | Adding names can only turn the canary and FORTIFY checks on. |
| `Elf.SymbolChecksIgnoreDuplicates` | src/elf.rs:90-138 | Repeating a name already present changes neither check. |
| `Elf.CanarySymbolEnablesCanary` | src/elf.rs:91-93 | Adding either canary symbol to a readable table turns the canary check on. |
| `Checksec.Parse` | src/checksec.rs:23-34 | Each field holds the like-named classifier's result on the same file; `rwx_segments` is the given flag. |
| `Checksec.Line` | src/checksec.rs:40 | A `"{}{:<10}{}"` line's length is 4 + max(10, \|title\|) + \|value\|; `Checksec.LineLayout` gives the columns. |
| `Checksec.LineLayout` | src/checksec.rs:39-43 | A line is four spaces, the title left-aligned in 10 columns, then the value from column 14. |
| `Checksec.RelroText` | src/checksec.rs:46-50 | The RELRO value ends in " RELRO", and its initial 'N', 'P' or 'F' tells `None`, `Partial` and `Full` apart. |
| `Checksec.StackText` | src/checksec.rs:57-60 | The Stack value ends in "anary found", and starts with 'N' exactly when no canary was found. |
| `Checksec.NxText` | src/checksec.rs:67-70 | The NX value is "NX " then "enabled" or "disabled", as `nx` says. |
| `Checksec.PieText` | src/checksec.rs:77-82 | The PIE value is "PIE enabled" exactly for `PIE` and `DSO`; otherwise it starts with "No PIE (0x" and ends with ")". |
| `Checksec.PieTextRoundTrip` | src/checksec.rs:77-82 | The PIE value shows a `{:#x}` address exactly for `None` and `REL`, and that address reads back. For `PIE` and `DSO` it is "PIE enabled". |
| `Checksec.Lines` | src/checksec.rs:39-93 | Arch, RELRO, Stack, NX and PIE lines always come, in order. Then a FORTIFY line iff `fortify`, then an RWX line iff `rwx_segments`. |
| `Checksec.LinesDetermineResult` | src/checksec.rs:46-93 | Equal reports mean equal arch, RELRO, canary, NX, FORTIFY and RWX, and the same PIE-or-not. The base address also matches when the file is not PIE. |
| `Checksec.Fmt` | src/checksec.rs:38-95 | The formatter output is the report lines joined by newlines, with no newline after the last. |

## Left out

- `checksec()` (src/checksec.rs:98-118) is left out. It reads the file, runs the object parser, prints with `println!`, and Debug-prints PE, Mach-O, archive and unknown objects. That is I/O and foreign code.
- src/main.rs is not part of this model. It holds command-line parsing, the usage exit when no file is given, and the loop that discards each file's result.
- The ELF parser is not modelled. Its `machine_to_str` and `class_to_str` results are input strings, `dynstrtab.to_vec()` is an optional list of names, and `info.flags_1` is an input word not tied to the `DT_FLAGS_1` entries.
- `has_rwx_segments` is an opaque boolean input to `Checksec.Parse`. It is defined in neither src/elf.rs nor src/checksec.rs, and the `Properties` trait at src/elf.rs:20-28 does not declare it, so no RWX rule is stated.
- Colour escapes (`.red()`, `.green()`, `.yellow()`) are terminal presentation only. The report is modelled without them.
- The second `CheckSecResults` and its `Display` in src/elf.rs:141-219 are not modelled separately. They are the src/checksec.rs version without the RWX field and line.
- Checksec.Fmt: a formatter write error, which the source passes on with `?`, is not modelled. Every write is taken to succeed.
