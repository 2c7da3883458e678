# arm64 early console (earlyprintk)

A Dafny model of the arm64 kernel's early console, `arch/arm64/kernel/early_printk.c`:
the console that prints boot diagnostics before any device driver exists. It has three parts.

- **Backend registry** (`Registry`): the fixed, ordered table of backend names and their
  single-character transmit functions (`pl011`, `smh`, `uart8250-8bit`, `uart8250-32bit`,
  `msm_hsl_uart`). The first name that is a literal prefix of the argument is selected.
- **Boot-argument parser** (`EarlyPrintk.EarlyConsole.Setup`): handles `earlyprintk=<name>[,0x<addr>][,<options>]`.
  It rejects a NULL argument and scans the table. It consumes the matched name and, after `",0x"`,
  reads a hexadecimal address (`StrToUL`, the base-16 `simple_strtoul`). A nonzero address is
  remapped to become `early_base`. Then `printch` is set and the console registered.
  The return value is always 0.
- **Line writer** (`EarlyPrintk.EarlyConsole.Write`): `early_write` sends `n` characters through the
  active sink, with a carriage return before each line feed. Its specification is
  `LineDiscipline.Expand`.

The globals `early_base` and `printch`, the registration of `early_console` and the
`pr_warning` messages are fields of the class `EarlyPrintk.EarlyConsole`. Every transmit
function becomes an append to the field `trace`. The one exception is `msm_hsl_uart` when the
`CONFIG_SHSYS_CUST` build option (field `shrinkPrintk`) compiles its body out: then it sends nothing.

Only NULL is checked, so an empty argument `""` reaches the "Unknown earlyprintk arguments"
path, not the "No earlyprintk arguments" one (`Registry.EmptyArgumentUnknown`). `early_base` is
only overwritten when the parsed address is nonzero; otherwise it keeps its earlier value.

Each Dafny `char` stands for one C byte. Argument strings are the text of a NUL-terminated C
string, so they hold no NUL. The buffer given to `Write` is counted, not terminated: it may hold
any character, NUL included, and `n` counts bytes.

## Model

| member | source | states |
|---|---|---|
| Registry.FirstMatchFrom | arch/arm64/kernel/early_printk.c:154-161 | the scan from entry i yields an entry whose name prefixes the argument with no matching entry between i and it, or none when no entry from i on matches |
| Registry.FirstMatchIsLeast | arch/arm64/kernel/early_printk.c:154-161 | the selected entry is i exactly when i's name prefixes the argument and no earlier name does (first match wins, both directions) |
| Registry.NoMatchIffNoPrefix | arch/arm64/kernel/early_printk.c:162-165 | nothing is selected exactly when no table name is a prefix of the argument |
| Registry.OwnNameSelected | arch/arm64/kernel/early_printk.c:110-117 | every entry's name followed by any text selects that entry: no earlier name captures a later one in declaration order |
| Registry.TrailingTextStillMatches | arch/arm64/kernel/early_printk.c:156 | "pl011xyz" selects pl011, since matching compares only the name's length |
| Registry.EmptyArgumentUnknown | arch/arm64/kernel/early_printk.c:149-165 | the empty argument matches no entry and so takes the unknown-argument path, not the NULL path |
| StrToUL.HexRun | arch/arm64/kernel/early_printk.c:170 | the digit run is all hex digits and is maximal: the next character, if any, is not a hex digit |
| StrToUL.StrToUL16 | arch/arm64/kernel/early_printk.c:170 | the value fits in 64 bits; the end index lies after the optional 0x, covers only hex digits and stops at the first non-digit (the value itself is given by StrToUL16Digits) |
| StrToUL.StrToUL16Digits | arch/arm64/kernel/early_printk.c:170-171 | "0x" plus any hex digit string plus text not starting with a digit parses to the digits' value modulo 2^64 and ends right after the digits |
| StrToUL.StrToUL16After0x | arch/arm64/kernel/early_printk.c:170 | after "0x", the parse reads exactly the leading run of digits and gives its value modulo 2^64 |
| StrToUL.LeadingZero | arch/arm64/kernel/early_printk.c:170 | a leading zero digit leaves the value unchanged, so "0x09000000" and "0x9000000" give the same address |
| StrToUL.LowerHex | arch/arm64/kernel/early_printk.c:170 | lowering a hex digit keeps it a digit of the same value, and no A-F remains |
| StrToUL.HexValueIgnoresCase | arch/arm64/kernel/early_printk.c:170 | upper-case digits A-F have the value of their lower-case forms |
| StrToUL.HexValueToHex | arch/arm64/kernel/early_printk.c:170 | reading the hex spelling of n yields n |
| StrToUL.HexRunStops | arch/arm64/kernel/early_printk.c:170 | the digit run ends exactly where the digits end when the following text starts with a non-digit |
| StrToUL.StrToUL16RoundTrip | arch/arm64/kernel/early_printk.c:168-171 | "0x" plus the spelling of a 64-bit n plus trailing non-digit text parses to n, consuming exactly the number |
| StrToUL.StrToUL16Wraps | arch/arm64/kernel/early_printk.c:170 | a number of any size parses to its value modulo 2^64 |
| StrToUL.OverflowReadsZero | arch/arm64/kernel/early_printk.c:170-176 | 0x10000000000000000 reads as 0, so such an address leaves early_base untouched |
| LineDiscipline.ExpandAppend | arch/arm64/kernel/early_printk.c:121-126 | translating a concatenation is the concatenation of the translations, so characters are translated one at a time |
| LineDiscipline.ExpandSnoc | arch/arm64/kernel/early_printk.c:122-124 | one character more adds CR LF for a line feed and the character itself otherwise |
| LineDiscipline.ExpandLength | arch/arm64/kernel/early_printk.c:121-126 | the output length is the input length plus the number of line feeds |
| LineDiscipline.ExpandHead | arch/arm64/kernel/early_printk.c:122-123 | the translation never starts with a bare line feed |
| LineDiscipline.StripExpand | arch/arm64/kernel/early_printk.c:121-126 | removing each CR that precedes an LF gives back the input, so every input character is sent in order and only CRs are added |
| LineDiscipline.CarriageReturnBeforeLineFeed | arch/arm64/kernel/early_printk.c:122-124 | every LF in the output has a CR immediately before it |
| LineDiscipline.ExpandWithoutLineFeeds | arch/arm64/kernel/early_printk.c:122-124 | text without line feeds is sent unchanged: nothing is inserted before other characters |
| LineDiscipline.ExpandExample | arch/arm64/kernel/early_printk.c:121-126 | "ab\ncd" goes out as a, b, CR, LF, c, d |
| EarlyPrintk.PhysAddr | arch/arm64/kernel/early_printk.c:167-173 | the address is below 2^64, and it is 0 unless the text after the name starts with ",0x" |
| EarlyPrintk.AddressAfterName | arch/arm64/kernel/early_printk.c:168-173 | ",0x" plus any hex digit string plus options that do not start with a digit gives the digits' value modulo 2^64; the options are ignored |
| EarlyPrintk.NameWithAddress | arch/arm64/kernel/early_printk.c:154-173 | "<name>,0x<digits><options>" selects that name's entry and the value of the digits, in any case and with any leading zeros |
| EarlyPrintk.NameWithCanonicalAddress | arch/arm64/kernel/early_printk.c:154-173 | a name followed by ",0x" and the spelling of a 64-bit address selects that entry and exactly that address |
| EarlyPrintk.NameWithoutAddress | arch/arm64/kernel/early_printk.c:154-173 | a bare name (the smh form) selects its entry with address 0 |
| EarlyPrintk.ZeroAddressIsNoAddress | arch/arm64/kernel/early_printk.c:175-176 | an explicit ",0x0" yields address 0, on which no remap happens |
| EarlyPrintk.OptionsWithoutAddress | arch/arm64/kernel/early_printk.c:167-173 | text after the name that does not start with ",0x" still selects the name and gives no address |
| EarlyPrintk.Lookup | arch/arm64/kernel/early_printk.c:154-165 | the table scan returns the first matching index, or the table length (the sentinel) exactly when nothing matches |
| EarlyPrintk.EarlyConsole.constructor | arch/arm64/kernel/early_printk.c:31-32 | at boot early_base and printch are NULL, nothing is registered, sent or logged |
| EarlyPrintk.EarlyConsole.Printch | arch/arm64/kernel/early_printk.c:37-103 | the active sink appends the character to the trace; the msm_hsl_uart sink built with CONFIG_SHSYS_CUST appends nothing |
| EarlyPrintk.EarlyConsole.Write | arch/arm64/kernel/early_printk.c:119-127 | the trace grows by exactly Expand(s[0..n)), which is n plus the line-feed count long; nothing when the sink is compiled out |
| EarlyPrintk.EarlyConsole.Setup | arch/arm64/kernel/early_printk.c:144-183 | returns 0; NULL logs a warning and changes nothing else; an unknown argument logs it and changes nothing else; a match sets printch to that entry's sink, registers the console, and remaps early_base only for a nonzero address |
| EarlyPrintk.BootSequence | arch/arm64/kernel/early_printk.c:144-183 | an unknown argument followed by a valid one ends with the valid one's sink and remapped address and one warning, and a write then sends Expand(text) |

## Left out

- The register protocols of `pl011_printch`, `uart8250_8bit_printch`, `uart8250_32bit_printch`
  and `msm_hsl_uart_printch` (memory-mapped reads and writes with unbounded busy-waits) are not
  modelled. Each becomes an append to `trace`.
- `smh_printch` is an inline-assembly semihosting trap. It is modelled as an append to `trace`.
- `set_fixmap_offset_io` is a kernel service. Its result is the value `FixmapIo(paddr)`; the
  fixmap address arithmetic is not modelled.
- `register_console` and the `early_console` assignment are modelled as the flag `registered`.
  What the console framework does with the console is not modelled.
- `pr_warning` is modelled as a log of warning tags. The message text is not kept.
- The `early_param` hook and the tokenizing of the kernel command line are not modelled. `Setup`
  receives the argument text, or `None` for NULL.
- The flags and index of `early_console_dev` are constant data, so they are not modelled.
- `simple_strtoul` is defined in lib/vsprintf.c and lib/kstrtox.c, outside the modelled file.
  Its base-16 behaviour is modelled by `StrToUL16`. It skips a leading `0x`/`0X`, reads the longest
  run of digits `0-9a-fA-F`, and wraps the value modulo 2^64 like a 64-bit `unsigned long`.
- Argument strings hold no NUL: they are the text before the C terminator. The buffer of `Write` is
  counted and may hold any character; each `char` models one byte.
- EarlyPrintk.EarlyConsole.Printch: the memory-mapped sinks (pl011, both 8250 variants and
  msm_hsl_uart) write through `early_base`, but the model does not record which base a character
  went through. When one of them is chosen with no address, with `,0x0` or with an address that
  wraps to 0, the console is still registered. The C code then writes through a NULL or stale
  `early_base`, while the model's trace still shows the characters as sent.
- EarlyPrintk.EarlyConsole.Write: inherits this from Printch. Its trace is the text the sink was
  asked to send, whether or not a usable `early_base` was set.
- EarlyPrintk.EarlyConsole.Write: the count is an unbounded `nat`, not a 32-bit `unsigned`.
  This makes no difference, because the loop counts down to 0 and never wraps.
