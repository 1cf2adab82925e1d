# BIP-39 passphrase generator: entropy to mnemonic, in Dafny

This project models the core of `passphrase_bitcoin`, a small Go command
that derives a BIP-39 mnemonic from 256 bits of entropy. It follows the
"Generating the mnemonic" section of BIP-39. The command writes the entropy
to a hand-editable text file, `binary.txt`. It later reads that file back,
appends a SHA-256 checksum and maps every 11-bit group to a word of a
2048-word list. The model proves properties of each step.

Five modules, one per piece of `main.go`:

- `Strings` (`strings.dfy`): the parts of Go's `strings` package the
  program uses. These are `Split` and `Join` on one character, `TrimSpace`
  with Go's `unicode.IsSpace`, and `TrimPrefix`.
- `Bits` (`bits.dfy`): the bit codec. `bytesToBits`, `bitsToBytes` and
  `bitsToInt` are methods with loops, proved against the specification
  functions `ToBits`, `Pack` and `Value`. `bitsToBytes` keeps its in-place
  array of bytes. Bytes are `bv8`.
- `BinaryFile` (`binaryfile.dfy`): the text layout that `writeBinaryFile`
  produces (specified by `Layout`) and the character filter of
  `readBinaryFile` (specified by `Filter`).
- `WordList` (`wordlist.dfy`): `loadWordList`. It splits on `'\n'`, trims
  white space, then trims a leading U+FEFF, and drops empty lines
  (specified by `Loaded`).
- `Mnemonic` (`mnemonic.dfy`): `checksumBits`, `generateMnemonic`,
  `generatePassphraseFromBinary` and the 2048-word guard of `main` for the
  `-b` and `-p` commands. SHA-256 is a parameter of type
  `seq<bv8> -> Digest`, where a `Digest` is 32 bytes. Fatal errors are
  values of `Result`: a missing `binary.txt` gives `NotFound`, and a word
  list of the wrong size gives `BadWordList`. A checksum longer than the
  digest's 256 bits makes the Go slice panic; the model returns
  `SliceOutOfRange` there.

Behaviour of `main.go` worth knowing:

- The writer adds its final newline only when the group counter is not
  zero. So a last line of 1 to 10 bits that begins a new line of six groups
  gets no newline. Examples are 67 bits, or 72 bits (9 bytes).
  `BinaryFile.LayoutEndsWithNewline` states exactly when the text ends with
  a newline. For the 32 bytes the command writes, it always does.
- The reader does not reject an empty bit sequence. An entropy file with no
  `0` or `1` in it derives the empty passphrase.
- The word-list guard runs before `-b`, `-p` and `-q`. With `-h`, or with no flag, `main` prints the help and returns before loading the word list.

## Model

| member | source | states |
|---|---|---|
| `Bits.ToBits` | main.go:209-218 | the expansion has 8 bits per byte, and bit p is bit p % 8 of byte p / 8, counted from the most significant |
| `Bits.BytesToBits` | main.go:210-218 | the nested append loop produces exactly `ToBits(b)` |
| `Bits.Pack` | main.go:220-230 | packing gives ceil(n/8) bytes; bit p of the input is bit p % 8 of byte p / 8, and every padding bit is 0 |
| `Bits.BitsToBytes` | main.go:221-230 | the in-place `out[i/8] \|= 1 << (7 - i%8)` loop over a zeroed array produces exactly `Pack(bits)` |
| `Bits.PackToBits` | main.go:210-230 | bytes to bits to bytes is the identity on every byte sequence |
| `Bits.ToBitsPack` | main.go:210-230 | bits to bytes to bits gives the bits back, followed by the zero padding of the last byte |
| `Bits.BitsToInt` | main.go:232-242 | the shift-and-or loop yields the big-endian value modulo 2^64, read as a signed 64-bit `int`; for up to 63 bits it is the exact value and lies in [0, 2^n) |
| `Bits.ValueBound` | main.go:233-242 | an n-bit group has a value below 2^n |
| `Bits.ValueMsbFirst` | main.go:233-242 | reading the bits most significant first: the value is the first bit times 2^(n-1) plus the value of the remaining n-1 bits |
| `Bits.ValueIsWeightedSum` | main.go:233-242 | the value is the sum of bits[i]·2^(n-1-i), with `WeightedSum` as that sum |
| `BinaryFile.CounterStep` | main.go:137-145 | the group counter reaches 6 exactly when the bit just written closes a line of 66 bits, and it always equals the number of complete groups on the current line |
| `BinaryFile.FormatBits` | main.go:129-149 | the write loop, with its group counter, prints exactly `Layout(bits)` |
| `BinaryFile.WriteBinaryFile` | main.go:120-151 | the text written for some entropy is the layout of its bit expansion |
| `BinaryFile.LayoutShape` | main.go:130-149 | bit i is printed at i + i/11 + i/66; a space follows every 11th bit, a newline follows every 6th group, and the length is that of the bits, spaces, newlines and the optional final newline |
| `BinaryFile.LayoutAlphabet` | main.go:131-148 | the layout holds only '0', '1', ' ' and '\n' |
| `BinaryFile.LayoutEndsWithNewline` | main.go:137-149 | the text ends in a newline exactly when it has bits and the last line does not hold 1 to 10 bits |
| `BinaryFile.LayoutRoundTrip` | main.go:130-149 | reading the written layout gives back exactly the bits that were written |
| `BinaryFile.ReadBinaryFile` | main.go:162-173 | the reading loop yields exactly `Filter(text)` |
| `BinaryFile.FilterIgnores` | main.go:165-171 | inserting any character other than '0' and '1' anywhere leaves the bits read unchanged |
| `BinaryFile.FilterBinaryText` | main.go:165-171 | on a text of '0' and '1' only, every character is read in order, '1' as true and '0' as false |
| `BinaryFile.FilterAppend` | main.go:163-171 | reading distributes over concatenation, so bits come out in text order |
| `Strings.Split` | main.go:107 | there is at least one piece, no piece holds the separator, and joining the pieces gives the text back |
| `Strings.SplitJoin` | main.go:107 | splitting a join of separator-free pieces returns the pieces |
| `Strings.JoinLength` | main.go:198 | a join is as long as its elements plus one separator per gap |
| `Strings.TrimLeft` | main.go:110 | drops exactly the leading white space: the result is a suffix that does not start with white space |
| `Strings.TrimRight` | main.go:110 | drops exactly the trailing white space: the result is a prefix that does not end with white space |
| `Strings.TrimSpace` | main.go:110 | the result is a contiguous slice of the input; only white space lies outside it, and it neither starts nor ends with white space |
| `WordList.NonEmpty` | main.go:112-114 | every kept string is a non-empty element of the input, and there are at most as many as in the input |
| `WordList.NonEmptyAppend` | main.go:109-115 | the kept words of two runs of lines are those of the first followed by those of the second, so order is preserved |
| `WordList.NonEmptyKeepsAll` | main.go:112-114 | a list without empty strings is kept whole |
| `WordList.CleanLineShape` | main.go:110-111 | a cleaned line gains no newline and does not end in white space |
| `WordList.LoadedWords` | main.go:106-117 | no loaded word is empty, holds a newline or ends in white space |
| `WordList.LoadRoundTrip` | main.go:106-117 | a list of clean words written one per line loads back as exactly that list |
| `WordList.LoadRoundTripWithBom` | main.go:110-111 | the same holds with a byte-order mark at the start of the text |
| `WordList.LoadWordList` | main.go:106-117 | the loop yields exactly `Loaded(text)`: the non-empty lines after trimming white space and then a leading U+FEFF, in order |
| `Mnemonic.Index` | main.go:195 | the value of every 11-bit group is below 2048 |
| `Mnemonic.ChecksumBits` | main.go:202-207 | the checksum has \|entropy bits\|/32 bits, and bit i is bit i % 8 of byte i / 8 of SHA-256 of the packed entropy |
| `Mnemonic.ChecksumOfBytes` | main.go:202-207 | for entropy that came from bytes, the checksum is the first \|bytes\|/4 bits of the digest of exactly those bytes |
| `Mnemonic.FullListInRange` | main.go:40-42 | with 2048 words every group's lookup is in bounds |
| `Mnemonic.GenerateMnemonic` | main.go:191-199 | the lookup loop gives the \|bits\|/11 words `wordList[Value(group i)]`, in order, joined with single spaces |
| `Mnemonic.MnemonicSplits` | main.go:198 | when no listed word holds a space, splitting the mnemonic at spaces gives back its words |
| `Mnemonic.MnemonicIgnoresTail` | main.go:192-197 | bits after the last complete 11-bit group do not change the mnemonic |
| `Mnemonic.GeneratePassphraseFromBinary` | main.go:177-188 | a missing file gives `NotFound`; otherwise the result is the mnemonic of the filtered bits followed by their checksum |
| `Mnemonic.CheckWordList` | main.go:39-42 | the word list is accepted exactly when it has 2048 words, and is otherwise refused with its size |
| `Mnemonic.PassphraseCommand` | main.go:39-63 | `-p` refuses a word list without 2048 words and otherwise derives the passphrase from the entropy file |
| `Mnemonic.BinaryCommand` | main.go:39-56 | `-b` refuses a word list without 2048 words and otherwise writes the layout of the 32 entropy bytes |
| `Mnemonic.EntropyToMnemonic` | main.go:44-63 | for 32 entropy bytes: 256 + 8 = 264 bits, 24 words; the last group is the 3 final entropy bits and the first digest byte; the passphrase from the written file is the joined words |
| `Mnemonic.ZeroEntropyFirstWord` | main.go:191-199 | all-zero entropy starts the mnemonic with word 0 of the list |

## Left out

- Command-line flag parsing and the help text (`main.go:20-37`, `79-103`): these only choose which of the modelled paths runs.
- QR-code rendering through `github.com/skip2/go-qrcode` (`main.go:66-74`): third-party code; the model ends at the passphrase string.
- `crypto/rand.Read` (`main.go:46-50`): OS randomness; the 32 entropy bytes are a parameter, and the failure to draw them is not modelled.
- SHA-256 (`main.go:204`): a parameter that returns 32 bytes; its rounds are not modelled.
- File operations (`os.Create`, `os.Open`, `os.Stat`, `bufio` flushing and scanning): the writer returns the file's text and the reader takes it. A missing file is `None`. Create, write, flush and read errors are not modelled, and neither is the scanner's 64 KiB limit on one line.
- BinaryFile.ReadBinaryFile: walks the whole text instead of splitting it into lines with `bufio.Scanner` first. The scanner drops only line terminators, which the filter ignores anyway.
- `log.Fatalf` and the slice panic: modelled as `Err` results, not as process exit.
- The embedded `english.txt`: the word-list text is a parameter.
- Go strings are UTF-8 bytes; here they are sequences of code points, so invalid UTF-8 is not modelled.
- A reverse lookup of a single word or bit group: `main.go` has none, so the model has none.
