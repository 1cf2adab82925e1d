/** The mnemonic engine: the checksum (the first |entropy| / 32 bits of the
    SHA-256 digest of the entropy), the lookup of every 11-bit group in the
    2048-word list, and the two paths of the command that use them: writing
    the entropy file, and deriving the passphrase from it behind the guard
    that the word list has exactly 2048 words. SHA-256 itself is a parameter
    that returns 32 bytes; its rounds are not modelled. */
module Mnemonic {
  import opened Bits
  import opened Strings
  import BinaryFile
  import WordList

  /** The number of words the list must have: one per 11-bit value. */
  const WordListSize: nat := 2048

  /** The number of bits that select one word. */
  const GroupBits: nat := 11

  /** The number of entropy bytes the command draws. */
  const EntropyBytes: nat := 32

  /** A SHA-256 digest: 32 bytes. */
  type Digest = d: seq<bv8> | |d| == 32 witness seq(32, _ => 0)

  datatype Option<T> = None | Some(value: T)

  /** The ways the command gives up, each a fatal `log.Fatalf` or a run-time
      panic in the Go program. */
  datatype Error =
    | NotFound                          // binary.txt does not exist
    | BadWordList(count: nat)           // the word list does not have 2048 words
    | SliceOutOfRange(entropyBits: nat) // the checksum would need more than 256 digest bits

  datatype Result<T> = Ok(value: T) | Err(error: Error)

  /** Group `g` of a bit sequence: bits 11g .. 11g + 10. */
  function Group(bits: seq<bool>, g: nat): seq<bool>
    requires GroupBits * g + GroupBits <= |bits|
  {
    bits[GroupBits * g .. GroupBits * g + GroupBits]
  }

  /** The word index that group `g` selects: its big-endian value, which is
      always a valid index into a 2048-word list. */
  function Index(bits: seq<bool>, g: nat): (i: nat)
    requires GroupBits * g + GroupBits <= |bits|
    ensures i < WordListSize
  {
    ValueBound(Group(bits, g));
    assert Pow2(11) == 2048;
    Value(Group(bits, g))
  }

  /** Every complete group of `bits` selects an index that `wordList` has. */
  predicate IndicesInRange(bits: seq<bool>, wordList: seq<String>)
  {
    forall g | 0 <= g < |bits| / GroupBits :: Index(bits, g) < |wordList|
  }

  /** The words of the mnemonic for `bits`: one per complete 11-bit group, in
      order; bits after the last complete group select nothing. */
  function MnemonicWords(bits: seq<bool>, wordList: seq<String>): seq<String>
    requires IndicesInRange(bits, wordList)
  {
    seq(|bits| / GroupBits, g requires 0 <= g < |bits| / GroupBits => wordList[Index(bits, g)])
  }

  /** The checksum of Go's `checksumBits`: the first |entropyBits| / 32 bits
      of the SHA-256 digest of the packed entropy, most significant bit of
      the first digest byte first. The slice of the digest's 256 bits
      panics when more are asked for, so the entropy has at most 8223 bits. */
  function ChecksumBits(entropyBits: seq<bool>, sha256: seq<bv8> -> Digest): (cs: seq<bool>)
    requires |entropyBits| / 32 <= 256
    ensures |cs| == |entropyBits| / 32
    ensures forall i | 0 <= i < |cs| :: cs[i] == BitOf(sha256(Pack(entropyBits))[i / 8], i % 8)
  {
    ToBits(sha256(Pack(entropyBits)))[..|entropyBits| / 32]
  }

  /** The checksum of entropy that came from bytes is taken over exactly those
      bytes: the first |bytes| / 4 bits of their digest. */
  lemma ChecksumOfBytes(entropy: seq<bv8>, sha256: seq<bv8> -> Digest)
    requires |entropy| / 4 <= 256
    ensures ChecksumBits(ToBits(entropy), sha256) == ToBits(sha256(entropy))[..|entropy| / 4]
  {
    var bits := ToBits(entropy);
    PackToBits(entropy);
    assert Pack(bits) == entropy;
    assert |bits| / 32 == |entropy| / 4;
  }

  /** The passphrase for the text of the entropy file: the bits the reader
      finds, followed by their checksum, mapped group by group to words and
      joined with single spaces. */
  function PassphraseOf(text: String, wordList: seq<String>, sha256: seq<bv8> -> Digest): Result<String>
    requires |wordList| == WordListSize
  {
    var bits := BinaryFile.Filter(text);
    if |bits| / 32 > 256 then Err(SliceOutOfRange(|bits|))
    else Ok(Join(MnemonicWords(bits + ChecksumBits(bits, sha256), wordList), ' '))
  }

  /** A list of 2048 words covers every group. */
  lemma FullListInRange(bits: seq<bool>, wordList: seq<String>)
    requires |wordList| == WordListSize
    ensures IndicesInRange(bits, wordList)
  {
  }

  /** Go's `generateMnemonic`: for each complete group, reads the group with
      `bitsToInt` and appends the word at that index; then joins the words
      with single spaces. */
  method GenerateMnemonic(bits: seq<bool>, wordList: seq<String>) returns (mnemonic: String)
    requires IndicesInRange(bits, wordList)
    ensures mnemonic == Join(MnemonicWords(bits, wordList), ' ')
  {
    var wordCount := |bits| / GroupBits;
    var words: seq<String> := [];
    for i := 0 to wordCount
      invariant |words| == i
      invariant forall g | 0 <= g < i :: words[g] == wordList[Index(bits, g)]
    {
      assert GroupBits * i + GroupBits <= |bits|;
      assert bits[i * GroupBits .. (i + 1) * GroupBits] == Group(bits, i);
      var index := BitsToInt(bits[i * GroupBits .. (i + 1) * GroupBits]);
      assert index == Index(bits, i);
      words := words + [wordList[index]];
    }
    assert words == MnemonicWords(bits, wordList);
    mnemonic := Join(words, ' ');
  }

  /** The words of a mnemonic can be read back by splitting it at its
      spaces, provided no word of the list contains a space. */
  lemma MnemonicSplits(bits: seq<bool>, wordList: seq<String>)
    requires IndicesInRange(bits, wordList)
    requires |bits| >= GroupBits
    requires forall w | 0 <= w < |wordList| :: ' ' !in wordList[w]
    ensures Split(Join(MnemonicWords(bits, wordList), ' '), ' ') == MnemonicWords(bits, wordList)
  {
    SplitJoin(MnemonicWords(bits, wordList), ' ');
  }

  /** Bits after the last complete group do not change the mnemonic. */
  lemma MnemonicIgnoresTail(bits: seq<bool>, tail: seq<bool>, wordList: seq<String>)
    requires |bits| % GroupBits == 0 && |tail| < GroupBits
    requires IndicesInRange(bits, wordList)
    ensures IndicesInRange(bits + tail, wordList)
    ensures MnemonicWords(bits + tail, wordList) == MnemonicWords(bits, wordList)
  {
    assert (|bits| + |tail|) / GroupBits == |bits| / GroupBits;
    forall g | 0 <= g < |bits| / GroupBits
      ensures Index(bits + tail, g) == Index(bits, g)
    {
      assert Group(bits + tail, g) == Group(bits, g);
    }
  }

  /** Go's `generatePassphraseFromBinary`, with the file given by its text
      (None when binary.txt does not exist): reads the bits, appends their
      checksum and derives the mnemonic. */
  method GeneratePassphraseFromBinary(file: Option<String>, wordList: seq<String>, sha256: seq<bv8> -> Digest)
    returns (r: Result<String>)
    requires |wordList| == WordListSize
    ensures file.None? ==> r == Err(NotFound)
    ensures file.Some? ==> r == PassphraseOf(file.value, wordList, sha256)
  {
    if file.None? {
      return Err(NotFound);
    }
    var bits := BinaryFile.ReadBinaryFile(file.value);
    if |bits| / 32 > 256 {
      return Err(SliceOutOfRange(|bits|));
    }
    var csBits := ChecksumBits(bits, sha256);
    var allBits := bits + csBits;
    FullListInRange(allBits, wordList);
    var passphrase := GenerateMnemonic(allBits, wordList);
    r := Ok(passphrase);
  }

  /** The guard in Go's `main`: the loaded word list is used only if it has
      exactly 2048 words. */
  function CheckWordList(words: seq<String>): (r: Result<seq<String>>)
    ensures r.Ok? <==> |words| == WordListSize
    ensures r.Ok? ==> r.value == words
    ensures r.Err? ==> r.error == BadWordList(|words|)
  {
    if |words| != WordListSize then Err(BadWordList(|words|)) else Ok(words)
  }

  /** `passphrase_bitcoin -p`: loads the word list, refuses to go on unless it
      has 2048 words, then derives the passphrase from the entropy file. */
  method PassphraseCommand(wordListText: String, file: Option<String>, sha256: seq<bv8> -> Digest)
    returns (r: Result<String>)
    ensures var words := WordList.Loaded(wordListText);
            if |words| != WordListSize then r == Err(BadWordList(|words|))
            else if file.None? then r == Err(NotFound)
            else r == PassphraseOf(file.value, words, sha256)
  {
    var words := WordList.LoadWordList(wordListText);
    var checked := CheckWordList(words);
    if checked.Err? {
      return Err(checked.error);
    }
    r := GeneratePassphraseFromBinary(file, words, sha256);
  }

  /** `passphrase_bitcoin -b`: loads and checks the word list like every
      other command, then lays out the 32 entropy bytes (drawn by the caller)
      as the text of the entropy file. */
  method BinaryCommand(wordListText: String, entropy: seq<bv8>) returns (r: Result<String>)
    requires |entropy| == EntropyBytes
    ensures var words := WordList.Loaded(wordListText);
            if |words| != WordListSize then r == Err(BadWordList(|words|))
            else r == Ok(BinaryFile.Layout(ToBits(entropy)))
  {
    var words := WordList.LoadWordList(wordListText);
    var checked := CheckWordList(words);
    if checked.Err? {
      return Err(checked.error);
    }
    var text := BinaryFile.WriteBinaryFile(entropy);
    r := Ok(text);
  }

  /** From 32 entropy bytes to 24 words: the entropy file written for them
      reads back as their 256 bits, the checksum is the 8 bits of the first
      digest byte, and the 264 bits give 24 words, the last of which is
      selected by the final 3 entropy bits and the 8 checksum bits. */
  lemma EntropyToMnemonic(entropy: seq<bv8>, wordList: seq<String>, sha256: seq<bv8> -> Digest)
    requires |entropy| == EntropyBytes && |wordList| == WordListSize
    ensures var allBits := ToBits(entropy) + ByteBits(sha256(entropy)[0]);
            && |allBits| == 264
            && |MnemonicWords(allBits, wordList)| == 24
            && Group(allBits, 23) == ToBits(entropy)[253..] + ByteBits(sha256(entropy)[0])
            && PassphraseOf(BinaryFile.Layout(ToBits(entropy)), wordList, sha256)
               == Ok(Join(MnemonicWords(allBits, wordList), ' '))
  {
    var bits := ToBits(entropy);
    var cs := ByteBits(sha256(entropy)[0]);
    BinaryFile.LayoutRoundTrip(bits);
    ChecksumOfBytes(entropy, sha256);
    assert ToBits(sha256(entropy))[..8] == cs;
    var allBits := bits + cs;
    assert Group(allBits, 23) == bits[253..] + cs;
  }

  lemma {:induction false} ValueOfZeros(n: nat)
    ensures Value(seq(n, _ => false)) == 0
  {
    if n > 0 {
      assert seq(n, _ => false)[..n - 1] == seq(n - 1, _ => false);
      ValueOfZeros(n - 1);
    }
  }

  /** All-zero entropy begins the mnemonic with the first word of the list:
      its leading 11 bits are zero. */
  lemma ZeroEntropyFirstWord(wordList: seq<String>, sha256: seq<bv8> -> Digest)
    requires |wordList| == WordListSize
    ensures var allBits := ToBits(seq(EntropyBytes, _ => 0)) + ByteBits(sha256(seq(EntropyBytes, _ => 0))[0]);
            |MnemonicWords(allBits, wordList)| > 0 && MnemonicWords(allBits, wordList)[0] == wordList[0]
  {
    var entropy: seq<bv8> := seq(EntropyBytes, _ => 0);
    var allBits := ToBits(entropy) + ByteBits(sha256(entropy)[0]);
    assert Group(allBits, 0) == seq(11, _ => false);
    ValueOfZeros(11);
  }
}
