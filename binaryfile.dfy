/** The text layout of the entropy file `binary.txt`: the writer prints one
    character per bit, a space after every 11-bit group and a newline after
    every 6 groups; the reader keeps the '0' and '1' characters and ignores
    everything else. Opening, creating, flushing and scanning the file are
    not part of this model: the writer produces the file's text and the
    reader consumes it. */
module BinaryFile {
  import Bits

  /** The character the writer prints for one bit. */
  function BitChar(b: bool): char
  {
    if b then '1' else '0'
  }

  /** What the writer prints for bit `i`: the bit, then a space if it closes
      an 11-bit group, then a newline if that group closes a line of six. */
  function Emit(bits: seq<bool>, i: nat): seq<char>
    requires i < |bits|
  {
    [BitChar(bits[i])]
    + (if (i + 1) % 11 == 0 then [' '] else [])
    + (if (i + 1) % 66 == 0 then ['\n'] else [])
  }

  /** What the writer's loop has printed after the first `n` bits. */
  function Body(bits: seq<bool>, n: nat): seq<char>
    requires n <= |bits|
  {
    if n == 0 then [] else Body(bits, n - 1) + Emit(bits, n - 1)
  }

  /** The whole text of the entropy file for `bits`: the loop's output, and
      one more newline when the number of complete groups is not a multiple
      of six. */
  function Layout(bits: seq<bool>): seq<char>
  {
    Body(bits, |bits|) + (if (|bits| / 11) % 6 != 0 then ['\n'] else [])
  }

  /** The index in the layout at which bit `i` is printed: after `i` bit
      characters, one space per complete group and one newline per complete
      line. */
  function Pos(i: nat): nat
  {
    i + i / 11 + i / 66
  }

  /** The characters the reader turns into bits, in order; every other
      character is skipped. */
  function Filter(s: seq<char>): seq<bool>
  {
    if |s| == 0 then []
    else Filter(s[..|s| - 1]) + (if s[|s| - 1] == '0' then [false] else if s[|s| - 1] == '1' then [true] else [])
  }

  predicate IsLayoutChar(c: char)
  {
    c == '0' || c == '1' || c == ' ' || c == '\n'
  }

  lemma DivStep11(n: nat)
    ensures (n + 1) / 11 == n / 11 + (if (n + 1) % 11 == 0 then 1 else 0)
  {
  }

  lemma DivStep66(n: nat)
    ensures (n + 1) / 66 == n / 66 + (if (n + 1) % 66 == 0 then 1 else 0)
  {
  }

  lemma DivMonotone(m: nat, n: nat)
    requires m <= n
    ensures m / 11 <= n / 11 && m / 66 <= n / 66
  {
  }

  lemma PosStep(n: nat)
    ensures Pos(n + 1) == Pos(n) + 1 + (if (n + 1) % 11 == 0 then 1 else 0) + (if (n + 1) % 66 == 0 then 1 else 0)
  {
    DivStep11(n);
    DivStep66(n);
  }

  /** A newline closes a group, so a multiple of 66 is a multiple of 11. */
  lemma LineClosesGroup(n: nat)
    requires n % 66 == 0
    ensures n % 11 == 0
  {
    assert n == 66 * (n / 66);
    assert n == 11 * (6 * (n / 66));
  }

  lemma {:induction false} BodyLength(bits: seq<bool>, n: nat)
    requires n <= |bits|
    ensures |Body(bits, n)| == Pos(n)
  {
    if n > 0 {
      BodyLength(bits, n - 1);
      PosStep(n - 1);
      if n % 66 == 0 {
        LineClosesGroup(n);
      }
    }
  }

  /** The writer only appends: what it has printed after `m` bits is a
      prefix of what it has printed after `n >= m` bits. */
  lemma {:induction false} BodyPrefix(bits: seq<bool>, m: nat, n: nat)
    requires m <= n <= |bits|
    ensures |Body(bits, m)| <= |Body(bits, n)| && Body(bits, n)[..|Body(bits, m)|] == Body(bits, m)
  {
    if m < n {
      BodyPrefix(bits, m, n - 1);
      var prev := Body(bits, n - 1);
      assert Body(bits, n)[..|prev|] == prev;
    }
  }

  /** Character `k` of what is printed for bit `i` sits at Pos(i) + k in the
      output after any `n > i` bits. */
  lemma BodyAt(bits: seq<bool>, n: nat, i: nat, k: nat)
    requires i < n <= |bits| && k < |Emit(bits, i)|
    ensures Pos(i) + k < |Body(bits, n)| && Body(bits, n)[Pos(i) + k] == Emit(bits, i)[k]
  {
    BodyLength(bits, i);
    BodyPrefix(bits, i + 1, n);
    assert Body(bits, i + 1) == Body(bits, i) + Emit(bits, i);
    assert Body(bits, n)[Pos(i) + k] == Body(bits, n)[..|Body(bits, i + 1)|][Pos(i) + k];
  }

  /** What is printed for bit `i`: the bit, a space when `i` closes a group,
      and a newline after that space when the group closes a line. */
  lemma EmitShape(bits: seq<bool>, i: nat)
    requires i < |bits|
    ensures Emit(bits, i)[0] == BitChar(bits[i])
    ensures (i + 1) % 11 == 0 ==> |Emit(bits, i)| >= 2 && Emit(bits, i)[1] == ' '
    ensures (i + 1) % 66 == 0 ==> |Emit(bits, i)| == 3 && Emit(bits, i)[2] == '\n'
  {
    if (i + 1) % 66 == 0 {
      LineClosesGroup(i + 1);
    }
  }

  /** The text of the entropy file for `bits` has exactly the characters of
      `Body` followed by at most one newline, and bit `i` is at Pos(i). */
  lemma LayoutShape(bits: seq<bool>)
    ensures |Layout(bits)| == Pos(|bits|) + (if (|bits| / 11) % 6 != 0 then 1 else 0)
    ensures forall i | 0 <= i < |bits| :: Pos(i) < |Layout(bits)| && Layout(bits)[Pos(i)] == BitChar(bits[i])
    ensures forall i | 0 <= i < |bits| && (i + 1) % 11 == 0 ::
              Pos(i) + 1 < |Layout(bits)| && Layout(bits)[Pos(i) + 1] == ' '
    ensures forall i | 0 <= i < |bits| && (i + 1) % 66 == 0 ::
              Pos(i) + 2 < |Layout(bits)| && Layout(bits)[Pos(i) + 2] == '\n'
  {
    var n := |bits|;
    BodyLength(bits, n);
    forall i | 0 <= i < n
      ensures Pos(i) < |Layout(bits)| && Layout(bits)[Pos(i)] == BitChar(bits[i])
      ensures (i + 1) % 11 == 0 ==> Pos(i) + 1 < |Layout(bits)| && Layout(bits)[Pos(i) + 1] == ' '
      ensures (i + 1) % 66 == 0 ==> Pos(i) + 2 < |Layout(bits)| && Layout(bits)[Pos(i) + 2] == '\n'
    {
      LayoutAt(bits, i);
    }
  }

  lemma LayoutAt(bits: seq<bool>, i: nat)
    requires i < |bits|
    ensures Pos(i) < |Layout(bits)| && Layout(bits)[Pos(i)] == BitChar(bits[i])
    ensures (i + 1) % 11 == 0 ==> Pos(i) + 1 < |Layout(bits)| && Layout(bits)[Pos(i) + 1] == ' '
    ensures (i + 1) % 66 == 0 ==> Pos(i) + 2 < |Layout(bits)| && Layout(bits)[Pos(i) + 2] == '\n'
  {
    var n := |bits|;
    var body := Body(bits, n);
    assert Layout(bits) == body + (if (n / 11) % 6 != 0 then ['\n'] else []);
    EmitShape(bits, i);
    BodyAt(bits, n, i, 0);
    if (i + 1) % 11 == 0 {
      BodyAt(bits, n, i, 1);
    }
    if (i + 1) % 66 == 0 {
      BodyAt(bits, n, i, 2);
    }
  }

  lemma {:induction false} BodyAlphabet(bits: seq<bool>, n: nat)
    requires n <= |bits|
    ensures forall k | 0 <= k < |Body(bits, n)| :: IsLayoutChar(Body(bits, n)[k])
  {
    if n > 0 {
      BodyAlphabet(bits, n - 1);
    }
  }

  /** The writer prints only '0', '1', space and newline. */
  lemma LayoutAlphabet(bits: seq<bool>)
    ensures forall k | 0 <= k < |Layout(bits)| :: IsLayoutChar(Layout(bits)[k])
  {
    BodyAlphabet(bits, |bits|);
  }

  /** The number of complete groups is a multiple of six exactly when fewer
      than 11 bits follow the last complete line. */
  lemma GroupsOnLine(n: nat)
    ensures ((n / 11) % 6 != 0) == (n % 66 >= 11)
  {
    var q, r := n / 66, n % 66;
    assert n == 66 * q + r;
    assert n / 11 == 6 * q + r / 11;
    assert (n / 11) % 6 == r / 11;
  }

  /** The file ends with a newline exactly when it is not empty and the last
      line does not hold 1 to 10 bits: the final newline is written only
      when the group counter is not zero, so a last line of fewer than 11
      bits that starts a new line of groups is left without one. */
  lemma LayoutEndsWithNewline(bits: seq<bool>)
    ensures (|Layout(bits)| > 0 && Layout(bits)[|Layout(bits)| - 1] == '\n')
        <==> (|bits| > 0 && !(1 <= |bits| % 66 <= 10))
  {
    GroupsOnLine(|bits|);
    if |bits| > 0 && (|bits| / 11) % 6 == 0 {
      var n := |bits|;
      assert Layout(bits) == Body(bits, n - 1) + Emit(bits, n - 1);
      if n % 66 == 0 {
        LineClosesGroup(n);
      }
    }
  }

  /** The reader distributes over concatenation. */
  lemma {:induction false} FilterAppend(a: seq<char>, b: seq<char>)
    ensures Filter(a + b) == Filter(a) + Filter(b)
  {
    if |b| > 0 {
      var c := a + b;
      assert c[..|c| - 1] == a + b[..|b| - 1];
      FilterAppend(a, b[..|b| - 1]);
    } else {
      assert a + b == a;
    }
  }

  /** Any character other than '0' and '1', inserted anywhere, leaves the
      bits that are read unchanged: hand edits to spacing and line breaks do
      not change the entropy. */
  lemma FilterIgnores(a: seq<char>, c: char, b: seq<char>)
    requires c != '0' && c != '1'
    ensures Filter(a + [c] + b) == Filter(a + b)
  {
    FilterAppend(a + [c], b);
    FilterAppend(a, [c]);
    FilterAppend(a, b);
    assert Filter([c]) == Filter([]) + [];
  }

  /** On a text made only of '0' and '1' the reader reads every character,
      '1' as true and '0' as false. */
  lemma {:induction false} FilterBinaryText(s: seq<char>)
    requires forall k | 0 <= k < |s| :: s[k] == '0' || s[k] == '1'
    ensures |Filter(s)| == |s|
    ensures forall k | 0 <= k < |s| :: Filter(s)[k] == (s[k] == '1')
  {
    if |s| > 0 {
      FilterBinaryText(s[..|s| - 1]);
    }
  }

  /** Exactly one bit is read back from what is printed for one bit. */
  lemma FilterEmit(bits: seq<bool>, i: nat)
    requires i < |bits|
    ensures Filter(Emit(bits, i)) == [bits[i]]
  {
    var sp: seq<char> := if (i + 1) % 11 == 0 then [' '] else [];
    var nl: seq<char> := if (i + 1) % 66 == 0 then ['\n'] else [];
    FilterAppend([BitChar(bits[i])] + sp, nl);
    FilterAppend([BitChar(bits[i])], sp);
    assert Filter([BitChar(bits[i])]) == Filter([]) + [bits[i]];
    assert Filter(sp) == [] by {
      if sp != [] {
        assert Filter(sp) == Filter([]) + [];
      }
    }
    assert Filter(nl) == [] by {
      if nl != [] {
        assert Filter(nl) == Filter([]) + [];
      }
    }
  }

  lemma {:induction false} FilterBody(bits: seq<bool>, n: nat)
    requires n <= |bits|
    ensures Filter(Body(bits, n)) == bits[..n]
  {
    if n > 0 {
      var prev, e := Body(bits, n - 1), Emit(bits, n - 1);
      assert Body(bits, n) == prev + e;
      FilterBody(bits, n - 1);
      FilterAppend(prev, e);
      FilterEmit(bits, n - 1);
      assert bits[..n] == bits[..n - 1] + [bits[n - 1]];
    }
  }

  /** Reading the text the writer produces gives back exactly the bits it was
      given. */
  lemma LayoutRoundTrip(bits: seq<bool>)
    ensures Filter(Layout(bits)) == bits
  {
    var trailer := if (|bits| / 11) % 6 != 0 then ['\n'] else [];
    FilterBody(bits, |bits|);
    FilterAppend(Body(bits, |bits|), trailer);
    assert Filter(trailer) == [] by {
      if |trailer| > 0 {
        assert Filter(trailer) == Filter([]) + [];
      }
    }
    assert bits[..|bits|] == bits;
  }

  /** One step of the writer's group counter: it reaches 6 exactly when the
      bit just printed ends a line, and it then starts again at 0. */
  lemma CounterStep(i: nat)
    ensures var g := if (i + 1) % 11 == 0 then (i / 11) % 6 + 1 else (i / 11) % 6;
            (g == 6) == ((i + 1) % 66 == 0) && ((i + 1) / 11) % 6 == (if g == 6 then 0 else g)
  {
    DivStep11(i);
    if (i + 1) % 66 == 0 {
      LineClosesGroup(i + 1);
    }
    GroupsOnLine(i + 1);
  }

  /** The `for` loop of Go's `writeBinaryFile`: prints each bit, a space and
      a group count increment after every 11th bit, and a newline with the
      counter reset when the counter reaches 6; after the loop, a newline if
      the counter is not zero. */
  method FormatBits(bits: seq<bool>) returns (text: seq<char>)
    ensures text == Layout(bits)
  {
    text := [];
    var groupCount := 0;
    for i := 0 to |bits|
      invariant text == Body(bits, i)
      invariant groupCount == (i / 11) % 6
    {
      ghost var before := text;
      CounterStep(i);
      if bits[i] {
        text := text + ['1'];
      } else {
        text := text + ['0'];
      }
      if (i + 1) % 11 == 0 {
        text := text + [' '];
        groupCount := groupCount + 1;
      }
      if groupCount == 6 {
        text := text + ['\n'];
        groupCount := 0;
      }
      assert text == before + Emit(bits, i);
    }
    if groupCount != 0 {
      text := text + ['\n'];
    }
  }

  /** Go's `writeBinaryFile`, with the file replaced by the text it would
      hold: the entropy's bits, laid out by `FormatBits`. */
  method WriteBinaryFile(entropy: seq<bv8>) returns (text: seq<char>)
    ensures text == Layout(Bits.ToBits(entropy))
  {
    var bits := Bits.BytesToBits(entropy);
    text := FormatBits(bits);
  }

  /** The character loop of Go's `readBinaryFile`, over the whole text of
      the file: appends false for '0', true for '1', and skips the rest. */
  method ReadBinaryFile(text: seq<char>) returns (bits: seq<bool>)
    ensures bits == Filter(text)
  {
    bits := [];
    for k := 0 to |text|
      invariant bits == Filter(text[..k])
    {
      var c := text[k];
      assert text[..k + 1][..k] == text[..k];
      if c == '0' {
        bits := bits + [false];
      } else if c == '1' {
        bits := bits + [true];
      }
    }
    assert text[..|text|] == text;
  }
}
