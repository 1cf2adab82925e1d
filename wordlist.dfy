/** Parsing of the embedded word list (Go's `loadWordList`): the text is split
    into lines, each line is trimmed of white space and then of a leading
    byte-order mark, and the lines left empty are dropped. */
module WordList {
  import opened Strings

  /** One line as the loader keeps it: `strings.TrimSpace` first, then
      `strings.TrimPrefix` of U+FEFF. */
  function CleanLine(line: String): String
  {
    TrimPrefix(TrimSpace(line), Bom)
  }

  /** Every line cleaned, in order. */
  function CleanLines(lines: seq<String>): (cleaned: seq<String>)
    ensures |cleaned| == |lines|
  {
    seq(|lines|, i requires 0 <= i < |lines| => CleanLine(lines[i]))
  }

  /** The non-empty strings of `ws`, in their order. Each result is a
      non-empty element of `ws`, and there are at most as many as in `ws`. */
  function NonEmpty(ws: seq<String>): (kept: seq<String>)
    ensures |kept| <= |ws|
    ensures forall i | 0 <= i < |kept| :: kept[i] != [] && kept[i] in ws
  {
    if |ws| == 0 then []
    else NonEmpty(ws[..|ws| - 1]) + (if ws[|ws| - 1] != [] then [ws[|ws| - 1]] else [])
  }

  /** The words the loader keeps from the text of a word list. */
  function Loaded(text: String): seq<String>
  {
    NonEmpty(CleanLines(Split(text, '\n')))
  }

  /** A cleaned line keeps no newline the line did not have, and it does
      not end in white space. */
  lemma CleanLineShape(line: String)
    ensures '\n' !in line ==> '\n' !in CleanLine(line)
    ensures |CleanLine(line)| > 0 ==> !IsSpace(CleanLine(line)[|CleanLine(line)| - 1])
  {
    var t := TrimSpace(line);
    if '\n' !in line {
      assert forall k | 0 <= k < |t| :: t[k] == line[LeadingSpace(line) + k];
    }
  }

  /** Every word the loader keeps is non-empty, holds no newline and does not
      end in white space. */
  lemma LoadedWords(text: String)
    ensures forall i | 0 <= i < |Loaded(text)| ::
              var w := Loaded(text)[i];
              w != [] && '\n' !in w && !IsSpace(w[|w| - 1])
  {
    var lines := Split(text, '\n');
    var cleaned := CleanLines(lines);
    forall w | w in cleaned
      ensures '\n' !in w && (|w| > 0 ==> !IsSpace(w[|w| - 1]))
    {
      var j :| 0 <= j < |cleaned| && cleaned[j] == w;
      CleanLineShape(lines[j]);
    }
  }

  /** Filtering preserves order: the non-empty strings of two runs are those
      of the first run followed by those of the second. */
  lemma {:induction false} NonEmptyAppend(a: seq<String>, b: seq<String>)
    ensures NonEmpty(a + b) == NonEmpty(a) + NonEmpty(b)
  {
    if |b| == 0 {
      assert a + b == a;
    } else {
      var c, init := a + b, b[..|b| - 1];
      assert c[..|c| - 1] == a + init;
      NonEmptyAppend(a, init);
    }
  }

  /** A word that the loader leaves as it is: not empty, no newline, no white
      space at either end and no byte-order mark in front. */
  predicate IsCleanWord(w: String)
  {
    |w| > 0 && '\n' !in w && !IsSpace(w[0]) && !IsSpace(w[|w| - 1]) && w[0] != Bom
  }

  lemma CleanLineKeeps(w: String)
    requires IsCleanWord(w)
    ensures CleanLine(w) == w
    ensures CleanLine([Bom] + w) == w
  {
    TrimSpaceKeeps(w);
    TrimSpaceKeeps([Bom] + w);
  }

  /** A sequence without empty strings is kept whole. */
  lemma {:induction false} NonEmptyKeepsAll(ws: seq<String>)
    requires forall i | 0 <= i < |ws| :: ws[i] != []
    ensures NonEmpty(ws) == ws
  {
    if |ws| > 0 {
      NonEmptyKeepsAll(ws[..|ws| - 1]);
      assert ws == ws[..|ws| - 1] + [ws[|ws| - 1]];
    }
  }

  lemma CleanLinesKeep(ws: seq<String>)
    requires forall i | 0 <= i < |ws| :: IsCleanWord(ws[i])
    ensures CleanLines(ws) == ws
  {
    forall i | 0 <= i < |ws|
      ensures CleanLine(ws[i]) == ws[i]
    {
      CleanLineKeeps(ws[i]);
    }
  }

  /** A word list written one clean word per line loads back as exactly that
      list. */
  lemma LoadRoundTrip(ws: seq<String>)
    requires |ws| > 0
    requires forall i | 0 <= i < |ws| :: IsCleanWord(ws[i])
    ensures Loaded(Join(ws, '\n')) == ws
  {
    SplitJoin(ws, '\n');
    CleanLinesKeep(ws);
    NonEmptyKeepsAll(ws);
  }

  lemma CleanLinesBom(ws: seq<String>)
    requires |ws| > 0
    requires forall i | 0 <= i < |ws| :: IsCleanWord(ws[i])
    ensures CleanLines([[Bom] + ws[0]] + ws[1..]) == ws
  {
    var lines := [[Bom] + ws[0]] + ws[1..];
    forall i | 0 <= i < |ws|
      ensures CleanLine(lines[i]) == ws[i]
    {
      CleanLineKeeps(ws[i]);
    }
  }

  /** The same holds when the text starts with a byte-order mark. */
  lemma LoadRoundTripWithBom(ws: seq<String>)
    requires |ws| > 0
    requires forall i | 0 <= i < |ws| :: IsCleanWord(ws[i])
    ensures Loaded([Bom] + Join(ws, '\n')) == ws
  {
    var text := Join(ws, '\n');
    SplitJoin(ws, '\n');
    SplitCons(Bom, text, '\n');
    CleanLinesBom(ws);
    NonEmptyKeepsAll(ws);
  }

  /** Cleaning one more line adds its cleaned form, unless that is empty. */
  lemma LoadStep(lines: seq<String>, k: nat)
    requires k < |lines|
    ensures NonEmpty(CleanLines(lines[..k + 1]))
         == NonEmpty(CleanLines(lines[..k])) + (if CleanLine(lines[k]) != [] then [CleanLine(lines[k])] else [])
  {
    var after := CleanLines(lines[..k + 1]);
    assert after[..k] == CleanLines(lines[..k]);
  }

  /** Go's `loadWordList`: splits the text on '\n' and appends, line by line,
      every line that is not empty once cleaned. */
  method LoadWordList(text: String) returns (words: seq<String>)
    ensures words == Loaded(text)
  {
    var lines := Split(text, '\n');
    words := [];
    for k := 0 to |lines|
      invariant words == NonEmpty(CleanLines(lines[..k]))
    {
      var w := TrimSpace(lines[k]);
      w := TrimPrefix(w, Bom);
      LoadStep(lines, k);
      if w != [] {
        words := words + [w];
      }
    }
    assert lines[..|lines|] == lines;
  }
}
