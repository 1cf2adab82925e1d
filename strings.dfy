/** The few functions of Go's `strings` package that the passphrase tool
    relies on: `Split` and `Join` on a one-character separator,
    `TrimSpace` with Go's notion of white space, and `TrimPrefix`.
    Strings are sequences of Unicode code points. */
module Strings {

  type String = seq<char>

  /** The byte-order mark U+FEFF, which a word list may carry at its start. */
  const Bom: char := '\U{FEFF}'

  /** Go's `unicode.IsSpace`: the ASCII white space characters, NEL and
      NO-BREAK SPACE, and the other characters of Unicode's White_Space
      property. U+FEFF is not among them. */
  predicate IsSpace(c: char) {
    c == '\t' || c == '\n' || c == '\U{000B}' || c == '\U{000C}' || c == '\r' || c == ' '
    || c == '\U{0085}' || c == '\U{00A0}' || c == '\U{1680}'
    || ('\U{2000}' <= c <= '\U{200A}')
    || c == '\U{2028}' || c == '\U{2029}' || c == '\U{202F}' || c == '\U{205F}' || c == '\U{3000}'
  }

  /** `strings.Split(s, string(sep))`: the pieces of `s` between occurrences of
      `sep`. There is always at least one piece; the empty string gives `[""]`. */
  function Split(s: String, sep: char): (pieces: seq<String>)
    ensures |pieces| >= 1
    ensures forall i | 0 <= i < |pieces| :: sep !in pieces[i]
    ensures Join(pieces, sep) == s
  {
    if |s| == 0 then [[]]
    else
      var rest := Split(s[1..], sep);
      if s[0] == sep then
        assert s == [sep] + s[1..];
        [[]] + rest
      else
        var r := [[s[0]] + rest[0]] + rest[1..];
        assert r[1..] == rest[1..];
        assert Join(r, sep) == [s[0]] + Join(rest, sep) by {
          if |rest| > 1 {
            assert rest == [rest[0]] + rest[1..];
          }
        }
        r
  }

  /** `strings.Join(elems, string(sep))`: the elements with one `sep` between
      each neighbouring pair and none at either end. */
  function Join(elems: seq<String>, sep: char): String
  {
    if |elems| == 0 then []
    else if |elems| == 1 then elems[0]
    else elems[0] + [sep] + Join(elems[1..], sep)
  }

  /** Joining never loses characters: the length is the total length of the
      elements plus one separator per gap. */
  lemma {:induction false} JoinLength(elems: seq<String>, sep: char)
    requires |elems| > 0
    ensures |Join(elems, sep)| == TotalLength(elems) + |elems| - 1
  {
    if |elems| > 1 {
      JoinLength(elems[1..], sep);
    }
  }

  function TotalLength(elems: seq<String>): nat
  {
    if |elems| == 0 then 0 else |elems[0]| + TotalLength(elems[1..])
  }

  /** Splitting a joined string recovers the elements when none of them
      contains the separator: the separator marks the element boundaries
      exactly. */
  lemma {:induction false} SplitJoin(elems: seq<String>, sep: char)
    requires |elems| > 0
    requires forall i | 0 <= i < |elems| :: sep !in elems[i]
    ensures Split(Join(elems, sep), sep) == elems
  {
    if |elems| == 1 {
      SplitNoSep(elems[0], sep);
    } else {
      var tail := Join(elems[1..], sep);
      SplitJoin(elems[1..], sep);
      SplitAfterPrefix(elems[0], tail, sep);
      assert elems == [elems[0]] + elems[1..];
    }
  }

  /** A string without the separator is a single piece. */
  lemma {:induction false} SplitNoSep(s: String, sep: char)
    requires sep !in s
    ensures Split(s, sep) == [s]
  {
    if |s| > 0 {
      SplitNoSep(s[1..], sep);
    }
  }

  /** A separator-free prefix `w` followed by a separator starts a new piece. */
  lemma {:induction false} SplitAfterPrefix(w: String, tail: String, sep: char)
    requires sep !in w
    ensures Split(w + [sep] + tail, sep) == [w] + Split(tail, sep)
  {
    if |w| == 0 {
      assert w + [sep] + tail == [sep] + tail;
      assert ([sep] + tail)[1..] == tail;
    } else {
      assert (w + [sep] + tail)[1..] == w[1..] + [sep] + tail;
      SplitAfterPrefix(w[1..], tail, sep);
      assert [w[0]] + w[1..] == w;
    }
  }

  /** A character other than the separator joins the first piece. */
  lemma SplitCons(c: char, s: String, sep: char)
    requires c != sep
    ensures Split([c] + s, sep) == [[c] + Split(s, sep)[0]] + Split(s, sep)[1..]
  {
    assert ([c] + s)[1..] == s;
  }

  /** `strings.TrimLeftFunc(s, unicode.IsSpace)`. */
  function TrimLeft(s: String): (t: String)
    ensures |t| <= |s| && t == s[|s| - |t|..]
    ensures |t| == 0 || !IsSpace(t[0])
    ensures forall i | 0 <= i < |s| - |t| :: IsSpace(s[i])
  {
    if |s| > 0 && IsSpace(s[0]) then TrimLeft(s[1..]) else s
  }

  /** `strings.TrimRightFunc(s, unicode.IsSpace)`. */
  function TrimRight(s: String): (t: String)
    ensures |t| <= |s| && t == s[..|t|]
    ensures |t| == 0 || !IsSpace(t[|t| - 1])
    ensures forall i | |t| <= i < |s| :: IsSpace(s[i])
  {
    if |s| > 0 && IsSpace(s[|s| - 1]) then TrimRight(s[..|s| - 1]) else s
  }

  /** The number of white space characters `TrimLeft` drops from `s`. */
  function LeadingSpace(s: String): nat
  {
    |s| - |TrimLeft(s)|
  }

  /** `strings.TrimSpace`: drops the white space at both ends and keeps the
      middle, inner white space included. */
  function TrimSpace(s: String): (t: String)
    ensures LeadingSpace(s) + |t| <= |s|
    ensures t == s[LeadingSpace(s)..LeadingSpace(s) + |t|]
    ensures forall i | 0 <= i < LeadingSpace(s) :: IsSpace(s[i])
    ensures forall i | LeadingSpace(s) + |t| <= i < |s| :: IsSpace(s[i])
    ensures |t| == 0 || (!IsSpace(t[0]) && !IsSpace(t[|t| - 1]))
  {
    TrimRight(TrimLeft(s))
  }

  /** `strings.TrimPrefix(s, string(p))` for a one-character prefix. */
  function TrimPrefix(s: String, p: char): String
  {
    if |s| > 0 && s[0] == p then s[1..] else s
  }

  /** A string that starts and ends with a non-space character is left alone
      by `TrimSpace`. */
  lemma TrimSpaceKeeps(s: String)
    requires |s| > 0 && !IsSpace(s[0]) && !IsSpace(s[|s| - 1])
    ensures TrimSpace(s) == s
  {
  }
}
