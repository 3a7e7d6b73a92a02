/**
 * The pieces of Go's text handling the natural-language parser relies on:
 * the `\s` class of Go's regular expressions, splitting on it, the case
 * folding of a `(?i)` pattern against lower-case ASCII words, and
 * `strings.ToLower`.
 */
module Text {

  const Kelvin: char := '\U{212A}'
  const LongS: char := '\U{17F}'
  const DottedCapitalI: char := '\U{130}'

  /** Go's `\s`: tab, newline, form feed, carriage return and space. */
  predicate IsSpace(c: char) {
    c == '\t' || c == '\n' || c == '\U{C}' || c == '\r' || c == ' '
  }

  predicate Spaces(w: string) {
    forall i :: 0 <= i < |w| ==> IsSpace(w[i])
  }

  predicate NoSpaces(t: string) {
    forall i :: 0 <= i < |t| ==> !IsSpace(t[i])
  }

  predicate IsAsciiLower(c: char) {
    'a' <= c <= 'z'
  }

  /**
   * `unicode.ToLower` for the letters that matter here: ASCII capitals, the
   * Kelvin sign (lower-cased to `k`) and the dotted capital I (to `i`). No
   * other character lower-cases to an ASCII letter, so the rest are kept as
   * they are.
   */
  function LowerChar(c: char): (r: char)
    ensures IsAsciiLower(r) ==> IsAsciiLower(c) || 'A' <= c <= 'Z' || c == Kelvin || c == DottedCapitalI
  {
    if 'A' <= c <= 'Z' then (c as int + 32) as char
    else if c == Kelvin then 'k'
    else if c == DottedCapitalI then 'i'
    else c
  }

  /** `strings.ToLower`, character by character. */
  function Lower(s: string): (r: string)
    ensures |r| == |s|
  {
    if s == [] then [] else [LowerChar(s[0])] + Lower(s[1..])
  }

  /**
   * A character the pattern's `(?i)` flag lets stand for the lower-case
   * ASCII letter `l`: the letter itself, its capital, and the two extra
   * members of Unicode's simple case folding that reach ASCII, the Kelvin
   * sign for `k` and the long s for `s`.
   */
  predicate FoldsTo(c: char, l: char)
    requires IsAsciiLower(l)
  {
    c == l || c as int == l as int - 32 || (l == 'k' && c == Kelvin) || (l == 's' && c == LongS)
  }

  predicate LowerWord(w: string) {
    forall i :: 0 <= i < |w| ==> IsAsciiLower(w[i])
  }

  /** The token spells the lower-case ASCII word under case folding. */
  predicate FoldEq(t: string, w: string)
    requires LowerWord(w)
  {
    |t| == |w| && (t == [] || (FoldsTo(t[0], w[0]) && FoldEq(t[1..], w[1..])))
  }

  /** The length of the run of non-space characters `s` starts with. */
  function TokenLength(s: string): (n: nat)
    ensures n <= |s| && NoSpaces(s[..n]) && (n < |s| ==> IsSpace(s[n]))
  {
    if s == [] || IsSpace(s[0]) then 0 else 1 + TokenLength(s[1..])
  }

  /** The maximal runs of non-space characters, in order. */
  function Fields(s: string): (fs: seq<string>)
    ensures forall i :: 0 <= i < |fs| ==> |fs[i]| > 0 && NoSpaces(fs[i])
    decreases |s|
  {
    if s == [] then []
    else if IsSpace(s[0]) then Fields(s[1..])
    else
      var n := TokenLength(s);
      [s[..n]] + Fields(s[n..])
  }

  /** Lower-casing a folded spelling gives the word back, unless a long s stands for an `s`. */
  lemma {:induction false} LowerFolded(t: string, w: string)
    requires LowerWord(w)
    requires FoldEq(t, w)
    ensures Lower(t) == w <==> LongS !in t
  {
    if t != [] {
      LowerFolded(t[1..], w[1..]);
      assert t == [t[0]] + t[1..];
    }
  }

  /** Leading spaces do not change the fields. */
  lemma {:induction false} FieldsAfterSpaces(w: string, s: string)
    requires Spaces(w)
    ensures Fields(w + s) == Fields(s)
  {
    if w != [] {
      assert (w + s)[0] == w[0] && IsSpace(w[0]);
      assert (w + s)[1..] == w[1..] + s;
      assert Fields(w + s) == Fields((w + s)[1..]);
      FieldsAfterSpaces(w[1..], s);
    } else {
      assert w + s == s;
    }
  }

  /** A run of non-space characters followed by a space or the end is one field. */
  lemma {:induction false} TokenLengthOf(t: string, s: string)
    requires NoSpaces(t) && (s == [] || IsSpace(s[0]))
    ensures TokenLength(t + s) == |t|
  {
    if t != [] {
      assert (t + s)[1..] == t[1..] + s;
      TokenLengthOf(t[1..], s);
    }
  }

  lemma FieldsAfterToken(t: string, s: string)
    requires |t| > 0 && NoSpaces(t) && (s == [] || IsSpace(s[0]))
    ensures Fields(t + s) == [t] + Fields(s)
  {
    TokenLengthOf(t, s);
    assert (t + s)[..|t|] == t;
    assert (t + s)[|t|..] == s;
  }

  /** Glues fields back together with the space runs between them. */
  function Glue(ws: seq<string>, fs: seq<string>): string
    requires |ws| == |fs| + 1
  {
    if fs == [] then ws[0] else ws[0] + fs[0] + Glue(ws[1..], fs[1..])
  }

  /** Runs of spaces fit to surround the given number of fields. */
  predicate Separators(ws: seq<string>, n: nat) {
    && |ws| == n + 1
    && (forall i :: 0 <= i < |ws| ==> Spaces(ws[i]))
    && (forall i :: 0 < i < n ==> |ws[i]| > 0)
  }

  /** Fields of space runs glued around non-space tokens are those tokens. */
  lemma {:induction false} FieldsOfGlue(ws: seq<string>, fs: seq<string>)
    requires Separators(ws, |fs|)
    requires forall i :: 0 <= i < |fs| ==> |fs[i]| > 0 && NoSpaces(fs[i])
    ensures Fields(Glue(ws, fs)) == fs
  {
    if fs == [] {
      FieldsAfterSpaces(ws[0], []);
      assert ws[0] + [] == ws[0];
    } else {
      var rest := Glue(ws[1..], fs[1..]);
      assert Separators(ws[1..], |fs| - 1);
      FieldsOfGlue(ws[1..], fs[1..]);
      if |fs| > 1 {
        assert |ws[1]| > 0;
        assert rest[0] == ws[1][0];
      } else {
        assert rest == ws[1];
      }
      FieldsAfterToken(fs[0], rest);
      assert ws[0] + fs[0] + rest == ws[0] + (fs[0] + rest);
      FieldsAfterSpaces(ws[0], fs[0] + rest);
    }
  }

  /** Every string is its fields glued with the space runs between them. */
  lemma {:induction false} FieldsSplit(s: string) returns (ws: seq<string>)
    ensures Separators(ws, |Fields(s)|) && s == Glue(ws, Fields(s))
    ensures |s| > 0 && IsSpace(s[0]) ==> |ws[0]| > 0
    decreases |s|
  {
    if s == [] {
      ws := [""];
    } else if IsSpace(s[0]) {
      var ws' := FieldsSplit(s[1..]);
      ws := SpaceStep(s, ws');
    } else {
      var n := TokenLength(s);
      var ws' := FieldsSplit(s[n..]);
      assert s == s[..n] + s[n..];
      ws := TokenStep(s[..n], s[n..], ws');
    }
  }

  /** A leading space joins the first run of spaces. */
  lemma SpaceStep(s: string, ws': seq<string>) returns (ws: seq<string>)
    requires |s| > 0 && IsSpace(s[0])
    requires Separators(ws', |Fields(s[1..])|) && s[1..] == Glue(ws', Fields(s[1..]))
    ensures Separators(ws, |Fields(s)|) && s == Glue(ws, Fields(s)) && |ws[0]| > 0
  {
    ws := [[s[0]] + ws'[0]] + ws'[1..];
    var fs := Fields(s[1..]);
    assert Fields(s) == fs;
    if fs == [] {
      assert s == [s[0]] + s[1..];
    } else {
      assert ws[1..] == ws'[1..];
      assert s == [s[0]] + s[1..];
    }
  }

  /** A leading token is the first field, after an empty run of spaces. */
  lemma TokenStep(t: string, rest: string, ws': seq<string>) returns (ws: seq<string>)
    requires |t| > 0 && NoSpaces(t) && (rest == [] || IsSpace(rest[0]))
    requires Separators(ws', |Fields(rest)|) && rest == Glue(ws', Fields(rest))
    requires |rest| > 0 ==> |ws'[0]| > 0
    ensures Separators(ws, |Fields(t + rest)|) && t + rest == Glue(ws, Fields(t + rest))
  {
    FieldsAfterToken(t, rest);
    var fs := Fields(rest);
    ws := [""] + ws';
    assert ws[1..] == ws';
    assert ([t] + fs)[1..] == fs;
    assert Glue(ws, [t] + fs) == "" + t + Glue(ws', fs);
  }

  /** Folding, read position by position. */
  lemma {:induction false} FoldEqAt(t: string, w: string)
    requires LowerWord(w)
    ensures FoldEq(t, w) <==> |t| == |w| && forall i :: 0 <= i < |t| ==> FoldsTo(t[i], w[i])
  {
    if t != [] && |t| == |w| {
      FoldEqAt(t[1..], w[1..]);
      if forall i :: 0 <= i < |t| ==> FoldsTo(t[i], w[i]) {
        assert forall i :: 0 <= i < |t| - 1 ==> FoldsTo(t[1..][i], w[1..][i]) by {
          forall i | 0 <= i < |t| - 1 ensures FoldsTo(t[1..][i], w[1..][i]) {
            assert FoldsTo(t[i + 1], w[i + 1]);
          }
        }
      }
      if FoldEq(t, w) {
        forall i | 0 <= i < |t| ensures FoldsTo(t[i], w[i]) {
          if i > 0 {
            assert FoldsTo(t[1..][i - 1], w[1..][i - 1]);
          }
        }
      }
    }
  }

  /** A folded spelling of a word has no spaces. */
  lemma FoldNoSpaces(t: string, w: string)
    requires LowerWord(w) && FoldEq(t, w)
    ensures NoSpaces(t)
  {
    FoldEqAt(t, w);
  }

  /** A long s can only stand for an `s`. */
  lemma FoldNoLongS(t: string, w: string)
    requires LowerWord(w) && FoldEq(t, w) && 's' !in w
    ensures LongS !in t
  {
    FoldEqAt(t, w);
  }

  lemma {:induction false} LowerAt(s: string, i: int)
    requires 0 <= i < |s|
    ensures Lower(s)[i] == LowerChar(s[i])
    decreases i
  {
    if i > 0 {
      LowerAt(s[1..], i - 1);
    }
  }

  /** Lower-casing keeps every space where it is. */
  lemma LowerKeepsSpaces(s: string, i: int)
    requires 0 <= i < |s| && IsSpace(s[i])
    ensures Lower(s)[i] == s[i]
  {
    LowerAt(s, i);
  }

  /** The spelling of a lower-case ASCII word with any of its letters in upper case. */
  predicate CaseEq(s: string, w: string) {
    |s| == |w| && forall i :: 0 <= i < |s| ==> s[i] == w[i] || s[i] as int == w[i] as int - 32
  }

  /**
   * For a lower-case word without `i` and `k`, lower-casing gives the word
   * exactly for its ASCII spellings in mixed case.
   */
  lemma LowerIsWord(s: string, w: string)
    requires LowerWord(w) && 'i' !in w && 'k' !in w
    ensures Lower(s) == w <==> CaseEq(s, w)
  {
    if |s| == |w| {
      forall i | 0 <= i < |s| ensures Lower(s)[i] == LowerChar(s[i]) {
        LowerAt(s, i);
      }
      if Lower(s) == w {
        forall i | 0 <= i < |s| ensures s[i] == w[i] || s[i] as int == w[i] as int - 32 {
          assert LowerChar(s[i]) == w[i];
          assert w[i] != 'i' && w[i] != 'k';
        }
      }
      if CaseEq(s, w) {
        assert forall i :: 0 <= i < |s| ==> Lower(s)[i] == w[i];
      }
    }
  }

  /** Three fields glued with their four space runs. */
  lemma Glue3(ws: seq<string>, fs: seq<string>)
    requires |fs| == 3 && |ws| == 4
    ensures Glue(ws, fs) == ws[0] + fs[0] + ws[1] + fs[1] + ws[2] + fs[2] + ws[3]
  {
    assert Glue(ws[3..], fs[3..]) == ws[3];
    assert Glue(ws[2..], fs[2..]) == ws[2] + fs[2] + ws[3];
    assert Glue(ws[1..], fs[1..]) == ws[1] + fs[1] + (ws[2] + fs[2] + ws[3]);
  }

  /** Three tokens between runs of spaces, with at least one space between neighbours, are the fields. */
  lemma FieldsOfThree(s: string, w0: string, a: string, w1: string, b: string, w2: string, c: string, w3: string)
    requires Spaces(w0) && Spaces(w1) && |w1| > 0 && Spaces(w2) && |w2| > 0 && Spaces(w3)
    requires |a| > 0 && NoSpaces(a) && |b| > 0 && NoSpaces(b) && |c| > 0 && NoSpaces(c)
    requires s == w0 + a + w1 + b + w2 + c + w3
    ensures Fields(s) == [a, b, c]
  {
    var ws := [w0, w1, w2, w3];
    var fs := [a, b, c];
    Glue3(ws, fs);
    assert Separators(ws, |fs|);
    FieldsOfGlue(ws, fs);
  }

  /** A mixed-case ASCII spelling of a word is one of its folded spellings. */
  lemma CaseFolds(t: string, w: string)
    requires LowerWord(w) && CaseEq(t, w)
    ensures FoldEq(t, w)
  {
    FoldEqAt(t, w);
  }
}
