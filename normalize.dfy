/** `normalize_text`: folds the enumerated accented letters to their ASCII base
    letter, one `str.replace` per row of the replacement table, then lower-cases
    and strips. */
module Normalize {
  import opened Text

  /** The replacement dict, in insertion order: 24 lower-case letters, then their
      upper-case forms. */
  const Replacements: seq<(char, char)> := LowerRows + UpperRows

  const LowerRows: seq<(char, char)> := [
    ('á', 'a'), ('à', 'a'), ('ã', 'a'), ('â', 'a'), ('ä', 'a'), ('é', 'e'),
    ('è', 'e'), ('ê', 'e'), ('ë', 'e'), ('í', 'i'), ('ì', 'i'), ('î', 'i'),
    ('ï', 'i'), ('ó', 'o'), ('ò', 'o'), ('õ', 'o'), ('ô', 'o'), ('ö', 'o'),
    ('ú', 'u'), ('ù', 'u'), ('û', 'u'), ('ü', 'u'), ('ç', 'c'), ('ñ', 'n')
  ]

  const UpperRows: seq<(char, char)> := [
    ('Á', 'A'), ('À', 'A'), ('Ã', 'A'), ('Â', 'A'), ('Ä', 'A'), ('É', 'E'),
    ('È', 'E'), ('Ê', 'E'), ('Ë', 'E'), ('Í', 'I'), ('Ì', 'I'), ('Î', 'I'),
    ('Ï', 'I'), ('Ó', 'O'), ('Ò', 'O'), ('Õ', 'O'), ('Ô', 'O'), ('Ö', 'O'),
    ('Ú', 'U'), ('Ù', 'U'), ('Û', 'U'), ('Ü', 'U'), ('Ç', 'C'), ('Ñ', 'N')
  ]

  /** Every key of the table lies outside ASCII and every value inside it, so no
      replacement produces a character a later row would replace again. */
  predicate KeysAboveAscii(rows: seq<(char, char)>) {
    forall i :: 0 <= i < |rows| ==> rows[i].0 as int >= 128 && rows[i].1 as int < 128
  }

  lemma ReplacementsShape()
    ensures |Replacements| == 48 && KeysAboveAscii(Replacements)
  {
    assert KeysAboveAscii(LowerRows) && KeysAboveAscii(UpperRows);
    assert forall i :: 0 <= i < |Replacements| ==>
      Replacements[i] == if i < 24 then LowerRows[i] else UpperRows[i - 24];
  }

  /** `s.replace(c, r)` for one-character strings. */
  function ReplaceAll(s: string, c: char, r: char): (t: string)
    ensures |t| == |s|
  {
    seq(|s|, i requires 0 <= i < |s| => if s[i] == c then r else s[i])
  }

  /** The string after the replace loop has run over `rows`, one row after another. */
  function ApplyRows(s: string, rows: seq<(char, char)>): (t: string)
    ensures |t| == |s|
    decreases |rows|
  {
    if |rows| == 0 then s
    else ReplaceAll(ApplyRows(s, rows[..|rows| - 1]), rows[|rows| - 1].0, rows[|rows| - 1].1)
  }

  predicate IsKey(c: char, rows: seq<(char, char)>) {
    exists i :: 0 <= i < |rows| && rows[i].0 == c
  }

  /** One character through the table: the value of the first row keyed by it, or itself. */
  function FoldChar(c: char, rows: seq<(char, char)>): (d: char)
    ensures !IsKey(c, rows) ==> d == c
    ensures IsKey(c, rows) ==> exists i :: 0 <= i < |rows| && rows[i] == (c, d)
    decreases |rows|
  {
    if |rows| == 0 then c
    else if rows[0].0 == c then rows[0].1
    else
      var d := FoldChar(c, rows[1..]);
      assert IsKey(c, rows) ==> IsKey(c, rows[1..]) by {
        if IsKey(c, rows) {
          var i :| 0 <= i < |rows| && rows[i].0 == c;
          assert rows[1..][i - 1] == rows[i];
        }
      }
      assert forall i :: 0 <= i < |rows| - 1 ==> rows[1..][i] == rows[i + 1];
      d
  }

  function Fold(s: string, rows: seq<(char, char)>): (t: string)
    ensures |t| == |s|
  {
    seq(|s|, i requires 0 <= i < |s| => FoldChar(s[i], rows))
  }

  /** Adding a row at the end changes only the characters no earlier row keys. */
  lemma {:induction false} FoldCharSnoc(c: char, rows: seq<(char, char)>, last: (char, char))
    ensures FoldChar(c, rows + [last]) ==
      if IsKey(c, rows) then FoldChar(c, rows) else if last.0 == c then last.1 else c
    decreases |rows|
  {
    if |rows| > 0 {
      assert (rows + [last])[1..] == rows[1..] + [last];
      if rows[0].0 != c {
        FoldCharSnoc(c, rows[1..], last);
        assert IsKey(c, rows) <==> IsKey(c, rows[1..]) by {
          if IsKey(c, rows) {
            var i :| 0 <= i < |rows| && rows[i].0 == c;
            assert rows[1..][i - 1] == rows[i];
          }
          if IsKey(c, rows[1..]) {
            var i :| 0 <= i < |rows[1..]| && rows[1..][i].0 == c;
            assert rows[i + 1] == rows[1..][i];
          }
        }
      } else {
        assert IsKey(c, rows) by { assert rows[0].0 == c; }
      }
    }
  }

  /** Running the replace loop row by row is the same as folding each character once. */
  lemma {:induction false} ApplyRowsIsFold(s: string, rows: seq<(char, char)>)
    requires KeysAboveAscii(rows)
    ensures ApplyRows(s, rows) == Fold(s, rows)
    decreases |rows|
  {
    if |rows| > 0 {
      var init, last := rows[..|rows| - 1], rows[|rows| - 1];
      assert rows == init + [last];
      ApplyRowsIsFold(s, init);
      forall i | 0 <= i < |s| ensures ApplyRows(s, rows)[i] == Fold(s, rows)[i] {
        FoldCharSnoc(s[i], init, last);
        if IsKey(s[i], init) {
          var d := FoldChar(s[i], init);
          var k :| 0 <= k < |init| && init[k] == (s[i], d);
          assert d as int < 128 <= last.0 as int;
        }
      }
    }
  }

  /** What `normalize_text` returns. */
  function Normalized(s: string): string {
    Strip(Lower(Fold(s, Replacements)))
  }

  /** `normalize_text(text)`: the replace loop over the table, then `.lower().strip()`. */
  method NormalizeText(text: string) returns (r: string)
    ensures r == Normalized(text)
  {
    var normalized := text;
    for k := 0 to |Replacements|
      invariant normalized == ApplyRows(text, Replacements[..k])
    {
      assert Replacements[..k + 1][..k] == Replacements[..k];
      normalized := ReplaceAll(normalized, Replacements[k].0, Replacements[k].1);
    }
    assert Replacements[..|Replacements|] == Replacements;
    ReplacementsShape();
    ApplyRowsIsFold(text, Replacements);
    r := Strip(Lower(normalized));
  }

  /** No character of `s` is a key of the table. */
  predicate Folded(s: string) {
    forall i :: 0 <= i < |s| ==> !IsKey(s[i], Replacements)
  }

  lemma FoldIsFolded(s: string)
    ensures Folded(Fold(s, Replacements))
  {
    ReplacementsShape();
    forall i | 0 <= i < |s| ensures !IsKey(Fold(s, Replacements)[i], Replacements) {
      var c := s[i];
      if IsKey(c, Replacements) {
        var d := FoldChar(c, Replacements);
        var k :| 0 <= k < |Replacements| && Replacements[k] == (c, d);
        assert d as int < 128;
      }
    }
  }

  lemma FoldOfFolded(s: string)
    requires Folded(s)
    ensures Fold(s, Replacements) == s
  {
  }

  lemma LowerKeepsFolded(s: string)
    requires Folded(s)
    ensures Folded(Lower(s))
  {
    ReplacementsShape();
    forall i | 0 <= i < |s| ensures !IsKey(Lower(s)[i], Replacements) {
      if 'A' <= s[i] <= 'Z' {
        assert Lower(s)[i] as int < 128;
      }
    }
  }

  lemma StripKeepsFolded(s: string)
    requires Folded(s)
    ensures Folded(Strip(s))
  {
    StripIsSlice(s);
  }

  /** Normalising a normalised string changes nothing. */
  lemma NormalizedIdempotent(s: string)
    ensures Normalized(Normalized(s)) == Normalized(s)
  {
    var f := Fold(s, Replacements);
    FoldIsFolded(s);
    LowerKeepsFolded(f);
    var t := Normalized(s);
    StripKeepsFolded(Lower(f));
    FoldOfFolded(t);
    LowerHasNoUpper(f);
    StripKeepsNoUpper(Lower(f));
    LowerOfNoUpper(t);
    StripIdempotent(Lower(f));
  }

  /** Every character of a normalised string is free of table keys and upper-case ASCII,
      and it neither starts nor ends with white space. */
  lemma NormalizedShape(s: string)
    ensures var t := Normalized(s);
      Folded(t) && NoUpper(t) && (|t| > 0 ==> !IsSpace(t[0]) && !IsSpace(t[|t| - 1]))
  {
    var f := Fold(s, Replacements);
    FoldIsFolded(s);
    LowerKeepsFolded(f);
    StripKeepsFolded(Lower(f));
    LowerHasNoUpper(f);
    StripKeepsNoUpper(Lower(f));
    StripEndKeepsStart(StripStart(Lower(f)));
  }

  /** A character below 128 is no key, so the table leaves it alone. */
  lemma FoldAscii(c: char)
    requires c as int < 128
    ensures FoldChar(c, Replacements) == c
  {
    ReplacementsShape();
  }

  /** The first row keyed by `c` decides its replacement. */
  lemma {:induction false} FoldCharAt(c: char, rows: seq<(char, char)>, k: int)
    requires 0 <= k < |rows| && rows[k].0 == c
    requires forall j :: 0 <= j < k ==> rows[j].0 != c
    ensures FoldChar(c, rows) == rows[k].1
    decreases k
  {
    if k > 0 {
      FoldCharAt(c, rows[1..], k - 1);
    }
  }

  /** Text below 128 is left alone. */
  lemma FoldAsciiText(s: string)
    requires forall i :: 0 <= i < |s| ==> s[i] as int < 128
    ensures Fold(s, Replacements) == s
  {
    forall i | 0 <= i < |s|
      ensures FoldChar(s[i], Replacements) == s[i]
    {
      FoldAscii(s[i]);
    }
  }

  /** Folding works character by character. */
  lemma FoldSplice(a: string, c: char, b: string, rows: seq<(char, char)>)
    ensures Fold(a + [c] + b, rows) == Fold(a, rows) + [FoldChar(c, rows)] + Fold(b, rows)
  {
    var s := a + [c] + b;
    var t := Fold(a, rows) + [FoldChar(c, rows)] + Fold(b, rows);
    forall i | 0 <= i < |s|
      ensures Fold(s, rows)[i] == t[i]
    {
      if i < |a| {
        assert s[i] == a[i];
      } else if i > |a| {
        assert s[i] == b[i - |a| - 1];
      }
    }
  }

  lemma FoldExample()
    ensures Fold("  São Paulo  ", Replacements) == "  Sao Paulo  "
  {
    var s, a, b := "  São Paulo  ", "  S", "o Paulo  ";
    assert s == a + ['ã'] + b;
    FoldSplice(a, 'ã', b, Replacements);
    FoldAsciiText(a);
    FoldAsciiText(b);
    FoldTilde();
  }

  lemma FoldTilde()
    ensures FoldChar('ã', Replacements) == 'a'
  {
    assert Replacements[2] == ('ã', 'a') && Replacements[0].0 != 'ã' && Replacements[1].0 != 'ã';
    FoldCharAt('ã', Replacements, 2);
  }

  /** "  São Paulo  " normalises to "sao paulo". */
  lemma NormalizedExample()
    ensures Normalized("  São Paulo  ") == "sao paulo"
  {
    FoldExample();
    assert Lower("  Sao Paulo  ") == "  " + "sao paulo" + "  ";
    StripPadded("  ", "sao paulo", "  ");
  }
}
