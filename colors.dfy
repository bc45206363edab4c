/** The six Filler colours: the index <-> letter palette of the board and
    the string-to-index conversion used by the flood fill. */
module Colors {

  /** The board's colour map: index 0..5 to its one-letter name. */
  const Palette: map<int, string> :=
    map[0 := "R", 1 := "G", 2 := "Y", 3 := "B", 4 := "P", 5 := "X"]

  predicate IsColor(c: int) {
    0 <= c < 6
  }

  /** Index of a colour letter, or -1 for any other string. */
  function ColorToInt(entry: string): (r: int)
    ensures -1 <= r < 6
    ensures 0 <= r ==> r in Palette && Palette[r] == entry
    ensures r == -1 <==> entry !in Palette.Values
  {
    if entry == "R" then 0
    else if entry == "G" then 1
    else if entry == "Y" then 2
    else if entry == "B" then 3
    else if entry == "P" then 4
    else if entry == "X" then 5
    else -1
  }

  /** The palette is a bijection between 0..5 and its letters. */
  lemma PaletteRoundTrip(i: int)
    requires IsColor(i)
    ensures i in Palette && ColorToInt(Palette[i]) == i
    ensures |Palette[i]| == 1
  {
  }

  /** Two colours with the same letter are the same colour. */
  lemma PaletteInjective(i: int, j: int)
    requires IsColor(i) && IsColor(j)
    requires Palette[i] == Palette[j]
    ensures i == j
  {
    PaletteRoundTrip(i);
    PaletteRoundTrip(j);
  }

  /** The palette's six colours and six letters. */
  lemma PaletteLetters()
    ensures Palette.Keys == {0, 1, 2, 3, 4, 5}
    ensures Palette.Values == {"R", "G", "Y", "B", "P", "X"}
    ensures |Palette.Keys| == 6 && |Palette.Values| == 6
  {
    PaletteValues();
    LettersCount();
  }

  lemma PaletteValues()
    ensures Palette.Values == {"R", "G", "Y", "B", "P", "X"}
  {
    forall s | s in Palette.Values
      ensures s in {"R", "G", "Y", "B", "P", "X"}
    {
      var i :| i in Palette && Palette[i] == s;
    }
    assert Palette[0] in Palette.Values && Palette[1] in Palette.Values && Palette[2] in Palette.Values;
    assert Palette[3] in Palette.Values && Palette[4] in Palette.Values && Palette[5] in Palette.Values;
  }

  lemma LettersCount()
    ensures |{"R", "G", "Y", "B", "P", "X"}| == 6
  {
    var s := {"R"};
    assert "G" !in s by { assert "G"[0] != "R"[0]; }
    s := s + {"G"};
    assert "Y" !in s by { assert "Y"[0] != "R"[0] && "Y"[0] != "G"[0]; }
    s := s + {"Y"};
    assert "B" !in s by { assert "B"[0] != "R"[0] && "B"[0] != "G"[0] && "B"[0] != "Y"[0]; }
    s := s + {"B"};
    assert "P" !in s by { assert "P"[0] != "R"[0] && "P"[0] != "G"[0] && "P"[0] != "Y"[0] && "P"[0] != "B"[0]; }
    s := s + {"P"};
    assert "X" !in s by { assert "X"[0] != "R"[0] && "X"[0] != "G"[0] && "X"[0] != "Y"[0] && "X"[0] != "B"[0] && "X"[0] != "P"[0]; }
    s := s + {"X"};
    assert s == {"R", "G", "Y", "B", "P", "X"};
  }

  /** Entering the six palette entries into any map `m` overrides `m` by the palette. */
  lemma PalettePuts(m: map<int, string>)
    ensures m[0 := "R"][1 := "G"][2 := "Y"][3 := "B"][4 := "P"][5 := "X"] == m + Palette
  {
  }

  /** Upper-casing of a single ASCII character. */
  function UpperChar(c: char): char {
    if 'a' <= c <= 'z' then (c as int - 'a' as int + 'A' as int) as char else c
  }

  /** Upper-casing of an input line, letter by letter. */
  function ToUpper(s: string): (r: string)
    ensures |r| == |s|
    ensures forall i :: 0 <= i < |s| ==> r[i] == UpperChar(s[i])
  {
    if s == [] then [] else [UpperChar(s[0])] + ToUpper(s[1..])
  }
}
