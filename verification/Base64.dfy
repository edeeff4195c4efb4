/** The alphabet of the five-bit encoding (BeefySysLib/Common.cpp). */
module Base64 {
  import opened Groups

  // The alphabet, sixteen characters a row.
  const c64bToChar: seq<string> :=
    [ "abcdefghijklmnop", "qrstuvwxyzABCDEF", "GHIJKLMNOPQRSTUV", "WXYZ0123456789._" ]

  // The rows of the reverse table that hold characters of the alphabet.
  const Row1: seq<Group> :=
    [ 0, 0, 0, 0, 0, 0, 0, 0, 0, 0, 0, 0, 0, 0, 62, 0, 52, 53, 54, 55, 56, 57, 58, 59, 60, 61, 0, 0, 0, 0, 0, 0 ]

  const Row2: seq<Group> :=
    [ 0, 26, 27, 28, 29, 30, 31, 32, 33, 34, 35, 36, 37, 38, 39, 40, 41, 42, 43, 44, 45, 46, 47, 48, 49, 50, 51, 0, 0, 0, 0, 63 ]

  const Row3: seq<Group> :=
    [ 0, 0, 1, 2, 3, 4, 5, 6, 7, 8, 9, 10, 11, 12, 13, 14, 15, 16, 17, 18, 19, 20, 21, 22, 23, 24, 25, 0, 0, 0, 0, 0 ]

  // A row without any.
  const NoRow: seq<Group> :=
    [ 0, 0, 0, 0, 0, 0, 0, 0, 0, 0, 0, 0, 0, 0, 0, 0, 0, 0, 0, 0, 0, 0, 0, 0, 0, 0, 0, 0, 0, 0, 0, 0 ]

  const cCharTo64b: seq<seq<Group>> := [ NoRow, Row1, Row2, Row3, NoRow, NoRow, NoRow, NoRow ]

  // The table's value of a character; the table ends one entry short of a byte's range.
  function Digit(c: char): Group
  {
    if c as int < 255 then cCharTo64b[c as int / 32][c as int % 32] else 0
  }

  function CharOf(g: Group): char {
    c64bToChar[g / 16][g % 16]
  }

  // The alphabet starts with a to z and A to Z.
  lemma LettersInOrder(g: Group)
    requires g < 52
    ensures CharOf(g) as int == if g < 26 then 'a' as int + g else 'A' as int + (g - 26)
  {
    assert g / 16 == 0 || g / 16 == 1 || g / 16 == 2 || g / 16 == 3;
  }

  // The reverse table has them in the same order.
  lemma LetterValues(c: char)
    ensures 'a' <= c <= 'z' ==> Digit(c) == c as int - 'a' as int
    ensures 'A' <= c <= 'Z' ==> Digit(c) == c as int - 'A' as int + 26
  {
  }

  // The ten digits follow, then the point and the underscore.
  lemma OthersInOrder(g: Group)
    requires 52 <= g < 64
    ensures CharOf(g) as int == if g < 62 then '0' as int + (g - 52) else if g == 62 then '.' as int else '_' as int
  {
    assert g / 16 == 3;
  }

  // The reverse table has them so too.
  lemma OtherValues(c: char)
    ensures '0' <= c <= '9' ==> Digit(c) == c as int - '0' as int + 52
    ensures Digit('.') == 62 && Digit('_') == 63
  {
  }

  // Every other character counts as zero.
  lemma NoOtherValues(c: char)
    ensures !('a' <= c <= 'z') && !('A' <= c <= 'Z') && !('0' <= c <= '9') && c != '.' && c != '_' ==> Digit(c) == 0
  {
  }

  // The two tables undo each other on the alphabet.
  lemma TablesInvert(g: Group)
    ensures Digit(CharOf(g)) == g
  {
    if g < 52 {
      LettersInOrder(g);
      LetterValues(CharOf(g));
    } else {
      OthersInOrder(g);
      OtherValues(CharOf(g));
    }
  }
}
