/** The constant table that says which LEDs form each decimal digit:
    a count per digit (`quantidade`) and a 13-wide row of LED indices per
    digit (`coordenadas_numero`), where the entries past the count are the
    zero padding C supplies for a short initializer. */
module Glyphs {
  import opened Pixels

  /** Number of glyphs in the table, one per decimal digit. */
  const DigitCount: nat := 10

  /** Width of a row of `coordenadas_numero`. */
  const RowWidth: nat := 13

  /** `quantidade`: how many LEDs are lit for each digit. */
  const Quantity: seq<u8> := [12, 8, 11, 10, 9, 11, 12, 8, 13, 12]

  /** `coordenadas_numero`, with C's implicit zero padding written out. */
  const Coordinates: seq<seq<u8>> := [
    [1, 2, 3, 6, 8, 11, 13, 16, 18, 21, 22, 23, 0],
    [1, 2, 3, 7, 12, 16, 17, 22, 0, 0, 0, 0, 0],
    [1, 2, 3, 6, 11, 12, 13, 18, 21, 22, 23, 0, 0],
    [1, 2, 3, 8, 11, 12, 18, 21, 22, 23, 0, 0, 0],
    [1, 8, 11, 12, 13, 16, 18, 21, 23, 0, 0, 0, 0],
    [1, 2, 3, 8, 11, 12, 13, 16, 21, 22, 23, 0, 0],
    [1, 2, 3, 6, 8, 11, 12, 13, 16, 21, 22, 23, 0],
    [1, 8, 11, 16, 18, 21, 22, 23, 0, 0, 0, 0, 0],
    [1, 2, 3, 6, 8, 11, 12, 13, 16, 18, 21, 22, 23],
    [1, 2, 3, 8, 11, 12, 13, 16, 18, 21, 22, 23, 0]
  ]

  /** The values `numero_na_matriz` may take, and the rows of the table. */
  predicate IsDigit(d: int) {
    0 <= d < DigitCount
  }

  /** Each row lists its LEDs in strictly ascending order. */
  predicate StrictlyIncreasing(s: seq<int>) {
    forall k | 0 <= k < |s| - 1 :: s[k] < s[k + 1]
  }

  /** What the table promises about the row of digit `d`: the count is
      between 8 and 13, the row is 13 wide, exactly the first `count`
      entries are listed (non-zero) and the rest is zero padding, every
      listed entry is an LED of the matrix, and the listed entries
      ascend strictly. */
  predicate RowWellFormed(d: int)
    requires IsDigit(d)
    requires |Quantity| == DigitCount && |Coordinates| == DigitCount
  {
    var row := Coordinates[d];
    && |row| == RowWidth
    && 8 <= Quantity[d] <= RowWidth
    && (forall k | 0 <= k < RowWidth :: row[k] != 0 <==> k < Quantity[d])
    && (forall k | 0 <= k < Quantity[d] :: row[k] < LedCount)
    && StrictlyIncreasing(row[..Quantity[d]])
  }

  // The rows checked one at a time: each is a small computation on
  // literal data, and checking them apart keeps every proof small.
  lemma Row0WellFormed() ensures RowWellFormed(0) {}
  lemma Row1WellFormed() ensures RowWellFormed(1) {}
  lemma Row2WellFormed() ensures RowWellFormed(2) {}
  lemma Row3WellFormed() ensures RowWellFormed(3) {}
  lemma Row4WellFormed() ensures RowWellFormed(4) {}
  lemma Row5WellFormed() ensures RowWellFormed(5) {}
  lemma Row6WellFormed() ensures RowWellFormed(6) {}
  lemma Row7WellFormed() ensures RowWellFormed(7) {}
  lemma Row8WellFormed() ensures RowWellFormed(8) {}
  lemma Row9WellFormed() ensures RowWellFormed(9) {}

  /** The whole table is consistent: one count and one row per digit,
      each row well formed. */
  lemma TableWellFormed()
    ensures |Quantity| == DigitCount && |Coordinates| == DigitCount
    ensures forall d | IsDigit(d) :: RowWellFormed(d)
  {
    forall d | IsDigit(d)
      ensures RowWellFormed(d)
    {
      if d == 0 { Row0WellFormed(); }
      else if d == 1 { Row1WellFormed(); }
      else if d == 2 { Row2WellFormed(); }
      else if d == 3 { Row3WellFormed(); }
      else if d == 4 { Row4WellFormed(); }
      else if d == 5 { Row5WellFormed(); }
      else if d == 6 { Row6WellFormed(); }
      else if d == 7 { Row7WellFormed(); }
      else if d == 8 { Row8WellFormed(); }
      else { Row9WellFormed(); }
    }
  }

  /** `coordenadas_numero[d][0 .. quantidade[d]-1]`: the LEDs lit for
      digit `d`, in table order. */
  function Positions(d: int): (ps: seq<u8>)
    requires IsDigit(d)
    ensures 8 <= |ps| <= RowWidth
    ensures forall k | 0 <= k < |ps| :: ps[k] < LedCount
    ensures forall i, j | 0 <= i < j < |ps| :: ps[i] < ps[j]
  {
    TableWellFormed();
    assert RowWellFormed(d);
    var ps := Coordinates[d][..Quantity[d]];
    IncreasingIsDistinct(ps);
    ps
  }

  /** A strictly ascending sequence has no repeated element. */
  lemma {:induction false} IncreasingIsDistinct(s: seq<int>)
    requires StrictlyIncreasing(s)
    ensures forall i, j | 0 <= i < j < |s| :: s[i] < s[j]
    ensures forall i, j | 0 <= i < |s| && 0 <= j < |s| && i != j :: s[i] != s[j]
  {
    if |s| > 1 {
      IncreasingIsDistinct(s[1..]);
      forall i, j | 0 <= i < j < |s|
        ensures s[i] < s[j]
      {
        if i > 0 {
          assert s[i] == s[1..][i - 1] && s[j] == s[1..][j - 1];
        } else if j > 1 {
          assert s[1] == s[1..][0] && s[j] == s[1..][j - 1];
        }
      }
    }
  }

  /** No glyph lists an LED twice. */
  lemma GlyphsDistinct(d: int)
    requires IsDigit(d)
    ensures forall i, j | 0 <= i < |Positions(d)| && 0 <= j < |Positions(d)| && i != j ::
      Positions(d)[i] != Positions(d)[j]
  {
    IncreasingIsDistinct(Positions(d));
  }
}
