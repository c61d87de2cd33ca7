/**
 The grid topology of the simulation: people sit row-major on a grid that is
 `RowWidth` persons wide, the last row possibly partial, and a person's
 neighbours are the up-to-eight people around them that exist.
 */
module Grid {

  /** Number of people in one row of the grid (the layout constant of the view). */
  const RowWidth: int := 15

  /** Row of a person: integer division that truncates toward zero, as Swift's `/` does. */
  function Row(person: int): (r: int)
    ensures person >= 0 ==> 0 <= person - RowWidth * r < RowWidth
    ensures person < 0 ==> -RowWidth < person - RowWidth * r <= 0
  {
    if person >= 0 then person / RowWidth else -((-person) / RowWidth)
  }

  /** Column of a person: remainder with the sign of the dividend, as Swift's `%` does. */
  function Column(person: int): (c: int)
    ensures person >= 0 ==> c == person % RowWidth
    ensures -RowWidth < c < RowWidth
  {
    person - RowWidth * Row(person)
  }

  /** A person to the left exists: the person is not in the first column. */
  predicate CheckLeftBorder(person: int)
    ensures person >= 0 ==> (CheckLeftBorder(person) <==> person >= 1 && Row(person - 1) == Row(person))
  {
    Column(person) > 0
  }

  /** A person to the right exists: not in the last column and not the last person of the group. */
  predicate CheckRightBorder(person: int, groupSize: int)
    ensures person >= 0 ==>
      (CheckRightBorder(person, groupSize) <==> person + 1 < groupSize && Row(person + 1) == Row(person))
  {
    Column(person) < RowWidth - 1 && person < groupSize - 1
  }

  /** A person above exists: the person is not in the first row. */
  predicate CheckTopBorder(person: int)
    ensures person >= 0 ==> (CheckTopBorder(person) <==> person - RowWidth >= 0)
  {
    Row(person) > 0
  }

  /** A person below exists: the index one row further is still inside the group. */
  predicate CheckBottomBorder(person: int, groupSize: int)
  {
    person + RowWidth < groupSize
  }

  /** The bottom check holds exactly when someone of the group sits in the next row, in the same column. */
  lemma BottomBorderMeaning(person: int, groupSize: int)
    requires person >= 0
    ensures CheckBottomBorder(person, groupSize) <==>
      exists below :: 0 <= below < groupSize && Row(below) == Row(person) + 1 && Column(below) == Column(person)
  {
    RowColumn(person, Row(person), Column(person));
    RowColumn(person + RowWidth, Row(person) + 1, Column(person));
    if exists below :: 0 <= below < groupSize && Row(below) == Row(person) + 1 && Column(below) == Column(person) {
      var below :| 0 <= below < groupSize && Row(below) == Row(person) + 1 && Column(below) == Column(person);
      RowColumn(below, Row(person) + 1, Column(person));
    }
  }

  /** No index occurs twice in a sequence. */
  predicate Distinct(s: seq<int>)
  {
    forall i, j :: 0 <= i < j < |s| ==> s[i] != s[j]
  }

  /** The left neighbour with its top and bottom neighbours (the first block of the resolver). */
  function LeftNeighbours(person: int, groupSize: int): (r: seq<int>)
  {
    if CheckLeftBorder(person) then
      [person - 1]
      + (if CheckTopBorder(person - 1) then [person - RowWidth - 1] else [])
      + (if CheckBottomBorder(person - 1, groupSize) then [person + RowWidth - 1] else [])
    else []
  }

  /** The top neighbour with its right neighbour. */
  function TopNeighbours(person: int, groupSize: int): (r: seq<int>)
  {
    if CheckTopBorder(person) then
      [person - RowWidth]
      + (if CheckRightBorder(person - RowWidth, groupSize) then [person - RowWidth + 1] else [])
    else []
  }

  /** The bottom neighbour with its right neighbour. */
  function BottomNeighbours(person: int, groupSize: int): (r: seq<int>)
  {
    if CheckBottomBorder(person, groupSize) then
      [person + RowWidth]
      + (if CheckRightBorder(person + RowWidth, groupSize) then [person + RowWidth + 1] else [])
    else []
  }

  /** The right neighbour. */
  function RightNeighbours(person: int, groupSize: int): (r: seq<int>)
  {
    if CheckRightBorder(person, groupSize) then [person + 1] else []
  }

  /**
   The neighbours of `person`, in the order the resolver appends them: the left
   block (left, top-left, bottom-left), then top and top-right, then bottom and
   bottom-right, then right. Each diagonal is offered only when the orthogonal
   neighbour it is reached from exists.
   */
  function FindNeighbours(person: int, groupSize: int): (r: seq<int>)
  {
    LeftNeighbours(person, groupSize) + TopNeighbours(person, groupSize)
    + BottomNeighbours(person, groupSize) + RightNeighbours(person, groupSize)
  }

  /** The clipped eight-neighbourhood: a different person of the group at most one row and one column away. */
  predicate Adjacent(person: int, other: int, groupSize: int)
  {
    other != person && 0 <= other < groupSize
    && -1 <= Row(other) - Row(person) <= 1
    && -1 <= Column(other) - Column(person) <= 1
  }

  /** Row and column of a non-negative index determine it, and are determined by it. */
  lemma RowColumn(a: int, row: int, column: int)
    requires a >= 0
    ensures a == RowWidth * Row(a) + Column(a) && 0 <= Column(a) < RowWidth
    ensures a == RowWidth * row + column && 0 <= column < RowWidth ==> Row(a) == row && Column(a) == column
  {
  }

  /** The left block holds grid neighbours only. */
  lemma LeftSound(person: int, other: int, groupSize: int)
    requires 0 <= person < groupSize && other in LeftNeighbours(person, groupSize)
    ensures Adjacent(person, other, groupSize)
  {
    var x, y := Column(person), Row(person);
    RowColumn(person, y, x);
    RowColumn(person - 1, y, x - 1);
    if other == person - 1 {
      RowColumn(other, y, x - 1);
    } else if other == person - RowWidth - 1 {
      RowColumn(other, y - 1, x - 1);
    } else {
      RowColumn(other, y + 1, x - 1);
    }
  }

  /** The top block holds grid neighbours only. */
  lemma TopSound(person: int, other: int, groupSize: int)
    requires 0 <= person < groupSize && other in TopNeighbours(person, groupSize)
    ensures Adjacent(person, other, groupSize)
  {
    var x, y := Column(person), Row(person);
    RowColumn(person, y, x);
    RowColumn(person - RowWidth, y - 1, x);
    if other == person - RowWidth {
      RowColumn(other, y - 1, x);
    } else {
      RowColumn(other, y - 1, x + 1);
    }
  }

  /** The bottom block holds grid neighbours only. */
  lemma BottomSound(person: int, other: int, groupSize: int)
    requires 0 <= person < groupSize && other in BottomNeighbours(person, groupSize)
    ensures Adjacent(person, other, groupSize)
  {
    var x, y := Column(person), Row(person);
    RowColumn(person, y, x);
    RowColumn(person + RowWidth, y + 1, x);
    if other == person + RowWidth {
      RowColumn(other, y + 1, x);
    } else {
      RowColumn(other, y + 1, x + 1);
    }
  }

  /** Every index the resolver returns is a neighbour in the grid sense. */
  lemma NeighbourSound(person: int, other: int, groupSize: int)
    requires 0 <= person < groupSize
    requires other in FindNeighbours(person, groupSize)
    ensures Adjacent(person, other, groupSize)
  {
    if other in LeftNeighbours(person, groupSize) {
      LeftSound(person, other, groupSize);
    } else if other in TopNeighbours(person, groupSize) {
      TopSound(person, other, groupSize);
    } else if other in BottomNeighbours(person, groupSize) {
      BottomSound(person, other, groupSize);
    } else {
      var x, y := Column(person), Row(person);
      RowColumn(person, y, x);
      RowColumn(other, y, x + 1);
    }
  }

  /** Every neighbour in the grid sense is returned by the resolver. */
  lemma NeighbourComplete(person: int, other: int, groupSize: int)
    requires 0 <= person < groupSize
    requires Adjacent(person, other, groupSize)
    ensures other in FindNeighbours(person, groupSize)
  {
    var x, y := Column(person), Row(person);
    RowColumn(person, y, x);
    RowColumn(other, y, x);
    var dx, dy := Column(other) - x, Row(other) - y;
    assert other == person + RowWidth * dy + dx;
    if dx == -1 {
      assert other in LeftNeighbours(person, groupSize);
    } else if dy == -1 {
      assert other in TopNeighbours(person, groupSize);
    } else if dy == 1 {
      assert other in BottomNeighbours(person, groupSize);
    } else {
      assert other in RightNeighbours(person, groupSize);
    }
  }

  /** The resolver returns exactly the clipped eight-neighbourhood. */
  lemma NeighbourIff(person: int, other: int, groupSize: int)
    requires 0 <= person < groupSize
    ensures other in FindNeighbours(person, groupSize) <==> Adjacent(person, other, groupSize)
  {
    if other in FindNeighbours(person, groupSize) {
      NeighbourSound(person, other, groupSize);
    }
    if Adjacent(person, other, groupSize) {
      NeighbourComplete(person, other, groupSize);
    }
  }

  /** Two index lists without duplicates and without a common index concatenate to one without duplicates. */
  lemma DistinctConcat(a: seq<int>, b: seq<int>)
    requires Distinct(a) && Distinct(b)
    requires forall x :: x in a ==> x !in b
    ensures Distinct(a + b)
  {
    forall i, j | 0 <= i < j < |a + b|
      ensures (a + b)[i] != (a + b)[j]
    {
      if j >= |a| && i < |a| {
        assert (a + b)[i] in a && (a + b)[j] in b;
      }
    }
  }

  /** The left block is duplicate-free and lies at offsets -1, -16 and +14. */
  lemma LeftOffsets(person: int, groupSize: int)
    ensures Distinct(LeftNeighbours(person, groupSize))
    ensures forall x :: x in LeftNeighbours(person, groupSize) ==>
      x == person - 1 || x == person - RowWidth - 1 || x == person + RowWidth - 1
  {
  }

  /** The top block is duplicate-free and lies at offsets -15 and -14. */
  lemma TopOffsets(person: int, groupSize: int)
    ensures Distinct(TopNeighbours(person, groupSize))
    ensures forall x :: x in TopNeighbours(person, groupSize) ==> x == person - RowWidth || x == person - RowWidth + 1
  {
  }

  /** The bottom block is duplicate-free and lies at offsets +15 and +16. */
  lemma BottomOffsets(person: int, groupSize: int)
    ensures Distinct(BottomNeighbours(person, groupSize))
    ensures forall x :: x in BottomNeighbours(person, groupSize) ==> x == person + RowWidth || x == person + RowWidth + 1
  {
  }

  /** The resolver never lists a neighbour twice: its four blocks lie at disjoint offsets from the person. */
  lemma NeighboursDistinct(person: int, groupSize: int)
    ensures Distinct(FindNeighbours(person, groupSize))
  {
    var left, top := LeftNeighbours(person, groupSize), TopNeighbours(person, groupSize);
    var bottom, right := BottomNeighbours(person, groupSize), RightNeighbours(person, groupSize);
    LeftOffsets(person, groupSize);
    TopOffsets(person, groupSize);
    BottomOffsets(person, groupSize);
    DistinctConcat(left, top);
    DistinctConcat(left + top, bottom);
    DistinctConcat(left + top + bottom, right);
  }

  /** At most eight neighbours, each of them another person of the group. */
  lemma NeighbourRange(person: int, groupSize: int)
    requires 0 <= person < groupSize
    ensures |FindNeighbours(person, groupSize)| <= 8
    ensures forall x :: x in FindNeighbours(person, groupSize) ==> 0 <= x < groupSize && x != person
  {
    forall x | x in FindNeighbours(person, groupSize)
      ensures 0 <= x < groupSize && x != person
    {
      NeighbourSound(person, x, groupSize);
    }
  }

  /** Being neighbours is a symmetric relation on the people of the group. */
  lemma NeighbourSymmetric(person: int, other: int, groupSize: int)
    requires 0 <= person < groupSize
    requires other in FindNeighbours(person, groupSize)
    ensures person in FindNeighbours(other, groupSize)
  {
    NeighbourIff(person, other, groupSize);
    NeighbourIff(other, person, groupSize);
  }

  /** The top-left corner of a two-row grid has its right, bottom and bottom-right neighbours. */
  lemma CornerExample()
    ensures FindNeighbours(0, 30) == [15, 16, 1]
  {
  }

  /** The last person of a two-row grid has no right or bottom neighbours. */
  lemma LastPersonExample()
    ensures FindNeighbours(29, 30) == [28, 13, 14]
  {
  }

  /** A person in the last row has five neighbours, none below. */
  lemma LastRowExample()
    ensures FindNeighbours(16, 30) == [15, 0, 1, 2, 17]
  {
  }

  /** An interior person has all eight neighbours. */
  lemma InteriorExample()
    ensures FindNeighbours(22, 45) == [21, 6, 36, 7, 8, 37, 38, 23]
  {
  }

  /** A group of one has nobody to infect. */
  lemma LonePersonExample()
    ensures FindNeighbours(0, 1) == []
  {
  }
}
