/**
 Word search on a board of letters by backtracking, with a mark matrix that is set and
 reset in place and a field that stops the search once the word is found.
 */
module WordSearch {
  import opened Grid
  import opened Sequences

  type Board = seq<string>

  ghost predicate Rectangular(b: Board) {
    forall i, j :: 0 <= i < |b| && 0 <= j < |b| ==> |b[i]| == |b[j]|
  }

  predicate OnBoard(b: Board, x: Cell) {
    0 <= x.row < |b| && 0 <= x.col < |b[x.row]|
  }

  ghost predicate Spells(b: Board, word: string, index: nat, cells: seq<Cell>) {
    index + |cells| == |word| && forall k :: 0 <= k < |cells| ==>
      OnBoard(b, cells[k]) && b[cells[k].row][cells[k].col] == word[index + k]
  }

  ghost predicate Connected(cells: seq<Cell>) {
    forall k, l :: 0 <= k && l == k + 1 && l < |cells| ==> Adjacent(cells[k], cells[l])
  }

  /** Side-adjacent, distinct cells that avoid the marked ones and spell the word from index on. */
  ghost predicate Trail(b: Board, word: string, index: nat, marked: set<Cell>, cells: seq<Cell>) {
    && |cells| > 0 && Spells(b, word, index, cells) && Connected(cells) && Distinct(cells)
    && forall k :: 0 <= k < |cells| ==> cells[k] !in marked
  }

  ghost predicate TrailFrom(b: Board, word: string, index: nat, marked: set<Cell>, x: Cell) {
    exists cells :: Trail(b, word, index, marked, cells) && cells[0] == x
  }

  /** Some path of the board spells the word. */
  ghost predicate Exists(b: Board, word: string) {
    exists cells :: Trail(b, word, 0, {}, cells)
  }

  /** x is a cell at which a search for the rest of the word may go on. */
  ghost predicate Matches(b: Board, word: string, index: nat, marked: set<Cell>, x: Cell) {
    OnBoard(b, x) && x !in marked && index < |word| && b[x.row][x.col] == word[index]
  }

  lemma TrailHead(b: Board, word: string, index: nat, marked: set<Cell>, x: Cell)
    ensures TrailFrom(b, word, index, marked, x) ==> Matches(b, word, index, marked, x)
  {
  }

  lemma TrailStarts(b: Board, word: string)
    ensures Exists(b, word) ==> exists x :: OnBoard(b, x) && TrailFrom(b, word, 0, {}, x)
  {
    if Exists(b, word) {
      var cells :| Trail(b, word, 0, {}, cells);
      assert OnBoard(b, cells[0]) && TrailFrom(b, word, 0, {}, cells[0]);
    }
  }

  lemma LastLetter(b: Board, word: string, index: nat, marked: set<Cell>, x: Cell)
    requires Matches(b, word, index, marked, x) && index == |word| - 1
    ensures TrailFrom(b, word, index, marked, x)
  {
    assert Trail(b, word, index, marked, [x]);
  }

  lemma TrailGrows(b: Board, word: string, index: nat, marked: set<Cell>, x: Cell, y: Cell)
    requires Matches(b, word, index, marked, x) && Adjacent(x, y)
    requires TrailFrom(b, word, index + 1, marked + {x}, y)
    ensures TrailFrom(b, word, index, marked, x)
  {
    var rest :| Trail(b, word, index + 1, marked + {x}, rest) && rest[0] == y;
    var cells := [x] + rest;
    assert forall k :: 0 <= k < |rest| ==> rest[k] != x && rest[k] !in marked;
    assert forall k :: 0 < k < |cells| ==> cells[k] == rest[k - 1];
    assert Trail(b, word, index, marked, cells);
  }

  lemma TrailShrinks(b: Board, word: string, index: nat, marked: set<Cell>, x: Cell) returns (y: Cell)
    requires TrailFrom(b, word, index, marked, x) && index < |word| - 1
    ensures Adjacent(x, y) && TrailFrom(b, word, index + 1, marked + {x}, y)
  {
    var cells :| Trail(b, word, index, marked, cells) && cells[0] == x;
    var rest := cells[1..];
    y := rest[0];
    assert Adjacent(cells[0], cells[1]);
    forall k, l | 0 <= k && l == k + 1 && l < |rest| ensures Adjacent(rest[k], rest[l]) {
      assert Adjacent(cells[k + 1], cells[l + 1]);
    }
    forall k | 0 <= k < |rest|
      ensures OnBoard(b, rest[k]) && b[rest[k].row][rest[k].col] == word[index + 1 + k] && rest[k] !in marked + {x}
    {
      assert rest[k] == cells[k + 1];
    }
    assert Trail(b, word, index + 1, marked + {x}, rest);
  }

  /** Whether the search from x finds the word by way of one of its four neighbours. */
  lemma FourNeighbours(b: Board, word: string, index: nat, marked: set<Cell>, x: Cell)
    requires Matches(b, word, index, marked, x) && index < |word| - 1
    ensures TrailFrom(b, word, index, marked, x) <==>
              || TrailFrom(b, word, index + 1, marked + {x}, Cell(x.row, x.col - 1))
              || TrailFrom(b, word, index + 1, marked + {x}, Cell(x.row - 1, x.col))
              || TrailFrom(b, word, index + 1, marked + {x}, Cell(x.row, x.col + 1))
              || TrailFrom(b, word, index + 1, marked + {x}, Cell(x.row + 1, x.col))
  {
    if TrailFrom(b, word, index, marked, x) {
      var y := TrailShrinks(b, word, index, marked, x);
      assert y in {Cell(x.row, x.col - 1), Cell(x.row - 1, x.col), Cell(x.row, x.col + 1), Cell(x.row + 1, x.col)};
    }
    forall y | Adjacent(x, y) && TrailFrom(b, word, index + 1, marked + {x}, y)
      ensures TrailFrom(b, word, index, marked, x)
    {
      TrailGrows(b, word, index, marked, x, y);
    }
    assert Adjacent(x, Cell(x.row, x.col - 1)) && Adjacent(x, Cell(x.row - 1, x.col));
    assert Adjacent(x, Cell(x.row, x.col + 1)) && Adjacent(x, Cell(x.row + 1, x.col));
  }

  /** The mark matrix has the size of the board and marks exactly the given cells. */
  ghost predicate MarksAre(b: Board, mark: array2<bool>, marked: set<Cell>)
    reads mark
  {
    && mark.Length0 == |b| && (|b| > 0 ==> mark.Length1 == |b[0]|)
    && forall i, j :: 0 <= i < mark.Length0 && 0 <= j < mark.Length1 ==>
         (mark[i, j] <==> Cell(i, j) in marked)
  }

  method SetMark(b: Board, mark: array2<bool>, row: nat, col: nat, value: bool, ghost marked: set<Cell>)
    requires MarksAre(b, mark, marked) && row < mark.Length0 && col < mark.Length1
    modifies mark
    ensures MarksAre(b, mark, if value then marked + {Cell(row, col)} else marked - {Cell(row, col)})
  {
    mark[row, col] := value;
  }

  class Solution {
    var found: bool

    /** The search from a cell that matches the letter at index.  It finds the word if it was found before or
        some trail goes on from here, and it gives the marks back as they were. */
    method Search(board: Board, word: string, row: nat, col: nat, index: nat, mark: array2<bool>,
                  ghost marked: set<Cell>)
      requires Rectangular(board) && Matches(board, word, index, marked, Cell(row, col))
      requires MarksAre(board, mark, marked)
      modifies this, mark
      ensures found <==> old(found) || TrailFrom(board, word, index, marked, Cell(row, col))
      ensures MarksAre(board, mark, marked)
      decreases |word| - index, 0
    {
      if found {
        return;
      }
      if index == |word| - 1 {
        LastLetter(board, word, index, marked, Cell(row, col));
        found := true;
        return;
      }
      ghost var now := marked + {Cell(row, col)};
      FourNeighbours(board, word, index, marked, Cell(row, col));
      SetMark(board, mark, row, col, true, marked);
      TryCell(board, word, row, col - 1, index + 1, mark, now);   // left
      TryCell(board, word, row - 1, col, index + 1, mark, now);   // up
      TryCell(board, word, row, col + 1, index + 1, mark, now);   // right
      TryCell(board, word, row + 1, col, index + 1, mark, now);   // down
      SetMark(board, mark, row, col, false, now);
      assert now - {Cell(row, col)} == marked;
    }

    /** The test before the search goes on to a neighbour: it is on the board, not marked, and has the letter. */
    method TryCell(board: Board, word: string, row: int, col: int, index: nat, mark: array2<bool>,
                   ghost marked: set<Cell>)
      requires Rectangular(board) && index < |word| && MarksAre(board, mark, marked)
      modifies this, mark
      ensures found <==> old(found) || TrailFrom(board, word, index, marked, Cell(row, col))
      ensures MarksAre(board, mark, marked)
      decreases |word| - index, 1
    {
      TrailHead(board, word, index, marked, Cell(row, col));
      if 0 <= row < |board| && 0 <= col < |board[row]| && !mark[row, col] && board[row][col] == word[index] {
        Search(board, word, row, col, index, mark, marked);
      }
    }

    /** A new mark matrix, with nothing marked. */
    method ResetMark(board: Board) returns (mark: array2<bool>)
      requires Rectangular(board)
      ensures fresh(mark) && MarksAre(board, mark, {})
    {
      mark := new bool[|board|, if |board| > 0 then |board[0]| else 0]((_, _) => false);
    }

    /** exist: whether some path of distinct, side-adjacent cells spells the word. */
    method Exist(board: Board, word: string) returns (result: bool)
      requires Rectangular(board) && word != ""
      modifies this
      ensures result <==> Exists(board, word)
    {
      found := false;
      for i := 0 to |board|
        invariant !found
        invariant forall x: Cell :: x.row < i ==> !TrailFrom(board, word, 0, {}, x)
      {
        for j := 0 to |board[i]|
          invariant !found
          invariant forall x: Cell :: x.row < i || (x.row == i && x.col < j) ==> !TrailFrom(board, word, 0, {}, x)
        {
          TrailHead(board, word, 0, {}, Cell(i, j));
          if board[i][j] == word[0] {
            var mark := ResetMark(board);
            Search(board, word, i, j, 0, mark, {});
            if found {
              return true;
            }
          }
        }
      }
      TrailStarts(board, word);
      return false;
    }
  }
}
