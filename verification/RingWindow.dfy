/** Cells of a ring read as a list: shared by the byte ring and the acknowledgement queue. */
module RingWindow {
  import opened Bits

  /** The i-th cell from head on, going round. */
  function Cell(head: nat, size: nat, i: nat): (c: nat)
    requires head < size && i <= size
    ensures c < size
  {
    if head + i < size then head + i else head + i - size
  }

  function Window<T>(cells: seq<T>, head: nat, count: nat): (q: seq<T>)
    requires head < |cells| && count <= |cells|
    ensures |q| == count && forall i :: 0 <= i < count ==> q[i] == cells[Cell(head, |cells|, i)]
  {
    seq(count, i requires 0 <= i < count => cells[Cell(head, |cells|, i)])
  }

  lemma WrapOnce(x: nat, size: nat)
    requires x < 2 * size
    ensures x % size == if x < size then x else x - size
  {
  }

  /** An ever-growing position, reduced by the ring size, walks the cells. */
  lemma PositionCell(pos: nat, size: nat, i: nat)
    requires size > 0 && i <= size
    ensures (pos + i) % size == Cell(pos % size, size, i)
  {
    var q, r := pos / size, pos % size;
    assert pos == size * q + r;
    if r + i < size {
      DivModUnique(pos + i, size, q, r + i);
    } else {
      NextLap(size, q);
      DivModUnique(pos + i, size, q + 1, r + i - size);
    }
  }

  lemma NextLap(size: nat, q: nat)
    ensures size * (q + 1) == size * q + size
  {
  }

  lemma CellAdd(head: nat, size: nat, i: nat, j: nat)
    requires head < size && i + j <= size
    ensures Cell(Cell(head, size, i), size, j) == Cell(head, size, i + j)
  {
  }

  lemma WindowDrop<T>(cells: seq<T>, head: nat, count: nat, n: nat)
    requires head < |cells| && n <= count <= |cells|
    ensures Window(cells, Cell(head, |cells|, n), count - n) == Window(cells, head, count)[n..]
  {
  }

  /** Writing right behind a window, and nowhere else, appends to it. */
  lemma WindowAppend<T>(cells: seq<T>, head: nat, count: nat, p: seq<T>, after: seq<T>)
    requires head < |cells| && count + |p| <= |cells| == |after|
    requires forall i :: 0 <= i < |p| ==> after[Cell(head, |cells|, count + i)] == p[i]
    requires forall i :: 0 <= i < count ==> after[Cell(head, |cells|, i)] == cells[Cell(head, |cells|, i)]
    ensures Window(after, head, count + |p|) == Window(cells, head, count) + p
  {
  }

  /** The stretches of a window up to the end of the ring and after it. */
  lemma WindowParts<T>(cells: seq<T>, head: nat, count: nat)
    requires head < |cells| && count <= |cells|
    ensures head + count <= |cells| ==> Window(cells, head, count) == cells[head..head + count]
    ensures head + count > |cells| ==> Window(cells, head, count) == cells[head..] + cells[..head + count - |cells|]
  {
  }

  lemma WindowTake<T>(cells: seq<T>, head: nat, count: nat, n: nat)
    requires head < |cells| && n <= count <= |cells|
    ensures Window(cells, head, n) == Window(cells, head, count)[..n]
  {
  }

  lemma WindowPrefix<T>(cells: seq<T>, head: nat, count: nat, n: nat)
    requires head < |cells| && n <= count <= |cells|
    ensures Window(cells, head, count)[..n] ==
      if head + n <= |cells| then cells[head..head + n] else cells[head..] + cells[..n - (|cells| - head)]
  {
  }
}
