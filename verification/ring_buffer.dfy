/** The history buffer: a fixed-capacity circular store of integer points with
    a write cursor `head`. Writes advance the cursor first and then store, so
    from a fresh buffer the j-th write (counting from 1) lands in slot
    `j % capacity`; slot 0 is first written by write number `capacity`. */
module RingBuffers {
  import opened Panics

  datatype Point = Point(x: int, y: int)

  /** The zero value of a Go `point`, held by every slot never written. */
  const Origin := Point(0, 0)

  /** What slot `s` of a fresh buffer of capacity `cap` holds after the
      writes `writes`: the latest write whose 1-based number is congruent to
      `s` modulo `cap`, or the origin when there is none. */
  function SlotContent(writes: seq<Point>, cap: nat, s: int): (p: Point)
    requires cap > 0
    decreases |writes|
  {
    if writes == [] then Origin
    else if |writes| % cap == s then writes[|writes| - 1]
    else SlotContent(writes[..|writes| - 1], cap, s)
  }

  /** The index computation of `read`: `head - offset`, plus the capacity once
      when that is negative. */
  function ReadIndex(head: int, offset: int, cap: int): (idx: int) {
    var idx := head - offset;
    if idx < 0 then idx + cap else idx
  }

  /** What `read(offset)` yields on a fresh buffer of capacity `cap` after
      the writes `writes`. */
  function Recall(writes: seq<Point>, cap: nat, offset: int): (r: Result<Point>)
    requires cap > 0
  {
    var idx := ReadIndex(|writes| % cap, offset, cap);
    if idx < 0 then Err(OffsetTooLarge)
    else if idx >= cap then Err(IndexOutOfRange)
    else Ok(SlotContent(writes, cap, idx))
  }

  /** Euclidean division is unique: a quotient and a remainder in range
      determine `a % cap`. */
  lemma ModUnique(a: int, cap: int, q: int, r: int)
    requires 0 <= r < cap
    requires a == q * cap + r
    ensures a % cap == r
  {
    var m := q - a / cap;
    assert m * cap == a % cap - r by {
      assert a == (a / cap) * cap + a % cap;
      assert q * cap - (a / cap) * cap == m * cap;
    }
  }

  /** One more write moves the cursor one slot on, back to 0 past the end. */
  lemma ModStep(k: int, cap: int)
    requires cap > 0
    ensures (k + 1) % cap == if k % cap + 1 == cap then 0 else k % cap + 1
  {
    var q, r := k / cap, k % cap;
    assert k == q * cap + r;
    if r + 1 == cap {
      ModUnique(k + 1, cap, q + 1, 0);
    } else {
      ModUnique(k + 1, cap, q, r + 1);
    }
  }

  /** Two numbers less than `cap` apart, but not equal, differ modulo `cap`. */
  lemma ModDistinct(a: int, d: int, cap: int)
    requires 0 < d < cap
    ensures a % cap != (a - d) % cap
  {
    var q, r := a / cap, a % cap;
    assert a == q * cap + r;
    if r >= d {
      ModUnique(a - d, cap, q, r - d);
    } else {
      assert a - d == (q - 1) * cap + (r - d + cap);
      ModUnique(a - d, cap, q - 1, r - d + cap);
    }
  }

  /** For an offset inside the capacity, the normalised index of `read` is the
      Euclidean remainder of `writes - offset`. */
  lemma ReadIndexIsMod(k: nat, offset: int, cap: int)
    requires 0 <= offset < cap
    ensures ReadIndex(k % cap, offset, cap) == (k - offset) % cap
  {
    var q, r := k / cap, k % cap;
    assert k == q * cap + r;
    if r - offset < 0 {
      assert k - offset == (q - 1) * cap + (r - offset + cap);
      ModUnique(k - offset, cap, q - 1, r - offset + cap);
    } else {
      ModUnique(k - offset, cap, q, r - offset);
    }
  }

  /** Write number `j` survives in slot `j % cap` as long as fewer than `cap`
      later writes have happened. */
  lemma {:induction false} SlotHoldsWrite(writes: seq<Point>, cap: nat, j: int)
    requires cap > 0
    requires 1 <= j <= |writes| && |writes| - j < cap
    ensures SlotContent(writes, cap, j % cap) == writes[j - 1]
  {
    var k := |writes|;
    if k != j {
      ModDistinct(k, k - j, cap);
      assert k % cap != j % cap;
      SlotHoldsWrite(writes[..k - 1], cap, j);
    }
  }

  /** Before the first wrap, slot 0 and the slots past the last write still
      hold the origin. */
  lemma {:induction false} SlotNeverWritten(writes: seq<Point>, cap: nat, s: int)
    requires |writes| < cap
    requires s == 0 || |writes| < s < cap
    ensures SlotContent(writes, cap, s) == Origin
  {
    if writes != [] {
      assert |writes| % cap == |writes|;
      SlotNeverWritten(writes[..|writes| - 1], cap, s);
    }
  }

  /** Reading `offset` writes back, inside the capacity and the history written
      so far, recovers exactly that earlier write. */
  lemma RecallRecent(writes: seq<Point>, cap: nat, offset: int)
    requires cap > 0
    requires 0 <= offset < |writes| && offset < cap
    ensures Recall(writes, cap, offset) == Ok(writes[|writes| - 1 - offset])
  {
    var k := |writes|;
    ReadIndexIsMod(k, offset, cap);
    SlotHoldsWrite(writes, cap, k - offset);
  }

  /** Reading further back than has been written, but inside the capacity,
      yields the origin rather than an error. */
  lemma RecallUnwritten(writes: seq<Point>, cap: nat, offset: int)
    requires |writes| <= offset < cap
    ensures Recall(writes, cap, offset) == Ok(Origin)
  {
    var k := |writes|;
    assert k % cap == k;
    SlotNeverWritten(writes, cap, ReadIndex(k, offset, cap));
  }

  /** `read` panics exactly when the offset is past the cursor plus one wrap
      (the explicit panic) or so negative that the index passes the end of
      the slice (the runtime bounds check). */
  lemma RecallFails(writes: seq<Point>, cap: nat, offset: int)
    requires cap > 0
    ensures Recall(writes, cap, offset) == Err(OffsetTooLarge) <==> offset > |writes| % cap + cap
    ensures Recall(writes, cap, offset) == Err(IndexOutOfRange) <==> offset <= |writes| % cap - cap
    ensures 0 <= offset <= cap ==> Recall(writes, cap, offset).Ok?
  {
  }

  /** Offsets from the capacity up to the cursor plus the capacity do not
      fail: they wrap onto the offset one capacity smaller. In particular
      `read(cap)` returns the latest write. */
  lemma RecallWraps(writes: seq<Point>, cap: nat, offset: int)
    requires cap > 0
    requires cap <= offset <= |writes| % cap + cap
    ensures Recall(writes, cap, offset) == Recall(writes, cap, offset - cap)
    ensures offset == cap && writes != [] ==> Recall(writes, cap, offset) == Ok(writes[|writes| - 1])
  {
    if offset == cap && writes != [] {
      RecallRecent(writes, cap, 0);
    }
  }

  /** The capacity-5 scenario: six writes (1,1) … (6,6). Offset 0 gives the
      latest write, offset 4 the second, and offset 5 wraps to the latest
      write again instead of failing. */
  lemma CapacityFiveScenario()
    ensures var ws := [Point(1, 1), Point(2, 2), Point(3, 3), Point(4, 4), Point(5, 5), Point(6, 6)];
      Recall(ws, 5, 0) == Ok(Point(6, 6)) &&
      Recall(ws, 5, 4) == Ok(Point(2, 2)) &&
      Recall(ws, 5, 5) == Ok(Point(6, 6))
  {
    var ws := [Point(1, 1), Point(2, 2), Point(3, 3), Point(4, 4), Point(5, 5), Point(6, 6)];
    RecallRecent(ws, 5, 0);
    RecallRecent(ws, 5, 4);
    RecallWraps(ws, 5, 5);
  }

  /** Circularity: after exactly `cap` writes the oldest retrievable point is
      the first write, and after one more write it is the second. */
  lemma WindowSlides(writes: seq<Point>, cap: nat)
    requires cap > 0 && |writes| >= cap
    ensures Recall(writes[..cap], cap, 0) == Ok(writes[cap - 1])
    ensures Recall(writes[..cap], cap, cap - 1) == Ok(writes[0])
    ensures |writes| > cap ==> Recall(writes[..cap + 1], cap, cap - 1) == Ok(writes[1])
  {
    RecallRecent(writes[..cap], cap, 0);
    RecallRecent(writes[..cap], cap, cap - 1);
    if |writes| > cap {
      RecallRecent(writes[..cap + 1], cap, cap - 1);
    }
  }

  class RingBuffer {
    var buf: array<Point>
    var head: int
    /** Every point written since construction, oldest first. */
    ghost var Writes: seq<Point>

    ghost predicate Valid()
      reads this, buf
    {
      buf.Length > 0 &&
      head == |Writes| % buf.Length &&
      forall s :: 0 <= s < buf.Length ==> buf[s] == SlotContent(Writes, buf.Length, s)
    }

    /** A zero-filled buffer with the cursor at slot 0. */
    constructor (capacity: nat)
      requires capacity > 0
      ensures Valid() && fresh(buf)
      ensures buf.Length == capacity && head == 0 && Writes == []
      ensures forall s :: 0 <= s < capacity ==> buf[s] == Origin
    {
      buf := new Point[capacity](_ => Origin);
      head := 0;
      Writes := [];
    }

    /** Advance the cursor with wrap-around, then store the point there. */
    method Write(x: int, y: int)
      requires Valid()
      modifies this, buf
      ensures Valid() && buf == old(buf)
      ensures head == (old(head) + 1) % buf.Length
      ensures buf[..] == old(buf[..])[head := Point(x, y)]
      ensures Writes == old(Writes) + [Point(x, y)]
      ensures Recall(Writes, buf.Length, 0) == Ok(Point(x, y))
    {
      var p := Point(x, y);
      ModStep(|Writes|, buf.Length);
      ModStep(head, buf.Length);
      ModUnique(head, buf.Length, 0, head);
      head := head + 1;
      if head >= buf.Length {
        head := 0;
      }
      buf[head] := p;
      Writes := Writes + [p];
      forall s | 0 <= s < buf.Length
        ensures buf[s] == SlotContent(Writes, buf.Length, s)
      {
        assert Writes[..|Writes| - 1] == old(Writes);
      }
      RecallRecent(Writes, buf.Length, 0);
    }

    /** The point written `offset` writes ago, or the panic `read` raises. */
    method Read(offset: int) returns (r: Result<Point>)
      requires Valid()
      ensures r == Recall(Writes, buf.Length, offset)
      ensures 0 <= offset < buf.Length ==> r == Ok(buf[(head - offset) % buf.Length])
    {
      var idx := head - offset;
      if idx < 0 {
        idx := idx + buf.Length;
      }
      if idx < 0 {
        return Err(OffsetTooLarge);
      }
      if idx >= buf.Length {
        return Err(IndexOutOfRange);
      }
      r := Ok(buf[idx]);
      if 0 <= offset < buf.Length {
        ModUnique(head, buf.Length, 0, head);
        ReadIndexIsMod(head, offset, buf.Length);
        assert idx == (head - offset) % buf.Length;
      }
    }
  }
}
