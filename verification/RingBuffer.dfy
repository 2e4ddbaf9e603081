/** The three-phase ring buffer of hev-ring-buffer.c: written, handed out, released. */
module RingBuffer {
  import opened Bits

  // The index i of a ring of max cells, for i below two rounds.
  function Wrap(i: nat, max: nat): (r: nat) {
    if i < max then i else i - max
  }

  lemma WrapIsMod(i: nat, max: nat)
    requires 0 < max && i < 2 * max
    ensures i % max == Wrap(i, max)
  {
    if i >= max {
      DivModUnique(i, max, 1, i - max);
    }
  }

  // The n cells from start on.
  ghost function Cells(start: nat, n: nat, max: nat): (r: seq<nat>)
    ensures |r| == n
    ensures forall k :: 0 <= k < n ==> r[k] == Wrap(start + k, max)
  {
    seq<nat>(n, k requires 0 <= k < n => Wrap(start + k, max))
  }

  ghost predicate Inside(cells: seq<nat>, max: nat) {
    forall k :: 0 <= k < |cells| ==> cells[k] < max
  }

  // What a list of cells holds.
  ghost function Load(d: Bytes, cells: seq<nat>): (r: Bytes)
    requires Inside(cells, |d|)
    ensures |r| == |cells|
    ensures forall k :: 0 <= k < |cells| ==> r[k] == d[cells[k]]
  {
    seq(|cells|, k requires 0 <= k < |cells| => d[cells[k]])
  }

  lemma CellsSplit(start: nat, a: nat, b: nat, max: nat)
    requires start < max && a + b <= max
    ensures Cells(start, a + b, max) == Cells(start, a, max) + Cells(Wrap(start + a, max), b, max)
  {
  }

  lemma CellsMember(start: nat, n: nat, max: nat, c: nat)
    requires start < max && n <= max && c < max
    ensures c in Cells(start, n, max) <==> (if c >= start then c - start < n else c + max - start < n)
  {
    var k := if c >= start then c - start else c + max - start;
    if k < n {
      assert Cells(start, n, max)[k] == c;
    }
  }

  lemma LoadConcat(d: Bytes, a: seq<nat>, b: seq<nat>)
    requires Inside(a, |d|) && Inside(b, |d|)
    ensures Inside(a + b, |d|) && Load(d, a + b) == Load(d, a) + Load(d, b)
  {
  }

  lemma LoadSlices(d: Bytes, a: seq<nat>, k: nat)
    requires Inside(a, |d|) && k <= |a|
    ensures Inside(a[..k], |d|) && Load(d, a[..k]) == Load(d, a)[..k]
    ensures Inside(a[k..], |d|) && Load(d, a[k..]) == Load(d, a)[k..]
  {
  }

  // Handing out size bytes moves the border between in-flight and unread cells.
  lemma ReadCells(max: nat, rp: nat, rda: nat, use: nat, size: nat)
    requires size <= rda <= use <= max && rp < max
    ensures var tail, rp' := Wrap(rp + max - (use - rda), max), Wrap(rp + size, max);
      && rp' < max && Wrap(rp' + (rda - size), max) == Wrap(rp + rda, max)
      && Wrap(rp' + max - (use - (rda - size)), max) == tail
      && Cells(tail, use - (rda - size), max) == Cells(tail, use - rda, max) + Cells(rp, rda, max)[..size]
      && Cells(rp', rda - size, max) == Cells(rp, rda, max)[size..]
  {
    var tail := Wrap(rp + max - (use - rda), max);
    assert Wrap(tail + (use - rda), max) == rp;
    CellsSplit(rp, size, rda - size, max);
    CellsSplit(tail, use - rda, size, max);
    assert Cells(rp, rda, max)[..size] == Cells(rp, size, max);
  }

  // struct iovec: a stretch of the buffer.
  datatype Iov = Iov(base: nat, len: nat)

  ghost function IovCells(iov: seq<Iov>): seq<nat> {
    if iov == [] then []
    else seq<nat>(iov[0].len, k requires 0 <= k < iov[0].len => iov[0].base + k) + IovCells(iov[1..])
  }

  // At most two stretches inside the buffer, the second one before the first.
  ghost predicate WellPlaced(iov: seq<Iov>, max: nat) {
    && |iov| <= 2 && (forall i :: 0 <= i < |iov| ==> 0 < iov[i].len && iov[i].base + iov[i].len <= max)
    && (|iov| == 2 ==> iov[1].base + iov[1].len <= iov[0].base)
  }

  lemma OneIov(start: nat, n: nat, max: nat)
    requires start + n <= max
    ensures IovCells([Iov(start, n)]) == Cells(start, n, max)
  {
  }

  lemma TwoIovs(start: nat, n: nat, max: nat)
    requires start < max && max < start + n && n <= max
    ensures IovCells([Iov(start, max - start), Iov(0, n - (max - start))]) == Cells(start, n, max)
  {
    var a, b := Iov(start, max - start), Iov(0, n - (max - start));
    assert [a, b][1..] == [b] && IovCells([b]) == Cells(0, b.len, max);
    CellsSplit(start, a.len, b.len, max);
  }

  class RingBuffer {
    var rp: nat
    var wp: nat
    var rdaSize: nat
    var useSize: nat
    const maxSize: nat
    const data: array<byte>

    ghost predicate Valid()
      reads this
    {
      && data.Length == maxSize
      && rdaSize <= useSize <= maxSize
      && (useSize == 0 ==> rp == wp == 0)
      && (maxSize > 0 ==> rp < maxSize && wp == Wrap(rp + rdaSize, maxSize))
    }

    // Where the oldest unreleased byte stands.
    ghost function Tail(): nat
      requires Valid()
      reads this
    {
      Wrap(rp + maxSize - (useSize - rdaSize), maxSize)
    }

    ghost function InFlightCells(): (r: seq<nat>)
      requires Valid()
      reads this
      ensures Inside(r, maxSize)
    {
      Cells(Tail(), useSize - rdaSize, maxSize)
    }

    ghost function UnreadCells(): (r: seq<nat>)
      requires Valid()
      reads this
      ensures Inside(r, maxSize)
    {
      Cells(rp, rdaSize, maxSize)
    }

    ghost function FreeCells(): (r: seq<nat>)
      requires Valid()
      reads this
      ensures Inside(r, maxSize)
    {
      Cells(wp, maxSize - useSize, maxSize)
    }

    // Handed out but not released, oldest first.
    ghost function InFlight(): Bytes
      requires Valid()
      reads this, data
    {
      Load(data[..], InFlightCells())
    }

    // Written but not handed out.
    ghost function Unread(): Bytes
      requires Valid()
      reads this, data
    {
      Load(data[..], UnreadCells())
    }

    // hev_ring_buffer_alloca
    constructor (size: nat)
      ensures Valid() && maxSize == size && fresh(data)
      ensures InFlight() == [] && Unread() == []
    {
      rp, wp, rdaSize, useSize, maxSize := 0, 0, 0, 0, size;
      data := new byte[size](i => 0);
    }

    // The free cells are exactly those no unread or in-flight byte stands in.
    lemma Partition()
      requires Valid()
      ensures forall c: nat :: c < maxSize ==>
        (c in FreeCells() <==> c !in UnreadCells() && c !in InFlightCells())
      ensures forall c: nat :: c < maxSize && c in UnreadCells() ==> c !in InFlightCells()
    {
      hide Cells;
      forall c: nat | c < maxSize
        ensures c in FreeCells() <==> c !in UnreadCells() && c !in InFlightCells()
        ensures c in UnreadCells() ==> c !in InFlightCells()
      {
        CellsMember(wp, maxSize - useSize, maxSize, c);
        CellsMember(rp, rdaSize, maxSize, c);
        CellsMember(Tail(), useSize - rdaSize, maxSize, c);
      }
    }

    // Adjacent windows: in flight, unread, free.
    lemma Adjacent()
      requires Valid() && maxSize > 0
      ensures Wrap(Tail() + (useSize - rdaSize), maxSize) == rp && Wrap(rp + rdaSize, maxSize) == wp
      ensures Tail() < maxSize
    {
    }

    // The write index is where the unread bytes end, modulo the size of the ring.
    lemma WriteIndex()
      requires Valid() && maxSize > 0
      ensures rdaSize <= useSize <= maxSize && wp == (rp + rdaSize) % maxSize
    {
      WrapIsMod(rp + rdaSize, maxSize);
    }

    method Reading() returns (iov: seq<Iov>)
      requires Valid()
      ensures WellPlaced(iov, maxSize) && IovCells(iov) == UnreadCells()
      ensures |iov| == if rdaSize == 0 then 0 else if rp + rdaSize <= maxSize then 1 else 2
    {
      if rdaSize == 0 {
        return [];
      }
      var upperSize := maxSize - rp;
      if rdaSize <= upperSize {
        OneIov(rp, rdaSize, maxSize);
        return [Iov(rp, rdaSize)];
      }
      TwoIovs(rp, rdaSize, maxSize);
      return [Iov(rp, upperSize), Iov(0, rdaSize - upperSize)];
    }

    method Writing() returns (iov: seq<Iov>)
      requires Valid()
      ensures WellPlaced(iov, maxSize) && IovCells(iov) == FreeCells()
      ensures |iov| == if useSize == maxSize then 0 else if wp + (maxSize - useSize) <= maxSize then 1 else 2
    {
      if useSize == maxSize {
        return [];
      }
      var upperSize, spcSize := maxSize - wp, maxSize - useSize;
      if spcSize <= upperSize {
        OneIov(wp, spcSize, maxSize);
        return [Iov(wp, spcSize)];
      }
      TwoIovs(wp, spcSize, maxSize);
      return [Iov(wp, upperSize), Iov(0, spcSize - upperSize)];
    }

    method ReadFinish(size: nat)
      requires Valid() && 0 < maxSize && size <= rdaSize
      modifies this`rp, this`rdaSize
      ensures Valid()
      ensures InFlightCells() == old(InFlightCells()) + old(UnreadCells())[..size]
      ensures UnreadCells() == old(UnreadCells())[size..]
      ensures InFlight() == old(InFlight()) + old(Unread())[..size]
      ensures Unread() == old(Unread())[size..]
    {
      hide Cells, Load, Wrap, Inside;
      ReadCells(maxSize, rp, rdaSize, useSize, size);
      WrapIsMod(rp + size, maxSize);
      LoadSlices(data[..], UnreadCells(), size);
      LoadConcat(data[..], InFlightCells(), UnreadCells()[..size]);
      rp := (rp + size) % maxSize;
      rdaSize := rdaSize - size;
    }

    method ReadRelease(size: nat)
      requires Valid() && size <= useSize - rdaSize
      modifies this`rp, this`wp, this`useSize
      ensures Valid() && useSize == old(useSize) - size
      ensures useSize > 0 ==> InFlightCells() == old(InFlightCells())[size..] && UnreadCells() == old(UnreadCells())
      ensures InFlight() == old(InFlight())[size..]
      ensures Unread() == old(Unread())
    {
      useSize := useSize - size;
      if useSize == 0 {
        rp, wp := 0, 0;
      }
    }

    method WriteFinish(size: nat)
      requires Valid() && 0 < maxSize && size <= maxSize - useSize
      modifies this`wp, this`useSize, this`rdaSize
      ensures Valid() && useSize == old(useSize) + size
      ensures InFlightCells() == old(InFlightCells())
      ensures UnreadCells() == old(UnreadCells()) + old(FreeCells())[..size]
      ensures InFlight() == old(InFlight())
      ensures Unread() == old(Unread()) + Load(data[..], old(FreeCells())[..size])
    {
      Adjacent();
      hide Cells, Load, Inside;
      WrapIsMod(wp + size, maxSize);
      CellsSplit(wp, size, maxSize - useSize - size, maxSize);
      CellsSplit(rp, rdaSize, size, maxSize);
      LoadConcat(data[..], UnreadCells(), Cells(wp, size, maxSize));
      hide Wrap;
      wp := (wp + size) % maxSize;
      useSize := useSize + size;
      rdaSize := rdaSize + size;
    }
  }
}
