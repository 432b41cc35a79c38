/** The solver's indexed binary min-heap: `inds` holds node ids in heap order
    by the value `jets[id].f`, and the solver's `positions` array maps each id
    in the heap back to its slot. */
module Heap {
  import opened CInt

  /** `left`, `right` and `parent`: the implicit binary tree over slots. */
  function Left(pos: int): int { 2 * pos + 1 }

  function Right(pos: int): int { 2 * pos + 2 }

  function Parent(pos: int): int { Div(pos - 1, 2) }

  lemma ParentOfChildren(p: int)
    requires p >= 0
    ensures Parent(Left(p)) == p && Parent(Right(p)) == p
    ensures Right(p) == Left(p) + 1
  {
  }

  /** Every slot but the root has a parent before it, and is one of its
      parent's two children. */
  lemma ParentBefore(c: int)
    requires c > 0
    ensures 0 <= Parent(c) < c
    ensures c == Left(Parent(c)) || c == Right(Parent(c))
  {
  }

  /** C truncates `(0 - 1)/2` to 0: the root is its own parent. */
  lemma ParentOfRoot()
    ensures Parent(0) == 0
  {
  }

  /** Every id in `h` lies in `[0, n)`. */
  ghost predicate InRange(h: seq<int>, n: int) {
    forall p :: 0 <= p < |h| ==> 0 <= h[p] < n
  }

  /** Heap order over a sequence of ids keyed by `f`. */
  ghost predicate HeapOrdered(h: seq<int>, f: seq<real>)
    requires InRange(h, |f|)
  {
    forall p :: 0 < p < |h| ==> f[h[Parent(p)]] <= f[h[p]]
  }

  /** Heap order except that the key at `pos` may be smaller than its
      parent's; the parent of `pos` is still no larger than `pos`'s children. */
  ghost predicate OrderedExceptAbove(h: seq<int>, f: seq<real>, pos: int)
    requires InRange(h, |f|) && 0 <= pos < |h|
  {
    && (forall p :: 0 < p < |h| && p != pos ==> f[h[Parent(p)]] <= f[h[p]])
    && (pos > 0 ==> forall c :: 0 < c < |h| && Parent(c) == pos ==> f[h[Parent(pos)]] <= f[h[c]])
  }

  /** Heap order except that the key at `pos` may be larger than its
      children's; the parent of `pos` is still no larger than them. */
  ghost predicate OrderedExceptBelow(h: seq<int>, f: seq<real>, pos: int)
    requires InRange(h, |f|) && 0 <= pos < |h|
  {
    && (forall p :: 0 < p < |h| && Parent(p) != pos ==> f[h[Parent(p)]] <= f[h[p]])
    && (pos > 0 ==> forall c :: 0 < c < |h| && Parent(c) == pos ==> f[h[Parent(pos)]] <= f[h[c]])
  }

  /** `h` with slots `i` and `j` exchanged. */
  function Swapped(h: seq<int>, i: int, j: int): (r: seq<int>)
    requires 0 <= i < |h| && 0 <= j < |h|
    ensures |r| == |h| && r[i] == h[j] && r[j] == h[i]
    ensures forall q :: 0 <= q < |h| && q != i && q != j ==> r[q] == h[q]
    ensures multiset(r) == multiset(h)
  {
    h[i := h[j]][j := h[i]]
  }

  /** In heap order the root's key is at most every key in the heap. */
  lemma {:induction false} RootIsMinimum(h: seq<int>, f: seq<real>, p: int)
    requires InRange(h, |f|) && HeapOrdered(h, f)
    requires 0 <= p < |h|
    ensures f[h[0]] <= f[h[p]]
    decreases p
  {
    if p > 0 {
      ParentBefore(p);
      RootIsMinimum(h, f, Parent(p));
    }
  }

  /** A new last key breaks heap order at most above it. */
  lemma AppendLeaf(h: seq<int>, f: seq<real>, x: int)
    requires InRange(h, |f|) && 0 <= x < |f| && HeapOrdered(h, f)
    ensures InRange(h + [x], |f|)
    ensures OrderedExceptAbove(h + [x], f, |h|)
  {
    var h' := h + [x];
    forall p | 0 < p < |h'| && p != |h|
      ensures f[h'[Parent(p)]] <= f[h'[p]]
    {
      ParentBefore(p);
    }
    forall c | 0 < c < |h'| && Parent(c) == |h|
      ensures false
    {
      ParentBefore(c);
    }
  }

  /** One step of `heap_swim`: exchanging a key with its larger parent moves
      the one possible violation up to the parent's slot. */
  lemma SwimStep(h: seq<int>, f: seq<real>, pos: int)
    requires InRange(h, |f|) && 0 < pos < |h| && OrderedExceptAbove(h, f, pos)
    requires f[h[Parent(pos)]] > f[h[pos]]
    ensures InRange(Swapped(h, Parent(pos), pos), |f|)
    ensures OrderedExceptAbove(Swapped(h, Parent(pos), pos), f, Parent(pos))
  {
    var par := Parent(pos);
    ParentBefore(pos);
    var h' := Swapped(h, par, pos);
    forall p | 0 < p < |h'| && p != par
      ensures f[h'[Parent(p)]] <= f[h'[p]]
    {
      ParentBefore(p);
      if p == pos {
      } else if Parent(p) == pos {
      } else if Parent(p) == par {
        assert f[h[par]] <= f[h[p]];
      } else {
        assert h'[Parent(p)] == h[Parent(p)];
      }
    }
    if par > 0 {
      forall c | 0 < c < |h'| && Parent(c) == par
        ensures f[h'[Parent(par)]] <= f[h'[c]]
      {
        ParentBefore(par);
        assert f[h[Parent(par)]] <= f[h[par]];
        if c != pos {
          assert f[h[par]] <= f[h[c]];
        }
      }
    }
  }

  /** `heap_swim` stops at the root or below a parent that is no larger. */
  lemma SwimDone(h: seq<int>, f: seq<real>, pos: int)
    requires InRange(h, |f|) && 0 <= pos < |h| && OrderedExceptAbove(h, f, pos)
    requires pos == 0 || f[h[Parent(pos)]] <= f[h[pos]]
    ensures HeapOrdered(h, f)
  {
  }

  /** One step of `heap_sink`: with `ch` the smaller child of `pos`, the
      violation moves down to `ch`, whether or not the two are exchanged. */
  lemma SinkStep(h: seq<int>, f: seq<real>, pos: int, ch: int)
    requires InRange(h, |f|) && 0 <= pos < |h| && OrderedExceptBelow(h, f, pos)
    requires 0 < ch < |h| && Parent(ch) == pos
    requires forall c :: 0 < c < |h| && Parent(c) == pos ==> f[h[ch]] <= f[h[c]]
    ensures f[h[pos]] > f[h[ch]] ==> InRange(Swapped(h, pos, ch), |f|) && OrderedExceptBelow(Swapped(h, pos, ch), f, ch)
    ensures f[h[pos]] <= f[h[ch]] ==> OrderedExceptBelow(h, f, ch)
  {
    if f[h[pos]] > f[h[ch]] {
      SinkSwap(h, f, pos, ch);
    } else {
      forall c | 0 < c < |h| && Parent(c) == ch
        ensures f[h[Parent(ch)]] <= f[h[c]]
      {
        ParentBefore(c);
        assert f[h[ch]] <= f[h[c]];
      }
    }
  }

  /** The swapping half of `SinkStep`. */
  lemma SinkSwap(h: seq<int>, f: seq<real>, pos: int, ch: int)
    requires InRange(h, |f|) && 0 <= pos < |h| && OrderedExceptBelow(h, f, pos)
    requires 0 < ch < |h| && Parent(ch) == pos
    requires forall c :: 0 < c < |h| && Parent(c) == pos ==> f[h[ch]] <= f[h[c]]
    requires f[h[pos]] > f[h[ch]]
    ensures InRange(Swapped(h, pos, ch), |f|) && OrderedExceptBelow(Swapped(h, pos, ch), f, ch)
  {
    ParentBefore(ch);
    var h' := Swapped(h, pos, ch);
    forall p | 0 < p < |h'| && Parent(p) != ch
      ensures f[h'[Parent(p)]] <= f[h'[p]]
    {
      ParentBefore(p);
      if p == ch {
      } else if Parent(p) == pos {
        assert f[h[ch]] <= f[h[p]];
      } else if p == pos {
        assert f[h[Parent(pos)]] <= f[h[ch]];
      } else {
        assert h'[Parent(p)] == h[Parent(p)];
      }
    }
    forall c | 0 < c < |h'| && Parent(c) == ch
      ensures f[h'[Parent(ch)]] <= f[h'[c]]
    {
      ParentBefore(c);
      assert f[h[ch]] <= f[h[c]];
    }
  }

  /** `heap_sink` stops when `pos` has no child in the heap. */
  lemma SinkDone(h: seq<int>, f: seq<real>, pos: int)
    requires InRange(h, |f|) && 0 <= pos < |h| && OrderedExceptBelow(h, f, pos)
    requires Left(pos) >= |h|
    ensures HeapOrdered(h, f)
  {
    forall p | 0 < p < |h|
      ensures f[h[Parent(p)]] <= f[h[p]]
    {
      ParentBefore(p);
    }
  }

  /** `now` records the same slot as `was` for every id outside `ids`. */
  ghost predicate SameOutside(now: seq<int>, was: seq<int>, ids: multiset<int>)
  {
    |now| == |was| && forall l {:trigger was[l]} :: 0 <= l < |was| && l !in ids ==> now[l] == was[l]
  }

  /** Two steps that each keep the slots outside their ids keep the slots
      outside the larger set of ids. */
  lemma SameOutsideTrans(a: seq<int>, b: seq<int>, c: seq<int>, ids: multiset<int>, sub: multiset<int>)
    requires SameOutside(b, a, ids) && SameOutside(c, b, sub) && sub <= ids
    ensures SameOutside(c, a, ids)
  {
    forall l | 0 <= l < |a| && l !in ids
      ensures c[l] == a[l]
    {
      assert l !in sub;
    }
  }

  /** What `heap_pop` leaves before sinking: the last id moved to the root
      and the former root dropped. */
  function RemovedFront(h: seq<int>): (r: seq<int>)
    requires |h| > 0
  {
    if |h| > 1 then Swapped(h, 0, |h| - 1)[..|h| - 1] else []
  }

  /** Dropping the root leaves the other ids, with heap order broken at most
      below the new root. */
  lemma RemoveFront(h: seq<int>, f: seq<real>)
    requires InRange(h, |f|) && HeapOrdered(h, f) && |h| > 0
    ensures InRange(RemovedFront(h), |f|)
    ensures multiset(RemovedFront(h)) == multiset(h) - multiset{h[0]}
    ensures |RemovedFront(h)| > 0 ==> OrderedExceptBelow(RemovedFront(h), f, 0)
    ensures (forall p, q :: 0 <= p < q < |h| ==> h[p] != h[q]) ==> h[0] !in RemovedFront(h)
  {
    var n := |h| - 1;
    if n > 0 {
      var s := Swapped(h, 0, n);
      assert s == s[..n] + [h[0]];
      assert multiset(s) == multiset(s[..n]) + multiset{h[0]};
      var r := s[..n];
      forall p | 0 < p < n && Parent(p) != 0
        ensures f[r[Parent(p)]] <= f[r[p]]
      {
        ParentBefore(p);
      }
    } else {
      assert h == [h[0]];
    }
  }

  class MinHeap {
    var capacity: int
    var size: int
    var inds: array<int>
    /** `sjs->positions`, shared with the solver. */
    const positions: array<int>
    /** The values `sjs->jets[l].f` that order the heap; the heap only reads them. */
    const jets: array<real>

    /** Bounds, and the back-map `positions[inds[p]] == p` on every slot in use. */
    ghost predicate Valid()
      reads this, inds, positions
      ensures Valid() ==> 0 <= size <= inds.Length && InRange(inds[..size], jets.Length)
    {
      && 0 <= size <= capacity == inds.Length
      && 1 <= capacity
      && inds != positions
      && positions.Length == jets.Length
      && (forall p :: 0 <= p < size ==> 0 <= inds[p] < positions.Length && positions[inds[p]] == p)
    }

    /** The back-map makes the ids in the heap pairwise distinct. */
    lemma DistinctIds()
      requires Valid()
      ensures forall p, q :: 0 <= p < q < size ==> inds[p] != inds[q]
    {
    }

    /** The ids in the heap, slot by slot. */
    ghost function Contents(): seq<int>
      reads this, inds
      requires 0 <= size <= inds.Length
    {
      inds[..size]
    }

    /** Heap order by `jets[id]` over the ids in the heap. */
    ghost predicate Ordered()
      reads this, inds, positions, jets
      requires Valid()
    {
      HeapOrdered(inds[..size], jets[..])
    }

    /** `heap_init`, with the solver's `positions` and `jets` attached. */
    constructor Init(capacity: int, positions: array<int>, jets: array<real>)
      requires capacity >= 1 && positions.Length == jets.Length
      ensures Valid() && Ordered()
      ensures this.capacity == capacity && size == 0 && fresh(inds)
      ensures this.positions == positions && this.jets == jets
    {
      this.capacity := capacity;
      size := 0;
      inds := new int[capacity];
      this.positions := positions;
      this.jets := jets;
    }

    /** `heap_grow`: doubles the capacity, keeping the ids in the heap. */
    method Grow()
      requires Valid()
      modifies this
      ensures Valid() && fresh(inds)
      ensures capacity == 2 * old(capacity) && size == old(size)
      ensures inds[..size] == old(inds[..size])
    {
      var bigger := new int[2 * capacity];
      forall p | 0 <= p < size {
        bigger[p] := inds[p];
      }
      assert bigger[..size] == inds[..size];
      capacity := 2 * capacity;
      inds := bigger;
    }

    /** `heap_set`: puts `ind` in slot `pos` and records the slot. */
    method Set(pos: int, ind: int)
      requires 0 <= pos < inds.Length && 0 <= ind < positions.Length && inds != positions
      modifies inds, positions
      ensures inds[pos] == ind && positions[ind] == pos
      ensures forall q :: 0 <= q < inds.Length && q != pos ==> inds[q] == old(inds[q])
      ensures forall l :: 0 <= l < positions.Length && l != ind ==> positions[l] == old(positions[l])
    {
      inds[pos] := ind;
      positions[ind] := pos;
    }

    /** `heap_swap`: exchanges two slots and re-records both positions. */
    method Swap(pos1: int, pos2: int)
      requires Valid() && 0 <= pos1 < size && 0 <= pos2 < size
      modifies inds, positions
      ensures Valid()
      ensures inds[..size] == Swapped(old(inds[..size]), pos1, pos2)
      ensures forall q :: size <= q < inds.Length ==> inds[q] == old(inds[q])
      ensures forall l :: 0 <= l < positions.Length && l != inds[pos1] && l != inds[pos2] ==> positions[l] == old(positions[l])
      ensures SameOutside(positions[..], old(positions[..]), multiset(old(inds[..size])))
    {
      var tmp := inds[pos1];
      inds[pos1] := inds[pos2];
      inds[pos2] := tmp;
      Set(pos1, inds[pos1]);
      Set(pos2, inds[pos2]);
    }

    /** `heap_swim`: moves the key at `pos` up until its parent is no larger. */
    method Swim(pos: int)
      requires Valid() && 0 <= pos < size && OrderedExceptAbove(inds[..size], jets[..], pos)
      modifies inds, positions
      ensures Valid() && Ordered()
      ensures multiset(inds[..size]) == old(multiset(inds[..size]))
      ensures SameOutside(positions[..], old(positions[..]), multiset(old(inds[..size])))
    {
      ghost var f := jets[..];
      ghost var ids, was := multiset(inds[..size]), positions[..];
      var pos := pos;
      var par := Parent(pos);
      while pos > 0 && jets[inds[par]] > jets[inds[pos]]
        invariant Valid() && 0 <= pos < size && par == Parent(pos)
        invariant OrderedExceptAbove(inds[..size], f, pos)
        invariant multiset(inds[..size]) == old(multiset(inds[..size]))
        invariant SameOutside(positions[..], was, ids)
        decreases pos
      {
        ghost var h := inds[..size];
        ParentBefore(pos);
        SwimStep(h, f, pos);
        Swap(par, pos);
        pos := par;
        par := Parent(pos);
      }
      SwimDone(inds[..size], f, pos);
    }

    /** `heap_insert`: adds `ind`, growing the buffer when it is full. */
    method Insert(ind: int)
      requires Valid() && Ordered()
      requires 0 <= ind < positions.Length && ind !in Contents()
      modifies this, inds, positions
      ensures Valid() && Ordered()
      ensures size == old(size) + 1
      ensures capacity == if old(size) == old(capacity) then 2 * old(capacity) else old(capacity)
      ensures multiset(Contents()) == multiset(old(Contents())) + multiset{ind}
      ensures old(size) < old(capacity) ==> inds == old(inds)
      ensures old(size) == old(capacity) ==> fresh(inds)
      ensures SameOutside(positions[..], old(positions[..]), multiset(old(Contents())) + multiset{ind})
    {
      ghost var was := positions[..];
      if size == capacity {
        Grow();
      }
      ghost var before := inds[..size];
      var pos := size;
      size := size + 1;
      Set(pos, ind);
      ghost var between := positions[..];
      assert SameOutside(between, was, multiset(before) + multiset{ind});
      assert inds[..size] == before + [ind];
      AppendLeaf(before, jets[..], ind);
      Swim(pos);
      SameOutsideTrans(was, between, positions[..], multiset(before) + multiset{ind}, multiset(before + [ind]));
    }

    /** `heap_front`: the id with the smallest key. */
    method Front() returns (ind: int)
      requires Valid() && Ordered() && size > 0
      ensures ind == Contents()[0]
      ensures forall p :: 0 <= p < size ==> jets[ind] <= jets[inds[p]]
    {
      ind := inds[0];
      forall p | 0 <= p < size
        ensures jets[ind] <= jets[inds[p]]
      {
        RootIsMinimum(inds[..size], jets[..], p);
      }
    }

    /** The child of `pos` that `heap_sink` moves towards: the one with the
        smaller key, the left one on a tie or when there is no right child. */
    method SmallerChild(pos: int) returns (ch: int)
      requires Valid() && 0 <= pos < size && Left(pos) < size
      ensures ch == if Right(pos) < size && jets[inds[Left(pos)]] > jets[inds[Right(pos)]]
        then Right(pos) else Left(pos)
      ensures 0 < ch < size && Parent(ch) == pos
      ensures forall c :: 0 < c < size && Parent(c) == pos ==> jets[inds[ch]] <= jets[inds[c]]
    {
      var n := size;
      ch := Left(pos);
      var next := ch + 1;
      ParentOfChildren(pos);
      var cval := jets[inds[ch]];
      if next < n {
        var nval := jets[inds[next]];
        if cval > nval {
          ch := next;
          cval := nval;
        }
      }
      forall c | 0 < c < n && Parent(c) == pos
        ensures jets[inds[ch]] <= jets[inds[c]]
      {
        ParentBefore(c);
      }
    }

    /** The guarded swap of `heap_sink`: exchanges `pos` and `ch` exactly
        when the key at `pos` is larger. */
    method SwapIfLarger(pos: int, ch: int)
      requires Valid() && 0 <= pos < size && 0 <= ch < size
      modifies inds, positions
      ensures Valid()
      ensures inds[..size] == if jets[old(inds[pos])] > jets[old(inds[ch])]
        then Swapped(old(inds[..size]), pos, ch) else old(inds[..size])
      ensures multiset(inds[..size]) == old(multiset(inds[..size]))
      ensures SameOutside(positions[..], old(positions[..]), multiset(old(inds[..size])))
    {
      if jets[inds[pos]] > jets[inds[ch]] {
        Swap(pos, ch);
      }
    }

    /** One pass of the `heap_sink` loop: takes the smaller child of `pos`
        and swaps it with `pos` when the key at `pos` is larger. Returns that
        child. */
    method SinkOnce(pos: int) returns (ch: int)
      requires Valid() && 0 <= pos < size && Left(pos) < size
      requires OrderedExceptBelow(inds[..size], jets[..], pos)
      modifies inds, positions
      ensures Valid() && 0 < ch < size && Parent(ch) == pos
      ensures ch == if Right(pos) < size && jets[old(inds[Left(pos)])] > jets[old(inds[Right(pos)])]
        then Right(pos) else Left(pos)
      ensures inds[..size] == if jets[old(inds[pos])] > jets[old(inds[ch])]
        then Swapped(old(inds[..size]), pos, ch) else old(inds[..size])
      ensures OrderedExceptBelow(inds[..size], jets[..], ch)
      ensures multiset(inds[..size]) == old(multiset(inds[..size]))
      ensures SameOutside(positions[..], old(positions[..]), multiset(old(inds[..size])))
    {
      ghost var h := inds[..size];
      ghost var f := jets[..];
      ch := SmallerChild(pos);
      SinkStep(h, f, pos, ch);
      SwapIfLarger(pos, ch);
    }

    /** `heap_sink`: moves the key at `pos` down below its smaller child. */
    method Sink(pos: int)
      requires Valid() && 0 <= pos < size && OrderedExceptBelow(inds[..size], jets[..], pos)
      modifies inds, positions
      ensures Valid() && Ordered()
      ensures multiset(inds[..size]) == old(multiset(inds[..size]))
      ensures SameOutside(positions[..], old(positions[..]), multiset(old(inds[..size])))
    {
      ghost var ids, was := multiset(inds[..size]), positions[..];
      var pos := pos;
      var ch, n := Left(pos), size;
      while ch < n
        invariant Valid() && 0 <= pos < size == n && ch == Left(pos)
        invariant OrderedExceptBelow(inds[..size], jets[..], pos)
        invariant multiset(inds[..size]) == old(multiset(inds[..size]))
        invariant SameOutside(positions[..], was, ids)
        decreases n - pos
      {
        pos := SinkOnce(pos);
        ch := Left(pos);
      }
      SinkDone(inds[..size], jets[..], pos);
    }

    /** The first half of `heap_pop`: the last id takes the root's slot and
        `size` shrinks by one. The source decrements `size` first and then
        swaps slots 0 and `size`; the model swaps first, which touches the
        same two slots. */
    method DropFront()
      requires Valid() && size > 0
      modifies this, inds, positions
      ensures Valid() && inds == old(inds) && capacity == old(capacity)
      ensures size == old(size) - 1
      ensures inds[..size] == RemovedFront(old(inds[..size]))
      ensures SameOutside(positions[..], old(positions[..]), multiset(old(inds[..size])))
    {
      ghost var before, was := inds[..size], positions[..];
      var n := size;
      if n - 1 > 0 {
        Swap(0, n - 1);
      }
      ghost var after, slots := inds[..n], positions[..];
      assert SameOutside(slots, was, multiset(before));
      assert after[..n - 1] == RemovedFront(before);
      assert forall p :: 0 <= p < n - 1 ==> 0 <= inds[p] < positions.Length && positions[inds[p]] == p;
      size := n - 1;
      assert inds[..size] == after[..n - 1];
      assert positions[..] == slots;
    }

    /** Dropping the front of an ordered heap leaves the other ids, without
        the front one, ordered except below the new root. */
    lemma FrontRemoval()
      requires Valid() && Ordered() && size > 0
      ensures InRange(RemovedFront(inds[..size]), jets.Length)
      ensures multiset(RemovedFront(inds[..size])) == multiset(inds[..size]) - multiset{inds[0]}
      ensures size > 1 ==> OrderedExceptBelow(RemovedFront(inds[..size]), jets[..], 0)
      ensures inds[0] !in RemovedFront(inds[..size])
    {
      DistinctIds();
      RemoveFront(inds[..size], jets[..]);
    }

    /** The second half of `heap_pop`: sinks the new root unless the heap
        is now empty. */
    method SinkRoot()
      requires Valid() && (size > 0 ==> OrderedExceptBelow(inds[..size], jets[..], 0))
      modifies inds, positions
      ensures Valid() && Ordered()
      ensures multiset(inds[..size]) == old(multiset(inds[..size]))
      ensures SameOutside(positions[..], old(positions[..]), multiset(old(inds[..size])))
    {
      if size > 0 {
        Sink(0);
      }
    }

    /** `heap_pop`: removes the front id and restores heap order. */
    method Pop()
      requires Valid() && Ordered() && size > 0
      modifies this, inds, positions
      ensures Valid() && Ordered()
      ensures inds == old(inds) && capacity == old(capacity)
      ensures size == old(size) - 1
      ensures multiset(Contents()) == multiset(old(Contents())) - multiset{old(inds[0])}
      ensures old(inds[0]) !in Contents()
      ensures SameOutside(positions[..], old(positions[..]), multiset(old(Contents())))
    {
      ghost var f := jets[..];
      ghost var before := inds[..size];
      ghost var was := positions[..];
      FrontRemoval();
      ghost var buf, cap := inds, capacity;
      DropFront();
      ghost var dropped, between := inds[..size], positions[..];
      assert jets[..] == f;
      SinkRoot();
      assert inds == buf && capacity == cap;
      SameOutsideTrans(was, between, positions[..], multiset(before), multiset(dropped));
      assert multiset(inds[..size]) == multiset(dropped);
      assert before[0] !in multiset(inds[..size]);
    }
  }
}
