/**
  One ring of the clock (`TimeView`): the labels for the indices start..end,
  laid out evenly around the ring, and the rotation the whole ring is turned by.
 */
module Ring {
  import opened Turns
  import Format

  /** One tick of a ring (a `ComponentView`): its index, the text of its label
      and the angle by which it is turned about the ring's centre. */
  datatype Component = Component(index: int, text: string, angle: Angle)

  /** The label of tick `index`: its number written by `%0.2ld`, then the unit. */
  function Label(index: int, unit: string): string
  {
    Format.FormatIndex(index) + unit
  }

  /** The angle tick `index` is turned by on a ring of `count` ticks: index/count
      of a turn clockwise, which is negative. The index itself is used, not its
      offset from the ring's first index. */
  function Placement(index: int, count: int): Angle
    requires count > 0
  {
    Turn(-index, count)
  }

  /** The number of ticks of a ring over start..end. */
  function Count(start: int, end: int): int
  {
    end - start + 1
  }

  /** The tick that `drawTime` creates for `index`. */
  function ComponentFor(index: int, start: int, end: int, unit: string): Component
    requires start <= end
  {
    Component(index, Label(index, unit), Placement(index, Count(start, end)))
  }

  /** All ticks of a ring over start..end, in the order `drawTime` adds them. */
  function Layout(start: int, end: int, unit: string): (cs: seq<Component>)
    requires start <= end
    ensures |cs| == Count(start, end)
    ensures forall k :: 0 <= k < |cs| ==> cs[k] == ComponentFor(start + k, start, end, unit)
  {
    seq(Count(start, end), k requires 0 <= k < Count(start, end) => ComponentFor(start + k, start, end, unit))
  }

  /** The indices that have a tick on the ring. */
  function Indices(components: seq<Component>): set<int>
  {
    set c | c in components :: c.index
  }

  /** The indices of the ticks that point in the reference direction once the
      ring is turned by `rotation`. */
  function AtReference(components: seq<Component>, rotation: Angle): set<int>
  {
    set k | 0 <= k < |components| && Whole(Plus(rotation, components[k].angle)) :: components[k].index
  }

  class TimeView {
    const unit: string
    const start: int
    const end: int
    /** The ticks added to the ring, in order. */
    var components: seq<Component>
    /** The rotation of the whole ring (its `transform`). */
    var rotation: Angle

    /** The ring is created with its ticks drawn and no rotation. Swift's
        `start...end` traps when start > end, so the ring needs start <= end. */
    constructor (unit: string, start: int, end: int)
      requires start <= end
      ensures this.unit == unit && this.start == start && this.end == end
      ensures components == Layout(start, end, unit)
      ensures rotation == Zero
    {
      this.unit := unit;
      this.start := start;
      this.end := end;
      components := [];
      rotation := Zero;
      new;
      DrawTime();
    }

    /** Adds one tick per index start..end, in increasing order. */
    method DrawTime()
      requires start <= end
      modifies this`components
      ensures components == old(components) + Layout(start, end, unit)
    {
      var count := end - start + 1;
      var index := start;
      while index <= end
        invariant start <= index <= end + 1
        invariant components == old(components) + Layout(start, end, unit)[..index - start]
      {
        var text := Format.FormatIndex(index) + unit;
        var angle := Turn(-index, count);
        assert Component(index, text, angle) == ComponentFor(index, start, end, unit);
        DrawStep(old(components), components, start, end, unit, index - start);
        components := components + [Component(index, text, angle)];
        index := index + 1;
      }
    }
  }

  /** One more round of `drawTime`'s loop adds the layout's next tick. */
  lemma DrawStep(before: seq<Component>, current: seq<Component>, start: int, end: int, unit: string, k: int)
    requires start <= end && 0 <= k < Count(start, end)
    requires current == before + Layout(start, end, unit)[..k]
    ensures current + [ComponentFor(start + k, start, end, unit)] == before + Layout(start, end, unit)[..k + 1]
  {
    LayoutPrefix(start, end, unit, k);
    var done := Layout(start, end, unit)[..k];
    assert (before + done) + [ComponentFor(start + k, start, end, unit)]
        == before + (done + [ComponentFor(start + k, start, end, unit)]);
  }

  /** The layout grows one tick at a time, in index order. */
  lemma LayoutPrefix(start: int, end: int, unit: string, k: int)
    requires start <= end && 0 <= k < Count(start, end)
    ensures Layout(start, end, unit)[..k + 1]
         == Layout(start, end, unit)[..k] + [ComponentFor(start + k, start, end, unit)]
  {
    var cs := Layout(start, end, unit);
    PrefixStep(cs, k);
  }

  lemma PrefixStep<T>(s: seq<T>, k: int)
    requires 0 <= k < |s|
    ensures s[..k + 1] == s[..k] + [s[k]]
  {
  }

  // ---- properties of the layout ----

  /** A ring over start..end has end-start+1 ticks, tick k has index start+k,
      so the indices increase strictly, and every index in start..end has a tick
      and no other index has one. */
  lemma LayoutShape(start: int, end: int, unit: string)
    requires start <= end
    ensures |Layout(start, end, unit)| == end - start + 1
    ensures forall k :: 0 <= k < |Layout(start, end, unit)| ==>
      Layout(start, end, unit)[k].index == start + k &&
      Layout(start, end, unit)[k].text == Label(start + k, unit)
    ensures forall k, l :: 0 <= k < l < |Layout(start, end, unit)| ==>
      Layout(start, end, unit)[k].index < Layout(start, end, unit)[l].index
    ensures forall i :: i in Indices(Layout(start, end, unit)) <==> start <= i <= end
  {
    var cs := Layout(start, end, unit);
    forall i
      ensures i in Indices(cs) <==> start <= i <= end
    {
      if start <= i <= end {
        assert cs[i - start] in cs && cs[i - start].index == i;
      }
    }
  }

  /** The ticks of a ring point in pairwise distinct directions: no two
      placements differ by a whole number of turns. */
  lemma PlacementsDistinct(start: int, end: int, i: int, j: int)
    requires start <= i <= end && start <= j <= end
    ensures Congruent(Placement(i, Count(start, end)), Placement(j, Count(start, end))) <==> i == j
  {
    var n := Count(start, end);
    CongruentSameDen(-i, -j, n);
    SmallMultiple(j - i, n);
  }

  /** The labels of a ring's ticks are pairwise distinct. */
  lemma LabelsDistinct(i: int, j: int, unit: string)
    requires Format.IntMin <= i <= Format.IntMax && Format.IntMin <= j <= Format.IntMax
    ensures Label(i, unit) == Label(j, unit) <==> i == j
  {
    if Label(i, unit) == Label(j, unit) {
      var a, b := Format.FormatIndex(i), Format.FormatIndex(j);
      assert |a| == |b|;
      assert a == (a + unit)[..|a|] && b == (b + unit)[..|b|];
      Format.FormatIndexInjective(i, j);
    }
  }

  /** Tick i is at the reference direction exactly when it is one of the
      ring's indices and its placement plus the ring's rotation is a whole turn. */
  lemma AtReferenceMember(start: int, end: int, unit: string, rotation: Angle, i: int)
    requires start <= end
    ensures i in AtReference(Layout(start, end, unit), rotation) <==>
      start <= i <= end && Whole(Plus(rotation, Placement(i, Count(start, end))))
  {
    var cs := Layout(start, end, unit);
    var n := Count(start, end);
    if i in AtReference(cs, rotation) {
      var k :| 0 <= k < |cs| && cs[k].index == i && Whole(Plus(rotation, cs[k].angle));
      assert cs[k] == ComponentFor(start + k, start, end, unit);
    }
    if start <= i <= end && Whole(Plus(rotation, Placement(i, n))) {
      assert cs[i - start] == ComponentFor(i, start, end, unit);
    }
  }

  /** Turning a ring of n ticks by r/n of a turn brings exactly one tick to the
      reference direction: the index in start..end that is congruent to r
      modulo n. */
  lemma RingAtReference(start: int, end: int, unit: string, r: int)
    requires start <= end
    ensures AtReference(Layout(start, end, unit), Turn(r, Count(start, end)))
         == {start + (r - start) % Count(start, end)}
  {
    var n := Count(start, end);
    var shown := start + (r - start) % n;
    var s := AtReference(Layout(start, end, unit), Turn(r, n));
    forall i
      ensures i in s <==> i == shown
    {
      ShownIff(start, end, unit, r, i);
    }
    assert s == {shown};
  }

  lemma ShownIff(start: int, end: int, unit: string, r: int, i: int)
    requires start <= end
    ensures i in AtReference(Layout(start, end, unit), Turn(r, Count(start, end)))
        <==> i == start + (r - start) % Count(start, end)
  {
    var n := Count(start, end);
    AtReferenceSameDen(start, end, unit, r, i);
    ResidueTick(start, r, i, n);
    ResidueInRange(r - start, n);
  }

  /** Over the ring's own denominator, being at the reference is a congruence. */
  lemma AtReferenceSameDen(start: int, end: int, unit: string, r: int, i: int)
    requires start <= end
    ensures i in AtReference(Layout(start, end, unit), Turn(r, Count(start, end)))
        <==> start <= i <= end && (r + -i) % Count(start, end) == 0
  {
    var n := Count(start, end);
    AtReferenceMember(start, end, unit, Turn(r, n), i);
    assert Placement(i, n) == Turn(-i, n);
    WholeSameDen(r, -i, n);
  }

  /** Among start..start+n-1, the one index congruent to r modulo n. */
  lemma ResidueTick(start: int, r: int, i: int, n: int)
    requires n > 0
    ensures start <= i < start + n ==> ((r + -i) % n == 0 <==> i == start + (r - start) % n)
  {
    var x, t := r - start, i - start;
    assert x - t == r + -i;
    if 0 <= t < n {
      SameResidue(x, t, n);
    }
  }

  lemma ResidueInRange(x: int, n: int)
    requires n > 0
    ensures 0 <= x % n < n
  {
  }

  /** A ring turned by v/n, for a tick index v of its own, shows tick v. */
  lemma OwnValueAtReference(start: int, end: int, unit: string, v: int)
    requires start <= v <= end
    ensures AtReference(Layout(start, end, unit), Turn(v, Count(start, end))) == {v}
  {
    RingAtReference(start, end, unit, v);
    SmallResidue(v - start, Count(start, end));
  }

  /** Turning tick v by v/n cancels its placement exactly: the sum is 0, not
      merely a whole turn. */
  lemma PlacementCancels(v: int, n: int)
    requires n > 0
    ensures Value(Plus(Turn(v, n), Placement(v, n))) == 0.0
  {
    var sum := Plus(Turn(v, n), Placement(v, n));
    assert sum.num == v * n + -v * n == 0;
  }

  lemma SmallResidue(x: int, n: int)
    requires 0 <= x < n
    ensures x % n == x
  {
  }

  /** x - t is a multiple of n exactly when t is x's residue, for t in 0..n-1. */
  lemma SameResidue(x: int, t: int, n: int)
    requires n > 0 && 0 <= t < n
    ensures (x - t) % n == 0 <==> t == x % n
  {
    var q := x / n;
    assert x == q * n + x % n;
    assert x - t == q * n + (x % n - t);
    SmallMultiple(x % n - t, n);
    ShiftByMultiple(x % n - t, q, n);
  }

  /** Adding a multiple of n does not change divisibility by n. */
  lemma ShiftByMultiple(y: int, q: int, n: int)
    requires n > 0
    ensures (q * n + y) % n == 0 <==> y % n == 0
  {
    var d := (q * n + y) / n;
    assert q * n + y == d * n + (q * n + y) % n;
    var e := y / n;
    assert y == e * n + y % n;
    assert (q * n + y) % n - y % n == (e + q - d) * n;
    MulBounds(e + q - d, n);
  }
}
