/**
 * The host side of the VideoCore IV program: the `timespec` subtraction that
 * times the run, the bitmap geometry it computes, and the loop that fills the
 * four shared offset arrays handed to the neighbourhood kernel once per row
 * offset `l` of the square [-R, R]².
 *
 * The kernel itself, its compilation and the shared-memory allocation belong
 * to a GPU library and are not part of this model: each kernel call is
 * recorded as the sequence of (hl[n], hm[n]) pairs it receives.
 */
module Qpu {
  import opened Geometry

  const NanosPerSecond := 1000000000

  /** Image dimension divided by this gives the MRF radius. */
  const Partition := 120

  /** A `struct timespec`: whole seconds and nanoseconds. */
  datatype Timespec = Timespec(sec: int, nsec: int)
  {
    /** The nanoseconds field lies in [0, 10⁹), as `clock_gettime` leaves it. */
    predicate Normalised() {
      0 <= nsec < NanosPerSecond
    }

    /** The instant as a single count of nanoseconds. */
    function Nanos(): int {
      sec * NanosPerSecond + nsec
    }
  }

  /** `diff(start, end)`: borrows a second when the nanoseconds would go negative. */
  function Diff(start: Timespec, end: Timespec): (r: Timespec)
    ensures r.Nanos() == end.Nanos() - start.Nanos()
    ensures start.Normalised() && end.Normalised() ==> r.Normalised()
  {
    if end.nsec - start.nsec < 0 then
      Timespec(end.sec - start.sec - 1, NanosPerSecond + end.nsec - start.nsec)
    else
      Timespec(end.sec - start.sec, end.nsec - start.nsec)
  }

  /** The normalised timespec holding `n` nanoseconds. */
  function FromNanos(n: int): (t: Timespec)
    ensures t.Normalised() && t.Nanos() == n
  {
    Timespec(n / NanosPerSecond, n % NanosPerSecond)
  }

  /** Two normalised timespecs with the same nanosecond count are equal. */
  lemma NormalisedUnique(a: Timespec, b: Timespec)
    requires a.Normalised() && b.Normalised() && a.Nanos() == b.Nanos()
    ensures a == b
  {
    DivUnique(a.Nanos(), NanosPerSecond, a.sec, a.nsec);
    DivUnique(b.Nanos(), NanosPerSecond, b.sec, b.nsec);
  }

  /** On clock readings, `diff` is the normalised form of the elapsed nanoseconds. */
  lemma DiffIsElapsed(start: Timespec, end: Timespec)
    requires start.Normalised() && end.Normalised()
    ensures Diff(start, end) == FromNanos(end.Nanos() - start.Nanos())
  {
    NormalisedUnique(Diff(start, end), FromNanos(end.Nanos() - start.Nanos()));
  }

  /** On clock readings, `diff` borrows exactly when the end's nanoseconds are
      smaller: the seconds then fall one short of the componentwise difference. */
  lemma DiffBorrows(start: Timespec, end: Timespec)
    requires start.Normalised() && end.Normalised()
    ensures Diff(start, end).sec == end.sec - start.sec - (if end.nsec < start.nsec then 1 else 0)
    ensures end.nsec >= start.nsec ==> Diff(start, end).nsec == end.nsec - start.nsec
  {
    var r := FromNanos(end.Nanos() - start.Nanos());
    DiffIsElapsed(start, end);
    if end.nsec < start.nsec {
      DivUnique(end.Nanos() - start.Nanos(), NanosPerSecond, end.sec - start.sec - 1,
                NanosPerSecond + end.nsec - start.nsec);
    } else {
      DivUnique(end.Nanos() - start.Nanos(), NanosPerSecond, end.sec - start.sec, end.nsec - start.nsec);
    }
  }

  /** `code_duration = 1000000000 * result.tv_sec + result.tv_nsec` with
      `result = diff(time1, time2)`: the elapsed time in nanoseconds. */
  function CodeDuration(time1: Timespec, time2: Timespec): (ns: int)
    ensures ns == time2.Nanos() - time1.Nanos()
    ensures time1.Nanos() <= time2.Nanos() ==> ns >= 0
  {
    var r := Diff(time1, time2);
    NanosPerSecond * r.sec + r.nsec
  }

  /** The values the host derives from the info header. */
  datatype HostGeometry = HostGeometry(lay: Layout, radius: nat, r2: nat, d: nat)

  /** `byte_depth`, `byte_padd`, `byte_width`, `byte_offset`, `R2` and `D`. */
  function Host(width: nat, height: nat, bitPerPix: nat): (g: HostGeometry)
    ensures g.lay == PaddedLayout(width, height, bitPerPix)
    ensures g.r2 == g.radius * g.radius && g.d == 2 * g.radius + 1
    ensures g.lay.rowBytes % 4 == 0 && width * g.lay.depth <= g.lay.rowBytes < width * g.lay.depth + 4
    ensures g.radius * Partition <= Min(width, height) < (g.radius + 1) * Partition
    ensures forall l, m :: InDisc(l, m, g.r2) ==> -(g.radius as int) <= l <= g.radius && -(g.radius as int) <= m <= g.radius
    ensures forall l :: |Batch(g.radius, l)| == g.d
  {
    var R := Radius(width, height, Partition);
    DiscInSquare(R);
    HostGeometry(PaddedLayout(width, height, bitPerPix), R, R * R, 2 * R + 1)
  }

  /** The kernel's test `dl*dl + dm*dm <= dord`: offset (l, m) is a neighbour. */
  predicate InDisc(l: int, m: int, r2: int) {
    l * l + m * m <= r2
  }

  /** The disc of radius R lies inside the square [-R, R]² the host loop sweeps. */
  lemma DiscInSquare(R: nat)
    ensures forall l, m :: InDisc(l, m, R * R) ==> -(R as int) <= l <= R && -(R as int) <= m <= R
  {
    forall l, m | InDisc(l, m, R * R) ensures -(R as int) <= l <= R && -(R as int) <= m <= R {
      SquareBound(l, m, R);
      SquareBound(m, l, R);
    }
  }

  /** One coordinate of a point inside the disc of radius R lies in [-R, R]. */
  lemma SquareBound(l: int, m: int, R: nat)
    requires l * l + m * m <= R * R
    ensures -(R as int) <= l <= R
  {
    if l > R || l < -(R as int) {
      OutsideSquare(l, m, R);
      assert false;
    }
  }

  /** A coordinate beyond R puts the point outside the disc of radius R. */
  lemma OutsideSquare(l: int, m: int, R: nat)
    requires l > R || l < -(R as int)
    ensures l * l + m * m > R * R
  {
    var a := if l > 0 then l else -l;
    assert a * a - R * R == (a - R) * (a + R);
    MulSign(a - R, a + R);
    assert l * l == a * a;
    assert m * m >= 0 by {
      if m < 0 {
        assert m * m == (-m) * (-m);
      }
    }
  }

  /** The pairs one kernel call receives for row offset `l`: (l, n - R) in lane n. */
  function Batch(R: nat, l: int): (b: seq<(int, int)>)
    ensures |b| == 2 * R + 1
    ensures forall n :: 0 <= n < |b| ==> b[n] == (l, n - R)
  {
    seq(2 * R + 1, n => (l, n - R))
  }

  /** A batch pairs `l` with every column offset in [-R, R], each exactly once. */
  lemma BatchCovers(R: nat, l: int, p: (int, int))
    ensures p in Batch(R, l) <==> p.0 == l && -(R as int) <= p.1 <= R
    ensures NoRepeats(Batch(R, l))
  {
    if p.0 == l && -(R as int) <= p.1 <= R {
      assert Batch(R, l)[p.1 + R] == p;
    }
  }

  /** The batches handed to the kernel by the first `k` rounds of the outer loop, in order. */
  function Dispatched(R: nat, k: nat): (s: seq<(int, int)>)
    ensures |s| == k * (2 * R + 1)
  {
    if k == 0 then [] else Dispatched(R, k - 1) + Batch(R, k - 1 - R)
  }

  /** Entry t of the dispatched pairs is the offset (t / D - R, t % D - R). */
  lemma {:induction false} DispatchedAt(R: nat, k: nat, t: int)
    requires 0 <= t < k * (2 * R + 1)
    ensures Dispatched(R, k)[t] == (t / (2 * R + 1) - R, t % (2 * R + 1) - R)
  {
    var D := 2 * R + 1;
    var prev := (k - 1) * D;
    if t < prev {
      DispatchedAt(R, k - 1, t);
    } else {
      assert Dispatched(R, k)[t] == Batch(R, k - 1 - R)[t - prev];
      DivUnique(t, D, k - 1, t - prev);
    }
  }

  /** No pair occurs twice in `s`. */
  predicate NoRepeats(s: seq<(int, int)>) {
    forall a, b :: 0 <= a < b < |s| ==> s[a] != s[b]
  }

  /** Offset (l, m) lies in the square [-R, R]² the host loop sweeps. */
  predicate InSquare(R: nat, p: (int, int)) {
    -(R as int) <= p.0 <= R && -(R as int) <= p.1 <= R
  }

  /** Offset p of the square is entry (p.0 + R) * D + (p.1 + R) of the dispatched pairs. */
  lemma OffsetSent(R: nat, p: (int, int))
    requires InSquare(R, p)
    ensures p in Dispatched(R, 2 * R + 1)
  {
    var D := 2 * R + 1;
    var row, col := p.0 + R, p.1 + R;
    var t := row * D + col;
    MulSign(D - row, D);
    assert t < D * D by {
      assert D * D == (D - row) * D + row * D;
    }
    DispatchedAt(R, D, t);
    DivUnique(t, D, row, col);
  }

  /** Every dispatched pair lies in the square. */
  lemma SentInSquare(R: nat, t: int)
    requires 0 <= t < |Dispatched(R, 2 * R + 1)|
    ensures InSquare(R, Dispatched(R, 2 * R + 1)[t])
  {
    var D := 2 * R + 1;
    DispatchedAt(R, D, t);
    DivBound(t, D, D);
  }

  /** Over the whole loop the kernel receives every offset of the square [-R, R]²,
      and nothing else. */
  lemma AllOffsetsSent(R: nat)
    ensures forall p :: p in Dispatched(R, 2 * R + 1) <==> InSquare(R, p)
  {
    var s := Dispatched(R, 2 * R + 1);
    forall p: (int, int) | InSquare(R, p) ensures p in s {
      OffsetSent(R, p);
    }
    forall p | p in s ensures InSquare(R, p) {
      var t :| 0 <= t < |s| && s[t] == p;
      SentInSquare(R, t);
    }
  }

  /** Two entries of the dispatched pairs differ. */
  lemma SentOnce(R: nat, a: int, b: int)
    requires 0 <= a < b < |Dispatched(R, 2 * R + 1)|
    ensures Dispatched(R, 2 * R + 1)[a] != Dispatched(R, 2 * R + 1)[b]
  {
    var D := 2 * R + 1;
    DispatchedAt(R, D, a);
    DispatchedAt(R, D, b);
  }

  /** Over the whole loop no offset is sent to the kernel twice. */
  lemma AllOffsetsOnce(R: nat)
    ensures NoRepeats(Dispatched(R, 2 * R + 1))
  {
    var s := Dispatched(R, 2 * R + 1);
    forall a, b | 0 <= a < b < |s| ensures s[a] != s[b] {
      SentOnce(R, a, b);
    }
  }

  /** A quotient of a number below `k * D` by D is below k. */
  lemma DivBound(t: int, D: int, k: int)
    requires D > 0 && 0 <= t < k * D
    ensures 0 <= t / D < k
  {
    MulSign(t / D - k + 1, D);
    MulSign(t / D + 1, D);
  }

  /** The inner loop `for (n = 0; n < D; n++)`: fills lane n of the four shared arrays. */
  method FillBatch(hl: array<int>, hm: array<int>, hord: array<int>, hr: array<int>, R: nat, R2: int, l: int)
    requires hl.Length == hm.Length == hord.Length == hr.Length == 2 * R + 1
    requires hl != hm && hl != hord && hl != hr && hm != hord && hm != hr && hord != hr
    modifies hl, hm, hord, hr
    ensures forall n :: 0 <= n < 2 * R + 1 ==> (hl[n], hm[n]) == Batch(R, l)[n]
    ensures forall n :: 0 <= n < 2 * R + 1 ==> hord[n] == R2 && hr[n] == 0
  {
    var D := 2 * R + 1;
    var n := 0;
    while n < D
      invariant 0 <= n <= D
      invariant forall t :: 0 <= t < n ==> hl[t] == l && hm[t] == t - R && hord[t] == R2 && hr[t] == 0
    {
      hl[n] := l;
      hm[n] := n - R;
      hord[n] := R2;
      hr[n] := 0;
      n := n + 1;
    }
  }

  /** The outer loop `for (l = -R; l <= R; l++)`: fills the shared arrays and
      calls the kernel once per row offset. Returns, in order, the pairs every
      kernel call received. */
  method OffsetLoop(R: nat, R2: int) returns (sent: seq<(int, int)>)
    ensures sent == Dispatched(R, 2 * R + 1)
  {
    var D := 2 * R + 1;
    var hl := new int[D];
    var hm := new int[D];
    var hord := new int[D];
    var hr := new int[D];
    sent := [];
    var l := -(R as int);
    while l <= R
      invariant -(R as int) <= l <= R + 1
      invariant sent == Dispatched(R, l + R)
    {
      FillBatch(hl, hm, hord, hr, R, R2, l);
      var call := seq(D, n requires 0 <= n < D reads hl, hm => (hl[n], hm[n]));
      assert call == Batch(R, l);
      sent := sent + call;
      l := l + 1;
    }
  }
}
