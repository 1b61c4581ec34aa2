/** Disk geometry: cylinder/head/sector coordinates, seek and rotation arithmetic of the disk server. */
module Geometry {

  datatype Chs = Chs(cylinder: nat, head: nat, sector: nat)

  datatype Drive = Drive(cylinders: nat, heads: nat, sectors: nat, trackJump: nat, sectorJump: nat) {
    predicate Valid() {
      1 <= cylinders && 1 <= heads && 1 <= sectors && 1 <= trackJump && 1 <= sectorJump
    }

    /** The drive has a single head, the only layout `ToSectorNum` is right for. */
    predicate OneHead() {
      Valid() && heads == 1
    }

    predicate Holds(p: Chs) {
      p.cylinder < cylinders && p.head < heads && p.sector < sectors
    }

    function ToChs(n: nat): Chs
      requires Valid()
    {
      var perCylinder := sectors * heads;
      PositiveProduct(sectors, heads);
      Chs(n / perCylinder, n % perCylinder / sectors, n % perCylinder % sectors)
    }

    /** Adds head and cylinder before scaling, as the code does. */
    function ToSectorNum(p: Chs): nat {
      sectors * (p.cylinder + p.head) + p.sector
    }

    /** Sector under the head once the arm has travelled to `cylinder`. */
    function ReachedSector(cylinder: nat, at: Chs): nat
      requires Valid()
    {
      var tracks := Distance(cylinder, at.cylinder);
      if tracks == 0 then at.sector
      else (tracks * ((trackJump - 1) / sectorJump + 1) % sectors + at.sector) % sectors
    }

    function RotationTo(target: Chs, at: Chs): int
      requires Valid()
    {
      SectorDist(sectors, ReachedSector(target.cylinder, at), target.sector)
    }

    /** Head position after serving sector `n`: one further on, never leaving the track. */
    function NextHeadPosition(n: nat): nat
      requires Valid()
    {
      if (n + 1) % sectors == 0 then n + 1 - sectors else n + 1
    }
  }

  function Distance(a: nat, b: nat): nat {
    if a < b then b - a else a - b
  }

  /** Sectors that pass under the head between `from` and `to` on a track of `s` sectors. */
  function SectorDist(s: nat, from: nat, to: nat): int {
    if to < from then s - (from - to) else to - from
  }

  lemma ProductMonotone(s: nat, a: int, b: int)
    ensures a <= b ==> s * a <= s * b
  {
  }

  lemma PositiveProduct(a: nat, b: nat)
    requires 1 <= a && 1 <= b
    ensures 1 <= a * b
  {
  }

  /** Quotient and remainder by `s` are determined by any decomposition with remainder below `s`. */
  lemma DivModUnique(s: nat, q: nat, r: nat)
    requires r < s
    ensures (s * q + r) / s == q && (s * q + r) % s == r
  {
    var n := s * q + r;
    assert n == s * (n / s) + n % s;
    ProductMonotone(s, n / s + 1, q);
    ProductMonotone(s, q + 1, n / s);
  }

  lemma NumberingLoses(d: Drive, n: nat)
    requires d.Valid()
    ensures n - d.ToSectorNum(d.ToChs(n)) == d.sectors * d.ToChs(n).cylinder * (d.heads - 1)
  {
    var s, h := d.sectors, d.heads;
    PositiveProduct(s, h);
    var p := d.ToChs(n);
    assert n == s * h * p.cylinder + n % (s * h);
    assert n % (s * h) == s * p.head + p.sector;
    assert s * h * p.cylinder - s * p.cylinder == s * p.cylinder * (h - 1);
  }

  lemma ProductIsZero(s: nat, c: nat, h: nat)
    requires 0 < s && 0 < h
    ensures s * c * (h - 1) == 0 <==> c == 0 || h == 1
  {
    if c != 0 && h != 1 {
      PositiveProduct(s, c);
      PositiveProduct(s * c, h - 1);
    }
  }

  lemma QuotientIsZero(n: nat, p: nat)
    requires 0 < p
    ensures n / p == 0 <==> n < p
  {
  }

  /** Numbering inverts the conversion for exactly the sectors of cylinder 0, and for all of them on one head. */
  lemma NumberingInvertsConversion(d: Drive, n: nat)
    requires d.Valid()
    ensures d.ToSectorNum(d.ToChs(n)) == n <==> d.heads == 1 || n < d.sectors * d.heads
  {
    NumberingLoses(d, n);
    PositiveProduct(d.sectors, d.heads);
    QuotientIsZero(n, d.sectors * d.heads);
    ProductIsZero(d.sectors, d.ToChs(n).cylinder, d.heads);
  }

  /** On one head the conversion inverts the numbering as well. */
  lemma ConversionInvertsNumbering(d: Drive, p: Chs)
    requires d.OneHead() && d.Holds(p)
    ensures d.ToChs(d.ToSectorNum(p)) == p
  {
    DivModUnique(d.sectors, p.cylinder, p.sector);
    assert d.sectors * d.heads == d.sectors;
  }

  lemma ToChsInRange(d: Drive, n: nat)
    requires d.OneHead() && n < d.cylinders * d.sectors
    ensures d.Holds(d.ToChs(n))
  {
    assert d.sectors * d.heads == d.sectors;
    assert n == d.sectors * (n / d.sectors) + n % d.sectors;
    ProductMonotone(d.sectors, d.cylinders, n / d.sectors);
  }

  /**
   * While the arm crosses a track, `turn` sectors pass: the least number whose time is no shorter than the track's. Where
   * it arrives, that many sectors for every track have passed the head.
   */
  lemma ReachedSectorIs(d: Drive, cylinder: nat, at: Chs, turn: nat)
    requires d.Valid() && at.sector < d.sectors
    requires d.trackJump <= turn * d.sectorJump && (turn - 1) * d.sectorJump < d.trackJump
    ensures d.ReachedSector(cylinder, at) == (at.sector + Distance(at.cylinder, cylinder) * turn) % d.sectors
  {
    var s, tracks := d.sectors, Distance(cylinder, at.cylinder);
    CeilingIs(d.trackJump, d.sectorJump, turn);
    assert turn == (d.trackJump - 1) / d.sectorJump + 1;
    if tracks == 0 {
      DivModUnique(s, 0, at.sector);
    } else {
      SumModulo(tracks * turn, at.sector, s);
    }
  }

  lemma CeilingIs(a: nat, b: nat, m: nat)
    requires 0 < a && 0 < b && a <= m * b && (m - 1) * b < a
    ensures m == (a - 1) / b + 1
  {
    var q, r := (a - 1) / b, (a - 1) % b;
    assert a - 1 == b * q + r;
    if m < q + 1 {
      ProductMonotone(b, m, q);
    } else if q + 1 < m {
      ProductMonotone(b, q + 1, m - 1);
    }
  }

  lemma SumModulo(a: nat, b: nat, s: nat)
    requires 0 < s
    ensures (a % s + b) % s == (b + a) % s
  {
    var q, m := a / s, (a % s + b) / s;
    var r := (a % s + b) % s;
    assert a + b == s * q + (s * m + r);
    assert s * q + s * m == s * (q + m);
    DivModUnique(s, q + m, r);
  }

  lemma ReachedSectorInRange(d: Drive, cylinder: nat, at: Chs)
    requires d.Valid() && at.sector < d.sectors
    ensures d.ReachedSector(cylinder, at) < d.sectors
  {
  }

  lemma WrapOnce(k: nat, s: nat)
    requires k < s
    ensures k % s == k && (k + s) % s == k && (k - s) % s == k
  {
    DivModUnique(s, 0, k);
    DivModUnique(s, 1, k);
    var q := (k - s) / s;
    assert k - s == s * q + (k - s) % s;
    ProductMonotone(s, q, -2);
    ProductMonotone(s, 0, q);
  }

  lemma SectorDistIsModular(s: nat, from: nat, to: nat)
    requires from < s && to < s
    ensures SectorDist(s, from, to) == (to - from) % s
    ensures 0 <= SectorDist(s, from, to) < s
    ensures (from + SectorDist(s, from, to)) % s == to
    ensures (s - SectorDist(s, from, to) + to) % s == from
  {
    WrapOnce(SectorDist(s, from, to), s);
    WrapOnce(to, s);
    WrapOnce(from, s);
  }

  lemma SectorDistIsLeast(s: nat, from: nat, to: nat, wait: nat)
    requires from < s && to < s && (from + wait) % s == to
    ensures SectorDist(s, from, to) <= wait
  {
    var n := from + wait;
    if n < s {
      WrapOnce(n, s);
    } else if n < 2 * s {
      WrapOnce(n - s, s);
    }
  }

  /** The rotational distance is the requested sector minus the reached one modulo the track length. */
  lemma RotationIsModular(d: Drive, target: Chs, at: Chs)
    requires d.Valid() && at.sector < d.sectors && target.sector < d.sectors
    ensures d.RotationTo(target, at) == (target.sector - d.ReachedSector(target.cylinder, at)) % d.sectors
    ensures 0 <= d.RotationTo(target, at) < d.sectors
  {
    ReachedSectorInRange(d, target.cylinder, at);
    SectorDistIsModular(d.sectors, d.ReachedSector(target.cylinder, at), target.sector);
  }

  /** Waiting the rotational distance brings the requested sector under the head, and no shorter wait does. */
  lemma RotationIsLeast(d: Drive, target: Chs, at: Chs, wait: nat)
    requires d.Valid() && at.sector < d.sectors && target.sector < d.sectors
    requires (d.ReachedSector(target.cylinder, at) + wait) % d.sectors == target.sector
    ensures (d.ReachedSector(target.cylinder, at) + d.RotationTo(target, at)) % d.sectors == target.sector
    ensures d.RotationTo(target, at) <= wait
  {
    ReachedSectorInRange(d, target.cylinder, at);
    SectorDistIsModular(d.sectors, d.ReachedSector(target.cylinder, at), target.sector);
    SectorDistIsLeast(d.sectors, d.ReachedSector(target.cylinder, at), target.sector, wait);
  }

  /** A wait of less than a turn that brings the sector under the head is the rotational distance. */
  lemma RotationIsWait(d: Drive, target: Chs, at: Chs, wait: nat)
    requires d.Valid() && at.sector < d.sectors && target.sector < d.sectors && wait < d.sectors
    requires (d.ReachedSector(target.cylinder, at) + wait) % d.sectors == target.sector
    ensures d.RotationTo(target, at) == wait
  {
    ReachedSectorInRange(d, target.cylinder, at);
    var s, n := d.sectors, d.ReachedSector(target.cylinder, at) + wait;
    if n < s {
      WrapOnce(n, s);
    } else {
      WrapOnce(n - s, s);
    }
  }

  lemma PositionInTrack(d: Drive, n: nat)
    requires d.Valid()
    ensures d.ToChs(n).sector < d.sectors
  {
  }

  /** The trace printer rebuilds the reached sector from the distance, and its last sector is the requested one. */
  lemma TraceStartsWhereTheArmArrived(d: Drive, target: Chs, at: Chs)
    requires d.Valid() && at.sector < d.sectors && target.sector < d.sectors
    ensures var distance := d.RotationTo(target, at);
            var start := (d.sectors - distance + target.sector) % d.sectors;
            && start == d.ReachedSector(target.cylinder, at)
            && (start + distance) % d.sectors == target.sector
  {
    ReachedSectorInRange(d, target.cylinder, at);
    SectorDistIsModular(d.sectors, d.ReachedSector(target.cylinder, at), target.sector);
  }

  /** Serving a request leaves the arm on its track, one sector further round. */
  lemma HeadStaysOnTrack(d: Drive, p: Chs)
    requires d.OneHead() && d.Holds(p)
    ensures d.ToChs(d.NextHeadPosition(d.ToSectorNum(p))) == Chs(p.cylinder, 0, (p.sector + 1) % d.sectors)
  {
    var s, n := d.sectors, d.ToSectorNum(p);
    assert n == s * p.cylinder + p.sector;
    if p.sector + 1 == s {
      assert n + 1 == s * (p.cylinder + 1) + 0;
      DivModUnique(s, p.cylinder + 1, 0);
      assert (s * (p.cylinder + 1) + 0) % s == 0;
      assert d.NextHeadPosition(n) == n + 1 - s == d.ToSectorNum(Chs(p.cylinder, 0, 0));
      ConversionInvertsNumbering(d, Chs(p.cylinder, 0, 0));
      DivModUnique(s, 1, 0);
    } else {
      DivModUnique(s, p.cylinder, p.sector + 1);
      assert n + 1 == s * p.cylinder + (p.sector + 1);
      assert d.NextHeadPosition(n) == d.ToSectorNum(Chs(p.cylinder, 0, p.sector + 1));
      ConversionInvertsNumbering(d, Chs(p.cylinder, 0, p.sector + 1));
      DivModUnique(s, 0, p.sector + 1);
    }
  }
}
