/** Splitting all nonces up to a number of digits into jobs: chunk sizes, and that the jobs tile the nonces. */
module WidthSearch {
  import opened Words
  import opened Decimal

  // ----- jobs

  datatype Job = Job(width: nat, base: nat, end: nat)

  datatype Sizing = Sizing(threads: nat, jobsMult: nat, minChunk: nat, cap: nat)
  {
    predicate Ok() {
      threads > 0 && jobsMult > 0 && 0 < cap
    }
  }

  function DivCeil(a: nat, b: nat): (q: nat)
    requires b > 0
    ensures b * q >= a && (q > 0 ==> b * (q - 1) < a)
  {
    (a + b - 1) / b
  }

  /** The nonces written with exactly `width` digits. */
  function WidthRange(width: nat): (r: (nat, nat))
    requires width > 0
    ensures r.0 < r.1
  {
    var base := if width == 1 then 0 else Pow10(width - 1);
    (base, Pow10(width))
  }

  /** Chunk size and number of jobs for one width. */
  function ChunkAndJobs(base: nat, limit: nat, z: Sizing): (r: (nat, nat))
    requires base < limit && z.Ok()
    ensures r.0 > 0 && r.1 > 0 && r.0 <= z.cap
    ensures r.0 * (r.1 - 1) < limit - base <= r.0 * r.1
  {
    var range := limit - base;
    assert z.threads * z.jobsMult > 0;
    var wanted := DivCeil(range, z.threads * z.jobsMult);
    var atLeast := if wanted < z.minChunk then z.minChunk else wanted;
    assert wanted > 0;
    var rounded := (atLeast + 7) / 8 * 8;
    var chunk := if rounded > z.cap then z.cap else rounded;
    var n := DivCeil(range, chunk);
    (chunk, if n > 1 then n else 1)
  }

  /** The chunk is the least multiple of eight that is no smaller than asked and makes no more jobs than asked for, or
      the cap if that is less. */
  lemma ChunkIsLeast(base: nat, limit: nat, z: Sizing, c: nat)
    requires base < limit && z.Ok()
    ensures var chunk, jobs := ChunkAndJobs(base, limit, z).0, z.threads * z.jobsMult;
            && jobs > 0
            && (chunk == z.cap || (chunk % 8 == 0 && chunk >= z.minChunk && jobs * chunk >= limit - base))
            && (c % 8 == 0 && c >= z.minChunk && jobs * c >= limit - base ==> chunk <= c)
  {
    var jobs, range := z.threads * z.jobsMult, limit - base;
    assert jobs > 0;
    var wanted := DivCeil(range, jobs);
    var atLeast := if wanted < z.minChunk then z.minChunk else wanted;
    hide DivCeil;
    RoundUp(atLeast, c);
    EnoughJobs(range, jobs, c);
    EnoughJobs(range, jobs, (atLeast + 7) / 8 * 8);
  }

  lemma RoundUp(n: nat, c: nat)
    ensures var r := (n + 7) / 8 * 8;
            r % 8 == 0 && n <= r && (c % 8 == 0 && c >= n ==> r <= c)
  {
  }

  lemma EnoughJobs(range: nat, jobs: nat, c: nat)
    requires jobs > 0
    ensures jobs * c >= range <==> c >= DivCeil(range, jobs)
  {
    var q := DivCeil(range, jobs);
    hide DivCeil;
    if c >= q {
      MulLe(jobs, q, c);
    } else {
      MulLe(jobs, c, q - 1);
    }
  }

  function JobAt(width: nat, base: nat, limit: nat, chunk: nat, j: nat): Job {
    var b := base + j * chunk;
    Job(width, b, if b + chunk < limit then b + chunk else limit)
  }

  function JobsOf(width: nat, base: nat, limit: nat, chunk: nat, n: nat): (s: seq<Job>)
    ensures |s| == n
  {
    seq(n, j requires 0 <= j < n => JobAt(width, base, limit, chunk, j))
  }

  function AllJobs(maxWidth: nat, z: Sizing): (s: seq<Job>)
    requires z.Ok()
  {
    if maxWidth == 0 then []
    else
      var (base, limit) := WidthRange(maxWidth);
      var (chunk, n) := ChunkAndJobs(base, limit, z);
      AllJobs(maxWidth - 1, z) + JobsOf(maxWidth, base, limit, chunk, n)
  }

  /** Nonempty intervals that follow each other without gap from `from` to `to`. */
  ghost predicate Tiles(s: seq<Job>, from: nat, to: nat) {
    if s == [] then from == to
    else s[0].base == from && from < s[0].end && Tiles(s[1..], s[0].end, to)
  }

  lemma {:induction false} TilesConcat(s: seq<Job>, t: seq<Job>, a: nat, b: nat, c: nat)
    requires Tiles(s, a, b) && Tiles(t, b, c)
    ensures Tiles(s + t, a, c)
  {
    if s == [] {
      assert s + t == t;
    } else {
      assert (s + t)[1..] == s[1..] + t;
      TilesConcat(s[1..], t, s[0].end, b, c);
    }
  }

  lemma {:induction false} JobsOfTile(width: nat, base: nat, limit: nat, chunk: nat, n: nat, j: nat)
    requires j <= n && 0 < chunk && 0 < n && base < limit && chunk * (n - 1) < limit - base <= chunk * n
    ensures Tiles(JobsOf(width, base, limit, chunk, n)[j..], if j == n then limit else base + j * chunk, limit)
    decreases n - j
  {
    var s := JobsOf(width, base, limit, chunk, n);
    if j < n {
      JobsOfTile(width, base, limit, chunk, n, j + 1);
      assert s[j..][1..] == s[j + 1..];
      Steps(chunk, j, n, limit - base);
    }
  }

  lemma Steps(chunk: nat, j: nat, n: nat, range: nat)
    requires j < n && chunk * (n - 1) < range <= chunk * n && chunk > 0
    ensures j * chunk < range
    ensures j + 1 < n ==> (j + 1) * chunk == j * chunk + chunk < range
    ensures j + 1 == n ==> j * chunk + chunk >= range
  {
    MulLe(chunk, j, n - 1);
    assert (j + 1) * chunk == j * chunk + chunk;
    if j + 1 < n {
      MulLe(chunk, j + 1, n - 1);
    }
  }

  lemma MulLe(c: nat, a: nat, b: nat)
    requires a <= b
    ensures a * c <= c * b
  {
  }

  /** The jobs of all widths tile the nonces below 10^maxWidth, in order. */
  lemma {:induction false} AllJobsTile(maxWidth: nat, z: Sizing)
    requires z.Ok()
    ensures Tiles(AllJobs(maxWidth, z), 0, if maxWidth == 0 then 0 else Pow10(maxWidth))
  {
    if maxWidth > 0 {
      AllJobsTile(maxWidth - 1, z);
      var (base, limit) := WidthRange(maxWidth);
      var (chunk, n) := ChunkAndJobs(base, limit, z);
      var s := JobsOf(maxWidth, base, limit, chunk, n);
      JobsOfTile(maxWidth, base, limit, chunk, n, 0);
      assert s[0..] == s;
      TilesConcat(AllJobs(maxWidth - 1, z), s, 0, base, limit);
    }
  }

  /** Of tiling jobs, the one that holds a nonce. */
  lemma {:induction false} TileOf(s: seq<Job>, from: nat, to: nat, n: nat) returns (j: nat)
    requires Tiles(s, from, to) && from <= n < to
    ensures j < |s| && s[j].base <= n < s[j].end
  {
    if n < s[0].end {
      j := 0;
    } else {
      j := TileOf(s[1..], s[0].end, to, n);
      j := j + 1;
    }
  }

  lemma {:induction false} TilesStart(s: seq<Job>, from: nat, to: nat, i: nat)
    requires Tiles(s, from, to) && i < |s|
    ensures from <= s[i].base < s[i].end <= to
  {
    if i == 0 {
      TilesReach(s[1..], s[0].end, to);
    } else {
      TilesStart(s[1..], s[0].end, to, i - 1);
    }
  }

  lemma {:induction false} TilesReach(s: seq<Job>, from: nat, to: nat)
    requires Tiles(s, from, to)
    ensures from <= to
  {
    if s != [] {
      TilesReach(s[1..], s[0].end, to);
    }
  }

  /** Later jobs hold larger nonces. */
  lemma {:induction false} TilesOrdered(s: seq<Job>, from: nat, to: nat, i: nat, j: nat)
    requires Tiles(s, from, to) && i < j < |s|
    ensures s[i].end <= s[j].base
  {
    if i == 0 {
      TilesStart(s[1..], s[0].end, to, j - 1);
    } else {
      TilesOrdered(s[1..], s[0].end, to, i - 1, j - 1);
    }
  }

  /** Every job stays within the nonces of its width, so its nonces have exactly that many digits. */
  lemma {:induction false} AllJobsWidth(maxWidth: nat, z: Sizing, i: nat)
    requires z.Ok() && i < |AllJobs(maxWidth, z)|
    ensures var j := AllJobs(maxWidth, z)[i];
      && 0 < j.width <= maxWidth && WidthRange(j.width).0 <= j.base < j.end <= WidthRange(j.width).1
  {
    var (base, limit) := WidthRange(maxWidth);
    var (chunk, n) := ChunkAndJobs(base, limit, z);
    var before := AllJobs(maxWidth - 1, z);
    if i < |before| {
      AllJobsWidth(maxWidth - 1, z, i);
    } else {
      var s := JobsOf(maxWidth, base, limit, chunk, n);
      JobsOfTile(maxWidth, base, limit, chunk, n, 0);
      assert s[0..] == s;
      TilesStart(s, base, limit, i - |before|);
      assert AllJobs(maxWidth, z)[i] == s[i - |before|];
    }
  }

  /** The sizing of the batched puzzles for two threads. */
  const TWO_THREADS := Sizing(2, 16, 8, 0x10_0000)

  lemma {:induction false} FirstJobs(maxWidth: nat)
    requires maxWidth >= 2
    ensures var jobs := AllJobs(maxWidth, TWO_THREADS);
      |jobs| >= 3 && jobs[0] == Job(1, 0, 8) && jobs[1] == Job(1, 8, 10) && jobs[2] == Job(2, 10, 18)
  {
    if maxWidth == 2 {
      assert Pow10(1) == 10 && Pow10(2) == 100;
      assert AllJobs(0, TWO_THREADS) == [];
      assert WidthRange(1) == (0, 10) && ChunkAndJobs(0, 10, TWO_THREADS) == (8, 2);
      assert AllJobs(1, TWO_THREADS) == JobsOf(1, 0, 10, 8, 2);
      assert WidthRange(2) == (10, 100) && ChunkAndJobs(10, 100, TWO_THREADS) == (8, 12);
    } else {
      FirstJobs(maxWidth - 1);
    }
  }

  /** The 64-bit arithmetic of a job's bounds does not wrap. */
  lemma JobBoundsFit(width: nat, z: Sizing, j: nat)
    requires 0 < width <= 19 && z.Ok() && z.cap <= 0x10_0000
    requires j < ChunkAndJobs(WidthRange(width).0, WidthRange(width).1, z).1
    ensures var (base, limit) := WidthRange(width);
      var chunk := ChunkAndJobs(base, limit, z).0;
      base + j * chunk + chunk < TWO64
  {
    var (base, limit) := WidthRange(width);
    var (chunk, n) := ChunkAndJobs(base, limit, z);
    MulLe(chunk, j, n - 1);
    Pow10Monotone(width, 19);
    assert Pow10(5) == 100_000;
    assert Pow10(10) == 10_000_000_000;
    assert Pow10(15) == 1_000_000_000_000_000;
  }

  lemma {:induction false} Pow10Monotone(a: nat, b: nat)
    requires a <= b
    ensures Pow10(a) <= Pow10(b)
  {
    if a < b {
      Pow10Monotone(a, b - 1);
    }
  }
}
