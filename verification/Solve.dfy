/** Puzzles solved from end to end: the search protocol over all jobs, each job scanned by what its workers run. */
module Solve {
  import opened Words
  import opened Decimal
  import Sha
  import opened PowScan
  import opened BatchScan
  import Puzzles
  import Blake2b
  import ArgonFill
  import Argon
  import opened WidthSearch
  import opened SearchProtocol

  type Hash = d: seq<byte> | |d| == 32 witness Zeros(32)

  /** The digest of a nonce written in decimal without leading zeros. */
  type Digester = nat -> Hash

  const MAX_WIDTH := 19
  const ARGON_WIDTH := 12

  /** The nonces of up to `maxWidth` digits whose digest is a hit. */
  ghost function HitsOf(dig: Digester, needBits: nat, maxWidth: nat): iset<nat> {
    iset n: nat | |Digits(n)| <= maxWidth && Hits(needBits, dig(n))
  }

  /** The nonces of a job have as many digits as its width. */
  lemma JobDigits(maxWidth: nat, z: Sizing, i: nat, n: nat)
    requires z.Ok() && i < |AllJobs(maxWidth, z)|
    requires var job := AllJobs(maxWidth, z)[i]; job.base <= n < job.end
    ensures var w := AllJobs(maxWidth, z)[i].width;
            |Digits(n)| == w && 0 < w <= maxWidth && n < Pow10(w) && Fixed(n, w) == Digits(n)
  {
    var job := AllJobs(maxWidth, z)[i];
    AllJobsWidth(maxWidth, z, i);
    FixedIsDigits(n, job.width);
  }

  /** What a worker sends for a job: the least hit of the job, with its digest. */
  ghost function Sent(dig: Digester, n: Option<nat>): Option<(nat, seq<byte>)> {
    if n == None then None else Some((n.value, dig(n.value)))
  }

  // ----- the whole search

  ghost predicate Misses(dig: Digester, needBits: nat, maxWidth: nat, n: nat) {
    |Digits(n)| <= maxWidth && !Hits(needBits, dig(n))
  }

  /** The least nonce of up to `maxWidth` digits whose digest is a hit, or nothing when there is none. */
  ghost predicate IsSolution(dig: Digester, needBits: nat, maxWidth: nat, r: Option<nat>) {
    match r
    case None => forall n: nat | n < Pow10(maxWidth) :: Misses(dig, needBits, maxWidth, n)
    case Some(n) => n in HitsOf(dig, needBits, maxWidth) && forall m: nat | m < n :: Misses(dig, needBits, maxWidth, m)
  }

  lemma ShortDigits(maxWidth: nat, z: Sizing, n: nat)
    requires z.Ok() && 0 < maxWidth && n < Pow10(maxWidth)
    ensures |Digits(n)| <= maxWidth
  {
    hide Digits, AllJobs, Tiles, Pow10;
    AllJobsTile(maxWidth, z);
    var i := TileOf(AllJobs(maxWidth, z), 0, Pow10(maxWidth), n);
    JobDigits(maxWidth, z, i, n);
  }

  lemma AnswerSolves(dig: Digester, needBits: nat, maxWidth: nat, z: Sizing, r: Option<nat>)
    requires z.Ok() && 0 < maxWidth && IsAnswer(HitsOf(dig, needBits, maxWidth), Pow10(maxWidth), r)
    ensures IsSolution(dig, needBits, maxWidth, r)
  {
    hide Hits, Digits, AllJobs, Pow10;
    forall n: nat | n < Pow10(maxWidth) && n !in HitsOf(dig, needBits, maxWidth)
      ensures Misses(dig, needBits, maxWidth, n)
    {
      ShortDigits(maxWidth, z, n);
    }
  }

  /** With one worker, or hits in at most one job before the last, a search of all nonces of up to `maxWidth` digits
      ends with the least nonce whose digest is a hit, and with nothing exactly when there is none. */
  lemma SearchSolves(dig: Digester, needBits: nat, maxWidth: nat, z: Sizing, workers: nat,
                     trace: seq<State>, actions: seq<Action>)
    requires z.Ok() && 0 < maxWidth && workers > 0
    requires Completed(AllJobs(maxWidth, z), HitsOf(dig, needBits, maxWidth), workers, trace, actions)
    requires workers == 1 || !Crowded(AllJobs(maxWidth, z), HitsOf(dig, needBits, maxWidth))
    ensures IsSolution(dig, needBits, maxWidth, Best(trace[|trace| - 1].results))
  {
    var jobs, hits, r := AllJobs(maxWidth, z), HitsOf(dig, needBits, maxWidth), Best(trace[|trace| - 1].results);
    hide AllJobs, HitsOf, Tiles, Run, Finished, Best, Pow10, Crowded, IsSolution;
    AllJobsTile(maxWidth, z);
    if workers == 1 {
      OneWorkerFindsLeast(jobs, hits, Pow10(maxWidth), trace, actions);
    } else {
      UncrowdedFindsLeast(jobs, hits, Pow10(maxWidth), workers, trace, actions);
    }
    AnswerSolves(dig, needBits, maxWidth, z, r);
  }

  // ----- the SHA-256 puzzles

  /** The digest a context assigns to a nonce. */
  ghost function OfCtx(c: Sha.Compress, ctx: Ctx): Digester
    requires ctx.Ok()
  {
    n => if |Digits(n)| <= 20 then DigestOf(c, ctx, |Digits(n)|, n) else Zeros(32)
  }

  /** The scan step of the protocol is what the eight-lane search returns for the job. */
  lemma ScanIsFirstHit(c: Sha.Compress, ctx: Ctx, z: Sizing, i: nat)
    requires ctx.Ok() && z.Ok() && i < |AllJobs(MAX_WIDTH, z)|
    ensures var job := AllJobs(MAX_WIDTH, z)[i];
            job.width <= MAX_WIDTH && FirstHit(c, ctx, job.width, job.base, job.end)
              == Sent(OfCtx(c, ctx), Least(HitsOf(OfCtx(c, ctx), ctx.needBits, MAX_WIDTH), job.base, job.end))
  {
    hide DigestOf, Hits, Digits, AllJobs, FirstHit, Least;
    var job := AllJobs(MAX_WIDTH, z)[i];
    AllJobsWidth(MAX_WIDTH, z, i);
    var hits := HitsOf(OfCtx(c, ctx), ctx.needBits, MAX_WIDTH);
    forall n: nat | job.base <= n < job.end
      ensures OfCtx(c, ctx)(n) == DigestOf(c, ctx, job.width, n)
      ensures n in hits <==> Hits(ctx.needBits, DigestOf(c, ctx, job.width, n))
    {
      JobDigits(MAX_WIDTH, z, i, n);
    }
    FirstHitIsLeast(c, ctx, job.width, job.base, job.end);
    var r, l := FirstHit(c, ctx, job.width, job.base, job.end), Least(hits, job.base, job.end);
    assert r.Some? ==> r.value.0 in hits;
  }

  /** For HMAC: the hits are the nonces whose HMAC, taken of the message followed by the nonce in decimal, is a hit. */
  method HmacSearch(c: Sha.Compress, key: seq<byte>, msg: seq<byte>, difficulty: byte, avx512: bool) returns (ctx: Ctx)
    requires 8 * |key| < TWO64 && 8 * (64 + |msg| + 20) < TWO64
    ensures ctx.Ok()
    ensures var hits := HitsOf(OfCtx(c, ctx), ctx.needBits, MAX_WIDTH);
            forall n: nat | |Digits(n)| <= MAX_WIDTH ::
              n in hits <==> Hits(4 * difficulty, Puzzles.Hmac(c, key, msg + Digits(n)))
  {
    hide DigestOf, Hits, Puzzles.Hmac;
    ctx := Puzzles.NewHmac(c, key, msg, difficulty, avx512);
    ghost var hits := HitsOf(OfCtx(c, ctx), ctx.needBits, MAX_WIDTH);
    forall n: nat | |Digits(n)| <= MAX_WIDTH
      ensures n in hits <==> Hits(4 * difficulty, Puzzles.Hmac(c, key, msg + Digits(n)))
    {
      OwnWidth(n);
      assert OfCtx(c, ctx)(n) == Puzzles.Hmac(c, key, msg + Fixed(n, |Digits(n)|));
    }
  }

  /** At its own width the fixed form of a number is the usual one. */
  lemma {:induction false} OwnWidth(n: nat)
    ensures Fixed(n, |Digits(n)|) == Digits(n)
  {
    if n < 10 {
      assert Fixed(n / 10, 0) == [];
    } else {
      OwnWidth(n / 10);
    }
  }

  // ----- the Argon2id puzzle

  ghost predicate ArgonOk(salt: seq<byte>, mCost: word, tCost: word) {
    8 <= mCost <= Argon.MAX_MEM_COST && tCost >= 1 && 40 + 2 * |salt| + ARGON_WIDTH <= 512
  }

  /** Argon2id of the salt followed by the nonce. */
  ghost function OfArgon(b: Blake2b.Blake, p: ArgonFill.Permute, salt: seq<byte>, mCost: word, tCost: word): Digester
    requires ArgonOk(salt, mCost, tCost)
  {
    n => if |Digits(n)| <= 20 then Argon.Argon2id(b, false, p, salt + Digits(n), salt, mCost, tCost) else Zeros(32)
  }

  /** What a worker runs for a job, in memory that may hold anything: it sends the least hit of the job. */
  method ArgonJob(b: Blake2b.Blake, p: ArgonFill.Permute, salt: seq<byte>, difficulty: byte, mCost: word, tCost: word,
                  mem: array<ArgonFill.Cells>, z: Sizing, i: nat) returns (r: Option<(nat, seq<byte>)>)
    requires ArgonOk(salt, mCost, tCost) && mem.Length >= Argon.MemoryBlocks(mCost)
    requires z.Ok() && i < |AllJobs(ARGON_WIDTH, z)|
    modifies mem
    ensures var job := AllJobs(ARGON_WIDTH, z)[i];
            var dig := OfArgon(b, p, salt, mCost, tCost);
            r == Sent(dig, Least(HitsOf(dig, 4 * difficulty, ARGON_WIDTH), job.base, job.end))
  {
    hide AllJobs, Hits, Digits, Argon.Argon2id, Least, Fixed, Pow10;
    var job := AllJobs(ARGON_WIDTH, z)[i];
    ghost var dig := OfArgon(b, p, salt, mCost, tCost);
    ghost var hits := HitsOf(dig, 4 * difficulty, ARGON_WIDTH);
    var n := job.base;
    r := None;
    while n < job.end
      invariant job.base <= n && forall m: nat | job.base <= m < n :: m !in hits
    {
      JobDigits(ARGON_WIDTH, z, i, n);
      Below64(job.width);
      var h := Argon.Digest(b, p, salt, mCost, tCost, n, job.width, mem);
      assert h == dig(n);
      var hit := IsHit(4 * difficulty, h);
      if hit {
        assert n in hits && Least(hits, job.base, job.end) == Some(n);
        return Some((n, h));
      }
      n := n + 1;
    }
  }

  lemma Below64(width: nat)
    requires width <= ARGON_WIDTH
    ensures Pow10(width) <= TWO64
  {
    Pow10Monotone(width, ARGON_WIDTH);
    assert Pow10(6) == 1_000_000;
    assert Pow10(12) == 1_000_000_000_000;
  }
}
