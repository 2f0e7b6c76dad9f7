/**
 The sizes ssd_init_params derives from the build configuration (ssd.c), and the identities the translation
 layer relies on.
 */
module SsdParameters {
  import opened MixedRadix
  import opened Geometry

  /** The build-time constants of ssd_config.h that shape the flash. */
  datatype Config = Config(lbaSize: nat, nandChannels: nat, lunsPerCh: nat, plnsPerLun: nat, blksPerPln: nat,
                           blkSize: nat, flashPageSize: nat, oneshotPageSize: nat)
  {
    function PageSize(): nat
      requires lbaSize > 0
    {
      lbaSize * (4096 / lbaSize)
    }

    /** What the source asserts or divides by. */
    ghost predicate Ok() {
      && 0 < lbaSize <= 4096 && 0 < nandChannels && 0 < lunsPerCh && 0 < plnsPerLun
      && (blksPerPln > 0 || blkSize > 0)
      && 0 < flashPageSize && 0 < oneshotPageSize
      && 0 < PageSize() && oneshotPageSize % PageSize() == 0 && flashPageSize % PageSize() == 0
      && oneshotPageSize % flashPageSize == 0
    }
  }

  /** A page is as many whole sectors as fit in 4096 bytes. */
  lemma PageIsWholeSectors(config: Config)
    requires 0 < config.lbaSize <= 4096
    ensures 0 < config.PageSize() <= 4096 < config.PageSize() + config.lbaSize
    ensures config.PageSize() == (4096 / config.lbaSize) * config.lbaSize
  {
    var q := 4096 / config.lbaSize;
    QuotientIs(4096, config.lbaSize, q);
    QuotientIs(4096, config.lbaSize, 1);
    assert (q + 1) * config.lbaSize == q * config.lbaSize + config.lbaSize;
    PositiveProduct(q, config.lbaSize);
  }

  function DivRoundUp(n: nat, d: nat): nat
    requires d > 0
  {
    (n + d - 1) / d
  }

  /** Rounded up, the quotient covers `n`, and one less would not. */
  lemma DivRoundUpCovers(n: nat, d: nat)
    requires d > 0
    ensures n <= DivRoundUp(n, d) * d
    ensures n > 0 ==> DivRoundUp(n, d) > 0
    ensures DivRoundUp(n, d) > 0 ==> (DivRoundUp(n, d) - 1) * d < n
  {
    var q := DivRoundUp(n, d);
    QuotientIs(n + d - 1, d, q);
    assert (q + 1) * d == q * d + d && (q - 1) * d == q * d - d;
    assert n > 0 && q == 0 ==> q * d == 0;
  }

  /** The blocks hold the share, with the configured number or size of them, and no smaller block or number would. */
  ghost predicate Tight(config: Config, share: nat, blocks: nat, planes: nat, size: nat) {
    && 0 < blocks && 0 < size && share <= (blocks * planes) * size
    && (if config.blksPerPln > 0
        then blocks == config.blksPerPln && (blocks * planes) * (size - 1) < share
        else size == config.blkSize && ((blocks - 1) * planes) * size < share)
  }

  lemma TightBlocks(config: Config, share: nat, blocks: nat, planes: nat, size: nat)
    requires 0 < blocks && 0 < size && 0 < share
    requires if config.blksPerPln > 0
             then && blocks == config.blksPerPln
                  && (size - 1) * (blocks * planes) < share <= size * (blocks * planes)
             else && size == config.blkSize
                  && (blocks - 1) * (size * planes) < share <= blocks * (size * planes)
    ensures Tight(config, share, blocks, planes, size)
  {
    if config.blksPerPln > 0 {
      assert size * (blocks * planes) == (blocks * planes) * size;
      assert (size - 1) * (blocks * planes) == (blocks * planes) * (size - 1);
    } else {
      assert blocks * (size * planes) == (blocks * planes) * size;
      assert (blocks - 1) * (size * planes) == ((blocks - 1) * planes) * size;
    }
  }

  /** A multiple of `d` is its quotient times `d`, and a positive multiple has a positive quotient. */
  lemma Exact(n: nat, d: nat)
    requires d > 0 && n % d == 0
    ensures n == (n / d) * d && (n > 0 ==> n / d > 0)
  {
  }

  lemma QuotientsMultiply(n: nat, m: nat, d: nat)
    requires d > 0 && m > 0 && n % m == 0 && m % d == 0 && n % d == 0
    ensures n / d == (m / d) * (n / m)
  {
    Exact(n, m);
    Exact(m, d);
    Exact(n, d);
    var a, b, c := n / m, m / d, n / d;
    assert (b * a) * d == (b * d) * a;
    MixInjective(b * a, 0, c, 0, d);
  }

  /** The two ways of counting all pages. */
  lemma TotalPages(B: nat, b: nat, p: nat, l: nat, n: nat)
    ensures (((B * b) * p) * l) * n == (b * p) * ((l * n) * B)
    ensures (((B * b) * p) * l) * n == (b * ((p * l) * n)) * B
  {
    var x := b * p;
    assert (B * b) * p == B * x;
    assert ((B * x) * l) * n == (B * x) * (l * n);
    assert (B * x) * (l * n) == x * ((l * n) * B);
    assert (p * l) * n == p * (l * n);
    assert b * (p * (l * n)) == x * (l * n);
  }

  lemma PositiveProduct(x: nat, y: nat)
    requires x > 0 && y > 0
    ensures x * y > 0
  {
  }

  /** Blocks that hold a partition's share, each rounded up to whole program units, have pages for all of it. */
  lemma ShareFits(share: nat, blocks: nat, size: nat, oneshots: nat, oneshotSize: nat, perOneshot: nat, pgsz: nat)
    requires share <= blocks * size && size <= oneshots * oneshotSize && oneshotSize == perOneshot * pgsz
    ensures share <= (blocks * (perOneshot * oneshots)) * pgsz
  {
    var room := oneshots * oneshotSize;
    assert blocks * size <= blocks * room by {
      MulMono(size, room, blocks);
    }
    assert room == (perOneshot * oneshots) * pgsz by {
      assert oneshots * (perOneshot * pgsz) == (perOneshot * oneshots) * pgsz;
    }
    assert blocks * ((perOneshot * oneshots) * pgsz) == (blocks * (perOneshot * oneshots)) * pgsz;
  }

  /** A block has as many pages counted in sensing units as counted in program units. */
  lemma SameBlock(oneshotSize: nat, flashSize: nat, pgsz: nat, oneshots: nat)
    requires pgsz > 0 && flashSize > 0 && oneshotSize % flashSize == 0 && flashSize % pgsz == 0
          && oneshotSize % pgsz == 0
    ensures (oneshotSize / pgsz) * oneshots == (flashSize / pgsz) * ((oneshotSize / flashSize) * oneshots)
  {
    QuotientsMultiply(oneshotSize, flashSize, pgsz);
    var x, y := flashSize / pgsz, oneshotSize / flashSize;
    assert (x * y) * oneshots == x * (y * oneshots);
  }

  /** The units of a block large enough for `size` bytes. */
  lemma BlockUnits(oneshotSize: nat, flashSize: nat, pgsz: nat, size: nat)
    requires pgsz > 0 && oneshotSize > 0 && flashSize > 0 && size > 0
    requires oneshotSize % flashSize == 0 && flashSize % pgsz == 0 && oneshotSize % pgsz == 0
    ensures var oneshots := DivRoundUp(size, oneshotSize);
            0 < oneshots && (oneshots - 1) * oneshotSize < size <= oneshots * oneshotSize
            && 0 < (oneshotSize / flashSize) * oneshots
            && (oneshotSize / pgsz) * oneshots == (flashSize / pgsz) * ((oneshotSize / flashSize) * oneshots)
    ensures 0 < oneshotSize / pgsz && 0 < flashSize / pgsz && oneshotSize == (oneshotSize / pgsz) * pgsz
  {
    hide DivRoundUp;
    var oneshots := DivRoundUp(size, oneshotSize);
    DivRoundUpCovers(size, oneshotSize);
    Exact(oneshotSize, pgsz);
    Exact(flashSize, pgsz);
    Exact(oneshotSize, flashSize);
    PositiveProduct(oneshotSize / flashSize, oneshots);
    SameBlock(oneshotSize, flashSize, pgsz, oneshots);
  }

  class SsdParams {
    var secsz: nat
    var secsPerPg: nat
    var pgsz: nat
    var pgsPerFlashpg: nat
    var flashpgsPerBlk: nat
    var pgsPerOneshotpg: nat
    var oneshotpgsPerBlk: nat
    var pgsPerBlk: nat
    var blksPerPl: nat
    var plsPerLun: nat
    var lunsPerCh: nat
    var nchs: nat
    var pgsPerPl: nat
    var pgsPerLun: nat
    var pgsPerCh: nat
    var ttPgs: nat
    var blksPerLun: nat
    var ttLuns: nat
    var blksPerLine: nat
    var pgsPerLine: nat
    var ttLines: nat

    constructor ()
    {
    }

    /** The geometry the translation layer works with. */
    function Geometry(): Geo
      reads this
    {
      Geo(nchs, lunsPerCh, blksPerPl, pgsPerOneshotpg, oneshotpgsPerBlk, pgsPerFlashpg, flashpgsPerBlk)
    }

    /**
     Everything is positive, a block is whole both in program and in sensing units, and the lines make up the
     flash.
     */
    ghost predicate Consistent()
      reads this
    {
      && 0 < nchs && 0 < lunsPerCh && 0 < plsPerLun && 0 < blksPerPl && 0 < pgsz
      && 0 < pgsPerOneshotpg && 0 < oneshotpgsPerBlk && 0 < pgsPerFlashpg && 0 < flashpgsPerBlk
      && pgsPerBlk == pgsPerOneshotpg * oneshotpgsPerBlk == pgsPerFlashpg * flashpgsPerBlk
      && pgsPerLine == (lunsPerCh * nchs) * pgsPerBlk && ttLines == blksPerPl * plsPerLun
      && ttPgs == ttLines * pgsPerLine
    }

    /** ssd_init_params: the sizes of pages and blocks. */
    method InitBlocks(config: Config, capacity: nat, nparts: nat) returns (ghost size: nat)
      requires config.Ok() && 0 < nparts && config.nandChannels % nparts == 0 && 0 < capacity / nparts
      modifies this
      ensures nchs * nparts == config.nandChannels && lunsPerCh == config.lunsPerCh && plsPerLun == config.plnsPerLun
      ensures 0 < nchs && 0 < blksPerPl && 0 < pgsz == config.PageSize()
      ensures pgsz == secsPerPg * config.lbaSize <= 4096 < pgsz + config.lbaSize
      ensures 0 < pgsPerOneshotpg && 0 < oneshotpgsPerBlk && 0 < pgsPerFlashpg && 0 < flashpgsPerBlk
      ensures pgsPerBlk == pgsPerOneshotpg * oneshotpgsPerBlk == pgsPerFlashpg * flashpgsPerBlk
      ensures capacity / nparts <= ((blksPerPl * ((plsPerLun * lunsPerCh) * nchs)) * pgsPerBlk) * pgsz
      ensures Tight(config, capacity / nparts, blksPerPl, (plsPerLun * lunsPerCh) * nchs, size)
      ensures (oneshotpgsPerBlk - 1) * config.oneshotPageSize < size <= oneshotpgsPerBlk * config.oneshotPageSize
      ensures pgsPerOneshotpg * pgsz == config.oneshotPageSize && pgsPerFlashpg * pgsz == config.flashPageSize
    {
      hide DivRoundUp;
      secsz := config.lbaSize;
      secsPerPg := 4096 / config.lbaSize;
      pgsz := secsz * secsPerPg;
      nchs := config.nandChannels;
      plsPerLun := config.plnsPerLun;
      lunsPerCh := config.lunsPerCh;
      PageIsWholeSectors(config);
      Exact(config.nandChannels, nparts);
      nchs := nchs / nparts;
      var share := capacity / nparts;
      var bytes := ChooseBlocks(config, share);
      size := bytes;
      Exact(config.flashPageSize, pgsz);
      pgsPerOneshotpg := config.oneshotPageSize / pgsz;
      oneshotpgsPerBlk := DivRoundUp(bytes, config.oneshotPageSize);
      pgsPerFlashpg := config.flashPageSize / pgsz;
      flashpgsPerBlk := (config.oneshotPageSize / config.flashPageSize) * oneshotpgsPerBlk;
      pgsPerBlk := pgsPerOneshotpg * oneshotpgsPerBlk;
      BlockUnits(config.oneshotPageSize, config.flashPageSize, pgsz, size);
      ShareFits(share, blksPerPl * ((plsPerLun * lunsPerCh) * nchs), size, oneshotpgsPerBlk, config.oneshotPageSize,
          pgsPerOneshotpg, pgsz);
    }

    /** Either the number of blocks is configured and their size follows, or the reverse. */
    method ChooseBlocks(config: Config, share: nat) returns (size: nat)
      requires (config.blksPerPln > 0 || config.blkSize > 0) && 0 < plsPerLun && 0 < lunsPerCh && 0 < nchs && 0 < share
      modifies this`blksPerPl
      ensures Tight(config, share, blksPerPl, (plsPerLun * lunsPerCh) * nchs, size)
    {
      hide DivRoundUp;
      PositiveProduct(plsPerLun, lunsPerCh);
      PositiveProduct(plsPerLun * lunsPerCh, nchs);
      var planes := (plsPerLun * lunsPerCh) * nchs;
      if config.blksPerPln > 0 {
        blksPerPl := config.blksPerPln;
        PositiveProduct(blksPerPl, planes);
        size := DivRoundUp(share, blksPerPl * planes);
        DivRoundUpCovers(share, blksPerPl * planes);
      } else {
        size := config.blkSize;
        PositiveProduct(size, planes);
        blksPerPl := DivRoundUp(share, size * planes);
        DivRoundUpCovers(share, size * planes);
      }
      TightBlocks(config, share, blksPerPl, planes, size);
    }

    /** ssd_init_params */
    method Init(config: Config, capacity: nat, nparts: nat) returns (ghost size: nat)
      requires config.Ok() && 0 < nparts && config.nandChannels % nparts == 0 && 0 < capacity / nparts
      modifies this
      ensures Consistent() && nchs * nparts == config.nandChannels && lunsPerCh == config.lunsPerCh
            && plsPerLun == config.plnsPerLun
      ensures pgsz == config.PageSize() && capacity / nparts <= ttPgs * pgsz
      ensures pgsz == secsPerPg * config.lbaSize <= 4096 < pgsz + config.lbaSize
      ensures Tight(config, capacity / nparts, blksPerPl, (plsPerLun * lunsPerCh) * nchs, size)
      ensures (oneshotpgsPerBlk - 1) * config.oneshotPageSize < size <= oneshotpgsPerBlk * config.oneshotPageSize
      ensures pgsPerOneshotpg * pgsz == config.oneshotPageSize && pgsPerFlashpg * pgsz == config.flashPageSize
      ensures plsPerLun == 1 ==>
                var g := Geometry();
                g.PgsPerBlk() == pgsPerBlk && g.PgsPerLun() == pgsPerLun && g.PgsPerCh() == pgsPerCh
                    && g.TtPgs() == ttPgs
                && g.PgsPerLine() == pgsPerLine && g.blksPerPl == ttLines
    {
      hide Tight;
      size := InitBlocks(config, capacity, nparts);
      Derive();
    }

    /** ssd_init_params: the calculated values. */
    method Derive()
      modifies `pgsPerPl, `pgsPerLun, `pgsPerCh, `ttPgs, `blksPerLun, `ttLuns, `blksPerLine, `pgsPerLine, `ttLines
      ensures pgsPerLun == (pgsPerBlk * blksPerPl) * plsPerLun && pgsPerCh == pgsPerLun * lunsPerCh
      ensures pgsPerLine == (lunsPerCh * nchs) * pgsPerBlk && ttLines == blksPerPl * plsPerLun
      ensures ttPgs == pgsPerCh * nchs == ttLines * pgsPerLine
      ensures ttPgs == (blksPerPl * ((plsPerLun * lunsPerCh) * nchs)) * pgsPerBlk
    {
      pgsPerPl := pgsPerBlk * blksPerPl;
      pgsPerLun := pgsPerPl * plsPerLun;
      pgsPerCh := pgsPerLun * lunsPerCh;
      ttPgs := pgsPerCh * nchs;
      blksPerLun := blksPerPl * plsPerLun;
      ttLuns := lunsPerCh * nchs;
      blksPerLine := ttLuns;
      pgsPerLine := blksPerLine * pgsPerBlk;
      ttLines := blksPerLun;
      TotalPages(pgsPerBlk, blksPerPl, plsPerLun, lunsPerCh, nchs);
    }

    /** Within the bit fields of a physical address, the derived sizes are a geometry the translation layer accepts. */
    lemma GeometryIsOk()
      requires Consistent() && plsPerLun == 1
      requires nchs <= 0x100 && lunsPerCh <= 0x100 && blksPerPl <= 0x1_0000 && pgsPerBlk <= 0x1_0000
            && pgsPerLine < 0x8000_0000
      ensures Geometry().Ok()
    {
      PositiveProduct(nchs, lunsPerCh);
      PositiveProduct(pgsPerOneshotpg, oneshotpgsPerBlk);
      PositiveProduct(nchs * lunsPerCh, pgsPerBlk);
    }
  }
}
