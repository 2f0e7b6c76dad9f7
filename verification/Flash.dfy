/** Page status and block counters, nested by channel, LUN, block and page as in `struct ssd` (ssd.h). */
module FlashArray {
  import opened Geometry
  import opened FtlState

  class Flash {
    const g: Geo
    const status: array4<Status>
    const vpc: array3<nat>
    const ipc: array3<nat>

    ghost predicate Shape() {
      && vpc != ipc
      && status.Length0 == g.nchs && status.Length1 == g.lunsPerCh && status.Length2 == g.blksPerPl
      && status.Length3 == g.PgsPerBlk()
      && vpc.Length0 == g.nchs && vpc.Length1 == g.lunsPerCh && vpc.Length2 == g.blksPerPl
      && ipc.Length0 == g.nchs && ipc.Length1 == g.lunsPerCh && ipc.Length2 == g.blksPerPl
    }

    ghost function Repr(): set<object> {
      {status, vpc, ipc}
    }

    ghost function StatusView(): map<Ppa, Status>
      requires Shape()
      reads status
    {
      map p | p in g.Pages() :: status[p.ch, p.lun, p.blk, p.pg]
    }

    ghost function VpcView(): map<Blk, nat>
      requires Shape()
      reads vpc
    {
      map k | k in g.Blocks() :: vpc[k.ch, k.lun, k.blk]
    }

    ghost function IpcView(): map<Blk, nat>
      requires Shape()
      reads ipc
    {
      map k | k in g.Blocks() :: ipc[k.ch, k.lun, k.blk]
    }

    /** ssd_init_nand_page, ssd_init_nand_blk */
    constructor (g: Geo)
      ensures this.g == g && Shape() && fresh(Repr())
      ensures forall p <- StatusView() :: StatusView()[p] == Free
      ensures forall k <- VpcView() :: VpcView()[k] == 0 && IpcView()[k] == 0
      ensures StatusView().Keys == g.Pages() && VpcView().Keys == g.Blocks() && IpcView().Keys == g.Blocks()
    {
      this.g := g;
      status := new Status[g.nchs, g.lunsPerCh, g.blksPerPl, g.PgsPerBlk()]((_, _, _, _) => Free);
      vpc := new nat[g.nchs, g.lunsPerCh, g.blksPerPl]((_, _, _) => 0);
      ipc := new nat[g.nchs, g.lunsPerCh, g.blksPerPl]((_, _, _) => 0);
    }

    method SetStatus(p: Ppa, x: Status)
      requires Shape() && g.ValidPpa(p)
      modifies status
      ensures StatusView() == old(StatusView())[p := x]
    {
      g.PagesAreValid(p);
      status[p.ch, p.lun, p.blk, p.pg] := x;
    }

    method SetVpc(k: Blk, n: nat)
      requires Shape() && k in g.Blocks()
      modifies vpc
      ensures VpcView() == old(VpcView())[k := n]
    {
      vpc[k.ch, k.lun, k.blk] := n;
    }

    method SetIpc(k: Blk, n: nat)
      requires Shape() && k in g.Blocks()
      modifies ipc
      ensures IpcView() == old(IpcView())[k := n]
    {
      ipc[k.ch, k.lun, k.blk] := n;
    }

    /** The page and block part of mark_page_invalid. */
    method InvalidatePage(p: Ppa)
      requires Shape() && g.ValidPpa(p) && p in StatusView() && StatusView()[p] == Valid
      requires BlkOf(p) in VpcView() && VpcView()[BlkOf(p)] > 0
      modifies Repr()
      ensures BlkOf(p) in old(IpcView())
      ensures StatusView() == old(StatusView())[p := Invalid]
      ensures VpcView() == old(VpcView())[BlkOf(p) := old(VpcView())[BlkOf(p)] - 1]
      ensures IpcView() == old(IpcView())[BlkOf(p) := old(IpcView())[BlkOf(p)] + 1]
    {
      SetStatus(p, Invalid);
      SetIpc(BlkOf(p), ipc[p.ch, p.lun, p.blk] + 1);
      SetVpc(BlkOf(p), vpc[p.ch, p.lun, p.blk] - 1);
    }

    /** The page and block part of mark_page_valid. */
    method ValidatePage(p: Ppa)
      requires Shape() && g.ValidPpa(p) && p in StatusView() && StatusView()[p] == Free
      requires BlkOf(p) in VpcView()
      modifies status, vpc
      ensures StatusView() == old(StatusView())[p := Valid]
      ensures VpcView() == old(VpcView())[BlkOf(p) := old(VpcView())[BlkOf(p)] + 1]
    {
      SetStatus(p, Valid);
      SetVpc(BlkOf(p), vpc[p.ch, p.lun, p.blk] + 1);
    }

    /** mark_block_free */
    method EraseBlock(k: Blk)
      requires Shape() && k in g.Blocks()
      modifies Repr()
      ensures StatusView() == map p | p in old(StatusView()) :: if BlkOf(p) == k then Free else old(StatusView())[p]
      ensures VpcView() == old(VpcView())[k := 0] && IpcView() == old(IpcView())[k := 0]
    {
      g.BlocksAreValid(k);
      ghost var before := StatusView();
      var i := 0;
      while i < g.PgsPerBlk()
        invariant 0 <= i <= g.PgsPerBlk()
        invariant StatusView() == map p | p in before :: if BlkOf(p) == k && p.pg < i then Free else before[p]
        invariant VpcView() == old(VpcView()) && IpcView() == old(IpcView())
      {
        SetStatus(Ppa(k.ch, k.lun, k.blk, i), Free);
        g.PagesAreValid(Ppa(k.ch, k.lun, k.blk, i));
        i := i + 1;
      }
      forall p | p in before && BlkOf(p) == k
        ensures p.pg < i
      {
        g.PagesAreValid(p);
      }
      SetIpc(k, 0);
      SetVpc(k, 0);
    }
  }
}
