/** The remote chain as the indexer sees it through `getBlock`. */
module StarknetNode {
  import opened Wrappers

  datatype Status = AcceptedOnL1 | AcceptedOnL2 | Pending | Rejected | PreConfirmed

  datatype Header = Header(number: nat, status: Status)

  /** The argument of `getBlock`: the text 'latest' or a height. */
  datatype Tag = Latest | Height(n: nat)

  datatype Failure = RpcError | NotFinal | NoAcceptedBlock | UndefinedBlock

  /** The failures a request itself can end in. */
  predicate RequestFailure(e: Failure) { e.RpcError? || e.NotFinal? }

  /** One `getBlock` together with the chain at the instant that answered it. */
  datatype Probe = Probe(tag: Tag, height: nat, frontier: int, reply: Result<Header, Failure>)

  function Max(a: int, b: int): int { if a < b then b else a }

  /** The number of the best finalized block; block 0 stands in while none is. */
  function Finalized(frontier: int): nat { Max(0, frontier) }

  /** The `isFinalizedBlock` guard: only blocks accepted on L1 or L2 get through. */
  predicate IsFinalizedBlock(h: Header) {
    !h.status.Pending? && !h.status.Rejected? && !h.status.PreConfirmed?
  }

  /** The height a tag asks for. */
  function Asked(tag: Tag, height: nat): nat {
    match tag
    case Latest => height
    case Height(n) => n
  }

  /**
   * A chain of blocks 0..height whose blocks 0..frontier are accepted on L1 (-1: none).
   * Both numbers only grow, and they may grow before any request is answered.
   */
  class Node {
    var height: nat
    var frontier: int
    ghost var probes: seq<Probe>

    constructor (height: nat, frontier: int)
      requires -1 <= frontier <= height
      ensures Valid() && this.height == height && this.frontier == frontier && probes == []
    {
      this.height, this.frontier, this.probes := height, frontier, [];
    }

    ghost predicate Valid()
      reads this
    {
      -1 <= frontier <= height
    }

    /** The chain moves on, by any amount. */
    method Advance()
      requires Valid()
      modifies this`height, this`frontier
      ensures Valid() && old(height) <= height && old(frontier) <= frontier
    {
      var h: nat, f: int :| height <= h && frontier <= f <= h;
      height, frontier := h, f;
    }

    /** One request: it may fail, and a block that does not exist always fails. */
    method GetBlock(tag: Tag) returns (r: Result<Header, Failure>)
      requires Valid()
      modifies this
      ensures Valid() && old(height) <= height && old(frontier) <= frontier
      ensures probes == old(probes) + [Probe(tag, height, frontier, r)]
      ensures r.Err? ==> RequestFailure(r.error)
      ensures r.Ok? ==> r.value.number == Asked(tag, height) <= height
      ensures r.Ok? ==> r.value.status == if r.value.number <= frontier then AcceptedOnL1 else AcceptedOnL2
    {
      Advance();
      var n := Asked(tag, height);
      var status: Status :| status.AcceptedOnL1? <==> n <= frontier;
      var block := Header(n, status);
      r := Ok(block);
      if * {
        r := Err(RpcError);
      } else if height < n {
        r := Err(RpcError);
      } else if !IsFinalizedBlock(block) {
        r := Err(NotFinal);
      }
      probes := probes + [Probe(tag, height, frontier, r)];
    }
  }
}
