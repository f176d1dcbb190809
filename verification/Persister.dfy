/** The persister: two byte slices that are only ever replaced, so that copies
    may share them. */
module Persister {
  newtype byte = b: int | 0 <= b < 256

  /** What one Save writes. */
  datatype Blob = Blob(raft: seq<byte>, snap: seq<byte>)

  /** The bytes of a slice; a nil slice is empty. */
  ghost function Bytes(a: array?<byte>): seq<byte>
    reads a
  {
    if a == null then [] else a[..]
  }

  class Persister {
    var raftstate: array?<byte>
    var snapshot: array?<byte>
    /** All saves so far, those inherited by copying included. */
    ghost var history: seq<Blob>

    ghost function Content(): Blob
      reads this, raftstate, snapshot
    {
      Blob(Bytes(raftstate), Bytes(snapshot))
    }

    /** What the persister holds is what was last saved. */
    ghost predicate Valid()
      reads this, raftstate, snapshot
    {
      Content() == if history == [] then Blob([], []) else history[|history| - 1]
    }

    constructor MakePersister()
      ensures Valid() && history == [] && raftstate == null && snapshot == null
    {
      raftstate, snapshot, history := null, null, [];
    }

    /** The copy holds the same slices, not copies of them. */
    method Copy() returns (np: Persister)
      requires Valid()
      ensures fresh(np) && np.Valid() && np.history == history
      ensures np.raftstate == raftstate && np.snapshot == snapshot
    {
      np := new Persister.MakePersister();
      np.raftstate, np.snapshot := raftstate, snapshot;
      np.history := history;
    }

    /** Saving replaces both slices by fresh ones and writes to no array: a
        copy made before still holds what it held, whoever saves to either. */
    method Save(raft: array?<byte>, snap: array?<byte>)
      requires Valid()
      modifies this
      ensures Valid() && history == old(history) + [Blob(old(Bytes(raft)), old(Bytes(snap)))]
      ensures fresh(raftstate) && fresh(snapshot)
    {
      raftstate := Clone(raft);
      snapshot := Clone(snap);
      history := history + [Blob(Bytes(raft), Bytes(snap))];
    }

    method ReadRaftState() returns (x: array<byte>)
      ensures fresh(x) && x[..] == Content().raft
    {
      x := Clone(raftstate);
    }

    method ReadSnapshot() returns (x: array<byte>)
      ensures fresh(x) && x[..] == Content().snap
    {
      x := Clone(snapshot);
    }
  }

  method Clone(orig: array?<byte>) returns (x: array<byte>)
    ensures fresh(x) && x[..] == Bytes(orig)
  {
    var n := if orig == null then 0 else orig.Length;
    x := new byte[n](_ => 0);
    for i := 0 to n
      invariant x[..i] == Bytes(orig)[..i]
    {
      x[i] := orig[i];
    }
  }

  /** After a shutdown has replaced a persister by its copy, neither a save by
      the old instance nor the caller's reuse of its buffer shows in the copy. */
  method LateSave(ps: Persister, raft: array<byte>, snap: array<byte>) returns (np: Persister)
    requires ps.Valid() && ps.raftstate != raft && ps.snapshot != raft
    modifies ps, raft
    ensures np.Valid() && np.history == old(ps.history) && np.Content() == old(ps.Content())
    ensures ps.Valid() && ps.history == old(ps.history) + [Blob(old(raft[..]), old(snap[..]))]
  {
    np := ps.Copy();
    ps.Save(raft, snap);
    if raft.Length > 0 {
      raft[0] := 0;
    }
  }
}
