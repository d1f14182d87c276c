// Tables of slots that may be NULL, filled at the lowest free slot: the
// rows of the route table (libfskit/route.c) and the REPL's descriptor
// tables (libfskit/repl.c).
module Slots {
  import opened Opt

  /** The lowest NULL slot, or one past the end when every slot is in use. */
  function FreeSlot<T>(r: seq<Option<T>>): (k: nat)
    ensures k <= |r|
  {
    if |r| == 0 || r[0].None? then 0 else 1 + FreeSlot(r[1..])
  }

  /** Every slot below the free one is in use, and the free one, if inside, is NULL. */
  lemma {:induction false} FreeSlotSpec<T>(r: seq<Option<T>>)
    ensures forall j :: 0 <= j < FreeSlot(r) ==> r[j].Some?
    ensures FreeSlot(r) < |r| ==> r[FreeSlot(r)].None?
  {
    if |r| > 0 && r[0].Some? {
      FreeSlotSpec(r[1..]);
      forall j | 0 < j < FreeSlot(r) ensures r[j].Some? {
        assert r[j] == r[1..][j - 1];
      }
    }
  }

  /** Those two facts pin the free slot down. */
  lemma FreeSlotIs<T>(r: seq<Option<T>>, k: nat)
    requires k <= |r| && (forall j :: 0 <= j < k ==> r[j].Some?) && (k < |r| ==> r[k].None?)
    ensures FreeSlot(r) == k
  {
    FreeSlotSpec(r);
  }
}
