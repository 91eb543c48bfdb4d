/**
 The environment of a module: samples arrive in chunks of any size, each time with
 some room in the writer, and the module is called while it can process
 (src/apps/csdr/commands.cpp:88-123).
 */
module Schedules {
  import opened Integers

  datatype Offer = Offer(arriving: nat, writeable: nat)

  /** How much of a stream of `total` elements has arrived after the offers. */
  function Arrived(offers: seq<Offer>, total: nat): (n: nat)
    ensures n <= total
  {
    if |offers| == 0 then 0
    else Min(total, Arrived(offers[..|offers| - 1], total) + offers[|offers| - 1].arriving)
  }

  /** The last offer leaves room for so much, so that nothing is left undone for lack of it. */
  predicate EndsWithRoom(offers: seq<Offer>, room: nat) {
    |offers| > 0 ==> offers[|offers| - 1].writeable >= room
  }

  /** No offer ever leaves room for so much. */
  predicate NeverRoom(offers: seq<Offer>, room: nat) {
    forall k :: 0 <= k < |offers| ==> offers[k].writeable < room
  }

  lemma ArrivedNext(offers: seq<Offer>, total: nat, k: nat)
    requires k < |offers|
    ensures Arrived(offers[..k + 1], total) == Min(total, Arrived(offers[..k], total) + offers[k].arriving)
  {
    assert offers[..k + 1][..k] == offers[..k];
  }

  lemma NothingArrived(total: nat)
    ensures Arrived([], total) == 0
  {}
}
