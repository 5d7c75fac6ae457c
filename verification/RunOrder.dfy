/** The order in which ready processes run: virtual runtime, then pid, then slot. */
module RunOrder {
  import opened ProcessModel

  datatype Rank = Rank(vruntime: nat, pid: nat)

  function Ranks(vruntime: seq<nat>, procs: seq<Process>): (ranks: seq<Rank>)
    requires |vruntime| == |procs|
    ensures |ranks| == |procs|
  {
    seq(|procs|, i requires 0 <= i < |procs| => Rank(vruntime[i], procs[i].pid))
  }

  /** scheduler_vruntime_before. */
  predicate RunsBefore(ranks: seq<Rank>, a: nat, b: nat)
    requires a < |ranks| && b < |ranks|
  {
    if ranks[a].vruntime < ranks[b].vruntime then true
    else if ranks[a].vruntime > ranks[b].vruntime then false
    else if ranks[a].pid < ranks[b].pid then true
    else if ranks[a].pid > ranks[b].pid then false
    else a < b
  }

  /** A strict total order on slots. */
  lemma RunsBeforeIsTotal(ranks: seq<Rank>, a: nat, b: nat, c: nat)
    requires a < |ranks| && b < |ranks| && c < |ranks|
    ensures !RunsBefore(ranks, a, a)
    ensures a != b ==> (RunsBefore(ranks, a, b) <==> !RunsBefore(ranks, b, a))
    ensures RunsBefore(ranks, a, b) && RunsBefore(ranks, b, c) ==> RunsBefore(ranks, a, c)
  {
  }

  ghost predicate InRange(order: seq<nat>, n: nat) {
    forall i :: 0 <= i < |order| ==> order[i] < n
  }

  ghost predicate InRunOrder(ranks: seq<Rank>, order: seq<nat>) {
    && InRange(order, |ranks|)
    && forall i, j :: 0 <= i < j < |order| ==> RunsBefore(ranks, order[i], order[j])
  }

  /** The member of `members` that runs before all others. */
  ghost predicate IsFirst(ranks: seq<Rank>, members: set<nat>, first: nat) {
    && first in members
    && (forall k :: k in members ==> k < |ranks|)
    && forall k :: k in members && k != first ==> RunsBefore(ranks, first, k)
  }

  lemma FirstIsUnique(ranks: seq<Rank>, members: set<nat>, a: nat, b: nat)
    requires IsFirst(ranks, members, a) && IsFirst(ranks, members, b)
    ensures a == b
  {
    if a != b { RunsBeforeIsTotal(ranks, a, b, a); }
  }

  lemma InsertKeepsOrder(ranks: seq<Rank>, pre: seq<nat>, x: nat, post: seq<nat>)
    requires InRunOrder(ranks, pre + post) && x < |ranks|
    requires forall k :: k in pre ==> k < |ranks| && RunsBefore(ranks, k, x)
    requires forall k :: k in post ==> k < |ranks| && RunsBefore(ranks, x, k)
    ensures InRunOrder(ranks, pre + [x] + post)
  {
    var order, order' := pre + post, pre + [x] + post;
    forall i | 0 <= i < |order'| ensures order'[i] < |ranks| {
      if i < |pre| { assert order'[i] == order[i]; } else if i > |pre| { assert order'[i] == order[i - 1]; }
    }
    forall i, j | 0 <= i < j < |order'| ensures RunsBefore(ranks, order'[i], order'[j]) {
      if i < |pre| { assert order'[i] == order[i] == pre[i]; }
      if i > |pre| { assert order'[i] == order[i - 1]; }
      if j < |pre| { assert order'[j] == order[j]; }
      if j > |pre| { assert order'[j] == order[j - 1] == post[j - |pre| - 1]; }
    }
  }
}
