/** Positions of a list that are kept, in order: the shape of every filtering loop. */
module Selection {

  /** The positions below n that are kept, in order. */
  function Kept(n: nat, keep: nat -> bool): seq<nat> {
    if n == 0 then [] else Kept(n - 1, keep) + if keep(n - 1) then [n - 1] else []
  }

  lemma {:induction false} KeptMembers(n: nat, keep: nat -> bool, i: nat)
    ensures i in Kept(n, keep) <==> i < n && keep(i)
  {
    if n > 0 { KeptMembers(n - 1, keep, i); }
  }

  lemma {:induction false} KeptInOrder(n: nat, keep: nat -> bool, i: nat, j: nat)
    requires i < j < |Kept(n, keep)|
    ensures Kept(n, keep)[i] < Kept(n, keep)[j] < n
  {
    var before := Kept(n - 1, keep);
    KeptMembers(n - 1, keep, before[i]);
    if j < |before| {
      KeptInOrder(n - 1, keep, i, j);
    }
  }

  /** The positions are strictly increasing and exactly those that are kept. */
  ghost predicate Positions(kept: seq<nat>, n: nat, keep: nat -> bool) {
    && (forall i, j :: 0 <= i < j < |kept| ==> kept[i] < kept[j])
    && (forall i :: 0 <= i < |kept| ==> kept[i] < n && keep(kept[i]))
    && (forall i: nat :: i < n && keep(i) ==> i in kept)
  }

  lemma KeptPositions(n: nat, keep: nat -> bool)
    ensures Positions(Kept(n, keep), n, keep)
  {
    hide Kept;
    var kept := Kept(n, keep);
    forall i | 0 <= i < |kept| ensures kept[i] < n && keep(kept[i]) { KeptMembers(n, keep, kept[i]); }
    forall i: nat | i < n && keep(i) ensures i in kept { KeptMembers(n, keep, i); }
    forall i, j | 0 <= i < j < |kept| ensures kept[i] < kept[j] { KeptInOrder(n, keep, i, j); }
  }

  /** Kept positions below n do not depend on what is kept from n on. */
  lemma {:induction false} KeptAgrees(n: nat, keep: nat -> bool, keep': nat -> bool)
    requires forall i: nat :: i < n ==> keep(i) == keep'(i)
    ensures Kept(n, keep) == Kept(n, keep')
  {
    if n > 0 { KeptAgrees(n - 1, keep, keep'); }
  }

  /** The list is what is found at the kept positions. */
  ghost predicate Selects<T>(kept: seq<nat>, items: seq<T>, list: seq<T>) {
    |kept| == |list| && forall j :: 0 <= j < |kept| ==> kept[j] < |items| && list[j] == items[kept[j]]
  }

  /** One more item, kept or not. */
  lemma SelectOneMore<T>(kept: seq<nat>, items: seq<T>, list: seq<T>, keep: bool)
    requires items != [] && Selects(kept, items[..|items| - 1], list)
    ensures var n := |items| - 1;
            Selects(kept + if keep then [n] else [], items, list + if keep then [items[n]] else [])
  {
    var n := |items| - 1;
    assert forall j :: 0 <= j < |kept| ==> items[..n][kept[j]] == items[kept[j]];
  }
}
