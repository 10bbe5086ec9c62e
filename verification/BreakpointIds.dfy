// Identifiers across the live table and the pending list.
module BreakpointIds {
  import opened Common
  import opened LogicalMemory

  /** Every identifier handed out so far is below `next`, and no two entries, live or pending, share one. */
  ghost predicate PairwiseDistinct(t: Table, pending: seq<Breakpoint>, next: int) {
    && (forall a | a in t :: t[a].id < next && t[a].address == a)
    && (forall i | 0 <= i < |pending| :: pending[i].id < next && pending[i].pending && !pending[i].enabled)
    && (forall a, b | a in t && b in t && a != b :: t[a].id != t[b].id)
    && (forall i, j | 0 <= i < j < |pending| :: pending[i].id != pending[j].id)
    && (forall a, i | a in t && 0 <= i < |pending| :: t[a].id != pending[i].id)
  }

  /**
   * The same, in the form the debugger's methods carry along. It unfolds only where a lemma mentions `Same`,
   * so the verifier does not compare all pairs of entries wherever the table is looked up.
   */
  ghost predicate DistinctIds(t: Table, pending: seq<Breakpoint>, next: int) {
    forall t', pending', next' {:trigger Same(t, pending, next, t', pending', next')} ::
      Same(t, pending, next, t', pending', next') ==> PairwiseDistinct(t', pending', next')
  }

  ghost predicate Same(t: Table, pending: seq<Breakpoint>, next: int,
                       t': Table, pending': seq<Breakpoint>, next': int)
  {
    t == t' && pending == pending' && next == next'
  }

  lemma IdsArePairwiseDistinct(t: Table, pending: seq<Breakpoint>, next: int)
    ensures DistinctIds(t, pending, next) <==> PairwiseDistinct(t, pending, next)
  {
    assert Same(t, pending, next, t, pending, next);
  }

  lemma UpdatedEntryKeepsIds(t: Table, pending: seq<Breakpoint>, next: int, a: Address, b: Breakpoint)
    requires DistinctIds(t, pending, next) && a in t && b.id == t[a].id && b.address == a
    ensures DistinctIds(t[a := b], pending, next)
  {
    IdsArePairwiseDistinct(t, pending, next);
    IdsArePairwiseDistinct(t[a := b], pending, next);
  }

  lemma NewEntryKeepsIds(t: Table, pending: seq<Breakpoint>, next: int, a: Address, b: Breakpoint)
    requires DistinctIds(t, pending, next) && a !in t && b.id == next && b.address == a
    ensures DistinctIds(t[a := b], pending, next + 1)
  {
    IdsArePairwiseDistinct(t, pending, next);
    IdsArePairwiseDistinct(t[a := b], pending, next + 1);
  }

  lemma NewPendingKeepsIds(t: Table, pending: seq<Breakpoint>, next: int, b: Breakpoint)
    requires DistinctIds(t, pending, next) && b.id == next && b.pending && !b.enabled
    ensures DistinctIds(t, pending + [b], next + 1)
  {
    IdsArePairwiseDistinct(t, pending, next);
    IdsArePairwiseDistinct(t, pending + [b], next + 1);
  }

  lemma ErasedEntryKeepsIds(t: Table, pending: seq<Breakpoint>, next: int, a: Address)
    requires DistinctIds(t, pending, next)
    ensures DistinctIds(t - {a}, pending, next)
  {
    IdsArePairwiseDistinct(t, pending, next);
    IdsArePairwiseDistinct(t - {a}, pending, next);
  }

  lemma ErasedPendingKeepsIds(t: Table, pending: seq<Breakpoint>, next: int, i: nat)
    requires DistinctIds(t, pending, next) && i < |pending|
    ensures DistinctIds(t, pending[..i] + pending[i + 1..], next)
  {
    IdsArePairwiseDistinct(t, pending, next);
    IdsArePairwiseDistinct(t, pending[..i] + pending[i + 1..], next);
  }

  /** The pending entries that are not the given one: remove_if on the identifier. */
  function WithoutId(pending: seq<Breakpoint>, id: int): seq<Breakpoint> {
    if pending == [] then []
    else (if pending[0].id == id then [] else [pending[0]]) + WithoutId(pending[1..], id)
  }

  /** The pending entries whose specification still resolves to nothing, in order. */
  function Unresolved(pending: seq<Breakpoint>, resolve: string -> seq<Address>): seq<Breakpoint> {
    if pending == [] then []
    else (if resolve(pending[0].specification) == [] then [pending[0]] else []) + Unresolved(pending[1..], resolve)
  }

  /** The addresses that have an entry, or will once the pending specifications are retried. */
  ghost function Holdable(t: Table, pending: seq<Breakpoint>, resolve: string -> seq<Address>): set<Address> {
    t.Keys + set p, a | p in pending && a in resolve(p.specification) :: a
  }

  lemma {:induction false} UnresolvedMembers(pending: seq<Breakpoint>, resolve: string -> seq<Address>, b: Breakpoint)
    ensures b in Unresolved(pending, resolve) <==> b in pending && resolve(b.specification) == []
  {
    if pending != [] {
      UnresolvedMembers(pending[1..], resolve, b);
      assert pending == [pending[0]] + pending[1..];
    }
  }

  /** An entry stays if its specification resolves to nothing, goes if not, and the order is kept. */
  lemma UnresolvedOne(p: Breakpoint, resolve: string -> seq<Address>)
    ensures Unresolved([p], resolve) == if resolve(p.specification) == [] then [p] else []
  {
    assert [p][1..] == [] && Unresolved([], resolve) == [];
  }

  lemma {:induction false} UnresolvedConcat(a: seq<Breakpoint>, b: seq<Breakpoint>, resolve: string -> seq<Address>)
    ensures Unresolved(a + b, resolve) == Unresolved(a, resolve) + Unresolved(b, resolve)
  {
    if a == [] {
      assert a + b == b;
    } else {
      assert (a + b)[1..] == a[1..] + b;
      UnresolvedConcat(a[1..], b, resolve);
    }
  }

  lemma {:induction false} WithoutIdSublist(pending: seq<Breakpoint>, id: int, j: nat) returns (k: nat)
    requires j < |WithoutId(pending, id)|
    ensures j <= k < |pending| && pending[k] == WithoutId(pending, id)[j]
    ensures forall i | 0 <= i < j :: exists h :: 0 <= h < k && pending[h] == WithoutId(pending, id)[i]
  {
    if pending[0].id == id {
      k := WithoutIdSublist(pending[1..], id, j);
      k := k + 1;
      forall i | 0 <= i < j ensures exists h :: 0 <= h < k && pending[h] == WithoutId(pending, id)[i] {
        var h :| 0 <= h < k - 1 && pending[1..][h] == WithoutId(pending[1..], id)[i];
        assert pending[h + 1] == WithoutId(pending, id)[i];
      }
    } else if j == 0 {
      k := 0;
    } else {
      k := WithoutIdSublist(pending[1..], id, j - 1);
      k := k + 1;
      forall i | 0 <= i < j ensures exists h :: 0 <= h < k && pending[h] == WithoutId(pending, id)[i] {
        if i == 0 {
          assert pending[0] == WithoutId(pending, id)[0];
        } else {
          var h :| 0 <= h < k - 1 && pending[1..][h] == WithoutId(pending[1..], id)[i - 1];
          assert pending[h + 1] == WithoutId(pending, id)[i];
        }
      }
    }
  }

  lemma WithoutIdDistinct(t: Table, pending: seq<Breakpoint>, id: int, next: int)
    requires DistinctIds(t, pending, next)
    ensures DistinctIds(t, WithoutId(pending, id), next)
  {
    IdsArePairwiseDistinct(t, pending, next);
    IdsArePairwiseDistinct(t, WithoutId(pending, id), next);
    var left := WithoutId(pending, id);
    forall j | 0 <= j < |left|
      ensures left[j] in pending
      ensures forall i | 0 <= i < j :: left[i].id != left[j].id
    {
      var k := WithoutIdSublist(pending, id, j);
    }
  }

  /** With distinct identifiers, removal takes out at most the one entry. */
  lemma {:induction false} WithoutIdAt(pending: seq<Breakpoint>, i: nat)
    requires i < |pending|
    requires forall j | 0 <= j < |pending| && j != i :: pending[j].id != pending[i].id
    ensures WithoutId(pending, pending[i].id) == pending[..i] + pending[i + 1..]
  {
    var id := pending[i].id;
    if i == 0 {
      WithoutAbsent(pending[1..], id);
    } else {
      WithoutIdAt(pending[1..], i - 1);
      assert pending[1..][..i - 1] == pending[1..i] && pending[1..][i..] == pending[i + 1..];
      assert pending[..i] == [pending[0]] + pending[1..i];
    }
  }

  lemma {:induction false} WithoutAbsent(pending: seq<Breakpoint>, id: int)
    requires forall b | b in pending :: b.id != id
    ensures WithoutId(pending, id) == pending
  {
    if pending != [] {
      WithoutAbsent(pending[1..], id);
      assert pending == [pending[0]] + pending[1..];
    }
  }

  /** Dropping a resolved entry, and passing over an unresolved one, as the resolving loop does. */
  lemma UnresolvedStep(kept: seq<Breakpoint>, p: Breakpoint, rest: seq<Breakpoint>, resolve: string -> seq<Address>)
    ensures resolve(p.specification) == [] ==>
              kept + Unresolved([p] + rest, resolve) == (kept + [p]) + Unresolved(rest, resolve)
    ensures resolve(p.specification) != [] ==>
              kept + Unresolved([p] + rest, resolve) == kept + Unresolved(rest, resolve)
  {
    assert ([p] + rest)[1..] == rest;
  }
}
