// Retrying pending specifications, one after the other.
module Retries {
  import opened Common
  import opened LogicalMemory
  import opened BreakpointIds
  import opened Stops

  /** What placing the entries of one pending specification does to the table. */
  ghost predicate Placed(p: Breakpoint, resolve: Resolver, t: Table, t': Table, ok: Outcome) {
    && Extends(t, t')
    && (forall a | a in t' :: a in t || a in resolve(p.specification))
    && (ok == Ok ==>
          && (forall a | a in resolve(p.specification) :: a in t')
          && (forall a | a in t' && a !in t :: MadeFor(t'[a], p.specification)))
  }

  lemma FollowedByOne(t: Table, done: seq<Breakpoint>, p: Breakpoint, resolve: Resolver, t1: Table, t2: Table)
    requires Settling(t, done, resolve, t1) && Placed(p, resolve, t1, t2, Ok)
    ensures Settling(t, done + [p], resolve, t2)
  {
    SettlingMeans(t, done, resolve, t1);
    SettlingMeans(t, done + [p], resolve, t2);
    var more := done + [p];
    assert p in more;
    forall q | q in done ensures q in more {}
    forall a | a in t2 && a !in t ensures Made(t2[a], a, more, resolve) {
      if a in t1 {
        assert Made(t1[a], a, done, resolve);
        var q :| q in done && a in resolve(q.specification) && MadeFor(t1[a], q.specification);
        assert q in more && MadeFor(t2[a], q.specification);
      } else {
        assert MadeFor(t2[a], p.specification);
      }
    }
    forall a | a in Holdable(t, more, resolve) && a !in t ensures a in t2 {
      var q :| q in more && a in resolve(q.specification);
      if q in done {
        assert a in Holdable(t, done, resolve);
      }
    }
  }

  /** The loop of resolve_pending_breakpoints has dealt with `done` of the entries and stands at index i. */
  ghost predicate Retrying(t: Table, all: seq<Breakpoint>, done: nat, resolve: Resolver, i: nat,
                           pending: seq<Breakpoint>, t': Table) {
    && done <= |all| && i <= |pending|
    && Settling(t, all[..done], resolve, t')
    && pending[i..] == all[done..]
    && Unresolved(all, resolve) == pending[..i] + Unresolved(all[done..], resolve)
    && forall p | p in pending :: p in all
  }

  lemma NextPending(t: Table, all: seq<Breakpoint>, done: nat, resolve: Resolver, i: nat, pending: seq<Breakpoint>,
                    t': Table)
    requires Retrying(t, all, done, resolve, i, pending, t') && i < |pending|
    ensures done < |all| && all[done] == pending[i]
    ensures all[done..] == [pending[i]] + all[done + 1..] && all[..done + 1] == all[..done] + [pending[i]]
    ensures pending[i + 1..] == all[done + 1..]
  {
    assert pending[i..][0] == pending[i] && all[done..][0] == all[done];
    assert pending[i + 1..] == pending[i..][1..] && all[done + 1..] == all[done..][1..];
  }

  lemma StillPending(t: Table, all: seq<Breakpoint>, done: nat, resolve: Resolver, i: nat, pending: seq<Breakpoint>,
                     t': Table)
    requires Retrying(t, all, done, resolve, i, pending, t') && i < |pending|
    requires resolve(pending[i].specification) == []
    ensures Retrying(t, all, done + 1, resolve, i + 1, pending, t')
  {
    NextPending(t, all, done, resolve, i, pending, t');
    UnresolvedStep(pending[..i], pending[i], all[done + 1..], resolve);
    FollowedByOne(t, all[..done], pending[i], resolve, t', t');
    assert pending[..i + 1] == pending[..i] + [pending[i]];
  }

  lemma NoLongerPending(t: Table, all: seq<Breakpoint>, done: nat, resolve: Resolver, i: nat, pending: seq<Breakpoint>,
                        t1: Table, t2: Table)
    requires Retrying(t, all, done, resolve, i, pending, t1) && i < |pending|
    requires resolve(pending[i].specification) != [] && Placed(pending[i], resolve, t1, t2, Ok)
    ensures Retrying(t, all, done + 1, resolve, i, pending[..i] + pending[i + 1..], t2)
  {
    var left := pending[..i] + pending[i + 1..];
    NextPending(t, all, done, resolve, i, pending, t1);
    UnresolvedStep(pending[..i], pending[i], all[done + 1..], resolve);
    assert left[i..] == pending[i + 1..] && left[..i] == pending[..i];
    FollowedByOne(t, all[..done], pending[i], resolve, t1, t2);
  }

  /** Whether placing an entry ends well or not, the table holds nothing but what was asked for. */
  lemma PlacedKeys(t: Table, all: seq<Breakpoint>, done: nat, resolve: Resolver, i: nat, pending: seq<Breakpoint>,
                   t1: Table, t2: Table)
    requires Retrying(t, all, done, resolve, i, pending, t1) && i < |pending|
    requires Placed(pending[i], resolve, t1, t2, Thrown)
    ensures t2.Keys <= Holdable(t, all, resolve)
  {
    SettlingMeans(t, all[..done], resolve, t1);
    FollowedKeys(t, all[..done], resolve, None, t1);
    assert pending[i] in all;
  }

  lemma RetryStarts(t: Table, all: seq<Breakpoint>, resolve: Resolver)
    ensures Retrying(t, all, 0, resolve, 0, all, t)
  {
    SettlingMeans(t, all[..0], resolve, t);
    assert all[0..] == all && all[..0] == [];
  }

  lemma Retried(t: Table, all: seq<Breakpoint>, done: nat, resolve: Resolver, i: nat, pending: seq<Breakpoint>,
                t': Table)
    requires Retrying(t, all, done, resolve, i, pending, t') && i == |pending|
    ensures pending == Unresolved(all, resolve) && Followed(t, all, resolve, None, t')
    ensures t'.Keys <= Holdable(t, all, resolve)
  {
    assert all[..done] == all && all[done..] == [] && pending[..i] == pending;
    SettlingMeans(t, all, resolve, t');
    FollowedKeys(t, all, resolve, None, t');
  }
}
