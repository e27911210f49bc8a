/**
 * What `CommandRegistry.add` and the disposal it returns do to the table of
 * registered commands, stated on values.
 *
 * `Register` follows the loop of `add` one command at a time; `Firsts` says
 * declaratively which commands of a batch end up registered. The lemmas
 * connect the two and state the promises of `add`: every id of the batch is
 * registered, an id already registered (or seen earlier in the batch) keeps
 * its first command, the `added` list has pairwise distinct ids, an empty
 * `added` list leaves the table as it was, and removing the added ids again
 * gives back the original table.
 */
module Registration {
  import opened Commands

  /** The registry's dictionary from id to command. */
  type Table<A> = map<string, DelegateCommand<A>>

  /** The ids of a list of commands. */
  function Ids<A>(cmds: seq<DelegateCommand<A>>): set<string>
  {
    set c | c in cmds :: c.id
  }

  /** Every entry of the table is stored under its command's own id. */
  ghost predicate Keyed<A>(t: Table<A>)
  {
    forall id :: id in t ==> t[id].id == id
  }

  /** `batch[j]` is the first command of the batch carrying its id. */
  predicate FirstOfId<A>(batch: seq<DelegateCommand<A>>, j: nat)
    requires j < |batch|
  {
    forall k :: 0 <= k < j ==> batch[k].id != batch[j].id
  }

  /**
   * `batch[j]` is registered by `add` on table `t`: its id is neither in
   * `t` nor used by an earlier command of the batch.
   */
  predicate IsNew<A>(t: Table<A>, batch: seq<DelegateCommand<A>>, j: nat)
    requires j < |batch|
  {
    batch[j].id !in t && FirstOfId(batch, j)
  }

  /** The commands of the batch that `add` registers, in batch order. */
  function Firsts<A>(t: Table<A>, batch: seq<DelegateCommand<A>>): seq<DelegateCommand<A>>
    decreases |batch|
  {
    if batch == [] then []
    else
      var n := |batch| - 1;
      Firsts(t, batch[..n]) + (if IsNew(t, batch, n) then [batch[n]] else [])
  }

  /**
   * The loop of `add`: each command whose id is not yet in the table is
   * appended to `added` and stored under its id; any other is skipped.
   * Returns the new table and the `added` list. The new table holds the old
   * ids and the ids of the batch, and keeps every old entry.
   */
  function Register<A>(t: Table<A>, batch: seq<DelegateCommand<A>>): (r: (Table<A>, seq<DelegateCommand<A>>))
    ensures r.0.Keys == t.Keys + Ids(batch)
    ensures forall id :: id in t ==> r.0[id] == t[id]
    decreases |batch|
  {
    if batch == [] then (t, [])
    else
      var n := |batch| - 1;
      var c := batch[n];
      var (t', added) := Register(t, batch[..n]);
      IdsSnoc(batch[..n], c);
      assert batch[..n] + [c] == batch;
      if c.id in t' then (t', added) else (t'[c.id := c], added + [c])
  }

  lemma IdsSnoc<A>(cmds: seq<DelegateCommand<A>>, c: DelegateCommand<A>)
    ensures Ids(cmds + [c]) == Ids(cmds) + {c.id}
  {
    var s := cmds + [c];
    assert c in s;
    assert forall d :: d in s <==> d in cmds || d == c;
  }

  /** `add` registers exactly the commands that `Firsts` selects. */
  lemma {:induction false} RegisterAddsFirsts<A>(t: Table<A>, batch: seq<DelegateCommand<A>>)
    ensures Register(t, batch).1 == Firsts(t, batch)
    decreases |batch|
  {
    if batch != [] {
      var n := |batch| - 1;
      var pre := batch[..n];
      var c := batch[n];
      RegisterAddsFirsts(t, pre);
      var (t', _) := Register(t, pre);
      // The id of `c` is in the table built so far exactly when `c` is not new.
      if c.id in t' && c.id !in t {
        var k :| k in pre && k.id == c.id;
        var i :| 0 <= i < n && pre[i] == k;
        assert batch[i].id == c.id;
      }
      if c.id !in t' {
        forall k | 0 <= k < n ensures batch[k].id != c.id {
          assert batch[k] in pre;
        }
      }
    }
  }

  /**
   * A command that `add` registers stays the one stored under its id: a
   * later command of the batch with the same id does not replace it.
   */
  lemma {:induction false} RegisterFirstWins<A>(t: Table<A>, batch: seq<DelegateCommand<A>>, j: nat)
    requires j < |batch| && IsNew(t, batch, j)
    ensures Register(t, batch).0[batch[j].id] == batch[j]
    decreases |batch|
  {
    var n := |batch| - 1;
    var pre := batch[..n];
    var c := batch[n];
    var (t', _) := Register(t, pre);
    if j < n {
      assert IsNew(t, pre, j);
      RegisterFirstWins(t, pre, j);
    } else {
      forall d | d in pre ensures d.id != c.id {
        var i :| 0 <= i < n && pre[i] == d;
      }
    }
  }

  /**
   * The `added` list names exactly the ids that were not registered before,
   * each once.
   */
  lemma {:induction false} RegisterAddedIds<A>(t: Table<A>, batch: seq<DelegateCommand<A>>)
    ensures var (t', added) := Register(t, batch);
      && Ids(added) == t'.Keys - t.Keys
      && Ids(added) == Ids(batch) - t.Keys
      && forall p, q :: 0 <= p < q < |added| ==> added[p].id != added[q].id
    decreases |batch|
  {
    if batch != [] {
      var n := |batch| - 1;
      var pre := batch[..n];
      var c := batch[n];
      RegisterAddedIds(t, pre);
      var (t', added) := Register(t, pre);
      if c.id !in t' {
        IdsSnoc(added, c);
        assert c.id !in Ids(added);
        var added' := added + [c];
        forall p, q | 0 <= p < q < |added'| ensures added'[p].id != added'[q].id {
          if q == |added| {
            assert added'[p] in added;
          }
        }
      }
    }
  }

  /** `add` leaves the table unchanged exactly when it adds nothing. */
  lemma {:induction false} RegisterUnchangedIff<A>(t: Table<A>, batch: seq<DelegateCommand<A>>)
    ensures Register(t, batch).1 == [] <==> Register(t, batch).0 == t
  {
    var (t', added) := Register(t, batch);
    RegisterAddedIds(t, batch);
    if added == [] {
      assert t'.Keys == t.Keys;
    } else {
      assert added[0].id in Ids(added);
    }
  }

  /** `add` keeps every entry stored under its own id. */
  lemma {:induction false} RegisterKeyed<A>(t: Table<A>, batch: seq<DelegateCommand<A>>)
    requires Keyed(t)
    ensures Keyed(Register(t, batch).0)
    decreases |batch|
  {
    if batch != [] {
      RegisterKeyed(t, batch[..|batch| - 1]);
    }
  }

  /**
   * Disposing right after `add` removes exactly the ids in `added` and so
   * gives back the table as it was before `add`.
   */
  lemma {:induction false} DisposeRestores<A>(t: Table<A>, batch: seq<DelegateCommand<A>>)
    ensures Register(t, batch).0 - Ids(Register(t, batch).1) == t
  {
    var (t', added) := Register(t, batch);
    RegisterAddedIds(t, batch);
    assert (t' - Ids(added)).Keys == t.Keys;
  }
}
