/**
 * `CommandRegistry`: a dictionary from command id to command, with a
 * `commandsAdded` and a `commandsRemoved` signal. The signals are modelled
 * by a ghost log of emissions; the disposable returned by `add` by the
 * `Disposable` datatype, whose `Dispose` runs the removal callback.
 */
module Registry {
  import opened Options
  import opened Commands
  import opened Registration

  /** One emission of a registry signal, with the commands it carries. */
  datatype Emission<A> =
    | CommandsAdded(added: seq<DelegateCommand<A>>)
    | CommandsRemoved(removed: seq<DelegateCommand<A>>)

  class CommandRegistry<A> {
    /** The registered commands, by id. */
    var commands: Table<A>
    /** Every signal emitted by this registry, oldest first. */
    ghost var emitted: seq<Emission<A>>

    /** Every command is registered under its own id. */
    ghost predicate Valid()
      reads this
    {
      Keyed(commands)
    }

    /** A new registry has no commands and has emitted nothing. */
    constructor ()
      ensures Valid()
      ensures commands == map[] && emitted == []
    {
      commands := map[];
      emitted := [];
    }

    /** The ids of the registered commands, each exactly once. */
    method List() returns (ids: seq<string>)
      ensures forall id :: id in ids <==> id in commands
      ensures forall i, j :: 0 <= i < j < |ids| ==> ids[i] != ids[j]
    {
      ids := [];
      var rest := commands.Keys;
      while rest != {}
        invariant forall id :: id in ids || id in rest <==> id in commands
        invariant forall id :: id in ids ==> id !in rest
        invariant forall i, j :: 0 <= i < j < |ids| ==> ids[i] != ids[j]
        decreases rest
      {
        var id :| id in rest;
        ids := ids + [id];
        rest := rest - {id};
      }
    }

    /** The command registered under `id`, or `None` when there is none. */
    function Get(id: string): (r: Option<DelegateCommand<A>>)
      requires Valid()
      reads this
      ensures r.Some? <==> id in commands
      ensures r.Some? ==> r.value == commands[id] && r.value.id == id
    {
      if id in commands then Some(commands[id]) else None
    }

    /**
     * Registers the commands of `batch` whose ids are not yet registered,
     * skipping the others. Emits `commandsAdded` once with the newly added
     * commands when there are any, and returns the disposable that removes
     * them again (one that does nothing when there are none).
     */
    method Add(batch: seq<DelegateCommand<A>>) returns (handle: Disposable<A>)
      requires Valid()
      modifies this
      ensures Valid()
      ensures commands == Register(old(commands), batch).0
      ensures var added := Register(old(commands), batch).1;
        && handle == (if added == [] then NoOp else Removal(this, added))
        && emitted == old(emitted) + (if added == [] then [] else [CommandsAdded(added)])
    {
      var added := [];
      for i := 0 to |batch|
        invariant (commands, added) == Register(old(commands), batch[..i])
        invariant emitted == old(emitted)
      {
        var cmd := batch[i];
        assert batch[..i + 1] == batch[..i] + [cmd];
        if cmd.id !in commands {
          added := added + [cmd];
          commands := commands[cmd.id := cmd];
        }
      }
      assert batch[..|batch|] == batch;
      RegisterKeyed(old(commands), batch);
      if added == [] {
        return NoOp;
      }
      emitted := emitted + [CommandsAdded(added)];
      handle := Removal(this, added);
    }
  }

  /**
   * The disposable returned by `CommandRegistry.Add`: nothing to undo, or
   * the registry and the commands that call added to it.
   */
  datatype Disposable<A> =
    | NoOp
    | Removal(registry: CommandRegistry<A>, added: seq<DelegateCommand<A>>)
  {
    /**
     * The removal callback: deletes the id of every added command from the
     * registry, leaving all other ids as they are, and emits
     * `commandsRemoved` once with the added commands.
     */
    method Dispose()
      requires Removal? ==> registry.Valid()
      modifies if Removal? then {registry} else {}
      ensures Removal? ==> registry.Valid()
      ensures Removal? ==> registry.commands == old(registry.commands) - Ids(added)
      ensures Removal? ==> registry.emitted == old(registry.emitted) + [CommandsRemoved(added)]
    {
      if NoOp? {
        return;
      }
      for i := 0 to |added|
        invariant registry.commands == old(registry.commands) - Ids(added[..i])
        invariant registry.emitted == old(registry.emitted)
      {
        IdsSnoc(added[..i], added[i]);
        assert added[..i + 1] == added[..i] + [added[i]];
        registry.commands := registry.commands - {added[i].id};
      }
      assert added[..|added|] == added;
      registry.emitted := registry.emitted + [CommandsRemoved(added)];
    }
  }
}
