/**
 * `DelegateCommand`: a command with a constant identifier, an `enabled`
 * flag and two user-supplied delegates, one that executes the command and
 * an optional one that decides whether it can execute.
 *
 * The arguments of a command (`any` in the source, "simple JSON types" by
 * its documentation) are a type parameter `A`. The delegates are opaque,
 * total functions. The `canExecuteChanged` signal is modelled by a ghost
 * count of its emissions, and the effect of `execute` by a ghost log of the
 * arguments it was called with.
 */
module Commands {
  import opened Options

  class DelegateCommand<A> {
    /** The identifier; declared `const`, so no method can change it. */
    const id: string
    /** The delegate which executes the command logic. */
    const executeFn: A -> ()
    /** The optional delegate deciding whether the command can execute. */
    const canExecuteFn: Option<A -> bool>

    /** The enabled state of the command. */
    var enabled: bool
    /** How many times `canExecuteChanged` has been emitted. */
    ghost var changedCount: nat
    /** The arguments of every call to `execute`, oldest first. */
    ghost var executions: seq<A>

    /** A new command keeps the given id and delegates and starts enabled. */
    constructor (id: string, execute: A -> (), canExecute: Option<A -> bool>)
      ensures this.id == id && executeFn == execute && canExecuteFn == canExecute
      ensures enabled
      ensures changedCount == 0 && executions == []
    {
      this.id := id;
      executeFn := execute;
      canExecuteFn := canExecute;
      enabled := true;
      changedCount := 0;
      executions := [];
    }

    /**
     * The `enabled` setter: a value equal to the current one changes
     * nothing and emits nothing; a different value is stored and
     * `canExecuteChanged` is emitted exactly once.
     */
    method SetEnabled(value: bool)
      modifies this`enabled, this`changedCount
      ensures enabled == value
      ensures old(enabled) == value ==> unchanged(this)
      ensures old(enabled) != value ==> changedCount == old(changedCount) + 1
      ensures forall args :: CanExecute(args) <==> value && (canExecuteFn.None? || canExecuteFn.value(args))
    {
      if enabled == value {
        return;
      }
      enabled := value;
      changedCount := changedCount + 1;
    }

    /**
     * A disabled command can never execute; an enabled one can execute
     * exactly when its predicate, if it has one, accepts the arguments.
     */
    function CanExecute(args: A): (r: bool)
      reads this
      ensures !enabled ==> !r
      ensures enabled && canExecuteFn.Some? ==> (r <==> canExecuteFn.value(args))
      ensures enabled && canExecuteFn.None? ==> r
    {
      if enabled && canExecuteFn.Some? then canExecuteFn.value(args) else enabled
    }

    /**
     * Runs the execute delegate on `args`. Nothing is checked first: the
     * source leaves a call on a command that cannot execute undefined.
     */
    method Execute(args: A)
      modifies this`executions
      ensures executions == old(executions) + [args]
    {
      var _ := executeFn(args);
      executions := executions + [args];
    }
  }
}
